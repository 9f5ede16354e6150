# Quizzical quiz core in Dafny

This project models the core of a desktop quiz application built on Electron and Vue, and proves properties of that model. The core has two parts:

- **The question-file parser** of the main process (`src/index.js`). It cuts the question file into lines at `"\r\n"` and each line into fields at `;`. Each line becomes a question record with a type code (`mc`, `tf`, `sa`, `o` or `n`), the question text, the answer, an explanation (for true/false questions only) and options (for multiple-choice and ordering questions only).
- **The quiz window's logic** (`src/window.js`):
  - `generateQuiz` picks five questions, at random or the fixed demo set. It copies them and shuffles their options with a modified Fisher–Yates shuffle that retries while the first two slots are unchanged.
  - `onDrop` swaps two options of an ordering question.
  - `readyToSubmit` checks that every question is answered and that numeric answers are integers.
  - `submitQuiz` grades each question by its type's rule, records the stats and appends the result to the stored history.
  - `updateStreak` counts consecutive quiz days from the history.
  - `getFormattedTime`, `formatAnswer` and `getQuestionType` are the display helpers.

Module layout:

| file | module | flavour |
|---|---|---|
| `types.dfy` | `Types` | the shared values: question, answer, selection, stats, history entry |
| `text.dfy` | `Text` | JavaScript's `split`, `join`, ASCII `toLowerCase`, `parseInt`, `toString`, `padStart` and `%` |
| `parser.dfy` | `QuestionParser` | the line and field parser, with its inverse |
| `shuffle.dfy` | `Shuffle` | the in-place shuffle on an `array`, specified by functions on sequences |
| `grading.dfy` | `Grading` | how each question type is marked, and the loop over the quiz |
| `ready.dfy` | `Readiness` | the readiness loop and its messages |
| `streak.dfy` | `Streak` | the streak loop |
| `format.dfy` | `Format` | the display helpers |
| `window.dfy` | `Window` | the window state as a class `App` whose methods change its fields, with quiz generation, drag and drop, grading, saving and the streak |

### External inputs

The following inputs are parameters of the model:

- `Math.random()` is a sequence of reals in `[0, 1)`, the type `Shuffle.Draw`.
  - The random picks of `generateQuiz` get one sequence.
  - Each pass of the shuffle gets a sequence of its own.
  - When the randomness runs out, the model returns a flag instead of looping: `complete` for the picks and `settled` for the shuffle.
- `Date.now()` is a number of milliseconds.
- "today" is a day number. A calendar day of a timestamp is `ts / 86400000`, that is, days in UTC.
- The formatted submission date is a string.

### Behaviour of the code that its comments or names do not suggest

The model follows the code in each case.

- **The shuffle works in place.** `generateQuiz` copies each question "so that we don't modify the original" (src/window.js:102), but `Object.assign` makes a shallow copy, and `shuffle` reorders the array it is given in place. So the options arrays of the repository's questions are shuffled too. The model keeps `options` as a shared `array` and says so in `CopyAndShuffle` and `GenerateQuiz`.
- **The random picks loop forever on a small repository.** The loop draws until it has five different indices and never looks at the repository's size, so with fewer than five questions it does not end. In the model the picks never come out `complete` in that case: `PickRandomIndices` proves that `complete` implies at least five questions.
- **An empty history is an error.** `updateStreak` reads the first timestamp, so a missing or empty history throws before the streak changes. `UpdateQuizHistory` models exactly that.
- **Grading can throw.** The grading `switch` throws a TypeError in three cases:
  - a short-answer or numeric question whose `sel` is not a string;
  - a short-answer or numeric question whose `answer` is not a string (`answer.toLowerCase()`, src/window.js:136);
  - an ordering question without options.

  `Grading.Gradable` is the precondition that excludes these cases.
- **Unknown question types are not graded.** For a type the `switch` does not know, `correct` stays `undefined` (`None`) and the question counts as wrong.
- **`readyToSubmit` accepts "NaN".** It accepts a numeric answer exactly when the answer is the canonical decimal text of an integer or the text `"NaN"`. `parseInt("NaN")` is NaN, whose text is `"NaN"` again (`Readiness.NotIntegerMeans`).
- **Ordering is graded against the displayed options only.** It compares slot by slot over the options' length, so displayed options that form a prefix of the answer grade correct. The parser always gives both lists the same length (`ToRecord`), and on such questions the comparison is exact (`OrderingExact`).
- **A multiple-choice line without an answer field never grades correct.** Its answer is `undefined`, while `generateQuiz` sets `sel` to `''` and a choice sets it to a string; neither is strictly equal to `undefined` (`SelIsAnswer`).
- **A temporary save stores "[object Object]".** The comment at src/window.js:176 speaks of saving in-progress quizzes, but the code hands the record itself to `localStorage.setItem`, which keeps only the text of its value, so the slot holds the text "[object Object]" (`SaveQuiz`).
- **A shuffle that does not settle throws.** The shuffle is meant never to give back an identical array of more than two elements (src/window.js:18). It calls itself again while the first two slots are unchanged, so an array whose elements are all equal makes it recurse until the stack overflows. `generateQuiz` then stops with the copies made so far in the quiz, and the quiz does not open (`GenerateQuiz`, `ConstantNeverSettles`).
- **The history's order flips.** `updateStreak` reverses `quizHistory` in place, so two calls on the same loaded history leave it oldest first again (`ReversedTwice`).

## Model

| member | source | states |
|---|---|---|
| QuestionParser.Item | src/index.js:94-97 | `item[k]` is the k-th field when there is one, `undefined` past the end, never `null` |
| QuestionParser.FromThird | src/index.js:96-98 | `item.slice(2)` is what follows the first two fields, and empty when there are fewer than three |
| QuestionParser.SplitOnChar | src/index.js:91 | splitting at `;` gives a first piece that is the text up to the first `;`, and no piece holds a `;` |
| QuestionParser.ToRecord | src/index.js:91-99 | the type code is the text before the first `;`; an explanation only for `tf`; options only for `mc` and `o`; a list answer only for `o`, equal to its options; `mc`'s answer is its first option (`undefined` when there is none) |
| QuestionParser.ParseQuestions | src/index.js:87-100 | the loop emits one record per `"\r\n"` piece, in order, each the record of its line |
| QuestionParser.ParseTrailingLineBreak | src/index.js:89 | a trailing `"\r\n"` yields one extra record whose type is `""` and whose question is `undefined` |
| QuestionParser.ParseWithoutCarriageReturn | src/index.js:89 | a file with `"\n"` line ends only is a single record |
| QuestionParser.Fields | src/index.js:93-99 | the fields of a well-formed record's line: at least two, none holding `;` or a carriage return |
| QuestionParser.EncodeThenParse | src/index.js:91-99 | parsing the line written from a well-formed record of any of the five types gives the record back |
| QuestionParser.EncodeAll | src/index.js:89 | one line per record, in order |
| QuestionParser.ParseEncodedFile | src/index.js:87-100 | a file written from well-formed records parses back to exactly those records, in order |
| Text.Split | src/index.js:89 | `split` with a non-empty separator yields at least one piece |
| Text.JoinSplit | src/index.js:89 | joining the pieces of a split with the separator gives the text back |
| Text.SplitWithoutSeparator | src/index.js:89 | text without the separator's first character splits into itself alone |
| Text.SplitTrailingSeparator | src/index.js:89 | a trailing separator adds one empty piece |
| Text.SplitAfterPiece | src/index.js:89 | a piece free of the separator's first character, then the separator, splits off as the first piece |
| Text.SplitJoin | src/index.js:89-91 | joining pieces free of the separator's first character and splitting again gives the pieces back |
| Text.Lower | src/window.js:136 | `toLowerCase` keeps the length and leaves no upper-case ASCII letter |
| Text.LowerIdempotent | src/window.js:136 | lower-casing twice is lower-casing once |
| Text.NatToString | src/window.js:325 | `toString` of a non-negative integer is decimal digits with no leading zero except in `"0"` |
| Text.NatToStringReadsBack | src/window.js:325 | reading back the decimal text of `n` gives `n` |
| Text.DigitsReadBack | src/window.js:372 | digits without a leading zero are the decimal text of their value |
| Text.Join | src/window.js:231 | `join` of at least one piece starts with the first piece |
| Text.IntToString | src/window.js:325 | `toString` of an integer is its canonical decimal text, with a leading `-` exactly for a negative number |
| Text.TrimStart | src/window.js:372 | `parseInt` skips exactly the leading white space: every dropped character is white space and the rest does not start with any |
| Text.ParseInt | src/window.js:372 | text that is empty or all white space parses to NaN |
| Text.ParseHex | src/window.js:372 | without a radix, `parseInt` reads the digits after a `0x` or `0X` prefix as hexadecimal and gives their value |
| Text.HexIsNotIntegerText | src/window.js:372 | a text with the `0x` prefix never passes the integer test, as `toString` writes decimal |
| Text.ParseDigits | src/window.js:372 | a text of decimal digits parses to its value |
| Text.DigitsAreNotTrimmed | src/window.js:372 | a text starting with a digit has no white space or sign for `parseInt` to skip |
| Text.IsIntegerText | src/window.js:372 | the empty text never survives `parseInt(s).toString()` |
| Text.LeadingDigits | src/window.js:372 | `parseInt` reads the longest prefix of digits |
| Text.LeadingDigitsOfDigits | src/window.js:372 | all-digit text is read whole |
| Text.LeadingDigitsStop | src/window.js:372 | the digits read stop at the first non-digit |
| Text.IntegerTextOnlyCanonical | src/window.js:372 | text other than `"NaN"` that survives `parseInt(s).toString()` is in canonical decimal form |
| Text.CanonicalIsIntegerText | src/window.js:372 | canonical decimal text of an integer survives `parseInt(s).toString()` |
| Text.NaNIsIntegerText | src/window.js:372 | the text "NaN" passes the integer test: it parses to NaN, whose text is "NaN" |
| Text.IntegerTextIsCanonical | src/window.js:372 | the round trip accepts exactly the canonical decimal forms and `"NaN"` |
| Text.PadStart | src/window.js:325 | `padStart(n, c)` reaches length `n`, ends with the text and pads with `c` only |
| Text.JsRem | src/window.js:325 | JavaScript's `%` takes the sign of the dividend, stays below the divisor in magnitude, and differs from the Euclidean remainder by 0 or by the divisor |
| Shuffle.Pick | src/window.js:31 | `Math.floor(Math.random() * c)` is an index below `c` |
| Shuffle.Swap | src/window.js:35-37 | the three-assignment swap keeps the length |
| Shuffle.SwapPermutes | src/window.js:35-37 | a swap keeps the same elements |
| Shuffle.SwapTwice | src/window.js:35-37 | swapping the same two slots twice restores the array |
| Shuffle.Pass | src/window.js:28-38 | the remaining steps of a pass keep the length |
| Shuffle.Round | src/window.js:25-38 | a complete pass keeps the length |
| Shuffle.Retry | src/window.js:23-44 | the shuffle with its retries keeps the length of the array and of the last round's input |
| Shuffle.ShufflePass | src/window.js:25-38 | the `while` loop on the array leaves it as the specified pass of its old contents |
| Shuffle.ShuffleArray | src/window.js:23-44 | the array ends as the retried shuffle of its old contents, and `settled` says whether the retries ended within the randomness given |
| Shuffle.PassPermutes | src/window.js:28-38 | a pass is a permutation |
| Shuffle.RetryPermutes | src/window.js:23-44 | the shuffle's result is a permutation of the caller's array |
| Shuffle.RetryMovesFirstTwo | src/window.js:40-42 | on an array longer than two, a settled shuffle differs from the caller's array in its first two slots, although every retry re-copies `original` from the already shuffled array |
| Shuffle.PassKeepsConstant | src/window.js:28-38 | a pass over equal elements leaves them equal |
| Shuffle.ConstantNeverSettles | src/window.js:40-42 | an array longer than two whose elements are all equal never settles: the retries go on for as long as there is randomness |
| Grading.Grade | src/window.js:130-151 | the `switch` leaves `correct` undefined exactly for a type it does not know |
| Grading.Gradable | src/window.js:130-149 | multiple-choice and true/false questions never make the `switch` throw |
| Grading.SelIsAnswer | src/window.js:132 | `sel === answer` holds only for a single-field answer that is not `null`, and never for a numeric `sel` |
| Grading.CountCorrect | src/window.js:152 | the count of correct questions is at most the number of questions |
| Grading.OrderCorrect | src/window.js:141-148 | the ordering loop's `correct` is true exactly when the displayed options are a prefix of the answer |
| Grading.GradeQuestions | src/window.js:127-154 | every question gets its verdict, in order, with nothing else changed; `numCorrect` counts the correct ones and `numTotal` all of them |
| Grading.CaseInsensitive | src/window.js:134-137 | short-answer and numeric grading ignores ASCII case |
| Grading.TrueFalseRule | src/window.js:138-140 | true/false is correct exactly for button 1 with answer `"true"` or button 0 with answer `"false"`, and never for a string `sel` |
| Grading.OrderingExact | src/window.js:141-148 | with options as long as the answer, ordering is correct exactly when they are in the answer's order |
| Grading.OrderingTransposition | src/window.js:141-148 | any transposition of two different items grades incorrect |
| Grading.CountSameVerdicts | src/window.js:152 | the count depends only on the verdicts |
| Grading.CountAllCorrect | src/window.js:152-153 | the count reaches the total exactly when every question is correct |
| Grading.RegradeIsStable | src/window.js:127-160 | grading an already graded quiz gives the same verdicts and count, and grading never changes `sel`, `options` or `answer` |
| Readiness.Unanswered | src/window.js:365 | a numeric `sel`, such as the true/false button 0, is never unanswered |
| Readiness.NotInteger | src/window.js:372 | a `sel` that is not a string, and the empty text, always fail the integer test |
| Readiness.NotIntegerMeans | src/window.js:372 | the numeric test rejects everything but canonical decimal text of an integer and `"NaN"`, and every non-string `sel` |
| Readiness.Complaint | src/window.js:365-376 | a question gets a message exactly when it is unanswered, or is numeric with a non-integer response |
| Readiness.Piece | src/window.js:365-376 | a question adds text to `missing` exactly when it has a message |
| Readiness.QuestionMessage | src/window.js:365-376 | the source's branches pick the message `Complaint` specifies |
| Readiness.ReadyToSubmit | src/window.js:361-382 | `ready` is true exactly when no question has a message, and `missing` is every message with its line break, in question order |
| Readiness.BeforeThenFrom | src/window.js:364-377 | what the loop appended so far, followed by what the remaining questions add, is the whole of `missing` |
| Readiness.AllBefore | src/window.js:364-377 | at the loop's end its text is all of `missing` |
| Readiness.NothingMissingMeansReady | src/window.js:362-377 | `missing` is empty exactly when no question from that point on has a message |
| Readiness.ComplaintIsOneLine | src/window.js:368-375 | no message holds a carriage return |
| Readiness.ComplaintNumbersQuestion | src/window.js:368-375 | every message starts with "Question " followed by the digits of the question's 1-based position |
| Readiness.NumberAfterHead | src/window.js:368-375 | digits followed by a non-digit are read back exactly |
| Readiness.WordingStartsWithNonDigit | src/window.js:368-375 | each wording after the number starts with a non-digit |
| Readiness.LockedInWording | src/window.js:367-371 | an unanswered question gets the "locked in" wording exactly when it is an ordering question |
| Readiness.MissingLines | src/window.js:364-377 | `missing` read as lines is one line per failing question, in order, followed by the empty text after the last line break |
| Readiness.FailingQuestionListed | src/window.js:364-377 | every failing question's message is among the lines |
| Readiness.LinesAreComplaints | src/window.js:364-377 | every line is the message of some failing question |
| Streak.Day | src/window.js:294-296 | a timestamp's day is the one whose `[start, start of next day)` interval contains it |
| Streak.DayMonotone | src/window.js:294-296 | a later timestamp is never on an earlier day |
| Streak.Scan | src/window.js:293-300 | the loop's count never decreases |
| Streak.ScanCountsDays | src/window.js:291-300 | on newest-first timestamps the loop counts the days backwards from yesterday that hold a quiz, up to the first day that holds none |
| Streak.DaysInARowUnique | src/window.js:293-300 | only one count has that shape |
| Streak.CountStreak | src/window.js:292-302 | `doneToday` is whether the newest quiz is from today; the count is the loop's, plus one for today; on newest-first timestamps the loop's part is the run of quiz days ending yesterday |
| Streak.StreakImage | src/window.js:305 | the picture is unhappy at 0 days, happy at 1 to 3 and very happy above 3 |
| Format.QuestionTypeName | src/window.js:205-220 | the name is "Unknown" exactly for a code that is not a known type |
| Format.QuestionTypeNameDistinguishes | src/window.js:205-220 | different known codes get different names |
| Format.FormatAnswer | src/window.js:225-235 | "True" and "False" for the texts `"true"` and `"false"`, the text itself for any other string |
| Format.FormatListReadsBack | src/window.js:230-231 | a list answer's text splits back at ", " into its items when no item holds a comma |
| Format.ShownSeconds | src/window.js:319-324 | the saved time in review mode, 0 without stats or time, and otherwise the running time, each in whole seconds rounded down |
| Format.PaddedDigitsValue | src/window.js:325 | padding digits with '0' keeps them digits and keeps their value |
| Format.SplitAtColon | src/window.js:325 | two digit texts joined by a colon split back into the two |
| Format.SecondsField | src/window.js:325 | the seconds field is exactly two digits worth the seconds |
| Format.MinutesText | src/window.js:325 | for a non-negative time, the minutes are decimal digits worth `seconds / 60` |
| Format.SecondsText | src/window.js:325 | for a non-negative time, the seconds field is two digits worth `seconds % 60` |
| Format.Clock | src/window.js:325 | for a non-negative time, the text ends with a colon and two digits |
| Format.FormattedTime | src/window.js:318-326 | a review without stats, or with a saved time of 0, shows "0:00" |
| Format.FormattedTimeReadsBack | src/window.js:318-326 | a non-negative time shown splits at the colon into two digit texts, minutes and seconds, worth the seconds shown |
| Format.ClockReadsBack | src/window.js:318-326 | for a non-negative time, `m:ss` is minutes, a colon and two digits of seconds below 60, which read back to the seconds shown |
| Window.IndexFor | src/window.js:90 | a random index is within the repository, or 0 for an empty one |
| Window.DistinctElements | src/window.js:89-95 | distinct indices have as many elements as entries |
| Window.Upto | src/window.js:89-95 | the indices below a bound, in order |
| Window.DistinctBelow | src/window.js:89-95 | distinct indices below `b` number at most `b` |
| Window.Drawn | src/window.js:89-95 | the indices kept from the draws are distinct, no more than the draws, and within the repository (0 for an empty one) |
| Window.PickRandomIndices | src/window.js:87-95 | the picks are the distinct indices of the draws used, in the order of their first draw. The loop stops at the draw that makes five, or when the draws run out. Five picks need at least five questions |
| Window.PickIndices | src/window.js:87-99 | the picks are distinct. Type 0 picks as `PickRandomIndices` does; any other type picks the fixed questions 0, 10, 20, 30 and 40 and uses no draw |
| Window.RoundsFor | src/window.js:104-107 | each copied question's shuffle gets its own rounds, and a shuffle past the last one given gets none |
| Window.CopiesDoNotShare | src/window.js:101-102 | when the repository's questions have distinct options arrays, the copies of two different picks do not share one |
| Window.ShuffleCopy | src/window.js:104-107 | the copy's options array, shared with the repository, ends as the retried shuffle of its contents and keeps its elements; it is none of the arrays shuffled before |
| Window.QuizCopy | src/window.js:102-103 | the copy is the repository's question, sharing its options array, with `sel` set to `''`; past the repository's end only `sel` is set |
| Window.CopyAndShuffle | src/window.js:101-109 | one copy per pick, in order, up to the first shuffle that does not settle; `settled` holds exactly when every pick was copied. Each copied options array is the settled shuffle of its old contents under its own rounds. On failure, the failing pick's array holds the unsettled shuffle. Every options array of the repository keeps its elements, and one that was neither copied nor the failing pick's keeps its contents |
| Window.UnpickedNotCopied | src/window.js:101-102 | the options array of a question that was not picked is none of the copies' arrays, nor the failing pick's |
| Window.Timestamps | src/window.js:291 | `map(r => r.ts)` keeps length and order |
| Window.Reversed | src/window.js:291 | `reverse` puts entry `k` at the mirrored position |
| Window.ReversedTwice | src/window.js:291 | reversing twice restores the order |
| Window.Appended | src/window.js:181-189 | saving appends the record to the stored history, or starts a history holding only it |
| Window.AppendKeepsChronological | src/window.js:169-189 | saving at a time no earlier than every stored one keeps the history oldest first |
| Window.ReversedIsNewestFirst | src/window.js:291 | a history stored oldest first gives newest-first timestamps once reversed |
| Window.HistoryStreakIsRun | src/window.js:289-300 | on a history stored oldest first, the loop counts the run of consecutive quiz days ending yesterday |
| Window.HistoryStreak | src/window.js:289-302 | reverse the history, then count the streak over its timestamps |
| Window.App.constructor | src/window.js:52-77 | the window's initial data: landing page, empty quiz, no history and an empty streak; the repository is the one given |
| Window.App.GenerateQuiz | src/window.js:84-115 | the picks are those of `PickIndices`. The quiz is the copies of the picks in order, with an empty `sel`, each options array shuffled from its old contents by its own rounds. Every shared options array keeps its elements. The array of a question that was not picked keeps its contents, as does that of a pick after a shuffle that does not settle, and when the picks are incomplete every array keeps its contents. Only when the picks are complete and every shuffle settles does the timer start and the quiz open in quiz mode on question 0; otherwise the page, the dialog, the mode and the timer are unchanged |
| Window.App.StartQuiz | src/window.js:101-115 | the copying loop and the opening of the quiz once five questions are picked: the quiz is the copies, the quiz opens exactly when every shuffle settled, and arrays that were not shuffled keep their contents |
| Window.App.OpenQuiz | src/window.js:108-114 | the copies become the quiz, the timer starts from `now` and the quiz page opens on question 0 |
| Window.App.OnDrop | src/window.js:251-262 | a locked-in question keeps its options, and otherwise the two options are swapped in place |
| Window.App.UpdateStreak | src/window.js:289-306 | `quizHistory` becomes the reversed history, and the streak data are the count, today's flag and the picture for that history |
| Window.App.UpdateQuizHistory | src/window.js:196-199 | the stored history is loaded and its streak shown; with no stored quiz the streak is unchanged |
| Window.App.SaveQuiz | src/window.js:169-191 | a temporary save puts the text "[object Object]" in the temporary slot and changes nothing else; otherwise the record is appended to the stored history, whose streak is then shown |
| Window.App.GradeQuiz | src/window.js:124-160 | the timer stops at `now`, review mode opens on question 0, every question gets its verdict, and the stats hold the date, the time, the correct count and the total |
| Window.App.SubmitQuiz | src/window.js:123-162 | grades as `GradeQuiz` does, appends a record of `now` and the stats to the stored history, and shows its streak |

## Left out

- Window creation, menus, the IPC transport, `fs` reads and `localforage` or `localStorage` mechanics are out of scope. Storage is two fields of `App`: the stored history and the temporary slot.
- The `async` interleaving of `saveQuiz` and `updateQuizHistory` is not modelled. They run in sequence.
- Timing is modelled only through its end points.
  - `Date.now()`, `setInterval` and the once-a-second `timer._update` are left out.
  - `GenerateQuiz` sets the start time.
  - `GradeQuiz` sets the final `timeTaken` that `timer.stop` computes.
- Local time zones and luxon's calendar arithmetic are not modelled. Days are UTC day numbers, so a streak near daylight-saving changes is not modelled.
- `formatTS` is not modelled. Its localised date text is the `date` parameter.
- The Vue UI is out of scope: templates, `$forceUpdate`, `onDrag`, `qh`, `openExternal`, `confirmExit` and the `currentQuestion` getter's `index` property.
- The history records carry no question list. `saveQuiz` also stores `questions`, which nothing in the core reads back.
- Text.ParseInt: models ASCII digits after JavaScript white space, an optional sign and, for hexadecimal, a `0x` or `0X` prefix. It does not model the floating-point rounding of digit strings above 2^53, or the exponent form that `toString` gives very large numbers.
- Text.Lower: models ASCII `toLowerCase`. Unicode case mapping is not modelled.
- Shuffle.Pick: the model proves only the index range and permutation. The uniform distribution of Fisher–Yates is not stated.
- Window.App.OnDrop: requires `src` and `dest` to be indices of the current options. The source's `parseInt` of drag data and out-of-range writes into a JavaScript array are not modelled.
- Window.App.UpdateStreak: requires a non-empty loaded history, because the source throws on a missing one. `UpdateQuizHistory` models that case by leaving the streak unchanged.
- Window.App.GradeQuiz: requires every question to be `Gradable`, the cases where the `switch` does not throw a TypeError.
- Window.App.SubmitQuiz: has the same requirement as `GradeQuiz`.
- Window.App.constructor: requires that different questions of the repository have different options arrays (`DistinctOptions`). The parser builds a new array for every line, but the IPC transport that delivers the questions to the window is not modelled.
- Window.App.GenerateQuiz: a shuffle that would recurse until the stack overflows becomes `settled == false` when its rounds run out; the thrown error itself is not modelled.
- Format.FormatAnswer: requires an answer that is not `undefined` or `null`, on which `toString` throws.
- Window.PickRandomIndices: the random loop's non-termination becomes `complete == false` when the draws run out.
- Shuffle.ShuffleArray: the retry's non-termination becomes `settled == false` when the rounds run out.
- Readiness.ReadyToSubmit: the loop body's choice of message sits in `QuestionMessage`, which takes the source's branches in the same order.
