/** The quiz window's state (the Vue app's `quiz`, `streak` and
    `quizHistory` data, the timer and the stored history) and the methods
    that change it. `Date.now()`, the current day and `Math.random()` are
    parameters. */
module Window {
  import opened Types
  import Shuffle
  import Grading
  import Streak

  // -----------------------------------------------------------------------
  // Choosing the questions
  // -----------------------------------------------------------------------

  predicate Distinct(s: seq<nat>)
  {
    forall i, j :: 0 <= i < j < |s| ==> s[i] != s[j]
  }

  /** The questions of the fixed ("demo") quiz: one of each type. */
  const FixedPicks: seq<nat> := [0, 10, 20, 30, 40]

  /** `Math.floor(Math.random() * questions.length)`: an index of the
      repository, or 0 when the repository is empty. */
  function IndexFor(r: Shuffle.Draw, n: nat): (k: nat)
    ensures n > 0 ==> k < n
    ensures n == 0 ==> k == 0
  {
    if n == 0 then 0 else Shuffle.Pick(r, n)
  }

  function Elements(s: seq<nat>): set<nat>
  {
    set x | x in s
  }

  lemma {:induction false} DistinctElements(s: seq<nat>)
    requires Distinct(s)
    ensures |Elements(s)| == |s|
    decreases |s|
  {
    if |s| > 0 {
      var t := s[1..];
      assert Distinct(t);
      DistinctElements(t);
      assert Elements(s) == {s[0]} + Elements(t);
      assert s[0] !in Elements(t);
    }
  }

  /** `[0, 1, ..., b - 1]`. */
  function Upto(b: nat): (r: seq<nat>)
    ensures |r| == b && forall k :: 0 <= k < b ==> r[k] == k
  {
    seq(b, k => k)
  }

  /** Pigeonhole: distinct indices below `b` are at most `b` many. */
  lemma DistinctBelow(s: seq<nat>, b: nat)
    requires Distinct(s)
    requires forall k :: 0 <= k < |s| ==> s[k] < b
    ensures |s| <= b
  {
    var range := Upto(b);
    assert Distinct(range);
    DistinctElements(s);
    DistinctElements(range);
    assert forall x :: x in Elements(s) ==> range[x] == x;
    assert Elements(s) <= Elements(range);
    assert Elements(range) == Elements(s) + (Elements(range) - Elements(s));
  }

  /** The indices the random mode keeps from the draws `ds`: each draw's
      index is kept unless it was drawn before, so the indices come in the
      order of their first draw. */
  function Drawn(ds: seq<Shuffle.Draw>, n: nat): (picks: seq<nat>)
    ensures Distinct(picks) && |picks| <= |ds|
    ensures forall k :: 0 <= k < |picks| ==> picks[k] < n || (n == 0 && picks[k] == 0)
  {
    if |ds| == 0 then []
    else
      var earlier := Drawn(ds[..|ds| - 1], n);
      var qnum := IndexFor(ds[|ds| - 1], n);
      if qnum in earlier then earlier else earlier + [qnum]
  }

  /** One more draw: its index is kept unless it was drawn before. */
  lemma DrawnStep(ds: seq<Shuffle.Draw>, k: nat, n: nat)
    requires k < |ds|
    ensures var earlier := Drawn(ds[..k], n);
      var qnum := IndexFor(ds[k], n);
      Drawn(ds[..k + 1], n) == if qnum in earlier then earlier else earlier + [qnum]
  {
    assert ds[..k + 1][..k] == ds[..k];
  }

  /** The random mode's rejection loop: draw an index, keep it unless it
      was drawn before, until five are kept. `used` counts the calls of
      `Math.random()`. When the draws run out first, `complete` is false:
      the source loop would still be running, as it runs for ever when the
      repository has fewer than five questions. */
  method PickRandomIndices(n: nat, draws: seq<Shuffle.Draw>) returns (qout: seq<nat>, used: nat, complete: bool)
    ensures used <= |draws| && qout == Drawn(draws[..used], n)
    ensures complete <==> |qout| == 5
    ensures !complete ==> used == |draws|
    ensures used > 0 ==> |Drawn(draws[..used - 1], n)| < 5
    ensures complete ==> n >= 5
  {
    qout := [];
    used := 0;
    while |qout| < 5 && used < |draws|
      invariant used <= |draws| && qout == Drawn(draws[..used], n) && |qout| <= 5
      invariant used > 0 ==> |Drawn(draws[..used - 1], n)| < 5
    {
      var qnum := IndexFor(draws[used], n);
      DrawnStep(draws, used, n);
      ghost var seen := draws[..used];
      used := used + 1;
      assert draws[..used - 1] == seen;
      if qnum !in qout {
        qout := qout + [qnum];
      }
    }
    complete := |qout| == 5;
    if complete {
      DistinctBelow(qout, if n == 0 then 1 else n);
    }
  }

  /** The picking step of `generateQuiz`: random indices for quiz type 0,
      the fixed ones for any other type. */
  method PickIndices(quizType: int, n: nat, draws: seq<Shuffle.Draw>) returns (picked: seq<nat>, used: nat, complete: bool)
    ensures Distinct(picked)
    ensures quizType == 0 ==> used <= |draws| && picked == Drawn(draws[..used], n)
    ensures quizType == 0 ==> (complete <==> |picked| == 5) && (!complete ==> used == |draws|)
    ensures quizType == 0 && complete ==> n >= 5
    ensures quizType != 0 ==> picked == FixedPicks && used == 0 && complete
  {
    if quizType == 0 {
      picked, used, complete := PickRandomIndices(n, draws);
    } else {
      picked, used, complete := FixedPicks, 0, true;
    }
  }

  /** `Object.assign({}, questions[i])` and `question.sel = ''`: a shallow
      copy, so it shares its `options` array with the repository's
      question; past the end of the repository the copy of `undefined` has
      no property but `sel`. */
  function QuizCopy(repo: seq<Question>, i: nat): (q: Question)
    ensures q.sel == Str("")
    ensures i < |repo| ==> q.(sel := repo[i].sel) == repo[i]
    ensures i >= |repo| ==> q.kind == Undefined && q.answer == Field(Undefined) && q.options == null
  {
    if i < |repo| then repo[i].(sel := Str(""))
    else Question(Undefined, Undefined, Field(Undefined), Undefined, null, Str(""), None)
  }

  /** The options arrays of the repository's questions. */
  function OptionArrays(repo: seq<Question>): set<array<string>>
  {
    set k | 0 <= k < |repo| && repo[k].options != null :: repo[k].options
  }

  /** Appending a question adds its options array, if any. */
  lemma OptionArraysGrow(qs: seq<Question>, q: Question)
    ensures OptionArrays(qs + [q]) == OptionArrays(qs) + (if q.options == null then {} else {q.options})
  {
    var r := qs + [q];
    assert forall k :: 0 <= k < |qs| ==> r[k] == qs[k];
    assert r[|qs|] == q;
  }

  /** Different questions of the repository have different options arrays,
      as the parser builds a new array for every line. */
  predicate DistinctOptions(repo: seq<Question>)
  {
    forall i, j :: 0 <= i < |repo| && 0 <= j < |repo| && i != j && repo[i].options != null ==>
      repo[i].options != repo[j].options
  }

  /** The rounds of randomness of the `k`-th shuffle: none past the end. */
  function RoundsFor(shuffles: seq<seq<seq<Shuffle.Draw>>>, k: nat): (rounds: seq<seq<Shuffle.Draw>>)
    ensures k >= |shuffles| ==> rounds == []
  {
    if k < |shuffles| then shuffles[k] else []
  }

  /** `now` is what the shuffle makes of `before` with the rounds given,
      and the retries settled within them. */
  predicate ShuffledFrom(now: seq<string>, before: seq<string>, rounds: seq<seq<Shuffle.Draw>>)
  {
    var o := Shuffle.Retry(before, rounds);
    now == o.result && o.settled
  }

  /** Copies of two different picks never share an options array. */
  lemma CopiesDoNotShare(repo: seq<Question>, i: nat, j: nat)
    requires DistinctOptions(repo) && i != j
    requires QuizCopy(repo, i).options != null
    ensures QuizCopy(repo, i).options != QuizCopy(repo, j).options
  {
  }

  /** The options array of a question that was not picked is none of the
      copies' arrays, nor the array of the pick after them. */
  lemma UnpickedNotCopied(repo: seq<Question>, picked: seq<nat>, built: seq<Question>, i: nat)
    requires DistinctOptions(repo) && |built| <= |picked|
    requires forall k :: 0 <= k < |built| ==> built[k] == QuizCopy(repo, picked[k])
    requires i < |repo| && repo[i].options != null && i !in picked
    ensures repo[i].options in OptionArrays(repo) && repo[i].options !in OptionArrays(built)
    ensures |built| < |picked| ==> repo[i].options != QuizCopy(repo, picked[|built|]).options
  {
    forall k | 0 <= k < |built|
      ensures built[k].options != repo[i].options
    {
      CopiesDoNotShare(repo, i, picked[k]);
    }
    if |built| < |picked| {
      CopiesDoNotShare(repo, i, picked[|built|]);
    }
  }

  /** One step of the copying loop: shuffle the options array of the
      `k`-th copy in place. It is none of the arrays shuffled before, and
      the shuffle only reorders it. */
  method ShuffleCopy(repo: seq<Question>, picked: seq<nat>, k: nat, built: seq<Question>, rounds: seq<seq<Shuffle.Draw>>)
    returns (ok: bool)
    requires Distinct(picked) && DistinctOptions(repo)
    requires k < |picked| && |built| == k
    requires forall j :: 0 <= j < k ==> built[j] == QuizCopy(repo, picked[j])
    requires QuizCopy(repo, picked[k]).options != null
    modifies QuizCopy(repo, picked[k]).options
    ensures var a := QuizCopy(repo, picked[k]).options;
      (ok ==> ShuffledFrom(a[..], old(a[..]), rounds)) &&
      (!ok ==> a[..] == Shuffle.Retry(old(a[..]), rounds).result && !Shuffle.Retry(old(a[..]), rounds).settled) &&
      multiset(a[..]) == old(multiset(a[..])) &&
      a in OptionArrays(repo) &&
      (forall j :: 0 <= j < k ==> built[j].options != a) &&
      a !in OptionArrays(built)
  {
    var options: array<string> := QuizCopy(repo, picked[k]).options;
    assert options in OptionArrays(repo) by {
      assert options == repo[picked[k]].options;
    }
    forall j | 0 <= j < k
      ensures built[j].options != options
    {
      CopiesDoNotShare(repo, picked[k], picked[j]);
    }
    ghost var before := options[..];
    ok := Shuffle.ShuffleArray(options, rounds);
    Shuffle.RetryPermutes(before, rounds);
  }

  /** The copying loop of `generateQuiz`: copy the picked questions in
      order and shuffle, in place, the options array of every copy that has
      one with the rounds `RoundsFor(shuffles, k)` of the `k`-th. The copy is
      shallow, so the shuffled arrays are the repository's own. When a
      shuffle does not settle within its rounds, the source recurses until
      it throws: the loop stops there, `settled` is false and the copies
      made so far are the ones returned. */
  method CopyAndShuffle(repo: seq<Question>, picked: seq<nat>, shuffles: seq<seq<seq<Shuffle.Draw>>>)
    returns (built: seq<Question>, settled: bool)
    requires Distinct(picked) && DistinctOptions(repo)
    modifies OptionArrays(repo)
    ensures |built| <= |picked| && (settled <==> |built| == |picked|)
    ensures forall k :: 0 <= k < |built| ==> built[k] == QuizCopy(repo, picked[k])
    ensures forall k :: 0 <= k < |built| && built[k].options != null ==>
      var a := QuizCopy(repo, picked[k]).options;
      ShuffledFrom(a[..], old(a[..]), RoundsFor(shuffles, k))
    ensures !settled ==>
      var a := QuizCopy(repo, picked[|built|]).options;
      a != null &&
      var o := Shuffle.Retry(old(a[..]), RoundsFor(shuffles, |built|));
      a[..] == o.result && !o.settled
    ensures forall a :: a in OptionArrays(repo) && a !in OptionArrays(built) ==>
      (settled || a != QuizCopy(repo, picked[|built|]).options) ==> a[..] == old(a[..])
    ensures forall a :: a in OptionArrays(repo) ==> multiset(a[..]) == old(multiset(a[..]))
  {
    settled := true;
    built := [];
    var k := 0;
    while k < |picked|
      invariant 0 <= k <= |picked| && |built| == k
      invariant forall j :: 0 <= j < k ==> built[j] == QuizCopy(repo, picked[j])
      invariant forall j :: 0 <= j < k && built[j].options != null ==>
        var a := QuizCopy(repo, picked[j]).options;
        ShuffledFrom(a[..], old(a[..]), RoundsFor(shuffles, j))
      invariant forall a :: a in OptionArrays(repo) && a !in OptionArrays(built) ==> a[..] == old(a[..])
      invariant forall a :: a in OptionArrays(repo) ==> multiset(a[..]) == old(multiset(a[..]))
    {
      var question := QuizCopy(repo, picked[k]);
      if question.options != null {
        var ok := ShuffleCopy(repo, picked, k, built, RoundsFor(shuffles, k));
        if !ok {
          settled := false;
          return;
        }
      }
      OptionArraysGrow(built, question);
      built := built + [question];
      k := k + 1;
    }
  }

  // -----------------------------------------------------------------------
  // The stored history
  // -----------------------------------------------------------------------

  /** `.map(r => r.ts)`. */
  function Timestamps(h: seq<HistoryEntry>): (ts: seq<int>)
    ensures |ts| == |h|
    ensures forall k :: 0 <= k < |h| ==> ts[k] == h[k].ts
  {
    seq(|h|, k requires 0 <= k < |h| => h[k].ts)
  }

  /** `Array.prototype.reverse`. */
  function Reversed<T>(s: seq<T>): (r: seq<T>)
    ensures |r| == |s|
    ensures forall k :: 0 <= k < |s| ==> r[k] == s[|s| - 1 - k]
  {
    seq(|s|, k requires 0 <= k < |s| => s[|s| - 1 - k])
  }

  /** Reversing twice gives the original order back: two `updateStreak`
      calls on the same history leave it oldest first again. */
  lemma ReversedTwice<T>(s: seq<T>)
    ensures Reversed(Reversed(s)) == s
  {
    var r := Reversed(Reversed(s));
    assert forall k :: 0 <= k < |s| ==> r[k] == s[k];
  }

  /** Entries in the order they were saved, oldest first. */
  predicate Chronological(h: seq<HistoryEntry>)
  {
    forall i, j :: 0 <= i < j < |h| ==> h[i].ts <= h[j].ts
  }

  /** `saveQuiz` appends to the stored array, or starts one. */
  function Appended(h: Option<seq<HistoryEntry>>, e: HistoryEntry): (r: seq<HistoryEntry>)
    ensures |r| >= 1 && r[|r| - 1] == e
    ensures h.Some? ==> r[..|r| - 1] == h.value
    ensures h.None? ==> r == [e]
  {
    if h.Some? then h.value + [e] else [e]
  }

  /** Saving at a time no earlier than the last save keeps the history
      oldest first. */
  lemma AppendKeepsChronological(h: Option<seq<HistoryEntry>>, e: HistoryEntry)
    requires h.Some? ==> Chronological(h.value)
    requires h.Some? ==> forall k :: 0 <= k < |h.value| ==> h.value[k].ts <= e.ts
    ensures Chronological(Appended(h, e))
  {
  }

  /** A history saved oldest first gives the newest-first timestamps the
      streak loop expects once reversed. */
  lemma ReversedIsNewestFirst(h: seq<HistoryEntry>)
    requires Chronological(h)
    ensures Streak.NewestFirst(Timestamps(Reversed(h)))
  {
  }

  /** On a history saved oldest first, the streak loop over the reversed
      timestamps counts the run of consecutive quiz days ending yesterday. */
  lemma HistoryStreakIsRun(h: seq<HistoryEntry>, today: int)
    requires Chronological(h)
    ensures var ts := Timestamps(Reversed(h));
      Streak.DaysInARow(ts, today, Streak.Scan(ts, today, 0))
  {
    ReversedIsNewestFirst(h);
    Streak.ScanCountsDays(Timestamps(Reversed(h)), today, 0);
  }

  /** The body of `updateStreak` on the loaded history: reverse it and
      count the streak over its timestamps, newest first. */
  method HistoryStreak(history: seq<HistoryEntry>, today: int)
    returns (reversed: seq<HistoryEntry>, days: nat, doneToday: bool)
    requires |history| > 0
    ensures reversed == Reversed(history) && |reversed| > 0
    ensures doneToday <==> Streak.Day(Timestamps(reversed)[0]) == today
    ensures days == Streak.Scan(Timestamps(reversed), today, 0) + (if doneToday then 1 else 0)
  {
    reversed := Reversed(history);
    var ts := Timestamps(reversed);
    days, doneToday := Streak.CountStreak(ts, today);
  }

  // -----------------------------------------------------------------------
  // The window
  // -----------------------------------------------------------------------

  /** The text JavaScript gives a plain object: what `localStorage`
      stores for a record. */
  const ObjectText := "[object Object]"

  class App {
    /** The question repository (the window's global `questions`). */
    const questions: seq<Question>
    /** `quiz.questions`, `quiz.current`, `quiz.review`, `quiz.timeTaken`
        and `quiz.stats`. */
    var quizQuestions: seq<Question>
    var current: int
    var review: bool
    var timeTaken: int
    var stats: Option<Stats>
    var page: string
    var dialog: bool
    /** `timer._timeStart`. */
    var timeStart: int
    /** `streak.days`, `streak.doneToday` and `streak.image`. */
    var streakDays: nat
    var doneToday: bool
    var streakImage: string
    /** `quizHistory`: `None` while `false` or `null`. */
    var quizHistory: Option<seq<HistoryEntry>>
    /** The stored `quizHistory` key and the text in the `quizTemporary`
        slot of `localStorage`. */
    var storedHistory: Option<seq<HistoryEntry>>
    var storedTemporary: Option<string>

    /** The repository's questions do not share options arrays. The
        repository never changes, so this holds for the window's whole
        life once it is built. */
    ghost predicate Sound()
    {
      DistinctOptions(questions)
    }

    /** A quiz done today is part of the streak; a quiz has no more
        correct answers than questions. */
    ghost predicate Valid()
      reads this`doneToday, this`streakDays, this`stats
    {
      (doneToday ==> streakDays >= 1) &&
      (stats.Some? ==> stats.value.correct <= stats.value.total)
    }

    /** The streak data shown for the history `h` (oldest first as
        stored): `quizHistory` holds it reversed, `doneToday` says whether
        its newest quiz is from today, and `days` counts the streak loop's
        days plus today (`HistoryStreakIsRun` says what the loop counts). */
    ghost predicate ShowsStreakOf(h: seq<HistoryEntry>, today: int)
      requires |h| > 0
      reads this`quizHistory, this`doneToday, this`streakDays, this`streakImage
    {
      var ts := Timestamps(Reversed(h));
      quizHistory == Some(Reversed(h)) &&
      (doneToday <==> Streak.Day(ts[0]) == today) &&
      streakDays == Streak.Scan(ts, today, 0) + (if doneToday then 1 else 0) &&
      streakImage == Streak.StreakImage(streakDays)
    }

    /** The window once the repository has arrived. */
    constructor (repo: seq<Question>, stored: Option<seq<HistoryEntry>>)
      requires DistinctOptions(repo)
      ensures Valid() && Sound()
      ensures questions == repo && storedHistory == stored && storedTemporary == None
      ensures quizQuestions == [] && current == 0 && !review && timeTaken == 0 && stats == None
      ensures page == "landing" && !dialog
      ensures streakDays == 0 && !doneToday && streakImage == "" && quizHistory == None
    {
      questions := repo;
      quizQuestions := [];
      current := 0;
      review := false;
      timeTaken := 0;
      stats := None;
      page := "landing";
      dialog := false;
      timeStart := 0;
      streakDays := 0;
      doneToday := false;
      streakImage := "";
      quizHistory := None;
      storedHistory := stored;
      storedTemporary := None;
    }

    /** `generateQuiz(quizType)`: pick five questions (at random for type 0,
        the fixed ones otherwise), copy them with an empty selection,
        shuffle the options of each copy in place, start the timer and open
        the quiz. The copies share their options arrays with the
        repository, which is therefore shuffled too. `draws` feed the
        random picks and `shuffles[k]` the shuffle of the `k`-th question.
        `complete` is false when the random picks run out of draws and
        `settled` when a shuffle does: the source would still be running,
        or would throw once its recursion overflows the stack, so the quiz
        does not open; the copies pushed before that stay in the quiz. */
    method GenerateQuiz(quizType: int, draws: seq<Shuffle.Draw>, shuffles: seq<seq<seq<Shuffle.Draw>>>, now: int)
      returns (picked: seq<nat>, used: nat, complete: bool, settled: bool)
      requires Valid() && Sound()
      modifies this`quizQuestions, this`timeStart, this`timeTaken, this`review, this`current
      modifies this`dialog, this`page, OptionArrays(questions)
      ensures Valid()
      ensures Distinct(picked)
      ensures quizType == 0 ==> used <= |draws| && picked == Drawn(draws[..used], |questions|)
      ensures quizType == 0 ==> (complete <==> |picked| == 5) && (!complete ==> used == |draws|)
      ensures quizType == 0 && complete ==> |questions| >= 5
      ensures quizType != 0 ==> picked == FixedPicks && used == 0 && complete
      ensures !complete ==> quizQuestions == [] && !settled
      ensures !complete ==> forall a :: a in OptionArrays(questions) ==> a[..] == old(a[..])
      ensures complete ==> |quizQuestions| <= |picked| && (settled <==> |quizQuestions| == |picked|)
      ensures forall k :: 0 <= k < |quizQuestions| ==> quizQuestions[k] == QuizCopy(questions, picked[k])
      ensures forall k :: 0 <= k < |quizQuestions| && quizQuestions[k].options != null ==>
        var a := QuizCopy(questions, picked[k]).options;
        ShuffledFrom(a[..], old(a[..]), RoundsFor(shuffles, k))
      ensures complete && settled ==>
        !review && current == 0 && timeTaken == 0 && timeStart == now && page == "quiz" && !dialog
      ensures !(complete && settled) ==>
        review == old(review) && current == old(current) && timeTaken == old(timeTaken) &&
        timeStart == old(timeStart) && page == old(page) && dialog == old(dialog)
      ensures forall a :: a in OptionArrays(questions) ==> multiset(a[..]) == old(multiset(a[..]))
      ensures forall a :: a in OptionArrays(questions) && a !in OptionArrays(quizQuestions) ==>
        (complete && !settled && a == QuizCopy(questions, picked[|quizQuestions|]).options) || a[..] == old(a[..])
      ensures forall i :: 0 <= i < |questions| && questions[i].options != null && i !in picked ==>
        questions[i].options[..] == old(questions[i].options[..])
    {
      // The picks do not touch the quiz, so emptying it in either branch
      // is the same as emptying it first.
      picked, used, complete := PickIndices(quizType, |questions|, draws);
      if complete {
        settled := StartQuiz(picked, shuffles, now);
      } else {
        quizQuestions := [];
        settled := false;
      }
    }

    /** The second half of `generateQuiz`, once five questions are picked:
        copy and shuffle them into the quiz and, when every shuffle
        settled, open it. The options arrays of questions that were not
        picked, and of picks after a shuffle that did not settle, keep
        their contents. */
    method StartQuiz(picked: seq<nat>, shuffles: seq<seq<seq<Shuffle.Draw>>>, now: int)
      returns (settled: bool)
      requires Valid() && Sound() && Distinct(picked)
      modifies this`quizQuestions, this`timeStart, this`timeTaken, this`review, this`current
      modifies this`dialog, this`page, OptionArrays(questions)
      ensures Valid()
      ensures |quizQuestions| <= |picked| && (settled <==> |quizQuestions| == |picked|)
      ensures forall k :: 0 <= k < |quizQuestions| ==> quizQuestions[k] == QuizCopy(questions, picked[k])
      ensures forall k :: 0 <= k < |quizQuestions| && quizQuestions[k].options != null ==>
        var a := QuizCopy(questions, picked[k]).options;
        ShuffledFrom(a[..], old(a[..]), RoundsFor(shuffles, k))
      ensures settled ==>
        !review && current == 0 && timeTaken == 0 && timeStart == now && page == "quiz" && !dialog
      ensures !settled ==>
        review == old(review) && current == old(current) && timeTaken == old(timeTaken) &&
        timeStart == old(timeStart) && page == old(page) && dialog == old(dialog)
      ensures forall a :: a in OptionArrays(questions) ==> multiset(a[..]) == old(multiset(a[..]))
      ensures forall a :: a in OptionArrays(questions) && a !in OptionArrays(quizQuestions) ==>
        (!settled && a == QuizCopy(questions, picked[|quizQuestions|]).options) || a[..] == old(a[..])
      ensures forall i :: 0 <= i < |questions| && questions[i].options != null && i !in picked ==>
        questions[i].options[..] == old(questions[i].options[..])
    {
      var built;
      built, settled := CopyAndShuffle(questions, picked, shuffles);
      forall i | 0 <= i < |questions| && questions[i].options != null && i !in picked
        ensures questions[i].options[..] == old(questions[i].options[..])
      {
        UnpickedNotCopied(questions, picked, built, i);
      }
      quizQuestions := built;
      if settled {
        OpenQuiz(built, now);
      }
    }

    /** The end of `generateQuiz`: the copies become the quiz, the timer
        starts and the quiz page opens on its first question. */
    method OpenQuiz(built: seq<Question>, now: int)
      requires Valid()
      modifies this`quizQuestions, this`timeStart, this`timeTaken, this`review, this`current
      modifies this`dialog, this`page
      ensures Valid()
      ensures quizQuestions == built
      ensures !review && current == 0 && timeTaken == 0 && timeStart == now && page == "quiz" && !dialog
    {
      quizQuestions := built;
      timeStart := now;
      timeTaken := 0;
      review := false;
      current := 0;
      dialog := false;
      page := "quiz";
    }

    /** `onDrop`: swap two options of the current question in place,
        unless it is locked in (`sel === 1`). */
    method OnDrop(src: int, dest: int)
      requires 0 <= current < |quizQuestions| && quizQuestions[current].options != null
      requires 0 <= src < quizQuestions[current].options.Length
      requires 0 <= dest < quizQuestions[current].options.Length
      modifies quizQuestions[current].options
      ensures quizQuestions[current].sel == Num(1) ==>
        quizQuestions[current].options[..] == old(quizQuestions[current].options[..])
      ensures quizQuestions[current].sel != Num(1) ==>
        quizQuestions[current].options[..] == Shuffle.Swap(old(quizQuestions[current].options[..]), src, dest)
    {
      if quizQuestions[current].sel == Num(1) {
        return;
      }
      var cqo := quizQuestions[current].options;
      var temp := cqo[src];
      cqo[src] := cqo[dest];
      cqo[dest] := temp;
    }

    /** `updateStreak()`: reverse `quizHistory` in place, run the streak
        loop over its timestamps and set the streak data. The source reads
        the first timestamp, so the history must hold one. */
    method UpdateStreak(today: int)
      requires Valid()
      requires quizHistory.Some? && |quizHistory.value| > 0
      modifies this`quizHistory, this`streakDays, this`doneToday, this`streakImage
      ensures Valid()
      ensures ShowsStreakOf(old(quizHistory.value), today)
    {
      var reversed, days, done := HistoryStreak(quizHistory.value, today);
      quizHistory := Some(reversed);
      streakDays := days;
      doneToday := done;
      streakImage := Streak.StreakImage(days);
    }

    /** `updateQuizHistory()`: load the stored history and update the
        streak; on a missing or empty history `updateStreak` throws before
        it changes the streak. */
    method UpdateQuizHistory(today: int)
      requires Valid()
      modifies this`quizHistory, this`streakDays, this`doneToday, this`streakImage
      ensures Valid()
      ensures storedHistory.None? || |storedHistory.value| == 0 ==>
        quizHistory == storedHistory && streakDays == old(streakDays) && doneToday == old(doneToday) &&
        streakImage == old(streakImage)
      ensures storedHistory.Some? && |storedHistory.value| > 0 ==> ShowsStreakOf(storedHistory.value, today)
    {
      quizHistory := storedHistory;
      if quizHistory.Some? && |quizHistory.value| > 0 {
        UpdateStreak(today);
      }
    }

    /** `saveQuiz(this.quiz, temporary)`: a record of the time and the
        stats is appended to the stored history, which is then loaded
        again. A temporary save hands the record to `localStorage.setItem`,
        which keeps the text of its value, "[object Object]", and nothing
        else changes. */
    method SaveQuiz(now: int, temporary: bool, today: int)
      requires Valid()
      modifies this`storedTemporary, this`storedHistory
      modifies this`quizHistory, this`streakDays, this`doneToday, this`streakImage
      ensures Valid()
      ensures temporary ==>
        storedTemporary == Some(ObjectText) && storedHistory == old(storedHistory) &&
        quizHistory == old(quizHistory) && streakDays == old(streakDays) && doneToday == old(doneToday) &&
        streakImage == old(streakImage)
      ensures !temporary ==>
        storedTemporary == old(storedTemporary) &&
        storedHistory == Some(Appended(old(storedHistory), HistoryEntry(now, stats))) &&
        ShowsStreakOf(storedHistory.value, today)
    {
      var quizData := HistoryEntry(now, stats);
      if temporary {
        storedTemporary := Some(ObjectText);
        return;
      }
      if storedHistory.Some? {
        storedHistory := Some(storedHistory.value + [quizData]);
      } else {
        storedHistory := Some([quizData]);
      }
      UpdateQuizHistory(today);
    }

    /** The first half of `submitQuiz()`: stop the timer, switch to review
        mode, grade every question and record the stats. `date` is the
        formatted submission time. */
    method GradeQuiz(now: int, date: string)
      requires Valid()
      requires forall k :: 0 <= k < |quizQuestions| ==> Grading.Gradable(quizQuestions[k])
      modifies this`timeTaken, this`review, this`current, this`quizQuestions, this`stats
      ensures Valid()
      ensures review && current == 0 && timeTaken == now - timeStart
      ensures |quizQuestions| == |old(quizQuestions)|
      ensures forall k :: 0 <= k < |quizQuestions| ==>
        quizQuestions[k] == old(quizQuestions)[k].(correct := Grading.Grade(old(quizQuestions)[k]))
      ensures stats == Some(Stats(date, timeTaken, Grading.CountCorrect(quizQuestions), |quizQuestions|))
    {
      timeTaken := now - timeStart;
      review := true;
      current := 0;
      var graded, numCorrect, numTotal := Grading.GradeQuestions(quizQuestions);
      quizQuestions := graded;
      stats := Some(Stats(date, timeTaken, numCorrect, numTotal));
    }

    /** `submitQuiz()`: grade the quiz and save it. */
    method SubmitQuiz(now: int, date: string, today: int)
      requires Valid()
      requires forall k :: 0 <= k < |quizQuestions| ==> Grading.Gradable(quizQuestions[k])
      modifies this`timeTaken, this`review, this`current, this`quizQuestions, this`stats
      modifies this`storedTemporary, this`storedHistory
      modifies this`quizHistory, this`streakDays, this`doneToday, this`streakImage
      ensures Valid()
      ensures review && current == 0 && timeTaken == now - timeStart
      ensures |quizQuestions| == |old(quizQuestions)|
      ensures forall k :: 0 <= k < |quizQuestions| ==>
        quizQuestions[k] == old(quizQuestions)[k].(correct := Grading.Grade(old(quizQuestions)[k]))
      ensures stats == Some(Stats(date, timeTaken, Grading.CountCorrect(quizQuestions), |quizQuestions|))
      ensures storedTemporary == old(storedTemporary)
      ensures storedHistory == Some(Appended(old(storedHistory), HistoryEntry(now, stats)))
      ensures ShowsStreakOf(storedHistory.value, today)
    {
      GradeQuiz(now, date);
      SaveQuiz(now, false, today);
    }
  }
}
