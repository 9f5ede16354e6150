/** The display helpers of the quiz window: the name of a question type,
    the text of an answer, and the `m:ss` clock. */
module Format {
  import opened Types
  import opened Text
  import Grading

  /** `getQuestionType(code)`. */
  function QuestionTypeName(code: Slot): (name: string)
    ensures name == "Unknown" <==> !Grading.KnownKind(code)
  {
    match code
    case Text("mc") => "Multiple Choice"
    case Text("sa") => "Short Answer"
    case Text("o") => "Ordering"
    case Text("n") => "Numerical"
    case Text("tf") => "True/False"
    case _ => "Unknown"
  }

  /** Different known codes get different names, so the name tells the
      code back. */
  lemma QuestionTypeNameDistinguishes(a: Slot, b: Slot)
    requires Grading.KnownKind(a) && QuestionTypeName(a) == QuestionTypeName(b)
    ensures a == b
  {
  }

  const ListSeparator := ", "

  /** `formatAnswer(answer)`: "True" and "False" for the true/false answer
      texts, the items joined with ", " for a list, the text itself
      otherwise. `toString` of `undefined` or `null` throws, so the answer
      must be present. */
  function FormatAnswer(answer: Answer): (r: string)
    requires answer != Field(Undefined) && answer != Field(Null)
    ensures answer == Field(Text("true")) ==> r == "True"
    ensures answer == Field(Text("false")) ==> r == "False"
    ensures answer.Field? && answer.slot.value != "true" && answer.slot.value != "false" ==> r == answer.slot.value
  {
    match answer
    case Field(Text("true")) => "True"
    case Field(Text("false")) => "False"
    case List(items) => Join(items, ListSeparator)
    case Field(Text(t)) => t
  }

  /** The formatted list gives its items back when split at ", ", provided
      no item holds a comma. */
  lemma FormatListReadsBack(items: seq<string>)
    requires |items| >= 1
    requires forall k :: 0 <= k < |items| ==> ',' !in items[k]
    ensures Split(FormatAnswer(List(items)), ListSeparator) == items
  {
    SplitJoin(items, ListSeparator);
  }

  /** The whole seconds `getFormattedTime` shows: the saved time in review
      mode (0 when there are no stats or the time is 0), the running time
      otherwise; `Math.floor` of a quotient by a positive divisor is
      Dafny's `/`. */
  function ShownSeconds(review: bool, stats: Option<Stats>, timeTaken: int): (s: int)
    ensures review && (stats.None? || stats.value.time == 0) ==> s == 0
    ensures review && stats.Some? && stats.value.time != 0 ==>
      s * 1000 <= stats.value.time < (s + 1) * 1000
    ensures !review ==> s * 1000 <= timeTaken < (s + 1) * 1000
  {
    if review then
      (if stats.Some? && stats.value.time != 0 then stats.value.time / 1000 else 0)
    else timeTaken / 1000
  }

  /** `Math.floor(seconds/60)` as text: for a non-negative time, the
      digits of the whole minutes. */
  function MinutesText(seconds: int): (m: string)
    ensures seconds >= 0 ==> |m| >= 1 && AllDigits(m) && DigitsValue(m) == seconds / 60
  {
    if seconds < 0 then IntToString(seconds / 60)
    else
      var minutes := seconds / 60;
      NatToStringReadsBack(minutes);
      NatToString(minutes)
  }

  /** `(seconds%60).toString().padStart(2, '0')`: for a non-negative time,
      where JavaScript's `%` agrees with Dafny's, exactly two digits worth
      the seconds past the minute. */
  function SecondsText(seconds: int): (f: string)
    ensures seconds >= 0 ==> |f| == 2 && AllDigits(f) && DigitsValue(f) == seconds % 60
  {
    if seconds < 0 then PadStart(IntToString(JsRem(seconds, 60)), 2, '0')
    else
      var past := seconds % 60;
      SecondsField(past);
      PadStart(NatToString(past), 2, '0')
  }

  /** The `m:ss` text of a number of seconds. For a non-negative time it
      ends in a colon and exactly two digits. */
  function Clock(seconds: int): (r: string)
    ensures seconds >= 0 ==> |r| >= 4 && r[|r| - 3] == ':' && AllDigits(r[|r| - 2..])
  {
    var minutes := MinutesText(seconds);
    var field := SecondsText(seconds);
    if seconds < 0 then minutes + ":" + field
    else
      ClockShape(minutes, field);
      minutes + ":" + field
  }

  lemma ClockShape(minutes: string, field: string)
    requires |minutes| >= 1 && |field| == 2 && AllDigits(field)
    ensures var r := minutes + ":" + field;
      |r| >= 4 && r[|r| - 3] == ':' && AllDigits(r[|r| - 2..])
  {
    var r := minutes + ":" + field;
    assert r[|r| - 2..] == field;
  }

  /** `getFormattedTime()`: the clock of the seconds shown; a review of a
      quiz without a saved time shows "0:00". */
  function FormattedTime(review: bool, stats: Option<Stats>, timeTaken: int): (r: string)
    ensures review && (stats.None? || stats.value.time == 0) ==> r == "0:00"
  {
    var shown := ShownSeconds(review, stats, timeTaken);
    assert shown == 0 ==> Clock(shown) == "0" + ":" + "00";
    Clock(shown)
  }

  lemma {:induction false} PaddedDigitsValue(d: string)
    requires AllDigits(d) && |d| >= 1
    ensures AllDigits(PadStart(d, 2, '0'))
    ensures DigitsValue(PadStart(d, 2, '0')) == DigitsValue(d)
  {
    var p := PadStart(d, 2, '0');
    if |d| == 1 {
      assert p == "0" + d;
      assert p[..1] == "0";
      assert DigitsValue(p) == DigitsValue("0") * 10 + (d[0] as int - '0' as int);
    }
  }

  lemma DigitsHaveNoColon(d: string)
    requires AllDigits(d)
    ensures ':' !in d
  {
    assert forall i :: 0 <= i < |d| ==> IsDigit(d[i]);
  }

  /** Two digit texts joined by a colon split back into the two. */
  lemma SplitAtColon(a: string, b: string)
    requires AllDigits(a) && AllDigits(b)
    ensures Split(a + ":" + b, ":") == [a, b]
  {
    DigitsHaveNoColon(a);
    DigitsHaveNoColon(b);
    SplitAfterPiece(a, ":", b);
    SplitWithoutSeparator(b, ":");
  }

  lemma {:induction false} SmallNumberText(n: nat)
    requires n < 100
    ensures |NatToString(n)| <= 2
  {
    if n >= 10 {
      assert NatToString(n) == NatToString(n / 10) + [DigitChar(n % 10)];
    }
  }

  /** The seconds field: exactly two digits worth the seconds. */
  lemma SecondsField(n: nat)
    requires n < 60
    ensures var p := PadStart(NatToString(n), 2, '0');
      |p| == 2 && AllDigits(p) && DigitsValue(p) == n
  {
    SmallNumberText(n);
    PaddedDigitsValue(NatToString(n));
    NatToStringReadsBack(n);
  }

  /** For a non-negative time, the clock reads back: minutes, a colon, and
      exactly two digits of seconds below 60, worth the seconds shown. */
  lemma ClockReadsBack(seconds: nat)
    ensures var parts := Split(Clock(seconds), ":");
      |parts| == 2 && AllDigits(parts[0]) && AllDigits(parts[1]) && |parts[1]| == 2 &&
      DigitsValue(parts[1]) < 60 &&
      DigitsValue(parts[0]) * 60 + DigitsValue(parts[1]) == seconds
  {
    SplitAtColon(MinutesText(seconds), SecondsText(seconds));
  }

  /** The time shown reads back from its text: in review mode the saved
      time in whole seconds, otherwise the running time in whole seconds,
      whenever that time is not negative. */
  lemma FormattedTimeReadsBack(review: bool, stats: Option<Stats>, timeTaken: int)
    requires ShownSeconds(review, stats, timeTaken) >= 0
    ensures var parts := Split(FormattedTime(review, stats, timeTaken), ":");
      |parts| == 2 && AllDigits(parts[0]) && AllDigits(parts[1]) &&
      DigitsValue(parts[0]) * 60 + DigitsValue(parts[1]) == ShownSeconds(review, stats, timeTaken)
  {
    ClockReadsBack(ShownSeconds(review, stats, timeTaken));
  }
}
