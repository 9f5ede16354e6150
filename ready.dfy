/** The `readyToSubmit` check of the quiz window: every question must be
    answered, and a numerical answer must be an integer in canonical
    decimal form; `missing` holds one message line per failing question. */
module Readiness {
  import opened Types
  import opened Text


  /** `typeof sel === 'undefined' || sel === ''`. Strict equality keeps
      a numeric `sel` such as the true/false button 0 answered. */
  predicate Unanswered(sel: Sel)
    ensures sel.Num? ==> !Unanswered(sel)
  {
    sel == Unset || sel == Str("")
  }

  /** `sel !== parseInt(sel).toString()`: a number is never strictly equal
      to a string. */
  predicate NotInteger(sel: Sel)
    ensures !sel.Str? ==> NotInteger(sel)
    ensures sel == Str("") ==> NotInteger(sel)
  {
    match sel
    case Str(s) => !IsIntegerText(s)
    case _ => true
  }

  /** What that test rejects: everything but a string in canonical decimal
      form or the text "NaN" (which `parseInt` turns into NaN, whose text is
      "NaN" again). */
  predicate NotIntegerText(sel: Sel)
  {
    match sel
    case Str(s) => !(s == "NaN" || Canonical(s))
    case _ => true
  }

  lemma NotIntegerMeans(sel: Sel)
    ensures NotInteger(sel) <==> NotIntegerText(sel)
  {
    if sel.Str? {
      IntegerTextIsCanonical(sel.s);
    }
  }

  const Prefix := "Question "
  const NotLockedIn := " has not been locked in (by selecting " + "\"Done\"" + ") yet."
  const NotAnswered := " has not been answered yet."
  const NotAnInteger := "'s response is not an integer."

  /** The message line for question `i` (0-based), without its line break,
      or `None` when the question passes: ordering questions that are not
      locked in get their own wording. */
  function Complaint(q: Question, i: nat): (m: Option<string>)
    ensures m.Some? <==> Unanswered(q.sel) || (q.kind == Text("n") && NotIntegerText(q.sel))
  {
    var number := NatToString(i + 1);
    if Unanswered(q.sel) then
      if q.kind == Text("o") then Some(Prefix + number + NotLockedIn)
      else Some(Prefix + number + NotAnswered)
    else if q.kind == Text("n") && NotIntegerText(q.sel) then
      Some(Prefix + number + NotAnInteger)
    else None
  }

  /** The lines the questions from index `i` on contribute, in order. */
  function LinesFrom(qs: seq<Question>, i: nat): seq<string>
    decreases |qs| - i
  {
    if i >= |qs| then []
    else
      match Complaint(qs[i], i)
      case Some(m) => [m] + LinesFrom(qs, i + 1)
      case None => LinesFrom(qs, i + 1)
  }

  /** What question `i` appends to `missing`: its line and a line break,
      or nothing. */
  function Piece(q: Question, i: nat): (p: string)
    ensures |p| == 0 <==> Complaint(q, i).None?
  {
    match Complaint(q, i)
    case Some(m) => m + LineBreak
    case None => ""
  }

  /** What the loop appends to `missing` from index `i` on. */
  function MissingFrom(qs: seq<Question>, i: nat): string
    decreases |qs| - i
  {
    if i >= |qs| then "" else Piece(qs[i], i) + MissingFrom(qs, i + 1)
  }

  /** The body of the loop for question `i`: the source's branches, which
      pick the same message as `Complaint`. */
  method QuestionMessage(q: Question, i: nat) returns (message: Option<string>)
    ensures message == Complaint(q, i)
  {
    var number := NatToString(i + 1);
    message := None;
    if q.sel == Unset || q.sel == Str("") {
      if q.kind == Text("o") {
        message := Some(Prefix + number + NotLockedIn);
      } else {
        message := Some(Prefix + number + NotAnswered);
      }
    } else if q.kind == Text("n") && (q.sel.Num? || !IsIntegerText(q.sel.s)) {
      message := Some(Prefix + number + NotAnInteger);
    }
    NotIntegerMeans(q.sel);
  }

  /** The computed property: the loop over the quiz's questions; `ready`
      is cleared exactly where a message is added. */
  method ReadyToSubmit(qs: seq<Question>) returns (ready: bool, missing: string)
    ensures ready <==> forall i :: 0 <= i < |qs| ==> Complaint(qs[i], i).None?
    ensures missing == MissingFrom(qs, 0)
  {
    ready := true;
    missing := "";
    var i := 0;
    while i < |qs|
      invariant 0 <= i <= |qs|
      invariant missing == MissingBefore(qs, i)
      invariant ready <==> |missing| == 0
    {
      var message := QuestionMessage(qs[i], i);
      if message.Some? {
        ready := false;
        missing := missing + (message.value + LineBreak);
      }
      i := i + 1;
    }
    AllBefore(qs);
    NothingMissingMeansReady(qs, 0);
  }

  /** What the loop has appended once it has looked at the questions
      before index `i`. */
  function MissingBefore(qs: seq<Question>, i: nat): string
    requires i <= |qs|
  {
    if i == 0 then "" else MissingBefore(qs, i - 1) + Piece(qs[i - 1], i - 1)
  }

  /** The text appended before index `i` and the text appended from `i` on
      make up the whole of `missing`. */
  lemma {:induction false} BeforeThenFrom(qs: seq<Question>, i: nat)
    requires i <= |qs|
    ensures MissingBefore(qs, i) + MissingFrom(qs, i) == MissingFrom(qs, 0)
  {
    if i > 0 {
      BeforeThenFrom(qs, i - 1);
      var a, b, c := MissingBefore(qs, i - 1), Piece(qs[i - 1], i - 1), MissingFrom(qs, i);
      assert MissingFrom(qs, i - 1) == b + c;
      Associative(a, b, c);
    } else {
      assert "" + MissingFrom(qs, 0) == MissingFrom(qs, 0);
    }
  }

  lemma AllBefore(qs: seq<Question>)
    ensures MissingBefore(qs, |qs|) == MissingFrom(qs, 0)
  {
    BeforeThenFrom(qs, |qs|);
    assert MissingBefore(qs, |qs|) + "" == MissingBefore(qs, |qs|);
  }

  lemma Associative(a: string, b: string, c: string)
    ensures a + b + c == a + (b + c)
  {
  }

  // -----------------------------------------------------------------------
  // What the check means
  // -----------------------------------------------------------------------

  lemma {:induction false} NothingMissingMeansReady(qs: seq<Question>, i: nat)
    ensures |MissingFrom(qs, i)| == 0 <==> forall k :: i <= k < |qs| ==> Complaint(qs[k], k).None?
    decreases |qs| - i
  {
    if i < |qs| {
      NothingMissingMeansReady(qs, i + 1);
      assert |MissingFrom(qs, i)| == |Piece(qs[i], i)| + |MissingFrom(qs, i + 1)|;
    }
  }

  lemma DigitsHaveNoCarriageReturn(d: string)
    requires AllDigits(d)
    ensures '\r' !in d
  {
    assert forall k :: 0 <= k < |d| ==> IsDigit(d[k]);
  }

  lemma WordingIsOneLine()
    ensures '\r' !in Prefix && '\r' !in NotAnswered && '\r' !in NotAnInteger
    ensures '\r' !in NotLockedIn
  {
    LockWordingIsOneLine();
  }

  lemma LockWordingIsOneLine()
    ensures '\r' !in NotLockedIn
  {
    var a, b, c := " has not been locked in (by selecting ", "\"Done\"", ") yet.";
    assert '\r' !in a;
    assert '\r' !in b;
    assert '\r' !in c;
    ConcatenationIsOneLine(a, b, c);
  }

  lemma ConcatenationIsOneLine(a: string, b: string, c: string)
    requires '\r' !in a && '\r' !in b && '\r' !in c
    ensures '\r' !in a + b + c
  {
  }

  lemma ComplaintIsOneLine(q: Question, i: nat)
    requires Complaint(q, i).Some?
    ensures '\r' !in Complaint(q, i).value
  {
    var number := NatToString(i + 1);
    DigitsHaveNoCarriageReturn(number);
    WordingIsOneLine();
    ConcatenationIsOneLine(Prefix, number, NotLockedIn);
    ConcatenationIsOneLine(Prefix, number, NotAnswered);
    ConcatenationIsOneLine(Prefix, number, NotAnInteger);
  }

  /** Every line names its question: after "Question " come the digits of
      `i + 1`, and reading them back gives `i + 1`. */
  lemma ComplaintNumbersQuestion(q: Question, i: nat)
    requires Complaint(q, i).Some?
    ensures var m := Complaint(q, i).value;
      |Prefix| <= |m| && m[..|Prefix|] == Prefix &&
      DigitsValue(LeadingDigits(m[|Prefix|..])) == i + 1
  {
    var number := NatToString(i + 1);
    WordingStartsWithNonDigit();
    if Unanswered(q.sel) && q.kind == Text("o") {
      NumberAfterHead(Prefix, number, NotLockedIn);
    } else if Unanswered(q.sel) {
      NumberAfterHead(Prefix, number, NotAnswered);
    } else {
      NumberAfterHead(Prefix, number, NotAnInteger);
    }
    NatToStringReadsBack(i + 1);
  }

  lemma NumberAfterHead(head: string, number: string, tail: string)
    requires AllDigits(number) && |tail| > 0 && !IsDigit(tail[0])
    ensures var m := head + number + tail;
      |head| <= |m| && m[..|head|] == head && LeadingDigits(m[|head|..]) == number
  {
    var m := head + number + tail;
    assert m[|head|..] == number + tail;
    LeadingDigitsStop(number, tail);
  }

  lemma WordingStartsWithNonDigit()
    ensures |NotLockedIn| > 0 && !IsDigit(NotLockedIn[0])
    ensures |NotAnswered| > 0 && !IsDigit(NotAnswered[0])
    ensures |NotAnInteger| > 0 && !IsDigit(NotAnInteger[0])
  {
  }

  /** An unanswered question gets the "locked in" wording exactly when it
      is an ordering question. */
  lemma LockedInWording(q: Question, i: nat)
    requires Unanswered(q.sel)
    ensures Complaint(q, i) == Some(Prefix + NatToString(i + 1) + NotLockedIn) <==> q.kind == Text("o")
  {
    var head := Prefix + NatToString(i + 1);
    if q.kind != Text("o") {
      assert |NotAnswered| != |NotLockedIn|;
      assert |head + NotAnswered| != |head + NotLockedIn|;
    }
  }

  /** `missing` read as lines: one line per failing question, in index
      order, and the empty text after the last line break. */
  lemma {:induction false} MissingLines(qs: seq<Question>, i: nat)
    ensures Split(MissingFrom(qs, i), LineBreak) == LinesFrom(qs, i) + [""]
    decreases |qs| - i
  {
    if i < |qs| {
      MissingLines(qs, i + 1);
      var m := Complaint(qs[i], i);
      if m.Some? {
        ComplaintIsOneLine(qs[i], i);
        assert MissingFrom(qs, i) == m.value + LineBreak + MissingFrom(qs, i + 1);
        SplitAfterPiece(m.value, LineBreak, MissingFrom(qs, i + 1));
      } else {
        assert MissingFrom(qs, i) == "" + MissingFrom(qs, i + 1);
        assert "" + MissingFrom(qs, i + 1) == MissingFrom(qs, i + 1);
      }
    }
  }

  /** Every failing question contributes its line: a question that fails
      has its message, numbered `i + 1`, among the lines. */
  lemma {:induction false} FailingQuestionListed(qs: seq<Question>, i: nat, j: nat)
    requires i <= j < |qs| && Complaint(qs[j], j).Some?
    ensures Complaint(qs[j], j).value in LinesFrom(qs, i)
    decreases j - i
  {
    if i < j {
      FailingQuestionListed(qs, i + 1, j);
    }
  }

  /** Every line belongs to a failing question at or after `i`. */
  lemma {:induction false} LinesAreComplaints(qs: seq<Question>, i: nat, line: string)
    requires line in LinesFrom(qs, i)
    ensures exists j :: i <= j < |qs| && Complaint(qs[j], j) == Some(line)
    decreases |qs| - i
  {
    if i < |qs| {
      var m := Complaint(qs[i], i);
      if m != Some(line) {
        LinesAreComplaints(qs, i + 1, line);
      }
    }
  }
}
