/** How `submitQuiz` marks each question by its type, and the count of correct
    answers that goes into the quiz statistics. */
module Grading {
  import opened Types
  import opened Text

  /** What the grading `switch` needs of a question not to throw a
      TypeError: short-answer and numeric questions call `toLowerCase` on a
      string `sel` and a string `answer`; ordering questions walk their
      `options` array and index a list `answer`. */
  predicate Gradable(q: Question)
    ensures q.kind == Text("mc") || q.kind == Text("tf") ==> Gradable(q)
  {
    (q.kind == Text("sa") || q.kind == Text("n") ==> q.sel.Str? && q.answer.Field? && q.answer.slot.Text?) &&
    (q.kind == Text("o") ==> q.options != null && q.answer.List?)
  }

  /** `sel === answer` under strict equality (a number is never equal to a
      string; `undefined` equals only `undefined`). */
  predicate SelIsAnswer(sel: Sel, answer: Answer)
    ensures SelIsAnswer(sel, answer) ==> answer.Field? && answer.slot != Null && !sel.Num?
  {
    match answer
    case Field(Undefined) => sel == Unset
    case Field(Text(t)) => sel == Str(t)
    case _ => false
  }

  predicate KnownKind(kind: Slot)
  {
    kind == Text("mc") || kind == Text("sa") || kind == Text("n") || kind == Text("tf") || kind == Text("o")
  }

  /** The value the `switch` leaves in `correct`: `None` (undefined) for a
      type it does not know. Ordering compares the displayed options with
      the answer slot by slot, over the options' length only, so the
      options must be a prefix of the answer. */
  function Grade(q: Question): (r: Option<bool>)
    requires Gradable(q)
    reads q.options
    ensures r.None? <==> !KnownKind(q.kind)
  {
    match q.kind
    case Text("mc") => Some(SelIsAnswer(q.sel, q.answer))
    case Text("sa") => Some(Lower(q.sel.s) == Lower(q.answer.slot.value))
    case Text("n") => Some(Lower(q.sel.s) == Lower(q.answer.slot.value))
    case Text("tf") =>
      Some((q.sel == Num(1) && q.answer == Field(Text("true"))) ||
           (q.sel == Num(0) && q.answer == Field(Text("false"))))
    case Text("o") => Some(q.options[..] <= q.answer.items)
    case _ => None
  }

  /** Whether a question counts as correct (`if (correct) numCorrect++`). */
  predicate Counts(q: Question)
  {
    q.correct == Some(true)
  }

  /** How many questions carry a truthy `correct`. */
  function CountCorrect(qs: seq<Question>): (n: nat)
    ensures n <= |qs|
  {
    if |qs| == 0 then 0
    else CountCorrect(qs[..|qs| - 1]) + (if Counts(qs[|qs| - 1]) then 1 else 0)
  }

  /** The ordering check: `correct` starts true and the loop clears it at
      the first slot where the answer and the displayed options differ. */
  method OrderCorrect(answer: seq<string>, options: array<string>) returns (correct: bool)
    ensures correct <==> options[..] <= answer
  {
    correct := true;
    var i := 0;
    while i < options.Length
      invariant 0 <= i <= options.Length
      invariant correct && options[..i] <= answer
    {
      if i >= |answer| || answer[i] != options[i] {
        correct := false;
        break;
      }
      i := i + 1;
    }
    assert correct ==> options[..] == options[..i];
  }

  /** The grading loop of `submitQuiz`: sets `correct` on every question,
      in order, and counts the correct ones and all of them. */
  method GradeQuestions(qs: seq<Question>) returns (graded: seq<Question>, numCorrect: nat, numTotal: nat)
    requires forall k :: 0 <= k < |qs| ==> Gradable(qs[k])
    ensures |graded| == |qs| && numTotal == |qs|
    ensures forall k :: 0 <= k < |qs| ==> graded[k] == qs[k].(correct := Grade(qs[k]))
    ensures numCorrect == CountCorrect(graded) && numCorrect <= numTotal
  {
    graded := [];
    numCorrect, numTotal := 0, 0;
    while numTotal < |qs|
      invariant numTotal <= |qs| && |graded| == numTotal
      invariant forall k :: 0 <= k < numTotal ==> graded[k] == qs[k].(correct := Grade(qs[k]))
      invariant numCorrect == CountCorrect(graded)
    {
      var question := qs[numTotal];
      var correct: Option<bool>;
      match question.kind {
        case Text("mc") =>
          correct := Some(SelIsAnswer(question.sel, question.answer));
        case Text("sa") =>
          correct := Some(Lower(question.sel.s) == Lower(question.answer.slot.value));
        case Text("n") =>
          correct := Some(Lower(question.sel.s) == Lower(question.answer.slot.value));
        case Text("tf") =>
          correct := Some((question.sel == Num(1) && question.answer == Field(Text("true"))) ||
                          (question.sel == Num(0) && question.answer == Field(Text("false"))));
        case Text("o") =>
          var inOrder := OrderCorrect(question.answer.items, question.options);
          correct := Some(inOrder);
        case _ =>
          correct := None;
      }
      var next := question.(correct := correct);
      assert (graded + [next])[..|graded|] == graded;
      graded := graded + [next];
      if correct == Some(true) {
        numCorrect := numCorrect + 1;
      }
      numTotal := numTotal + 1;
    }
  }

  // -----------------------------------------------------------------------
  // Properties of the rule and of the count
  // -----------------------------------------------------------------------

  /** Short-answer and numeric questions ignore the case of ASCII letters:
      two responses with the same lower-case form get the same grade. */
  lemma CaseInsensitive(q: Question, other: string)
    requires (q.kind == Text("sa") || q.kind == Text("n")) && Gradable(q)
    requires Lower(other) == Lower(q.sel.s)
    ensures Gradable(q.(sel := Str(other)))
    ensures Grade(q.(sel := Str(other))) == Grade(q)
  {
  }

  /** True/false: with answer "true" the button 1 is correct and 0 is not;
      with answer "false" the other way round; a string `sel` never is. */
  lemma TrueFalseRule(q: Question)
    requires q.kind == Text("tf")
    ensures Grade(q) == Some(true) <==>
      (q.answer == Field(Text("true")) && q.sel == Num(1)) ||
      (q.answer == Field(Text("false")) && q.sel == Num(0))
    ensures q.sel.Str? ==> Grade(q) == Some(false)
  {
  }

  /** Ordering: when the options are as long as the answer, they are graded
      correct exactly when they are in the answer's order. */
  lemma OrderingExact(q: Question)
    requires q.kind == Text("o") && Gradable(q)
    requires q.options.Length == |q.answer.items|
    ensures Grade(q) == Some(true) <==> q.options[..] == q.answer.items
  {
  }

  /** Ordering: any transposition of two different items grades incorrect. */
  lemma OrderingTransposition(q: Question, i: nat, j: nat)
    requires q.kind == Text("o") && Gradable(q)
    requires i < |q.answer.items| && j < |q.answer.items|
    requires q.answer.items[i] != q.answer.items[j]
    requires q.options[..] == q.answer.items[i := q.answer.items[j]][j := q.answer.items[i]]
    ensures Grade(q) == Some(false)
  {
    assert q.options[..][i] != q.answer.items[i];
  }

  /** The count depends on the verdicts only. */
  lemma {:induction false} CountSameVerdicts(a: seq<Question>, b: seq<Question>)
    requires |a| == |b|
    requires forall k :: 0 <= k < |a| ==> a[k].correct == b[k].correct
    ensures CountCorrect(a) == CountCorrect(b)
    decreases |a|
  {
    if |a| > 0 {
      CountSameVerdicts(a[..|a| - 1], b[..|b| - 1]);
    }
  }

  /** Every question is correct exactly when the count reaches the total. */
  lemma {:induction false} CountAllCorrect(qs: seq<Question>)
    ensures CountCorrect(qs) == |qs| <==> forall k :: 0 <= k < |qs| ==> Counts(qs[k])
    decreases |qs|
  {
    if |qs| > 0 {
      var init := qs[..|qs| - 1];
      CountAllCorrect(init);
      assert forall k :: 0 <= k < |init| ==> init[k] == qs[k];
    }
  }

  /** Grading reads but never changes `sel`, `options` or `answer`, so
      grading an already graded quiz gives the same questions and count. */
  lemma RegradeIsStable(qs: seq<Question>, graded: seq<Question>)
    requires forall k :: 0 <= k < |qs| ==> Gradable(qs[k])
    requires |graded| == |qs|
    requires forall k :: 0 <= k < |qs| ==> graded[k] == qs[k].(correct := Grade(qs[k]))
    ensures forall k :: 0 <= k < |graded| ==> Gradable(graded[k])
    ensures forall k :: 0 <= k < |graded| ==>
      graded[k].(correct := Grade(graded[k])) == graded[k] &&
      graded[k].sel == qs[k].sel && graded[k].options == qs[k].options && graded[k].answer == qs[k].answer
  {
  }
}
