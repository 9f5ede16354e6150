/** The question-file parser of the main process (the `get-questions`
    handler): the text is cut into lines at "\r\n", each line into fields at
    ';', and every line becomes one question record. */
module QuestionParser {
  import opened Types
  import opened Text

  const FieldSeparator := ";"

  /** A question as the parser emits it. `kind` is the type code (`mc`, `tf`,
      `sa`, `o` or `n` in a well-formed file); `options` is `None` for `null`. */
  datatype Record = Record(
    kind: string,
    question: Slot,
    answer: Answer,
    explanation: Slot,
    options: Option<seq<string>>)

  /** `item[k]` of the array of fields: undefined past its end. */
  function Item(item: seq<string>, k: nat): (r: Slot)
    ensures r != Null
    ensures r.Text? <==> k < |item|
    ensures k < |item| ==> r.value == item[k]
  {
    if k < |item| then Text(item[k]) else Undefined
  }

  /** `item.slice(2)`: the fields from the third on. */
  function FromThird(item: seq<string>): (r: seq<string>)
    ensures |item| >= 2 ==> item == item[..2] + r
    ensures |item| < 2 ==> r == []
  {
    if |item| < 2 then [] else item[2..]
  }

  /** With a one-character separator, the first piece is the text up to the
      first separator, and no piece holds the separator. */
  lemma {:induction false} SplitOnChar(s: string, sep: string)
    requires |sep| == 1
    ensures var r := Split(s, sep);
      r[0] <= s && (|r[0]| < |s| ==> s[|r[0]|] == sep[0]) &&
      forall k :: 0 <= k < |r| ==> sep[0] !in r[k]
    decreases |s|
  {
    if |s| < |sep| {
    } else if s[..|sep|] == sep {
      SplitOnChar(s[|sep|..], sep);
      var rest := Split(s[|sep|..], sep);
      assert Split(s, sep) == [""] + rest;
    } else {
      SplitOnChar(s[1..], sep);
      var rest := Split(s[1..], sep);
      assert s[0] != sep[0] by { assert s[..1] == [s[0]]; }
      var r := Split(s, sep);
      assert r == [[s[0]] + rest[0]] + rest[1..];
      forall k | 0 <= k < |r|
        ensures sep[0] !in r[k]
      {
        if k > 0 {
          assert r[k] == rest[k];
        }
      }
    }
  }

  /** The record the parser builds from one line. */
  function ToRecord(line: string): (r: Record)
    // the type code is the text before the first ';'
    ensures ';' !in r.kind && r.kind <= line
    ensures |r.kind| < |line| ==> line[|r.kind|] == ';'
    // an explanation only for true/false, options only for mc and o
    ensures r.explanation == Null <==> r.kind != "tf"
    ensures r.options.Some? <==> r.kind == "mc" || r.kind == "o"
    ensures r.answer.List? <==> r.kind == "o"
    // ordering: the options are the answer, in the file's order
    ensures r.kind == "o" ==> r.answer == List(r.options.value)
    // multiple choice: the correct answer is the first option
    ensures r.kind == "mc" && r.options.value != [] ==> r.answer == Field(Text(r.options.value[0]))
    ensures r.kind == "mc" && r.options.value == [] ==> r.answer == Field(Undefined)
  {
    var item := Split(line, FieldSeparator);
    SplitOnChar(line, FieldSeparator);
    Record(
      item[0],
      Item(item, 1),
      if item[0] != "o" then Field(Item(item, 2)) else List(FromThird(item)),
      if item[0] == "tf" then Item(item, 3) else Null,
      if item[0] == "mc" || item[0] == "o" then Some(FromThird(item)) else None)
  }

  /** The handler's loop: one record per "\r\n"-separated line, in order. */
  method ParseQuestions(data: string) returns (output: seq<Record>)
    ensures |output| == |Split(data, LineBreak)|
    ensures forall k :: 0 <= k < |output| ==> output[k] == ToRecord(Split(data, LineBreak)[k])
  {
    var lines := Split(data, LineBreak);
    output := [];
    var i := 0;
    while i < |lines|
      invariant 0 <= i <= |lines| && |output| == i
      invariant forall k :: 0 <= k < i ==> output[k] == ToRecord(lines[k])
    {
      output := output + [ToRecord(lines[i])];
      i := i + 1;
    }
  }

  /** A trailing "\r\n" gives one more record, of type "". */
  lemma ParseTrailingLineBreak(data: string)
    ensures Split(data + LineBreak, LineBreak) == Split(data, LineBreak) + [""]
    ensures ToRecord("").kind == "" && ToRecord("").question == Undefined
  {
    assert LineBreak[1..] == "\n";
    SplitTrailingSeparator(data, LineBreak);
  }

  /** Text with "\n" line ends only is one single record. */
  lemma ParseWithoutCarriageReturn(data: string)
    requires '\r' !in data
    ensures Split(data, LineBreak) == [data]
  {
    SplitWithoutSeparator(data, LineBreak);
  }

  // -----------------------------------------------------------------------
  // Writing a record back as a line: the parser's inverse on the
  // questions a well-formed file holds.
  // -----------------------------------------------------------------------

  /** Field text the line format can carry: no ';' and no carriage return. */
  predicate Clean(s: string)
  {
    ';' !in s && '\r' !in s
  }

  predicate AllClean(xs: seq<string>)
  {
    forall k :: 0 <= k < |xs| ==> Clean(xs[k])
  }

  /** A record of one of the five types, as a well-formed line produces it. */
  predicate WellFormed(r: Record)
  {
    r.question.Text? && Clean(r.question.value) &&
    match r.kind
    case "mc" =>
      r.options.Some? && |r.options.value| >= 1 && AllClean(r.options.value) &&
      r.answer == Field(Text(r.options.value[0])) && r.explanation == Null
    case "tf" =>
      r.answer.Field? && r.answer.slot.Text? && Clean(r.answer.slot.value) &&
      r.explanation.Text? && Clean(r.explanation.value) && r.options == None
    case "sa" =>
      r.answer.Field? && r.answer.slot.Text? && Clean(r.answer.slot.value) &&
      r.explanation == Null && r.options == None
    case "n" =>
      r.answer.Field? && r.answer.slot.Text? && Clean(r.answer.slot.value) &&
      r.explanation == Null && r.options == None
    case "o" =>
      r.answer.List? && AllClean(r.answer.items) &&
      r.options == Some(r.answer.items) && r.explanation == Null
    case _ => false
  }

  /** The fields of a well-formed record's line. */
  function Fields(r: Record): (f: seq<string>)
    requires WellFormed(r)
    ensures |f| >= 2 && AllClean(f)
  {
    [r.kind, r.question.value] +
    match r.kind
    case "mc" => r.options.value
    case "tf" => [r.answer.slot.value, r.explanation.value]
    case "o" => r.answer.items
    case _ => [r.answer.slot.value]
  }

  function Encode(r: Record): string
    requires WellFormed(r)
  {
    Join(Fields(r), FieldSeparator)
  }

  lemma {:induction false} JoinKeepsOut(xs: seq<string>, sep: string, c: char)
    requires c !in sep
    requires forall k :: 0 <= k < |xs| ==> c !in xs[k]
    ensures c !in Join(xs, sep)
    decreases |xs|
  {
    if |xs| > 1 {
      JoinKeepsOut(xs[1..], sep, c);
    }
  }

  /** Parsing the line of a well-formed record gives the record back. */
  lemma EncodeThenParse(r: Record)
    requires WellFormed(r)
    ensures '\r' !in Encode(r)
    ensures ToRecord(Encode(r)) == r
  {
    var f := Fields(r);
    SplitJoin(f, FieldSeparator);
    JoinKeepsOut(f, FieldSeparator, '\r');
    assert Split(Encode(r), FieldSeparator) == f;
    assert f[0] == r.kind && f[1] == r.question.value;
    assert FromThird(f) == f[2..];
  }

  function EncodeAll(rs: seq<Record>): (lines: seq<string>)
    requires forall k :: 0 <= k < |rs| ==> WellFormed(rs[k])
    ensures |lines| == |rs|
    ensures forall k :: 0 <= k < |rs| ==> lines[k] == Encode(rs[k])
  {
    seq(|rs|, k requires 0 <= k < |rs| => Encode(rs[k]))
  }

  /** A file written from well-formed records, lines joined by "\r\n",
      parses back to exactly those records, in order. */
  lemma ParseEncodedFile(rs: seq<Record>)
    requires |rs| >= 1
    requires forall k :: 0 <= k < |rs| ==> WellFormed(rs[k])
    ensures |Split(Join(EncodeAll(rs), LineBreak), LineBreak)| == |rs|
    ensures forall k :: 0 <= k < |rs| ==> ToRecord(Split(Join(EncodeAll(rs), LineBreak), LineBreak)[k]) == rs[k]
  {
    var lines := EncodeAll(rs);
    forall k | 0 <= k < |rs|
      ensures '\r' !in lines[k] && ToRecord(lines[k]) == rs[k]
    {
      EncodeThenParse(rs[k]);
    }
    SplitJoin(lines, LineBreak);
  }
}
