/** Values shared by the question parser and the quiz window. */
module Types {

  /** The line break of the question file and of the readiness messages. */
  const LineBreak := "\r\n"

  datatype Option<T> = None | Some(value: T)

  /** A JavaScript property that holds a string, or is `undefined` or `null`. */
  datatype Slot = Undefined | Null | Text(value: string)

  /** A question's `answer`: one string field for every type but ordering,
      and the canonical list of items for an ordering (`o`) question. */
  datatype Answer = Field(slot: Slot) | List(items: seq<string>)

  /** A question's `sel`: not set, a string the user typed or picked, or the
      integer a true/false button (0 or 1) or the "Done" lock (1) stores. */
  datatype Sel = Unset | Str(s: string) | Num(n: int)

  /** A question object of the quiz window. `options` is a reference, so two
      question objects can share one options array; `correct` is `None`
      while the property is `undefined`. */
  datatype Question = Question(
    kind: Slot,
    text: Slot,
    answer: Answer,
    explanation: Slot,
    options: array?<string>,
    sel: Sel,
    correct: Option<bool>)

  /** `quiz.stats`. */
  datatype Stats = Stats(date: string, time: int, correct: nat, total: nat)

  /** One entry of the stored quiz history. */
  datatype HistoryEntry = HistoryEntry(ts: int, stats: Option<Stats>)
}
