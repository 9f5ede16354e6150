/** The quiz window's Fisher–Yates shuffle, modified to try again while an
    array longer than two comes back with its first two slots unchanged.
    `Math.random()` is an oracle: every pass over the array is given its
    draws, reals in [0, 1), and every retry is given a pass of its own.
    Running out of passes stands for a retry the source would still make. */
module Shuffle {

  /** A draw of `Math.random()`: a real in [0, 1). */
  type Draw = r: real | 0.0 <= r < 1.0

  /** `Math.floor(Math.random() * c)`: an index below `c`. */
  function Pick(r: Draw, c: nat): (k: nat)
    requires c > 0
    ensures k < c
  {
    var x := r * c as real;
    assert x < c as real by {
      assert (1.0 - r) * c as real > 0.0;
    }
    x.Floor
  }

  function Swap<T>(s: seq<T>, i: nat, j: nat): (t: seq<T>)
    requires i < |s| && j < |s|
    ensures |t| == |s|
  {
    s[i := s[j]][j := s[i]]
  }

  /** A swap only reorders. */
  lemma SwapPermutes<T>(s: seq<T>, i: nat, j: nat)
    requires i < |s| && j < |s|
    ensures multiset(Swap(s, i, j)) == multiset(s)
  {
  }

  /** Swapping the same two slots again puts everything back. */
  lemma SwapTwice<T>(s: seq<T>, i: nat, j: nat)
    requires i < |s| && j < |s|
    ensures Swap(Swap(s, i, j), i, j) == s
  {
    var t := Swap(Swap(s, i, j), i, j);
    assert forall k :: 0 <= k < |s| ==> t[k] == s[k];
  }

  /** The last `c` steps of one pass, the next draw being `draws[m]`: with
      `c` elements left to place, pick an index below `c`, swap it with slot
      `c - 1`, and go on with `c - 1`. */
  function Pass<T>(s: seq<T>, draws: seq<Draw>, m: nat, c: nat): (t: seq<T>)
    requires c <= |s| && m + c <= |draws|
    ensures |t| == |s|
    decreases c
  {
    if c == 0 then s
    else Pass(Swap(s, c - 1, Pick(draws[m], c)), draws, m + 1, c - 1)
  }

  /** One complete pass of the `while` loop over an array of `|s|` slots. */
  function Round<T>(s: seq<T>, draws: seq<Draw>): (t: seq<T>)
    requires |s| <= |draws|
    ensures |t| == |s|
  {
    Pass(s, draws, 0, |s|)
  }

  /** What a call returns: the final contents, whether the retries came to
      an end within the rounds given, and the contents the last round
      started from (the `original` copy of the last recursive call). */
  datatype Outcome<T> = Outcome(result: seq<T>, settled: bool, lastInput: seq<T>)

  /** The shuffle with its retries: a round, then another call on the
      round's output while it is longer than two and agrees with the
      round's input in its first two slots. */
  function Retry<T(==)>(s: seq<T>, rounds: seq<seq<Draw>>): (o: Outcome<T>)
    ensures |o.result| == |s| && |o.lastInput| == |s|
    decreases |rounds|
  {
    if |rounds| == 0 || |rounds[0]| < |s| then Outcome(s, false, s)
    else
      var t := Round(s, rounds[0]);
      if |t| > 2 && s[0] == t[0] && s[1] == t[1] then Retry(t, rounds[1..])
      else Outcome(t, true, s)
  }

  /** One pass over the array, in place, as the source's `while` loop. */
  method ShufflePass<T>(a: array<T>, draws: seq<Draw>)
    requires a.Length <= |draws|
    modifies a
    ensures a[..] == Round(old(a[..]), draws)
  {
    var currentIndex := a.Length;
    while currentIndex != 0
      invariant 0 <= currentIndex <= a.Length
      invariant Pass(a[..], draws, a.Length - currentIndex, currentIndex) == Round(old(a[..]), draws)
    {
      var randomIndex := Pick(draws[a.Length - currentIndex], currentIndex);
      ghost var before := a[..];
      currentIndex := currentIndex - 1;
      var temporaryValue := a[currentIndex];
      a[currentIndex] := a[randomIndex];
      a[randomIndex] := temporaryValue;
      assert a[..] == Swap(before, currentIndex, randomIndex) by {
        assert a[..] == before[currentIndex := before[randomIndex]][randomIndex := before[currentIndex]];
      }
    }
  }

  /** `shuffle(array)`: shuffles the caller's array in place and reports
      whether it settled within the rounds given. */
  method ShuffleArray<T(==)>(a: array<T>, rounds: seq<seq<Draw>>) returns (settled: bool)
    modifies a
    ensures a[..] == Retry(old(a[..]), rounds).result
    ensures settled == Retry(old(a[..]), rounds).settled
    decreases |rounds|
  {
    var original := a[..];
    if |rounds| == 0 || |rounds[0]| < a.Length {
      return false;
    }
    ShufflePass(a, rounds[0]);
    if a.Length > 2 && original[0] == a[0] && original[1] == a[1] {
      settled := ShuffleArray(a, rounds[1..]);
      return;
    }
    return true;
  }

  // -----------------------------------------------------------------------
  // What the shuffle guarantees
  // -----------------------------------------------------------------------

  lemma {:induction false} PassPermutes<T>(s: seq<T>, draws: seq<Draw>, m: nat, c: nat)
    requires c <= |s| && m + c <= |draws|
    ensures multiset(Pass(s, draws, m, c)) == multiset(s)
    decreases c
  {
    if c > 0 {
      var t := Swap(s, c - 1, Pick(draws[m], c));
      PassPermutes(t, draws, m + 1, c - 1);
      SwapPermutes(s, c - 1, Pick(draws[m], c));
      assert Pass(s, draws, m, c) == Pass(t, draws, m + 1, c - 1);
    }
  }

  /** The result is a permutation of the caller's array. */
  lemma {:induction false} RetryPermutes<T>(s: seq<T>, rounds: seq<seq<Draw>>)
    ensures |Retry(s, rounds).result| == |s|
    ensures multiset(Retry(s, rounds).result) == multiset(s)
    decreases |rounds|
  {
    if |rounds| > 0 && |rounds[0]| >= |s| {
      var t := Round(s, rounds[0]);
      PassPermutes(s, rounds[0], 0, |s|);
      if |t| > 2 && s[0] == t[0] && s[1] == t[1] {
        RetryPermutes(t, rounds[1..]);
      }
    }
  }

  /** When the retries settle on an array longer than two, the result
      differs in its first two slots from the last round's input; and that
      input agrees with the caller's array in those slots, so although
      every recursive call re-copies `original` from the already shuffled
      array, the result differs from the caller's array there as well. */
  lemma {:induction false} RetryMovesFirstTwo<T>(s: seq<T>, rounds: seq<seq<Draw>>)
    requires |s| > 2
    ensures var o := Retry(s, rounds);
      |o.lastInput| == |s| && o.lastInput[0] == s[0] && o.lastInput[1] == s[1] &&
      (o.settled ==> o.result[0] != o.lastInput[0] || o.result[1] != o.lastInput[1]) &&
      (o.settled ==> o.result[0] != s[0] || o.result[1] != s[1])
    decreases |rounds|
  {
    RetryPermutes(s, rounds);
    if |rounds| > 0 && |rounds[0]| >= |s| {
      var t := Round(s, rounds[0]);
      if s[0] == t[0] && s[1] == t[1] {
        RetryMovesFirstTwo(t, rounds[1..]);
      }
    }
  }

  lemma {:induction false} PassKeepsConstant<T>(s: seq<T>, draws: seq<Draw>, m: nat, c: nat, x: T)
    requires c <= |s| && m + c <= |draws|
    requires forall k :: 0 <= k < |s| ==> s[k] == x
    ensures forall k :: 0 <= k < |s| ==> Pass(s, draws, m, c)[k] == x
    decreases c
  {
    if c > 0 {
      PassKeepsConstant(Swap(s, c - 1, Pick(draws[m], c)), draws, m + 1, c - 1, x);
    }
  }

  /** An array longer than two whose elements are all equal never settles:
      the source recurses for as long as it is given randomness. */
  lemma {:induction false} ConstantNeverSettles<T>(s: seq<T>, rounds: seq<seq<Draw>>)
    requires |s| > 2
    requires forall k :: 0 <= k < |s| ==> s[k] == s[0]
    ensures !Retry(s, rounds).settled
    decreases |rounds|
  {
    if |rounds| > 0 && |rounds[0]| >= |s| {
      var t := Round(s, rounds[0]);
      PassKeepsConstant(s, rounds[0], 0, |s|, s[0]);
      ConstantNeverSettles(t, rounds[1..]);
    }
  }
}
