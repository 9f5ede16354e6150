/** The JavaScript string and number operations the quiz relies on:
    `split`, `join`, ASCII `toLowerCase`, `parseInt`, `toString` of an
    integer and `padStart`. */
module Text {
  import opened Types

  // ---------------------------------------------------------------------
  // split and join
  // ---------------------------------------------------------------------

  /** `s.split(sep)` for a non-empty separator: the pieces between the
      leftmost non-overlapping occurrences of `sep`, scanning left to right. */
  function Split(s: string, sep: string): (r: seq<string>)
    requires |sep| > 0
    ensures |r| >= 1
    decreases |s|
  {
    if |s| < |sep| then [s]
    else if s[..|sep|] == sep then [""] + Split(s[|sep|..], sep)
    else
      var rest := Split(s[1..], sep);
      [[s[0]] + rest[0]] + rest[1..]
  }

  /** `xs.join(sep)`: the items in order with `sep` between neighbours;
      the text starts with the first item. */
  function Join(xs: seq<string>, sep: string): (r: string)
    ensures |xs| >= 1 ==> xs[0] <= r
  {
    if |xs| == 0 then ""
    else if |xs| == 1 then xs[0]
    else xs[0] + sep + Join(xs[1..], sep)
  }

  /** A separator whose first character does not recur in it, such as
      `";"`, `"\r\n"`, `":"` or `", "`. */
  predicate Unbordered(sep: string)
  {
    |sep| > 0 && sep[0] !in sep[1..]
  }

  lemma JoinPrependChar(c: char, x: string, ys: seq<string>, sep: string)
    ensures Join([[c] + x] + ys, sep) == [c] + Join([x] + ys, sep)
  {
    if |ys| > 0 {
      assert ([[c] + x] + ys)[1..] == ys;
      assert ([x] + ys)[1..] == ys;
      assert [c] + x + sep + Join(ys, sep) == [c] + (x + sep + Join(ys, sep));
    }
  }

  /** Splitting and joining again gives back the text: `split` never loses
      or invents a character, since there is no escaping. */
  lemma {:induction false} JoinSplit(s: string, sep: string)
    requires |sep| > 0
    ensures Join(Split(s, sep), sep) == s
    decreases |s|
  {
    if |s| < |sep| {
    } else if s[..|sep|] == sep {
      var rest := Split(s[|sep|..], sep);
      JoinSplit(s[|sep|..], sep);
      assert Split(s, sep) == [""] + rest;
      assert ([""] + rest)[1..] == rest;
      assert Join([""] + rest, sep) == "" + sep + Join(rest, sep);
      assert "" + sep + Join(rest, sep) == sep + s[|sep|..];
      assert s == sep + s[|sep|..];
    } else {
      var rest := Split(s[1..], sep);
      JoinSplit(s[1..], sep);
      assert Split(s, sep) == [[s[0]] + rest[0]] + rest[1..];
      assert rest == [rest[0]] + rest[1..];
      JoinPrependChar(s[0], rest[0], rest[1..], sep);
      assert s == [s[0]] + s[1..];
    }
  }

  /** Text without the separator's first character is one piece. */
  lemma {:induction false} SplitWithoutSeparator(s: string, sep: string)
    requires |sep| > 0 && sep[0] !in s
    ensures Split(s, sep) == [s]
    decreases |s|
  {
    if |s| < |sep| {
    } else {
      assert s[..|sep|][0] == s[0];
      SplitWithoutSeparator(s[1..], sep);
      assert [s[0]] + s[1..] == s;
    }
  }

  /** A separator at the very end yields one more, empty, piece. */
  lemma {:induction false} SplitTrailingSeparator(s: string, sep: string)
    requires Unbordered(sep)
    ensures Split(s + sep, sep) == Split(s, sep) + [""]
    decreases |s|
  {
    var u := s + sep;
    if |s| == 0 {
      assert u == sep;
      assert u[..|sep|] == sep;
      assert u[|sep|..] == "";
    } else if |s| >= |sep| && s[..|sep|] == sep {
      assert u[..|sep|] == sep;
      assert u[|sep|..] == s[|sep|..] + sep;
      SplitTrailingSeparator(s[|sep|..], sep);
    } else {
      assert u[..|sep|] != sep by {
        if |s| >= |sep| {
          assert u[..|sep|] == s[..|sep|];
        } else {
          assert u[..|sep|][|s|] == sep[0];
          assert sep[|s|] == sep[1..][|s| - 1];
          assert sep[|s|] != sep[0];
        }
      }
      assert u[1..] == s[1..] + sep;
      SplitTrailingSeparator(s[1..], sep);
      var rest := Split(s[1..], sep);
      if |s| < |sep| {
        assert rest == [s[1..]];
        assert [s[0]] + s[1..] == s;
      }
    }
  }

  /** A piece free of the separator's first character, followed by the
      separator, is split off as one piece. */
  lemma {:induction false} SplitAfterPiece(x: string, sep: string, t: string)
    requires |sep| > 0 && sep[0] !in x
    ensures Split(x + sep + t, sep) == [x] + Split(t, sep)
    decreases |x|
  {
    var u := x + sep + t;
    if |x| == 0 {
      assert u == sep + t;
      assert u[..|sep|] == sep;
      assert u[|sep|..] == t;
    } else {
      assert u[..|sep|][0] == x[0];
      assert u[1..] == x[1..] + sep + t;
      SplitAfterPiece(x[1..], sep, t);
      assert [x[0]] + x[1..] == x;
    }
  }

  /** Joining pieces free of the separator's first character and splitting
      again gives back the pieces. */
  lemma {:induction false} SplitJoin(xs: seq<string>, sep: string)
    requires |sep| > 0 && |xs| >= 1
    requires forall k :: 0 <= k < |xs| ==> sep[0] !in xs[k]
    ensures Split(Join(xs, sep), sep) == xs
    decreases |xs|
  {
    if |xs| == 1 {
      SplitWithoutSeparator(xs[0], sep);
    } else {
      SplitJoin(xs[1..], sep);
      SplitAfterPiece(xs[0], sep, Join(xs[1..], sep));
      assert [xs[0]] + xs[1..] == xs;
    }
  }

  // ---------------------------------------------------------------------
  // toLowerCase, on ASCII letters
  // ---------------------------------------------------------------------

  predicate IsUpper(c: char)
  {
    'A' <= c <= 'Z'
  }

  function LowerChar(c: char): char
  {
    if IsUpper(c) then (c as int + 32) as char else c
  }

  /** `s.toLowerCase()` on ASCII: every upper-case letter becomes its
      lower-case letter and nothing else changes. */
  function Lower(s: string): (r: string)
    ensures |r| == |s|
    ensures forall i :: 0 <= i < |s| ==> !IsUpper(r[i])
    ensures forall i :: 0 <= i < |s| ==> if IsUpper(s[i]) then r[i] as int == s[i] as int + 32 else r[i] == s[i]
  {
    seq(|s|, i requires 0 <= i < |s| => LowerChar(s[i]))
  }

  /** Lower-casing twice is lower-casing once. */
  lemma LowerIdempotent(s: string)
    ensures Lower(Lower(s)) == Lower(s)
  {
    var l := Lower(s);
    assert forall i :: 0 <= i < |l| ==> Lower(l)[i] == l[i];
  }

  // ---------------------------------------------------------------------
  // Decimal text of integers
  // ---------------------------------------------------------------------

  predicate IsDigit(c: char)
  {
    '0' <= c <= '9'
  }

  predicate AllDigits(s: string)
  {
    forall i :: 0 <= i < |s| ==> IsDigit(s[i])
  }

  function DigitChar(d: nat): (c: char)
    requires d < 10
    ensures IsDigit(c) && c as int - '0' as int == d
  {
    ('0' as int + d) as char
  }

  /** `n.toString()` for a non-negative integer: its digits, with no
      leading zero except in "0". */
  function NatToString(n: nat): (r: string)
    ensures |r| >= 1 && AllDigits(r)
    ensures r[0] == '0' ==> n == 0
    decreases n
  {
    if n < 10 then [DigitChar(n)] else NatToString(n / 10) + [DigitChar(n % 10)]
  }

  /** `n.toString()` for any integer: its canonical decimal form, with a
      minus sign exactly for a negative number. */
  function IntToString(n: int): (r: string)
    ensures Canonical(r)
    ensures r[0] == '-' <==> n < 0
  {
    if n < 0 then "-" + NatToString(-n) else NatToString(n)
  }

  /** The value of a string of decimal digits ("" is 0). */
  function DigitsValue(s: string): nat
    requires AllDigits(s)
  {
    if |s| == 0 then 0 else DigitsValue(s[..|s| - 1]) * 10 + (s[|s| - 1] as int - '0' as int)
  }

  /** Reading back the decimal text of `n` gives `n`. */
  lemma {:induction false} NatToStringReadsBack(n: nat)
    ensures DigitsValue(NatToString(n)) == n
    decreases n
  {
    var r := NatToString(n);
    if n >= 10 {
      NatToStringReadsBack(n / 10);
      assert r[..|r| - 1] == NatToString(n / 10);
    }
  }

  lemma {:induction false} LeadingNonZeroIsPositive(s: string)
    requires AllDigits(s) && |s| >= 1 && s[0] != '0'
    ensures DigitsValue(s) >= 1
    decreases |s|
  {
    if |s| > 1 {
      LeadingNonZeroIsPositive(s[..|s| - 1]);
    }
  }

  /** Digit text without a leading zero is the decimal text of its value. */
  lemma {:induction false} DigitsReadBack(s: string)
    requires AllDigits(s) && |s| >= 1 && (s[0] != '0' || |s| == 1)
    ensures NatToString(DigitsValue(s)) == s
    decreases |s|
  {
    var v := DigitsValue(s);
    if |s| == 1 {
      assert s[..|s| - 1] == "";
      assert DigitsValue(s[..|s| - 1]) == 0;
      assert v == s[0] as int - '0' as int;
      assert [DigitChar(v)] == s;
    } else {
      var p := s[..|s| - 1];
      LeadingNonZeroIsPositive(p);
      DigitsReadBack(p);
      assert v / 10 == DigitsValue(p);
      assert v % 10 == s[|s| - 1] as int - '0' as int;
      assert p + [s[|s| - 1]] == s;
    }
  }

  // ---------------------------------------------------------------------
  // parseInt
  // ---------------------------------------------------------------------

  /** The white space `parseInt` skips: the ECMAScript WhiteSpace and
      LineTerminator characters. */
  predicate IsJsSpace(c: char)
  {
    var k := c as int;
    k == 0x09 || k == 0x0A || k == 0x0B || k == 0x0C || k == 0x0D || k == 0x20 || k == 0xA0 ||
    k == 0x1680 || (0x2000 <= k <= 0x200A) || k == 0x2028 || k == 0x2029 || k == 0x202F ||
    k == 0x205F || k == 0x3000 || k == 0xFEFF
  }

  function TrimStart(s: string): (r: string)
    ensures |r| <= |s| && r == s[|s| - |r|..]
    ensures forall i :: 0 <= i < |s| - |r| ==> IsJsSpace(s[i])
    ensures |r| > 0 ==> !IsJsSpace(r[0])
  {
    if |s| > 0 && IsJsSpace(s[0]) then TrimStart(s[1..]) else s
  }

  /** The longest prefix of decimal digits. */
  function LeadingDigits(s: string): (r: string)
    ensures AllDigits(r) && r <= s
    ensures |r| < |s| ==> !IsDigit(s[|r|])
  {
    if |s| > 0 && IsDigit(s[0]) then [s[0]] + LeadingDigits(s[1..]) else ""
  }

  lemma {:induction false} LeadingDigitsOfDigits(s: string)
    requires AllDigits(s)
    ensures LeadingDigits(s) == s
    decreases |s|
  {
    if |s| > 0 {
      LeadingDigitsOfDigits(s[1..]);
      assert [s[0]] + s[1..] == s;
    }
  }

  /** The leading digits stop at the first non-digit. */
  lemma {:induction false} LeadingDigitsStop(d: string, t: string)
    requires AllDigits(d) && |t| > 0 && !IsDigit(t[0])
    ensures LeadingDigits(d + t) == d
    decreases |d|
  {
    if |d| > 0 {
      LeadingDigitsStop(d[1..], t);
      assert (d + t)[1..] == d[1..] + t;
      assert [d[0]] + d[1..] == d;
    } else {
      assert d + t == t;
    }
  }

  /** A hexadecimal digit, in either case. */
  predicate IsHexDigit(c: char)
  {
    IsDigit(c) || 'a' <= c <= 'f' || 'A' <= c <= 'F'
  }

  predicate AllHexDigits(s: string)
  {
    forall i :: 0 <= i < |s| ==> IsHexDigit(s[i])
  }

  /** The value of one hexadecimal digit. */
  function HexDigitValue(c: char): (d: nat)
    requires IsHexDigit(c)
    ensures d < 16
    ensures IsDigit(c) <==> d < 10
    ensures IsDigit(c) ==> d == c as int - '0' as int
  {
    if IsDigit(c) then c as int - '0' as int
    else if 'a' <= c <= 'f' then c as int - 'a' as int + 10
    else c as int - 'A' as int + 10
  }

  /** The value of a text of hexadecimal digits, most significant first. */
  function HexDigitsValue(s: string): nat
    requires AllHexDigits(s)
  {
    if |s| == 0 then 0 else HexDigitsValue(s[..|s| - 1]) * 16 + HexDigitValue(s[|s| - 1])
  }

  /** The longest prefix of hexadecimal digits. */
  function LeadingHexDigits(s: string): (r: string)
    ensures AllHexDigits(r) && r <= s
    ensures |r| < |s| ==> !IsHexDigit(s[|r|])
  {
    if |s| > 0 && IsHexDigit(s[0]) then [s[0]] + LeadingHexDigits(s[1..]) else ""
  }

  lemma {:induction false} LeadingHexDigitsOfHexDigits(s: string)
    requires AllHexDigits(s)
    ensures LeadingHexDigits(s) == s
    decreases |s|
  {
    if |s| > 0 {
      LeadingHexDigitsOfHexDigits(s[1..]);
      assert [s[0]] + s[1..] == s;
    }
  }

  /** The `0x` or `0X` prefix that makes `parseInt` without a radix read
      hexadecimal. */
  predicate HasHexPrefix(u: string)
  {
    |u| >= 2 && u[0] == '0' && (u[1] == 'x' || u[1] == 'X')
  }

  /** `parseInt(s)` without a radix: skip white space and read an optional
      sign; then, after a `0x` or `0X` prefix, the hexadecimal digits that
      follow, and otherwise the decimal digits that follow. No digit gives
      NaN (`None`). */
  function ParseInt(s: string): (v: Option<int>)
    ensures |TrimStart(s)| == 0 ==> v.None?
  {
    var t := TrimStart(s);
    var neg := |t| > 0 && t[0] == '-';
    var u := if |t| > 0 && (t[0] == '-' || t[0] == '+') then t[1..] else t;
    if HasHexPrefix(u) then
      var h := LeadingHexDigits(u[2..]);
      if h == "" then None
      else
        var magnitude: int := HexDigitsValue(h);
        Some(if neg then -magnitude else magnitude)
    else
      var d := LeadingDigits(u);
      if d == "" then None
      else
        var magnitude: int := DigitsValue(d);
        Some(if neg then -magnitude else magnitude)
  }

  /** A text of hexadecimal digits after `0x` or `0X` parses to its value. */
  lemma ParseHex(s: string)
    requires |s| > 2 && HasHexPrefix(s) && AllHexDigits(s[2..])
    ensures ParseInt(s) == Some(HexDigitsValue(s[2..]) as int)
  {
    DigitsAreNotTrimmed(s);
    LeadingHexDigitsOfHexDigits(s[2..]);
  }

  /** A text with the hexadecimal prefix never passes the integer test:
      `toString` writes decimal. */
  lemma HexIsNotIntegerText(s: string)
    requires HasHexPrefix(s)
    ensures !IsIntegerText(s)
  {
    IntegerTextIsCanonical(s);
  }

  /** A text of digits parses to its value. */
  lemma ParseDigits(s: string)
    requires |s| > 0 && AllDigits(s)
    ensures ParseInt(s) == Some(DigitsValue(s) as int)
  {
    DigitsAreNotTrimmed(s);
    LeadingDigitsOfDigits(s);
  }

  lemma DigitsAreNotTrimmed(s: string)
    requires |s| > 0 && IsDigit(s[0])
    ensures TrimStart(s) == s && s[0] != '-' && s[0] != '+'
  {
    assert !IsJsSpace(s[0]);
  }

  /** `.toString()` of what `parseInt` returns. */
  function NumberText(v: Option<int>): string
  {
    match v
    case None => "NaN"
    case Some(n) => IntToString(n)
  }

  /** `parseInt(s).toString() === s`. The empty text is not one: it
      parses to NaN. */
  predicate IsIntegerText(s: string)
    ensures IsIntegerText(s) ==> |s| > 0
  {
    NumberText(ParseInt(s)) == s
  }

  /** The canonical decimal form of an integer: "0", or digits with a
      non-zero lead, optionally preceded by '-'. */
  predicate Canonical(s: string)
  {
    (|s| >= 1 && AllDigits(s) && (s[0] != '0' || |s| == 1)) ||
    (|s| >= 2 && s[0] == '-' && AllDigits(s[1..]) && s[1] != '0')
  }

  /** Whatever survives the integer round trip, other than "NaN", is in
      canonical decimal form. */
  lemma IntegerTextOnlyCanonical(s: string)
    requires IsIntegerText(s) && s != "NaN"
    ensures Canonical(s)
  {
    var v := ParseInt(s);
    assert v.Some?;
    if v.value >= 0 {
      assert s == NatToString(v.value);
    } else {
      var r := NatToString(-v.value);
      assert s == "-" + r;
      assert s[1..] == r;
    }
  }

  /** The canonical decimal form of an integer survives the round trip. */
  lemma CanonicalIsIntegerText(s: string)
    requires Canonical(s)
    ensures IsIntegerText(s)
  {
    assert TrimStart(s) == s;
    if s[0] == '-' {
      var u := s[1..];
      assert AllDigits(u);
      LeadingDigitsOfDigits(u);
      LeadingNonZeroIsPositive(u);
      DigitsReadBack(u);
      assert ParseInt(s) == Some(-(DigitsValue(u) as int));
      assert "-" + u == s;
    } else {
      assert !IsJsSpace(s[0]) && s[0] != '-' && s[0] != '+';
      LeadingDigitsOfDigits(s);
      DigitsReadBack(s);
      assert ParseInt(s) == Some(DigitsValue(s) as int);
    }
  }

  /** "NaN" survives the round trip: it holds no digit, so it parses to
      NaN, whose text is "NaN". */
  lemma NaNIsIntegerText()
    ensures IsIntegerText("NaN")
  {
    var s := "NaN";
    assert !IsJsSpace(s[0]) && TrimStart(s) == s;
    assert !HasHexPrefix(s) && LeadingDigits(s) == "";
  }

  /** The integer round trip accepts exactly the canonical decimal forms of
      integers, and the text "NaN". */
  lemma IntegerTextIsCanonical(s: string)
    ensures IsIntegerText(s) <==> s == "NaN" || Canonical(s)
  {
    if s == "NaN" {
      NaNIsIntegerText();
    } else if IsIntegerText(s) {
      IntegerTextOnlyCanonical(s);
    } else if Canonical(s) {
      CanonicalIsIntegerText(s);
    }
  }

  // ---------------------------------------------------------------------
  // padStart and the remainder operator
  // ---------------------------------------------------------------------

  /** `s.padStart(n, c)` for a one-character pad. */
  function PadStart(s: string, n: nat, c: char): (r: string)
    ensures |r| == if |s| >= n then |s| else n
    ensures r[|r| - |s|..] == s
    ensures forall i :: 0 <= i < |r| - |s| ==> r[i] == c
  {
    if |s| >= n then s else seq(n - |s|, _ => c) + s
  }

  /** JavaScript's `a % b` for `b > 0`: the remainder takes the sign of `a`
      and differs from the Euclidean remainder by `0` or `b`. */
  function JsRem(a: int, b: int): (r: int)
    requires b > 0
    ensures -b < r < b
    ensures a >= 0 ==> r >= 0
    ensures a < 0 ==> r <= 0
    ensures r == a % b || r == a % b - b
  {
    if a >= 0 then a % b else
      var k := a / b + (-a) / b;
      assert a % b + (-a) % b == -(b * k);
      SmallMultiple(b, k);
      -((-a) % b)
  }

  /** A multiple of `b` in `[0, 2b)` is `0` or `b`. */
  lemma SmallMultiple(b: int, k: int)
    requires b > 0 && 0 <= -(b * k) < 2 * b
    ensures k == 0 || k == -1
  {
  }
}
