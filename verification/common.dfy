/** Small value types and JavaScript string/number conventions shared by every widget:
    an Option type, `Array.prototype.slice` index resolution, decimal and hexadecimal
    rendering of integers, unary-plus parsing of digit strings, `String.prototype.split`
    on one separator character, and the lexicographic order of `<` on strings, by
    character (the two agree with JavaScript's UTF-16 code-unit order on the ASCII
    date keys it is used for). */
module Common {

  datatype Option<+T> = None | Some(value: T)

  // ---------------------------------------------------------------------------
  // Array.prototype.slice

  /** How `slice` resolves one index: negative indices count from the end, and
      every index is clamped into 0..len. */
  function SliceIndex(i: int, len: nat): (r: nat)
    ensures r <= len
    ensures 0 <= i <= len ==> r == i
    ensures i < 0 && len + i >= 0 ==> r == len + i
  {
    if i < 0 then (if len + i < 0 then 0 else len + i)
    else if i > len then len
    else i
  }

  /** `s.slice(a, b)`: the elements between the resolved indices, or nothing when
      the resolved start is not before the resolved end. */
  function JsSlice<T>(s: seq<T>, a: int, b: int): (r: seq<T>)
    ensures |r| <= |s|
    ensures 0 <= a <= b <= |s| ==> r == s[a..b]
    ensures 0 <= a && 0 <= b && b <= a ==> r == []
  {
    var lo := SliceIndex(a, |s|);
    var hi := SliceIndex(b, |s|);
    if lo < hi then s[lo..hi] else []
  }

  // ---------------------------------------------------------------------------
  // Decimal digits

  predicate IsDigit(c: char) { '0' <= c <= '9' }

  predicate AllDigits(s: string) { forall i :: 0 <= i < |s| ==> IsDigit(s[i]) }

  function DigitChar(d: nat): (c: char)
    requires d < 10
    ensures IsDigit(c)
  {
    ('0' as int + d) as char
  }

  function DigitValue(c: char): (d: nat)
    requires IsDigit(c)
    ensures d < 10 && DigitChar(d) == c
  {
    c as int - '0' as int
  }

  /** The decimal rendering of a natural number, as JavaScript's template
      strings produce it: no leading zeros, most significant digit first. */
  function NatToString(n: nat): (s: string)
    ensures 1 <= |s| && AllDigits(s)
    ensures n < 10 <==> |s| == 1
    decreases n
  {
    if n < 10 then [DigitChar(n)] else NatToString(n / 10) + [DigitChar(n % 10)]
  }

  /** The decimal rendering of an integer: a leading "-" for negative values. */
  function IntToString(n: int): (s: string)
    ensures 1 <= |s|
    ensures n >= 0 ==> s == NatToString(n)
    ensures n < 0 ==> s == "-" + NatToString(-n)
  {
    if n < 0 then "-" + NatToString(-n) else NatToString(n)
  }

  /** The numeric value of a string of decimal digits (the empty string is 0). */
  function DigitsValue(s: string): nat
    requires AllDigits(s)
  {
    if |s| == 0 then 0 else DigitsValue(s[..|s| - 1]) * 10 + DigitValue(s[|s| - 1])
  }

  /** JavaScript's unary plus on a string, restricted to what this model needs:
      a string of decimal digits reads as its value (`+""` is 0), anything else
      reads as NaN, written None. */
  function ParseNumber(s: string): (r: Option<nat>)
    ensures r.Some? <==> AllDigits(s)
  {
    if AllDigits(s) then Some(DigitsValue(s)) else None
  }

  lemma {:induction false} DigitsValueOfNatToString(n: nat)
    ensures DigitsValue(NatToString(n)) == n
    decreases n
  {
    if n >= 10 {
      var p := NatToString(n / 10);
      var s := p + [DigitChar(n % 10)];
      assert s[..|s| - 1] == p;
      DigitsValueOfNatToString(n / 10);
    }
  }

  /** The decimal rendering is injective. */
  lemma NatToStringInjective(n: nat, m: nat)
    requires NatToString(n) == NatToString(m)
    ensures n == m
  {
    DigitsValueOfNatToString(n);
    DigitsValueOfNatToString(m);
  }

  /** A leading zero does not change the value of a digit string. */
  lemma {:induction false} LeadingZero(s: string)
    requires AllDigits(s)
    ensures AllDigits("0" + s) && DigitsValue("0" + s) == DigitsValue(s)
    decreases |s|
  {
    var t := "0" + s;
    if |s| > 0 {
      assert t[..|t| - 1] == "0" + s[..|s| - 1];
      LeadingZero(s[..|s| - 1]);
    } else {
      assert DigitsValue(t) == DigitsValue(t[..0]) * 10 + DigitValue('0');
    }
  }

  // ---------------------------------------------------------------------------
  // Two-digit padding (the `formatNum` helpers of the date picker, the timeline
  // and the video player, which all agree on integers)

  /** Values below 10 get a leading "0"; other values are printed unchanged. */
  function Pad2(n: int): (s: string)
  {
    if n < 10 then "0" + IntToString(n) else IntToString(n)
  }

  lemma Pad2Shape(n: int)
    ensures 0 <= n < 10 ==> Pad2(n) == ['0', DigitChar(n)]
    ensures 10 <= n ==> Pad2(n) == NatToString(n)
    ensures 0 <= n < 100 ==> |Pad2(n)| == 2 && AllDigits(Pad2(n))
    ensures n >= 0 ==> |Pad2(n)| >= 2 && AllDigits(Pad2(n))
  {
    if 10 <= n < 100 {
      assert NatToString(n) == NatToString(n / 10) + [DigitChar(n % 10)];
    }
    if 100 <= n {
      assert NatToString(n) == NatToString(n / 10) + [DigitChar(n % 10)];
    }
  }

  /** Reading back a padded natural number gives the number. */
  lemma Pad2Value(n: nat)
    ensures AllDigits(Pad2(n)) && DigitsValue(Pad2(n)) == n
  {
    Pad2Shape(n);
    DigitsValueOfNatToString(n);
    if n < 10 {
      LeadingZero(NatToString(n));
    }
  }

  // ---------------------------------------------------------------------------
  // Hexadecimal digits (`Number.prototype.toString(16)`)

  function HexChar(d: nat): char
    requires d < 16
  {
    if d < 10 then DigitChar(d) else ('a' as int + d - 10) as char
  }

  predicate IsHexDigit(c: char) { '0' <= c <= '9' || 'a' <= c <= 'f' }

  function HexCharValue(c: char): (d: nat)
    requires IsHexDigit(c)
    ensures d < 16 && HexChar(d) == c
  {
    if c <= '9' then c as int - '0' as int else c as int - 'a' as int + 10
  }

  function NatToHex(n: nat): (s: string)
    ensures 1 <= |s|
    ensures forall i :: 0 <= i < |s| ==> IsHexDigit(s[i])
    ensures n < 16 <==> |s| == 1
    decreases n
  {
    if n < 16 then [HexChar(n)] else NatToHex(n / 16) + [HexChar(n % 16)]
  }

  function HexValue(s: string): nat
    requires forall i :: 0 <= i < |s| ==> IsHexDigit(s[i])
  {
    if |s| == 0 then 0 else HexValue(s[..|s| - 1]) * 16 + HexCharValue(s[|s| - 1])
  }

  lemma {:induction false} HexValueOfNatToHex(n: nat)
    ensures HexValue(NatToHex(n)) == n
    decreases n
  {
    if n >= 16 {
      var p := NatToHex(n / 16);
      var s := p + [HexChar(n % 16)];
      assert s[..|s| - 1] == p;
      HexValueOfNatToHex(n / 16);
    }
  }

  // ---------------------------------------------------------------------------
  // Characters and strings

  /** `toUpperCase` on one character, for the ASCII letters; every other
      character is left as it is. */
  function UpperChar(c: char): char
  {
    if 'a' <= c <= 'z' then (c as int - 32) as char else c
  }

  /** `s.replaceAll(from, to)` for one-character patterns. */
  function ReplaceChar(s: string, from: char, to: char): (r: string)
    ensures |r| == |s|
    ensures forall i :: 0 <= i < |s| ==> r[i] == (if s[i] == from then to else s[i])
  {
    if |s| == 0 then [] else [if s[0] == from then to else s[0]] + ReplaceChar(s[1..], from, to)
  }

  /** `s.split(sep)` for a one-character separator: the maximal pieces between
      separators, always at least one (possibly empty) piece. */
  function Split(s: string, sep: char): (r: seq<string>)
    ensures |r| >= 1
  {
    if |s| == 0 then [""]
    else if s[0] == sep then [""] + Split(s[1..], sep)
    else var rest := Split(s[1..], sep); [[s[0]] + rest[0]] + rest[1..]
  }

  /** A piece free of the separator followed by a separator splits off as the
      first piece. */
  lemma {:induction false} SplitFirst(a: string, sep: char, rest: string)
    requires sep !in a
    ensures Split(a + [sep] + rest, sep) == [a] + Split(rest, sep)
    decreases |a|
  {
    if |a| > 0 {
      var s := a + [sep] + rest;
      assert s[0] == a[0] && a[0] != sep;
      assert s[1..] == a[1..] + [sep] + rest;
      SplitFirst(a[1..], sep, rest);
      assert a == [a[0]] + a[1..];
    } else {
      assert a + [sep] + rest == [sep] + rest;
    }
  }

  lemma {:induction false} SplitNone(a: string, sep: char)
    requires sep !in a
    ensures Split(a, sep) == [a]
    decreases |a|
  {
    if |a| > 0 {
      assert a[0] != sep;
      SplitNone(a[1..], sep);
      assert a == [a[0]] + a[1..];
    }
  }

  /** `a < b` on strings: lexicographic by character, a proper prefix first.
      JavaScript compares UTF-16 code units, which orders characters past
      U+FFFF before U+E000..U+FFFF; the date keys compared here are ASCII. */
  predicate StrLt(a: string, b: string)
  {
    if |a| == 0 then |b| > 0
    else if |b| == 0 then false
    else if a[0] != b[0] then a[0] < b[0]
    else StrLt(a[1..], b[1..])
  }

  /** `a <= b` on strings. */
  predicate StrLe(a: string, b: string) { a == b || StrLt(a, b) }

  lemma {:induction false} StrLtIrreflexive(a: string)
    ensures !StrLt(a, a)
    decreases |a|
  {
    if |a| > 0 {
      StrLtIrreflexive(a[1..]);
    }
  }

  lemma {:induction false} StrLtTotal(a: string, b: string)
    ensures a == b || StrLt(a, b) || StrLt(b, a)
    ensures !(StrLt(a, b) && StrLt(b, a))
    decreases |a|
  {
    if |a| > 0 && |b| > 0 && a[0] == b[0] {
      StrLtTotal(a[1..], b[1..]);
      if a[1..] == b[1..] {
        assert a == [a[0]] + a[1..] && b == [b[0]] + b[1..];
      }
    }
  }

  lemma {:induction false} StrLtTransitive(a: string, b: string, c: string)
    requires StrLt(a, b) && StrLt(b, c)
    ensures StrLt(a, c)
    decreases |a|
  {
    if |a| > 0 && a[0] == b[0] && b[0] == c[0] {
      StrLtTransitive(a[1..], b[1..], c[1..]);
    }
  }

  /** Comparing concatenations whose first parts have equal length compares the
      first parts, and the second parts only when the first parts agree. */
  lemma {:induction false} StrLtConcat(a1: string, b1: string, a2: string, b2: string)
    requires |a1| == |a2|
    ensures StrLt(a1 + b1, a2 + b2) <==> StrLt(a1, a2) || (a1 == a2 && StrLt(b1, b2))
    decreases |a1|
  {
    if |a1| > 0 {
      assert (a1 + b1)[1..] == a1[1..] + b1;
      assert (a2 + b2)[1..] == a2[1..] + b2;
      StrLtConcat(a1[1..], b1, a2[1..], b2);
      if a1[0] == a2[0] && a1[1..] == a2[1..] {
        assert a1 == [a1[0]] + a1[1..] && a2 == [a2[0]] + a2[1..];
      }
    } else {
      assert a1 + b1 == b1 && a2 + b2 == b2;
    }
  }

  /** Decimal renderings of equal length compare as the numbers they denote. */
  lemma {:induction false} NatToStringOrder(n: nat, m: nat)
    requires |NatToString(n)| == |NatToString(m)|
    ensures StrLt(NatToString(n), NatToString(m)) <==> n < m
    decreases n
  {
    if n < 10 {
      assert m < 10;
    } else {
      assert m >= 10;
      var pn, pm := NatToString(n / 10), NatToString(m / 10);
      assert NatToString(n) == pn + [DigitChar(n % 10)];
      assert NatToString(m) == pm + [DigitChar(m % 10)];
      NatToStringOrder(n / 10, m / 10);
      StrLtConcat(pn, [DigitChar(n % 10)], pm, [DigitChar(m % 10)]);
      if pn == pm {
        NatToStringInjective(n / 10, m / 10);
      }
      if n / 10 == m / 10 {
        assert pn == pm;
      }
    }
  }

  /** Two-digit paddings of 0..99 compare as the numbers they denote. */
  lemma Pad2Order(n: nat, m: nat)
    requires n < 100 && m < 100
    ensures StrLt(Pad2(n), Pad2(m)) <==> n < m
  {
    Pad2Shape(n);
    Pad2Shape(m);
    if n < 10 && m < 10 {
      StrLtConcat("0", [DigitChar(n)], "0", [DigitChar(m)]);
    } else if n >= 10 && m >= 10 {
      NatToStringOrder(n, m);
    } else if n < 10 {
      assert NatToString(m) == NatToString(m / 10) + [DigitChar(m % 10)];
      assert Pad2(m)[0] == DigitChar(m / 10);
    } else {
      assert NatToString(n) == NatToString(n / 10) + [DigitChar(n % 10)];
      assert Pad2(n)[0] == DigitChar(n / 10);
    }
  }

  // ---------------------------------------------------------------------------
  // Reals

  /** `Math.floor`. */
  function Floor(x: real): int { x.Floor }

  /** `Math.ceil`. */
  function Ceil(x: real): (r: int)
    ensures x <= r as real < x + 1.0
  {
    -((-x).Floor)
  }

  /** Truncation toward zero, as `%` on JavaScript numbers uses it. */
  function Trunc(x: real): int
  {
    if x >= 0.0 then x.Floor else -((-x).Floor)
  }

  /** `a % b` on JavaScript numbers: the remainder has the sign of `a`. */
  function JsRem(a: real, b: real): (r: real)
    requires b != 0.0
    ensures a >= 0.0 && b > 0.0 ==> 0.0 <= r < b
    ensures a <= 0.0 && b > 0.0 ==> -b < r <= 0.0
  {
    if b > 0.0 && a >= 0.0 then
      FloorRemainder(a, b);
      a - b * (Trunc(a / b) as real)
    else if b > 0.0 && a < 0.0 then
      FloorRemainder(-a, b);
      assert a / b == -((-a) / b);
      a - b * (Trunc(a / b) as real)
    else a - b * (Trunc(a / b) as real)
  }

  /** What is left of a non-negative `a` after the whole multiples of a
      positive `b` lies in [0, b). */
  lemma FloorRemainder(a: real, b: real)
    requires a >= 0.0 && b > 0.0
    ensures 0.0 <= a - b * ((a / b).Floor as real) < b
  {
    var x := a / b;
    RemainderBelow(a, b, x, x.Floor as real);
  }

  /** If `a` is `b` times `x` and `q` is `x` rounded down, what `b` times `q`
      leaves of `a` lies in [0, b). */
  lemma RemainderBelow(a: real, b: real, x: real, q: real)
    requires b > 0.0 && b * x == a && q <= x < q + 1.0
    ensures 0.0 <= a - b * q < b
  {
    var y := x - q;
    var t := b * y;
    assert t < b by { assert b * (1.0 - y) > 0.0; }
    assert t == a - b * q;
  }

  /** `a % b` on integral JavaScript numbers: truncating, the remainder takes
      the sign of `a`. */
  function IntRem(a: int, b: int): (r: int)
    requires b > 0
    ensures a >= 0 ==> r == a % b
    ensures -b < r < b
  {
    if a >= 0 then a % b else -((-a) % b)
  }

  function Abs(x: real): real { if x < 0.0 then -x else x }

  function Min(a: real, b: real): real { if a < b then a else b }

  function Max(a: real, b: real): real { if a < b then b else a }

  /** `x > 1 ? 1 : x < 0 ? 0 : x`. */
  function Clamp01(x: real): (r: real)
    ensures 0.0 <= r <= 1.0
    ensures 0.0 <= x <= 1.0 ==> r == x
    ensures x > 1.0 ==> r == 1.0
    ensures x < 0.0 ==> r == 0.0
  {
    if x > 1.0 then 1.0 else if x < 0.0 then 0.0 else x
  }

  /** `Math.round`: halves round up. */
  function Round(x: real): (r: int)
    ensures x - 0.5 < r as real <= x + 0.5
  {
    (x + 0.5).Floor
  }

  /** `m || d` for an optional number: a missing value and 0 (falsy) give the
      default. */
  function OrDefault(m: Option<real>, d: real): (r: real)
    ensures m.Some? && m.value != 0.0 ==> r == m.value
    ensures m.None? || m.value == 0.0 ==> r == d
  {
    if m.Some? && m.value != 0.0 then m.value else d
  }
}
