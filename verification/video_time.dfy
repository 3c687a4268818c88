/** The video player's clock text: whole seconds to "HH:MM:SS" and back. The
    fields are computed with JavaScript's number operators (`%` keeps the sign
    of the dividend, `Math.floor` rounds down), so negative inputs print as the
    player would print them; the round trip holds for every non-negative
    second count. */
module VideoTime {
  import opened Common

  /** `Math.floor(time / (60 * 60))`: the whole hours, rounded down even for
      a negative count. */
  function Hours(t: int): (h: int)
    ensures 3600 * h <= t < 3600 * (h + 1)
  {
    var x := t as real / 3600.0;
    assert x * 3600.0 == t as real;
    Floor(x)
  }

  /** `Math.floor((time / 60) % 60)`: the remainder keeps the sign of the
      count, so the field lies in 0..59 for a non-negative count and in
      -60..0 for a negative one. */
  function Minutes(t: int): (m: int)
    ensures t >= 0 ==> 0 <= m < 60
    ensures t < 0 ==> -60 <= m <= 0
  {
    var a := t as real / 60.0;
    var q := Trunc(a / 60.0);
    assert t >= 0 ==> q as real <= a / 60.0 < q as real + 1.0;
    assert t < 0 ==> q as real - 1.0 < a / 60.0 <= q as real;
    Floor(JsRem(a, 60.0))
  }

  /** `time % 60`: the count's remainder modulo 60, with the count's sign. */
  function Seconds(t: int): (s: int)
    ensures -60 < s < 60
    ensures t >= 0 ==> s >= 0
    ensures t <= 0 ==> s <= 0
    ensures (t - s) % 60 == 0
  {
    RemainderStep(t);
    IntRem(t, 60)
  }

  /** Truncated division by 60 leaves a remainder that differs from the
      count by a whole number of minutes. */
  lemma RemainderStep(t: int)
    ensures (t - IntRem(t, 60)) % 60 == 0
  {
    var q := if t >= 0 then t / 60 else -((-t) / 60);
    assert t - IntRem(t, 60) == 60 * q;
    WholeMinutes(q);
  }

  lemma WholeMinutes(q: int)
    ensures (60 * q) % 60 == 0
  {
  }

  /** `timeNumberToString`: each field through the player's `formatNum`, which
      puts a "0" in front of any value not above 9. For a non-negative count
      the text splits at ':' into exactly the three padded fields. */
  function TimeNumberToString(t: int): (r: string)
    ensures t >= 0 ==> Split(r, ':') == [Pad2(Hours(t)), Pad2(Minutes(t)), Pad2(Seconds(t))]
  {
    var text := Pad2(Hours(t)) + ":" + Pad2(Minutes(t)) + ":" + Pad2(Seconds(t));
    if t < 0 then text
    else
      Pad2Shape(Hours(t));
      Pad2Shape(Minutes(t));
      Pad2Shape(Seconds(t));
      SplitClock(Pad2(Hours(t)), Pad2(Minutes(t)), Pad2(Seconds(t)));
      text
  }

  /** `timeStringToNumber`: the first three ':'-separated pieces read by unary
      plus as hours, minutes and seconds; a missing piece or one that does not
      read as a number gives NaN (None). */
  function TimeStringToNumber(s: string): (r: Option<nat>)
    ensures r.Some? <==> |Split(s, ':')| >= 3 && AllDigits(Split(s, ':')[0])
                         && AllDigits(Split(s, ':')[1]) && AllDigits(Split(s, ':')[2])
  {
    var parts := Split(s, ':');
    if |parts| < 3 then None
    else
      var h, m, sec := ParseNumber(parts[0]), ParseNumber(parts[1]), ParseNumber(parts[2]);
      if h.Some? && m.Some? && sec.Some? then Some(ClockValue(h.value, m.value, sec.value)) else None
  }

  /** `hours * 60 * 60 + minutes * 60 + seconds`. */
  function ClockValue(h: nat, m: nat, s: nat): nat { h * 60 * 60 + m * 60 + s }

  lemma FloorOfQuotient(t: int, d: int)
    requires d > 0
    ensures Floor(t as real / d as real) == t / d
  {
    var q, r := t / d, t % d;
    assert t == d * q + r;
    assert t as real / d as real == q as real + r as real / d as real;
    assert 0.0 <= r as real / d as real < 1.0;
  }

  /** For a non-negative count the fields are the usual quotient and
      remainders: seconds and minutes below 60, and the three fields add back
      up to the count. */
  lemma FieldsOfNonNegative(t: nat)
    ensures Seconds(t) == t % 60
    ensures Minutes(t) == (t / 60) % 60
    ensures Hours(t) == t / 3600
    ensures 0 <= Seconds(t) < 60 && 0 <= Minutes(t) < 60 && Hours(t) >= 0
    ensures t == 3600 * Hours(t) + 60 * Minutes(t) + Seconds(t)
  {
    FloorOfQuotient(t, 3600);
    MinutesOfNonNegative(t);
  }

  lemma MinutesOfNonNegative(t: nat)
    ensures Minutes(t) == (t / 60) % 60
  {
    var x := t as real / 60.0;
    var h := t / 3600;
    assert x / 60.0 == t as real / 3600.0;
    FloorOfQuotient(t, 3600);
    assert JsRem(x, 60.0) == x - 60.0 * h as real;
    var rest := t - 3600 * h;
    assert x - 60.0 * h as real == rest as real / 60.0;
    FloorOfQuotient(rest, 60);
    RemOfQuotient(t);
  }

  lemma RemOfQuotient(t: nat)
    ensures (t - 3600 * (t / 3600)) / 60 == (t / 60) % 60
  {
    var q := t / 60;
    assert t == 60 * q + t % 60;
    assert t / 3600 == q / 60;
  }

  lemma SplitClock(a: string, b: string, c: string)
    requires AllDigits(a) && AllDigits(b) && AllDigits(c)
    ensures Split(a + ":" + b + ":" + c, ':') == [a, b, c]
  {
    assert ':' !in a && ':' !in b && ':' !in c;
    assert a + ":" + b + ":" + c == a + [':'] + (b + [':'] + c);
    SplitFirst(a, ':', b + [':'] + c);
    SplitFirst(b, ':', c);
    SplitNone(c, ':');
  }

  /** Reading back the printed clock gives the second count back. */
  lemma RoundTrip(t: nat)
    ensures TimeStringToNumber(TimeNumberToString(t)) == Some(t)
  {
    FieldsOfNonNegative(t);
    var h, m, s := Hours(t), Minutes(t), Seconds(t);
    Pad2Value(h);
    Pad2Value(m);
    Pad2Value(s);
    assert t == ClockValue(h, m, s);
    ReadParts(TimeNumberToString(t), Pad2(h), Pad2(m), Pad2(s), t);
  }

  /** Below 100 hours the clock is exactly "HH:MM:SS"; from 100 hours on the
      hour field grows past two digits. */
  lemma ClockShape(t: nat)
    ensures t < 360000 ==> |TimeNumberToString(t)| == 8
    ensures t >= 360000 ==> |TimeNumberToString(t)| > 8
    ensures TimeNumberToString(t)[|TimeNumberToString(t)| - 3] == ':'
  {
    FieldsOfNonNegative(t);
    Pad2Shape(Hours(t));
    Pad2Shape(Minutes(t));
    Pad2Shape(Seconds(t));
    if t >= 360000 {
      assert Hours(t) >= 100;
      assert NatToString(Hours(t)) == NatToString(Hours(t) / 10) + [DigitChar(Hours(t) % 10)];
      assert NatToString(Hours(t) / 10) == NatToString(Hours(t) / 100) + [DigitChar((Hours(t) / 10) % 10)];
    }
  }

  lemma FieldsOfSum(h: nat, m: nat, s: nat, t: nat)
    requires m < 60 && s < 60 && t == h * 60 * 60 + m * 60 + s
    ensures Hours(t) == h && Minutes(t) == m && Seconds(t) == s
  {
    assert t == 60 * (60 * h + m) + s;
    assert t / 60 == 60 * h + m;
    assert t == 3600 * h + (60 * m + s);
    FieldsOfNonNegative(t);
  }

  /** A two-digit string is the padded form of its value. */
  lemma Pad2OfTwoDigits(a: string)
    requires |a| == 2 && AllDigits(a)
    ensures Pad2(DigitsValue(a)) == a
  {
    var v := DigitsValue(a);
    assert a[..1][..0] == [] && a[..1][0] == a[0];
    assert DigitsValue(a[..1]) == DigitValue(a[0]);
    assert v == 10 * DigitValue(a[0]) + DigitValue(a[1]);
    if a[0] == '0' {
      assert v == DigitValue(a[1]) && Pad2(v) == "0" + [DigitChar(v)];
    } else {
      assert v / 10 == DigitValue(a[0]) && v % 10 == DigitValue(a[1]);
      assert NatToString(v) == NatToString(v / 10) + [DigitChar(v % 10)];
    }
  }

  /** The other direction of the round trip: a well-formed clock text
      "HH:MM:SS", with minutes and seconds below 60, reads as a count that
      prints back as the same text. */
  lemma CanonicalRoundTrip(hh: string, mm: string, ss: string)
    requires |hh| == 2 && |mm| == 2 && |ss| == 2
    requires AllDigits(hh) && AllDigits(mm) && AllDigits(ss)
    requires DigitsValue(mm) < 60 && DigitsValue(ss) < 60
    ensures TimeStringToNumber(hh + ":" + mm + ":" + ss).Some?
    ensures TimeNumberToString(TimeStringToNumber(hh + ":" + mm + ":" + ss).value) == hh + ":" + mm + ":" + ss
  {
    var t := DigitsValue(hh) * 60 * 60 + DigitsValue(mm) * 60 + DigitsValue(ss);
    ReadClock(hh, mm, ss, t);
    PrintFields(hh, mm, ss, t);
  }

  lemma ReadClock(hh: string, mm: string, ss: string, t: nat)
    requires AllDigits(hh) && AllDigits(mm) && AllDigits(ss)
    requires t == ClockValue(DigitsValue(hh), DigitsValue(mm), DigitsValue(ss))
    ensures TimeStringToNumber(hh + ":" + mm + ":" + ss) == Some(t)
  {
    SplitClock(hh, mm, ss);
    ReadParts(hh + ":" + mm + ":" + ss, hh, mm, ss, t);
  }

  lemma ReadParts(text: string, hh: string, mm: string, ss: string, t: nat)
    requires Split(text, ':') == [hh, mm, ss]
    requires AllDigits(hh) && AllDigits(mm) && AllDigits(ss)
    requires t == ClockValue(DigitsValue(hh), DigitsValue(mm), DigitsValue(ss))
    ensures TimeStringToNumber(text) == Some(t)
  {
    assert ParseNumber(hh) == Some(DigitsValue(hh));
    assert ParseNumber(mm) == Some(DigitsValue(mm));
    assert ParseNumber(ss) == Some(DigitsValue(ss));
  }

  lemma PrintFields(hh: string, mm: string, ss: string, t: nat)
    requires |hh| == 2 && |mm| == 2 && |ss| == 2
    requires AllDigits(hh) && AllDigits(mm) && AllDigits(ss)
    requires DigitsValue(mm) < 60 && DigitsValue(ss) < 60
    requires t == DigitsValue(hh) * 60 * 60 + DigitsValue(mm) * 60 + DigitsValue(ss)
    ensures TimeNumberToString(t) == hh + ":" + mm + ":" + ss
  {
    var h, m, s := DigitsValue(hh), DigitsValue(mm), DigitsValue(ss);
    FieldsOfSum(h, m, s, t);
    Pad2OfTwoDigits(hh);
    Pad2OfTwoDigits(mm);
    Pad2OfTwoDigits(ss);
    assert Pad2(h) == hh && Pad2(m) == mm && Pad2(s) == ss;
    calc {
      TimeNumberToString(t);
      Pad2(Hours(t)) + ":" + Pad2(Minutes(t)) + ":" + Pad2(Seconds(t));
      hh + ":" + mm + ":" + ss;
    }
  }
}
