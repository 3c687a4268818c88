/** The calendar heat map: the date helpers of its utility file (day counts,
    0-based year/month/day, ISO date keys, date ranges, month tick lists, Korean
    date labels, threshold colours) and the component's week/day bucketing of a
    date range, its inclusive threshold fill, its size effect and its tooltip. */
module CalendarHeatMap {
  import opened Common
  import opened Dates
  import Sorting

  // ---------------------------------------------------------------------------
  // getDayCount

  const MsPerDay: int := 1000 * 60 * 60 * 24

  /** `getTime()` of a date string parsed as midnight UTC. */
  function TimeOf(d: Date): int
    requires Valid(d)
  {
    (DayNumber(d) - EpochDayNumber) * MsPerDay
  }

  /** `(endTime - startTime) / (1000 * 60 * 60 * 24) + 1`: inclusive of both
      ends, so equal dates count 1 and every further whole day adds 1. */
  function DayCount(start: Date, end: Date): (n: real)
    requires Valid(start) && Valid(end)
    ensures n == (DayNumber(end) - DayNumber(start) + 1) as real
  {
    ((TimeOf(end) - TimeOf(start)) as real) / (MsPerDay as real) + 1.0
  }

  // ---------------------------------------------------------------------------
  // getYMD, getDateText, getKORDateString

  datatype YMD = YMD(year: int, month: int, date: int)

  /** `getYMD`: the month comes back 0-based, as `getMonth` reports it. */
  function GetYMD(d: Date): (r: YMD)
    requires Valid(d)
    ensures 0 <= r.month <= 11 && r.month + 1 == d.month
    ensures r.year == d.year && r.date == d.day
  {
    YMD(d.year, d.month - 1, d.day)
  }

  function PadZeros(s: string, width: nat): (r: string)
    ensures |r| == if |s| >= width then |s| else width
    decreases width - |s|
  {
    if |s| >= width then s else PadZeros("0" + s, width)
  }

  /** The year field of `toISOString`: four digits for 0..9999, otherwise a
      sign and six digits. */
  function IsoYear(y: int): string
  {
    if 0 <= y <= 9999 then PadZeros(NatToString(y), 4)
    else (if y < 0 then "-" else "+") + PadZeros(NatToString(if y < 0 then -y else y), 6)
  }

  /** A digit string keeps its value when padded with leading zeros. */
  lemma {:induction false} PadZerosValue(s: string, width: nat)
    requires AllDigits(s)
    ensures AllDigits(PadZeros(s, width)) && DigitsValue(PadZeros(s, width)) == DigitsValue(s)
    decreases width - |s|
  {
    if |s| < width {
      LeadingZero(s);
      PadZerosValue("0" + s, width);
    }
  }

  lemma ShortYear(n: nat)
    requires n <= 9999
    ensures |NatToString(n)| <= 4
  {
    if n >= 10 {
      var a := n / 10;
      assert NatToString(n) == NatToString(a) + [DigitChar(n % 10)];
      if a >= 10 {
        var b := a / 10;
        assert NatToString(a) == NatToString(b) + [DigitChar(a % 10)];
        if b >= 10 {
          assert NatToString(b) == NatToString(b / 10) + [DigitChar(b % 10)];
        }
      }
    }
  }

  /** The three fields of a "YYYY-MM-DD" key built from a four-digit year and two
      two-digit numbers sit at fixed places and read back as those numbers. */
  lemma DateTextFields(y: nat, m: nat, dd: nat)
    requires y <= 9999 && m < 100 && dd < 100
    ensures var r := IsoYear(y) + "-" + Pad2(m) + "-" + Pad2(dd);
      |r| == 10 && r[4] == '-' && r[7] == '-'
      && AllDigits(r[..4]) && AllDigits(r[5..7]) && AllDigits(r[8..])
      && DigitsValue(r[..4]) == y && DigitsValue(r[5..7]) == m && DigitsValue(r[8..]) == dd
  {
    var a := IsoYear(y);
    ShortYear(y);
    DigitsValueOfNatToString(y);
    PadZerosValue(NatToString(y), 4);
    Pad2Shape(m);
    Pad2Shape(dd);
    Pad2Value(m);
    Pad2Value(dd);
    var r := a + "-" + Pad2(m) + "-" + Pad2(dd);
    assert r[..4] == a;
    assert r[5..7] == Pad2(m);
    assert r[8..] == Pad2(dd);
  }

  /** `getDateText`: the "YYYY-MM-DD" key of a local calendar date. For the
      years 0..9999 the key has its dashes at places 4 and 7 and its three
      fields read back as the year, the month and the day, so distinct dates
      get distinct keys. */
  function DateText(d: Date): (r: string)
    requires Valid(d)
    ensures 0 <= d.year <= 9999 ==>
      |r| == 10 && r[4] == '-' && r[7] == '-'
      && AllDigits(r[..4]) && AllDigits(r[5..7]) && AllDigits(r[8..])
      && DigitsValue(r[..4]) == d.year && DigitsValue(r[5..7]) == d.month && DigitsValue(r[8..]) == d.day
  {
    var text := IsoYear(d.year) + "-" + Pad2(d.month) + "-" + Pad2(d.day);
    if 0 <= d.year <= 9999 then (DateTextFields(d.year, d.month, d.day); text) else text
  }

  /** `getKORDateString`: "<year>년 <month+1>월 <date>일". For a year 0 or
      later, reading the label back gives the year, the 1-based month and the
      day. */
  function KorDateString(d: Date): (r: string)
    requires Valid(d)
    ensures d.year >= 0 ==> ReadKorDate(r) == Some((d.year, d.month, d.day))
  {
    var ymd := GetYMD(d);
    var text := IntToString(ymd.year) + "년 " + IntToString(ymd.month + 1) + "월 " + IntToString(ymd.date) + "일";
    if d.year >= 0 then
      (ReadKorFields(NatToString(d.year), NatToString(d.month), NatToString(d.day));
       DigitsValueOfNatToString(d.year);
       DigitsValueOfNatToString(d.month);
       DigitsValueOfNatToString(d.day);
       text)
    else text
  }

  /** Reads a Korean date label back: three space-separated fields, each a
      number followed by one unit character. */
  function ReadKorDate(s: string): Option<(int, int, int)>
  {
    var parts := Split(s, ' ');
    if |parts| != 3 || exists i :: 0 <= i < 3 && |parts[i]| == 0 then None
    else
      var y := ParseNumber(parts[0][..|parts[0]| - 1]);
      var m := ParseNumber(parts[1][..|parts[1]| - 1]);
      var d := ParseNumber(parts[2][..|parts[2]| - 1]);
      if y.Some? && m.Some? && d.Some? then Some((y.value, m.value, d.value)) else None
  }

  /** Three digit strings, each with its unit and the first two followed by a
      space, read back as their values. */
  lemma ReadKorFields(y: string, m: string, dd: string)
    requires AllDigits(y) && AllDigits(m) && AllDigits(dd)
    ensures ReadKorDate(y + "년 " + m + "월 " + dd + "일") == Some((DigitsValue(y), DigitsValue(m), DigitsValue(dd)))
  {
    KorFields(y, m, dd);
    ReadKorParts(y + "년 " + m + "월 " + dd + "일", y + "년", m + "월", dd + "일");
    assert (y + "년")[..|y|] == y;
    assert (m + "월")[..|m|] == m;
    assert (dd + "일")[..|dd|] == dd;
  }

  lemma ReadKorParts(s: string, a: string, b: string, c: string)
    requires Split(s, ' ') == [a, b, c] && |a| > 0 && |b| > 0 && |c| > 0
    ensures ReadKorDate(s) == (
      var y, m, d := ParseNumber(a[..|a| - 1]), ParseNumber(b[..|b| - 1]), ParseNumber(c[..|c| - 1]);
      if y.Some? && m.Some? && d.Some? then Some((y.value, m.value, d.value)) else None)
  {
    var parts := Split(s, ' ');
    assert !exists i :: 0 <= i < 3 && |parts[i]| == 0;
  }

  lemma KorFields(y: string, m: string, dd: string)
    requires AllDigits(y) && AllDigits(m) && AllDigits(dd)
    ensures Split(y + "년 " + m + "월 " + dd + "일", ' ') == [y + "년", m + "월", dd + "일"]
  {
    assert y + "년 " + m + "월 " + dd + "일" == (y + "년") + [' '] + ((m + "월") + [' '] + (dd + "일"));
    assert ' ' !in y + "년" && ' ' !in m + "월" && ' ' !in dd + "일";
    SplitFirst(y + "년", ' ', (m + "월") + [' '] + (dd + "일"));
    SplitFirst(m + "월", ' ', dd + "일");
    SplitNone(dd + "일", ' ');
  }

  // ---------------------------------------------------------------------------
  // getDateRange

  datatype Range = Range(startDate: Date, endDate: Date)

  /** `getDateRange(endYear, endMonth, diffMonth)` with a 0-based `endMonth`:
      from day 1 of the month `diffMonth` months before `endMonth` to the last
      day of `endMonth`, both year-normalised. */
  function DateRange(endYear: int, endMonth: int, diffMonth: int): (r: Range)
    ensures Valid(r.startDate) && Valid(r.endDate)
    ensures r.startDate.day == 1
    ensures AbsMonth(r.startDate.year, r.startDate.month) == AbsMonth(ConstructorYear(endYear), endMonth + 1) - diffMonth
    ensures AbsMonth(r.endDate.year, r.endDate.month) == AbsMonth(ConstructorYear(endYear), endMonth + 1)
    ensures r.endDate.day == DaysInMonth(r.endDate.year, r.endDate.month)
  {
    var s := MonthOf(ConstructorYear(endYear), endMonth - diffMonth);
    Range(Date(s.0, s.1, 1), LastDayBefore(endYear, endMonth + 1))
  }

  // ---------------------------------------------------------------------------
  // getMonthList

  /** Steps from month index `from` forward (wrapping 11 to 0) to `to`. */
  function MonthDistance(from: int, to: int): (r: nat)
    requires 0 <= from <= 11 && 0 <= to <= 11
    ensures r < 12 && (from + r) % 12 == to
  {
    if to >= from then to - from else to - from + 12
  }

  /** The loop of `getMonthList` from 0-based month `month` until `endMonth`:
      pushes `month + 1`, stops at `endMonth`, otherwise wraps 11 to 0. */
  function MonthListFrom(month: int, endMonth: int): (r: seq<int>)
    requires 0 <= month <= 11 && 0 <= endMonth <= 11
    ensures |r| == MonthDistance(month, endMonth) + 1 <= 12
    ensures r[0] == month + 1 && r[|r| - 1] == endMonth + 1
    decreases MonthDistance(month, endMonth)
  {
    if month == endMonth then [month + 1]
    else [month + 1] + MonthListFrom(if month == 11 then 0 else month + 1, endMonth)
  }

  /** Every entry of the list is a 1-based month, and each follows the one
      before it round the year. */
  lemma {:induction false} MonthListSteps(month: int, endMonth: int)
    requires 0 <= month <= 11 && 0 <= endMonth <= 11
    ensures forall i :: 0 <= i < |MonthListFrom(month, endMonth)| ==> 1 <= MonthListFrom(month, endMonth)[i] <= 12
    ensures forall i :: 0 <= i < |MonthListFrom(month, endMonth)| - 1 ==>
      MonthListFrom(month, endMonth)[i + 1] == MonthListFrom(month, endMonth)[i] % 12 + 1
    decreases MonthDistance(month, endMonth)
  {
    if month != endMonth {
      var next := if month == 11 then 0 else month + 1;
      var rest := MonthListFrom(next, endMonth);
      assert MonthListFrom(month, endMonth) == [month + 1] + rest;
      assert rest[0] == (month + 1) % 12 + 1;
      MonthListSteps(next, endMonth);
      ConsSteps(MonthListFrom(month, endMonth), month + 1, rest);
    }
  }

  lemma ConsSteps(r: seq<int>, m: int, rest: seq<int>)
    requires r == [m] + rest
    requires 1 <= m <= 12 && |rest| > 0 && rest[0] == m % 12 + 1
    requires forall i :: 0 <= i < |rest| ==> 1 <= rest[i] <= 12
    requires forall i :: 0 <= i < |rest| - 1 ==> rest[i + 1] == rest[i] % 12 + 1
    ensures forall i :: 0 <= i < |r| ==> 1 <= r[i] <= 12
    ensures forall i :: 0 <= i < |r| - 1 ==> r[i + 1] == r[i] % 12 + 1
  {
    forall i | 0 <= i < |rest|
      ensures r[i + 1] == rest[i]
    {
    }
  }

  /** `getMonthList(startDate, endDate)`: the 1-based months from the start
      date's month to the end date's month, wrapping December to January. */
  function MonthList(startDate: Date, endDate: Date): (r: seq<int>)
    requires Valid(startDate) && Valid(endDate)
    ensures 1 <= |r| <= 12
    ensures r[0] == startDate.month && r[|r| - 1] == endDate.month
    ensures |r| == (endDate.month - startDate.month) % 12 + 1
    ensures forall i :: 0 <= i < |r| ==> 1 <= r[i] <= 12
    ensures forall i :: 0 <= i < |r| - 1 ==> r[i + 1] == r[i] % 12 + 1
  {
    MonthsBetween(startDate.month - 1, endDate.month - 1)
  }

  function MonthsBetween(a: int, b: int): (r: seq<int>)
    requires 0 <= a <= 11 && 0 <= b <= 11
    ensures 1 <= |r| <= 12
    ensures r[0] == a + 1 && r[|r| - 1] == b + 1
    ensures |r| == (b - a) % 12 + 1
    ensures forall i :: 0 <= i < |r| ==> 1 <= r[i] <= 12
    ensures forall i :: 0 <= i < |r| - 1 ==> r[i + 1] == r[i] % 12 + 1
  {
    MonthDistanceMod(a, b);
    MonthListSteps(a, b);
    MonthListFrom(a, b)
  }

  lemma MonthDistanceMod(a: int, b: int)
    requires 0 <= a <= 11 && 0 <= b <= 11
    ensures MonthDistance(a, b) == (b - a) % 12
  {
    if b < a {
      assert b - a == -12 + (b - a + 12);
    }
  }

  // ---------------------------------------------------------------------------
  // Threshold colours

  datatype ColorStop = ColorStop(color: string, value: real)

  function NegValue(c: ColorStop): real { -c.value }

  /** `colors.sort((a, b) => b.value - a.value)`: thresholds in descending
      order; the sort is stable, so stops with equal thresholds keep their
      input order. */
  function SortDescending(colors: seq<ColorStop>): (r: seq<ColorStop>)
    ensures multiset(r) == multiset(colors)
    ensures forall i, j :: 0 <= i < j < |r| ==> r[i].value >= r[j].value
    ensures forall v :: Sorting.WithKey(r, NegValue, v) == Sorting.WithKey(colors, NegValue, v)
  {
    var r := Sorting.SortBy(colors, NegValue);
    assert forall i, j :: 0 <= i < j < |r| ==> NegValue(r[i]) <= NegValue(r[j]);
    SortDescendingStable(colors);
    r
  }

  /** Stability of the descending sort, for every threshold at once. */
  lemma SortDescendingStable(colors: seq<ColorStop>)
    ensures forall v ::
      Sorting.WithKey(Sorting.SortBy(colors, NegValue), NegValue, v) == Sorting.WithKey(colors, NegValue, v)
  {
    forall v
      ensures Sorting.WithKey(Sorting.SortBy(colors, NegValue), NegValue, v) == Sorting.WithKey(colors, NegValue, v)
    {
      Sorting.SortByStable(colors, NegValue, v);
    }
  }

  /** The index of the first stop whose threshold passes the test `value > t`
      (strict) or `value >= t` (inclusive). */
  function FirstPassing(s: seq<ColorStop>, value: real, inclusive: bool): (k: Option<nat>)
    ensures k.Some? ==> k.value < |s| && Passes(s[k.value], value, inclusive)
    ensures k.Some? ==> forall j :: 0 <= j < k.value ==> !Passes(s[j], value, inclusive)
    ensures k.None? ==> forall j :: 0 <= j < |s| ==> !Passes(s[j], value, inclusive)
  {
    if |s| == 0 then None
    else if Passes(s[0], value, inclusive) then Some(0)
    else match FirstPassing(s[1..], value, inclusive)
      case None => None
      case Some(k) => Some(k + 1)
  }

  predicate Passes(c: ColorStop, value: real, inclusive: bool)
  {
    if inclusive then value >= c.value else value > c.value
  }

  /** The colour of the first passing stop, or the fallback. */
  function ColorFor(s: seq<ColorStop>, value: real, inclusive: bool, fallback: string): (r: string)
    ensures (forall j :: 0 <= j < |s| ==> !Passes(s[j], value, inclusive)) ==> r == fallback
    ensures (exists j :: 0 <= j < |s| && Passes(s[j], value, inclusive)) ==>
      exists j :: 0 <= j < |s| && Passes(s[j], value, inclusive) && r == s[j].color
        && forall i :: 0 <= i < j ==> !Passes(s[i], value, inclusive)
  {
    match FirstPassing(s, value, inclusive)
    case None => fallback
    case Some(k) => s[k].color
  }

  /** Sorting neither adds nor drops a threshold. */
  lemma SortDescendingMembers(colors: seq<ColorStop>, c: ColorStop)
    ensures c in SortDescending(colors) <==> c in colors
  {
    var s := SortDescending(colors);
    assert c in colors <==> c in multiset(colors);
    assert c in s <==> c in multiset(s);
  }

  /** Over descending thresholds, every passing stop lies at or after the
      first one and so holds a threshold no higher than it. */
  lemma FirstPassingIsHighest(s: seq<ColorStop>, value: real, inclusive: bool, j: nat)
    requires forall a, b :: 0 <= a < b < |s| ==> s[a].value >= s[b].value
    requires FirstPassing(s, value, inclusive).Some?
    requires j < |s| && Passes(s[j], value, inclusive)
    ensures s[j].value <= s[FirstPassing(s, value, inclusive).value].value
  {
  }

  /** Over descending thresholds, the first passing stop holds the highest
      threshold that passes, and the fallback is used only when none passes. */
  lemma ColorForHighestPassing(colors: seq<ColorStop>, value: real, inclusive: bool, fallback: string)
    ensures (forall c :: c in colors ==> !Passes(c, value, inclusive)) ==>
      ColorFor(SortDescending(colors), value, inclusive, fallback) == fallback
    ensures (exists c :: c in colors && Passes(c, value, inclusive)) ==>
      exists c :: c in colors && Passes(c, value, inclusive)
        && ColorFor(SortDescending(colors), value, inclusive, fallback) == c.color
        && forall c' :: c' in colors && Passes(c', value, inclusive) ==> c'.value <= c.value
  {
    var s := SortDescending(colors);
    forall c
      ensures c in s <==> c in colors
    {
      SortDescendingMembers(colors, c);
    }
    HighestPassingOver(colors, s, value, inclusive, fallback);
  }

  /** The same over any descending list holding exactly the given stops. */
  lemma HighestPassingOver(colors: seq<ColorStop>, s: seq<ColorStop>, value: real, inclusive: bool, fallback: string)
    requires forall c :: c in s <==> c in colors
    requires forall a, b :: 0 <= a < b < |s| ==> s[a].value >= s[b].value
    ensures (forall c :: c in colors ==> !Passes(c, value, inclusive)) ==>
      ColorFor(s, value, inclusive, fallback) == fallback
    ensures (exists c :: c in colors && Passes(c, value, inclusive)) ==>
      exists c :: c in colors && Passes(c, value, inclusive)
        && ColorFor(s, value, inclusive, fallback) == c.color
        && forall c' :: c' in colors && Passes(c', value, inclusive) ==> c'.value <= c.value
  {
    match FirstPassing(s, value, inclusive)
    case None =>
    case Some(k) =>
      var best := s[k];
      forall c' | c' in colors && Passes(c', value, inclusive)
        ensures c'.value <= best.value
      {
        var j :| 0 <= j < |s| && s[j] == c';
        FirstPassingIsHighest(s, value, inclusive, j);
      }
  }

  /** `getColor` as the source writes it: the loop update `i = +1` sets the
      index to 1 instead of advancing it. Runs at most `fuel` tests; None means
      the loop is still running. */
  function GetColorLoopAsWritten(s: seq<ColorStop>, value: real, defaultColor: string, i: nat, fuel: nat): (r: Option<string>)
    ensures r.None? ==> i < |s| && value <= s[i].value
    ensures r.Some? ==>
      ((i >= |s| || |s| <= 1) && r.value == defaultColor)
      || exists j :: 0 <= j < |s| && value > s[j].value && r.value == s[j].color
    decreases fuel
  {
    if i >= |s| then Some(defaultColor)
    else if value > s[i].value then Some(s[i].color)
    else if fuel == 0 then None
    else GetColorLoopAsWritten(s, value, defaultColor, 1, fuel - 1)
  }

  /** With two or more thresholds and a value not above the first two, the
      source's loop never finishes, however long it runs. */
  lemma {:induction false} GetColorAsWrittenDiverges(colors: seq<ColorStop>, value: real, defaultColor: string, fuel: nat)
    requires |colors| >= 2
    requires var s := SortDescending(colors); value <= s[0].value && value <= s[1].value
    ensures GetColorLoopAsWritten(SortDescending(colors), value, defaultColor, 0, fuel) == None
  {
    var s := SortDescending(colors);
    if fuel > 0 {
      LoopAtOneDiverges(s, value, defaultColor, fuel - 1);
    }
  }

  lemma {:induction false} LoopAtOneDiverges(s: seq<ColorStop>, value: real, defaultColor: string, fuel: nat)
    requires |s| >= 2 && value <= s[1].value
    ensures GetColorLoopAsWritten(s, value, defaultColor, 1, fuel) == None
    decreases fuel
  {
    if fuel > 0 {
      LoopAtOneDiverges(s, value, defaultColor, fuel - 1);
    }
  }

  /** A concrete input on which the source's `getColor` hangs: thresholds 10
      and 5 and the value 3. */
  lemma GetColorAsWrittenHangs()
    ensures forall fuel: nat :: GetColorLoopAsWritten(SortDescending([ColorStop("a", 5.0), ColorStop("b", 10.0)]), 3.0, "d", 0, fuel) == None
  {
    var colors := [ColorStop("a", 5.0), ColorStop("b", 10.0)];
    var s := SortDescending(colors);
    assert s[0] in multiset(colors) && s[1] in multiset(colors);
    forall fuel: nat
      ensures GetColorLoopAsWritten(s, 3.0, "d", 0, fuel) == None
    {
      GetColorAsWrittenDiverges(colors, 3.0, "d", fuel);
    }
  }

  /** `getColor` with the index advancing by one: the colour of the highest
      threshold strictly below the value, else the default colour. */
  function GetColor(colors: seq<ColorStop>, value: real, defaultColor: string): (r: string)
    ensures (forall c :: c in colors ==> value <= c.value) ==> r == defaultColor
    ensures (exists c :: c in colors && value > c.value) ==>
      exists c :: c in colors && value > c.value && r == c.color
        && forall c' :: c' in colors && value > c'.value ==> c'.value <= c.value
  {
    ColorForHighestPassing(colors, value, false, defaultColor);
    ColorFor(SortDescending(colors), value, false, defaultColor)
  }

  /** Wherever the source's loop does finish, it agrees with GetColor. */
  lemma GetColorAgreesWhenFinished(colors: seq<ColorStop>, value: real, defaultColor: string, fuel: nat)
    requires GetColorLoopAsWritten(SortDescending(colors), value, defaultColor, 0, fuel).Some?
    ensures GetColorLoopAsWritten(SortDescending(colors), value, defaultColor, 0, fuel).value == GetColor(colors, value, defaultColor)
  {
    var s := SortDescending(colors);
    if |s| >= 2 && !(value > s[0].value) && !(value > s[1].value) {
      GetColorAsWrittenDiverges(colors, value, defaultColor, fuel);
    } else {
      LoopAgrees(s, value, defaultColor, fuel);
    }
  }

  /** Over any thresholds, a finished run of the source's loop that does not
      stall on its first two stops picks the colour of the first stop passed
      strictly, or the default. */
  lemma LoopAgrees(s: seq<ColorStop>, value: real, defaultColor: string, fuel: nat)
    requires GetColorLoopAsWritten(s, value, defaultColor, 0, fuel).Some?
    requires |s| >= 2 ==> value > s[0].value || value > s[1].value
    ensures GetColorLoopAsWritten(s, value, defaultColor, 0, fuel).value == ColorFor(s, value, false, defaultColor)
  {
    if |s| >= 1 && !(value > s[0].value) {
      assert FirstPassing(s, value, false) == (match FirstPassing(s[1..], value, false) case None => None case Some(k) => Some(k + 1));
      if |s| >= 2 {
        assert FirstPassing(s[1..], value, false) == Some(0);
      } else {
        assert FirstPassing(s[1..], value, false) == None;
      }
    }
  }

  // ---------------------------------------------------------------------------
  // The component: bucketing a date range into weeks

  datatype DataEntry = DataEntry(date: string, value: real)

  datatype DayCell = DayCell(date: string, korDate: string, fill: string, value: real)

  /** A cell together with the week it was put in and its weekday slot. */
  datatype Placement = Placement(week: nat, weekDay: nat, cell: DayCell)

  /** `data.find(item => item.date === dateString)`: the first entry with that key. */
  function FindEntry(data: seq<DataEntry>, key: string): (r: Option<DataEntry>)
    ensures r.None? <==> forall e :: e in data ==> e.date != key
    ensures r.Some? ==> var i := FindIndex(data, key).value; data[i] == r.value
  {
    match FindIndex(data, key)
    case None => None
    case Some(i) => Some(data[i])
  }

  /** The index of the first entry with that key. */
  function FindIndex(data: seq<DataEntry>, key: string): (k: Option<nat>)
    ensures k.Some? ==> k.value < |data| && data[k.value].date == key
    ensures k.Some? ==> forall j :: 0 <= j < k.value ==> data[j].date != key
    ensures k.None? <==> forall e :: e in data ==> e.date != key
  {
    if |data| == 0 then None
    else if data[0].date == key then Some(0)
    else match FindIndex(data[1..], key)
      case None =>
        assert forall e :: e in data ==> e == data[0] || e in data[1..];
        None
      case Some(k) => Some(k + 1)
  }

  /** The cell of one calendar day: the matching entry's value (0 when there is
      none) and the colour of the highest threshold at or below it, or
      `emptyColor` when there is no entry or no threshold is low enough. */
  function CellFor(d: Date, data: seq<DataEntry>, sortedColors: seq<ColorStop>, emptyColor: string): (c: DayCell)
    requires Valid(d)
    ensures c.date == DateText(d) && c.korDate == KorDateString(d)
  {
    var key := DateText(d);
    match FindEntry(data, key)
    case None => DayCell(key, KorDateString(d), emptyColor, 0.0)
    case Some(e) => DayCell(e.date, KorDateString(d), ColorFor(sortedColors, e.value, true, emptyColor), e.value)
  }

  /** The fill rule of a day cell, stated against the unsorted threshold list. */
  lemma CellFill(d: Date, data: seq<DataEntry>, colors: seq<ColorStop>, emptyColor: string)
    requires Valid(d)
    ensures var c := CellFor(d, data, SortDescending(colors), emptyColor);
      && (FindEntry(data, DateText(d)).None? ==> c.value == 0.0 && c.fill == emptyColor)
      && (FindEntry(data, DateText(d)).Some? ==>
            var v := FindEntry(data, DateText(d)).value.value;
            && c.value == v
            && ((forall s :: s in colors ==> v < s.value) ==> c.fill == emptyColor)
            && ((exists s :: s in colors && v >= s.value) ==>
                  exists s :: s in colors && v >= s.value && c.fill == s.color
                    && forall s' :: s' in colors && v >= s'.value ==> s'.value <= s.value))
  {
    match FindEntry(data, DateText(d))
    case None =>
    case Some(e) => ColorForHighestPassing(colors, e.value, true, emptyColor);
  }

  /** The placement the bucketing loop makes for the `k`-th day of the range. */
  predicate PlacedAt(p: Placement, startDate: Date, k: nat, data: seq<DataEntry>, sortedColors: seq<ColorStop>, emptyColor: string)
  {
    && Valid(startDate)
    && p.week == (WeekDay(startDate) + k) / 7
    && p.weekDay == (WeekDay(startDate) + k) % 7
    && p.cell == CellFor(AddDays(startDate, k), data, sortedColors, emptyColor)
  }

  /** The bucketing loop of the component: one cell per day from `startDate`
      for `getDayCount(startDate, endDate)` days; the week index starts at 0 and
      grows by one after every Saturday, and the slot is the day of the week. */
  method BuildCells(startDate: Date, endDate: Date, data: seq<DataEntry>, colors: seq<ColorStop>, emptyColor: string)
    returns (cells: seq<Placement>)
    requires Valid(startDate) && Valid(endDate)
    ensures |cells| == if DayNumber(endDate) < DayNumber(startDate) then 0 else DayNumber(endDate) - DayNumber(startDate) + 1
    ensures forall i :: 0 <= i < |cells| ==> PlacedAt(cells[i], startDate, i, data, SortDescending(colors), emptyColor)
  {
    var count := DayCount(startDate, endDate);
    var n := DayNumber(endDate) - DayNumber(startDate) + 1;
    var sortColors := SortDescending(colors);
    var d0 := WeekDay(startDate);
    cells := [];
    var week := 0;
    var i := 0;
    assert count == n as real;
    while i < n
      invariant 0 <= i && (i == 0 || i <= n)
      invariant |cells| == i
      invariant week == (d0 + i) / 7
      invariant forall k :: 0 <= k < i ==> PlacedAt(cells[k], startDate, k, data, sortColors, emptyColor)
    {
      var target := AddDays(startDate, i);
      var day := WeekDay(target);
      PlacementStep(startDate, i, week, data, sortColors, emptyColor);
      cells := AppendPlaced(cells, Placement(week, day, CellFor(target, data, sortColors, emptyColor)), startDate, data, sortColors, emptyColor);
      if day == 6 {
        week := week + 1;
      }
      i := i + 1;
    }
  }

  /** One step of the loop: the counter-based week and the weekday of the
      `i`-th day are the positions the closed form gives, and the counter
      moves on exactly after a Saturday. */
  lemma PlacementStep(startDate: Date, i: nat, week: int, data: seq<DataEntry>, sortedColors: seq<ColorStop>, emptyColor: string)
    requires Valid(startDate)
    requires week == (WeekDay(startDate) + i) / 7
    ensures var d := AddDays(startDate, i);
      && PlacedAt(Placement(week, WeekDay(d), CellFor(d, data, sortedColors, emptyColor)), startDate, i, data, sortedColors, emptyColor)
      && (WeekDay(startDate) + i + 1) / 7 == week + (if WeekDay(d) == 6 then 1 else 0)
  {
    WeekDayAdd(startDate, i);
    WeekStep(WeekDay(startDate) + i);
  }

  function AppendPlaced(cells: seq<Placement>, p: Placement, startDate: Date, data: seq<DataEntry>, sortedColors: seq<ColorStop>, emptyColor: string): (r: seq<Placement>)
    requires Valid(startDate)
    requires forall k :: 0 <= k < |cells| ==> PlacedAt(cells[k], startDate, k, data, sortedColors, emptyColor)
    requires PlacedAt(p, startDate, |cells|, data, sortedColors, emptyColor)
    ensures |r| == |cells| + 1
    ensures forall k :: 0 <= k < |r| ==> PlacedAt(r[k], startDate, k, data, sortedColors, emptyColor)
  {
    AppendEach(cells, p, (c: Placement, k: nat) => PlacedAt(c, startDate, k, data, sortedColors, emptyColor));
    cells + [p]
  }

  /** Appending an element that holds at the next index keeps a property that
      holds at every index. */
  lemma AppendEach<T>(cells: seq<T>, p: T, placed: (T, nat) -> bool)
    requires forall k :: 0 <= k < |cells| ==> placed(cells[k], k)
    requires placed(p, |cells|)
    ensures forall k :: 0 <= k < |cells| + 1 ==> placed((cells + [p])[k], k)
  {
  }

  lemma WeekStep(n: nat)
    ensures (n + 1) / 7 == n / 7 + (if n % 7 == 6 then 1 else 0)
  {
  }

  /** No two cells share a week and a weekday slot, so none overwrites another. */
  lemma CellsDistinctSlots(cells: seq<Placement>, d0: nat, i: nat, j: nat)
    requires forall k :: 0 <= k < |cells| ==> cells[k].week == (d0 + k) / 7 && cells[k].weekDay == (d0 + k) % 7
    requires i < j < |cells|
    ensures (cells[i].week, cells[i].weekDay) != (cells[j].week, cells[j].weekDay)
  {
    assert d0 + i == 7 * ((d0 + i) / 7) + (d0 + i) % 7;
    assert d0 + j == 7 * ((d0 + j) / 7) + (d0 + j) % 7;
  }

  /** Puts one cell into `array[week][day]`, creating empty weeks as needed. */
  function Place(grid: seq<seq<Option<DayCell>>>, p: Placement): (r: seq<seq<Option<DayCell>>>)
    requires p.weekDay < 7
    requires forall w :: 0 <= w < |grid| ==> |grid[w]| == 7
    ensures forall w :: 0 <= w < |r| ==> |r[w]| == 7
    ensures |r| == if p.week < |grid| then |grid| else p.week + 1
    ensures r[p.week][p.weekDay] == Some(p.cell)
    ensures forall w, k :: 0 <= w < |grid| && 0 <= k < 7 && (w, k) != (p.week, p.weekDay) ==> r[w][k] == grid[w][k]
  {
    var grown := if p.week < |grid| then grid else grid + seq(p.week + 1 - |grid|, _ => seq(7, _ => None));
    grown[p.week := grown[p.week][p.weekDay := Some(p.cell)]]
  }

  /** The week array, a week being seven weekday slots (Sunday first). */
  function Grid(cells: seq<Placement>): (r: seq<seq<Option<DayCell>>>)
    requires forall k :: 0 <= k < |cells| ==> cells[k].weekDay < 7
    ensures forall w :: 0 <= w < |r| ==> |r[w]| == 7
  {
    if |cells| == 0 then [] else Place(Grid(cells[..|cells| - 1]), cells[|cells| - 1])
  }

  /** Every cell can be read back from its slot of the week array. */
  lemma {:induction false} GridHoldsEveryCell(cells: seq<Placement>, d0: nat, i: nat)
    requires forall k :: 0 <= k < |cells| ==> cells[k].week == (d0 + k) / 7 && cells[k].weekDay == (d0 + k) % 7
    requires i < |cells|
    ensures cells[i].week < |Grid(cells)| && Grid(cells)[cells[i].week][cells[i].weekDay] == Some(cells[i].cell)
    decreases |cells|
  {
    var prefix := cells[..|cells| - 1];
    assert Grid(cells) == Place(Grid(prefix), cells[|cells| - 1]);
    if i < |cells| - 1 {
      assert prefix[i] == cells[i];
      GridHoldsEveryCell(prefix, d0, i);
      CellsDistinctSlots(cells, d0, i, |cells| - 1);
    }
  }

  // ---------------------------------------------------------------------------
  // Size effect and tooltip

  datatype Size = Size(width: real, height: real)

  datatype Position = Position(x: real, y: real)

  /** What the size effect computes; the rectangle width is None when there
      are no weeks (a division by zero in the source). */
  datatype Layout = Layout(rectWidth: Option<real>, rectHeight: real, weekdayTick: Position, monthTick: Position)

  /** The size effect: recomputed only for a positive svg size. Rectangles
      split the width left of the weekday legend among the weeks and the height
      above the month legend among the seven weekdays; month ticks split that
      width among the months. */
  function Resize(prev: Layout, svg: Size, weekCount: nat, monthCount: nat, weekdayOffset: real, monthOffset: real): (r: Layout)
    requires monthCount >= 1
    ensures !(svg.width > 0.0 && svg.height > 0.0) ==> r == prev
    ensures svg.width > 0.0 && svg.height > 0.0 ==>
      && (weekCount > 0 ==> r.rectWidth == Some((svg.width - weekdayOffset) / weekCount as real))
      && (weekCount == 0 ==> r.rectWidth.None?)
      && r.rectHeight * 7.0 == svg.height - monthOffset
      && r.weekdayTick == Position(weekdayOffset / 2.0, r.rectHeight)
      && r.monthTick.x * monthCount as real == svg.width - weekdayOffset
      && r.monthTick.y == svg.height - monthOffset / 2.0
  {
    if svg.width > 0.0 && svg.height > 0.0 then
      Layout(
        if weekCount > 0 then Some((svg.width - weekdayOffset) / weekCount as real) else None,
        (svg.height - monthOffset) / 7.0,
        Position(weekdayOffset / 2.0, (svg.height - monthOffset) / 7.0),
        Position((svg.width - weekdayOffset) / monthCount as real, svg.height - monthOffset / 2.0))
    else prev
  }

  datatype Tooltip = Tooltip(x: real, y: real, data: Option<DayCell>)

  /** `setTooltipDataFn`: position and day together. */
  function SetTooltip(x: real, y: real, day: DayCell): (t: Tooltip)
    ensures t.data == Some(day) && t.x == x && t.y == y
  {
    Tooltip(x, y, Some(day))
  }

  /** `resetTooltipDataFn`: keeps the position, clears the day. */
  function ResetTooltip(prev: Tooltip): (t: Tooltip)
    ensures t.data.None? && t.x == prev.x && t.y == prev.y
  {
    prev.(data := None)
  }
}
