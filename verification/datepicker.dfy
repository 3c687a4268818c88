/** One month panel of the date-range picker: how a day is marked against a
    selection, its colour and disabled flag against the booked ranges, the
    Monday-first day grid of the month, and the "YYYY.MM.DD" key a click
    reports. */
module DateList {
  import opened Common
  import opened Dates

  /** A selection value: a bare date key or an array of date keys. */
  datatype Selection = Single(key: string) | Many(items: seq<string>)

  /** What `getSelected` returns: "start", "end", "between" or a boolean. */
  datatype Mark = Start | End | Between | Flag(b: bool)

  predicate Truthy(m: Mark) { m != Flag(false) }

  /** `getSelected(date, target)`. A one-element array is plain equality; a
      longer array marks its first and second keys and what lies strictly
      between them; every other array is false, and a bare key is equality. */
  function GetSelected(date: string, target: Selection): (m: Mark)
    ensures target.Single? ==> m == Flag(date == target.key)
    ensures target.Many? && |target.items| == 1 ==> m == Flag(date == target.items[0])
    ensures target.Many? && |target.items| != 1 ==> m != Flag(true)
    ensures m == Start ==> target.Many? && |target.items| >= 2 && date == target.items[0]
    ensures m == End ==> target.Many? && |target.items| >= 2 && date == target.items[1] && date != target.items[0]
    ensures m == Between ==>
      target.Many? && |target.items| >= 2 && StrLt(target.items[0], date) && StrLt(date, target.items[1])
  {
    match target
    case Many(t) =>
      if |t| == 1 then Flag(date == t[0])
      else if |t| >= 1 && date == t[0] then Start
      else if |t| >= 2 && date == t[1] then End
      else if |t| >= 2 && StrLt(t[0], date) && StrLt(date, t[1]) then Between
      else Flag(false)
    case Single(s) => Flag(date == s)
  }

  /** For a pair, the date is marked exactly when it lies in the pair's closed
      interval or equals one of its ends. */
  lemma PairMarkTruthy(date: string, t: seq<string>)
    requires |t| >= 2
    ensures Truthy(GetSelected(date, Many(t))) <==>
      date == t[0] || date == t[1] || (StrLt(t[0], date) && StrLt(date, t[1]))
  {
  }

  /** The booked-range test of `find`: a one-element entry is its one date, a
      longer one the closed interval of its first two keys; an empty entry
      never matches. */
  predicate Covers(entry: seq<string>, date: string)
  {
    if |entry| == 0 then false
    else if |entry| == 1 then date == entry[0]
    else StrLe(entry[0], date) && StrLe(date, entry[1])
  }

  /** `selectedList.find(...)`: the first booked entry that covers the date. */
  function FindBooked(booked: seq<seq<string>>, date: string): (k: Option<nat>)
    ensures k.Some? ==> k.value < |booked| && Covers(booked[k.value], date)
    ensures k.Some? ==> forall j :: 0 <= j < k.value ==> !Covers(booked[j], date)
    ensures k.None? <==> forall e :: e in booked ==> !Covers(e, date)
  {
    if |booked| == 0 then None
    else if Covers(booked[0], date) then Some(0)
    else match FindBooked(booked[1..], date)
      case None =>
        assert forall e :: e in booked ==> e == booked[0] || e in booked[1..];
        None
      case Some(k) => Some(k + 1)
  }

  predicate IsWeekend(day: int) { day == 0 || day == 6 }

  const BookedColor: string := "#C4C4C4"
  const SelectingColor: string := "#0099FE"

  datatype Look = Look(selected: Mark, color: string)

  /** `getSelectedFn`: weekends are plain; a day inside a booked entry is grey
      and marked against the first such entry; any other day is blue and
      marked against the selection in progress. */
  function SelectedFn(date: string, day: int, booked: Option<seq<seq<string>>>, selecting: Selection): (r: Look)
    ensures IsWeekend(day) ==> r == Look(Flag(false), "")
    ensures !IsWeekend(day) ==>
      (r.color == BookedColor <==> booked.Some? && exists e :: e in booked.value && Covers(e, date))
    ensures !IsWeekend(day) && r.color == BookedColor ==> Truthy(r.selected)
    ensures !IsWeekend(day) && r.color == BookedColor ==>
      booked.Some? && FindBooked(booked.value, date).Some? &&
      r.selected == GetSelected(date, Many(booked.value[FindBooked(booked.value, date).value]))
    ensures !IsWeekend(day) && r.color != BookedColor ==>
      r.color == SelectingColor && r.selected == GetSelected(date, selecting)
  {
    if IsWeekend(day) then Look(Flag(false), "")
    else if booked.Some? && FindBooked(booked.value, date).Some? then
      var e := booked.value[FindBooked(booked.value, date).value];
      CoveredIsMarked(e, date);
      Look(GetSelected(date, Many(e)), BookedColor)
    else Look(GetSelected(date, selecting), SelectingColor)
  }

  /** Every date a booked entry covers is marked by that entry. */
  lemma CoveredIsMarked(entry: seq<string>, date: string)
    requires Covers(entry, date)
    ensures Truthy(GetSelected(date, Many(entry)))
  {
    if |entry| >= 2 {
      PairMarkTruthy(date, entry);
    }
  }

  /** `getDisabled`: exactly the weekends and the dates some booked entry
      covers. */
  function Disabled(date: string, day: int, booked: Option<seq<seq<string>>>): (r: bool)
    ensures r <==> IsWeekend(day) || (booked.Some? && exists e :: e in booked.value && Covers(e, date))
  {
    if IsWeekend(day) then true
    else if booked.Some? && FindBooked(booked.value, date).Some? then
      var e := booked.value[FindBooked(booked.value, date).value];
      CoveredIsMarked(e, date);
      Truthy(GetSelected(date, Many(e)))
    else false
  }

  // ---------------------------------------------------------------------------
  // The day grid

  datatype Day = Day(date: int, day: int, weekNum: int)

  /** The first day of the month a panel shows, normalised as the `Date`
      constructor does for `new Date(year, month - 1, 1)`, years 0..99
      included. */
  function FirstOfMonth(year: int, month: int): (d: Date)
    ensures Valid(d) && d.day == 1
    ensures AbsMonth(d.year, d.month) == AbsMonth(ConstructorYear(year), month)
  {
    var ym := MonthOf(ConstructorYear(year), month - 1);
    Date(ym.0, ym.1, 1)
  }

  /** The column of a day in a Monday-first row (Monday = 0). */
  function Column(d: Date): (c: int)
    requires Valid(d)
    ensures 0 <= c < 7
    ensures WeekDay(d) == 0 <==> c == 6
  {
    (WeekDay(d) + 6) % 7
  }

  /** The day-list effect as written: the month is the one `new Date(year,
      month - 1, 1)` reads (years 0..99 meaning 1900..1999), its length comes
      from `new Date(year, month, 0)`, and the days are those of `MonthGrid`. */
  method DayList(year: int, month: int) returns (days: seq<Day>, weekCount: int)
    ensures var first := FirstOfMonth(year, month);
      && |days| == DaysInMonth(first.year, first.month)
      && (forall k :: 0 <= k < |days| ==>
            && days[k].date == k + 1
            && days[k].day == WeekDay(Date(first.year, first.month, k + 1))
            && days[k].weekNum == (Column(first) + k) / 7 + 1)
      && weekCount == (Column(first) + |days|) / 7 + 1
  {
    var first := FirstOfMonth(year, month);
    var lastDate := LastDayBefore(year, month).day;
    MonthOfUnique(ConstructorYear(year), month - 1, LastDayBefore(year, month).year, LastDayBefore(year, month).month);
    days, weekCount := MonthGrid(first, lastDate);
  }

  /** The day list of the month a picker view shows, keeping its year as it
      is: the grid `DayList` would draw once the year is not remapped. */
  method ViewDayList(year: int, month: int) returns (days: seq<Day>, weekCount: int)
    requires 1 <= month <= 12
    ensures |days| == DaysInMonth(year, month)
    ensures forall k :: 0 <= k < |days| ==>
      && days[k].date == k + 1
      && days[k].day == WeekDay(Date(year, month, k + 1))
      && days[k].weekNum == (Column(Date(year, month, 1)) + k) / 7 + 1
    ensures weekCount == (Column(Date(year, month, 1)) + |days|) / 7 + 1
  {
    days, weekCount := MonthGrid(Date(year, month, 1), DaysInMonth(year, month));
  }

  /** The loop of the day-list effect over the month starting at `first`: one
      entry per day with its day of the week; the row number starts at 1 and
      grows after every Sunday, which gives Monday-first rows, and the row
      count is the final row number. */
  method MonthGrid(first: Date, lastDate: int) returns (days: seq<Day>, weekCount: int)
    requires Valid(first) && first.day == 1 && lastDate == DaysInMonth(first.year, first.month)
    ensures |days| == lastDate
    ensures forall k :: 0 <= k < |days| ==>
      && days[k].date == k + 1
      && days[k].day == WeekDay(Date(first.year, first.month, k + 1))
      && days[k].weekNum == (Column(first) + k) / 7 + 1
    ensures weekCount == (Column(first) + |days|) / 7 + 1
  {
    var col := Column(first);
    days := [];
    var weekNum := 1;
    var i := 1;
    while i <= lastDate
      invariant 1 <= i <= lastDate + 1
      invariant |days| == i - 1
      invariant weekNum == (col + i - 1) / 7 + 1
      invariant forall k :: 0 <= k < i - 1 ==>
        && days[k].date == k + 1
        && days[k].day == WeekDay(Date(first.year, first.month, k + 1))
        && days[k].weekNum == (col + k) / 7 + 1
    {
      var day := WeekDay(Date(first.year, first.month, i));
      RowStep(first, i - 1);
      days := days + [Day(i, day, weekNum)];
      if day == 0 {
        weekNum := weekNum + 1;
      }
      i := i + 1;
    }
    weekCount := weekNum;
  }

  /** Year 50 in a day list is drawn as the same month of 1950, and February
      of year 0 (29 days) as February 1900 (28 days). */
  lemma DayListRemapsYear()
    ensures FirstOfMonth(50, 2) == Date(1950, 2, 1)
    ensures FirstOfMonth(0, 2) == Date(1900, 2, 1) && DaysInMonth(1900, 2) < DaysInMonth(0, 2)
  {
  }

  /** Day k + 1 of the month ends its Monday-first row exactly when it is a
      Sunday. */
  lemma RowStep(first: Date, k: nat)
    requires Valid(first) && first.day == 1 && k < DaysInMonth(first.year, first.month)
    ensures var col := (WeekDay(first) + 6) % 7;
      (col + k + 1) / 7 == (col + k) / 7 + (if WeekDay(Date(first.year, first.month, k + 1)) == 0 then 1 else 0)
  {
    AddDaysInMonth(first, k);
    WeekDayAdd(first, k);
    ColumnStep(WeekDay(first), k, WeekDay(Date(first.year, first.month, k + 1)));
  }

  /** The Monday-first column moves to a new row after a Sunday. */
  lemma ColumnStep(w: int, k: nat, wd: int)
    requires 0 <= w < 7 && wd == (w + k) % 7
    ensures ((w + 6) % 7 + k + 1) / 7 == ((w + 6) % 7 + k) / 7 + (if wd == 0 then 1 else 0)
  {
    assert ((w + 6) % 7 + k) % 7 == (w + k + 6) % 7;
  }

  // ---------------------------------------------------------------------------
  // Clicks

  /** The key a day of panel (year, month) reports: the month exactly as the
      panel received it, so a neighbour panel can print month 00 or 13. */
  function DateKey(year: int, month: int, date: int): (r: string)
    ensures year >= 0 && month >= 0 && date >= 0 ==>
      var p := Split(r, '.');
      |p| == 3 && ParseNumber(p[0]) == Some(year) && ParseNumber(p[1]) == Some(month) && ParseNumber(p[2]) == Some(date)
  {
    var key := IntToString(year) + "." + Pad2(month) + "." + Pad2(date);
    if year >= 0 && month >= 0 && date >= 0 then (DateKeyFields(year, month, date); key) else key
  }

  /** A key of natural numbers splits at its dots into three digit fields that
      read back as the year, the month and the day. */
  lemma DateKeyFields(year: nat, month: nat, date: nat)
    ensures var p := Split(NatToString(year) + "." + Pad2(month) + "." + Pad2(date), '.');
      |p| == 3 && ParseNumber(p[0]) == Some(year) && ParseNumber(p[1]) == Some(month) && ParseNumber(p[2]) == Some(date)
  {
    var y, m, d := NatToString(year), Pad2(month), Pad2(date);
    Pad2Shape(month);
    Pad2Shape(date);
    Pad2Value(month);
    Pad2Value(date);
    DigitsValueOfNatToString(year);
    DotFree(y);
    DotFree(m);
    DotFree(d);
    SplitThree(y, m, d);
  }

  lemma DotFree(s: string)
    requires AllDigits(s)
    ensures '.' !in s
  {
    assert !IsDigit('.');
  }

  lemma SplitThree(a: string, b: string, c: string)
    requires '.' !in a && '.' !in b && '.' !in c
    ensures Split(a + "." + b + "." + c, '.') == [a, b, c]
  {
    assert a + "." + b + "." + c == a + ['.'] + (b + ['.'] + c);
    SplitFirst(a, '.', b + ['.'] + c);
    SplitFirst(b, '.', c);
    SplitNone(c, '.');
  }

  /** The click handler: only working days that are not disabled report their
      key. */
  function Click(year: int, month: int, d: Day, booked: Option<seq<seq<string>>>): (r: Option<string>)
    requires 0 <= d.day <= 6
    ensures r.Some? <==> !IsWeekend(d.day) && !Disabled(DateKey(year, month, d.date), d.day, booked)
    ensures r.Some? ==> r.value == DateKey(year, month, d.date)
  {
    var key := DateKey(year, month, d.date);
    if d.day > 0 && d.day < 6 && !Disabled(key, d.day, booked) then Some(key) else None
  }

  lemma FourDigits(n: nat)
    requires 1000 <= n <= 9999
    ensures |NatToString(n)| == 4
  {
    var a := n / 10;
    assert 100 <= a <= 999;
    var b := a / 10;
    assert 10 <= b <= 99;
    var c := b / 10;
    assert 1 <= c <= 9;
    LengthStep(n);
    LengthStep(a);
    LengthStep(b);
  }

  lemma LengthStep(n: nat)
    requires n >= 10
    ensures |NatToString(n)| == |NatToString(n / 10)| + 1
  {
  }

  /** For four-digit years, the keys of valid dates compare as strings exactly
      as the dates compare in the calendar; this is what makes the picker's
      string comparisons of keys meaningful. */
  lemma DateKeyOrder(a: Date, b: Date)
    requires Valid(a) && Valid(b)
    requires 1000 <= a.year <= 9999 && 1000 <= b.year <= 9999
    ensures StrLt(DateKey(a.year, a.month, a.day), DateKey(b.year, b.month, b.day)) <==> Before(a, b)
  {
    FourDigits(a.year);
    FourDigits(b.year);
    Pad2Shape(a.month);
    Pad2Shape(b.month);
    Pad2Shape(a.day);
    Pad2Shape(b.day);
    KeyOrder(NatToString(a.year), Pad2(a.month), Pad2(a.day), NatToString(b.year), Pad2(b.month), Pad2(b.day));
    NatToStringOrder(a.year, b.year);
    Pad2Order(a.month, b.month);
    Pad2Order(a.day, b.day);
    if NatToString(a.year) == NatToString(b.year) {
      NatToStringInjective(a.year, b.year);
    }
    if Pad2(a.month) == Pad2(b.month) {
      Pad2Value(a.month);
      Pad2Value(b.month);
    }
  }

  /** Keys whose fields have equal widths compare field by field. */
  lemma KeyOrder(ya: string, ma: string, da: string, yb: string, mb: string, db: string)
    requires |ya| == |yb| && |ma| == |mb|
    ensures StrLt(ya + "." + ma + "." + da, yb + "." + mb + "." + db) <==>
      StrLt(ya, yb) || (ya == yb && (StrLt(ma, mb) || (ma == mb && StrLt(da, db))))
  {
    assert ya + "." + ma + "." + da == ya + ("." + (ma + ("." + da)));
    assert yb + "." + mb + "." + db == yb + ("." + (mb + ("." + db)));
    StrLtConcat(ya, "." + (ma + ("." + da)), yb, "." + (mb + ("." + db)));
    StrLtConcat(".", ma + ("." + da), ".", mb + ("." + db));
    StrLtConcat(ma, "." + da, mb, "." + db);
    StrLtConcat(".", da, ".", db);
  }

}

/** The picker itself: the three-phase selection machine, the value it
    reports, and the month shown. */
module PickerCalendar {
  import opened Common
  import opened Dates
  import opened DateList

  /** The selection phase with the value that phase keeps: undefined, with
      the initial "" or the reset []; "SELECTING" with the first key;
      "SELECTED" with the finished value. */
  datatype Picker = Idle(value: Selection) | Selecting(first: string) | Selected(value: Selection)

  /** `[a, b].sort()`: the two keys in string order. */
  function Sort2(a: string, b: string): (r: seq<string>)
    ensures |r| == 2 && multiset(r) == multiset{a, b}
    ensures StrLe(r[0], r[1])
  {
    StrLtTotal(a, b);
    if StrLt(b, a) then [b, a] else [a, b]
  }

  /** The test `dateSelectFn` makes against each booked entry while a range is
      being chosen: a single booked date equal to the click, or a booked range
      inside the candidate range. */
  predicate Blocks(entry: seq<string>, lo: string, hi: string, date: string)
  {
    if |entry| == 1 then entry[0] == date
    else |entry| >= 2 && StrLe(lo, entry[0]) && StrLe(entry[1], hi)
  }

  predicate Blocked(booked: Option<seq<seq<string>>>, first: string, date: string)
  {
    var r := Sort2(first, date);
    booked.Some? && exists e :: e in booked.value && Blocks(e, r[0], r[1], date)
  }

  /** `dateSelectFn(date)`. */
  function SelectDate(p: Picker, date: string, booked: Option<seq<seq<string>>>): (r: Picker)
    ensures p.Idle? ==> r == Selecting(date)
    ensures p.Selected? ==> r == Idle(Many([]))
    ensures p.Selecting? && Blocked(booked, p.first, date) ==> r == p
    ensures p.Selecting? && !Blocked(booked, p.first, date) ==> r.Selected?
  {
    match p
    case Selecting(first) =>
      if Blocked(booked, first, date) then p
      else if first == "" then Selected(Single(""))
      else if date != first then Selected(Many(Sort2(first, date)))
      else Selected(Many([first]))
    case Selected(_) => Idle(Many([]))
    case Idle(_) => Selecting(date)
  }

  /** A range the picker completes is ordered, is made of the two clicked
      keys, and contains no booked range and no booked single date equal to
      the second click. */
  lemma CompletedRange(first: string, date: string, booked: Option<seq<seq<string>>>)
    requires first != "" && first != date
    requires SelectDate(Selecting(first), date, booked).Selected?
    ensures var v := SelectDate(Selecting(first), date, booked).value;
      && v.Many? && |v.items| == 2 && StrLe(v.items[0], v.items[1])
      && multiset(v.items) == multiset{first, date}
      && (booked.Some? ==> forall e :: e in booked.value && |e| >= 2 ==>
            !(StrLe(v.items[0], e[0]) && StrLe(e[1], v.items[1])))
      && (booked.Some? ==> forall e :: e in booked.value && |e| == 1 ==> e[0] != date)
  {
    var r := Sort2(first, date);
    if booked.Some? {
      forall e | e in booked.value
        ensures !Blocks(e, r[0], r[1], date)
      {
      }
    }
  }

  /** Clicking the first key again finishes a one-day selection. */
  lemma SameDayRange(first: string, booked: Option<seq<seq<string>>>)
    requires first != ""
    requires !Blocked(booked, first, first)
    ensures SelectDate(Selecting(first), first, booked) == Selected(Many([first]))
  {
  }

  function Join(items: seq<string>, sep: string): string
  {
    if |items| == 0 then ""
    else if |items| == 1 then items[0]
    else items[0] + sep + Join(items[1..], sep)
  }

  /** The `onChangeValue` effect: reports only in the "SELECTED" phase with a
      truthy value; an array is joined with " ~ ". */
  function ReportedValue(p: Picker): (r: Option<string>)
    ensures r.Some? ==> p.Selected?
    ensures p.Selected? && p.value.Many? && |p.value.items| == 2 ==>
      r == Some(p.value.items[0] + " ~ " + p.value.items[1])
    ensures p.Selected? && p.value.Many? && |p.value.items| == 1 ==> r == Some(p.value.items[0])
    ensures p.Selected? && p.value.Single? ==> (r.Some? <==> p.value.key != "")
  {
    match p
    case Selected(Many(items)) =>
      assert |items| == 2 ==> Join(items[1..], " ~ ") == items[1];
      Some(Join(items, " ~ "))
    case Selected(Single(s)) => if s != "" then Some(s) else None
    case _ => None
  }

  /** The month a picker shows, and whether the year list is open. */
  datatype View = View(year: int, month: int, listOpen: bool)

  /** `setYearMonth(y, m)` as the source writes it: through `new Date(y, m - 1)`,
      whose year argument 0..99 stands for 1900..1999. */
  function SetYearMonthAsWritten(v: View, y: int, m: int): (r: View)
    ensures 1 <= r.month <= 12 && !r.listOpen
    ensures AbsMonth(r.year, r.month) == AbsMonth(ConstructorYear(y), m)
  {
    var ym := MonthOf(ConstructorYear(y), m - 1);
    View(ym.0, ym.1, false)
  }

  /** Picking year 50 in the year list shows 1950. */
  lemma SetYearMonthAsWrittenRemaps(v: View)
    ensures SetYearMonthAsWritten(v, 50, 3) == View(1950, 3, false)
  {
  }

  /** `setYearMonth(y, m)` normalising month overflow only: the shown month is
      the one with the same absolute month number, in 1..12, and the year list
      closes. */
  function SetYearMonth(v: View, y: int, m: int): (r: View)
    ensures 1 <= r.month <= 12 && !r.listOpen
    ensures AbsMonth(r.year, r.month) == AbsMonth(y, m)
  {
    var ym := MonthOf(y, m - 1);
    View(ym.0, ym.1, false)
  }

  /** A month inside 1..12 stays as it is; month 0 is December of the year
      before and month 13 January of the year after. */
  lemma SetYearMonthOverflow(v: View, y: int, m: int)
    ensures 1 <= m <= 12 ==> SetYearMonth(v, y, m) == View(y, m, false)
    ensures m == 0 ==> SetYearMonth(v, y, m) == View(y - 1, 12, false)
    ensures m == 13 ==> SetYearMonth(v, y, m) == View(y + 1, 1, false)
  {
    if 1 <= m <= 12 {
      MonthOfUnique(y, m - 1, y, m);
    } else if m == 0 {
      MonthOfUnique(y, m - 1, y - 1, 12);
    } else if m == 13 {
      MonthOfUnique(y, m - 1, y + 1, 1);
    }
  }

  /** The two agree except on years 0..99. */
  lemma SetYearMonthAgrees(v: View, y: int, m: int)
    requires !(0 <= y <= 99)
    ensures SetYearMonthAsWritten(v, y, m) == SetYearMonth(v, y, m)
  {
  }

  /** The previous-month arrow: `setYearMonth(y, m - 1)` with the as-written
      normaliser, so the shown year goes through the constructor's reading;
      outside years 0..99 it is the month before. */
  function PrevMonth(v: View): (r: View)
    ensures 1 <= r.month <= 12 && !r.listOpen
    ensures AbsMonth(r.year, r.month) == AbsMonth(ConstructorYear(v.year), v.month) - 1
    ensures !(0 <= v.year <= 99) ==> AbsMonth(r.year, r.month) == AbsMonth(v.year, v.month) - 1
  {
    SetYearMonthAsWritten(v, v.year, v.month - 1)
  }

  /** The next-month arrow: `setYearMonth(y, m + 1)` with the as-written
      normaliser; outside years 0..99 it is the month after. */
  function NextMonth(v: View): (r: View)
    ensures 1 <= r.month <= 12 && !r.listOpen
    ensures AbsMonth(r.year, r.month) == AbsMonth(ConstructorYear(v.year), v.month) + 1
    ensures !(0 <= v.year <= 99) ==> AbsMonth(r.year, r.month) == AbsMonth(v.year, v.month) + 1
  {
    SetYearMonthAsWritten(v, v.year, v.month + 1)
  }

  /** Away from years 0..99, and from the years next to them that an arrow
      steps into, the arrows undo each other. */
  lemma PrevNextInverse(v: View)
    requires 1 <= v.month <= 12
    requires v.year >= 101 || v.year <= -2
    ensures NextMonth(PrevMonth(v)) == v.(listOpen := false)
    ensures PrevMonth(NextMonth(v)) == v.(listOpen := false)
  {
    var p := NextMonth(PrevMonth(v));
    MonthOfUnique(v.year, v.month - 1, p.year, p.month);
    MonthOfUnique(v.year, v.month - 1, v.year, v.month);
    var q := PrevMonth(NextMonth(v));
    MonthOfUnique(v.year, v.month - 1, q.year, q.month);
  }

  /** From January of year 100 the previous arrow shows December of year 99,
      and the next arrow from there shows January 2000. */
  lemma ArrowsAcrossYear100()
    ensures PrevMonth(View(100, 1, false)) == View(99, 12, false)
    ensures NextMonth(View(99, 12, false)) == View(2000, 1, false)
  {
    MonthOfUnique(100, -1, 99, 12);
    MonthOfUnique(1999, 12, 2000, 1);
  }

  /** From December of year 99 the previous arrow shows November 1999. */
  lemma PrevFromYear99()
    ensures PrevMonth(View(99, 12, false)) == View(1999, 11, false)
  {
    MonthOfUnique(1999, 10, 1999, 11);
  }

  /** With the corrected normaliser the arrows would undo each other for
      every year. */
  lemma CorrectedArrowsInverse(v: View)
    requires 1 <= v.month <= 12
    ensures var p := SetYearMonth(v, v.year, v.month - 1);
      SetYearMonth(p, p.year, p.month + 1) == v.(listOpen := false)
    ensures var n := SetYearMonth(v, v.year, v.month + 1);
      SetYearMonth(n, n.year, n.month - 1) == v.(listOpen := false)
  {
    var p := SetYearMonth(v, v.year, v.month - 1);
    var p2 := SetYearMonth(p, p.year, p.month + 1);
    MonthOfUnique(v.year, v.month - 1, p2.year, p2.month);
    MonthOfUnique(v.year, v.month - 1, v.year, v.month);
    var n := SetYearMonth(v, v.year, v.month + 1);
    var n2 := SetYearMonth(n, n.year, n.month - 1);
    MonthOfUnique(v.year, v.month - 1, n2.year, n2.month);
  }

  /** The three panels: the previous, current and next month, passed on
      without normalisation. */
  function Panels(v: View): (r: seq<(int, int)>)
    ensures |r| == 3
    ensures forall i :: 0 <= i < 3 ==> r[i].0 == v.year && r[i].1 == v.month - 1 + i
  {
    [(v.year, v.month - 1), (v.year, v.month), (v.year, v.month + 1)]
  }
}

/** The scrolling year list of the picker. */
module YearList {

  datatype Years = Years(min: int, max: int, list: seq<int>)

  /** The run of consecutive years from `lo` up to but not including `hi`. */
  function Run(lo: int, hi: int): (r: seq<int>)
    ensures |r| == if hi > lo then hi - lo else 0
    ensures forall i :: 0 <= i < |r| ==> r[i] == lo + i
    decreases hi - lo
  {
    if hi <= lo then [] else [lo] + Run(lo + 1, hi)
  }

  lemma RunConcat(a: int, b: int, c: int)
    requires a <= b <= c
    ensures Run(a, b) + Run(b, c) == Run(a, c)
  {
    assert forall i :: 0 <= i < |Run(a, c)| ==> (Run(a, b) + Run(b, c))[i] == Run(a, c)[i];
  }

  /** The list after the mount effect: the 100 years from `year - 50`. */
  function Initial(year: int): (y: Years)
    ensures |y.list| == 100 && y.list[0] == year - 50 && y.list[99] == year + 49
    ensures y.list == Run(y.min, y.max)
  {
    Years(year - 50, year + 50, Run(year - 50, year + 50))
  }

  /** The prepending loop as the source writes it: from `min - 1` down to
      `min - 50`, stopping after year 1. Returns the block in list order. */
  function PrependBlockAsWritten(min: int): (r: seq<int>)
  {
    var lo := if min - 50 <= 1 <= min - 1 then 1 else min - 50;
    Run(lo, min)
  }

  /** With `min == 1` the loop starts below 1, never meets 1, and prepends the
      years -49 through 0. */
  lemma PrependAsWrittenBelowOne()
    ensures PrependBlockAsWritten(1) == Run(-49, 1)
    ensures 0 in PrependBlockAsWritten(1)
  {
    assert PrependBlockAsWritten(1)[49] == 0;
  }

  /** The prepending loop stopping at year 1 whatever `min` is. */
  function PrependBlock(min: int): (r: seq<int>)
    requires min > 0
    ensures forall i :: 0 <= i < |r| ==> r[i] >= 1
    ensures r == Run(if min - 50 < 1 then 1 else min - 50, min)
  {
    Run(if min - 50 < 1 then 1 else min - 50, min)
  }

  /** Falsy numbers: 0 (and the missing element, which is left out). */
  predicate Truthy(x: real) { x != 0.0 }

  /** `handleScroll` with the loop as written. */
  function ScrollAsWritten(y: Years, scrollTop: real, scrollHeight: real, clientHeight: real): Years
  {
    if !(Truthy(scrollTop) && Truthy(scrollHeight) && Truthy(clientHeight)) then y
    else
      var afterBottom := if scrollHeight - (scrollTop + clientHeight) < 300.0 then Append(y) else y;
      if scrollTop < 300.0 && y.min > 0
      then afterBottom.(list := PrependBlockAsWritten(y.min) + afterBottom.list,
                        min := if y.min - 50 < 0 then 0 else y.min - 50)
      else afterBottom
  }

  /** Near the bottom, 50 more years are appended; near the top with
      `min > 0`, the years below the list down to `min - 50` (but not below
      year 1) are prepended and `min` drops by 50 (but not below 0). Nothing
      happens at `scrollTop` 0, which is falsy. */
  function Scroll(y: Years, scrollTop: real, scrollHeight: real, clientHeight: real): (r: Years)
    ensures scrollTop == 0.0 ==> r == y
    ensures y.min <= 0 && scrollTop != 0.0 && scrollHeight != 0.0 && clientHeight != 0.0 ==>
      r.min == y.min && y.list <= r.list
  {
    if !(Truthy(scrollTop) && Truthy(scrollHeight) && Truthy(clientHeight)) then y
    else
      var afterBottom := if scrollHeight - (scrollTop + clientHeight) < 300.0 then Append(y) else y;
      if scrollTop < 300.0 && y.min > 0 then Prepend(afterBottom, y.min) else afterBottom
  }

  /** The list is the consecutive years from its start to `max - 1`, and it
      starts at `min`, or at year 1 once `min` has reached 0. */
  ghost predicate Contiguous(y: Years)
  {
    exists lo :: (lo == y.min || (y.min == 0 && lo == 1)) && lo <= y.max && y.list == Run(lo, y.max)
  }

  lemma InitialContiguous(year: int)
    ensures Contiguous(Initial(year))
  {
    var y := Initial(year);
    assert y.list == Run(y.min, y.max);
  }

  /** The bottom half of a scroll: appending the next 50 years. */
  function Append(y: Years): Years
  {
    y.(list := y.list + Run(y.max, y.max + 50), max := y.max + 50)
  }

  /** The top half of a scroll: prepending the block below `min`. */
  function Prepend(y: Years, min: int): Years
    requires min > 0
  {
    y.(list := PrependBlock(min) + y.list, min := if min - 50 < 0 then 0 else min - 50)
  }

  lemma AppendContiguous(y: Years, lo: int)
    requires lo <= y.max && y.list == Run(lo, y.max)
    ensures Append(y).list == Run(lo, Append(y).max) && lo <= Append(y).max
  {
    RunConcat(lo, y.max, y.max + 50);
  }

  lemma PrependContiguous(y: Years, min: int)
    requires min > 0 && min <= y.max && y.list == Run(min, y.max)
    ensures Contiguous(Prepend(y, min))
  {
    var start := if min - 50 < 1 then 1 else min - 50;
    RunConcat(start, min, y.max);
    var r := Prepend(y, min);
    assert r.list == Run(start, r.max);
  }

  /** Scrolling keeps the list contiguous and ascending. */
  lemma ScrollContiguous(y: Years, scrollTop: real, scrollHeight: real, clientHeight: real)
    requires Contiguous(y)
    ensures Contiguous(Scroll(y, scrollTop, scrollHeight, clientHeight))
  {
    var lo :| (lo == y.min || (y.min == 0 && lo == 1)) && lo <= y.max && y.list == Run(lo, y.max);
    if Truthy(scrollTop) && Truthy(scrollHeight) && Truthy(clientHeight) {
      var b := if scrollHeight - (scrollTop + clientHeight) < 300.0 then Append(y) else y;
      AppendContiguous(y, lo);
      assert b.list == Run(lo, b.max) && lo <= b.max && b.min == y.min;
      if scrollTop < 300.0 && y.min > 0 {
        PrependContiguous(b, y.min);
        assert Scroll(y, scrollTop, scrollHeight, clientHeight) == Prepend(b, y.min);
      } else {
        assert Scroll(y, scrollTop, scrollHeight, clientHeight) == b;
      }
    }
  }

  /** After scrolling from a list of positive years, every year is positive. */
  lemma ScrollKeepsYearsPositive(y: Years, scrollTop: real, scrollHeight: real, clientHeight: real)
    requires forall i :: 0 <= i < |y.list| ==> y.list[i] >= 1
    requires y.max >= 1
    ensures var r := Scroll(y, scrollTop, scrollHeight, clientHeight);
      forall i :: 0 <= i < |r.list| ==> r.list[i] >= 1
  {
  }

  /** The source's loop breaks that on the list of year 51: its years are all
      positive, yet a scroll to the top prepends years down to -49. */
  lemma ScrollAsWrittenAddsYearZero()
    ensures var y := Initial(51);
      && (forall i :: 0 <= i < |y.list| ==> y.list[i] >= 1)
      && ScrollAsWritten(y, 100.0, 5000.0, 300.0).list[0] == -49
  {
    var y := Initial(51);
    assert PrependBlockAsWritten(1) == Run(-49, 1);
  }
}
