/** The calendar heat-map page: a window of five whole months that the arrow
    buttons move by five months at a time. */
module CalendarHeatMapPage {
  import opened Common
  import opened Dates
  import opened CalendarHeatMap

  const ViewMonthRange: int := 5

  /** A window: day 1 of its first month to the last day of its fifth month. */
  predicate IsWindow(w: Range)
  {
    && Valid(w.startDate) && Valid(w.endDate)
    && w.startDate.day == 1
    && w.endDate.day == DaysInMonth(w.endDate.year, w.endDate.month)
    && AbsMonth(w.endDate.year, w.endDate.month) - AbsMonth(w.startDate.year, w.startDate.month) == ViewMonthRange - 1
  }

  /** The first window: the current month and the four before it (for a
      year 0..99, the month of 1900 + year that the `Date` constructor reads). */
  function InitialWindow(today: Date): (w: Range)
    requires Valid(today)
    ensures IsWindow(w)
    ensures AbsMonth(w.endDate.year, w.endDate.month) == AbsMonth(ConstructorYear(today.year), today.month)
    ensures !(0 <= today.year <= 99) ==> w.endDate.year == today.year && w.endDate.month == today.month
  {
    var ymd := GetYMD(today);
    var w := DateRange(ymd.year, ymd.month, ViewMonthRange - 1);
    MonthOfUnique(ConstructorYear(today.year), today.month - 1, w.endDate.year, w.endDate.month);
    w
  }

  datatype Direction = Prev | Next

  /** `onChangeMonth`: nothing before the first window exists; "prev" ends the
      new window at the month before the old start, "next" starts it at the
      month after the old end. */
  function ChangeMonth(window: Option<Range>, dir: Direction): (r: Option<Range>)
    requires window.Some? ==> Valid(window.value.startDate) && Valid(window.value.endDate)
    ensures window.None? <==> r.None?
    ensures r.Some? ==> IsWindow(r.value)
    ensures r.Some? && dir == Prev ==>
      AbsMonth(r.value.endDate.year, r.value.endDate.month)
        == AbsMonth(ConstructorYear(window.value.startDate.year), window.value.startDate.month) - 1
    ensures r.Some? && dir == Next ==>
      AbsMonth(r.value.startDate.year, r.value.startDate.month)
        == AbsMonth(ConstructorYear(window.value.endDate.year), window.value.endDate.month) + 1
  {
    match window
    case None => None
    case Some(w) =>
      match dir
      case Prev =>
        var ymd := GetYMD(w.startDate);
        Some(DateRange(ymd.year, ymd.month - 1, ViewMonthRange - 1))
      case Next =>
        var ymd := GetYMD(w.endDate);
        Some(DateRange(ymd.year, ymd.month + ViewMonthRange, ViewMonthRange - 1))
  }

  /** A window is fixed by its first month. */
  lemma WindowByStart(a: Range, b: Range)
    requires IsWindow(a) && IsWindow(b)
    requires AbsMonth(a.startDate.year, a.startDate.month) == AbsMonth(b.startDate.year, b.startDate.month)
    ensures a == b
  {
    MonthOfUnique(a.startDate.year, a.startDate.month - 1, b.startDate.year, b.startDate.month);
    MonthOfUnique(a.startDate.year, a.startDate.month - 1, a.startDate.year, a.startDate.month);
    MonthOfUnique(a.endDate.year, a.endDate.month - 1, b.endDate.year, b.endDate.month);
    MonthOfUnique(a.endDate.year, a.endDate.month - 1, a.endDate.year, a.endDate.month);
  }

  /** Paging back and then forward (or forward and then back) returns to the
      same window, and consecutive windows neither overlap nor leave a gap. */
  lemma ChangeMonthRoundTrip(w: Range)
    requires IsWindow(w) && w.startDate.year >= 101
    ensures ChangeMonth(ChangeMonth(Some(w), Prev), Next) == Some(w)
    ensures ChangeMonth(ChangeMonth(Some(w), Next), Prev) == Some(w)
  {
    var p := ChangeMonth(Some(w), Prev).value;
    WindowByStart(ChangeMonth(Some(p), Next).value, w);
    var n := ChangeMonth(Some(w), Next).value;
    WindowByStart(ChangeMonth(Some(n), Prev).value, w);
  }

  /** Paging back from the window that starts in January of year 100 gives
      August to December of year 99, and paging forward from there reads the
      year 99 as 1999: the window after it starts in January 2000. */
  lemma PagingAcrossYear100()
    ensures DateRange(100, 4, ViewMonthRange - 1) == Range(Date(100, 1, 1), Date(100, 5, 31))
    ensures ChangeMonth(Some(Range(Date(100, 1, 1), Date(100, 5, 31))), Prev)
      == Some(Range(Date(99, 8, 1), Date(99, 12, 31)))
    ensures ChangeMonth(Some(Range(Date(99, 8, 1), Date(99, 12, 31))), Next)
      == Some(Range(Date(2000, 1, 1), Date(2000, 5, 31)))
  {
    WindowOfYear100();
    BackFromYear100();
    ForwardFromYear99();
  }

  lemma WindowOfYear100()
    ensures DateRange(100, 4, ViewMonthRange - 1) == Range(Date(100, 1, 1), Date(100, 5, 31))
  {
    RangeStart(100, 4, 100, 1);
    RangeEnd(100, 4, 100, 5);
  }

  lemma BackFromYear100()
    ensures ChangeMonth(Some(Range(Date(100, 1, 1), Date(100, 5, 31))), Prev)
      == Some(Range(Date(99, 8, 1), Date(99, 12, 31)))
  {
    PrevWindow(Range(Date(100, 1, 1), Date(100, 5, 31)));
    RangeStart(100, -1, 99, 8);
    RangeEnd(100, -1, 99, 12);
  }

  lemma ForwardFromYear99()
    ensures ChangeMonth(Some(Range(Date(99, 8, 1), Date(99, 12, 31))), Next)
      == Some(Range(Date(2000, 1, 1), Date(2000, 5, 31)))
  {
    NextWindow(Range(Date(99, 8, 1), Date(99, 12, 31)));
    RangeStart(99, 16, 2000, 1);
    RangeEnd(99, 16, 2000, 5);
  }

  lemma PrevWindow(w: Range)
    requires Valid(w.startDate) && Valid(w.endDate)
    ensures ChangeMonth(Some(w), Prev) == Some(DateRange(w.startDate.year, w.startDate.month - 2, ViewMonthRange - 1))
  {
  }

  lemma NextWindow(w: Range)
    requires Valid(w.startDate) && Valid(w.endDate)
    ensures ChangeMonth(Some(w), Next) == Some(DateRange(w.endDate.year, w.endDate.month - 1 + ViewMonthRange, ViewMonthRange - 1))
  {
  }

  /** The window ending at 0-based month `endMonth` of `endYear` starts on day 1
      of month `m` of year `y` when those name the same absolute month. */
  lemma RangeStart(endYear: int, endMonth: int, y: int, m: int)
    requires 1 <= m <= 12 && AbsMonth(y, m) == AbsMonth(ConstructorYear(endYear), endMonth + 1) - (ViewMonthRange - 1)
    ensures DateRange(endYear, endMonth, ViewMonthRange - 1).startDate == Date(y, m, 1)
  {
    MonthOfUnique(ConstructorYear(endYear), endMonth - (ViewMonthRange - 1), y, m);
  }

  /** The window ending at 0-based month `endMonth` of `endYear` ends on the last
      day of month `m` of year `y` when those name the same absolute month. */
  lemma RangeEnd(endYear: int, endMonth: int, y: int, m: int)
    requires 1 <= m <= 12 && AbsMonth(y, m) == AbsMonth(ConstructorYear(endYear), endMonth + 1)
    ensures DateRange(endYear, endMonth, ViewMonthRange - 1).endDate == Date(y, m, DaysInMonth(y, m))
  {
    MonthOfUnique(ConstructorYear(endYear), endMonth, y, m);
  }
}
