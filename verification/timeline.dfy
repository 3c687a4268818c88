/** The timeline chart: a month axis from the month of the earliest event to
    the month after the later of today and the latest event end, events grouped
    by category and packed first-fit into lanes that keep more than three days
    between consecutive events, lanes stacked 40 pixels apart, and point events
    placed on the same day-to-pixel map. */
module TimeLine {
  import opened Common
  import opened Dates
  import Sorting

  const DateInterval: real := 100.0
  const LineInterval: real := 40.0

  /** The smallest gap, in milliseconds, that lets an event follow another in
      the same lane must be larger than this: three days. */
  const ThreeDaysMs: int := 1000 * 60 * 60 * 24 * 3

  /** A moment: its `getTime()` value and the local calendar date it falls
      on, both supplied by the caller. */
  datatype Instant = Instant(ms: int, date: Date)

  predicate ValidInstant(t: Instant) { Valid(t.date) }

  datatype Event = Event(category: string, text: string, color: string, start: Instant, end: Instant)

  predicate ValidEvent(e: Event) { ValidInstant(e.start) && ValidInstant(e.end) }

  datatype Item = Item(category: string, text: string, color: string, startText: string, endText: string,
                       start: Instant, end: Instant, x1: real, x2: real)

  datatype Line = Line(y: real, events: seq<Item>)

  datatype Tick = Tick(text: string, year: int, month: int, x: real)

  datatype PointEvent = PointEvent(text: string, color: string, date: Instant)

  datatype PointItem = PointItem(text: string, color: string, x: real, width: real)

  /** `timeComparison(a, b)`: a is strictly later than b. */
  predicate Later(a: Instant, b: Instant) { a.ms > b.ms }

  // ---------------------------------------------------------------------------
  // Month arithmetic and the day-to-pixel map

  /** `getMonthDiff`: how many months the second (year, month) lies after the
      first. */
  function MonthDiff(startYear: int, startMonth: int, endYear: int, endMonth: int): (d: int)
    ensures d == AbsMonth(endYear, endMonth) - AbsMonth(startYear, startMonth)
  {
    (endYear - startYear) * 12 + (endMonth - startMonth)
  }

  /** `getX`: the axis position of a day, 100 pixels per month counted from the
      axis's first month plus the day's fraction of its own month. */
  function GetX(startYear: int, startMonth: int, year: int, month: int, day: int): (x: real)
    requires 1 <= month <= 12
    ensures var tick := MonthDiff(startYear, startMonth, year, month) as real * DateInterval;
      1 <= day <= LastDayBefore(year, month).day ==> tick < x <= tick + DateInterval
  {
    var lastDay := LastDayBefore(year, month).day;
    var fraction := day as real / lastDay as real;
    assert 1 <= day <= lastDay ==> 0.0 < fraction <= 1.0;
    MonthDiff(startYear, startMonth, year, month) as real * DateInterval + fraction * DateInterval
  }

  /** `new Date(year, month, 0)` for a 1-based month is the last day of that
      month of the year the constructor reads; apart from year 0 (a leap year,
      read as 1900, which is not) that month has as many days as the month of
      `year` itself. */
  lemma LastDayOfMonth(year: int, month: int)
    requires 1 <= month <= 12
    ensures var y := ConstructorYear(year);
      LastDayBefore(year, month) == Date(y, month, DaysInMonth(y, month))
    ensures year != 0 ==> LastDayBefore(year, month).day == DaysInMonth(year, month)
  {
    var y := ConstructorYear(year);
    var d := LastDayBefore(year, month);
    MonthOfUnique(y, month - 1, d.year, d.month);
    MonthOfUnique(y, month - 1, y, month);
    if 1 <= year <= 99 {
      LeapFrom1900(year);
    }
  }

  /** The years 1901..1999 are leap exactly when their last two digits are. */
  lemma LeapFrom1900(year: int)
    requires 1 <= year <= 99
    ensures IsLeap(1900 + year) == IsLeap(year)
  {
    assert 1900 + year == 4 * 475 + year;
    assert (1900 + year) % 100 == year % 100;
  }

  /** In year 0 the last day of February is the 29th, but `getX` divides by
      the 28 days of February 1900, so that day lies past March's tick. */
  lemma GetXYearZero()
    ensures GetX(0, 1, 0, 2, 29) > 2.0 * DateInterval
  {
    LastDayOfMonth(0, 2);
  }

  /** A day of a month lies after that month's tick and no later than the next
      month's tick; the last day lies exactly on the next month's tick. */
  lemma GetXInMonth(startYear: int, startMonth: int, d: Date)
    requires Valid(d) && d.year != 0
    ensures var diff := MonthDiff(startYear, startMonth, d.year, d.month) as real;
      && diff * DateInterval < GetX(startYear, startMonth, d.year, d.month, d.day) <= (diff + 1.0) * DateInterval
      && (d.day == DaysInMonth(d.year, d.month) ==> GetX(startYear, startMonth, d.year, d.month, d.day) == (diff + 1.0) * DateInterval)
  {
    LastDayOfMonth(d.year, d.month);
    var n := DaysInMonth(d.year, d.month) as real;
    assert 0.0 < d.day as real / n <= 1.0;
  }

  /** Later days are further right. */
  lemma GetXMonotone(startYear: int, startMonth: int, a: Date, b: Date)
    requires Valid(a) && Valid(b) && Before(a, b) && a.year != 0 && b.year != 0
    ensures GetX(startYear, startMonth, a.year, a.month, a.day) < GetX(startYear, startMonth, b.year, b.month, b.day)
  {
    GetXInMonth(startYear, startMonth, a);
    GetXInMonth(startYear, startMonth, b);
    if a.year == b.year && a.month == b.month {
      LastDayOfMonth(a.year, a.month);
      var n := DaysInMonth(a.year, a.month) as real;
      assert a.day as real / n < b.day as real / n;
    } else {
      assert AbsMonth(a.year, a.month) < AbsMonth(b.year, b.month);
    }
  }

  // ---------------------------------------------------------------------------
  // Axis bounds

  function StartMs(e: Event): real { e.start.ms as real }
  function NegEndMs(e: Event): real { -(e.end.ms as real) }

  /** `getStartDate`: the (year, 1-based month) of the earliest start, or of
      today when there are no events. */
  function StartMonth(events: seq<Event>, today: Instant): (r: (int, int))
    requires forall e :: e in events ==> ValidEvent(e)
    ensures |events| == 0 ==> r == (today.date.year, today.date.month)
    ensures |events| > 0 ==>
      exists e :: e in events && r == (e.start.date.year, e.start.date.month)
        && forall e' :: e' in events ==> e.start.ms <= e'.start.ms
  {
    if |events| == 0 then (today.date.year, today.date.month)
    else
      var first := Sorting.SortBy(events, StartMs)[0];
      Sorting.SortByHead(events, StartMs);
      (first.start.date.year, first.start.date.month)
  }

  /** `getEndDate`: the month after the later of today and the latest event
      end (so the month may be 13). */
  function EndMonth(events: seq<Event>, today: Instant): (r: (int, int))
    requires forall e :: e in events ==> ValidEvent(e)
    ensures |events| == 0 ==> r == (today.date.year, today.date.month + 1)
    ensures |events| > 0 ==>
      exists t :: (t == today || exists e :: e in events && t == e.end)
        && r == (t.date.year, t.date.month + 1)
        && today.ms <= t.ms && forall e :: e in events ==> e.end.ms <= t.ms
  {
    if |events| == 0 then (today.date.year, today.date.month + 1)
    else
      var latest := Sorting.SortBy(events, NegEndMs)[0];
      Sorting.SortByHead(events, NegEndMs);
      var target := if Later(today, latest.end) then today else latest.end;
      (target.date.year, target.date.month + 1)
  }

  // ---------------------------------------------------------------------------
  // The month axis

  /** The month-axis loop: one tick per month for i in 0..diff, tick i at
      x = 100 i for `new Date(startYear, startMonth - 1 + i)`, labelled
      "YYYY.MM". */
  function Axis(startYear: int, startMonth: int, endYear: int, endMonth: int): (r: seq<Tick>)
    ensures |r| == if MonthDiff(startYear, startMonth, endYear, endMonth) < 0 then 0
                   else MonthDiff(startYear, startMonth, endYear, endMonth) + 1
    ensures forall i :: 0 <= i < |r| ==> r[i].x == i as real * DateInterval && 1 <= r[i].month <= 12
    ensures forall i :: 0 <= i < |r| ==> r[i].text == IntToString(r[i].year) + "." + Pad2(r[i].month)
    ensures !(0 <= startYear <= 99) ==> forall i :: 0 <= i < |r| ==>
      AbsMonth(r[i].year, r[i].month) == AbsMonth(startYear, startMonth) + i
  {
    var n := MonthDiff(startYear, startMonth, endYear, endMonth);
    var count := if n < 0 then 0 else n + 1;
    seq(count, i => AxisTick(startYear, startMonth, i))
  }

  function AxisTick(startYear: int, startMonth: int, i: int): (t: Tick)
    ensures 1 <= t.month <= 12 && t.x == i as real * DateInterval
    ensures !(0 <= startYear <= 99) ==> AbsMonth(t.year, t.month) == AbsMonth(startYear, startMonth) + i
  {
    var ym := MonthOf(ConstructorYear(startYear), startMonth - 1 + i);
    Tick(IntToString(ym.0) + "." + Pad2(ym.1), ym.0, ym.1, i as real * DateInterval)
  }

  /** For a year of 100 or later, the axis runs from the first event's month
      to the month after the later of today and the last end, one tick per
      month. */
  lemma AxisSpan(events: seq<Event>, today: Instant)
    requires forall e :: e in events ==> ValidEvent(e)
    requires ValidInstant(today)
    requires StartMonth(events, today).0 >= 100
    ensures var s := StartMonth(events, today);
      var e := EndMonth(events, today);
      var ax := Axis(s.0, s.1, e.0, e.1);
      |ax| > 0 ==> AbsMonth(ax[|ax| - 1].year, ax[|ax| - 1].month) == AbsMonth(e.0, e.1)
  {
  }

  // ---------------------------------------------------------------------------
  // Order of the events and grouping by category

  /** The order the events end up in: `getStartDate` sorts them by start,
      `getEndDate` by end descending, and the grouping sorts them by start
      again; every sort is stable, so equal starts end up latest end first. */
  function Ordered(events: seq<Event>): (r: seq<Event>)
    ensures multiset(r) == multiset(events)
    ensures forall i, j :: 0 <= i < j < |r| ==> r[i].start.ms <= r[j].start.ms
    ensures forall i, j :: 0 <= i < j < |r| && r[i].start.ms == r[j].start.ms ==>
      r[j].end.ms <= r[i].end.ms
  {
    var mid := Sorting.SortBy(Sorting.SortBy(events, StartMs), NegEndMs);
    var r := Sorting.SortBy(mid, StartMs);
    ByStart(r);
    LatestEndFirst(mid, r);
    r
  }

  lemma ByStart(r: seq<Event>)
    requires Sorting.SortedBy(r, StartMs)
    ensures forall i, j :: 0 <= i < j < |r| ==> r[i].start.ms <= r[j].start.ms
  {
    assert forall i, j :: 0 <= i < j < |r| ==> StartMs(r[i]) <= StartMs(r[j]);
  }

  /** Re-sorting by start a list already sorted latest end first keeps equal
      starts latest end first, the sort being stable. */
  lemma LatestEndFirst(mid: seq<Event>, r: seq<Event>)
    requires Sorting.SortedBy(mid, NegEndMs) && r == Sorting.SortBy(mid, StartMs)
    ensures forall i, j :: 0 <= i < j < |r| && r[i].start.ms == r[j].start.ms ==>
      r[j].end.ms <= r[i].end.ms
  {
    forall i, j | 0 <= i < j < |r| && r[i].start.ms == r[j].start.ms
      ensures r[j].end.ms <= r[i].end.ms
    {
      var v := StartMs(r[i]);
      Sorting.SortByStable(mid, StartMs, v);
      Sorting.WithKeySorted(mid, StartMs, v, NegEndMs);
      Sorting.PairWithKey(r, StartMs, NegEndMs, i, j);
    }
  }

  datatype Group = Group(category: string, events: seq<Event>)

  /** The events of one category, in order. */
  function Filter(events: seq<Event>, category: string): (r: seq<Event>)
    ensures forall e :: e in r ==> e in events && e.category == category
    ensures forall e :: e in events && e.category == category ==> e in r
  {
    if |events| == 0 then []
    else
      var n := |events| - 1;
      assert forall e :: e in events ==> e in events[..n] || e == events[n];
      Filter(events[..n], category) + (if events[n].category == category then [events[n]] else [])
  }

  function FindGroup(gs: seq<Group>, category: string): (k: Option<nat>)
    ensures k.Some? ==> k.value < |gs| && gs[k.value].category == category
    ensures k.None? ==> forall i :: 0 <= i < |gs| ==> gs[i].category != category
  {
    if |gs| == 0 then None
    else if gs[0].category == category then Some(0)
    else match FindGroup(gs[1..], category)
      case None => None
      case Some(k) => Some(k + 1)
  }

  /** One step of the grouping `forEach`: onto the category's list if it has
      one, else a new list at the end. */
  function AddToGroups(gs: seq<Group>, e: Event): seq<Group>
  {
    match FindGroup(gs, e.category)
    case None => gs + [Group(e.category, [e])]
    case Some(i) => gs[i := gs[i].(events := gs[i].events + [e])]
  }

  /** The category object, in order of first appearance. */
  function GroupBy(events: seq<Event>): seq<Group>
  {
    if |events| == 0 then [] else AddToGroups(GroupBy(events[..|events| - 1]), events[|events| - 1])
  }

  /** What grouping guarantees about a list of events: categories distinct,
      each group non-empty and holding exactly its category's events in
      order, and every event's category present. */
  ghost predicate Partitions(gs: seq<Group>, events: seq<Event>)
  {
    && (forall i, j :: 0 <= i < j < |gs| ==> gs[i].category != gs[j].category)
    && Exact(gs, events)
    && Covers(gs, events)
    && (forall i :: 0 <= i < |gs| ==> |gs[i].events| > 0)
  }

  ghost predicate Exact(gs: seq<Group>, events: seq<Event>)
  {
    forall i :: 0 <= i < |gs| ==> gs[i].events == Filter(events, gs[i].category)
  }

  ghost predicate Covers(gs: seq<Group>, events: seq<Event>)
  {
    forall e :: e in events ==> exists i :: 0 <= i < |gs| && gs[i].category == e.category
  }

  lemma FilterSnoc(events: seq<Event>, e: Event, category: string)
    ensures Filter(events + [e], category) == Filter(events, category) + (if e.category == category then [e] else [])
  {
    assert (events + [e])[..|events|] == events;
  }

  /** A category with no group has no events yet. */
  lemma FilterAbsent(gs: seq<Group>, events: seq<Event>, category: string)
    requires Partitions(gs, events)
    requires forall i :: 0 <= i < |gs| ==> gs[i].category != category
    ensures Filter(events, category) == []
  {
    forall e | e in events
      ensures e.category != category
    {
      var i :| 0 <= i < |gs| && gs[i].category == e.category;
    }
    FilterNoMatch(events, category);
  }

  lemma {:induction false} FilterNoMatch(events: seq<Event>, category: string)
    requires forall e :: e in events ==> e.category != category
    ensures Filter(events, category) == []
    decreases |events|
  {
    if |events| > 0 {
      var n := |events| - 1;
      assert forall e :: e in events[..n] ==> e in events;
      FilterNoMatch(events[..n], category);
    }
  }

  lemma AddToGroupsNew(gs: seq<Group>, events: seq<Event>, e: Event)
    requires Partitions(gs, events)
    requires FindGroup(gs, e.category).None?
    ensures Partitions(AddToGroups(gs, e), events + [e])
  {
    assert AddToGroups(gs, e) == gs + [Group(e.category, [e])];
    FilterAbsent(gs, events, e.category);
    AppendExact(gs, events, e);
    AppendCovers(gs, events, e);
    AppendShape(gs, Group(e.category, [e]));
  }

  lemma AppendShape(gs: seq<Group>, g: Group)
    requires forall i, j :: 0 <= i < j < |gs| ==> gs[i].category != gs[j].category
    requires forall i :: 0 <= i < |gs| ==> |gs[i].events| > 0 && gs[i].category != g.category
    requires |g.events| > 0
    ensures forall i, j :: 0 <= i < j < |gs + [g]| ==> (gs + [g])[i].category != (gs + [g])[j].category
    ensures forall i :: 0 <= i < |gs + [g]| ==> |(gs + [g])[i].events| > 0
  {
  }

  lemma AppendExact(gs: seq<Group>, events: seq<Event>, e: Event)
    requires Exact(gs, events) && Filter(events, e.category) == []
    requires forall i :: 0 <= i < |gs| ==> gs[i].category != e.category
    ensures Exact(gs + [Group(e.category, [e])], events + [e])
  {
    var r := gs + [Group(e.category, [e])];
    forall i | 0 <= i < |r|
      ensures r[i].events == Filter(events + [e], r[i].category)
    {
      FilterSnoc(events, e, r[i].category);
      if i < |gs| {
        assert r[i] == gs[i];
      }
    }
  }

  lemma AppendCovers(gs: seq<Group>, events: seq<Event>, e: Event)
    requires Covers(gs, events)
    ensures Covers(gs + [Group(e.category, [e])], events + [e])
  {
    var r := gs + [Group(e.category, [e])];
    forall x | x in events + [e]
      ensures exists i :: 0 <= i < |r| && r[i].category == x.category
    {
      if x in events {
        var i :| 0 <= i < |gs| && gs[i].category == x.category;
        assert r[i] == gs[i];
      } else {
        assert r[|gs|].category == x.category;
      }
    }
  }

  lemma AddToGroupsExisting(gs: seq<Group>, events: seq<Event>, e: Event, k: nat)
    requires Partitions(gs, events)
    requires FindGroup(gs, e.category) == Some(k)
    ensures Partitions(AddToGroups(gs, e), events + [e])
  {
    assert AddToGroups(gs, e) == gs[k := gs[k].(events := gs[k].events + [e])];
    UpdateExact(gs, events, e, k);
    UpdateCovers(gs, events, e, k);
  }

  lemma UpdateExact(gs: seq<Group>, events: seq<Event>, e: Event, k: nat)
    requires Exact(gs, events) && k < |gs| && gs[k].category == e.category
    requires forall i :: 0 <= i < |gs| && i != k ==> gs[i].category != e.category
    ensures Exact(gs[k := gs[k].(events := gs[k].events + [e])], events + [e])
  {
    var r := gs[k := gs[k].(events := gs[k].events + [e])];
    forall i | 0 <= i < |r|
      ensures r[i].events == Filter(events + [e], r[i].category)
    {
      FilterSnoc(events, e, r[i].category);
    }
  }

  lemma UpdateCovers(gs: seq<Group>, events: seq<Event>, e: Event, k: nat)
    requires Covers(gs, events) && k < |gs| && gs[k].category == e.category
    ensures Covers(gs[k := gs[k].(events := gs[k].events + [e])], events + [e])
  {
    var r := gs[k := gs[k].(events := gs[k].events + [e])];
    forall x | x in events + [e]
      ensures exists i :: 0 <= i < |r| && r[i].category == x.category
    {
      if x in events {
        var i :| 0 <= i < |gs| && gs[i].category == x.category;
        assert r[i].category == gs[i].category;
      } else {
        assert r[k].category == x.category;
      }
    }
  }

  /** Grouping: one group per category present, categories distinct and in
      order of first appearance, and each group holding exactly that
      category's events in their original order. */
  lemma {:induction false} GroupByPartition(events: seq<Event>)
    ensures Partitions(GroupBy(events), events)
    decreases |events|
  {
    if |events| > 0 {
      var n := |events| - 1;
      GroupByPartition(events[..n]);
      assert events == events[..n] + [events[n]];
      match FindGroup(GroupBy(events[..n]), events[n].category)
      case None => AddToGroupsNew(GroupBy(events[..n]), events[..n], events[n]);
      case Some(k) => AddToGroupsExisting(GroupBy(events[..n]), events[..n], events[n], k);
    }
  }

  predicate StartSorted(s: seq<Event>)
  {
    forall i, j :: 0 <= i < j < |s| ==> s[i].start.ms <= s[j].start.ms
  }

  /** A category's events keep the start order of the sorted list. */
  lemma {:induction false} FilterSorted(events: seq<Event>, category: string)
    requires StartSorted(events)
    ensures StartSorted(Filter(events, category))
    decreases |events|
  {
    if |events| > 0 {
      var n := |events| - 1;
      var p := Filter(events[..n], category);
      assert StartSorted(events[..n]) by {
        forall i, j | 0 <= i < j < n
          ensures events[..n][i].start.ms <= events[..n][j].start.ms
        {
          assert events[..n][i] == events[i] && events[..n][j] == events[j];
        }
      }
      FilterSorted(events[..n], category);
      if events[n].category == category {
        var r := p + [events[n]];
        assert Filter(events, category) == r;
        forall i, j | 0 <= i < j < |r|
          ensures r[i].start.ms <= r[j].start.ms
        {
          if j == |p| {
            assert r[i] == p[i] && p[i] in p;
            assert p[i] in events[..n];
            var k :| 0 <= k < n && events[..n][k] == p[i];
            assert events[k] == p[i] && r[j] == events[n];
            assert events[k].start.ms <= events[n].start.ms;
          } else {
            assert r[i] == p[i] && r[j] == p[j];
          }
        }
      } else {
        assert Filter(events, category) == p;
      }
    }
  }

  // ---------------------------------------------------------------------------
  // Lane packing

  /** The lane test: the event may follow the lane's last event only if it
      starts more than three days after that event ends (an event that starts
      before the last end is rejected by the first test already). */
  predicate Fits(lane: seq<Item>, it: Item)
    requires |lane| > 0
    ensures Fits(lane, it) <==> it.start.ms - lane[|lane| - 1].end.ms > ThreeDaysMs
  {
    var last := lane[|lane| - 1];
    !Later(last.end, it.start) && !(it.start.ms - last.end.ms <= ThreeDaysMs)
  }

  /** The lane the `while (true)` loop settles on: the first lane from `index`
      that fits, or a new lane after the last. */
  function FirstFit(lanes: seq<seq<Item>>, it: Item, index: nat): (k: nat)
    requires index <= |lanes|
    requires forall l :: l in lanes ==> |l| > 0
    ensures index <= k <= |lanes|
    ensures forall j :: index <= j < k ==> !Fits(lanes[j], it)
    ensures k < |lanes| ==> Fits(lanes[k], it)
    decreases |lanes| - index
  {
    if index == |lanes| then index
    else if Fits(lanes[index], it) then index
    else FirstFit(lanes, it, index + 1)
  }

  /** One event of the packing loop: appended to the first lane that fits, or
      opening a new lane. */
  function Place(lanes: seq<seq<Item>>, it: Item): (r: seq<seq<Item>>)
    requires forall l :: l in lanes ==> |l| > 0
    ensures forall l :: l in r ==> |l| > 0
  {
    var k := FirstFit(lanes, it, 0);
    if k == |lanes| then lanes + [[it]] else lanes[k := lanes[k] + [it]]
  }

  function Pack(items: seq<Item>): (r: seq<seq<Item>>)
    ensures forall l :: l in r ==> |l| > 0
  {
    if |items| == 0 then [] else Place(Pack(items[..|items| - 1]), items[|items| - 1])
  }

  /** The first-fit rule: the event goes to lane k, every earlier lane
      rejected it, lane k accepted it or is new, and no other lane changes. */
  lemma PlaceFirstFit(lanes: seq<seq<Item>>, it: Item)
    requires forall l :: l in lanes ==> |l| > 0
    ensures var r := Place(lanes, it);
      exists k :: 0 <= k <= |lanes|
        && (forall j :: 0 <= j < k ==> !Fits(lanes[j], it))
        && (k < |lanes| ==> Fits(lanes[k], it) && r == lanes[k := lanes[k] + [it]])
        && (k == |lanes| ==> r == lanes + [[it]])
  {
    var k := FirstFit(lanes, it, 0);
    assert && (forall j :: 0 <= j < k ==> !Fits(lanes[j], it))
           && (k < |lanes| ==> Fits(lanes[k], it) && Place(lanes, it) == lanes[k := lanes[k] + [it]])
           && (k == |lanes| ==> Place(lanes, it) == lanes + [[it]]);
  }

  /** Every consecutive pair in a lane is more than three days apart. */
  predicate Spaced(lane: seq<Item>)
  {
    forall i :: 0 <= i < |lane| - 1 ==> lane[i + 1].start.ms - lane[i].end.ms > ThreeDaysMs
  }

  function Flatten(lanes: seq<seq<Item>>): seq<Item>
  {
    if |lanes| == 0 then [] else Flatten(lanes[..|lanes| - 1]) + lanes[|lanes| - 1]
  }

  lemma {:induction false} FlattenUpdate(lanes: seq<seq<Item>>, k: nat, it: Item)
    requires k < |lanes|
    ensures multiset(Flatten(lanes[k := lanes[k] + [it]])) == multiset(Flatten(lanes)) + multiset{it}
    decreases |lanes|
  {
    var n := |lanes| - 1;
    var r := lanes[k := lanes[k] + [it]];
    assert Flatten(r) == Flatten(r[..n]) + r[n];
    assert Flatten(lanes) == Flatten(lanes[..n]) + lanes[n];
    if k < n {
      FlattenUpdate(lanes[..n], k, it);
      assert r[..n] == lanes[..n][k := lanes[k] + [it]];
    } else {
      assert r[..n] == lanes[..n];
    }
  }

  /** Packing keeps every event exactly once and spaces every lane. */
  lemma PackInvariant(items: seq<Item>)
    ensures multiset(Flatten(Pack(items))) == multiset(items)
    ensures forall l :: l in Pack(items) ==> Spaced(l)
  {
    PackContents(items);
    PackSpaced(items);
  }

  lemma {:induction false} PackContents(items: seq<Item>)
    ensures multiset(Flatten(Pack(items))) == multiset(items)
    decreases |items|
  {
    if |items| > 0 {
      PackContents(items[..|items| - 1]);
      PlaceMultiset(Pack(items[..|items| - 1]), items[|items| - 1]);
      assert items == items[..|items| - 1] + [items[|items| - 1]];
    }
  }

  lemma {:induction false} PackSpaced(items: seq<Item>)
    ensures forall l :: l in Pack(items) ==> Spaced(l)
    decreases |items|
  {
    if |items| > 0 {
      PackSpaced(items[..|items| - 1]);
      PlaceSpaced(Pack(items[..|items| - 1]), items[|items| - 1]);
    }
  }

  /** Placing an event adds exactly that event to the lanes' contents. */
  lemma PlaceMultiset(lanes: seq<seq<Item>>, it: Item)
    requires forall l :: l in lanes ==> |l| > 0
    ensures multiset(Flatten(Place(lanes, it))) == multiset(Flatten(lanes)) + multiset{it}
  {
    var k := FirstFit(lanes, it, 0);
    if k == |lanes| {
      assert (lanes + [[it]])[..|lanes|] == lanes;
    } else {
      FlattenUpdate(lanes, k, it);
    }
  }

  /** Placing an event keeps every lane spaced. */
  lemma PlaceSpaced(lanes: seq<seq<Item>>, it: Item)
    requires forall l :: l in lanes ==> |l| > 0 && Spaced(l)
    ensures forall l :: l in Place(lanes, it) ==> Spaced(l)
  {
    var k := FirstFit(lanes, it, 0);
    if k < |lanes| {
      assert lanes[k] in lanes;
      SpacedSnoc(lanes[k], it);
      forall l | l in Place(lanes, it)
        ensures Spaced(l)
      {
        var j :| 0 <= j < |lanes| && lanes[k := lanes[k] + [it]][j] == l;
        if j != k {
          assert lanes[j] in lanes;
        }
      }
    }
  }

  lemma SpacedSnoc(lane: seq<Item>, it: Item)
    requires |lane| > 0 && Spaced(lane) && Fits(lane, it)
    ensures Spaced(lane + [it])
  {
    var r := lane + [it];
    forall i | 0 <= i < |r| - 1
      ensures r[i + 1].start.ms - r[i].end.ms > ThreeDaysMs
    {
      if i < |lane| - 1 {
        assert r[i] == lane[i] && r[i + 1] == lane[i + 1];
      }
    }
  }

  /** Lanes keep the start order of the events they are fed. */
  lemma {:induction false} PackKeepsOrder(items: seq<Item>)
    requires forall i, j :: 0 <= i < j < |items| ==> items[i].start.ms <= items[j].start.ms
    ensures forall l: seq<Item> :: l in Pack(items) ==>
      forall i, j :: 0 <= i < j < |l| ==> l[i].start.ms <= l[j].start.ms
    ensures forall l: seq<Item>, x :: l in Pack(items) && x in l ==> x in items
    decreases |items|
  {
    if |items| > 0 {
      PackKeepsOrder(items[..|items| - 1]);
      PlaceKeepsOrder(Pack(items[..|items| - 1]), items[|items| - 1], items);
    }
  }

  /** Placing an event that starts no earlier than every placed event keeps
      every lane in start order, and the lanes draw only on `pool`. */
  lemma PlaceKeepsOrder(lanes: seq<seq<Item>>, it: Item, pool: seq<Item>)
    requires |pool| > 0 && it == pool[|pool| - 1]
    requires forall i, j :: 0 <= i < j < |pool| ==> pool[i].start.ms <= pool[j].start.ms
    requires forall l :: l in lanes ==> |l| > 0
    requires forall l: seq<Item> :: l in lanes ==> forall i, j :: 0 <= i < j < |l| ==> l[i].start.ms <= l[j].start.ms
    requires forall l: seq<Item>, x :: l in lanes && x in l ==> x in pool[..|pool| - 1]
    ensures forall l: seq<Item> :: l in Place(lanes, it) ==>
      forall i, j :: 0 <= i < j < |l| ==> l[i].start.ms <= l[j].start.ms
    ensures forall l: seq<Item>, x :: l in Place(lanes, it) && x in l ==> x in pool
  {
    assert forall x :: x in pool[..|pool| - 1] ==> x.start.ms <= it.start.ms && x in pool;
    assert it in pool;
    var k := FirstFit(lanes, it, 0);
    forall l: seq<Item> | l in Place(lanes, it)
      ensures forall i, j :: 0 <= i < j < |l| ==> l[i].start.ms <= l[j].start.ms
      ensures forall x :: x in l ==> x in pool
    {
      var j :| 0 <= j < |Place(lanes, it)| && Place(lanes, it)[j] == l;
      if k < |lanes| && j == k {
        assert lanes[k] in lanes;
        SortedSnoc(lanes[k], it);
        assert forall x :: x in l ==> x in lanes[k] || x == it;
      } else if j < |lanes| {
        assert l == lanes[j];
        assert lanes[j] in lanes;
      }
    }
  }

  lemma SortedSnoc(lane: seq<Item>, it: Item)
    requires forall i, j :: 0 <= i < j < |lane| ==> lane[i].start.ms <= lane[j].start.ms
    requires forall x :: x in lane ==> x.start.ms <= it.start.ms
    ensures forall i, j :: 0 <= i < j < |lane + [it]| ==> (lane + [it])[i].start.ms <= (lane + [it])[j].start.ms
  {
    assert forall i :: 0 <= i < |lane| ==> (lane + [it])[i] == lane[i] && lane[i] in lane;
  }

  // ---------------------------------------------------------------------------
  // Items, lanes on the page, point events

  function DateLabel(d: Date): string
  {
    IntToString(d.year) + "/" + Pad2(d.month) + "/" + Pad2(d.day)
  }

  /** The item built for an event: its texts and its x range on the axis. */
  function ItemOf(e: Event, startYear: int, startMonth: int): (it: Item)
    requires ValidEvent(e)
    ensures it.start == e.start && it.end == e.end && it.category == e.category
  {
    Item(e.category, e.text, e.color, DateLabel(e.start.date), DateLabel(e.end.date), e.start, e.end,
         GetX(startYear, startMonth, e.start.date.year, e.start.date.month, e.start.date.day),
         GetX(startYear, startMonth, e.end.date.year, e.end.date.month, e.end.date.day))
  }

  function ItemsOf(events: seq<Event>, startYear: int, startMonth: int): (r: seq<Item>)
    requires forall e :: e in events ==> ValidEvent(e)
    ensures |r| == |events| && forall i :: 0 <= i < |r| ==> r[i] == ItemOf(events[i], startYear, startMonth)
  {
    seq(|events|, i requires 0 <= i < |events| => ItemOf(events[i], startYear, startMonth))
  }

  /** Lines for the lanes of one more category, numbered after the lines
      already there. */
  function Stack(lines: seq<Line>, lanes: seq<seq<Item>>): (r: seq<Line>)
    ensures |r| == |lines| + |lanes| && r[..|lines|] == lines
    ensures forall i :: 0 <= i < |lanes| ==> r[|lines| + i] == Line(LineInterval * 5.0 + (|lines| + i) as real * LineInterval, lanes[i])
  {
    lines + seq(|lanes|, i requires 0 <= i < |lanes| => Line(LineInterval * 5.0 + (|lines| + i) as real * LineInterval, lanes[i]))
  }

  /** The lane layout over all groups in order. */
  function Lines(groups: seq<Group>, startYear: int, startMonth: int): (r: seq<Line>)
    requires forall g :: g in groups ==> forall e :: e in g.events ==> ValidEvent(e)
    ensures forall g :: 0 <= g < |r| ==> r[g].y == 200.0 + 40.0 * g as real
    ensures forall g :: 0 <= g < |r| ==> |r[g].events| > 0
  {
    if |groups| == 0 then []
    else
      assert groups[|groups| - 1] in groups;
      StackSpacing(Lines(groups[..|groups| - 1], startYear, startMonth),
                   Pack(ItemsOf(groups[|groups| - 1].events, startYear, startMonth)));
      Stack(Lines(groups[..|groups| - 1], startYear, startMonth),
            Pack(ItemsOf(groups[|groups| - 1].events, startYear, startMonth)))
  }

  /** Stacking non-empty lanes under evenly spaced non-empty lines keeps the
      lines evenly spaced and non-empty. */
  lemma StackSpacing(lines: seq<Line>, lanes: seq<seq<Item>>)
    requires forall g :: 0 <= g < |lines| ==> lines[g].y == 200.0 + 40.0 * g as real && |lines[g].events| > 0
    requires forall l :: l in lanes ==> |l| > 0
    ensures forall g :: 0 <= g < |Stack(lines, lanes)| ==>
      Stack(lines, lanes)[g].y == 200.0 + 40.0 * g as real && |Stack(lines, lanes)[g].events| > 0
  {
    var r := Stack(lines, lanes);
    forall g | 0 <= g < |r|
      ensures r[g].y == 200.0 + 40.0 * g as real && |r[g].events| > 0
    {
      if g < |lines| {
        assert r[g] == r[..|lines|][g] == lines[g];
      } else {
        assert r[|lines| + (g - |lines|)].events == lanes[g - |lines|];
        assert lanes[g - |lines|] in lanes;
      }
    }
  }

  /** The svg height: five line intervals above the lanes. */
  function Height(lines: seq<Line>): real
  {
    (|lines| + 5) as real * LineInterval
  }

  /** The whole effect: axis ticks, lanes and point events. */
  datatype Chart = Chart(ticks: seq<Tick>, lines: seq<Line>, points: seq<PointItem>, todayX: real)

  function PointOf(p: PointEvent, startYear: int, startMonth: int): (r: PointItem)
    requires ValidInstant(p.date)
    ensures r.width == 15.0 * |p.text| as real && r.text == p.text && r.color == p.color
  {
    PointItem(p.text, p.color, GetX(startYear, startMonth, p.date.date.year, p.date.date.month, p.date.date.day),
              |p.text| as real * 15.0)
  }

  /** Every event of every group is one of the input events. */
  lemma GroupedEventsValid(events: seq<Event>)
    requires forall e :: e in events ==> ValidEvent(e)
    ensures forall g :: g in GroupBy(Ordered(events)) ==> forall x :: x in g.events ==> ValidEvent(x)
  {
    var ordered := Ordered(events);
    var groups := GroupBy(ordered);
    GroupByPartition(ordered);
    forall g, x | g in groups && x in g.events
      ensures ValidEvent(x)
    {
      var i :| 0 <= i < |groups| && groups[i] == g;
      assert x in Filter(ordered, g.category);
      assert x in multiset(ordered);
    }
  }

  /** The category groups of the effect, over the events in their final order. */
  function Groups(events: seq<Event>): (gs: seq<Group>)
    requires forall e :: e in events ==> ValidEvent(e)
    ensures forall g :: g in gs ==> forall x :: x in g.events ==> ValidEvent(x)
    ensures Partitions(gs, Ordered(events))
  {
    GroupedEventsValid(events);
    GroupByPartition(Ordered(events));
    GroupBy(Ordered(events))
  }

  function Build(events: seq<Event>, points: seq<PointEvent>, today: Instant): (c: Chart)
    requires forall e :: e in events ==> ValidEvent(e)
    requires forall p :: p in points ==> ValidInstant(p.date)
    requires ValidInstant(today)
    ensures |c.points| == |points|
    ensures forall g :: 0 <= g < |c.lines| ==> c.lines[g].y == 200.0 + 40.0 * g as real
    ensures |c.lines| > 0 ==> Height(c.lines) == c.lines[|c.lines| - 1].y + LineInterval
  {
    var s := StartMonth(events, today);
    var e := EndMonth(events, today);
    var groups := Groups(events);
    var lines := Lines(groups, s.0, s.1);
    Chart(Axis(s.0, s.1, e.0, e.1), lines, PointItems(points, s.0, s.1),
          GetX(s.0, s.1, today.date.year, today.date.month, today.date.day))
  }

  /** The point events, in order. */
  function PointItems(points: seq<PointEvent>, startYear: int, startMonth: int): (r: seq<PointItem>)
    requires forall p :: p in points ==> ValidInstant(p.date)
    ensures |r| == |points|
    ensures forall i :: 0 <= i < |points| ==> r[i] == PointOf(points[i], startYear, startMonth)
  {
    seq(|points|, i requires 0 <= i < |points| => PointOf(points[i], startYear, startMonth))
  }

  /** Items keep their events' order and categories. */
  lemma ItemsKeepOrder(evs: seq<Event>, category: string, startYear: int, startMonth: int)
    requires forall e :: e in evs ==> ValidEvent(e) && e.category == category
    requires StartSorted(evs)
    ensures var items := ItemsOf(evs, startYear, startMonth);
      && (forall i, j :: 0 <= i < j < |items| ==> items[i].start.ms <= items[j].start.ms)
      && (forall x :: x in items ==> x.category == category)
  {
    var items := ItemsOf(evs, startYear, startMonth);
    forall x | x in items
      ensures x.category == category
    {
      var k :| 0 <= k < |items| && items[k] == x;
      assert evs[k] in evs;
    }
  }

  /** The lanes of each category: every one of its events in exactly one lane,
      lanes in start order, and consecutive events of a lane more than three
      days apart. */
  lemma CategoryLanes(events: seq<Event>, startYear: int, startMonth: int, g: nat)
    requires forall e :: e in events ==> ValidEvent(e)
    requires g < |Groups(events)|
    ensures var gr := Groups(events)[g];
      var items := ItemsOf(gr.events, startYear, startMonth);
      var lanes := Pack(items);
      && multiset(Flatten(lanes)) == multiset(items)
      && (forall l :: l in lanes ==> Spaced(l))
      && (forall l: seq<Item> :: l in lanes ==> forall i, j :: 0 <= i < j < |l| ==> l[i].start.ms <= l[j].start.ms)
      && (forall l: seq<Item>, x :: l in lanes && x in l ==> x.category == gr.category)
  {
    var groups := Groups(events);
    var gr := groups[g];
    assert gr in groups;
    FilterSorted(Ordered(events), gr.category);
    assert gr.events == Filter(Ordered(events), gr.category);
    ItemsKeepOrder(gr.events, gr.category, startYear, startMonth);
    var items := ItemsOf(gr.events, startYear, startMonth);
    PackInvariant(items);
    PackKeepsOrder(items);
  }

  // ---------------------------------------------------------------------------
  // The tooltip and its delayed reset

  /** The tooltip: the hovered item, if any, and where it was hovered. The
      `timer` slot holds one timeout id: `latest` says whether that timeout is
      still pending, `older` counts pending timeouts whose ids were
      overwritten and can no longer be cancelled. */
  datatype Tip = Tip(data: Option<Item>, x: real, y: real, latest: bool, older: nat)

  const InitialTip: Tip := Tip(None, 0.0, 0.0, false, 0)

  /** Timeouts armed and not yet run. */
  function Pending(t: Tip): nat { t.older + (if t.latest then 1 else 0) }

  /** `setTooltipDataFn`: cancels the timeout in the slot and shows the item
      at the pointer. */
  function ShowTip(t: Tip, it: Item, x: real, y: real): (r: Tip)
    ensures r.data == Some(it) && r.x == x && r.y == y
    ensures !r.latest && r.older == t.older
    ensures Pending(r) == Pending(t) - (if t.latest then 1 else 0)
  {
    Tip(Some(it), x, y, false, t.older)
  }

  /** `resetTooltipDataFn`: arms a 500 ms timeout and stores its id in the
      slot; the tooltip itself does not change yet. */
  function HideTipLater(t: Tip): (r: Tip)
    ensures r.data == t.data && r.x == t.x && r.y == t.y
    ensures r.latest && Pending(r) == Pending(t) + 1
  {
    Tip(t.data, t.x, t.y, true, t.older + (if t.latest then 1 else 0))
  }

  /** The earliest pending timeout runs: the item is dropped and the position
      kept. With nothing pending nothing happens. */
  function TipTimeout(t: Tip): (r: Tip)
    ensures Pending(t) == 0 ==> r == t
    ensures Pending(t) > 0 ==> r.data.None? && r.x == t.x && r.y == t.y && Pending(r) == Pending(t) - 1
  {
    if t.older > 0 then Tip(None, t.x, t.y, t.latest, t.older - 1)
    else if t.latest then Tip(None, t.x, t.y, false, 0)
    else t
  }

  /** Leaving an item hides its tooltip once the timeout runs, at the same
      position. */
  lemma LeaveHidesTip(t: Tip, it: Item, x: real, y: real)
    requires t.older == 0
    ensures var r := TipTimeout(HideTipLater(ShowTip(t, it, x, y)));
      r.data.None? && r.x == x && r.y == y && Pending(r) == 0
  {
  }

  /** Entering another item before the timeout runs cancels it: the new item
      stays shown, and with no other timeout pending nothing can hide it. */
  lemma EnterCancelsHide(t: Tip, it: Item, x: real, y: real)
    requires Pending(t) == 0
    ensures var r := ShowTip(HideTipLater(t), it, x, y);
      Pending(r) == 0 && TipTimeout(r) == r && r.data == Some(it)
  {
  }

  /** Hovering alternates enter and leave, which keeps every overwritten
      timeout cancelled: from the initial tooltip, no timeout is ever left
      outside the slot. */
  lemma AlternatingKeepsSlot(t: Tip, it: Item, x: real, y: real)
    requires t.older == 0
    ensures HideTipLater(ShowTip(t, it, x, y)).older == 0
    ensures ShowTip(HideTipLater(ShowTip(t, it, x, y)), it, x, y).older == 0
  {
  }

  /** Two leaves without an enter between them overwrite the slot: the first
      timeout can no longer be cancelled, and it hides the item entered
      next. */
  lemma SecondLeaveOverwritesSlot(t: Tip, it: Item, x: real, y: real)
    requires t.older == 0
    ensures var r := ShowTip(HideTipLater(HideTipLater(t)), it, x, y);
      r.data == Some(it) && TipTimeout(r).data.None?
  {
  }
}
