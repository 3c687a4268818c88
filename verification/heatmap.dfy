/** The heat map: tick-label shortening, the square cell size and the centring
    of the grid, the nine-value colour legend obtained by three rounds of
    midpoint bisection, and the colour of each cell and of its label. */
module HeatMap {
  import opened Common
  import Sorting

  const TopSpace: real := 20.0
  const ColorRangeWidth: real := 100.0
  const DefaultYTickWidth: real := 80.0
  const DefaultXTickHeight: real := 30.0

  datatype Size = Size(width: real, height: real)

  // ---------------------------------------------------------------------------
  // Tick labels

  /** `tickFormatter`: a label longer than 10 characters keeps its first 9 and
      gains "...". */
  function TickLabel(tick: string): (r: string)
    ensures |tick| <= 10 ==> r == tick
    ensures |tick| > 10 ==> |r| == 12 && r[..9] == tick[..9] && r[9..] == "..."
  {
    if |tick| > 10 then tick[..9] + "..." else tick
  }

  /** Shortening is idempotent: a shortened label is shortened to itself. */
  lemma TickLabelIdempotent(tick: string)
    ensures TickLabel(TickLabel(tick)) == TickLabel(tick)
    ensures |TickLabel(tick)| <= 12
  {
    if |tick| > 10 {
      var r := TickLabel(tick);
      assert r[..9] + "..." == r;
    }
  }

  // ---------------------------------------------------------------------------
  // Cell size and centring

  /** The square cell size for `rows` data rows of `cols` values: the smaller
      of the height and the width one cell may take, so that `rows` cells fit
      the height, `cols` cells fit the width, and one of the two is filled
      exactly. With no values in the first row the width is infinite (or NaN
      when nothing is left over), which the comparison passes over, unless it
      is negative infinity, which makes the size non-finite (None). */
  function CellSize(rows: nat, cols: nat, svg: Size, yTickWidth: real, xTickHeight: real): (r: Option<real>)
    requires rows > 0
    ensures cols > 0 ==> r.Some?
    ensures cols == 0 ==> (r.Some? <==> svg.width - yTickWidth - ColorRangeWidth >= 0.0)
    ensures r.Some? ==> r.value * rows as real <= svg.height - xTickHeight - TopSpace
    ensures r.Some? && cols > 0 ==> r.value * cols as real <= svg.width - yTickWidth - ColorRangeWidth
    ensures r.Some? ==> r.value * rows as real == svg.height - xTickHeight - TopSpace
                        || r.value * cols as real == svg.width - yTickWidth - ColorRangeWidth
  {
    var height := (svg.height - xTickHeight - TopSpace) / rows as real;
    assert height * rows as real == svg.height - xTickHeight - TopSpace;
    if cols == 0 then (if svg.width - yTickWidth - ColorRangeWidth >= 0.0 then Some(height) else None)
    else
      var width := (svg.width - yTickWidth - ColorRangeWidth) / cols as real;
      assert width * cols as real == svg.width - yTickWidth - ColorRangeWidth;
      if height > width then
        MulMono(width, height, rows as real);
        Some(width)
      else
        MulMono(height, width, cols as real);
        Some(height)
  }

  /** The left and right edges of the block formed by the y ticks, the grid
      of `cols` cells and the colour legend, placed in the middle of the svg:
      the edges are symmetric in the svg and exactly the tick width, the grid
      and the legend apart. */
  function Centre(size: real, cols: nat, svg: Size, yTickWidth: real): (x: (real, real))
    ensures x.0 + x.1 == svg.width
    ensures x.0 + yTickWidth + size * cols as real + ColorRangeWidth == x.1
  {
    var x1 := (svg.width - (size * cols as real + ColorRangeWidth + yTickWidth)) / 2.0;
    (x1, svg.width - x1)
  }

  lemma MulMono(a: real, b: real, k: real)
    requires a <= b && k >= 0.0
    ensures a * k <= b * k
  {
  }

  datatype Sizing = Sizing(rectSize: real, x1: real, x2: real)

  /** The sizing effect: it recomputes only for non-empty data and a positive
      svg size, and otherwise keeps what it had; None when the cell size is
      not finite. */
  function OnResize(prev: Sizing, data: seq<seq<real>>, svg: Size, yTickWidth: real, xTickHeight: real): (r: Option<Sizing>)
    ensures |data| == 0 || svg.width <= 0.0 || svg.height <= 0.0 ==> r == Some(prev)
    ensures |data| > 0 && svg.width > 0.0 && svg.height > 0.0 && |data[0]| > 0 ==>
      && r.Some?
      && Some(r.value.rectSize) == CellSize(|data|, |data[0]|, svg, yTickWidth, xTickHeight)
      && (r.value.x1, r.value.x2) == Centre(r.value.rectSize, |data[0]|, svg, yTickWidth)
  {
    if |data| == 0 || svg.width <= 0.0 || svg.height <= 0.0 then Some(prev)
    else match CellSize(|data|, |data[0]|, svg, yTickWidth, xTickHeight)
      case None => None
      case Some(size) =>
        var c := Centre(size, |data[0]|, svg, yTickWidth);
        Some(Sizing(size, c.0, c.1))
  }

  datatype Rect = Rect(x: real, y: real, width: real, height: real)

  /** The square of data row i, value j: data row i is drawn as a column of
      squares, left of which sit the y ticks. */
  function CellRect(s: Sizing, yTickWidth: real, i: nat, j: nat): Rect
  {
    Rect(s.x1 + i as real * s.rectSize + yTickWidth, j as real * s.rectSize + TopSpace, s.rectSize, s.rectSize)
  }

  /** The x position of the i-th x tick line and label. */
  function XTick(s: Sizing, yTickWidth: real, i: nat): real
  {
    s.x1 + i as real * s.rectSize + yTickWidth + s.rectSize / 2.0
  }

  /** The y position of the j-th y tick line and label. */
  function YTick(s: Sizing, j: nat): real
  {
    j as real * s.rectSize + s.rectSize / 2.0 + TopSpace
  }

  /** The anchor of the value label of row i, value j. */
  function LabelAt(s: Sizing, yTickWidth: real, i: nat, j: nat): (real, real)
  {
    (s.x1 + i as real * s.rectSize + yTickWidth + s.rectSize / 2.0, j as real * s.rectSize + s.rectSize / 2.0 + TopSpace)
  }

  /** The x tick under column i and the y tick beside row j cross at the centre
      of that cell, where its value label is anchored, and the cells tile the
      grid without gaps. The block is centred for `data[0].length` columns
      while `data.length` columns are drawn, so the last drawn column ends the
      legend's width before the block's right edge exactly when the data is
      square. */
  lemma TicksAtCellCentres(prev: Sizing, data: seq<seq<real>>, svg: Size, yTickWidth: real, xTickHeight: real, i: nat, j: nat)
    requires OnResize(prev, data, svg, yTickWidth, xTickHeight).Some?
    ensures var s := OnResize(prev, data, svg, yTickWidth, xTickHeight).value;
      var c := CellRect(s, yTickWidth, i, j);
      && XTick(s, yTickWidth, i) == c.x + c.width / 2.0
      && YTick(s, j) == c.y + c.height / 2.0
      && LabelAt(s, yTickWidth, i, j) == (XTick(s, yTickWidth, i), YTick(s, j))
      && CellRect(s, yTickWidth, i + 1, j).x == c.x + c.width
      && CellRect(s, yTickWidth, i, j + 1).y == c.y + c.height
    ensures var s := OnResize(prev, data, svg, yTickWidth, xTickHeight).value;
      |data| > 0 && svg.width > 0.0 && svg.height > 0.0 && |data[0]| > 0 ==>
        CellRect(s, yTickWidth, |data| - 1, j).x + s.rectSize + ColorRangeWidth
          == s.x2 + (|data| - |data[0]|) as real * s.rectSize
  {
    var s := OnResize(prev, data, svg, yTickWidth, xTickHeight).value;
    CellGeometry(s, yTickWidth, i, j);
    if |data| > 0 && svg.width > 0.0 && svg.height > 0.0 && |data[0]| > 0 {
      LastColumn(s, svg, yTickWidth, |data|, |data[0]|, j);
    }
  }

  lemma CellGeometry(s: Sizing, yTickWidth: real, i: nat, j: nat)
    ensures var c := CellRect(s, yTickWidth, i, j);
      && XTick(s, yTickWidth, i) == c.x + c.width / 2.0
      && YTick(s, j) == c.y + c.height / 2.0
      && LabelAt(s, yTickWidth, i, j) == (XTick(s, yTickWidth, i), YTick(s, j))
      && CellRect(s, yTickWidth, i + 1, j).x == c.x + c.width
      && CellRect(s, yTickWidth, i, j + 1).y == c.y + c.height
  {
  }

  /** For a block centred for m columns, the last of n drawn columns ends
      where the legend would begin, shifted by n - m cells. */
  lemma LastColumn(s: Sizing, svg: Size, yTickWidth: real, n: nat, m: nat, j: nat)
    requires n > 0
    requires (s.x1, s.x2) == Centre(s.rectSize, m, svg, yTickWidth)
    ensures CellRect(s, yTickWidth, n - 1, j).x + s.rectSize + ColorRangeWidth
      == s.x2 + (n - m) as real * s.rectSize
  {
    assert (n - 1) as real * s.rectSize + s.rectSize == m as real * s.rectSize + (n - m) as real * s.rectSize;
  }

  // ---------------------------------------------------------------------------
  // Colour legend

  /** The domain, with a missing domain or an "auto" end (None) defaulting to
      -1 below and 1 above. */
  function DomainBounds(domain: Option<(Option<real>, Option<real>)>): (r: (real, real))
    ensures domain.None? ==> r == (-1.0, 1.0)
    ensures domain.Some? ==> r.0 == (if domain.value.0.None? then -1.0 else domain.value.0.value)
    ensures domain.Some? ==> r.1 == (if domain.value.1.None? then 1.0 else domain.value.1.value)
  {
    match domain
    case None => (-1.0, 1.0)
    case Some((lo, hi)) => (if lo.None? then -1.0 else lo.value, if hi.None? then 1.0 else hi.value)
  }

  /** The values pushed by one bisection round: the midpoint of each
      neighbouring pair of the list as it was when the round began. */
  function Midpoints(nums: seq<real>): (r: seq<real>)
    requires |nums| > 0
    ensures |r| == |nums| - 1
  {
    seq(|nums| - 1, k requires 0 <= k < |nums| - 1 => (nums[k + 1] + nums[k]) / 2.0)
  }

  /** Each pushed value lies between the two neighbours it was made from. */
  lemma MidpointsBetween(nums: seq<real>, k: nat)
    requires 0 < k + 1 < |nums|
    ensures var m := Midpoints(nums)[k];
      (nums[k] <= m <= nums[k + 1]) || (nums[k + 1] <= m <= nums[k])
  {
  }

  /** The inner loop of a round: for each j from 1 below the length the round
      began with, push the mean of entries j and j - 1. */
  method PushMidpoints(nums: seq<real>) returns (r: seq<real>)
    requires |nums| > 0
    ensures r == nums + Midpoints(nums)
  {
    r := nums;
    for j := 1 to |nums|
      invariant r == nums + Midpoints(nums)[..j - 1]
    {
      assert r[j] == nums[j] && r[j - 1] == nums[j - 1];
      assert Midpoints(nums)[..j] == Midpoints(nums)[..j - 1] + [Midpoints(nums)[j - 1]];
      r := r + [(r[j] + r[j - 1]) / 2.0];
    }
    assert Midpoints(nums)[..|nums| - 1] == Midpoints(nums);
  }

  /** What one round leaves: the list with its midpoints, in ascending order. */
  ghost predicate IsBisection(nums: seq<real>, r: seq<real>)
    requires |nums| > 0
  {
    Sorting.SortedBy(r, Sorting.Id) && multiset(r) == multiset(nums + Midpoints(nums))
  }

  /** One round of the legend loop: push the midpoints, then sort ascending
      (the comparator answers 1, 0 or -1 by numeric order). */
  method Bisect(nums: seq<real>) returns (r: seq<real>)
    requires |nums| > 0
    ensures IsBisection(nums, r)
  {
    var pushed := PushMidpoints(nums);
    r := Sorting.SortBy(pushed, Sorting.Id);
  }

  function Reverse(s: seq<real>): (r: seq<real>)
    ensures |r| == |s| && forall i :: 0 <= i < |s| ==> r[i] == s[|s| - 1 - i]
  {
    seq(|s|, i requires 0 <= i < |s| => s[|s| - 1 - i])
  }

  /** n+1 values from a in steps of s. */
  function Even(a: real, s: real, n: nat): (r: seq<real>)
    ensures |r| == n + 1 && r[0] == a
    decreases n
  {
    if n == 0 then [a] else [a] + Even(a + s, s, n - 1)
  }

  lemma {:induction false} EvenAt(a: real, s: real, n: nat, k: nat)
    requires k <= n
    ensures Even(a, s, n)[k] == a + k as real * s
    decreases k
  {
    if k > 0 {
      EvenAt(a + s, s, n - 1, k - 1);
      assert (k - 1) as real * s + s == k as real * s;
    }
  }

  /** Every entry of an evenly spaced list, at once. */
  lemma EvenEntries(a: real, s: real, n: nat)
    ensures forall k :: 0 <= k <= n ==> Even(a, s, n)[k] == a + k as real * s
  {
    forall k | 0 <= k <= n
      ensures Even(a, s, n)[k] == a + k as real * s
    {
      EvenAt(a, s, n, k);
    }
  }

  /** The alternation a0, b0, a1, b1, ..., a_n of a list and one shorter. */
  function Interleave(a: seq<real>, b: seq<real>): (r: seq<real>)
    requires |a| == |b| + 1
    ensures |r| == |a| + |b|
  {
    if |b| == 0 then a
    else
      assert a == [a[0]] + a[1..] && b == [b[0]] + b[1..];
      [a[0], b[0]] + Interleave(a[1..], b[1..])
  }

  /** Interleaving keeps exactly the values of both lists. */
  lemma {:induction false} InterleaveMultiset(a: seq<real>, b: seq<real>)
    requires |a| == |b| + 1
    ensures multiset(Interleave(a, b)) == multiset(a) + multiset(b)
    decreases |b|
  {
    if |b| > 0 {
      InterleaveMultiset(a[1..], b[1..]);
      HeadTail(a);
      HeadTail(b);
      PairMultiset(a[0], b[0], Interleave(a[1..], b[1..]), a[1..], b[1..]);
    }
  }

  lemma HeadTail(a: seq<real>)
    requires |a| > 0
    ensures [a[0]] + a[1..] == a
  {
  }

  lemma PairMultiset(x: real, y: real, t: seq<real>, p: seq<real>, q: seq<real>)
    requires multiset(t) == multiset(p) + multiset(q)
    ensures multiset([x, y] + t) == multiset([x] + p) + multiset([y] + q)
  {
  }

  lemma MidpointsCons(x: real, rest: seq<real>, mid: real)
    requires |rest| > 0 && mid == (rest[0] + x) / 2.0
    ensures Midpoints([x] + rest) == [mid] + Midpoints(rest)
  {
    forall k | 0 <= k < |rest|
      ensures Midpoints([x] + rest)[k] == ([mid] + Midpoints(rest))[k]
    {
      if k > 0 {
        assert ([x] + rest)[k + 1] == rest[k] && ([x] + rest)[k] == rest[k - 1];
      }
    }
  }

  lemma InterleaveCons(x: real, y: real, p: seq<real>, q: seq<real>)
    requires |p| == |q| + 1
    ensures Interleave([x] + p, [y] + q) == [x, y] + Interleave(p, q)
  {
    assert ([x] + p)[1..] == p && ([y] + q)[1..] == q;
  }

  lemma EvenTwoSteps(a: real, h: real, b: real, n: nat)
    requires n > 0 && b == a + h + h
    ensures Even(a, h, 2 * n) == [a, a + h] + Even(b, h, 2 * (n - 1))
  {
    assert Even(a, h, 2 * n) == [a] + Even(a + h, h, 2 * n - 1);
    assert Even(a + h, h, 2 * n - 1) == [a + h] + Even(a + h + h, h, 2 * (n - 1));
  }

  /** An evenly spaced list with its midpoints is the list at half the step. */
  lemma {:induction false} EvenHalves(a: real, s: real, n: nat)
    requires n > 0
    ensures Interleave(Even(a, s, n), Midpoints(Even(a, s, n))) == Even(a, s / 2.0, 2 * n)
    decreases n
  {
    var h := s / 2.0;
    var rest := Even(a + s, s, n - 1);
    var e := Even(a, s, n);
    assert e == [a] + rest;
    MidpointsCons(a, rest, a + h);
    InterleaveCons(a, a + h, rest, Midpoints(rest));
    EvenTwoSteps(a, h, a + s, n);
    if n > 1 {
      EvenHalves(a + s, s, n - 1);
    }
  }

  lemma {:induction false} EvenSorted(a: real, s: real, n: nat)
    requires s >= 0.0
    ensures Sorting.SortedBy(Even(a, s, n), Sorting.Id)
    ensures forall x :: x in Even(a, s, n) ==> a <= x
    decreases n
  {
    if n > 0 {
      EvenSorted(a + s, s, n - 1);
      var e := Even(a, s, n);
      var rest := Even(a + s, s, n - 1);
      assert e == [a] + rest;
      forall i, j | 0 <= i < j < |e|
        ensures Sorting.Id(e[i]) <= Sorting.Id(e[j])
      {
        if i > 0 {
          assert e[i] == rest[i - 1] && e[j] == rest[j - 1];
        } else {
          assert e[j] == rest[j - 1] && rest[j - 1] in rest;
        }
      }
    }
  }

  /** A bisection round halves the step of an ascending evenly spaced list. */
  lemma BisectEven(a: real, s: real, n: nat, r: seq<real>)
    requires n > 0 && s >= 0.0
    requires IsBisection(Even(a, s, n), r)
    ensures r == Even(a, s / 2.0, 2 * n)
  {
    var e := Even(a, s, n);
    var m := Midpoints(e);
    var target := Even(a, s / 2.0, 2 * n);
    EvenSorted(a, s / 2.0, 2 * n);
    assert Sorting.SortedBy(target, Sorting.Id);
    EvenHalves(a, s, n);
    InterleaveMultiset(e, m);
    assert multiset(e + m) == multiset(e) + multiset(m);
    assert multiset(r) == multiset(target);
    Sorting.SortedUnique(r, target);
  }

  lemma SortedTriple(x: real, m: real, y: real, r: seq<real>)
    requires x <= m <= y
    requires Sorting.SortedBy(r, Sorting.Id) && multiset(r) == multiset([x, m, y])
    ensures r == [x, m, y]
  {
    assert Sorting.SortedBy([x, m, y], Sorting.Id);
    Sorting.SortedUnique(r, [x, m, y]);
  }

  lemma PairPushed(lo: real, hi: real)
    ensures [lo, hi] + Midpoints([lo, hi]) == [lo, hi, (hi + lo) / 2.0]
  {
    assert [lo, hi][1..] == [hi];
  }

  /** The first round from the two ends, in either order, gives the smaller
      end, the mean and the larger end. */
  lemma BisectPair(lo: real, hi: real, m: real, r: seq<real>)
    requires m == (hi + lo) / 2.0
    requires Sorting.SortedBy(r, Sorting.Id) && multiset(r) == multiset([lo, hi, m])
    ensures r == [Min(lo, hi), m, Max(lo, hi)]
  {
    if lo <= hi {
      SwapLastTwo(lo, hi, m);
      SortedTriple(lo, m, hi, r);
    } else {
      RotateTriple(lo, hi, m);
      SortedTriple(hi, m, lo, r);
    }
  }

  lemma SwapLastTwo(x: real, y: real, z: real)
    ensures multiset([x, y, z]) == multiset([x, z, y])
  {
    assert [x, y, z] == [x] + [y] + [z] && [x, z, y] == [x] + [z] + [y];
  }

  lemma RotateTriple(x: real, y: real, z: real)
    ensures multiset([x, y, z]) == multiset([y, z, x])
  {
    assert [x, y, z] == [x] + [y] + [z] && [y, z, x] == [y] + [z] + [x];
  }

  /** A round on the two domain ends. */
  method PairRound(lo: real, hi: real) returns (r: seq<real>, gaps: nat)
    ensures gaps == 2 && r == Even(Min(lo, hi), (Max(lo, hi) - Min(lo, hi)) / 2.0, gaps)
  {
    gaps := 2;
    r := Bisect([lo, hi]);
    PairPushed(lo, hi);
    BisectPair(lo, hi, (hi + lo) / 2.0, r);
    PairEven(lo, hi);
  }

  lemma PairEven(lo: real, hi: real)
    ensures Even(Min(lo, hi), (Max(lo, hi) - Min(lo, hi)) / 2.0, 2) == [Min(lo, hi), (hi + lo) / 2.0, Max(lo, hi)]
  {
    var a, h := Min(lo, hi), (Max(lo, hi) - Min(lo, hi)) / 2.0;
    assert Even(a, h, 2) == [a, a + h, a + h + h];
  }

  /** A round on an ascending evenly spaced list. */
  method EvenRound(a: real, s: real, n: nat, nums: seq<real>) returns (r: seq<real>)
    requires n > 0 && s >= 0.0 && nums == Even(a, s, n)
    ensures r == Even(a, s / 2.0, 2 * n)
  {
    r := Bisect(nums);
    BisectEven(a, s, n, r);
  }

  /** The number of equal steps the legend values span after three rounds. */
  const LegendGaps: nat := 8

  /** The loop of three rounds from the two ends [x, y]: nine values from
      the smaller end to the larger in eight equal steps, whichever end comes
      first. Each round after the first doubles the number of steps and
      halves their size. */
  method ThreeRounds(x: real, y: real) returns (nums: seq<real>)
    ensures |nums| == LegendGaps + 1
    ensures forall k :: 0 <= k <= LegendGaps ==>
      nums[k] == Min(x, y) + k as real * ((Max(x, y) - Min(x, y)) / LegendGaps as real)
  {
    var lo, hi := Min(x, y), Max(x, y);
    nums := [x, y];
    var count: nat, step := 1, hi - lo;
    for round := 0 to 3
      invariant round == 0 ==> count == 1 && step == hi - lo
      invariant round == 1 ==> count == 2 && step == (hi - lo) / 2.0
      invariant round == 2 ==> count == 4 && step == (hi - lo) / 4.0
      invariant round == 3 ==> count == 8 && step == (hi - lo) / 8.0
      invariant round == 0 ==> nums == [x, y]
      invariant round > 0 ==> nums == Even(lo, step, count)
    {
      if round == 0 {
        var gaps;
        nums, gaps := PairRound(x, y);
      } else {
        nums := EvenRound(lo, step, count, nums);
      }
      count, step := 2 * count, step / 2.0;
    }
    LegendSteps(x, y, step, count, nums);
  }

  /** The list after the last round, entry by entry. */
  lemma LegendSteps(x: real, y: real, step: real, count: nat, nums: seq<real>)
    requires count == LegendGaps && step == (Max(x, y) - Min(x, y)) / 8.0 && nums == Even(Min(x, y), step, count)
    ensures |nums| == LegendGaps + 1
    ensures forall k :: 0 <= k <= LegendGaps ==>
      nums[k] == Min(x, y) + k as real * ((Max(x, y) - Min(x, y)) / LegendGaps as real)
  {
    EvenEntries(Min(x, y), step, count);
  }

  /** The legend values: the three rounds between the domain's ends, then
      reversed, which gives nine values evenly spaced from the larger end down
      to the smaller, whichever order the ends come in. */
  method LegendValues(domain: Option<(Option<real>, Option<real>)>) returns (r: seq<real>)
    ensures var b := DomainBounds(domain);
      && |r| == LegendGaps + 1
      && forall i :: 0 <= i <= LegendGaps ==> r[i] == Max(b.0, b.1) - i as real * ((Max(b.0, b.1) - Min(b.0, b.1)) / LegendGaps as real)
  {
    var b := DomainBounds(domain);
    var lo, hi := Min(b.0, b.1), Max(b.0, b.1);
    var nums := ThreeRounds(b.0, b.1);
    r := Reverse(nums);
    ReversedSteps(nums, lo, hi, (hi - lo) / LegendGaps as real, LegendGaps, r);
  }

  /** An ascending evenly spaced list read backwards descends from its last
      value in the same steps. */
  lemma ReversedSteps(nums: seq<real>, lo: real, hi: real, t: real, n: nat, r: seq<real>)
    requires n > 0 && t == (hi - lo) / n as real && r == Reverse(nums)
    requires |nums| == n + 1 && forall k :: 0 <= k <= n ==> nums[k] == lo + k as real * t
    ensures |r| == n + 1 && forall i :: 0 <= i <= n ==> r[i] == hi - i as real * t
  {
    forall i | 0 <= i <= n
      ensures r[i] == hi - i as real * t
    {
      assert r[i] == nums[n - i];
      StepsFromTop(lo, hi, t, n, i);
    }
  }

  lemma StepsFromTop(lo: real, hi: real, t: real, n: nat, i: int)
    requires n > 0 && t == (hi - lo) / n as real
    ensures lo + (n - i) as real * t == hi - i as real * t
  {
    assert n as real * t == hi - lo;
    assert (n - i) as real * t == n as real * t - i as real * t;
  }

  datatype LegendEntry = LegendEntry(y: real, value: real)

  /** The legend: the values from the top down, entry i placed i steps below
      the top space, the steps dividing the grid's height (the cell size times
      the row count) into as many parts as there are gaps between values. So
      the legend spans the grid, from the larger domain end at the top to the
      smaller at the bottom, in eight equal steps. */
  method Legend(domain: Option<(Option<real>, Option<real>)>, rectSize: real, rows: nat) returns (r: seq<LegendEntry>)
    ensures var b := DomainBounds(domain);
      && |r| == 9
      && r[0] == LegendEntry(TopSpace, Max(b.0, b.1))
      && r[8] == LegendEntry(TopSpace + rectSize * rows as real, Min(b.0, b.1))
      && (forall i :: 0 <= i < 8 ==> r[i + 1].y - r[i].y == rectSize * rows as real / 8.0)
      && (forall i :: 0 <= i < 8 ==> r[i + 1].value - r[i].value == (Min(b.0, b.1) - Max(b.0, b.1)) / 8.0)
  {
    var nums := LegendValues(domain);
    var step := (rectSize * rows as real) / (|nums| - 1) as real;
    r := seq(|nums|, i requires 0 <= i < |nums| => LegendEntry(i as real * step + TopSpace, nums[i]));
  }

  /** The y of the x-axis tick lines: the bottom of `data.length` cells. */
  function AxisY(s: Sizing, columns: nat): real { columns as real * s.rectSize + TopSpace }

  /** What the component keeps between renders. */
  datatype View = View(sizing: Sizing, legend: seq<LegendEntry>)

  /** A new svg size as the component handles it. In the render that sees
      the new size, the sizing effect schedules the new cell size, and the
      legend effect (whose dependencies are only the domain and the svg size)
      runs in the same pass with the cell size of the render before; the next
      render brings the new cell size but does not run the legend effect
      again. So the legend's bottom stays where the previous grid ended. */
  method ResizeAsWritten(v: View, data: seq<seq<real>>, svg: Size, yTickWidth: real, xTickHeight: real,
                         domain: Option<(Option<real>, Option<real>)>) returns (r: Option<View>)
    ensures r.None? <==> OnResize(v.sizing, data, svg, yTickWidth, xTickHeight).None?
    ensures r.Some? ==> r.value.sizing == OnResize(v.sizing, data, svg, yTickWidth, xTickHeight).value
    ensures r.Some? ==> |r.value.legend| == 9 && r.value.legend[8].y == AxisY(v.sizing, |data|)
  {
    match OnResize(v.sizing, data, svg, yTickWidth, xTickHeight)
    case None =>
      r := None;
    case Some(s) =>
      var legend := Legend(domain, v.sizing.rectSize, |data|);
      r := Some(View(s, legend));
  }

  /** The same with the legend effect also depending on the cell size, so that
      it runs again once the new size is in: the legend then spans the grid
      that is drawn, from the top space down to the x axis. */
  method Resize(v: View, data: seq<seq<real>>, svg: Size, yTickWidth: real, xTickHeight: real,
                domain: Option<(Option<real>, Option<real>)>) returns (r: Option<View>)
    ensures r.None? <==> OnResize(v.sizing, data, svg, yTickWidth, xTickHeight).None?
    ensures r.Some? ==> r.value.sizing == OnResize(v.sizing, data, svg, yTickWidth, xTickHeight).value
    ensures r.Some? ==>
      |r.value.legend| == 9 && r.value.legend[0].y == TopSpace && r.value.legend[8].y == AxisY(r.value.sizing, |data|)
  {
    match OnResize(v.sizing, data, svg, yTickWidth, xTickHeight)
    case None =>
      r := None;
    case Some(s) =>
      var legend := Legend(domain, s.rectSize, |data|);
      r := Some(View(s, legend));
  }

  /** On mount the cell size is 0, so after the first measured size the legend
      as written collapses onto the top space: for a 2 x 2 grid in a 600 x 400
      svg the cells are 175 wide and the x axis lies at 370, but every legend
      entry lies at 20. */
  lemma LegendStaleOnMount()
    ensures var mount := Sizing(0.0, 0.0, 0.0);
      var data := [[1.0, 0.5], [0.5, 1.0]];
      var s := OnResize(mount, data, Size(600.0, 400.0), 80.0, 30.0);
      && s.Some? && s.value.rectSize == 175.0
      && AxisY(s.value, |data|) == 370.0
      && AxisY(mount, |data|) == TopSpace
  {
  }

  // ---------------------------------------------------------------------------
  // Cell colours

  datatype Rgba = Rgba(r: int, g: int, b: int, a: real)

  /** Positive values in red, the rest in blue, with the value's size as the
      opacity: the fill loses nothing, reading it back gives the value. */
  function CellFill(value: real): (c: Rgba)
    ensures FillValue(c) == value
    ensures c.a == Abs(value) && 0.0 <= c.a
    ensures c.r == 255 <==> value > 0.0
  {
    if value > 0.0 then Rgba(255, 0, 0, value) else Rgba(0, 143, 255, Abs(value))
  }

  /** The value a fill stands for: the opacity, negated on the blue hue. */
  function FillValue(c: Rgba): real
  {
    if c.r == 255 then c.a else -c.a
  }

  /** Labels are dark on faint cells and white on strong ones: dark exactly
      when the cell's opacity is below 0.3. */
  function LabelColor(value: real): (s: string)
    ensures s == "rgb(30, 30, 30)" <==> CellFill(value).a < 0.3
    ensures s == "rgb(30, 30, 30)" || s == "#ffffff"
  {
    if Abs(value) < 0.3 then "rgb(30, 30, 30)" else "#ffffff"
  }
}
