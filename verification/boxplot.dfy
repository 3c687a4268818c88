/** The box plot: its inverted value-to-pixel map, the evenly spaced y ticks,
    one column per data entry with the box inset from both column edges, and
    the svg drawing area left after the margins. */
module BoxPlot {
  import opened Common
  import LinearScale

  const TopSpace: real := 20.0
  const XTicksHeight: real := 30.0
  const YTicksWidth: real := 30.0
  const BoxPadding: real := 20.0

  datatype Size = Size(width: real, height: real)

  datatype Margin = Margin(top: real, bottom: real, left: real, right: real)

  /** One data entry: a name and its five-number summary. */
  datatype BoxData = BoxData(name: string, maximum: real, q3: real, q2: real, q1: real, minimum: real, iqr: real)

  datatype Tick = Tick(text: string, x: real, y: real)

  /** A data entry with its column position and the pixel heights of its
      summary values. */
  datatype ChartItem = ChartItem(data: BoxData, x: real, x1: real, x2: real,
                                 maximumY: real, minimumY: real, q1Y: real, q2Y: real, q3Y: real)

  /** `getY`: the domain's low end at the bottom of the plot (above the x
      ticks) and its high end at the top space. */
  function GetY(domain: (real, real), value: real, height: real): (r: Option<real>)
    ensures r.Some? <==> domain.0 != domain.1
  {
    LinearScale.Inverted(domain.0, domain.1, TopSpace, height - XTicksHeight - TopSpace, value)
  }

  /** The y axis spans from just above the x ticks up to the top space, higher
      values drawn higher. */
  lemma GetYRange(domain: (real, real), height: real, v: real, w: real)
    requires domain.0 < domain.1 && height > XTicksHeight + TopSpace
    ensures GetY(domain, domain.0, height) == Some(height - XTicksHeight)
    ensures GetY(domain, domain.1, height) == Some(TopSpace)
    ensures v < w ==> GetY(domain, w, height).value < GetY(domain, v, height).value
  {
    LinearScale.Ends(domain.0, domain.1, TopSpace, height - XTicksHeight - TopSpace);
    if v < w {
      LinearScale.Decreasing(domain.0, domain.1, TopSpace, height - XTicksHeight - TopSpace, v, w);
    }
  }

  /** The y-tick effect: nothing changes without ticks; a single tick divides
      by zero and lands at a non-finite y (None); otherwise the labels are
      spread from the bottom of the plot to the top space. */
  function YTickList(prev: seq<Tick>, labels: seq<string>, boundsHeight: real): (r: Option<seq<Tick>>)
    ensures |labels| == 0 ==> r == Some(prev)
    ensures |labels| == 1 <==> r.None?
    ensures |labels| >= 2 ==> r.Some? && |r.value| == |labels|
    ensures |labels| >= 2 ==> forall i :: 0 <= i < |labels| ==> r.value[i].text == labels[i] && r.value[i].x == YTicksWidth / 2.0
  {
    if |labels| == 0 then Some(prev)
    else if |labels| == 1 then None
    else
      var h := boundsHeight - XTicksHeight;
      var step := (h - TopSpace) / (|labels| - 1) as real;
      Some(seq(|labels|, i requires 0 <= i < |labels| => Tick(labels[i], YTicksWidth / 2.0, h - i as real * step)))
  }

  /** The y ticks are evenly spaced between the two ends of the y axis: the
      first at the bottom, the last at the top space, and tick i exactly where
      `getY` draws the domain value i/(k-1) of the way up. */
  lemma YTicksOnScale(labels: seq<string>, boundsHeight: real, domain: (real, real), i: nat)
    requires |labels| >= 2 && i < |labels| && domain.0 != domain.1
    ensures var ticks := YTickList([], labels, boundsHeight).value;
      && ticks[0].y == boundsHeight - XTicksHeight
      && ticks[|labels| - 1].y == TopSpace
      && ticks[i].y == GetY(domain, domain.0 + (domain.1 - domain.0) * (i as real / (|labels| - 1) as real), boundsHeight).value
  {
    var k := (|labels| - 1) as real;
    var range := boundsHeight - XTicksHeight - TopSpace;
    var ticks := YTickList([], labels, boundsHeight).value;
    var f := i as real / k;
    var v := domain.0 + (domain.1 - domain.0) * f;
    LinearScale.DivCancel(f, domain.1 - domain.0);
    assert (v - domain.0) / (domain.1 - domain.0) == f;
    assert ticks[i].y == boundsHeight - XTicksHeight - i as real * (range / k);
    assert i as real * (range / k) == range * f;
    LinearScale.SelfDiv(k);
    assert ticks[|labels| - 1].y == boundsHeight - XTicksHeight - k * (range / k);
  }

  /** The three horizontal positions of column i of n in a plot `width` wide:
      its centre, and the box's left and right edges, inset by the padding. */
  function Column(i: nat, n: nat, width: real): (r: (real, real, real))
    requires n > 0
  {
    var step := (width - YTicksWidth) / n as real;
    var x := YTicksWidth + (i + 1) as real * step - step / 2.0;
    var x1 := if i == 0 then YTicksWidth + BoxPadding else YTicksWidth + i as real * step + BoxPadding;
    var x2 := YTicksWidth + (i + 1) as real * step - BoxPadding;
    (x, x1, x2)
  }

  /** The box is centred in its column; it has room (its left edge before the
      centre, the centre before its right edge) exactly when the column is
      wider than both paddings together; and the first column's special case
      is the general formula. */
  lemma ColumnGeometry(i: nat, n: nat, width: real)
    requires n > 0
    ensures var step := (width - YTicksWidth) / n as real;
      var c := Column(i, n, width);
      && c.0 == YTicksWidth + (i as real + 0.5) * step
      && c.1 == YTicksWidth + i as real * step + BoxPadding
      && c.1 + c.2 == 2.0 * c.0
      && (c.1 < c.0 < c.2 <==> step > 2.0 * BoxPadding)
  {
  }

  /** Neighbouring boxes never overlap: the gap between a box and the next is
      both paddings. */
  lemma ColumnsApart(i: nat, n: nat, width: real)
    requires n > 0
    ensures Column(i + 1, n, width).1 - Column(i, n, width).2 == 2.0 * BoxPadding
  {
  }

  /** The x ticks and the boxes for a data list: tick and box i share the
      column centre, the ticks sit in the middle of the x-tick band, and every
      box carries its entry unchanged. None when the domain is degenerate and
      the y values are not finite. */
  function Layout(data: seq<BoxData>, bounds: Size, domain: (real, real)): (r: Option<(seq<Tick>, seq<ChartItem>)>)
    requires |data| > 0
    ensures r.Some? <==> domain.0 != domain.1
    ensures r.Some? ==> |r.value.0| == |data| && |r.value.1| == |data|
    ensures r.Some? ==> forall i :: 0 <= i < |data| ==>
      && r.value.0[i].text == data[i].name
      && r.value.0[i].x == r.value.1[i].x == Column(i, |data|, bounds.width).0
      && r.value.0[i].y == bounds.height - XTicksHeight / 2.0
      && r.value.1[i].data == data[i]
      && r.value.1[i].x1 == Column(i, |data|, bounds.width).1
      && r.value.1[i].x2 == Column(i, |data|, bounds.width).2
      && Some(r.value.1[i].maximumY) == GetY(domain, data[i].maximum, bounds.height)
      && Some(r.value.1[i].minimumY) == GetY(domain, data[i].minimum, bounds.height)
      && Some(r.value.1[i].q1Y) == GetY(domain, data[i].q1, bounds.height)
      && Some(r.value.1[i].q2Y) == GetY(domain, data[i].q2, bounds.height)
      && Some(r.value.1[i].q3Y) == GetY(domain, data[i].q3, bounds.height)
  {
    if domain.0 == domain.1 then None
    else
      var n := |data|;
      Some((seq(n, i requires 0 <= i < n => Tick(data[i].name, Column(i, n, bounds.width).0, bounds.height - XTicksHeight / 2.0)),
            seq(n, i requires 0 <= i < n => Item(data[i], Column(i, n, bounds.width), domain, bounds.height))))
  }

  function Item(d: BoxData, c: (real, real, real), domain: (real, real), height: real): ChartItem
    requires domain.0 != domain.1
  {
    ChartItem(d, c.0, c.1, c.2,
              GetY(domain, d.maximum, height).value, GetY(domain, d.minimum, height).value,
              GetY(domain, d.q1, height).value, GetY(domain, d.q2, height).value, GetY(domain, d.q3, height).value)
  }

  /** The drawing area: the svg size less the margins, where a missing or zero
      margin counts as 0 except on the right, where it counts as the y-tick
      width. */
  function Bounds(svg: Size, margin: Option<Margin>): (r: Size)
    ensures margin.None? ==> r == Size(svg.width - YTicksWidth, svg.height)
    ensures margin.Some? ==> r.height == svg.height - margin.value.top - margin.value.bottom
    ensures margin.Some? && margin.value.right != 0.0 ==> r.width == svg.width - margin.value.left - margin.value.right
    ensures margin.Some? && margin.value.right == 0.0 ==> r.width == svg.width - margin.value.left - YTicksWidth
  {
    var left := OrDefault(if margin.Some? then Some(margin.value.left) else None, 0.0);
    var right := OrDefault(if margin.Some? then Some(margin.value.right) else None, 0.0 + YTicksWidth);
    var top := OrDefault(if margin.Some? then Some(margin.value.top) else None, 0.0);
    var bottom := OrDefault(if margin.Some? then Some(margin.value.bottom) else None, 0.0);
    Size(svg.width - left - right, svg.height - top - bottom)
  }
}

/** The shapes drawn for one box: whiskers at the maximum and minimum, a dashed
    stem between them through the column centre, the box from the third
    quartile down to the first, and the median line across it. */
module BoxShape {
  import opened Common
  import opened BoxPlot

  datatype Line = Line(x1: real, y1: real, x2: real, y2: real)

  datatype Rect = Rect(x: real, y: real, width: real, height: real)

  datatype Shape = Shape(maxWhisker: Line, stem: Line, minWhisker: Line, box: Rect, median: Line)

  function ShapeOf(c: ChartItem): Shape
  {
    Shape(Line(c.x1, c.maximumY, c.x2, c.maximumY),
          Line(c.x, c.maximumY, c.x, c.minimumY),
          Line(c.x1, c.minimumY, c.x2, c.minimumY),
          Rect(c.x1, c.q3Y, c.x2 - c.x1, c.q1Y - c.q3Y),
          Line(c.x1, c.q2Y, c.x2, c.q2Y))
  }

  /** For an ordered summary (minimum <= Q1 <= Q2 <= Q3 <= maximum) in a tall
      enough plot with columns wider than the padding, the shapes nest: the
      box has a non-negative height and a positive width, the median lies
      inside the box, the whiskers lie beyond it, and the stem runs through
      the box's interior. */
  lemma ShapeNests(data: seq<BoxData>, bounds: Size, domain: (real, real), i: nat)
    requires 0 <= i < |data| && domain.0 < domain.1
    requires bounds.height > XTicksHeight + TopSpace
    requires (bounds.width - YTicksWidth) / |data| as real > 2.0 * BoxPadding
    requires data[i].minimum <= data[i].q1 <= data[i].q2 <= data[i].q3 <= data[i].maximum
    ensures var s := ShapeOf(Layout(data, bounds, domain).value.1[i]);
      && s.box.height >= 0.0 && s.box.width > 0.0
      && s.box.y <= s.median.y1 <= s.box.y + s.box.height
      && s.maxWhisker.y1 <= s.box.y && s.box.y + s.box.height <= s.minWhisker.y1
      && s.box.x < s.stem.x1 < s.box.x + s.box.width
      && s.stem.y1 == s.maxWhisker.y1 && s.stem.y2 == s.minWhisker.y1
  {
    var d := data[i];
    GetYRange(domain, bounds.height, d.minimum, d.q1);
    GetYRange(domain, bounds.height, d.q1, d.q2);
    GetYRange(domain, bounds.height, d.q2, d.q3);
    GetYRange(domain, bounds.height, d.q3, d.maximum);
    ColumnGeometry(i, |data|, bounds.width);
  }
}
