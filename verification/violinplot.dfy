/** The violin plot's own logic: its inverted value-to-pixel map over the
    whole drawing height, the pixel positions of every summary value, the
    bin-number control and the drawing area after the default margins. */
module ViolinPlot {
  import opened Common
  import LinearScale

  const DefaultMargin: real := 30.0
  const InitialBinNumber: int := 30
  const MinBinNumber: int := 10
  const MaxBinNumber: int := 100

  datatype Size = Size(width: real, height: real)

  datatype Margin = Margin(top: real, bottom: real, left: real, right: real)

  datatype ViolinData = ViolinData(name: string, maximum: real, median: real, minimum: real,
                                   quartileInterval: (real, real), confidenceInterval: (real, real),
                                   values: seq<real>)

  datatype ChartItem = ChartItem(data: ViolinData, maximumY: real, medianY: real, minimumY: real,
                                 quartileIntervalY: (real, real), confidenceIntervalY: (real, real))

  /** `getY`: the domain's low end at the bottom (y = height), its high end at
      the top (y = 0). */
  function GetY(domain: (real, real), value: real, height: real): (r: Option<real>)
    ensures r.Some? <==> domain.0 != domain.1
  {
    LinearScale.Inverted(domain.0, domain.1, 0.0, height, value)
  }

  lemma GetYRange(domain: (real, real), height: real, v: real, w: real)
    requires domain.0 < domain.1 && height > 0.0
    ensures GetY(domain, domain.0, height) == Some(height)
    ensures GetY(domain, domain.1, height) == Some(0.0)
    ensures v < w ==> GetY(domain, w, height).value < GetY(domain, v, height).value
  {
    LinearScale.Ends(domain.0, domain.1, 0.0, height);
    if v < w {
      LinearScale.Decreasing(domain.0, domain.1, 0.0, height, v, w);
    }
  }

  function MapPair(domain: (real, real), p: (real, real), height: real): (r: (real, real))
    requires domain.0 != domain.1
    ensures Some(r.0) == GetY(domain, p.0, height) && Some(r.1) == GetY(domain, p.1, height)
  {
    (GetY(domain, p.0, height).value, GetY(domain, p.1, height).value)
  }

  /** One entry's pixel positions: every summary value through `getY`, each
      interval end by end, and the entry itself kept. */
  function ItemOf(d: ViolinData, domain: (real, real), height: real): (c: ChartItem)
    requires domain.0 != domain.1
    ensures c.data == d
    ensures Some(c.maximumY) == GetY(domain, d.maximum, height)
    ensures Some(c.medianY) == GetY(domain, d.median, height)
    ensures Some(c.minimumY) == GetY(domain, d.minimum, height)
    ensures c.quartileIntervalY == MapPair(domain, d.quartileInterval, height)
    ensures c.confidenceIntervalY == MapPair(domain, d.confidenceInterval, height)
  {
    ChartItem(d, GetY(domain, d.maximum, height).value, GetY(domain, d.median, height).value,
              GetY(domain, d.minimum, height).value,
              MapPair(domain, d.quartileInterval, height), MapPair(domain, d.confidenceInterval, height))
  }

  /** The data effect: nothing changes without data; otherwise one item per
      entry in order, or None when the domain is degenerate. */
  function Items(prev: seq<ChartItem>, data: seq<ViolinData>, domain: (real, real), height: real): (r: Option<seq<ChartItem>>)
    ensures |data| == 0 ==> r == Some(prev)
    ensures |data| > 0 ==> (r.Some? <==> domain.0 != domain.1)
    ensures |data| > 0 && r.Some? ==> |r.value| == |data| && forall i :: 0 <= i < |data| ==> r.value[i] == ItemOf(data[i], domain, height)
  {
    if |data| == 0 then Some(prev)
    else if domain.0 == domain.1 then None
    else Some(seq(|data|, i requires 0 <= i < |data| => ItemOf(data[i], domain, height)))
  }

  /** For a non-degenerate domain the mapped values keep their order upside
      down: the maximum is drawn above the median, the median above the
      minimum, and an interval's low end below its high end. */
  lemma ItemOrder(d: ViolinData, domain: (real, real), height: real)
    requires domain.0 < domain.1 && height > 0.0
    requires d.minimum <= d.median <= d.maximum
    requires d.quartileInterval.0 <= d.quartileInterval.1
    ensures var c := ItemOf(d, domain, height);
      && c.maximumY <= c.medianY <= c.minimumY
      && c.quartileIntervalY.1 <= c.quartileIntervalY.0
  {
    GetYRange(domain, height, d.minimum, d.median);
    GetYRange(domain, height, d.median, d.maximum);
    GetYRange(domain, height, d.quartileInterval.0, d.quartileInterval.1);
  }

  /** The bin-number control: a range input from 10 to 100 in steps of 1,
      whose value the browser keeps inside that range before `+value` reads
      it. */
  function OnBinInput(raw: int): (n: int)
    ensures MinBinNumber <= n <= MaxBinNumber
    ensures MinBinNumber <= raw <= MaxBinNumber ==> n == raw
    ensures raw < MinBinNumber ==> n == MinBinNumber
    ensures raw > MaxBinNumber ==> n == MaxBinNumber
  {
    if raw < MinBinNumber then MinBinNumber else if raw > MaxBinNumber then MaxBinNumber else raw
  }

  /** The drawing area: each missing or zero margin counts as 30. */
  function Bounds(svg: Size, margin: Option<Margin>): (r: Size)
    ensures margin.None? ==> r == Size(svg.width - 2.0 * DefaultMargin, svg.height - 2.0 * DefaultMargin)
    ensures margin.Some? && margin.value.left != 0.0 && margin.value.right != 0.0 ==> r.width == svg.width - margin.value.left - margin.value.right
    ensures margin.Some? && margin.value.top != 0.0 && margin.value.bottom != 0.0 ==> r.height == svg.height - margin.value.top - margin.value.bottom
  {
    var left := OrDefault(if margin.Some? then Some(margin.value.left) else None, DefaultMargin);
    var right := OrDefault(if margin.Some? then Some(margin.value.right) else None, DefaultMargin);
    var top := OrDefault(if margin.Some? then Some(margin.value.top) else None, DefaultMargin);
    var bottom := OrDefault(if margin.Some? then Some(margin.value.bottom) else None, DefaultMargin);
    Size(svg.width - left - right, svg.height - top - bottom)
  }
}
