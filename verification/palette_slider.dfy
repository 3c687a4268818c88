/** The colour palette's whiteness/blackness/opacity slider: positions along
    the track become whole percentages, rounded up. */
module PaletteSlider {
  import opened Common

  /** `formatValue`: a ratio as a percentage, rounded up to a whole number. */
  function FormatValue(ratio: real): (r: int)
    ensures 100.0 * ratio <= r as real < 100.0 * ratio + 1.0
    ensures 0.0 <= ratio <= 1.0 ==> 0 <= r <= 100
  {
    Ceil(100.0 * ratio)
  }

  /** `onClick`: the percentage of the click's offset along the track; a zero
      width gives a non-finite value (None). */
  function Click(x: real, width: nat): (r: Option<int>)
    ensures r.Some? <==> width > 0
    ensures width > 0 && 0.0 <= x <= width as real ==> 0 <= r.value <= 100
  {
    if width == 0 then None
    else
      var v := x / width as real;
      assert 0.0 <= x <= width as real ==> 0.0 <= v <= 1.0;
      Some(FormatValue(v))
  }

  /** The drag handler, for a pointer `dx` pixels right of the track's left
      edge: past the right end gives 100, before the left end gives 0, and
      otherwise the rounded-up percentage. On a zero-width track `dx` = 0
      gives NaN (None), which passes both comparisons. */
  function Drag(dx: real, width: nat): (r: Option<int>)
    ensures r.None? <==> width == 0 && dx == 0.0
    ensures r.Some? ==> 0 <= r.value <= 100
    ensures width > 0 ==> r == Some(FormatValue(Clamp01(dx / width as real)))
  {
    if width == 0 then
      if dx > 0.0 then Some(FormatValue(1.0)) else if dx < 0.0 then Some(FormatValue(0.0)) else None
    else
      var v := dx / width as real;
      if v > 1.0 then Some(FormatValue(1.0))
      else if v < 0.0 then Some(FormatValue(0.0))
      else Some(FormatValue(v))
  }

  /** Dragging further right never lowers the value. */
  lemma DragMonotone(a: real, b: real, width: nat)
    requires width > 0 && a <= b
    ensures Drag(a, width).value <= Drag(b, width).value
  {
    var w := width as real;
    assert a / w <= b / w;
  }

  /** Over the track, a drag reports what a click at the same place reports. */
  lemma DragAgreesWithClick(dx: real, width: nat)
    requires width > 0 && 0.0 <= dx <= width as real
    ensures Drag(dx, width) == Click(dx, width)
  {
    var w := width as real;
    assert dx / w <= 1.0;
  }
}
