/** The percentage slider: a click reports the pointer's position along the
    track as a percentage, and a drag reports it only while it stays on the
    track. */
module Slider {
  import opened Common

  /** What a handler passes to `onChange`: nothing, a finite percentage, or a
      non-finite number (None) produced by dividing by a zero track width. */
  datatype Emitted = Silent | Emit(value: Option<real>)

  /** `(offsetX / clientWidth) * 100`: not clamped, so a click left of the
      track gives a negative value and one right of it a value above 100. */
  function ClickValue(x: real, width: nat): (r: Option<real>)
    ensures r.Some? <==> width > 0
    ensures width > 0 ==> r.value * width as real == 100.0 * x
    ensures width > 0 && 0.0 <= x <= width as real ==> 0.0 <= r.value <= 100.0
  {
    if width == 0 then None
    else
      var w := width as real;
      var v := x / w * 100.0;
      assert v * w == 100.0 * x;
      Some(v)
  }

  /** `onClick`: the click value is always passed on. */
  function Click(x: real, width: nat): (r: Emitted)
    ensures r.Emit? && r.value == ClickValue(x, width)
  {
    Emit(ClickValue(x, width))
  }

  /** The drag handler, for a pointer `dx` pixels right of the track's left
      edge: a value above 100 or below 0 is dropped. On a zero-width track a
      non-zero `dx` gives an infinite value, which is dropped, and `dx` = 0
      gives NaN, which passes both comparisons and is forwarded. */
  function Drag(dx: real, width: nat): (r: Emitted)
    ensures r.Emit? && r.value.Some? ==> 0.0 <= r.value.value <= 100.0
    ensures width > 0 ==>
      (r.Emit? <==> 0.0 <= ClickValue(dx, width).value <= 100.0)
    ensures width > 0 && r.Emit? ==> r.value == ClickValue(dx, width)
    ensures r.Emit? && r.value.None? <==> width == 0 && dx == 0.0
  {
    if width == 0 then (if dx == 0.0 then Emit(None) else Silent)
    else
      var v := ClickValue(dx, width).value;
      if v > 100.0 || v < 0.0 then Silent else Emit(Some(v))
  }

  /** On a track of positive width, a drag over the track reports what a click
      at the same place reports, and a drag off the track reports nothing. */
  lemma DragAgreesWithClick(dx: real, width: nat)
    requires width > 0
    ensures 0.0 <= dx <= width as real ==> Drag(dx, width) == Click(dx, width)
    ensures (dx < 0.0 || dx > width as real) ==> Drag(dx, width) == Silent
  {
    var w := width as real;
    var v := ClickValue(dx, width).value;
    assert v * w == 100.0 * dx;
    if dx > w {
      assert v * w > 100.0 * w;
    }
  }
}
