/** The inverted affine value-to-pixel map that the box plot and the violin
    plot both call `getY`: the bottom of the domain lands at the bottom of the
    drawing range and the top of the domain at its top, because svg y grows
    downwards. */
module LinearScale {
  import opened Common

  /** `range * (1 - (v - d0) / (d1 - d0)) + top`. With a degenerate domain
      (d0 == d1) the division yields a non-finite number, written None. */
  function Inverted(d0: real, d1: real, top: real, range: real, v: real): (r: Option<real>)
    ensures r.Some? <==> d0 != d1
  {
    if d0 == d1 then None else Some(range * (1.0 - (v - d0) / (d1 - d0)) + top)
  }

  /** The value that `Inverted` sends to pixel y: the map read backwards. */
  function Invert(d0: real, d1: real, top: real, range: real, y: real): real
    requires range != 0.0
  {
    d0 + (1.0 - (y - top) / range) * (d1 - d0)
  }

  /** The domain's ends land on the range's ends. */
  lemma Ends(d0: real, d1: real, top: real, range: real)
    requires d0 != d1
    ensures Inverted(d0, d1, top, range, d0) == Some(top + range)
    ensures Inverted(d0, d1, top, range, d1) == Some(top)
  {
    SelfDiv(d1 - d0);
    var r := Inverted(d0, d1, top, range, d1);
    assert r.value == range * (1.0 - (d1 - d0) / (d1 - d0)) + top;
    assert 1.0 - (d1 - d0) / (d1 - d0) == 0.0;
    assert r.value == top;
  }

  /** Larger values are drawn higher up (at smaller y). */
  lemma Decreasing(d0: real, d1: real, top: real, range: real, v: real, w: real)
    requires d0 < d1 && range > 0.0 && v < w
    ensures Inverted(d0, d1, top, range, w).value < Inverted(d0, d1, top, range, v).value
  {
    var a := (v - d0) / (d1 - d0);
    var b := (w - d0) / (d1 - d0);
    assert b - a == (w - v) / (d1 - d0);
    assert (w - v) / (d1 - d0) > 0.0;
    assert range * (1.0 - b) - range * (1.0 - a) == range * (a - b);
    assert range * (a - b) < 0.0;
  }

  /** Reading a drawn value back gives the value. */
  lemma RoundTrip(d0: real, d1: real, top: real, range: real, v: real)
    requires d0 != d1 && range != 0.0
    ensures Invert(d0, d1, top, range, Inverted(d0, d1, top, range, v).value) == v
  {
    var t := (v - d0) / (d1 - d0);
    var y := range * (1.0 - t) + top;
    assert y - top == range * (1.0 - t);
    DivCancel(1.0 - t, range);
    assert t * (d1 - d0) == v - d0;
  }

  /** The map is affine: the midpoint of two values is drawn at the midpoint of
      their pixels. */
  lemma Midpoint(d0: real, d1: real, top: real, range: real, v: real, w: real)
    requires d0 != d1
    ensures Inverted(d0, d1, top, range, (v + w) / 2.0).value
      == (Inverted(d0, d1, top, range, v).value + Inverted(d0, d1, top, range, w).value) / 2.0
  {
    var k := d1 - d0;
    assert ((v + w) / 2.0 - d0) / k == ((v - d0) / k + (w - d0) / k) / 2.0;
  }

  lemma SelfDiv(k: real)
    requires k != 0.0
    ensures k / k == 1.0
  {
  }

  lemma DivCancel(a: real, b: real)
    requires b != 0.0
    ensures (b * a) / b == a
  {
  }
}
