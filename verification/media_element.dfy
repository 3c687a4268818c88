/** The part of an HTML `<video>` element the player reads and writes, the
    player's source links, and the pointer-position ratio that both the
    progress bar and the volume bar compute from a click. */
module MediaElement {
  import opened Common

  /** The element's media state. `currentTime` and `volume` are set through
      setters that reject NaN; `paused` flips on `play()` and `pause()`. */
  datatype Video = Video(
    duration: real,
    currentTime: real,
    paused: bool,
    muted: bool,
    volume: real,
    playbackRate: real,
    src: string)

  /** One source of the video: its URL, quality label, rendition name and
      MIME type. */
  datatype VideoLink = VideoLink(link: string, quality: string, rendition: string, mimeType: string)

  /** `x / width > 1 ? 1 : x / width < 0 ? 0 : x / width` for a pointer offset
      `x` on a bar `width` pixels wide. A zero width divides to +Infinity or
      -Infinity, which the comparisons clamp to 1 or 0, except when `x` is 0
      too: 0 / 0 is NaN, which passes both comparisons unchanged (None). */
  function PointerRatio(x: real, width: nat): (r: Option<real>)
    ensures r.None? <==> x == 0.0 && width == 0
    ensures r.Some? ==> 0.0 <= r.value <= 1.0
    ensures width > 0 && 0.0 <= x <= width as real ==> r == Some(x / width as real)
    ensures width > 0 && x > width as real ==> r == Some(1.0)
    ensures x < 0.0 ==> r == Some(0.0)
  {
    if width == 0 then
      if x > 0.0 then Some(1.0) else if x < 0.0 then Some(0.0) else None
    else Some(Clamp01(x / width as real))
  }

  /** A position further right on the bar never gives a smaller ratio. */
  lemma PointerRatioMonotone(x: real, y: real, width: nat)
    requires width > 0 && x <= y
    ensures PointerRatio(x, width).value <= PointerRatio(y, width).value
  {
    var w := width as real;
    assert x / w <= y / w;
  }

  /** Every ratio in [0, 1] is reached by clicking at that fraction of the
      bar's width. */
  lemma PointerRatioOnto(ratio: real, width: nat)
    requires width > 0 && 0.0 <= ratio <= 1.0
    ensures PointerRatio(ratio * width as real, width) == Some(ratio)
  {
    ScaleBack(ratio, width as real);
  }

  lemma ScaleBack(ratio: real, w: real)
    requires w > 0.0 && 0.0 <= ratio <= 1.0
    ensures 0.0 <= ratio * w <= w && ratio * w / w == ratio
  {
    assert w - ratio * w == (1.0 - ratio) * w;
  }
}
