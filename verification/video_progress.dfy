/** The video player's progress bar: seeking by a click or a drag, the hover
    preview (its time, its text, the highlight near it and its horizontal
    position) and the bar position reported by `timeupdate`. */
module VideoProgress {
  import opened Common
  import opened MediaElement
  import opened VideoTime

  /** A marked moment of the video shown on the bar. */
  datatype Highlighter = Highlighter(title: string, percentage: real, eventTime: real)

  /** The bar's state: the filled fraction, the preview's left offset, the
      highlight under the pointer and the preview's clock text. */
  datatype ProgressState = ProgressState(
    progress: real,
    previewLeft: real,
    hoverHighlight: Option<Highlighter>,
    hoverTime: string)

  const InitialProgress: ProgressState := ProgressState(0.0, 0.0, None, "00:00:00")

  /** `videoTimeSet`: with a video, the clamped pointer ratio becomes both the
      bar's fraction and the fraction of the duration the video seeks to.
      Without a video nothing happens; a NaN ratio makes the `currentTime`
      setter throw, so nothing changes either. */
  function VideoTimeSet(video: Option<Video>, s: ProgressState, x: real, width: nat): (r: (Option<Video>, ProgressState))
    ensures r.0.Some? <==> video.Some?
    ensures video.None? || PointerRatio(x, width).None? ==> r == (video, s)
    ensures video.Some? && PointerRatio(x, width).Some? ==>
      var ratio := PointerRatio(x, width).value;
      && r.1 == s.(progress := ratio)
      && r.0.value == video.value.(currentTime := video.value.duration * ratio)
  {
    match video
    case None => (video, s)
    case Some(v) =>
      match PointerRatio(x, width)
      case None => (video, s)
      case Some(time) => (Some(v.(currentTime := v.duration * time)), s.(progress := time))
  }

  /** The `timeupdate` listener: the bar's fraction is `currentTime / duration`
      (None where that division is not finite). */
  function TimeUpdateRatio(v: Video): (r: Option<real>)
    ensures r.Some? <==> v.duration != 0.0
    ensures r.Some? ==> r.value * v.duration == v.currentTime
  {
    if v.duration == 0.0 then None else Some(v.currentTime / v.duration)
  }

  /** After a seek on a video of positive length, the next `timeupdate` reports
      the same fraction the bar was set to, and the new time lies within the
      video. */
  lemma SeekAgreesWithTimeUpdate(v: Video, s: ProgressState, x: real, width: nat,
                                  r: (Option<Video>, ProgressState))
    requires v.duration > 0.0 && width > 0
    requires r == VideoTimeSet(Some(v), s, x, width)
    ensures r.0.Some? && TimeUpdateRatio(r.0.value) == Some(r.1.progress)
    ensures 0.0 <= r.0.value.currentTime <= v.duration
  {
    var ratio := PointerRatio(x, width).value;
    var v' := r.0.value;
    assert v'.duration == v.duration && v'.currentTime == v.duration * ratio && r.1.progress == ratio;
    ScaleWithin(v.duration, ratio);
    QuotientOfScale(v.duration, ratio);
    assert v'.currentTime / v'.duration == ratio;
  }

  lemma ScaleWithin(d: real, f: real)
    requires d >= 0.0 && 0.0 <= f <= 1.0
    ensures 0.0 <= d * f <= d
  {
    assert d * (1.0 - f) >= 0.0;
  }

  lemma QuotientOfScale(d: real, f: real)
    requires d != 0.0
    ensures (d * f) / d == f
  {
  }

  /** A highlight is shown for a hover time when its event lies strictly
      within five seconds of it. */
  predicate InWindow(h: Highlighter, time: real)
  {
    h.eventTime > time - 5.0 && h.eventTime < time + 5.0
  }

  /** The index of the first highlighter within the window, or |hs| when there
      is none. */
  function FirstInWindow(hs: seq<Highlighter>, time: real): (i: nat)
    ensures i <= |hs|
    ensures forall j :: 0 <= j < i ==> !InWindow(hs[j], time)
    ensures i < |hs| ==> InWindow(hs[i], time)
  {
    if |hs| == 0 then 0
    else if InWindow(hs[0], time) then 0
    else 1 + FirstInWindow(hs[1..], time)
  }

  /** `highlighters.find(...)`: the first highlighter in the window. */
  function FindHighlight(hs: seq<Highlighter>, time: real): (r: Option<Highlighter>)
    ensures r.None? <==> forall h :: h in hs ==> !InWindow(h, time)
    ensures r.Some? ==> exists i :: 0 <= i < |hs| && hs[i] == r.value && InWindow(hs[i], time)
                                   && forall j :: 0 <= j < i ==> !InWindow(hs[j], time)
  {
    var i := FirstInWindow(hs, time);
    if i < |hs| then Some(hs[i]) else None
  }

  /** The hovered point's time: `duration * (offsetX / clientWidth)`; a zero
      width gives a non-finite time, which the preview's `currentTime` setter
      rejects (None). */
  function HoverTime(duration: real, x: real, width: nat): (r: Option<real>)
    ensures r.Some? <==> width > 0
    ensures width > 0 && duration >= 0.0 && 0.0 <= x <= width as real ==> 0.0 <= r.value <= duration
  {
    if width == 0 then None
    else
      var f := x / width as real;
      if duration >= 0.0 && 0.0 <= f <= 1.0 then ScaleWithin(duration, f); Some(duration * f)
      else Some(duration * f)
  }

  /** The preview's clock text: the hovered time rounded down, as "HH:MM:SS". */
  function HoverText(time: real): (r: string)
    ensures time >= 0.0 ==> TimeStringToNumber(r) == Some(Floor(time))
  {
    if time >= 0.0 then RoundTrip(Floor(time)); TimeNumberToString(Floor(time))
    else TimeNumberToString(Floor(time))
  }

  /** The preview's left offset: the pointer offset, moved left so the preview
      does not overhang the bar's right end, then moved right so it does not
      overhang the left end. The second adjustment is applied last, so it wins
      when the bar is narrower than the preview. */
  function PreviewLeft(x: real, clientWidth: real, previewWidth: real): (r: real)
    ensures x < previewWidth / 2.0 ==> r == previewWidth / 2.0
    ensures r >= previewWidth / 2.0 || r == clientWidth - previewWidth / 2.0
    ensures previewWidth / 2.0 <= x && x + previewWidth / 2.0 <= clientWidth ==> r == x
  {
    var left := if x + previewWidth / 2.0 > clientWidth then clientWidth - previewWidth / 2.0 else x;
    if x < previewWidth / 2.0 then previewWidth / 2.0 else left
  }

  /** When the preview fits on the bar, its left offset is the pointer offset
      clamped into [previewWidth/2, clientWidth - previewWidth/2]: it never
      overhangs either end, and it is the point of that interval nearest the
      pointer. */
  lemma PreviewLeftClamped(x: real, clientWidth: real, previewWidth: real)
    requires 0.0 <= previewWidth <= clientWidth
    ensures var r := PreviewLeft(x, clientWidth, previewWidth);
      && previewWidth / 2.0 <= r <= clientWidth - previewWidth / 2.0
      && (x < previewWidth / 2.0 ==> r == previewWidth / 2.0)
      && (x > clientWidth - previewWidth / 2.0 ==> r == clientWidth - previewWidth / 2.0)
      && (previewWidth / 2.0 <= x <= clientWidth - previewWidth / 2.0 ==> r == x)
  {
  }

  /** `onMouseMove` over the bar, given the preview element and its width: the
      preview seeks to the hovered time and the state records the highlight,
      the clock text and the preview's offset. Without a preview element, or on
      a bar of zero width (the preview's `currentTime` setter throws), nothing
      changes. */
  function MouseMove(preview: Option<Video>, previewWidth: real, hs: seq<Highlighter>,
                     s: ProgressState, x: real, width: nat): (r: (Option<Video>, ProgressState))
    ensures preview.None? || width == 0 ==> r == (preview, s)
    ensures preview.Some? && width > 0 ==>
      var time := HoverTime(preview.value.duration, x, width).value;
      && r.0 == Some(preview.value.(currentTime := time))
      && r.1.progress == s.progress
      && r.1.hoverHighlight == FindHighlight(hs, time)
      && r.1.previewLeft == PreviewLeft(x, width as real, previewWidth)
      && (time >= 0.0 ==> TimeStringToNumber(r.1.hoverTime) == Some(Floor(time)))
  {
    match preview
    case None => (preview, s)
    case Some(p) =>
      match HoverTime(p.duration, x, width)
      case None => (preview, s)
      case Some(time) =>
        (Some(p.(currentTime := time)),
         s.(hoverHighlight := FindHighlight(hs, time),
            hoverTime := HoverText(time),
            previewLeft := PreviewLeft(x, width as real, previewWidth)))
  }
}
