/** The video player's own handlers: keyboard seeking and play/pause, the
    click on the video, the paused flag that mirrors the element, the
    fullscreen flag and the loading flag. */
module VideoPlayer {
  import opened Common
  import opened MediaElement

  datatype PlayerState = PlayerState(paused: bool, fullScreen: bool, loading: bool)

  const InitialPlayer: PlayerState := PlayerState(false, false, false)

  /** How far one arrow key seeks, in seconds. */
  const SeekStep: real := 5.0

  /** `play()` / `pause()`: the element's paused flag. */
  function Play(v: Video): Video { v.(paused := false) }

  function Pause(v: Video): Video { v.(paused := true) }

  /** The keydown handler on the element: "ArrowRight" seeks five seconds on
      only when that stays before the end, "ArrowLeft" seeks five seconds back
      only when that stays after the start, and "Space" plays a paused video
      and pauses a playing one. Any other key, or no video, changes nothing. */
  function KeyDown(video: Option<Video>, code: string): (r: Option<Video>)
    ensures r.Some? <==> video.Some?
    ensures video.Some? ==> r.value.duration == video.value.duration
    ensures video.Some? && code == "ArrowRight" && r.value.currentTime != video.value.currentTime ==>
      r.value.currentTime == video.value.currentTime + SeekStep < video.value.duration
    ensures video.Some? && code == "ArrowLeft" && r.value.currentTime != video.value.currentTime ==>
      0.0 < r.value.currentTime == video.value.currentTime - SeekStep
    ensures video.Some? && 0.0 <= video.value.currentTime <= video.value.duration
                        && r.value.currentTime != video.value.currentTime ==>
      0.0 < r.value.currentTime < video.value.duration
    ensures video.Some? && code != "Space" ==> r.value.paused == video.value.paused
    ensures video.Some? && code == "Space" ==> r.value.paused == !video.value.paused
    ensures video.Some? && code != "ArrowRight" && code != "ArrowLeft" ==>
      r.value.currentTime == video.value.currentTime
  {
    match video
    case None => None
    case Some(v) =>
      assert "ArrowRight"[5] != "ArrowLeft"[5];
      var ct := v.currentTime;
      var v1 := if code == "ArrowRight" && ct + SeekStep < v.duration then v.(currentTime := ct + SeekStep) else v;
      var v2 := if code == "ArrowLeft" && ct - SeekStep > 0.0 then v1.(currentTime := ct - SeekStep) else v1;
      var v3 := if code == "Space" then (if v.paused then Play(v2) else Pause(v2)) else v2;
      Some(v3)
  }

  /** The two arrows undo each other: a right seek that happened is undone by
      a left one when the video was past its start, and a left seek that
      happened is undone by a right one when the video was before its end. */
  lemma ArrowsUndo(v: Video)
    ensures v.currentTime + SeekStep < v.duration && v.currentTime > 0.0 ==>
      KeyDown(KeyDown(Some(v), "ArrowRight"), "ArrowLeft") == Some(v)
    ensures v.currentTime - SeekStep > 0.0 && v.currentTime < v.duration ==>
      KeyDown(KeyDown(Some(v), "ArrowLeft"), "ArrowRight") == Some(v)
  {
    var r := KeyDown(Some(v), "ArrowRight").value;
    assert v.currentTime + SeekStep < v.duration ==> r == v.(currentTime := v.currentTime + SeekStep);
    var l := KeyDown(Some(v), "ArrowLeft").value;
    assert v.currentTime - SeekStep > 0.0 ==> l == v.(currentTime := v.currentTime - SeekStep);
  }

  /** Space twice restores the element. */
  lemma SpaceTwice(v: Video)
    ensures KeyDown(KeyDown(Some(v), "Space"), "Space") == Some(v)
  {
  }

  /** `onVideoClick`: play or pause chosen by the player's own paused flag
      (not the element's). */
  function VideoClick(s: PlayerState, video: Option<Video>): (r: Option<Video>)
    ensures r.Some? <==> video.Some?
    ensures video.Some? ==> r.value == video.value.(paused := !s.paused)
  {
    match video
    case None => None
    case Some(v) => Some(if s.paused then Play(v) else Pause(v))
  }

  /** `onPlayState`, run on the element's play and pause events: the player's
      flag copies the element's. */
  function PlayState(s: PlayerState, v: Video): (r: PlayerState)
    ensures r.paused == v.paused
    ensures r.(paused := s.paused) == s
  {
    s.(paused := v.paused)
  }

  /** Once the flag mirrors the element, a click on the video does what Space
      does. */
  lemma ClickAgreesWithSpace(s: PlayerState, v: Video)
    ensures VideoClick(PlayState(s, v), Some(v)) == KeyDown(Some(v), "Space")
  {
  }

  /** `fullScreenFn`: the flag is set only when there is a video with a parent
      element to put in full screen. */
  function EnterFullScreen(s: PlayerState, video: Option<Video>, hasParent: bool): (r: PlayerState)
    ensures r.fullScreen <==> s.fullScreen || (video.Some? && hasParent)
    ensures r.(fullScreen := s.fullScreen) == s
  {
    if video.Some? && hasParent then s.(fullScreen := true) else s
  }

  /** `exitFullScreenFn`: the flag is cleared unconditionally. */
  function ExitFullScreen(s: PlayerState): (r: PlayerState)
    ensures !r.fullScreen
    ensures r.(fullScreen := s.fullScreen) == s
  {
    s.(fullScreen := false)
  }

  /** Entering and then leaving full screen returns to a windowed player. */
  lemma FullScreenRoundTrip(s: PlayerState, v: Video)
    requires !s.fullScreen
    ensures EnterFullScreen(s, Some(v), true).fullScreen
    ensures ExitFullScreen(EnterFullScreen(s, Some(v), true)) == s
  {
  }

  /** `onLoadStart` and `onLoaded`: the loading flag. */
  function LoadStart(s: PlayerState): (r: PlayerState)
    ensures r.loading && r.(loading := s.loading) == s
  {
    s.(loading := true)
  }

  function Loaded(s: PlayerState): (r: PlayerState)
    ensures !r.loading && r.(loading := s.loading) == s
  {
    s.(loading := false)
  }
}
