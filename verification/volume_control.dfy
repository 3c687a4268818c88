/** The player's volume control: the icon chosen from the muted flag and the
    volume, the mute toggle, setting the volume from a click on the volume
    bar, and the two effects that copy the element's state into the
    control's. */
module VolumeControl {
  import opened Common
  import opened MediaElement

  datatype VolumeState = VolumeState(muted: bool, volume: real)

  const InitialVolume: VolumeState := VolumeState(false, 0.5)

  datatype Icon = Mute | VolumeOff | VolumeLow | VolumeMid | VolumeHigh

  /** `VolumeIcon`: muted shows the mute icon whatever the volume; otherwise a
      volume of exactly 0 is "off", below 0.3 "low", below 0.6 "mid", and the
      rest "high". */
  function IconOf(s: VolumeState): (r: Icon)
    ensures r == Mute <==> s.muted
    ensures r == VolumeOff <==> !s.muted && s.volume == 0.0
    ensures r == VolumeLow <==> !s.muted && s.volume != 0.0 && s.volume < 0.3
    ensures r == VolumeMid <==> !s.muted && 0.3 <= s.volume < 0.6
    ensures r == VolumeHigh <==> !s.muted && s.volume >= 0.6
  {
    if s.muted then Mute
    else if s.volume == 0.0 then VolumeOff
    else if s.volume < 0.3 then VolumeLow
    else if s.volume < 0.6 then VolumeMid
    else VolumeHigh
  }

  /** The unmuted icons in order of loudness. */
  function Loudness(i: Icon): nat
  {
    match i
    case Mute => 0
    case VolumeOff => 0
    case VolumeLow => 1
    case VolumeMid => 2
    case VolumeHigh => 3
  }

  /** For volumes the element can hold ([0, 1]), a louder volume never shows a
      quieter icon. */
  lemma IconMonotone(a: real, b: real)
    requires 0.0 <= a <= b <= 1.0
    ensures Loudness(IconOf(VolumeState(false, a))) <= Loudness(IconOf(VolumeState(false, b)))
  {
  }

  /** `toggleMute`: with a video, the element and the control both take the
      negation of the control's muted flag; without one nothing happens. */
  function ToggleMute(video: Option<Video>, s: VolumeState): (r: (Option<Video>, VolumeState))
    ensures video.None? ==> r == (video, s)
    ensures video.Some? ==> r.0 == Some(video.value.(muted := !s.muted)) && r.1 == s.(muted := !s.muted)
  {
    match video
    case None => (video, s)
    case Some(v) => (Some(v.(muted := !s.muted)), s.(muted := !s.muted))
  }

  /** Toggling twice leaves the control as it was and the element's muted flag
      equal to the control's. */
  lemma ToggleMuteTwice(video: Option<Video>, s: VolumeState)
    ensures var once := ToggleMute(video, s);
      var twice := ToggleMute(once.0, once.1);
      && twice.1 == s
      && (video.Some? ==> twice.0 == Some(video.value.(muted := s.muted)))
  {
  }

  /** The relation the effects maintain between element and control: the same
      muted flag, and a shown volume that is 0 while muted and the element's
      volume otherwise. */
  predicate Consistent(v: Video, s: VolumeState)
  {
    v.muted == s.muted && s.volume == (if s.muted then 0.0 else v.volume)
  }

  /** `volumeChangeFn`: with a video, a muted control is unmuted on the element
      and in the control first; then the clamped pointer ratio becomes the
      volume of both. A NaN ratio makes the element's `volume` setter throw
      after the unmute, so only the unmute happens. */
  function VolumeChange(video: Option<Video>, s: VolumeState, x: real, width: nat): (r: (Option<Video>, VolumeState))
    ensures video.None? ==> r == (video, s)
    ensures video.Some? ==> r.0.Some? && !r.1.muted
    ensures video.Some? && s.muted ==> !r.0.value.muted
    ensures video.Some? && !s.muted ==> r.0.value.muted == video.value.muted
    ensures video.Some? && PointerRatio(x, width).Some? ==>
      r.0.value.volume == r.1.volume == PointerRatio(x, width).value
    ensures video.Some? && PointerRatio(x, width).None? ==>
      r.0.value.volume == video.value.volume && r.1.volume == s.volume
    ensures r.0.Some? ==> r.0.value.(muted := video.value.muted, volume := video.value.volume) == video.value
  {
    match video
    case None => (video, s)
    case Some(v) =>
      var v1 := if s.muted then v.(muted := false) else v;
      var s1 := if s.muted then s.(muted := false) else s;
      match PointerRatio(x, width)
      case None => (Some(v1), s1)
      case Some(volume) => (Some(v1.(volume := volume)), s1.(volume := volume))
  }

  /** The effect on `muted`: with a video, the shown volume becomes 0 while
      muted and the element's volume otherwise. */
  function MutedEffect(video: Option<Video>, s: VolumeState): (r: VolumeState)
    ensures video.None? ==> r == s
    ensures video.Some? && video.value.muted == s.muted ==> Consistent(video.value, r)
    ensures r.muted == s.muted
  {
    match video
    case None => s
    case Some(v) => if s.muted then s.(volume := 0.0) else s.(volume := v.volume)
  }

  /** The mount effect: the control copies the element's muted flag and volume. */
  function MountEffect(video: Option<Video>, s: VolumeState): (r: VolumeState)
    ensures video.Some? ==> r.muted == video.value.muted && r.volume == video.value.volume
    ensures video.None? ==> r == s
  {
    match video
    case None => s
    case Some(v) => VolumeState(v.muted, v.volume)
  }

  /** After mounting, the muted effect (which runs again because the muted flag
      may have changed) leaves element and control consistent. */
  lemma MountConsistent(v: Video, s: VolumeState)
    ensures Consistent(v, MutedEffect(Some(v), MountEffect(Some(v), s)))
  {
  }

  /** A mute toggle, followed by the muted effect it triggers, keeps element
      and control consistent. */
  lemma ToggleMuteConsistent(v: Video, s: VolumeState)
    requires Consistent(v, s)
    ensures var r := ToggleMute(Some(v), s);
      Consistent(r.0.value, MutedEffect(r.0, r.1))
  {
  }

  /** A volume change, followed by the muted effect, keeps element and control
      consistent; when the ratio is a number, the control is unmuted and shows
      the new volume. */
  lemma VolumeChangeConsistent(v: Video, s: VolumeState, x: real, width: nat)
    requires Consistent(v, s)
    ensures var r := VolumeChange(Some(v), s, x, width);
      var shown := MutedEffect(r.0, r.1);
      && Consistent(r.0.value, shown)
      && (PointerRatio(x, width).Some? ==> !shown.muted && shown.volume == PointerRatio(x, width).value)
  {
  }
}
