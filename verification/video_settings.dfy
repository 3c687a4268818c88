/** The player's settings menu: whether it is open, which submenu is shown,
    the chosen playback speed and the chosen quality (source link). */
module VideoSettings {
  import opened Common
  import opened MediaElement

  datatype Submenu = SpeedMenu | QualityMenu

  datatype SettingsState = SettingsState(
    speed: real,
    quality: Option<VideoLink>,
    open: bool,
    selectMenu: Option<Submenu>)

  const InitialSettings: SettingsState := SettingsState(1.0, None, false, None)

  /** `toggleOpen`: the menu opens or closes, and any submenu is dropped so the
      menu reopens at its top level. */
  function ToggleOpen(s: SettingsState): (r: SettingsState)
    ensures r.open == !s.open
    ensures r.selectMenu.None?
    ensures r.speed == s.speed && r.quality == s.quality
  {
    s.(open := !s.open, selectMenu := None)
  }

  /** Opening and closing again leaves the menu where it started, except that
      it is back at its top level. */
  lemma ToggleOpenTwice(s: SettingsState)
    ensures ToggleOpen(ToggleOpen(s)) == s.(selectMenu := None)
  {
  }

  /** `speedSet`: with a video, the playback rate of both element and menu
      becomes the chosen speed and the menu closes; without one nothing
      happens. */
  function SpeedSet(video: Option<Video>, s: SettingsState, speed: real): (r: (Option<Video>, SettingsState))
    ensures video.None? ==> r == (video, s)
    ensures video.Some? ==>
      && r.0 == Some(video.value.(playbackRate := speed))
      && r.1 == s.(speed := speed, open := false)
  {
    match video
    case None => (video, s)
    case Some(v) => (Some(v.(playbackRate := speed)), s.(speed := speed, open := false))
  }

  /** The index of the first link whose URL is `src`, or |links|. */
  function FirstLink(links: seq<VideoLink>, src: string): (i: nat)
    ensures i <= |links|
    ensures forall j :: 0 <= j < i ==> links[j].link != src
    ensures i < |links| ==> links[i].link == src
  {
    if |links| == 0 then 0
    else if links[0].link == src then 0
    else 1 + FirstLink(links[1..], src)
  }

  /** `links.find(({ link }) => link === src)`. */
  function FindLink(links: seq<VideoLink>, src: string): (r: Option<VideoLink>)
    ensures r.None? <==> forall l :: l in links ==> l.link != src
    ensures r.Some? ==> r.value in links && r.value.link == src
  {
    var i := FirstLink(links, src);
    if i < |links| then Some(links[i]) else None
  }

  /** The rate the media load algorithm restores: the element's
      `defaultPlaybackRate`, which the player never changes from 1. */
  const DefaultPlaybackRate: real := 1.0

  /** `qualitySet`: with a video, its source becomes the chosen URL with a
      `#t=` fragment holding the current time (rendered by the caller as
      `timeText`), the chosen quality becomes the first link with that URL,
      and the menu closes. Assigning `src` runs the media element load
      algorithm (section 4.8.11.5 of the HTML Living Standard), which pauses
      the element and restores the default playback rate. */
  function QualitySet(video: Option<Video>, links: seq<VideoLink>, s: SettingsState,
                      src: string, timeText: string): (r: (Option<Video>, SettingsState))
    ensures video.None? ==> r == (video, s)
    ensures video.Some? ==>
      && r.0.Some?
      && r.0.value.paused && r.0.value.playbackRate == DefaultPlaybackRate
      && r.0.value.(src := video.value.src, paused := video.value.paused,
                    playbackRate := video.value.playbackRate) == video.value
      && |r.0.value.src| == |src| + 3 + |timeText|
      && r.0.value.src[..|src|] == src
      && r.0.value.src[|src|..] == "#t=" + timeText
      && r.1 == s.(quality := FindLink(links, src), open := false)
  {
    match video
    case None => (video, s)
    case Some(v) =>
      var full := src + "#t=" + timeText;
      assert full[..|src|] == src && full[|src|..] == "#t=" + timeText;
      (Some(v.(src := full, paused := true, playbackRate := DefaultPlaybackRate)),
       s.(quality := FindLink(links, src), open := false))
  }

  /** After a quality change the speed menu still marks the speed chosen
      before, while the element plays at the default rate again. */
  lemma QualitySetResetsRate(v: Video, links: seq<VideoLink>, s: SettingsState,
                             src: string, timeText: string)
    requires v.playbackRate == 2.0 && s.speed == 2.0
    ensures var r := QualitySet(Some(v), links, s, src, timeText);
      r.1.speed == 2.0 && r.0.Some? && r.0.value.playbackRate == 1.0
  {
  }

  /** The speeds offered: 0.25 to 2 in steps of 0.25. */
  const SpeedList: seq<real> := [0.25, 0.5, 0.75, 1.0, 1.25, 1.5, 1.75, 2.0]

  lemma SpeedListSteps()
    ensures |SpeedList| == 8
    ensures forall i :: 0 <= i < |SpeedList| ==> SpeedList[i] == 0.25 * (i + 1) as real
  {
  }

  /** What the open menu shows. */
  datatype MenuView =
    | TopLevel(speed: real, rendition: Option<string>)
    | SpeedItems(speeds: seq<(real, bool)>)
    | QualityItems(qualities: seq<(string, bool)>)

  /** `RenderMenu`: the speed list with the current speed marked, the quality
      list with the chosen link marked, or the top level showing the current
      speed and the chosen rendition. */
  function RenderMenu(s: SettingsState, links: seq<VideoLink>): (r: MenuView)
    ensures s.selectMenu == Some(SpeedMenu) <==> r.SpeedItems?
    ensures s.selectMenu == Some(QualityMenu) <==> r.QualityItems?
    ensures r.SpeedItems? ==>
              && |r.speeds| == |SpeedList|
              && forall i :: 0 <= i < |SpeedList| ==> r.speeds[i] == (SpeedList[i], SpeedList[i] == s.speed)
    ensures r.QualityItems? ==>
              && |r.qualities| == |links|
              && forall i :: 0 <= i < |links| ==>
                   r.qualities[i] == (links[i].rendition, s.quality.Some? && s.quality.value.link == links[i].link)
    ensures r.TopLevel? ==>
              && r.speed == s.speed
              && r.rendition == (if s.quality.Some? then Some(s.quality.value.rendition) else None)
  {
    match s.selectMenu
    case Some(SpeedMenu) =>
      SpeedItems(seq(|SpeedList|, i requires 0 <= i < |SpeedList| => (SpeedList[i], SpeedList[i] == s.speed)))
    case Some(QualityMenu) =>
      QualityItems(seq(|links|, i requires 0 <= i < |links| =>
        (links[i].rendition, s.quality.Some? && s.quality.value.link == links[i].link)))
    case None =>
      TopLevel(s.speed, if s.quality.Some? then Some(s.quality.value.rendition) else None)
  }

  /** The top-level items open a submenu; a submenu's title returns to the top
      level. */
  function SelectMenu(s: SettingsState, m: Submenu): (r: SettingsState)
    ensures r.selectMenu == Some(m)
    ensures RenderMenu(r, []).SpeedItems? <==> m == SpeedMenu
    ensures RenderMenu(r, []).QualityItems? <==> m == QualityMenu
    ensures r.(selectMenu := s.selectMenu) == s
  {
    s.(selectMenu := Some(m))
  }

  function ResetMenu(s: SettingsState): (r: SettingsState)
    ensures RenderMenu(r, []).TopLevel?
    ensures r.(selectMenu := s.selectMenu) == s
  {
    s.(selectMenu := None)
  }

  /** Choosing the i-th speed from the speed list marks exactly that item the
      next time the list is shown. */
  lemma SpeedSetMarksChoice(v: Video, s: SettingsState, i: nat, links: seq<VideoLink>)
    requires i < |SpeedList|
    ensures var r := SpeedSet(Some(v), s, SpeedList[i]).1;
      var view := RenderMenu(SelectMenu(r, SpeedMenu), links);
      forall j :: 0 <= j < |SpeedList| ==> (view.speeds[j].1 <==> j == i)
  {
    SpeedListSteps();
  }

  /** Choosing a quality from the list marks exactly the items whose URL is the
      chosen one the next time the list is shown. */
  lemma QualitySetMarksChoice(v: Video, s: SettingsState, links: seq<VideoLink>, i: nat, timeText: string)
    requires i < |links|
    ensures var r := QualitySet(Some(v), links, s, links[i].link, timeText).1;
      var view := RenderMenu(SelectMenu(r, QualityMenu), links);
      forall j :: 0 <= j < |links| ==> (view.qualities[j].1 <==> links[j].link == links[i].link)
  {
    assert links[i] in links;
  }

  /** The mount effect: the menu's speed copies the element's playback rate. */
  function MountEffect(video: Option<Video>, s: SettingsState): (r: SettingsState)
    ensures video.Some? ==> r.speed == video.value.playbackRate
    ensures r.(speed := s.speed) == s
  {
    match video
    case None => s
    case Some(v) => s.(speed := v.playbackRate)
  }
}
