# React widget library: a Dafny model of its logic

This project models the pure logic that sits under the widgets of a small
React component library, and proves properties of that logic. The widgets
render SVG and HTML; the model keeps only what they compute. Each module
follows one source file or component.

- **Video player**
  - `VideoTime`: the `HH:MM:SS` clock text and its reading back into seconds.
  - `MediaElement`: the video element, with the setters that clamp and reject.
  - `VideoProgress`: seeking on the progress bar, the highlight under the pointer, and the preview position.
  - `VolumeControl`: the volume tiers, muting, and the volume bar.
  - `VideoSettings`: the speed and quality menu.
  - `VideoPlayer`: keyboard seeking, play and pause, and the fullscreen and loading flags.
- **Small widgets**
  - `Pagination`: the `usePage` hook.
  - `Nav`: route labels and the under-bar.
  - `Slider`: click and drag values.
- **Colour palette**
  - `ColorPalette`: hwb() to rgba and hex. It is proved to agree, before
    rounding, with the hwb() conversion of section 8 of CSS Color Module Level 4.
  - `PaletteSlider`: the 0..100 slider values.
- **Charts**
  - `HeatMap`: tick labels, square cell sizing and centring, the nine-value
    legend built by midpoint rounds, and cell colours.
  - `BoxPlot` and `BoxShape`: the value-to-pixel map, ticks, column and box
    placement, and the whisker, box and median coordinates.
  - `ViolinPlot`: its value-to-pixel map, interval mapping, bin-count input and bounds.
- **Calendar heat map**
  - `CalendarHeatMap`: date utilities, day bucketing into weeks, threshold colouring and sizing.
  - `CalendarHeatMapPage`: the page's five-month window paging.
- **Date picker**
  - `DateList`: the day grid, the selection and booking classification, and the click guard.
  - `PickerCalendar`: the three-state range selection machine and the month navigation.
  - `YearList`: the endless year list.
- **Timeline**
  - `TimeLine`: the month axis, the x position of a date, category grouping,
    first-fit lane packing with a three-day gap, and lane layout.

Shared modules:

- `Common`: an `Option` type and JavaScript's `||` defaults, `slice`,
  truncating `%`, string order, number-to-string, splitting and zero padding.
- `Dates`: Gregorian dates as (year, month, day) triples, day numbers and
  weekdays, and the `Date` constructor's month-overflow normalisation.
- `Sorting`: a stable sort by key, standing in for `Array.prototype.sort`.
- `LinearScale`: the affine value-to-pixel maps.
- `TooltipData`: the chart tooltip list with add-if-absent and remove-by-key.

A number that JavaScript would make non-finite is modelled as `None`: a
division by zero, or a string that is not a number.

## Model

| member | source | states |
|---|---|---|
| MediaElement.PointerRatio | src/components/VideoPlayer/VolumeControl.tsx:39 | the ratio is undefined exactly for 0 over a zero width; otherwise it lies in [0, 1], is the offset over the width inside the bar, 1 past its right end and 0 left of it |
| MediaElement.PointerRatioMonotone | src/components/VideoPlayer/Progress.tsx:29 | a position further right never gives a smaller ratio |
| MediaElement.PointerRatioOnto | src/components/VideoPlayer/Progress.tsx:29 | every ratio in [0, 1] is reached by clicking at that fraction of the width |
| VideoTime.Hours | src/components/VideoPlayer/utils.ts:12 | the hours field is rounded down: 3600 times it is at most the count and 3600 times the next hour is past it, negative counts included |
| VideoTime.Minutes | src/components/VideoPlayer/utils.ts:11 | the minutes field lies in 0..59 for a non-negative count and in -60..0 for a negative one, since `%` keeps the sign of the dividend |
| VideoTime.Seconds | src/components/VideoPlayer/utils.ts:10 | the seconds field lies strictly between -60 and 60, has the sign of the count, and differs from the count by whole minutes |
| VideoTime.TimeNumberToString | src/components/VideoPlayer/utils.ts:9-16 | for a non-negative count the text splits at ':' into exactly the padded hours, minutes and seconds |
| VideoTime.TimeStringToNumber | src/components/VideoPlayer/utils.ts:1-7 | the text reads as a count exactly when it has at least three ':'-separated pieces and the first three are digit strings, each read as its decimal value |
| VideoTime.FieldsOfNonNegative | src/components/VideoPlayer/utils.ts:9-12 | for a non-negative count the fields are the usual quotient and remainders, minutes and seconds stay below 60, and the fields add back up to the count |
| VideoTime.FieldsOfSum | src/components/VideoPlayer/utils.ts:9-12 | a count built from hours, minutes below 60 and seconds below 60 splits back into those fields |
| VideoTime.RoundTrip | src/components/VideoPlayer/utils.ts:1-16 | reading back the printed clock of any non-negative count gives the count |
| VideoTime.ClockShape | src/components/VideoPlayer/utils.ts:9-16 | the clock is exactly eight characters below 100 hours and longer from then on, with ':' before the two seconds digits |
| VideoTime.Pad2OfTwoDigits | src/components/VideoPlayer/utils.ts:16 | a two-digit string is the padded form of its own value |
| VideoTime.ReadClock | src/components/VideoPlayer/utils.ts:1-7 | "h:m:s" made of digit strings reads as hours*3600 + minutes*60 + seconds |
| VideoTime.PrintFields | src/components/VideoPlayer/utils.ts:9-16 | a count made of two-digit fields with minutes and seconds below 60 prints as those fields |
| VideoTime.CanonicalRoundTrip | src/components/VideoPlayer/utils.ts:1-16 | the other direction of the round trip: a well-formed "HH:MM:SS" reads as a count that prints back as the same text |
| VideoPlayer.KeyDown | src/components/VideoPlayer/index.tsx:76-92 | an arrow moves the time by exactly five seconds and only when the result stays strictly inside the video, Space flips paused, and nothing else changes |
| VideoPlayer.ArrowsUndo | src/components/VideoPlayer/index.tsx:81-86 | a right seek that happened is undone by a left one, and the other way round, when the time was strictly inside the video |
| VideoPlayer.SpaceTwice | src/components/VideoPlayer/index.tsx:87-89 | Space twice restores the element |
| VideoPlayer.VideoClick | src/components/VideoPlayer/index.tsx:55-61 | a click sets the element's paused flag to the negation of the player's own flag |
| VideoPlayer.PlayState | src/components/VideoPlayer/index.tsx:63-65 | the player's flag copies the element's, and nothing else changes |
| VideoPlayer.ClickAgreesWithSpace | src/components/VideoPlayer/index.tsx:55-89 | once the flag mirrors the element, a click does what Space does |
| VideoPlayer.EnterFullScreen | src/components/VideoPlayer/index.tsx:41-49 | the flag is set exactly when there is a video with a parent element |
| VideoPlayer.ExitFullScreen | src/components/VideoPlayer/index.tsx:36-39 | the flag is cleared and nothing else changes |
| VideoPlayer.FullScreenRoundTrip | src/components/VideoPlayer/index.tsx:36-49 | entering and leaving full screen returns to the windowed state |
| VideoPlayer.LoadStart | src/components/VideoPlayer/index.tsx:51 | the loading flag is set and nothing else changes |
| VideoPlayer.Loaded | src/components/VideoPlayer/index.tsx:53 | the loading flag is cleared and nothing else changes |
| VideoSettings.ToggleOpen | src/components/VideoPlayer/Settings.tsx:18-23 | the menu opens or closes and always comes back at its top level; speed and quality are kept |
| VideoSettings.ToggleOpenTwice | src/components/VideoPlayer/Settings.tsx:18-23 | toggling twice restores the menu apart from dropping the submenu |
| VideoSettings.SpeedSet | src/components/VideoPlayer/Settings.tsx:25-31 | with a video, element and menu take the chosen speed and the menu closes; without one nothing changes |
| VideoSettings.FirstLink | src/components/VideoPlayer/Settings.tsx:36 | the index found is the first link with the URL, or the length when there is none |
| VideoSettings.FindLink | src/components/VideoPlayer/Settings.tsx:36 | nothing is found exactly when no link has the URL; what is found is a link with that URL |
| VideoSettings.QualitySet | src/components/VideoPlayer/Settings.tsx:33-40 | the element's source becomes the URL followed by "#t=" and the time text, the load this starts pauses the element and restores the default playback rate 1, the quality becomes the link found, the menu closes, and nothing else changes |
| VideoSettings.QualitySetResetsRate | src/components/VideoPlayer/Settings.tsx:23-40 | after a quality change at speed 2 the menu still marks 2 while the element plays at 1 |
| VideoSettings.SpeedListSteps | src/components/VideoPlayer/Settings.tsx:44 | the eight speeds go from 0.25 to 2 in steps of 0.25 |
| VideoSettings.RenderMenu | src/components/VideoPlayer/Settings.tsx:42-94 | the speed list, the quality list or the top level is shown exactly as the submenu says, each list marking the current choice |
| VideoSettings.SelectMenu | src/components/VideoPlayer/Settings.tsx:84-88 | choosing a submenu shows that submenu and changes nothing else |
| VideoSettings.ResetMenu | src/components/VideoPlayer/Settings.tsx:23 | the top level is shown again and nothing else changes |
| VideoSettings.SpeedSetMarksChoice | src/components/VideoPlayer/Settings.tsx:25-59 | after choosing the i-th speed, exactly that item is marked in the speed list |
| VideoSettings.QualitySetMarksChoice | src/components/VideoPlayer/Settings.tsx:33-78 | after choosing a quality, exactly the items with that URL are marked |
| VideoSettings.MountEffect | src/components/VideoPlayer/Settings.tsx:96-98 | the menu's speed copies the element's playback rate and nothing else changes |
| VolumeControl.IconOf | src/components/VideoPlayer/VolumeControl.tsx:18-24 | each icon is shown for exactly its range of muted flag and volume |
| VolumeControl.IconMonotone | src/components/VideoPlayer/VolumeControl.tsx:18-24 | a louder volume in [0, 1] never shows a quieter icon |
| VolumeControl.ToggleMute | src/components/VideoPlayer/VolumeControl.tsx:26-31 | with a video, element and control both take the negation of the control's flag |
| VolumeControl.ToggleMuteTwice | src/components/VideoPlayer/VolumeControl.tsx:26-31 | toggling twice restores the control and leaves the element's flag equal to it |
| VolumeControl.VolumeChange | src/components/VideoPlayer/VolumeControl.tsx:33-43 | with a video the control ends unmuted, and element and control both hold the clamped ratio when it is a number; only muted and volume change |
| VolumeControl.MutedEffect | src/components/VideoPlayer/VolumeControl.tsx:67-75 | the shown volume becomes 0 while muted and the element's volume otherwise, which makes control and element consistent |
| VolumeControl.MountEffect | src/components/VideoPlayer/VolumeControl.tsx:77-82 | with a video element the control copies both its muted flag and its volume; without one nothing changes |
| VolumeControl.MountConsistent | src/components/VideoPlayer/VolumeControl.tsx:67-82 | after mounting and the muted effect, control and element are consistent |
| VolumeControl.ToggleMuteConsistent | src/components/VideoPlayer/VolumeControl.tsx:26-75 | a toggle followed by the muted effect keeps control and element consistent |
| VolumeControl.VolumeChangeConsistent | src/components/VideoPlayer/VolumeControl.tsx:33-75 | a volume change followed by the muted effect keeps them consistent and shows the new volume unmuted |
| VideoProgress.VideoTimeSet | src/components/VideoPlayer/Progress.tsx:26-33 | with a video and a numeric ratio, the bar's fraction and the seek target are the same clamped ratio; otherwise nothing changes |
| VideoProgress.TimeUpdateRatio | src/components/VideoPlayer/Progress.tsx:81-88 | the reported fraction exists exactly for a non-zero duration and is the time over the duration |
| VideoProgress.SeekAgreesWithTimeUpdate | src/components/VideoPlayer/Progress.tsx:26-88 | after a seek, the next timeupdate reports the fraction the bar was set to, and the time lies within the video |
| VideoProgress.FirstInWindow | src/components/VideoPlayer/Progress.tsx:67-69 | the index found is the first highlighter within five seconds, or the length |
| VideoProgress.FindHighlight | src/components/VideoPlayer/Progress.tsx:67-69 | nothing is found exactly when no highlighter is within five seconds; otherwise the first one in the window is found |
| VideoProgress.HoverTime | src/components/VideoPlayer/Progress.tsx:63-65 | the hover time exists exactly for a positive width and lies within the duration for an offset on the bar |
| VideoProgress.HoverText | src/components/VideoPlayer/Progress.tsx:71 | the preview's clock text reads back as the hovered time rounded down |
| VideoProgress.PreviewLeft | src/components/VideoPlayer/Progress.tsx:73-77 | the left-end adjustment wins, and an offset at which the preview fits is kept |
| VideoProgress.PreviewLeftClamped | src/components/VideoPlayer/Progress.tsx:73-77 | when the preview fits on the bar, its offset is the pointer offset clamped so that it overhangs neither end |
| VideoProgress.MouseMove | src/components/VideoPlayer/Progress.tsx:57-79 | the preview seeks to the hovered time, and the state records the highlight, the clock text that reads back as that time and the clamped offset; with no preview or a zero width nothing changes |
| Pagination.CeilOfQuotient | src/hooks/usePage.tsx:59 | `Math.ceil(length / viewNum)` is the integer ceiling of the quotient |
| Pagination.PageCountBounds | src/hooks/usePage.tsx:59 | the page count is the fewest pages that hold every item, and it is zero only for no items |
| Pagination.FirstPaged | src/hooks/usePage.tsx:57-65 | the state set when data arrives is a well-paged state |
| Pagination.DataChanged | src/hooks/usePage.tsx:57-66 | non-empty data gives page 1 of a well-paged state with the ceiling as last page; empty data changes nothing |
| Pagination.NextPage | src/hooks/usePage.tsx:25-31 | before the last page it moves one page on and keeps the state well paged; on the last page nothing changes |
| Pagination.PrevPage | src/hooks/usePage.tsx:33-39 | above page 0 it moves one page back and keeps the state well paged, reaching an empty page 0 from page 1 |
| Pagination.NextThenPrev | src/hooks/usePage.tsx:25-39 | forward then back returns to the same page and items |
| Pagination.PageContents | src/hooks/usePage.tsx:25-39 | every page before the last holds n items, the last between 1 and n, and each page holds the items at its offsets |
| Pagination.SliceWindow | src/hooks/usePage.tsx:27 | a slice of n items from an offset inside the list holds the items from that offset and is cut short only by the end |
| Nav.UpperCase | src/components/Nav.tsx:23 | the label keeps its length and every character is upper-cased in place (the ASCII letters a to z; see Left out) |
| Nav.NavLabel | src/components/Nav.tsx:18-24 | "/" is labelled "Home"; other labels are the path without its slash, first character upper-cased and dashes after it turned into spaces |
| Nav.LabelDashes | src/components/Nav.tsx:23 | a dash can survive only as the label's first character |
| Nav.LabelRoundTrip | src/components/Nav.tsx:18-24 | for paths of the usual shape the path can be read back from its label |
| Nav.LabelsDistinct | src/components/Nav.tsx:18-24 | different paths of the usual shape get different labels |
| Nav.NavItems | src/components/Nav.tsx:18-24 | one item per route in route order, each carrying its path and label |
| Nav.SomeLabels | src/router.tsx:21-22 | the site's first two routes are labelled "Home" and "Date picker" |
| Nav.ClickNav | src/components/Nav.tsx:26-32 | the under-bar spans the clicked item exactly |
| Slider.ClickValue | src/components/Slider/index.tsx:16 | the value exists exactly for a positive width, times the width is 100 times the offset, and lies in [0, 100] for an offset on the track |
| Slider.Click | src/components/Slider/index.tsx:11-17 | a click always passes its value on, unclamped |
| Slider.Drag | src/components/Slider/index.tsx:19-28 | on a positive-width track a drag passes on exactly the values in [0, 100]; a non-number is passed on only for offset 0 on a zero-width track |
| Slider.DragAgreesWithClick | src/components/Slider/index.tsx:11-28 | over the track a drag reports what a click reports, and off the track nothing |
| PaletteSlider.FormatValue | src/components/ColorPalette/PaletteSlider.tsx:19 | the percentage rounded up: the least whole number not below 100 times the ratio, in [0, 100] for ratios in [0, 1] |
| PaletteSlider.Click | src/components/ColorPalette/PaletteSlider.tsx:21-27 | the value exists exactly for a positive width and lies in [0, 100] for an offset on the track |
| PaletteSlider.Drag | src/components/ColorPalette/PaletteSlider.tsx:29-38 | the value is the rounded-up percentage of the clamped ratio, always in [0, 100]; a non-number only for offset 0 on a zero-width track |
| PaletteSlider.DragMonotone | src/components/ColorPalette/PaletteSlider.tsx:29-38 | dragging further right never lowers the value |
| PaletteSlider.DragAgreesWithClick | src/components/ColorPalette/PaletteSlider.tsx:21-38 | over the track a drag reports what a click reports |
| ColorPalette.FormatValue | src/components/ColorPalette/utils.ts:1 | the rounded channel lies within half a unit below and 0.6 above the input, whole numbers are kept, and [0, 255] maps into 0..255 |
| ColorPalette.TenthsBounds | src/components/ColorPalette/utils.ts:1 | rounding up to tenths moves a value up by less than a tenth and keeps whole numbers |
| ColorPalette.GetMinMax | src/components/ColorPalette/utils.ts:3-9 | a grey of 255 · white / (white + black) past 100 in total; otherwise whiteness lifts the lowest value and blackness lowers the highest, each only when positive |
| ColorPalette.MinMaxRange | src/components/ColorPalette/utils.ts:3-9 | for percentages adding up to at most 100 the span is [255 · white/100, 255 − 255 · black/100], inside [0, 255] |
| ColorPalette.Sector | src/components/ColorPalette/utils.ts:28 | the sector is in −5..5, and in 0..5 for a non-negative hue |
| ColorPalette.HwbaToRgba | src/components/ColorPalette/utils.ts:23-57 | each channel is the unrounded channel up to the rounding of `formatValue`, and the alpha is the opacity over 100 |
| ColorPalette.GreyWhenSaturated | src/components/ColorPalette/utils.ts:3-53 | past 100 in total, all three channels are the same grey whatever the hue |
| ColorPalette.SectorOffset | src/components/ColorPalette/utils.ts:27-28 | for a non-negative hue the remainder by 60 is the hue minus 60 times its sector, in [0, 60) |
| ColorPalette.ChannelsWithin | src/components/ColorPalette/utils.ts:23-53 | for a non-negative hue every channel lies between the lowest and highest value |
| ColorPalette.NegativeSectorGrey | src/components/ColorPalette/utils.ts:28-53 | a hue whose sector is negative matches no case of the table and gives a grey at the lowest value |
| ColorPalette.CssPureRed | src/components/ColorPalette/utils.ts:30-37 | in sector s at fraction t, the red of the unit sector table is CSS Color 4's fully saturated hsl() red |
| ColorPalette.CssPureGreen | src/components/ColorPalette/utils.ts:38-45 | the same for green |
| ColorPalette.CssPureBlue | src/components/ColorPalette/utils.ts:46-53 | the same for blue |
| ColorPalette.ChannelsInSector | src/components/ColorPalette/utils.ts:25-28 | a hue in [0, 360) is 60 · (sector + fraction), and its offset is the fraction of the span |
| ColorPalette.ChannelsOfSector | src/components/ColorPalette/utils.ts:25-53 | in a hue's own sector the channels are the sector table at the hue's fraction of the span |
| ColorPalette.TableOfPure | src/components/ColorPalette/utils.ts:30-53 | the sector table over [min, max] is min plus the unit table's share of the span, channel by channel |
| ColorPalette.RedInSector | src/components/ColorPalette/utils.ts:25-37 | the red channel is the lowest value plus the hsl() red's share of the span |
| ColorPalette.GreenInSector | src/components/ColorPalette/utils.ts:25-45 | the same for green |
| ColorPalette.BlueInSector | src/components/ColorPalette/utils.ts:25-53 | the same for blue |
| ColorPalette.ShareMatchesCss | src/components/ColorPalette/utils.ts:3-9 | the lowest value plus a share p of the span is CSS Color 4's hwb() shading of p, in the saturated case too |
| ColorPalette.RedMatchesCss | src/components/ColorPalette/utils.ts:23-37 | the red channel is CSS Color 4's hwb() red |
| ColorPalette.GreenMatchesCss | src/components/ColorPalette/utils.ts:23-45 | the green channel is CSS Color 4's hwb() green |
| ColorPalette.BlueMatchesCss | src/components/ColorPalette/utils.ts:23-53 | the blue channel is CSS Color 4's hwb() blue |
| ColorPalette.MatchesCssHwb | src/components/ColorPalette/utils.ts:23-53 | before rounding, the palette agrees with CSS Color 4's hwb() conversion for every hue in [0, 360) and every non-negative whiteness and blackness |
| ColorPalette.HuePeriodic | src/components/ColorPalette/utils.ts:27-28 | a whole turn of a non-negative hue gives the same channels |
| ColorPalette.FormatHexCode | src/components/ColorPalette/utils.ts:60-63 | the code has at least two characters; for 0..255 it is exactly two hexadecimal digits that read back as the number |
| ColorPalette.HwbaToHex | src/components/ColorPalette/utils.ts:65-75 | the code starts with "#" and has at least seven characters; at full opacity it is the three two-digit channel codes |
| ColorPalette.HexRoundTrip | src/components/ColorPalette/utils.ts:60-75 | at full opacity with channels in 0..255, the code is seven characters whose digit pairs read back as the channels |
| HeatMap.TickLabel | src/components/HeatMap/index.tsx:64-66 | a label of at most 10 characters is kept; a longer one becomes its first 9 characters and "...", 12 in all |
| HeatMap.TickLabelIdempotent | src/components/HeatMap/index.tsx:64-66 | shortening a shortened label changes nothing, and no label exceeds 12 characters |
| HeatMap.CellSize | src/components/HeatMap/index.tsx:70-74 | with values in the first row a size always exists; the cells fit the height, fit the width, and fill one of the two exactly; with an empty first row a size exists exactly when the width left over is not negative |
| HeatMap.Centre | src/components/HeatMap/index.tsx:76-78 | the block's two edges are symmetric in the svg and exactly the tick width, the grid and the legend apart |
| HeatMap.OnResize | src/components/HeatMap/index.tsx:68-81 | the sizing is recomputed only for non-empty data and a positive svg size, as the cell size and the centred edges; otherwise it is kept |
| HeatMap.TicksAtCellCentres | src/components/HeatMap/index.tsx:134-213 | the x tick of a column and the y tick of a row cross at the centre of their cell, where the value label sits; neighbouring cells are one cell apart; the last drawn column ends the legend's width before the right edge only when the data has as many rows as values per row |
| HeatMap.DomainBounds | src/components/HeatMap/index.tsx:84-89 | a missing domain or an "auto" end defaults to −1 below and 1 above |
| HeatMap.PushMidpoints | src/components/HeatMap/index.tsx:91-95 | the inner loop appends the midpoints of the list as it was when the round began |
| HeatMap.Bisect | src/components/HeatMap/index.tsx:90-101 | a round leaves the list and its midpoints, sorted ascending |
| HeatMap.InterleaveMultiset | src/components/HeatMap/index.tsx:91-95 | interleaving a list with its midpoints keeps exactly the values of both |
| HeatMap.EvenHalves | src/components/HeatMap/index.tsx:91-95 | an evenly spaced list interleaved with its midpoints is the list at half the step |
| HeatMap.EvenSorted | src/components/HeatMap/index.tsx:96-100 | an evenly spaced list with a non-negative step is ascending |
| HeatMap.BisectEven | src/components/HeatMap/index.tsx:90-101 | a round on an ascending evenly spaced list gives the list at half the step with twice the steps |
| HeatMap.BisectPair | src/components/HeatMap/index.tsx:90-101 | the first round from the two ends, in either order, gives the smaller end, the mean and the larger end |
| HeatMap.PairRound | src/components/HeatMap/index.tsx:90-101 | the first round gives two equal steps from the smaller end to the larger |
| HeatMap.EvenRound | src/components/HeatMap/index.tsx:90-101 | a later round doubles the steps and halves their size |
| HeatMap.ThreeRounds | src/components/HeatMap/index.tsx:90-101 | the three rounds give nine values from the smaller end to the larger in eight equal steps, whichever end comes first |
| HeatMap.LegendValues | src/components/HeatMap/index.tsx:84-103 | the legend values are nine values from the larger domain end down to the smaller in eight equal steps |
| HeatMap.ReversedSteps | src/components/HeatMap/index.tsx:103 | an ascending evenly spaced list read backwards descends from its top in the same steps |
| HeatMap.Legend | src/components/HeatMap/index.tsx:102-107 | for the cell size it is given: nine entries, the first at the top space with the larger end, the last `rows` cells below it with the smaller, in equal steps of position and value; which cell size the component passes is stated by HeatMap.Resize and HeatMap.ResizeAsWritten |
| HeatMap.ResizeAsWritten | src/components/HeatMap/index.tsx:68-108 | as the component runs: the sizing is recomputed, but the legend's last entry stays at the bottom of the grid of the previous render |
| HeatMap.Resize | src/components/HeatMap/index.tsx:68-108 | corrected: the legend runs from the top space to the bottom of the new grid |
| HeatMap.LegendStaleOnMount | src/components/HeatMap/index.tsx:68-108 | on mount with a 600 by 400 svg and two rows of two values, the grid ends at 370 while the legend as written collapses onto the top space |
| HeatMap.CellFill | src/components/HeatMap/index.tsx:204-208 | red exactly for positive values, with the value's magnitude as opacity, so the fill reads back as the value |
| HeatMap.LabelColor | src/components/HeatMap/index.tsx:213 | the label is dark exactly when the cell's opacity is below 0.3, and white otherwise |
| LinearScale.Inverted | src/components/BoxPlot/index.tsx:85-89 | the map has a value exactly when the domain is not degenerate |
| LinearScale.Ends | src/components/ViolinPlot/index.tsx:115-119 | the domain's low end is drawn at the bottom of the range and its high end at the top |
| LinearScale.Decreasing | src/components/ViolinPlot/index.tsx:115-119 | a larger value is drawn strictly higher (at a smaller y) |
| LinearScale.RoundTrip | src/components/BoxPlot/index.tsx:85-89 | the map is invertible: reading back a drawn y gives the value |
| LinearScale.Midpoint | src/components/BoxPlot/index.tsx:85-89 | the map is affine: the midpoint of two values is drawn at the midpoint of their pixels |
| BoxPlot.GetY | src/components/BoxPlot/index.tsx:85-89 | the pixel height is defined exactly when the y domain is not degenerate |
| BoxPlot.GetYRange | src/components/BoxPlot/index.tsx:85-89 | the domain's low end sits just above the x-tick band, its high end at the top space, and larger values are drawn higher |
| BoxPlot.YTickList | src/components/BoxPlot/index.tsx:114-125 | no labels leave the ticks unchanged, one label gives a non-finite position, and two or more give one tick per label, in order, at the middle of the y-tick band |
| BoxPlot.YTicksOnScale | src/components/BoxPlot/index.tsx:85-125 | the ticks are evenly spaced from the bottom of the axis to the top space: tick i is where getY draws the value i/(k-1) of the way up the domain |
| BoxPlot.ColumnGeometry | src/components/BoxPlot/index.tsx:129-144 | the box is centred in its column, the first column's special case equals the general formula, and the box has room exactly when a column is wider than two paddings |
| BoxPlot.ColumnsApart | src/components/BoxPlot/index.tsx:138-144 | neighbouring boxes are always two paddings apart |
| BoxPlot.Layout | src/components/BoxPlot/index.tsx:127-154 | one x tick and one box per entry in order: tick and box share the column centre, the tick sits in the middle of the x-tick band, the entry is kept, and every summary value is placed by getY |
| BoxPlot.Bounds | src/components/BoxPlot/index.tsx:162-171 | the drawing area is the svg less the margins, where a missing or zero margin counts as 0 except on the right, where it counts as the y-tick width |
| BoxShape.ShapeNests | src/components/BoxPlot/BoxShape.tsx:16-49 | for an ordered five-number summary in a large enough plot the shapes nest: the median inside the box, the whiskers beyond it, and the stem through the box's middle |
| TooltipData.Find | src/components/BoxPlot/index.tsx:101 | the search succeeds exactly when some entry has the key |
| TooltipData.Add | src/components/BoxPlot/index.tsx:91-105 | the position and name always move to the hovered shape; the entry is appended only when its key is not already shown |
| TooltipData.WithoutMembers | src/components/BoxPlot/index.tsx:110 | the kept entries are exactly those with another key |
| TooltipData.Remove | src/components/BoxPlot/index.tsx:107-112 | "all" clears the list, any other key drops exactly that key's entries, and the position and name stay |
| TooltipData.AddKeepsUnique | src/components/ViolinPlot/index.tsx:81-95 | adding never creates a second entry for a key |
| TooltipData.WithoutConcat | src/components/ViolinPlot/index.tsx:100 | filtering distributes over concatenation, so the kept entries keep their order |
| TooltipData.WithoutAbsent | src/components/ViolinPlot/index.tsx:100 | removing a key that is not shown changes nothing |
| TooltipData.RemoveUndoesAdd | src/components/ViolinPlot/index.tsx:81-102 | leaving a shape right after hovering it restores the list |
| TooltipData.RemoveKeepsUnique | src/components/ViolinPlot/index.tsx:97-102 | removing keeps the keys unique |
| TooltipData.WithoutUnique | src/components/ViolinPlot/index.tsx:100 | filtering a list with unique keys keeps them unique |
| ViolinPlot.GetY | src/components/ViolinPlot/index.tsx:115-119 | the pixel height is defined exactly when the y domain is not degenerate |
| ViolinPlot.GetYRange | src/components/ViolinPlot/index.tsx:115-119 | the domain's low end is drawn at the bottom of the area, its high end at the top, and larger values higher |
| ViolinPlot.MapPair | src/components/ViolinPlot/index.tsx:142-147 | an interval is mapped end by end through getY |
| ViolinPlot.ItemOf | src/components/ViolinPlot/index.tsx:137-149 | every summary value and both ends of each interval are placed by getY, and the entry is kept |
| ViolinPlot.Items | src/components/ViolinPlot/index.tsx:135-152 | without data nothing changes; otherwise one item per entry in order, defined exactly when the domain is not degenerate |
| ViolinPlot.ItemOrder | src/components/ViolinPlot/index.tsx:137-149 | for an ordered summary the maximum is drawn above the median, the median above the minimum, and an interval's high end above its low end |
| ViolinPlot.OnBinInput | src/components/ViolinPlot/index.tsx:181-188 | the bin number always lies in [10, 100] and equals the input when the input is in range |
| ViolinPlot.Bounds | src/components/ViolinPlot/index.tsx:160-169 | the drawing area is the svg less the margins, where a missing or zero margin counts as 30 |
| CalendarHeatMap.DayCount | src/components/CalendarHeatMap/utils.ts:3-8 | the count is inclusive of both ends: the number of whole days between the dates plus one |
| CalendarHeatMap.GetYMD | src/components/CalendarHeatMap/utils.ts:10-17 | the month comes back 0-based, in [0, 11], one less than the calendar month; year and day are the date's own |
| CalendarHeatMap.DateText | src/components/CalendarHeatMap/utils.ts:19-24 | for the years 0..9999 the key is ten characters with dashes at places 4 and 7, and its three fields read back as the year, the month and the day, so distinct dates get distinct keys |
| CalendarHeatMap.KorDateString | src/components/CalendarHeatMap/utils.ts:62-65 | for a year 0 or later the Korean label names its date: reading its three numbers back gives the year, the 1-based month and the day |
| CalendarHeatMap.DateRange | src/components/CalendarHeatMap/utils.ts:26-38 | the range starts on day 1 of the month diffMonth months before the end month and ends on the last day of the end month, both normalised across years, with an end year 0..99 read as 1900..1999 as the `Date` constructor reads it |
| CalendarHeatMap.MonthListFrom | src/components/CalendarHeatMap/utils.ts:46-58 | the loop pushes one month per step from the start month to the end month, at most twelve, starting and ending with them |
| CalendarHeatMap.MonthListSteps | src/components/CalendarHeatMap/utils.ts:46-58 | every pushed entry is a 1-based month and each follows the one before it round the year, December to January |
| CalendarHeatMap.MonthList | src/components/CalendarHeatMap/utils.ts:40-60 | the 1-based months from the start date's month to the end date's month, wrapping at December; as many as the months between them modulo 12, plus one |
| CalendarHeatMap.SortDescending | src/components/CalendarHeatMap/utils.ts:72 | a permutation of the thresholds in descending order of value, in which stops with the same threshold keep their input order |
| CalendarHeatMap.SortDescendingMembers | src/components/CalendarHeatMap/utils.ts:72 | sorting neither adds nor drops a threshold |
| CalendarHeatMap.FirstPassing | src/components/CalendarHeatMap/index.tsx:141-147 | the index found is the first threshold passing the test, and nothing is found only when none passes |
| CalendarHeatMap.FirstPassingIsHighest | src/components/CalendarHeatMap/index.tsx:141-147 | over descending thresholds, no passing threshold is higher than the first one found |
| CalendarHeatMap.ColorFor | src/components/CalendarHeatMap/index.tsx:139-147 | the fallback when no threshold passes; otherwise the colour of the first passing threshold in list order |
| CalendarHeatMap.ColorForHighestPassing | src/components/CalendarHeatMap/utils.ts:72-81 | over the sorted thresholds the colour chosen is that of the highest passing threshold, and the fallback only when none passes |
| CalendarHeatMap.GetColorAsWrittenDiverges | src/components/CalendarHeatMap/utils.ts:74 | with two or more thresholds and a value not above the two highest, the loop as written never finishes |
| CalendarHeatMap.LoopAtOneDiverges | src/components/CalendarHeatMap/utils.ts:74-80 | once the index is 1 and the value is not above the second threshold, the loop as written sets it back to 1 forever |
| CalendarHeatMap.GetColorAsWrittenHangs | src/components/CalendarHeatMap/utils.ts:67-82 | thresholds 5 and 10 with the value 3 make the loop as written run forever |
| CalendarHeatMap.GetColorLoopAsWritten | src/components/CalendarHeatMap/utils.ts:73-80 | when the loop as written stops it gives the default only past the end of the list or with at most one threshold, and otherwise the colour of a threshold strictly below the value; while it runs it sits on a threshold not below the value |
| CalendarHeatMap.GetColor | src/components/CalendarHeatMap/utils.ts:67-82 | the colour of the highest threshold strictly below the value, or the default colour when there is none |
| CalendarHeatMap.GetColorAgreesWhenFinished | src/components/CalendarHeatMap/utils.ts:67-82 | whenever the loop as written does finish, it returns what the corrected getColor returns |
| CalendarHeatMap.LoopAgrees | src/components/CalendarHeatMap/utils.ts:67-82 | a finished run of the loop as written that does not stall on the first two thresholds returns the colour the corrected search picks |
| CalendarHeatMap.FindIndex | src/components/CalendarHeatMap/index.tsx:137 | the index found is the first entry with the date key, and nothing is found exactly when no entry has it |
| CalendarHeatMap.FindEntry | src/components/CalendarHeatMap/index.tsx:137 | nothing is found exactly when no entry has the date key; otherwise the first such entry |
| CalendarHeatMap.CellFor | src/components/CalendarHeatMap/index.tsx:132-157 | a day's cell carries the day's ISO key and Korean label |
| CalendarHeatMap.CellFill | src/components/CalendarHeatMap/index.tsx:137-157 | a day without an entry is empty-coloured with value 0; a day with one carries its value and the colour of the highest threshold at or below it, or the empty colour when none is |
| CalendarHeatMap.BuildCells | src/components/CalendarHeatMap/index.tsx:121-161 | one cell per day of the range, and the i-th goes to week (weekday of the start + i) / 7 in the slot of its own weekday |
| CalendarHeatMap.PlacementStep | src/components/CalendarHeatMap/index.tsx:130-161 | the week counter that grows after each Saturday always equals the closed form, and each cell is put at its date's weekday |
| CalendarHeatMap.CellsDistinctSlots | src/components/CalendarHeatMap/index.tsx:150-157 | no two days of the range share a week and a weekday slot |
| CalendarHeatMap.Place | src/components/CalendarHeatMap/index.tsx:150-157 | storing a cell grows the week array when needed, fills exactly its slot and leaves every other slot alone |
| CalendarHeatMap.Grid | src/components/CalendarHeatMap/index.tsx:126-162 | the week array is a list of seven-slot weeks |
| CalendarHeatMap.GridHoldsEveryCell | src/components/CalendarHeatMap/index.tsx:150-162 | every day of the range can be read back from its slot: none is overwritten |
| CalendarHeatMap.Resize | src/components/CalendarHeatMap/index.tsx:167-182 | only a positive svg size recomputes; rectangles split the width right of the weekday legend among the weeks (non-finite without weeks) and the height above the month legend into seven; the ticks are placed accordingly |
| CalendarHeatMap.SetTooltip | src/components/CalendarHeatMap/index.tsx:110-115 | the tooltip shows the hovered day at the hovered position |
| CalendarHeatMap.ResetTooltip | src/components/CalendarHeatMap/index.tsx:117-119 | leaving a day hides the tooltip but keeps its position |
| CalendarHeatMapPage.InitialWindow | src/pages/CalendarHeatMapPage.tsx:71-79 | the first window is a five-month window ending with the current month (for a year 0..99, with that month of 1900 + year) |
| CalendarHeatMapPage.ChangeMonth | src/pages/CalendarHeatMapPage.tsx:44-67 | before the first window nothing happens; otherwise the new window is again five whole months, ending the month before the old start ("prev") or starting the month after the old end ("next"), a year 0..99 of the old window read as 1900..1999 |
| CalendarHeatMapPage.WindowByStart | src/pages/CalendarHeatMapPage.tsx:32 | a five-month window is fixed by its first month |
| CalendarHeatMapPage.ChangeMonthRoundTrip | src/pages/CalendarHeatMapPage.tsx:44-67 | for windows starting in year 101 or later, "prev" then "next", or "next" then "prev", returns to the same window |
| CalendarHeatMapPage.PagingAcrossYear100 | src/pages/CalendarHeatMapPage.tsx:44-67 | the window January to May of year 100 pages back to August to December of year 99, and paging forward from there jumps to January to May 2000 |
| DateList.GetSelected | src/components/DatePicker/DateList.tsx:33-41 | a bare key or a one-key array is plain equality; a longer array can only mark "start" at its first key, "end" at its second, and "between" strictly between them, never true |
| DateList.PairMarkTruthy | src/components/DatePicker/DateList.tsx:33-41 | against a pair, a date is marked exactly when it equals an end or lies strictly between them |
| DateList.FindBooked | src/components/DatePicker/DateList.tsx:49-52 | the index found is the first booked entry covering the date, and nothing is found exactly when none covers it |
| DateList.SelectedFn | src/components/DatePicker/DateList.tsx:43-59 | weekends are plain; a working day is grey exactly when a booked entry covers it, and then it is marked; otherwise it is blue and marked against the selection in progress |
| DateList.CoveredIsMarked | src/components/DatePicker/DateList.tsx:48-56 | every date a booked entry covers is marked by that entry |
| DateList.Disabled | src/components/DatePicker/DateList.tsx:61-73 | a day is disabled exactly when it is a weekend or some booked entry covers it |
| DateList.FirstOfMonth | src/components/DatePicker/DateList.tsx:81 | the first day of the panel's month, with a month outside 1..12 carried into the year and a year 0..99 read as 1900..1999 |
| DateList.DayList | src/components/DatePicker/DateList.tsx:75-87 | as written: one entry per day of the month the `Date` constructor reads (years 0..99 as 1900..1999), each with its weekday; the row number is the Monday-first row of the day, and the row count is the row after the last day's column |
| DateList.Column | src/components/DatePicker/DateList.tsx:80-83 | the Monday-first column of a day lies in 0..6 and is the last column exactly for a Sunday |
| DateList.MonthGrid | src/components/DatePicker/DateList.tsx:78-86 | from the first day of a month, one entry per day with its date and weekday, row numbers counted Monday-first, and the row count one past the last day's row |
| DateList.ViewDayList | src/components/DatePicker/DateList.tsx:75-87 | corrected: the grid of the panel's own year and month, whatever the year |
| DateList.DayListRemapsYear | src/components/DatePicker/DateList.tsx:76-81 | the panel for February of year 50 lists February 1950, and for year 0 lists the 28 days of February 1900 instead of the 29 of year 0 |
| DateList.RowStep | src/components/DatePicker/DateList.tsx:80-84 | the row counter, which grows after each Sunday, always equals the Monday-first row of the next day |
| DateList.Click | src/components/DatePicker/DateList.tsx:96-103 | a click reports the day's key exactly when the day is a working day that is not disabled |
| DateList.DateKey | src/components/DatePicker/DateList.tsx:100 | for non-negative fields the key splits at '.' into exactly three pieces that read back as the year, the month and the day |
| DateList.DateKeyOrder | src/components/DatePicker/DateList.tsx:100 | for four-digit years the keys of valid dates compare as strings exactly as the dates compare in the calendar |
| DateList.KeyOrder | src/components/DatePicker/DateList.tsx:100 | keys whose fields have equal widths compare field by field |
| PickerCalendar.SelectDate | src/components/DatePicker/Calendar.tsx:48-83 | the first click starts a selection; a click after a finished selection clears it; while selecting, a click that would take in a booked range (or hit a booked single date) is ignored and any other click finishes the selection |
| PickerCalendar.CompletedRange | src/components/DatePicker/Calendar.tsx:48-72 | a finished two-day range is ordered, is made of the two clicked keys, and contains no booked range |
| PickerCalendar.SameDayRange | src/components/DatePicker/Calendar.tsx:65-72 | clicking the first key again finishes a one-day selection |
| PickerCalendar.ReportedValue | src/components/DatePicker/Calendar.tsx:114-122 | a value is reported only once the selection is finished: a pair joined with " ~ ", a single key as it is, and an empty key not at all |
| PickerCalendar.SetYearMonthAsWritten | src/components/DatePicker/Calendar.tsx:89-96 | the shown month is the constructor's reading of year and month, in which years 0..99 stand for 1900..1999, and the year list closes |
| PickerCalendar.SetYearMonthAsWrittenRemaps | src/components/DatePicker/Calendar.tsx:89-96 | picking year 50 shows 1950 |
| PickerCalendar.SetYearMonth | src/components/DatePicker/Calendar.tsx:89-96 | the shown month is the one with the same absolute month number as the request, in 1..12, and the year list closes |
| PickerCalendar.SetYearMonthOverflow | src/components/DatePicker/Calendar.tsx:89-96 | months 1..12 stay as they are, month 0 is December of the year before and month 13 January of the year after |
| PickerCalendar.SetYearMonthAgrees | src/components/DatePicker/Calendar.tsx:89-96 | outside years 0..99 the corrected and the as-written versions agree |
| PickerCalendar.PrevMonth | src/components/DatePicker/Calendar.tsx:98-104 | the previous arrow shows the month before the constructor's reading of the shown year and month, so the month before for every year outside 0..99, and closes the year list |
| PickerCalendar.PrevFromYear99 | src/components/DatePicker/Calendar.tsx:89-104 | from December of year 99 the previous arrow shows November 1999 |
| PickerCalendar.NextMonth | src/components/DatePicker/Calendar.tsx:106-112 | the next arrow shows the month after the constructor's reading of the shown year and month, so the month after for every year outside 0..99, and closes the year list |
| PickerCalendar.PrevNextInverse | src/components/DatePicker/Calendar.tsx:98-112 | from a year of at least 101 or at most -2 the two arrows undo each other, the year list closed |
| PickerCalendar.ArrowsAcrossYear100 | src/components/DatePicker/Calendar.tsx:89-112 | from January of year 100 the previous arrow shows December of year 99, and the next arrow from there shows January 2000 |
| PickerCalendar.CorrectedArrowsInverse | src/components/DatePicker/Calendar.tsx:89-112 | with the corrected normaliser a step back then forward, or forward then back, returns to the shown month for every year |
| PickerCalendar.Panels | src/components/DatePicker/Calendar.tsx:143-168 | three panels: the month before, the month and the month after, passed on unnormalised |
| YearList.Run | src/components/DatePicker/YearList.tsx:52-56 | the consecutive years from the first bound up to the second, excluded |
| YearList.Initial | src/components/DatePicker/YearList.tsx:19-21 | the list starts with the 100 years from fifty before the year to 49 after it |
| YearList.PrependAsWrittenBelowOne | src/components/DatePicker/YearList.tsx:36-43 | with min 1 the prepending loop as written starts at 0, never meets 1, and prepends years -49 through 0 |
| YearList.PrependBlock | src/components/DatePicker/YearList.tsx:36-43 | the prepended block is the years from min - 50 (but not below 1) up to min, all of them positive |
| YearList.Scroll | src/components/DatePicker/YearList.tsx:24-46 | at scroll top 0 (falsy) nothing happens; with min at or below 0 only years are appended after the list |
| YearList.InitialContiguous | src/components/DatePicker/YearList.tsx:19-56 | the initial list is the consecutive years from min to max |
| YearList.ScrollContiguous | src/components/DatePicker/YearList.tsx:24-46 | scrolling keeps the list a run of consecutive years from its start (min, or year 1 once min has reached 0) to max |
| YearList.ScrollKeepsYearsPositive | src/components/DatePicker/YearList.tsx:36-43 | scrolling a list of positive years keeps every year positive |
| YearList.ScrollAsWrittenAddsYearZero | src/components/DatePicker/YearList.tsx:36-43 | from the list of year 51, a scroll to the top with the loop as written puts year -49 first |
| Dates.DaysInMonth | src/components/DatePicker/DateList.tsx:76 | every month has 28 to 31 days, and 29 exactly for February of a leap year |
| Dates.MonthOf | src/components/DatePicker/Calendar.tsx:90-92 | a year with an out-of-range 0-based month reads as the year and month in 1..12 with the same absolute month number |
| Dates.MonthOfUnique | src/components/DatePicker/Calendar.tsx:90-92 | that year and month are the only ones with that absolute month number |
| Dates.LastDayBefore | src/components/DatePicker/DateList.tsx:76 | day 0 of a month is the last day of the month before, the year read as the `Date` constructor reads it |
| Dates.WeekDay | src/components/DatePicker/DateList.tsx:81 | the weekday lies in 0..6 |
| Dates.YearStep | src/components/CalendarHeatMap/index.tsx:132 | the days before the next year are the days before this year plus this year's length |
| Dates.NextDay | src/components/CalendarHeatMap/index.tsx:132 | the day after a valid date is a valid date |
| Dates.NextDayNumber | src/components/CalendarHeatMap/index.tsx:132 | the day after is numbered one more, across month and year ends |
| Dates.AddDays | src/components/CalendarHeatMap/index.tsx:132 | k days after a valid date is a valid date |
| Dates.AddDaysNumber | src/components/CalendarHeatMap/index.tsx:132 | k days later is numbered k more |
| Dates.AddDaysStep | src/components/CalendarHeatMap/index.tsx:131-132 | k + 1 days later is the day after k days later |
| Dates.NextDayInMonth | src/components/DatePicker/DateList.tsx:80-81 | before a month's last day, the next day is in the same month |
| Dates.AddDaysInMonth | src/components/DatePicker/DateList.tsx:80-81 | within a month, k days after day d is day d + k |
| Dates.WeekDayAdd | src/components/CalendarHeatMap/index.tsx:135 | each day later moves the weekday one step round the week |
| TimeLine.MonthDiff | src/components/TimeLine/index.tsx:81-86 | the difference is the number of months between the two (year, month) pairs, across year boundaries |
| TimeLine.GetX | src/components/TimeLine/index.tsx:93-105 | a day from 1 to the divisor's month length lies after its month's tick and no later than the next month's tick |
| TimeLine.LastDayOfMonth | src/components/TimeLine/index.tsx:100 | day 0 of the month after a 1-based month is the last day of that month in the year the constructor reads, and for every year but 0 has as many days as that month of the year itself |
| TimeLine.GetXYearZero | src/components/TimeLine/index.tsx:93-105 | in year 0, February 29 is divided by the 28 days of February 1900 and lands past March's tick |
| TimeLine.GetXInMonth | src/components/TimeLine/index.tsx:93-105 | outside year 0, a day lies after its month's tick and no later than the next month's tick, and the last day of a month lies exactly on the next tick |
| TimeLine.GetXMonotone | src/components/TimeLine/index.tsx:93-105 | outside year 0, a later day is always drawn further right |
| TimeLine.StartMonth | src/components/TimeLine/index.tsx:107-117 | without events the axis starts at today's month; otherwise at the month of an event whose start is the earliest |
| TimeLine.EndMonth | src/components/TimeLine/index.tsx:119-130 | the axis ends one month after the later of today and the latest event end (today without events), so the month may be 13 |
| TimeLine.Axis | src/components/TimeLine/index.tsx:161-172 | one tick per month from the first month to the last inclusive, none when the end precedes the start; tick i at 100 i pixels, labelled "YYYY.MM", and (outside years 0..99) naming the i-th month after the start |
| TimeLine.AxisTick | src/components/TimeLine/index.tsx:165-171 | a tick's month lies in 1..12, its x is 100 pixels per step, and outside years 0..99 it names the month i months after the start |
| TimeLine.AxisSpan | src/components/TimeLine/index.tsx:158-172 | for years of 100 or later the last tick names the month after the later of today and the last event end |
| TimeLine.Ordered | src/components/TimeLine/index.tsx:110-124 | the events after the in-place sorts: the same events, in ascending order of start, and among equal starts the later end first |
| TimeLine.LatestEndFirst | src/components/TimeLine/index.tsx:110-124 | a stable sort by start of a list sorted latest end first keeps the later end first among equal starts |
| TimeLine.Filter | src/components/TimeLine/index.tsx:178-187 | a category's list holds exactly the events of that category |
| TimeLine.FindGroup | src/components/TimeLine/index.tsx:182 | the group found has the category, and nothing is found only when no group has it |
| TimeLine.FilterSnoc | src/components/TimeLine/index.tsx:181-187 | one more event extends its own category's list by itself and leaves the other categories' lists alone |
| TimeLine.FilterAbsent | src/components/TimeLine/index.tsx:184-186 | a category with no group yet has no events yet |
| TimeLine.FilterNoMatch | src/components/TimeLine/index.tsx:181-187 | no event of a category gives an empty list |
| TimeLine.AddToGroupsNew | src/components/TimeLine/index.tsx:184-186 | a new category opens a new group at the end and the grouping stays a partition |
| TimeLine.AppendShape | src/components/TimeLine/index.tsx:184-186 | a new group with an unseen category keeps categories distinct and groups non-empty |
| TimeLine.AppendExact | src/components/TimeLine/index.tsx:184-186 | after opening a group, every group holds exactly its category's events |
| TimeLine.AppendCovers | src/components/TimeLine/index.tsx:184-186 | after opening a group, every event's category has a group |
| TimeLine.AddToGroupsExisting | src/components/TimeLine/index.tsx:182-183 | a known category's event goes onto its group and the grouping stays a partition |
| TimeLine.UpdateExact | src/components/TimeLine/index.tsx:182-183 | after the push, every group holds exactly its category's events |
| TimeLine.UpdateCovers | src/components/TimeLine/index.tsx:182-183 | after the push, every event's category still has a group |
| TimeLine.GroupByPartition | src/components/TimeLine/index.tsx:178-187 | one non-empty group per category present, categories distinct, each holding exactly its category's events in order |
| TimeLine.FilterSorted | src/components/TimeLine/index.tsx:179-187 | a category's events keep the start order of the sorted list |
| TimeLine.FirstFit | src/components/TimeLine/index.tsx:205-224 | the lane chosen is the first from the index that accepts the event, or a new lane after the last; every lane skipped rejects it |
| TimeLine.Place | src/components/TimeLine/index.tsx:205-224 | placing an event keeps every lane non-empty |
| TimeLine.Pack | src/components/TimeLine/index.tsx:190-225 | every lane is non-empty |
| TimeLine.PlaceFirstFit | src/components/TimeLine/index.tsx:205-224 | the event goes to the first lane that accepts it (or a new one), every earlier lane rejected it, and no other lane changes |
| TimeLine.FlattenUpdate | src/components/TimeLine/index.tsx:217 | pushing onto one lane adds exactly that event to the lanes' contents |
| TimeLine.PlaceMultiset | src/components/TimeLine/index.tsx:205-224 | placing an event adds exactly that event to the lanes' contents |
| TimeLine.PackInvariant | src/components/TimeLine/index.tsx:190-225 | packing keeps every event exactly once and keeps consecutive events of a lane more than three days apart |
| TimeLine.PackContents | src/components/TimeLine/index.tsx:190-225 | packing keeps every event exactly once |
| TimeLine.PackSpaced | src/components/TimeLine/index.tsx:190-225 | in every lane, each event starts more than three days after the one before it ends |
| TimeLine.PlaceSpaced | src/components/TimeLine/index.tsx:205-224 | placing an event keeps every lane spaced |
| TimeLine.SpacedSnoc | src/components/TimeLine/index.tsx:210-218 | appending an event the lane accepts keeps the lane spaced |
| TimeLine.PackKeepsOrder | src/components/TimeLine/index.tsx:189-225 | lanes fed events in start order hold them in start order, and hold only those events |
| TimeLine.PlaceKeepsOrder | src/components/TimeLine/index.tsx:205-224 | placing an event that starts no earlier than any placed one keeps every lane in start order |
| TimeLine.SortedSnoc | src/components/TimeLine/index.tsx:217 | appending an event that starts no earlier than a lane's events keeps the lane in start order |
| TimeLine.ItemOf | src/components/TimeLine/index.tsx:191-204 | the item keeps the event's category, start and end |
| TimeLine.ItemsOf | src/components/TimeLine/index.tsx:191-204 | one item per event, in order |
| TimeLine.Stack | src/components/TimeLine/index.tsx:226-232 | the lines already laid out are kept, and the new category's lanes follow them, each 40 pixels below the one before |
| TimeLine.Lines | src/components/TimeLine/index.tsx:189-233 | over all categories, line g lies at 200 + 40 g pixels and none is empty |
| TimeLine.StackSpacing | src/components/TimeLine/index.tsx:226-232 | stacking keeps the lines evenly spaced and non-empty |
| TimeLine.PointOf | src/components/TimeLine/index.tsx:237-247 | a point event keeps its text and colour and is 15 pixels wide per character |
| TimeLine.GroupedEventsValid | src/components/TimeLine/index.tsx:178-187 | every grouped event is one of the input events |
| TimeLine.Groups | src/components/TimeLine/index.tsx:178-189 | the groups partition the sorted events by category |
| TimeLine.Build | src/components/TimeLine/index.tsx:157-253 | one point item per point event, line g at 200 + 40 g pixels, and the svg height one line interval below the last line |
| TimeLine.ItemsKeepOrder | src/components/TimeLine/index.tsx:189-204 | items keep their events' start order and category |
| TimeLine.CategoryLanes | src/components/TimeLine/index.tsx:178-233 | each category's lanes hold every one of its events exactly once, in start order, more than three days apart, and only events of that category |
| Sorting.InsertBy | src/components/TimeLine/index.tsx:110-112 | inserting into a sorted list gives a sorted list with exactly one more element |
| Sorting.SortBy | src/components/TimeLine/index.tsx:110-112 | the sort is ascending by key and a permutation of its input; its stability is stated by Sorting.SortByStable |
| Sorting.SortByMembers | src/components/TimeLine/index.tsx:180 | sorting keeps exactly the elements it was given |
| Sorting.SortByHead | src/components/TimeLine/index.tsx:110-113 | the first element of the sort is an input element with the least key |
| Sorting.SortByStable | src/components/TimeLine/index.tsx:110-124 | the sort keeps the relative order of the elements with any one key |
| Sorting.WithKeySorted | src/components/TimeLine/index.tsx:110-124 | picking out the elements with one key from a list sorted by a second key leaves them sorted by the second key |
| Sorting.PairWithKey | src/components/TimeLine/index.tsx:110-124 | when the elements with one key are in order of a second key, of any two of them the earlier has the second key no larger than the later |
| Sorting.HeadIsLeast | src/components/CalendarHeatMap/utils.ts:72 | the first element of an ascending list is its least |
| Sorting.SortedTail | src/components/CalendarHeatMap/utils.ts:72 | the tail of an ascending list is ascending |
| Sorting.MultisetTail | src/components/CalendarHeatMap/utils.ts:72 | removing equal heads keeps equal contents |
| Sorting.SortedUnique | src/components/CalendarHeatMap/utils.ts:72 | two ascending lists with the same values are equal, so an ascending sort has one possible result |
| Common.SliceIndex | src/hooks/usePage.tsx:27 | a resolved index lies in 0..len; an index inside stays and a negative one counts from the end |
| Common.JsSlice | src/hooks/usePage.tsx:35 | the slice is the elements between in-range bounds, and empty when the end is not after the start |
| Common.DigitChar | src/components/VideoPlayer/utils.ts:13 | a digit's character is a decimal digit |
| Common.DigitValue | src/components/VideoPlayer/utils.ts:3-5 | reading a digit character gives the digit it came from |
| Common.NatToString | src/components/VideoPlayer/utils.ts:13 | a number prints as at least one decimal digit, exactly one below 10 |
| Common.IntToString | src/components/TimeLine/index.tsx:168 | a negative number prints with a leading "-" before its magnitude |
| Common.ParseNumber | src/components/VideoPlayer/utils.ts:3-5 | a string of decimal digits reads as its value, and only such strings read as a number in this model |
| Common.DigitsValueOfNatToString | src/components/VideoPlayer/utils.ts:1-16 | reading back a printed number gives the number |
| Common.NatToStringInjective | src/components/DatePicker/DateList.tsx:100 | different numbers print differently |
| Common.LeadingZero | src/components/DatePicker/utils.ts:9 | a leading zero does not change the value read |
| Common.Pad2Shape | src/components/DatePicker/utils.ts:9 | 0..9 get a leading zero, 10 and above print as they are, and 0..99 always give two digits |
| Common.Pad2Value | src/components/DatePicker/utils.ts:9 | reading back a padded number gives the number |
| Common.HexCharValue | src/components/ColorPalette/utils.ts:61 | reading a hexadecimal digit gives the value it came from |
| Common.NatToHex | src/components/ColorPalette/utils.ts:61 | a number prints as at least one lower-case hexadecimal digit, exactly one below 16 |
| Common.HexValueOfNatToHex | src/components/ColorPalette/utils.ts:61 | reading back the hexadecimal rendering gives the number |
| Common.ReplaceChar | src/components/Nav.tsx:23 | every occurrence of the character is replaced and nothing else changes |
| Common.Split | src/components/VideoPlayer/utils.ts:2 | splitting always gives at least one piece |
| Common.SplitFirst | src/components/VideoPlayer/utils.ts:2 | a separator-free piece before a separator splits off as the first piece |
| Common.SplitNone | src/components/VideoPlayer/utils.ts:2 | a string without the separator is one piece |
| Common.StrLtIrreflexive | src/components/DatePicker/DateList.tsx:38 | no string is before itself |
| Common.StrLtTotal | src/components/DatePicker/Calendar.tsx:55 | of two different strings exactly one comes first |
| Common.StrLtTransitive | src/components/DatePicker/DateList.tsx:38 | the string order is transitive |
| Common.StrLtConcat | src/components/DatePicker/DateList.tsx:100 | concatenations with equal-length first parts compare by the first parts, then by the second |
| Common.NatToStringOrder | src/components/DatePicker/DateList.tsx:100 | decimal renderings of equal length compare as the numbers |
| Common.Pad2Order | src/components/DatePicker/DateList.tsx:100 | padded numbers below 100 compare as the numbers |
| Common.Ceil | src/hooks/usePage.tsx:59 | the ceiling is the least integer not below its argument |
| Common.IntRem | src/components/VideoPlayer/utils.ts:10 | the remainder takes the sign of the dividend and is Euclidean for non-negative dividends |
| Common.Clamp01 | src/components/VideoPlayer/Progress.tsx:29 | the result lies in [0, 1], equals the input inside it, and is 1 above and 0 below |
| Common.Round | src/components/ColorPalette/utils.ts:1 | the result is within half of the input, halves rounding up |
| Common.OrDefault | src/components/BoxPlot/index.tsx:165-170 | a missing or zero margin gives the default, any other value itself |
| BoxShape.ShapeOf | src/components/BoxPlot/BoxShape.tsx:16-49 | the five svg parts of a box: the whiskers at the maximum and minimum, the stem, the box between the quartiles and the median line; BoxShape.ShapeNests states how they nest |
| BoxPlot.Column | src/components/BoxPlot/index.tsx:129-144 | the centre and the two box edges of column i of n; BoxPlot.ColumnGeometry and BoxPlot.ColumnsApart state that the box is centred in its column and that neighbours never touch |
| BoxPlot.Item | src/components/BoxPlot/index.tsx:127-154 | one box with its five values read through the y scale; BoxPlot.Layout states the pixel order of those values |
| TimeLine.StartMs | src/components/TimeLine/index.tsx:110-112 | the sort key of an event, its start in milliseconds; Sorting.SortByHead and TimeLine.StartMonth state that the earliest start comes first |
| TimeLine.GroupBy | src/components/TimeLine/index.tsx:178-187 | the events grouped by category in order of first appearance; TimeLine.GroupByPartition states that the groups partition the events |
| TimeLine.Fits | src/components/TimeLine/index.tsx:210-214 | an event fits a lane exactly when it starts more than three days after the lane's last event ends |
| TimeLine.DateLabel | src/components/TimeLine/index.tsx:196-199 | the "year/MM/DD" text of a date, month and day padded to two digits as Common.Pad2Shape states |
| TimeLine.Height | src/components/TimeLine/index.tsx:259 | the svg height, five line intervals more than the lanes; TimeLine.Build states it |
| TimeLine.ShowTip | src/components/TimeLine/index.tsx:141-147 | entering an item shows it at the pointer and cancels the latest pending reset; resets scheduled before that one stay pending |
| TimeLine.HideTipLater | src/components/TimeLine/index.tsx:149-155 | leaving an item keeps the tooltip and schedules one more reset, which becomes the one a later enter can cancel |
| TimeLine.TipTimeout | src/components/TimeLine/index.tsx:149-155 | with no reset pending nothing changes; otherwise one reset fires and clears the tooltip data while the position stays |
| TimeLine.LeaveHidesTip | src/components/TimeLine/index.tsx:141-155 | entering then leaving an item and waiting hides the tooltip and leaves no reset pending |
| TimeLine.EnterCancelsHide | src/components/TimeLine/index.tsx:141-155 | leaving then entering another item before the delay cancels the reset: the new item stays shown |
| TimeLine.AlternatingKeepsSlot | src/components/TimeLine/index.tsx:141-155 | alternating enters and leaves never leaves an uncancellable reset behind |
| TimeLine.SecondLeaveOverwritesSlot | src/components/TimeLine/index.tsx:149-155 | two leaves in a row overwrite the timer handle, so a following enter cannot cancel the first reset, which hides the new item |
| CalendarHeatMap.SortDescendingStable | src/components/CalendarHeatMap/utils.ts:72 | the descending sort keeps the input order of stops with the same threshold |
| YearList.ScrollAsWritten | src/components/DatePicker/YearList.tsx:24-46 | scrolling as the component does it, with the prepended block running down past year 1; YearList.ScrollAsWrittenAddsYearZero states that it adds year 0 |
| YearList.Append | src/components/DatePicker/YearList.tsx:30-35 | at the bottom of the list 50 more years follow the last; YearList.AppendContiguous states that the list stays a run of consecutive years |
| YearList.Prepend | src/components/DatePicker/YearList.tsx:36-44 | at the top of the list up to 50 earlier years come first, none below 1; YearList.PrependContiguous states that the list stays a run of consecutive years |
| Pagination.PageView | src/hooks/usePage.tsx:27 | a page holds at most n items, and page 0 holds none |
| Pagination.PageCount | src/hooks/usePage.tsx:59 | the number of pages of n items; Pagination.PageCountBounds states that it is the fewest pages that hold the data |
| TooltipData.Without | src/components/BoxPlot/index.tsx:110 | the entries whose key differs from the one removed; TooltipData.WithoutMembers states exactly which entries are kept |
| HeatMap.Midpoints | src/components/HeatMap/index.tsx:91-95 | one value for each neighbouring pair of the list, one fewer than the list holds |
| HeatMap.MidpointsBetween | src/components/HeatMap/index.tsx:91-95 | each pushed value lies between the two neighbours it was made from |
| CalendarHeatMap.HighestPassingOver | src/components/CalendarHeatMap/index.tsx:139-147 | over any descending list holding exactly the given stops, the colour picked is that of a passing stop with the highest threshold, and the fallback only when none passes |
| HeatMap.CellRect | src/components/HeatMap/index.tsx:199-203 | the square of cell (i, j), right of the y ticks and below the top space; HeatMap.TicksAtCellCentres states where it sits |
| HeatMap.XTick | src/components/HeatMap/index.tsx:134-213 | the x tick of column i; HeatMap.TicksAtCellCentres states that it lies at the column's centre |
| HeatMap.YTick | src/components/HeatMap/index.tsx:134-213 | the y tick of row j; HeatMap.TicksAtCellCentres states that it lies at the row's centre |
| HeatMap.LabelAt | src/components/HeatMap/index.tsx:210-212 | the position of a cell's value label; HeatMap.TicksAtCellCentres states that it is the centre of the cell |
| HeatMap.FillValue | src/components/HeatMap/index.tsx:204-208 | the value a fill colour stands for; HeatMap.CellFill states that it gives back the cell's value |
| ColorPalette.SectorTable | src/components/ColorPalette/utils.ts:30-53 | the channels of each of the six hue sectors, and min everywhere for a sector outside 0..5; ColorPalette.TableOfPure states it agrees with the pure hues of CSS |
| ColorPalette.Offset | src/components/ColorPalette/utils.ts:27 | the hue's offset into its sector scaled to the channel span; ColorPalette.SectorOffset and ColorPalette.OffsetWithin state its range |
| ColorPalette.Channels | src/components/ColorPalette/utils.ts:23-53 | the three channels before rounding; ColorPalette.ChannelsWithin and ColorPalette.MatchesCssHwb state their range and their agreement with CSS |
| Common.Pad2 | src/components/DatePicker/utils.ts:9 | a number below 10 with a leading zero; Common.Pad2Shape and Common.Pad2Value state its length and value |
| Common.StrLt | src/components/DatePicker/Calendar.tsx:55 | the order JavaScript's `<` gives two strings, by character; Common.StrLtIrreflexive, StrLtTotal and StrLtTransitive state that it is a strict total order |
| Common.JsRem | src/components/ColorPalette/utils.ts:27 | the `%` of two numbers: for a positive divisor the remainder lies in [0, b) for a non-negative dividend and in (-b, 0] for a non-positive one |
| CalendarHeatMap.PadZeros | src/components/CalendarHeatMap/utils.ts:19-24 | a string padded with leading zeros to at least the given width |
| CalendarHeatMap.IsoYear | src/components/CalendarHeatMap/utils.ts:19-24 | the year field of an ISO date; CalendarHeatMap.DateText states the text it gives |
| CalendarHeatMap.ReadKorDate | src/components/CalendarHeatMap/utils.ts:62-65 | reading a Korean date label back; CalendarHeatMap.KorDateString states that it recovers the date |
| CalendarHeatMap.MonthDistance | src/components/CalendarHeatMap/utils.ts:40-60 | the number of months from one month to another going forward, below 12 |
| CalendarHeatMap.Passes | src/components/CalendarHeatMap/index.tsx:139-147 | whether a value reaches a threshold, inclusive as in the component and strict as in `getColor`; CalendarHeatMap.FirstPassing and CalendarHeatMap.ColorFor use it |
| CalendarHeatMapPage.NextWindow | src/pages/CalendarHeatMapPage.tsx:44-67 | "next" gives the five-month window that starts the month after the shown window ends |
| CalendarHeatMapPage.PrevWindow | src/pages/CalendarHeatMapPage.tsx:44-67 | "prev" gives the five-month window that ends the month before the shown window starts |
| VideoPlayer.Play | src/components/VideoPlayer/index.tsx:32 | the element plays; VideoPlayer.KeyDown and VideoPlayer.SpaceTwice state what Space does with it |
| VideoPlayer.Pause | src/components/VideoPlayer/index.tsx:34 | the element pauses; VideoPlayer.KeyDown and VideoPlayer.SpaceTwice state what Space does with it |
| LinearScale.Invert | src/components/BoxPlot/index.tsx:85-89 | the y scale read backwards; LinearScale.RoundTrip states that it undoes the scale |
| Dates.ConstructorYear | src/components/DatePicker/Calendar.tsx:90 | the year `new Date` reads from a year argument, 0..99 meaning 1900..1999; Dates.MonthOf and Dates.LastDayBefore state what it does to a date |
| Dates.DayNumber | src/components/CalendarHeatMap/utils.ts:3-8 | the number of a day counted from a fixed origin; Dates.NextDayNumber and Dates.AddDaysNumber state that consecutive days get consecutive numbers |
| ColorPalette.OffsetWithin | src/components/ColorPalette/utils.ts:27 | for a non-negative hue the offset into the sector lies between 0 and the channel span |
| YearList.AppendContiguous | src/components/DatePicker/YearList.tsx:30-35 | appending to a run of consecutive years gives a longer run from the same first year |
| YearList.PrependContiguous | src/components/DatePicker/YearList.tsx:36-44 | prepending to a run of consecutive years from a positive year gives a run again |
| CalendarHeatMap.DateTextFields | src/components/CalendarHeatMap/utils.ts:19-24 | a "YYYY-MM-DD" key of a four-digit year has its dashes at places 4 and 7, and its three fields read back as the year, month and day |

## Left out

- JSX, styled-components CSS, SVG `<animate>` strings (`getAnimationKeyTimes`) and transitions: presentational only.
- `ResizeObserver`, window and document listeners, and video element events: only the handlers' effects are modelled, with the measured sizes and event fields as parameters.
- `setTimeout` in the date picker's month arrows (src/components/DatePicker/Calendar.tsx:98-112): PickerCalendar.PrevMonth and NextMonth apply the month change at once. The 300 ms wait and the `action` flag that drives the slide are not modelled, and neither is a second click inside the wait, which reads the same `y` and `m` as the first.
- TimeLine.TipTimeout: the 500 ms reset of the timeline tooltip (src/components/TimeLine/index.tsx:149-155) is modelled as a separate step that fires one pending reset. Which reset fires first, and when, is not modelled; only the number of pending resets and whether the latest one can still be cancelled are.
- d3 and other library code: `src/components/ViolinPlot/ViolinShape.tsx` (bins, ticks, area), the violin plot's band scale and axes, and `src/components/BubblePieChart` are not part of this model.
- The video player's link list sorted with `localeCompare` numeric collation: the links are taken in the given order.
- `src/components/ColorPalette/Hue.tsx` and the palette index's `getColor`: they use atan2 and square roots on floating point.
- HeatMap `valueFormatter` and Slider `toFixed`: float-to-string formatting.
- Parsing of hwb() and rgba() colour strings: hue, whiteness, blackness and opacity are taken as numbers.
- ColorPalette.HwbaToHex: a fractional alpha passed to `toString(16)` prints a float in hex; the model returns `None` for it.
- ColorPalette.MatchesCssHwb: agreement with CSS Color 4 is stated for hues in [0, 360); other hues are covered only by the periodicity and negative-sector lemmas.
- Clock and randomness: "today" (`new Date()`) is a parameter, and the sample-data generators of the pages are not modelled.
- Time zones and `Date` string parsing: `getDateText`'s timezone-offset trick and UTC parsing of "YYYY-MM-DD" are replaced by exact (year, month, day) triples; `DatePicker.tsx`'s `changeDate` (string parsing and `alert`) is not part of this model.
- `JSON.stringify` memo comparators: render caching only.
- VideoSettings.QualitySet: the current time's number-to-string text is a parameter; duration and currentTime are kept as they were, while the load makes the duration NaN and the position 0 until the new source's metadata arrives and the `#t=` fragment seeks to it.
- VideoProgress.SeekAgreesWithTimeUpdate: stated for a video of positive duration on a bar of positive width only; with a zero duration the next `timeupdate` fraction is NaN, which `TimeUpdateRatio` reports as `None`.
- MediaElement.Video: the duration is a real, so the NaN duration of an element whose metadata has not loaded is not represented; a progress-bar seek in that window assigns `currentTime = NaN * ratio`, whose setter throws in the source, and the model does not follow that.
- MediaElement.Video: the browser's own clamping of a `currentTime` outside [0, duration] is not modelled; the key handlers never set one.
- PickerCalendar.PrevNextInverse: stated only from years of at least 101 or at most -2; an arrow step into years 0..99 is read as 1900..1999, so from January of year 100 back then forward shows January 2000 (PickerCalendar.ArrowsAcrossYear100).
- Pagination.DataChanged: requires a positive `viewNum`; with 0 the source would divide by zero for the page count.
- Pagination.NextPage: requires a positive `viewNum`; with 0 the source would divide by zero for the page count.
- Pagination.PrevPage: requires a positive `viewNum`; with 0 the source would divide by zero for the page count.
- TimeLine: `Object.values` lists integer-like category keys first; the model keeps categories in first-appearance order.
- BoxPlot and ViolinPlot: `getY` is memoised with `useCallback([])` and can capture a stale domain; the model takes the current domain as a parameter.
- BoxPlot.YTickList: y-tick values are taken as their already-converted strings; the `text + ""` conversion of a number is not modelled.
- Nav.UpperCase: only the ASCII letters a to z are upper-cased; `toUpperCase` also maps other letters, some of them to two characters ("ß" to "SS"), which the model does not follow.
- HeatMap.TickLabel: the length test `tick.length > 10` and `tick.slice(0, 9)` count UTF-16 code units, while the model counts characters; six characters outside the Basic Multilingual Plane (12 code units) are cut by the source to four of them, a lone high surrogate and "...", and kept whole by the model.
- Common.StrLt: compares characters, which matches JavaScript's UTF-16 code-unit order except for characters past U+FFFF against U+E000..U+FFFF; the strings it compares are ASCII date keys.
- TimeLine.PointOf: the width counts the characters of the text, while `text.length` counts UTF-16 code units, so a character outside the Basic Multilingual Plane counts once here and twice in the source.
- PaletteSlider.FormatValue: computed on exact reals; with IEEE doubles `Math.ceil(0.07 * 100)` is 8, where the model gives 7.
- ColorPalette.FormatValue: computed on exact reals; with doubles `255 * (8 / 100)` is 20.400000000000002, which the source rounds up to 21 where the model gives 20.
- ColorPalette.HwbaToRgba: the channels are exact-real channels rounded by `FormatValue`, so hwb(0deg 8% 0%) has green and blue 20 here and 21 in the source.
- ColorPalette.HwbaToHex: inherits the exact-real channels of `HwbaToRgba`, so hwb(0deg 8% 0%) is "#ff1414" here and "#ff1515" in the source.
- VideoTime.TimeStringToNumber: only digit strings are read; unary plus also reads white space, signs, decimals and exponents, so "0:0:1.5" is 1.5, " 1:2:3" is 3723 and "-1:0:0" is -3600 in the source, where the model gives None.
- Common.ParseNumber: reads only strings of decimal digits; the rest of JavaScript's string-to-number grammar (white space, signs, decimal points, exponents, "Infinity", hexadecimal) reads as None.
- CalendarHeatMap.BuildCells: the days are counted on from the start date itself; `new Date(year, month, date + i)` would read a start year 0..99 as 1900..1999.
- TimeLine.GetXInMonth: stated for years other than 0; in year 0 February 29 lands past March's tick (TimeLine.GetXYearZero).
- TimeLine.GetXMonotone: stated for years other than 0, for the same reason.
- CalendarHeatMapPage.ChangeMonthRoundTrip: stated for windows starting in year 101 or later; near year 100 paging reads the years 0..99 as 1900..1999 (CalendarHeatMapPage.PagingAcrossYear100).
- HeatMap.TicksAtCellCentres: for data whose row count differs from its first row's length, the block is centred for the wrong number of columns; the lemma states the resulting shift, not that the grid stays inside the svg.
- Display-only files (`Tooltip.tsx`, `YearItem.tsx`, `TimeText.tsx`, `Layout.tsx`, `App.tsx`, `router.tsx`, `FlexBox`) hold no logic.

## Findings

| source | as written | input that shows it | evidently intended | confidence | as-written member | corrected member |
|---|---|---|---|---|---|---|
| src/components/CalendarHeatMap/utils.ts:74 | the loop update `i = +1` sets the index back to 1 on every pass, so only the first two thresholds are ever compared | thresholds 5 and 10, value 3: the loop never ends | `i += 1`: the first colour, in descending order, whose threshold lies below the value, else the default | not executed | CalendarHeatMap.GetColorAsWrittenDiverges, CalendarHeatMap.GetColorAsWrittenHangs | CalendarHeatMap.GetColor, CalendarHeatMap.GetColorAgreesWhenFinished |
| src/components/DatePicker/YearList.tsx:36-43 | the prepending loop stops on `i === 1` only after prepending, so with `min` at 1 it starts at 0 and never meets 1 | the list of year 51 scrolled to the top puts years -49 through 0 in front | prepend only years of at least 1 | not executed | YearList.PrependAsWrittenBelowOne, YearList.ScrollAsWrittenAddsYearZero | YearList.PrependBlock, YearList.ScrollKeepsYearsPositive |
| src/components/DatePicker/Calendar.tsx:89-96 | `setYearMonth` normalises through `new Date(year, month - 1)`, which reads years 0..99 as 1900..1999 | picking year 50 shows 1950; from January of year 100 the previous arrow then the next arrow show January 2000 | normalise only the month overflow, keeping the year | not executed | PickerCalendar.SetYearMonthAsWritten, PickerCalendar.SetYearMonthAsWrittenRemaps, PickerCalendar.ArrowsAcrossYear100 | PickerCalendar.SetYearMonth, PickerCalendar.SetYearMonthAgrees, PickerCalendar.CorrectedArrowsInverse |
| src/components/HeatMap/index.tsx:83-108 | the legend effect depends only on the domain and the svg size and reads `rectSize` from the render before, so after a resize its last entry sits where the previous grid ended | mount with a 600 by 400 svg and two rows of two values: the grid ends at y = 370, the legend's last entry at y = 20 | position the legend with the new cell size, e.g. by adding `rectSize` and `data` to the effect's dependencies | not executed | HeatMap.ResizeAsWritten, HeatMap.LegendStaleOnMount | HeatMap.Resize |
| src/components/DatePicker/DateList.tsx:76-81 | `new Date(year, month, 0)` and `new Date(year, month - 1, i)` read years 0..99 as 1900..1999 | the panel for February of year 0 lists the 28 days of February 1900 instead of the 29 of year 0 | build the grid of the panel's own year | not executed | DateList.DayList, DateList.DayListRemapsYear | DateList.ViewDayList |
