# color-wheel-face, modelled in Dafny

The color-wheel-face is a Pebble watch face. On every second tick, `update_time` turns
the time into three ring segments:

- seconds in blue;
- minutes in red;
- hours in yellow.

Each segment carries an angle in the SDK's `0..0xFFFF` unit. When the display is
redrawn, `update_display` does two things:

- it bubble-sorts the segments by angle, in place;
- it draws a colour ring of four arcs. Where segments overlap, the arc gets a colour
  mixed from the segments' colours.

It also draws four hour dots.

This project models that core and proves:

- **Sort** (`SegmentSort`): the bubble sort from `src/array.h`, over an array.
  - The sorted prefix is ordered and is a permutation of the input.
  - The sort is stable: each run of equal values keeps its order.
  - The rest of the array is untouched.
  - Sorting is idempotent.
  - Two sorted sequences with the same runs are equal, so the sort's result is unique.
- **Colours** (`Colors`): `compare_colors` modelled as written, with its green defect,
  next to a corrected version. Also `mix_colors`:
  - it is symmetric;
  - on a palette whose mixable colours are told apart as written, it follows an
    unordered-pair table, and so does the corrected mix on any palette whose mixable
    colours differ;
  - on the segment colours red, yellow and blue it agrees with the corrected mix,
    including on the colour palette the face ships;
  - on that palette's other colours it does not: `all` with blue mixes to green.
- **Angles** (`Angles`): the `TIME_ANGLE`/`HOUR_ANGLE` scales and their narrowing to
  `uint16_t`.
  - The scale constants are truncated (65536 / 60 = 1092, 65536 / 12 = 5461).
  - The narrowing to 16 bits loses nothing up to 60 seconds or minutes and below
    12 hours, and wraps for afternoon hours.
  - C's truncating division is stated by its bounds; `get_angle_for_hour` gives
    30 degrees per hour.
  - The dot loop visits hours 0, 3, 6, 9, at angles 0, 90, 180, 270.
- **Ring** (`Ring`): the four arcs of `draw_color_ring` and the end-angle-0 rule of
  `draw_arc`. The main theorem is about sorted segments: at every angle, the colour left
  after the four arcs are painted in order is the overlap colour of the segments that
  cover that angle. The overlap colour is:
  - `none` for no segment;
  - the segment's own colour for one;
  - the mix for two;
  - `all` for three.

  This holds even when an end angle of 0 makes an arc fill the whole circle.
- **Clock** (`Clock`): the module state, as class `ClockFace`.
  - `UpdateTime` narrows the tick's fields and stores the three segments at indices
    0, 1 and 2.
  - `UpdateDisplay` sorts them, keeping the invariant that the array holds the current
    tick's segments. It returns the arcs and the dot angles that it draws. When red,
    yellow, blue and green are told apart as written, the ring's mix is the one the
    corrected comparison gives.

The graphics layer is represented by values:

- an arc is a `Slice(color, start, end)` covering the half-open range `[start, end)`;
- painting is "last arc wins".

Two behaviours of the code are easy to misread, and the model follows the code in both:

- The angle scale is the truncated `TRIG_MAX_ANGLE / 60 = 1092`. A rounded
  `time * 65536 / 60` would put 30 seconds at the half circle 32768; the code stores 32760.
- The "end angle 0 means full circle" rule applies to every arc `draw_color_ring` draws,
  not only to the last segment's arc.

## Model

| member | source | states |
|---|---|---|
| Types.ToUint8 | src/main.c:129-131 | storing a C `int` into a `uint8_t` keeps it modulo 256, and an in-range value unchanged |
| Types.ToUint16 | src/types.h:17 | storing into the `uint16_t` `value` keeps the angle modulo 65536, and an in-range value unchanged |
| SegmentSort.Sort | src/array.h:4-19 | after `sort(a, n)`: `a[0..n)` is ordered by value; it is a permutation of the old prefix; equal values keep their relative order; the elements past `n` are unchanged; an already sorted prefix leaves the array unchanged; `n <= 1` changes nothing |
| SegmentSort.BubblePass | src/array.h:9-17 | one inner pass moves the largest value of the unsettled part to its end; it keeps the settled top in order and in place, keeps the runs and leaves the rest alone |
| SegmentSort.Swap | src/array.h:13-15 | the exchange through `temp` swaps the two neighbours and changes nothing else |
| SegmentSort.SwapKeepsRuns | src/array.h:11-15 | the swap, done only when the two adjacent values differ, keeps every run of equal values in order |
| SegmentSort.SortedSameRunsUnique | src/array.h:11 | two value-sorted sequences with the same runs of equal values are equal, so the stable sort's output is determined by its input |
| Colors.CompareColors | src/main.c:36-41 | `compare_colors` as written returns 0 or -1 |
| Colors.CompareIgnoresGreen | src/main.c:37 | as written, two colours compare equal exactly when they agree in red, blue and alpha, whatever their green |
| Colors.CompareReflexive | src/main.c:36-41 | every colour compares equal to itself |
| Colors.CompareSymmetric | src/main.c:36-41 | the comparison does not depend on argument order |
| Colors.CompareMissesGreen | src/main.c:37 | two distinct colours that differ only in green compare equal |
| Colors.CompareColorsFixed | src/main.c:36-41 | the corrected comparison returns 0 exactly when the colours are equal |
| Colors.CompareFixedDiffers | src/main.c:37 | the two comparisons differ exactly on distinct colours that agree except in green |
| Colors.MixColors | src/main.c:43-61 | `mix_colors` always returns one of purple, orange, green or all |
| Colors.MixColorsFixed | src/main.c:43-61 | the mix built on the corrected comparison returns one of the same four colours |
| Colors.MixSymmetric | src/main.c:45-58 | every mixing rule tests both argument orders, so the mix is independent of order |
| Colors.MixTable | src/main.c:43-61 | on a palette whose mixable colours are told apart as written from every other entry (neither shipped palette is): {red, blue} gives purple, {red, yellow} orange, {green, blue} green, and every other pair of palette colours gives all |
| Colors.MixTableFixed | src/main.c:43-61 | the same table holds for the corrected mix on every palette whose mixable colours differ from the other entries |
| Colors.MixAgreesWithFixed | src/main.c:43-61 | on such a palette, the as-written and corrected mixes agree on all pairs of palette colours |
| Colors.MixSegmentColors | src/main.c:43-61 | when red, yellow, blue and green are pairwise told apart as written, both mixes follow the table on every pair of segment colours (red, yellow, blue) |
| Colors.ColorPaletteMixes | src/main.c:183-192 | the shipped colour palette meets that hypothesis but not `DistinctForMix`; as written, `all` with blue mixes to green and orange with red to orange, where the corrected mix gives `all` |
| Colors.MixMissesGreen | src/main.c:45-47 | on the colour palette, a non-palette colour that differs from red only in green mixes with blue to purple as written, and to all once corrected |
| Colors.MixOnGrayPalette | src/main.c:45-48 | on the black-and-white palette, where red, yellow and blue are one gray, the first rule turns every such pair into purple |
| Angles.TimeValue | src/main.c:5 | a second or minute value is `TIME_ANGLE` narrowed to 16 bits; up to 60 it is exactly `time * 1092` and below a full circle |
| Angles.HourValue | src/main.c:6 | an hour value is `hour * 5461` modulo 65536, and exact below 12 |
| Angles.AfternoonHours | src/main.c:151 | the narrowing is not a 12-hour wrap: 12:00 is stored as 65532 and 13:00 as 5457, not as 5461 |
| Angles.HourValueZero | src/main.c:151 | an hour segment is 0 exactly at hour 0 |
| Angles.ThirtySeconds | src/main.c:139 | 30 seconds is stored as 32760, below the half circle |
| Angles.CDiv | src/main.c:65 | C's integer `/` truncates toward zero: for `x >= 0` the quotient's multiple lies in `(x - d, x]`, for `x < 0` in `[x, x + d)` |
| Angles.CDivNegative | src/main.c:65 | on a negative operand truncation differs from Euclidean division: -7 / 2 is -3 in C, -4 in Dafny |
| Angles.GetAngleForHour | src/main.c:63-66 | when `hour * 360` fits in an `int`, the result is `hour * 30` degrees |
| Angles.DotAngles | src/main.c:93-101 | the dot loop visits hours 0, 3, 6, 9, and each dot's angle is `get_angle_for_hour` of its hour: 0, 90, 180, 270 |
| Ring.DrawArc | src/main.c:22-30 | the arc keeps its colour and start; an end angle of 0 becomes the full circle, and any other end angle is kept |
| Ring.RingSlices | src/main.c:85-91 | four arcs, in drawing order: all from 0 to seg0; the mix of seg1 and seg2 from seg0 to seg1; seg2's colour from seg1 to seg2; none from seg2 to the full circle; each end of 0 is widened to the full circle |
| Ring.RingPaintsOverlaps | src/main.c:85-91 | for sorted segments, the colour left at every angle is the overlap colour of the segments covering it |
| Ring.RingPartitions | src/main.c:85-91 | when the smallest segment is above 0, every angle is covered by exactly one of the four arcs |
| Ring.RingZeroBoundary | src/main.c:87 | when the smallest segment is 0, the first arc covers the whole circle |
| Clock.TickSegmentsOnePerUnit | src/main.c:137-157 | a tick stores blue seconds, red minutes and yellow hours, at indices 0, 1 and 2, one segment per unit |
| Clock.PermutationOnePerUnit | src/main.c:109 | any rearrangement of a tick's segments still has one segment for each of 's', 'm' and 'h' |
| Clock.RingMixUnaffected | src/main.c:88 | for any order of a tick's segments, when red, yellow, blue and green are told apart as written, the mix `draw_color_ring` asks for equals the corrected mix |
| Clock.QuarterPastThree | src/main.c:137-153 | at 03:15:30 the segment values are 32760, 16380 and 16383 |
| Clock.ClockFace.constructor | src/main.c:243-260 | after start-up, the palette is set, the time fields are the narrowed start time, and the array holds that tick's segments in unit order |
| Clock.ClockFace.UpdateTime | src/main.c:128-157 | `update_time` sets `s_hour`, `s_minute`, `s_second` to the narrowed tick fields and stores that tick's three segments at indices 0, 1, 2, whatever the array held before |
| Clock.ClockFace.UpdateDisplay | src/main.c:105-114 | `update_display` stably sorts the segments; they stay a permutation of the current tick's segments; a second redraw changes nothing; the arcs drawn are those of the sorted segments and paint the overlap colours; with red, yellow, blue and green told apart as written, the mixed arc matches the corrected mix; the dots are at 0, 90, 180 and 270 degrees |

## Left out

- Graphics calls (`graphics_fill_radial`, `graphics_fill_circle`, colours set on the context) and the rectangles from `calculate_rect`/`grect_inset`: the ring is modelled as a list of arcs, each painted over the earlier ones on the half-open range `[start, end)`.
- `draw_hands`: it is never called (its call in `update_display` is commented out), and it only uses trigonometric lookups.
- `draw_dots`' conversion of degrees to a screen point (`DEG_TO_TRIGANGLE`, `gpoint_from_polar`): the model stops at the degree angle of each dot.
- Window and layer lifecycle (`window_load` beyond the palette, `window_unload`, `deinit`, `main`), the text layers and the date layer (`update_date`, `strftime`, the 12/24-hour choice): these are UI and locale I/O.
- The clock, `localtime` and the tick service: the time of a tick is a parameter of `UpdateTime` and of the constructor.
- `malloc`/`free` and aliasing: segments are held as values in an array. The model therefore does not capture that `sort` swaps references to heap-allocated segments, or that every tick leaks its three segments.
- The `COLOR_FALLBACK` choice between the two palettes: the palette is a parameter of the clock face. The colour palette is written out as `Colors.ColorPalette`; the black-and-white palette is covered only through `Colors.MixOnGrayPalette`, for any palette whose red, yellow and blue are one colour.
- Colours are modelled as four 2-bit channels. The packing of the platform's `GColor8` into one byte is not modelled.
- Angles.GetAngleForHour: requires `hour * 360` to fit a 32-bit `int`, because signed overflow is undefined in C. The only caller passes 0..9.

## Findings

| source | as written | input that shows it | evidently intended | confidence | as-written member | corrected member |
|---|---|---|---|---|---|---|
| src/main.c:37 | `compare_colors` compares `colorA.g` with itself, so green is never compared | `GColor(0,0,2,3)` and `GColor(0,1,2,3)` compare equal; on the shipped colour palette, `mix_colors(all, blue)` gives green (`Colors.ColorPaletteMixes`) | compare `colorA.g` with `colorB.g`, so that 0 means equal colours | not executed | Colors.CompareColors (Colors.CompareMissesGreen, Colors.ColorPaletteMixes) | Colors.CompareColorsFixed (Colors.MixColorsFixed, Colors.MixTableFixed) |

The ring only ever mixes two of the segment colours red, yellow and blue. On those, the
defect changes nothing on any palette where red, yellow, blue and green are told apart
as written, the shipped colour palette included (`Colors.MixSegmentColors`,
`Clock.RingMixUnaffected`). For that reason the ring model keeps the as-written
`mix_colors`. The defect shows only on other colours: on the colour palette, `all`
and green differ only in green, and so do yellow and orange.
