/** The colour ring: the arcs `draw_color_ring` hands to the graphics layer, with the
    end-angle rule of `draw_arc` (src/main.c:22-30, 85-91). A drawn arc covers the
    half-open range `[start, end)`; a later arc paints over an earlier one. */
module Ring {
  import opened Types
  import opened Colors
  import opened Angles
  import opened SegmentSort

  /** One filled arc: its colour and the angles it spans. */
  datatype Slice = Slice(color: GColor, start: int, end: int)

  /** `draw_arc`: an end angle of 0 stands for the full circle. */
  function DrawArc(color: GColor, startAngle: int, endAngle: int): (s: Slice)
    ensures s.color == color && s.start == startAngle
    ensures endAngle == 0 ==> s.end == TRIG_MAX_ANGLE
    ensures endAngle != 0 ==> s.end == endAngle
  {
    Slice(color, startAngle, if endAngle == 0 then TRIG_MAX_ANGLE else endAngle)
  }

  /** `draw_color_ring`: the four arcs drawn, in order, from the three segments. */
  function RingSlices(p: Palette, seg: seq<TimeSegment>): (r: seq<Slice>)
    requires |seg| == 3
    ensures |r| == 4
    ensures r[0].start == 0 && forall k :: 1 <= k < 4 ==> r[k].start == seg[k - 1].value
    ensures forall k :: 0 <= k < 3 ==> r[k].end == if seg[k].value == 0 then TRIG_MAX_ANGLE else seg[k].value
    ensures r[3].end == TRIG_MAX_ANGLE
    ensures r[0].color == p.all && r[1].color == MixColors(p, seg[1].color, seg[2].color)
    ensures r[2].color == seg[2].color && r[3].color == p.none
  {
    [ DrawArc(p.all, 0, seg[0].value),
      DrawArc(MixColors(p, seg[1].color, seg[2].color), seg[0].value, seg[1].value),
      DrawArc(seg[2].color, seg[1].value, seg[2].value),
      DrawArc(p.none, seg[2].value, 0) ]
  }

  predicate Covers(s: Slice, theta: int) {
    s.start <= theta < s.end
  }

  datatype Paint = Bare | Painted(color: GColor)

  /** The colour left at `theta` once `slices` are drawn in order. */
  function PaintAt(slices: seq<Slice>, theta: int): Paint {
    if slices == [] then Bare
    else if Covers(slices[|slices| - 1], theta) then Painted(slices[|slices| - 1].color)
    else PaintAt(slices[..|slices| - 1], theta)
  }

  /** How many of `slices` cover `theta`. */
  function CoverCount(slices: seq<Slice>, theta: int): nat {
    if slices == [] then 0
    else (if Covers(slices[0], theta) then 1 else 0) + CoverCount(slices[1..], theta)
  }

  /** The segments whose arc, from 0 up to their value, contains `theta`. */
  function Covering(seg: seq<TimeSegment>, theta: int): (r: seq<TimeSegment>)
    ensures |r| <= |seg|
  {
    if seg == [] then []
    else (if theta < seg[0].value then [seg[0]] else []) + Covering(seg[1..], theta)
  }

  /** The colour an overlap region should show: no segment gives `none`,
      one segment its own colour, two segments their mix, all three `all`. */
  function OverlapColor(p: Palette, covering: seq<TimeSegment>): GColor {
    if |covering| == 0 then p.none
    else if |covering| == 1 then covering[0].color
    else if |covering| == 2 then MixColors(p, covering[0].color, covering[1].color)
    else p.all
  }

  lemma CoveringOfSorted(seg: seq<TimeSegment>, theta: int)
    requires |seg| == 3 && SortedByValue(seg)
    ensures theta < seg[0].value ==> Covering(seg, theta) == seg
    ensures seg[0].value <= theta < seg[1].value ==> Covering(seg, theta) == seg[1..]
    ensures seg[1].value <= theta < seg[2].value ==> Covering(seg, theta) == seg[2..]
    ensures seg[2].value <= theta ==> Covering(seg, theta) == []
  {
    var s1, s2 := seg[1..], seg[2..];
    assert s1[1..] == s2 && s2[1..] == [] && s1[0] == seg[1] && s2[0] == seg[2];
    assert Covering(s2, theta) == if theta < seg[2].value then s2 else [];
    assert Covering(s1, theta) == (if theta < seg[1].value then [seg[1]] else []) + Covering(s2, theta);
    assert Covering(seg, theta) == (if theta < seg[0].value then [seg[0]] else []) + Covering(s1, theta);
    assert [seg[0]] + s1 == seg && [seg[1]] + s2 == s1;
  }

  lemma PaintAtFour(r: seq<Slice>, theta: int)
    requires |r| == 4
    ensures PaintAt(r, theta) ==
      if Covers(r[3], theta) then Painted(r[3].color)
      else if Covers(r[2], theta) then Painted(r[2].color)
      else if Covers(r[1], theta) then Painted(r[1].color)
      else if Covers(r[0], theta) then Painted(r[0].color)
      else Bare
  {
    var r3, r2, r1 := r[..3], r[..2], r[..1];
    assert r3[..2] == r2 && r2[..1] == r1 && r1[..0] == [];
    assert r3[2] == r[2] && r2[1] == r[1] && r1[0] == r[0];
    assert PaintAt(r1, theta) == if Covers(r[0], theta) then Painted(r[0].color) else Bare;
    assert PaintAt(r2, theta) == if Covers(r[1], theta) then Painted(r[1].color) else PaintAt(r1, theta);
    assert PaintAt(r3, theta) == if Covers(r[2], theta) then Painted(r[2].color) else PaintAt(r2, theta);
  }

  /** The ring shows the intended overlap colours: for sorted segments, the colour left
      at every angle of the circle is the overlap colour of the segments covering it.
      This holds even when an end angle of 0 makes an arc fill the whole circle,
      because the arcs drawn after it paint over it. */
  lemma RingPaintsOverlaps(p: Palette, seg: seq<TimeSegment>, theta: int)
    requires |seg| == 3 && SortedByValue(seg)
    requires 0 <= theta < TRIG_MAX_ANGLE
    ensures PaintAt(RingSlices(p, seg), theta) == Painted(OverlapColor(p, Covering(seg, theta)))
  {
    PaintAtFour(RingSlices(p, seg), theta);
    CoveringOfSorted(seg, theta);
  }

  /** Without a zero boundary the four arcs partition the circle: each angle is covered
      by exactly one of them. */
  lemma RingPartitions(p: Palette, seg: seq<TimeSegment>, theta: int)
    requires |seg| == 3 && SortedByValue(seg) && seg[0].value > 0
    requires 0 <= theta < TRIG_MAX_ANGLE
    ensures CoverCount(RingSlices(p, seg), theta) == 1
  {
    var r := RingSlices(p, seg);
    var r1, r2, r3 := r[1..], r[2..], r[3..];
    assert r1[1..] == r2 && r2[1..] == r3 && r3[1..] == [];
    assert r1[0] == r[1] && r2[0] == r[2] && r3[0] == r[3];
    assert CoverCount(r3, theta) == if Covers(r[3], theta) then 1 else 0;
    assert CoverCount(r2, theta) == (if Covers(r[2], theta) then 1 else 0) + CoverCount(r3, theta);
    assert CoverCount(r1, theta) == (if Covers(r[1], theta) then 1 else 0) + CoverCount(r2, theta);
  }

  /** With a zero boundary they do not: when the smallest segment is at 0, the first
      arc, from 0 to 0, is drawn as the full circle, under the three others. */
  lemma RingZeroBoundary(p: Palette, seg: seq<TimeSegment>)
    requires |seg| == 3 && seg[0].value == 0
    ensures forall theta :: 0 <= theta < TRIG_MAX_ANGLE ==> Covers(RingSlices(p, seg)[0], theta)
  {
  }
}
