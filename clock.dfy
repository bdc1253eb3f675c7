/** The clock face's state and its two event handlers: `update_time`, run on every
    second tick, and `update_display`, the redraw callback of the ring layer
    (src/main.c:15-19, 104-114, 127-157). */
module Clock {
  import opened Types
  import opened Colors
  import opened Angles
  import opened SegmentSort
  import opened Ring

  /** The fields of `struct tm` that `update_time` reads. */
  datatype Tm = Tm(hour: int, minute: int, second: int)

  /** The three segments one tick builds, in the order it stores them:
      seconds in blue, minutes in red, hours in yellow. */
  function TickSegments(p: Palette, hour: uint8, minute: uint8, second: uint8): seq<TimeSegment> {
    [ TimeSegment(p.blue, TimeValue(second), 's'),
      TimeSegment(p.red, TimeValue(minute), 'm'),
      TimeSegment(p.yellow, HourValue(hour), 'h') ]
  }

  /** Each tick stores exactly one segment per unit, each with its colour and its
      scaled value, at indices 0, 1 and 2. */
  lemma TickSegmentsOnePerUnit(p: Palette, hour: uint8, minute: uint8, second: uint8)
    ensures var s := TickSegments(p, hour, minute, second);
      && |s| == 3
      && s[0] == TimeSegment(p.blue, TimeValue(second), 's')
      && s[1] == TimeSegment(p.red, TimeValue(minute), 'm')
      && s[2] == TimeSegment(p.yellow, HourValue(hour), 'h')
      && multiset{s[0].unit, s[1].unit, s[2].unit} == multiset{'s', 'm', 'h'}
  {
  }

  /** Any rearrangement of a tick's segments still has one segment per unit. */
  lemma PermutationOnePerUnit(p: Palette, hour: uint8, minute: uint8, second: uint8, s: seq<TimeSegment>)
    requires multiset(s) == multiset(TickSegments(p, hour, minute, second))
    ensures |s| == 3
    ensures exists k :: 0 <= k < 3 && s[k].unit == 's'
    ensures exists k :: 0 <= k < 3 && s[k].unit == 'm'
    ensures exists k :: 0 <= k < 3 && s[k].unit == 'h'
  {
    var t := TickSegments(p, hour, minute, second);
    assert |s| == |multiset(s)| == |multiset(t)| == 3;
    assert t[0] in multiset(s) && t[1] in multiset(s) && t[2] in multiset(s);
  }

  /** Every segment of a tick carries one of the segment colours. */
  lemma TickColors(p: Palette, hour: uint8, minute: uint8, second: uint8, x: TimeSegment)
    requires x in multiset(TickSegments(p, hour, minute, second))
    ensures exists e :: SegmentEntry(e) && x.color == p.Get(e)
  {
    var t := TickSegments(p, hour, minute, second);
    assert x in t;
    if x == t[0] { assert SegmentEntry(Blue); }
    else if x == t[1] { assert SegmentEntry(Red); }
    else { assert SegmentEntry(Yellow); }
  }

  /** The mix `draw_color_ring` asks for is the same under the corrected comparison,
      whatever order the tick's segments are in, as long as red, yellow, blue and green
      are told apart as written, as on the colour palette. */
  lemma RingMixUnaffected(p: Palette, hour: uint8, minute: uint8, second: uint8, seg: seq<TimeSegment>)
    requires multiset(seg) == multiset(TickSegments(p, hour, minute, second))
    requires RulesApart(p)
    ensures |seg| == 3
    ensures MixColors(p, seg[1].color, seg[2].color) == MixColorsFixed(p, seg[1].color, seg[2].color)
  {
    PermutationOnePerUnit(p, hour, minute, second, seg);
    assert seg[1] in multiset(seg) && seg[2] in multiset(seg);
    TickColors(p, hour, minute, second, seg[1]);
    TickColors(p, hour, minute, second, seg[2]);
    var x :| SegmentEntry(x) && seg[1].color == p.Get(x);
    var y :| SegmentEntry(y) && seg[2].color == p.Get(y);
    MixSegmentColors(p, x, y);
  }

  /** At 03:15:30 the seconds segment stands just short of the half circle and the
      minutes and hours segments just short of a quarter circle each. */
  lemma QuarterPastThree(p: Palette)
    ensures var s := TickSegments(p, 3, 15, 30);
      s[0].value == 32760 && s[1].value == 16380 && s[2].value == 16383
  {
  }

  /** The module state of the clock face: the palette, the last tick's time fields
      `s_hour`, `s_minute`, `s_second`, and the segment array `s_time_segments`. */
  class ClockFace {
    const palette: Palette
    var hour: uint8
    var minute: uint8
    var second: uint8
    const segments: array<TimeSegment>

    /** The segment array always holds the current tick's three segments, in some order. */
    ghost predicate Valid()
      reads this, segments
    {
      segments.Length == 3
      && multiset(segments[..]) == multiset(TickSegments(palette, hour, minute, second))
    }

    /** `window_load` resolves the palette; `init` then runs `update_time` once. */
    constructor (p: Palette, now: Tm)
      ensures Valid() && fresh(segments) && palette == p
      ensures hour == ToUint8(now.hour) && minute == ToUint8(now.minute) && second == ToUint8(now.second)
      ensures segments[..] == TickSegments(p, hour, minute, second)
    {
      palette := p;
      hour, minute, second := ToUint8(now.hour), ToUint8(now.minute), ToUint8(now.second);
      segments := new TimeSegment[3](k => TimeSegment(p.none, 0, ' '));
      new;
      segments[0] := TimeSegment(palette.blue, TimeValue(second), 's');
      segments[1] := TimeSegment(palette.red, TimeValue(minute), 'm');
      segments[2] := TimeSegment(palette.yellow, HourValue(hour), 'h');
      assert segments[..] == TickSegments(palette, hour, minute, second);
    }

    /** `update_time`: narrows the tick's fields into `s_hour`, `s_minute`, `s_second`
        and stores the blue seconds, red minutes and yellow hours segments at 0, 1, 2. */
    method UpdateTime(t: Tm)
      requires segments.Length == 3
      modifies this, segments
      ensures Valid()
      ensures hour == ToUint8(t.hour) && minute == ToUint8(t.minute) && second == ToUint8(t.second)
      ensures segments[..] == TickSegments(palette, hour, minute, second)
    {
      hour, minute, second := ToUint8(t.hour), ToUint8(t.minute), ToUint8(t.second);
      segments[0], segments[1], segments[2] :=
        TimeSegment(palette.blue, TimeValue(second), 's'),
        TimeSegment(palette.red, TimeValue(minute), 'm'),
        TimeSegment(palette.yellow, HourValue(hour), 'h');
      assert segments[..] == TickSegments(palette, hour, minute, second);
    }

    /** `update_display`: sorts the segments in place, then returns the arcs of the
        colour ring and the angles of the hour dots, in the order they are drawn. */
    method UpdateDisplay() returns (slices: seq<Slice>, dots: seq<int>)
      requires Valid()
      modifies segments
      ensures Valid()
      ensures SortedByValue(segments[..])
      ensures SameRuns(old(segments[..]), segments[..])
      ensures SortedByValue(old(segments[..])) ==> segments[..] == old(segments[..])
      ensures slices == RingSlices(palette, segments[..])
      ensures forall theta :: 0 <= theta < TRIG_MAX_ANGLE ==>
        PaintAt(slices, theta) == Painted(OverlapColor(palette, Covering(segments[..], theta)))
      ensures RulesApart(palette) ==> slices[1].color == MixColorsFixed(palette, segments[1].color, segments[2].color)
      ensures dots == [0, 90, 180, 270]
    {
      Sort(segments, 3);
      assert Prefix(3) == 3 && segments[..Prefix(3)] == segments[..];
      assert old(segments[..Prefix(3)]) == old(segments[..]);
      slices := RingSlices(palette, segments[..]);
      forall theta | 0 <= theta < TRIG_MAX_ANGLE
        ensures PaintAt(slices, theta) == Painted(OverlapColor(palette, Covering(segments[..], theta)))
      {
        RingPaintsOverlaps(palette, segments[..], theta);
      }
      if RulesApart(palette) {
        RingMixUnaffected(palette, hour, minute, second, segments[..]);
      }
      var hours;
      hours, dots := DotAngles();
    }
  }
}
