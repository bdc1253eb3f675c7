/** From time of day to angles: the `TIME_ANGLE`/`HOUR_ANGLE` macros, the angle stored
    in a segment, and the hour dots (src/main.c:5-6, 63-66, 93-102). */
module Angles {
  import opened Types

  /** The SDK's full-circle angle. */
  const TRIG_MAX_ANGLE: int := 0x10000

  /** `TIME_ANGLE(time)`: seconds and minutes scaled by the truncated `TRIG_MAX_ANGLE / 60`. */
  function TimeAngle(time: int): int {
    time * (TRIG_MAX_ANGLE / 60)
  }

  /** `HOUR_ANGLE(hour)`: hours scaled by the truncated `TRIG_MAX_ANGLE / 12`. */
  function HourAngle(hour: int): int {
    hour * (TRIG_MAX_ANGLE / 12)
  }

  /** The `value` stored for a second or minute: `TIME_ANGLE` narrowed to `uint16_t`.
      Below 61 nothing is lost, and each unit is 1092 angle units. */
  function TimeValue(time: uint8): (r: uint16)
    ensures time <= 60 ==> r == time * 1092 && r < TRIG_MAX_ANGLE
    ensures (TimeAngle(time) - r) % 0x1_0000 == 0
  {
    ToUint16(TimeAngle(time))
  }

  /** The `value` stored for an hour: `HOUR_ANGLE` narrowed to `uint16_t`, i.e.
      `hour * 5461` modulo 65536. */
  function HourValue(hour: uint8): (r: uint16)
    ensures hour < 12 ==> r == hour * 5461
    ensures r == (hour * 5461) % 0x1_0000
  {
    ToUint16(HourAngle(hour))
  }

  /** The narrowing is not a 12-hour wrap: noon is stored as 65532, 13:00 as 5457,
      where a 12-hour clock would use 0 and 5461. */
  lemma AfternoonHours()
    ensures HourValue(12) == 65532 && HourValue(13) == 5457
    ensures HourValue(13) != HourValue(1)
  {
  }

  /** An hour segment has value 0 only at hour 0: 5461 is odd, so no other `uint8_t`
      hour is a multiple of 65536 once scaled. */
  lemma HourValueZero(hour: uint8)
    ensures HourValue(hour) == 0 <==> hour == 0
  {
  }

  /** The truncated scale falls short of the rounded one: 30 seconds is stored as
      32760, not as the half circle 32768. */
  lemma ThirtySeconds()
    ensures TimeValue(30) == 32760 && TimeValue(30) < TRIG_MAX_ANGLE / 2
  {
  }

  /** C's `/` on `int`, which truncates toward zero: the quotient is the integer
      nearest zero among those whose multiple of `d` does not pass `x`. */
  function CDiv(x: int, d: int): (r: int)
    requires d > 0
    ensures x >= 0 ==> d * r <= x < d * (r + 1)
    ensures x < 0 ==> d * (r - 1) < x <= d * r
  {
    if x >= 0 then x / d else -((-x) / d)
  }

  /** Truncation differs from Dafny's Euclidean division on negative operands:
      C gives -7 / 2 == -3, where the Euclidean quotient is -4. */
  lemma CDivNegative()
    ensures CDiv(-7, 2) == -3 && -7 / 2 == -4
  {
  }

  /** `get_angle_for_hour`: degrees on a 12-hour dial, 30 per hour. The product is a
      32-bit `int`, so the caller must keep it in range. */
  function GetAngleForHour(hour: int): (r: int)
    requires -0x8000_0000 <= hour * 360 < 0x8000_0000
    ensures r == hour * 30
  {
    CDiv(hour * 360, 12)
  }

  /** `draw_dots`: the loop `for (i = 0; i < 12; i = i + 3)` computes one dot angle per
      visited hour. Returns the hours visited and their angles in degrees. */
  method DotAngles() returns (hours: seq<int>, angles: seq<int>)
    ensures hours == [0, 3, 6, 9]
    ensures |angles| == |hours| && forall k :: 0 <= k < |hours| ==> angles[k] == GetAngleForHour(hours[k])
    ensures angles == [0, 90, 180, 270]
  {
    hours, angles := [], [];
    var i := 0;
    while i < 12
      invariant 0 <= i <= 12 && i % 3 == 0
      invariant |hours| == |angles| == i / 3
      invariant forall k :: 0 <= k < |hours| ==> hours[k] == 3 * k && angles[k] == 90 * k
    {
      var hourAngle := GetAngleForHour(i);
      hours, angles := hours + [i], angles + [hourAngle];
      i := i + 3;
    }
  }
}
