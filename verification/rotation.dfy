/** Heading arithmetic of the navigation loop (`calcDeltaRotation` and the
    integer tail of `calcTargetRotation` in move.go). Headings are degrees,
    0 is north and angles grow clockwise. */
module Rotation {

  /** Two angles name the same heading. */
  predicate SameHeading(a: int, b: int) {
    (a - b) % 360 == 0
  }

  /** The first loop of `calcDeltaRotation`: subtract 360 while above 180. */
  function WrapDown(d: int): (r: int)
    decreases d
    ensures r <= 180
    ensures SameHeading(r, d)
    ensures d <= 180 ==> r == d
    ensures d > 180 ==> r > -180
  {
    if d > 180 then WrapDown(d - 360) else d
  }

  /** The second loop of `calcDeltaRotation`: add 360 while below -180. */
  function WrapUp(d: int): (r: int)
    decreases -d
    ensures r >= -180
    ensures SameHeading(r, d)
    ensures d >= -180 ==> r == d
    ensures d < -180 ==> r < 180
  {
    if d < -180 then WrapUp(d + 360) else d
  }

  /** `calcDeltaRotation(current, target)`: the turn that brings `current`
      onto `target`. It lies in [-180, 180] and is the representative of
      `target - current` modulo 360 the two loops reach: 180 only when the raw
      difference was at least 180, -180 only when it was at most -180. */
  function DeltaRotation(current: int, target: int): (r: int)
    ensures -180 <= r <= 180
    ensures SameHeading(current + r, target)
    ensures r == 180 ==> target - current >= 180
    ensures r == -180 ==> target - current <= -180
  {
    WrapUp(WrapDown(target - current))
  }

  /** Both half turns are reachable: from heading 180 to heading 0 the
      result is -180, from 0 to 180 it is 180. */
  lemma HalfTurns()
    ensures DeltaRotation(180, 0) == -180
    ensures DeltaRotation(0, 180) == 180
  {
  }

  function Abs(x: int): nat {
    if x < 0 then -x else x
  }

  /** No turn reaching the target heading is shorter than DeltaRotation. */
  lemma DeltaRotationIsShortest(current: int, target: int, other: int)
    requires SameHeading(current + other, target)
    ensures Abs(DeltaRotation(current, target)) <= Abs(other)
  {
    var r := DeltaRotation(current, target);
    var k := (other - r) / 360;
    assert other - r == 360 * k;
    if k != 0 {
      assert Abs(other) >= 180;
    }
  }

  /** `int(math.Round(x))` for x >= 0: Go rounds halves away from zero. */
  function RoundNonNegative(x: real): (n: int)
    requires x >= 0.0
    ensures n >= 0
    ensures -0.5 <= x - n as real < 0.5
  {
    (x + 0.5).Floor
  }

  /** The tail of `calcTargetRotation`: the bearing `angle`, in degrees as
      returned by atan2 and so within [-180, 180], is moved into [0, 360) by
      adding 360 when negative, rounded to the nearest integer and reduced
      modulo 360. The result is a heading in [0, 360) that lies within half a
      degree of `angle` on the circle. */
  function TargetHeading(angle: real): (r: int)
    requires -180.0 <= angle <= 180.0
    ensures 0 <= r < 360
    ensures
      || -0.5 <= r as real - angle <= 0.5
      || 359.5 <= r as real - angle <= 360.5
  {
    var positive := if angle < 0.0 then angle + 360.0 else angle;
    RoundNonNegative(positive) % 360
  }
}
