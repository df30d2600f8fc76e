/** The navigation loop of `MapTrackerMove.Run` (move.go) as pure functions.
    One polling cycle is `Step`: it takes the session state, the cycle's
    timestamp, the stopping signal and one localisation sample, and returns an
    outcome, the new state and the actuator commands it issued, in order.
    Sleeps are not modelled; time is an integer number of milliseconds. */
module Navigation {
  import opened Wrappers
  import Params
  import Rotation

  /** Actuator commands. `Rotate(dx)` stands for `RotateCamera(dx, ...)`;
      `Jump` and `Sprint` are the space and shift key taps. */
  datatype Command =
    | KeyUpW
    | KeyDownW
    | Rotate(dx: int)
    | Jump
    | Sprint
    | NotifyEmergency
    | PostStop

  /** How a cycle, or a whole waypoint leg, ended. `Continue` keeps polling. */
  datatype Outcome =
    | Stopped
    | ArrivalTimeout
    | StuckTimeout
    | RotationTimeout
    | Arrived
    | Continue

  predicate Fatal(o: Outcome) {
    o == ArrivalTimeout || o == StuckTimeout || o == RotationTimeout
  }

  /** A successful localisation: map position and heading in degrees. */
  datatype Pose = Pose(pos: Params.Point, rot: int)

  /** What one cycle observes: the time it started, whether the task is
      stopping, the localisation sample (None when inference failed) and the
      bearing from the sample to the target in degrees, as atan2 computes it. */
  datatype Observation = Observation(now: int, stopping: bool, sample: Option<Pose>, bearing: real)

  predicate BearingInRange(o: Observation) {
    -180.0 <= o.bearing <= 180.0
  }

  /** Per-waypoint state: when the leg started (the arrival-timeout baseline),
      the last position seen standing still and since when, and when the
      current rotation adjustment began (None for the zero time). */
  datatype Session = Session(arrivalStart: int, still: Option<Params.Point>, stillSince: int, rotationStart: Option<int>)

  function FreshSession(start: int): Session {
    Session(start, None, 0, None)
  }

  datatype Cycle = Cycle(outcome: Outcome, session: Session, cmds: seq<Command>)

  /** `doEmergencyStop`: notify, release forward motion, stop the task. */
  const EmergencyStop: seq<Command> := [NotifyEmergency, KeyUpW, PostStop]

  function SqDist(a: Params.Point, b: Params.Point): nat {
    (a.x - b.x) * (a.x - b.x) + (a.y - b.y) * (a.y - b.y)
  }

  /** `math.Hypot(...) < t`, stated on the squared distance. */
  predicate Within(d2: nat, t: real) {
    t > 0.0 && (d2 as real) < t * t
  }

  /** `math.Hypot(...) > t`, stated on the squared distance. */
  predicate Beyond(d2: nat, t: real) {
    t < 0.0 || (d2 as real) > t * t
  }

  lemma ScaleMonotone(c: real, a: real, b: real)
    requires c >= 0.0 && a <= b
    ensures c * a <= c * b
  {
  }

  lemma ScaleStrictlyMonotone(c: real, a: real, b: real)
    requires c > 0.0 && a < b
    ensures c * a < c * b
  {
  }

  /** Squaring is strictly monotone on non-negative reals. */
  lemma SquareMonotone(a: real, b: real)
    requires a >= 0.0 && b >= 0.0
    ensures a < b <==> a * a < b * b
  {
    if a < b {
      ScaleMonotone(a, a, b);
      ScaleStrictlyMonotone(b, a, b);
      assert a * b == b * a;
      calc {
        a * a;
      <= a * b;
      == b * a;
      <  b * b;
      }
    } else {
      ScaleMonotone(b, b, a);
      ScaleMonotone(a, b, a);
      assert a * b == b * a;
    }
  }

  /** The squared comparisons agree with comparing the distance itself, for
      every threshold, negative ones included. */
  lemma HypotComparisons(dist: real, d2: nat, t: real)
    requires dist >= 0.0 && dist * dist == d2 as real
    ensures dist < t <==> Within(d2, t)
    ensures dist > t <==> Beyond(d2, t)
  {
    if t > 0.0 {
      SquareMonotone(dist, t);
      SquareMonotone(t, dist);
    } else if t == 0.0 {
      SquareMonotone(0.0, dist);
    }
  }

  /** Go's conversion `int(x)` of a float: truncation toward zero. */
  function Truncate(x: real): (n: int)
    ensures x >= 0.0 ==> 0 <= n && n as real <= x < n as real + 1.0
    ensures x < 0.0 ==> n <= 0 && n as real - 1.0 < x <= n as real
  {
    if x >= 0.0 then x.Floor else -((-x).Floor)
  }

  /** The part of a cycle that follows inference: all checks before it passed. */
  predicate Localised(s: Session, o: Observation, p: Params.MoveParams) {
    !o.stopping && o.now - s.arrivalStart <= p.arrivalTimeout && o.sample.Some?
  }

  /** The sample repeats the remembered stationary position. */
  predicate StandingStill(s: Session, pose: Pose) {
    s.still == Some(pose.pos)
  }

  predicate StuckTooLong(s: Session, o: Observation, p: Params.MoveParams)
    requires o.sample.Some?
  {
    StandingStill(s, o.sample.value) && o.now - s.stillSince > p.stuckTimeout
  }

  predicate StuckForAWhile(s: Session, o: Observation, p: Params.MoveParams)
    requires o.sample.Some?
  {
    StandingStill(s, o.sample.value) && o.now - s.stillSince > p.stuckThreshold
  }

  /** Lines 156-157: the turn the cycle wants, given the sample and the
      bearing. It is at most a half turn either way and brings the sampled
      heading onto the target heading. */
  function Delta(o: Observation): (r: int)
    requires o.sample.Some? && BearingInRange(o)
    ensures -180 <= r <= 180
    ensures Rotation.SameHeading(o.sample.value.rot + r, Rotation.TargetHeading(o.bearing))
  {
    Rotation.DeltaRotation(o.sample.value.rot, Rotation.TargetHeading(o.bearing))
  }

  /** The camera command for a turn of `delta` degrees: a rotation by
      delta · speed, cut toward zero to a whole number, so it turns the same
      way and never overshoots by a unit or more. */
  function Turn(p: Params.MoveParams, delta: int): (c: Command)
    ensures c.Rotate?
    ensures var x := delta as real * p.rotationSpeed;
      && (x >= 0.0 ==> 0 <= c.dx && c.dx as real <= x < c.dx as real + 1.0)
      && (x < 0.0 ==> c.dx <= 0 && c.dx as real - 1.0 < x <= c.dx as real)
  {
    Rotate(Truncate(delta as real * p.rotationSpeed))
  }

  /** Lines 147-190 of the cycle: arrival, then heading correction. `prefix`
      holds the commands already issued by the stuck check. */
  function Steer(p: Params.MoveParams, target: Params.Point, s: Session, now: int, pose: Pose, delta: int, prefix: seq<Command>): (c: Cycle)
    // only the rotation timer may change
    ensures c.session == s.(rotationStart := c.session.rotationStart)
    ensures |c.cmds| >= |prefix| && c.cmds[..|prefix|] == prefix
    // arrival rule: strictly inside the threshold, nothing more is issued
    ensures c.outcome == Arrived <==> Within(SqDist(pose.pos, target), p.arrivalThreshold)
    ensures c.outcome == Arrived ==> c.cmds == prefix && c.session == s
    ensures c.outcome in {Arrived, RotationTimeout, Continue}
    // rotation rule, misaligned: the timer starts only if unset and bounds the adjustment
    ensures !Within(SqDist(pose.pos, target), p.arrivalThreshold) && Rotation.Abs(delta) as real > p.rotationLowerThreshold ==>
      && c.session.rotationStart.Some?
      && (s.rotationStart.Some? ==> c.session.rotationStart == s.rotationStart)
      && (s.rotationStart.None? ==> c.session.rotationStart == Some(now))
      && (c.outcome == RotationTimeout <==> now - c.session.rotationStart.value > p.rotationTimeout)
      && (c.outcome == RotationTimeout ==> c.cmds == prefix + EmergencyStop)
      && (c.outcome == Continue && Rotation.Abs(delta) as real > p.rotationUpperThreshold ==>
            c.cmds == prefix + [KeyUpW, Turn(p, delta), KeyDownW])
      && (c.outcome == Continue && Rotation.Abs(delta) as real <= p.rotationUpperThreshold ==>
            c.cmds == prefix + [KeyDownW, Turn(p, delta)])
    // rotation rule, aligned: walk on, sprint when far, reset the timer
    ensures !Within(SqDist(pose.pos, target), p.arrivalThreshold) && Rotation.Abs(delta) as real <= p.rotationLowerThreshold ==>
      && c.outcome == Continue
      && c.session.rotationStart.None?
      && c.cmds == prefix + [KeyDownW] + (if Beyond(SqDist(pose.pos, target), p.sprintThreshold) then [Sprint] else [])
  {
    var d2 := SqDist(pose.pos, target);
    if Within(d2, p.arrivalThreshold) then
      Cycle(Arrived, s, prefix)
    else if Rotation.Abs(delta) as real > p.rotationLowerThreshold then
      var start := if s.rotationStart.None? then now else s.rotationStart.value;
      var s' := s.(rotationStart := Some(start));
      if now - start > p.rotationTimeout then
        Cycle(RotationTimeout, s', prefix + EmergencyStop)
      else if Rotation.Abs(delta) as real > p.rotationUpperThreshold then
        Cycle(Continue, s', prefix + [KeyUpW, Turn(p, delta), KeyDownW])
      else
        Cycle(Continue, s', prefix + [KeyDownW, Turn(p, delta)])
    else
      var sprint := if Beyond(d2, p.sprintThreshold) then [Sprint] else [];
      Cycle(Continue, s.(rotationStart := None), prefix + [KeyDownW] + sprint)
  }

  /** One polling cycle of the loop at move.go lines 94-190. */
  function Step(p: Params.MoveParams, target: Params.Point, s: Session, o: Observation): (c: Cycle)
    requires BearingInRange(o)
    // the arrival baseline is never refreshed inside the loop
    ensures c.session.arrivalStart == s.arrivalStart
    // 1. the stopping signal wins and only releases forward motion
    ensures o.stopping ==> c == Cycle(Stopped, s, [KeyUpW])
    // 2. then the arrival timeout, measured from the leg's start
    ensures !o.stopping && o.now - s.arrivalStart > p.arrivalTimeout ==>
      c == Cycle(ArrivalTimeout, s, EmergencyStop)
    // 3. then inference: a failure releases forward motion and keeps polling
    ensures !o.stopping && o.now - s.arrivalStart <= p.arrivalTimeout && o.sample.None? ==>
      c == Cycle(Continue, s, [KeyUpW])
    // 4. stuck rule
    ensures Localised(s, o, p) && StuckTooLong(s, o, p) ==> c == Cycle(StuckTimeout, s, EmergencyStop)
    ensures Localised(s, o, p) && !StuckTooLong(s, o, p) ==>
      if StuckForAWhile(s, o, p) then |c.cmds| > 0 && c.cmds[0] == Jump && Jump !in c.cmds[1..]
      else Jump !in c.cmds
    ensures Localised(s, o, p) && !StandingStill(s, o.sample.value) ==>
      c.session.still == Some(o.sample.value.pos) && c.session.stillSince == o.now
    ensures Localised(s, o, p) && StandingStill(s, o.sample.value) ==>
      c.session.still == s.still && c.session.stillSince == s.stillSince
    // 5. arrival: nothing but a corrective jump was issued this cycle
    ensures c.outcome == Arrived ==> c.cmds == [] || c.cmds == [Jump]
  {
    if o.stopping then
      Cycle(Stopped, s, [KeyUpW])
    else if o.now - s.arrivalStart > p.arrivalTimeout then
      Cycle(ArrivalTimeout, s, EmergencyStop)
    else
      match o.sample
      case None => Cycle(Continue, s, [KeyUpW])
      case Some(pose) =>
        if StuckTooLong(s, o, p) then
          Cycle(StuckTimeout, s, EmergencyStop)
        else
          Steer(p, target, Settle(s, pose, o.now), o.now, pose, Delta(o), StuckJump(s, o, p))
  }

  /** Lines 130-144: a new position becomes the stationary baseline, a
      repeated one keeps the old baseline and its time. Either way the pose
      stands still against the result, and nothing but the baseline and its
      time changes. */
  function Settle(s: Session, pose: Pose, now: int): (r: Session)
    ensures StandingStill(r, pose)
    ensures r == s.(still := r.still, stillSince := r.stillSince)
    ensures StandingStill(s, pose) ==> r == s
    ensures !StandingStill(s, pose) ==> r.stillSince == now
  {
    if StandingStill(s, pose) then s else s.(still := Some(pose.pos), stillSince := now)
  }

  /** Lines 137-140: the corrective jump of a position stuck for a while.
      At most one jump is issued, and one is issued exactly when the sample
      repeats the baseline for longer than the stuck threshold. */
  function StuckJump(s: Session, o: Observation, p: Params.MoveParams): (r: seq<Command>)
    requires o.sample.Some?
    ensures r == [] || r == [Jump]
    ensures Jump in r <==> StandingStill(s, o.sample.value) && o.now - s.stillSince > p.stuckThreshold
  {
    if StuckForAWhile(s, o, p) then [Jump] else []
  }

  predicate BearingsInRange(obs: seq<Observation>) {
    forall i :: 0 <= i < |obs| ==> BearingInRange(obs[i])
  }

  /** A waypoint leg: how it ended, the commands issued and how many cycles
      ran. `Continue` here means the observations ran out mid-leg. */
  datatype Leg = Leg(outcome: Outcome, cmds: seq<Command>, cycles: nat)

  /** The inner `for` loop of one waypoint driven by a finite trace of
      observations, followed, on arrival, by the key release at line 194. */
  function Navigate(p: Params.MoveParams, target: Params.Point, s: Session, obs: seq<Observation>): (l: Leg)
    requires BearingsInRange(obs)
    decreases |obs|
    ensures l.cycles <= |obs|
    ensures l.outcome == Continue ==> l.cycles == |obs|
    ensures |obs| > 0 ==> l.cycles > 0
  {
    if |obs| == 0 then Leg(Continue, [], 0)
    else
      var c := Step(p, target, s, obs[0]);
      if c.outcome == Continue then
        var rest := Navigate(p, target, c.session, obs[1..]);
        Leg(rest.outcome, c.cmds + rest.cmds, rest.cycles + 1)
      else if c.outcome == Arrived then
        Leg(Arrived, c.cmds + [KeyUpW], 1)
      else
        Leg(c.outcome, c.cmds, 1)
  }

  /** The observations of one waypoint: when the leg began and what each
      cycle saw. */
  datatype LegTrace = LegTrace(start: int, obs: seq<Observation>)

  predicate TracesWellFormed(legs: seq<LegTrace>) {
    forall k :: 0 <= k < |legs| ==> BearingsInRange(legs[k].obs)
  }

  datatype Status =
    | Completed
    | Aborted(reason: Outcome)
    | Pending
    | Invalid(error: Params.ParamError)

  /** A run: its status, the commands issued and how many waypoints were reached. */
  datatype RunResult = RunResult(status: Status, cmds: seq<Command>, reached: nat)

  function LegOf(p: Params.MoveParams, target: Params.Point, t: LegTrace): Leg
    requires BearingsInRange(t.obs)
  {
    Navigate(p, target, FreshSession(t.start), t.obs)
  }

  /** The outer `for` loop over the path: each waypoint gets a fresh session;
      the run continues only past an arrival. */
  function RunPath(p: Params.MoveParams, path: seq<Params.Point>, legs: seq<LegTrace>): (r: RunResult)
    requires |legs| == |path| && TracesWellFormed(legs)
    decreases |path|
    ensures r.reached <= |path|
    ensures r.status == Completed <==> r.reached == |path|
    ensures r.status != Completed ==> r.status.Pending? || (r.status.Aborted? && r.status.reason != Continue && r.status.reason != Arrived)
    // the first leg runs from a fresh session: the arrival clock at the
    // leg's start, no stationary baseline and no rotation timer
    ensures |path| > 0 ==>
      var first := Navigate(p, path[0], Session(legs[0].start, None, 0, None), legs[0].obs);
      |first.cmds| <= |r.cmds| && r.cmds[..|first.cmds|] == first.cmds
  {
    if |path| == 0 then RunResult(Completed, [], 0)
    else
      var l := LegOf(p, path[0], legs[0]);
      if l.outcome == Arrived then
        var rest := RunPath(p, path[1..], legs[1..]);
        RunResult(rest.status, l.cmds + rest.cmds, rest.reached + 1)
      else if l.outcome == Continue then
        RunResult(Pending, l.cmds, 0)
      else
        RunResult(Aborted(l.outcome), l.cmds, 0)
  }

  /** `MapTrackerMove.Run`: validate, then follow the path. The Go function
      returns true exactly for `Completed`. */
  function Run(raw: Params.MoveParams, defaults: Params.MoveParams, legs: seq<LegTrace>): (r: RunResult)
    requires |legs| == |raw.path| && TracesWellFormed(legs)
    ensures Params.ParseParam(raw, defaults).Failure? ==> r == RunResult(Invalid(Params.ParseParam(raw, defaults).error), [], 0)
    ensures r.status == Completed ==> Params.Acceptable(raw) && r.reached == |raw.path|
  {
    match Params.ParseParam(raw, defaults)
    case Failure(e) => RunResult(Invalid(e), [], 0)
    case Success(p) => RunPath(p, p.path, legs)
  }
}
