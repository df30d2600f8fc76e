/** Properties of the navigation loop that span its branches, several cycles
    or several waypoints. */
module NavigationProofs {
  import opened Wrappers
  import Params
  import Rotation
  import opened Navigation

  /** Whether the forward key W is held after `cmds`, starting from `held`. */
  function Held(cmds: seq<Command>, held: bool): bool
    decreases |cmds|
  {
    if |cmds| == 0 then held
    else Held(cmds[1..], if cmds[0] == KeyDownW then true else if cmds[0] == KeyUpW then false else held)
  }

  lemma {:induction false} HeldConcat(a: seq<Command>, b: seq<Command>, held: bool)
    ensures Held(a + b, held) == Held(b, Held(a, held))
    decreases |a|
  {
    if |a| > 0 {
      assert (a + b)[1..] == a[1..] + b;
      HeldConcat(a[1..], b, if a[0] == KeyDownW then true else if a[0] == KeyUpW then false else held);
    } else {
      assert a + b == b;
    }
  }

  /** Commands other than the two W commands leave the key as it was. */
  lemma {:induction false} HeldUntouched(cmds: seq<Command>, held: bool)
    requires KeyUpW !in cmds && KeyDownW !in cmds
    ensures Held(cmds, held) == held
    decreases |cmds|
  {
    if |cmds| > 0 {
      HeldUntouched(cmds[1..], held);
    }
  }

  /** The key state after `a + [w] + b`, when `b` does not touch W, is set by `w`. */
  lemma HeldAfterLast(a: seq<Command>, w: Command, b: seq<Command>, held: bool)
    requires w == KeyUpW || w == KeyDownW
    requires KeyUpW !in b && KeyDownW !in b
    ensures Held(a + [w] + b, held) == (w == KeyDownW)
  {
    HeldConcat(a + [w], b, held);
    HeldConcat(a, [w], held);
    HeldUntouched(b, Held(a + [w], held));
  }

  /** How often `c` occurs in `cmds`. */
  function Occurrences(c: Command, cmds: seq<Command>): nat
    decreases |cmds|
  {
    if |cmds| == 0 then 0
    else (if cmds[0] == c then 1 else 0) + Occurrences(c, cmds[1..])
  }

  lemma {:induction false} OccurrencesConcat(c: Command, a: seq<Command>, b: seq<Command>)
    ensures Occurrences(c, a + b) == Occurrences(c, a) + Occurrences(c, b)
    decreases |a|
  {
    if |a| > 0 {
      assert (a + b)[1..] == a[1..] + b;
      OccurrencesConcat(c, a[1..], b);
    } else {
      assert a + b == b;
    }
  }

  lemma {:induction false} OccurrencesAbsent(c: Command, cmds: seq<Command>)
    requires c !in cmds
    ensures Occurrences(c, cmds) == 0
    decreases |cmds|
  {
    if |cmds| > 0 {
      OccurrencesAbsent(c, cmds[1..]);
    }
  }

  /** Steering adds the notification only when the rotation times out. */
  lemma SteerNotifies(p: Params.MoveParams, target: Params.Point, s: Session, now: int, pose: Pose, delta: int, prefix: seq<Command>)
    ensures var c := Steer(p, target, s, now, pose, delta, prefix);
      Occurrences(NotifyEmergency, c.cmds) == Occurrences(NotifyEmergency, prefix) + if c.outcome == RotationTimeout then 1 else 0
  {
    var c := Steer(p, target, s, now, pose, delta, prefix);
    if c.outcome != Arrived {
      var tail := c.cmds[|prefix|..];
      assert c.cmds == prefix + tail;
      OccurrencesConcat(NotifyEmergency, prefix, tail);
      if c.outcome == RotationTimeout {
        assert tail == EmergencyStop;
        assert Occurrences(NotifyEmergency, tail) == 1;
      } else {
        assert NotifyEmergency !in tail;
        OccurrencesAbsent(NotifyEmergency, tail);
      }
    }
  }

  /** A cycle issues the emergency notification exactly when it ends the run
      on a progress failure, and then exactly once. */
  lemma StepNotifiesOnFatal(p: Params.MoveParams, target: Params.Point, s: Session, o: Observation)
    requires BearingInRange(o)
    ensures var c := Step(p, target, s, o);
      Occurrences(NotifyEmergency, c.cmds) == if Fatal(c.outcome) then 1 else 0
  {
    var c := Step(p, target, s, o);
    if Localised(s, o, p) && !StuckTooLong(s, o, p) {
      var jump := StuckJump(s, o, p);
      SteerNotifies(p, target, Settle(s, o.sample.value, o.now), o.now, o.sample.value, Delta(o), jump);
      OccurrencesAbsent(NotifyEmergency, jump);
    } else if c.cmds == EmergencyStop {
      assert Occurrences(NotifyEmergency, EmergencyStop) == 1;
    } else {
      assert c.cmds == [KeyUpW];
      assert Occurrences(NotifyEmergency, [KeyUpW]) == 0;
    }
  }

  /** Steering on leaves W held; a rotation timeout leaves it released. */
  lemma SteerKeyState(p: Params.MoveParams, target: Params.Point, s: Session, now: int, pose: Pose, delta: int, prefix: seq<Command>, held: bool)
    ensures var c := Steer(p, target, s, now, pose, delta, prefix);
      && (c.outcome == Continue ==> Held(c.cmds, held))
      && (c.outcome == RotationTimeout ==> !Held(c.cmds, held))
  {
    var c := Steer(p, target, s, now, pose, delta, prefix);
    if c.outcome == Continue && Rotation.Abs(delta) as real <= p.rotationLowerThreshold {
      var sprint := if Beyond(SqDist(pose.pos, target), p.sprintThreshold) then [Sprint] else [];
      HeldAfterLast(prefix, KeyDownW, sprint, held);
    } else if c.outcome == RotationTimeout {
      assert c.cmds == (prefix + [NotifyEmergency]) + [KeyUpW] + [PostStop];
      HeldAfterLast(prefix + [NotifyEmergency], KeyUpW, [PostStop], held);
    } else if c.outcome == Continue && Rotation.Abs(delta) as real > p.rotationUpperThreshold {
      assert c.cmds == (prefix + [KeyUpW, Turn(p, delta)]) + [KeyDownW] + [];
      HeldAfterLast(prefix + [KeyUpW, Turn(p, delta)], KeyDownW, [], held);
    } else if c.outcome == Continue {
      assert c.cmds == prefix + [KeyDownW] + [Turn(p, delta)];
      HeldAfterLast(prefix, KeyDownW, [Turn(p, delta)], held);
    }
  }

  /** Every cycle leaves the forward key in a definite state: released when
      the cycle stopped, failed or ended the run, held while it steers on. */
  lemma StepKeyState(p: Params.MoveParams, target: Params.Point, s: Session, o: Observation, held: bool)
    requires BearingInRange(o)
    ensures var c := Step(p, target, s, o);
      && (c.outcome == Stopped || Fatal(c.outcome) ==> !Held(c.cmds, held))
      && (c.outcome == Continue ==> Held(c.cmds, held) == o.sample.Some?)
      && (c.outcome == Arrived ==> Held(c.cmds, held) == held)
  {
    var c := Step(p, target, s, o);
    if Localised(s, o, p) && !StuckTooLong(s, o, p) {
      var jump := StuckJump(s, o, p);
      SteerKeyState(p, target, Settle(s, o.sample.value, o.now), o.now, o.sample.value, Delta(o), jump, held);
      if c.outcome == Arrived {
        HeldUntouched(c.cmds, held);
      }
    } else if c.cmds == EmergencyStop {
      HeldAfterLast([NotifyEmergency], KeyUpW, [PostStop], held);
    } else {
      assert c.cmds == [] + [KeyUpW] + [];
      HeldAfterLast([], KeyUpW, [], held);
    }
  }

  /** In a steering cycle the camera turn comes right after the W command
      that precedes it: KeyUp W for a large turn, KeyDown W for a small one. */
  lemma SteerTurn(p: Params.MoveParams, target: Params.Point, s: Session, now: int, pose: Pose, delta: int, prefix: seq<Command>, held: bool, i: nat)
    requires forall k :: 0 <= k < |prefix| ==> !prefix[k].Rotate?
    requires i < |Steer(p, target, s, now, pose, delta, prefix).cmds|
    requires Steer(p, target, s, now, pose, delta, prefix).cmds[i].Rotate?
    ensures Held(Steer(p, target, s, now, pose, delta, prefix).cmds[..i], held) <==> Rotation.Abs(delta) as real <= p.rotationUpperThreshold
  {
    var c := Steer(p, target, s, now, pose, delta, prefix);
    if Rotation.Abs(delta) as real > p.rotationUpperThreshold {
      assert c.cmds == prefix + [KeyUpW, Turn(p, delta), KeyDownW];
      assert i == |prefix| + 1;
      assert c.cmds[..i] == prefix + [KeyUpW];
      HeldConcat(prefix, [KeyUpW], held);
    } else {
      assert c.cmds == prefix + [KeyDownW, Turn(p, delta)];
      assert i == |prefix| + 1;
      assert c.cmds[..i] == prefix + [KeyDownW];
      HeldConcat(prefix, [KeyDownW], held);
    }
  }

  /** Large misalignment turns in place, small misalignment turns while
      walking: the camera turn is issued with W released exactly when the
      turn exceeds the upper threshold. */
  lemma StepTurnsInPlaceWhenFar(p: Params.MoveParams, target: Params.Point, s: Session, o: Observation, held: bool, i: nat)
    requires BearingInRange(o)
    requires i < |Step(p, target, s, o).cmds| && Step(p, target, s, o).cmds[i].Rotate?
    ensures o.sample.Some?
    ensures Held(Step(p, target, s, o).cmds[..i], held) <==> Rotation.Abs(Delta(o)) as real <= p.rotationUpperThreshold
  {
    var c := Step(p, target, s, o);
    assert Localised(s, o, p) && !StuckTooLong(s, o, p);
    SteerTurn(p, target, Settle(s, o.sample.value, o.now), o.now, o.sample.value, Delta(o), StuckJump(s, o, p), held, i);
  }

  /** A leg that ends, however it ends, leaves forward motion released. */
  lemma {:induction false} LegReleasesOnExit(p: Params.MoveParams, target: Params.Point, s: Session, obs: seq<Observation>, held: bool)
    requires BearingsInRange(obs)
    ensures var l := Navigate(p, target, s, obs);
      l.outcome != Continue ==> !Held(l.cmds, held)
    decreases |obs|
  {
    if |obs| > 0 {
      var c := Step(p, target, s, obs[0]);
      StepKeyState(p, target, s, obs[0], held);
      if c.outcome == Continue {
        LegReleasesOnExit(p, target, c.session, obs[1..], Held(c.cmds, held));
        HeldConcat(c.cmds, Navigate(p, target, c.session, obs[1..]).cmds, held);
      } else if c.outcome == Arrived {
        HeldConcat(c.cmds, [KeyUpW], held);
      }
    }
  }

  /** The emergency notification is issued at most once per leg, exactly when
      the leg ended on a progress failure. */
  lemma {:induction false} LegNotifiesOnce(p: Params.MoveParams, target: Params.Point, s: Session, obs: seq<Observation>)
    requires BearingsInRange(obs)
    ensures var l := Navigate(p, target, s, obs);
      Occurrences(NotifyEmergency, l.cmds) == if Fatal(l.outcome) then 1 else 0
    decreases |obs|
  {
    if |obs| > 0 {
      var c := Step(p, target, s, obs[0]);
      StepNotifiesOnFatal(p, target, s, obs[0]);
      if c.outcome == Continue {
        LegNotifiesOnce(p, target, c.session, obs[1..]);
        OccurrencesConcat(NotifyEmergency, c.cmds, Navigate(p, target, c.session, obs[1..]).cmds);
      } else if c.outcome == Arrived {
        OccurrencesConcat(NotifyEmergency, c.cmds, [KeyUpW]);
      }
    }
  }

  /** The arrival deadline is measured from the leg's start and never
      refreshed: every cycle that let the leg go on was neither stopping nor
      past the deadline, and the first cycle past the deadline ends the leg. */
  lemma {:induction false} LegDeadline(p: Params.MoveParams, target: Params.Point, s: Session, obs: seq<Observation>)
    requires BearingsInRange(obs)
    ensures var l := Navigate(p, target, s, obs);
      && (forall k :: 0 <= k < l.cycles - (if l.outcome == Continue then 0 else 1) ==>
            !obs[k].stopping && obs[k].now - s.arrivalStart <= p.arrivalTimeout)
      && (forall k :: 0 <= k < |obs| && !obs[k].stopping && obs[k].now - s.arrivalStart > p.arrivalTimeout ==>
            l.cycles <= k + 1 && l.outcome != Continue)
    decreases |obs|
  {
    if |obs| > 0 {
      var c := Step(p, target, s, obs[0]);
      if c.outcome == Continue {
        var rest := obs[1..];
        LegDeadline(p, target, c.session, rest);
        var l := Navigate(p, target, s, obs);
        forall k | 0 <= k < l.cycles - (if l.outcome == Continue then 0 else 1)
          ensures !obs[k].stopping && obs[k].now - s.arrivalStart <= p.arrivalTimeout
        {
          if k > 0 {
            assert obs[k] == rest[k - 1];
          }
        }
        forall k | 0 <= k < |obs| && !obs[k].stopping && obs[k].now - s.arrivalStart > p.arrivalTimeout
          ensures l.cycles <= k + 1 && l.outcome != Continue
        {
          assert k > 0;
          assert obs[k] == rest[k - 1];
        }
      }
    }
  }

  /** The arrival-timeout scenario: when every localisation fails, the leg
      never walks forward, and it ends on the arrival timeout exactly when
      some cycle falls past the deadline; otherwise it is still waiting. */
  lemma {:induction false} BlindLegTimesOut(p: Params.MoveParams, target: Params.Point, s: Session, obs: seq<Observation>)
    requires BearingsInRange(obs)
    requires forall k :: 0 <= k < |obs| ==> !obs[k].stopping && obs[k].sample.None?
    ensures var l := Navigate(p, target, s, obs);
      && KeyDownW !in l.cmds
      && (l.outcome == ArrivalTimeout || l.outcome == Continue)
      && (l.outcome == ArrivalTimeout <==>
            exists k :: 0 <= k < |obs| && obs[k].now - s.arrivalStart > p.arrivalTimeout)
    decreases |obs|
  {
    if |obs| > 0 {
      var c := Step(p, target, s, obs[0]);
      if c.outcome == Continue {
        var rest := obs[1..];
        assert c.session == s;
        BlindLegTimesOut(p, target, s, rest);
        if exists k :: 0 <= k < |rest| && rest[k].now - s.arrivalStart > p.arrivalTimeout {
          var k :| 0 <= k < |rest| && rest[k].now - s.arrivalStart > p.arrivalTimeout;
          assert obs[k + 1] == rest[k];
        }
        if exists k :: 0 <= k < |obs| && obs[k].now - s.arrivalStart > p.arrivalTimeout {
          var k :| 0 <= k < |obs| && obs[k].now - s.arrivalStart > p.arrivalTimeout;
          assert k > 0;
          assert rest[k - 1] == obs[k];
        }
      }
    }
  }

  /** The arrival scenario: the first successful localisation inside the
      arrival threshold, on a fresh leg, ends the leg at once; the only
      command is the final release of W, so no movement was issued. */
  lemma FirstFixInsideThresholdArrives(p: Params.MoveParams, target: Params.Point, start: int, obs: seq<Observation>)
    requires BearingsInRange(obs) && |obs| > 0
    requires !obs[0].stopping && obs[0].now - start <= p.arrivalTimeout
    requires obs[0].sample.Some?
    requires Within(SqDist(obs[0].sample.value.pos, target), p.arrivalThreshold)
    ensures Navigate(p, target, FreshSession(start), obs) == Leg(Arrived, [KeyUpW], 1)
  {
    var c := Step(p, target, FreshSession(start), obs[0]);
    assert !StuckForAWhile(FreshSession(start), obs[0], p);
    assert c.cmds == [];
  }

  /** The commands of the first `n` legs of a run, in order. */
  function LegsCommands(p: Params.MoveParams, path: seq<Params.Point>, legs: seq<LegTrace>, n: nat): seq<Command>
    requires |legs| == |path| && TracesWellFormed(legs) && n <= |path|
    decreases n
  {
    if n == 0 then []
    else LegOf(p, path[0], legs[0]).cmds + LegsCommands(p, path[1..], legs[1..], n - 1)
  }

  /** A run completes exactly when every waypoint's leg arrives. */
  lemma {:induction false} RunCompletesIffAllArrive(p: Params.MoveParams, path: seq<Params.Point>, legs: seq<LegTrace>)
    requires |legs| == |path| && TracesWellFormed(legs)
    ensures RunPath(p, path, legs).status == Completed <==>
      forall k :: 0 <= k < |path| ==> LegOf(p, path[k], legs[k]).outcome == Arrived
    decreases |path|
  {
    if |path| > 0 && LegOf(p, path[0], legs[0]).outcome == Arrived {
      RunCompletesIffAllArrive(p, path[1..], legs[1..]);
      if forall k :: 0 <= k < |path| - 1 ==> LegOf(p, path[1..][k], legs[1..][k]).outcome == Arrived {
        forall k | 0 <= k < |path|
          ensures LegOf(p, path[k], legs[k]).outcome == Arrived
        {
          if k > 0 {
            assert path[k] == path[1..][k - 1] && legs[k] == legs[1..][k - 1];
          }
        }
      } else {
        var k :| 0 <= k < |path| - 1 && LegOf(p, path[1..][k], legs[1..][k]).outcome != Arrived;
        assert path[1..][k] == path[k + 1] && legs[1..][k] == legs[k + 1];
      }
    }
  }

  /** A run that does not complete stops at its first leg that did not
      arrive: every earlier leg arrived and the status reports how that leg
      ended. */
  lemma {:induction false} RunStopsAtFirstFailure(p: Params.MoveParams, path: seq<Params.Point>, legs: seq<LegTrace>)
    requires |legs| == |path| && TracesWellFormed(legs)
    ensures var r := RunPath(p, path, legs);
      && (forall k :: 0 <= k < r.reached ==> LegOf(p, path[k], legs[k]).outcome == Arrived)
      && (r.status != Completed ==>
            && r.reached < |path|
            && var last := LegOf(p, path[r.reached], legs[r.reached]).outcome;
               (if last == Continue then r.status == Pending else r.status == Aborted(last)))
    decreases |path|
  {
    var r := RunPath(p, path, legs);
    if |path| > 0 {
      var l := LegOf(p, path[0], legs[0]);
      if l.outcome == Arrived {
        var path', legs' := path[1..], legs[1..];
        RunStopsAtFirstFailure(p, path', legs');
        var rest := RunPath(p, path', legs');
        assert r.reached == rest.reached + 1 && r.status == rest.status;
        forall k | 0 <= k < r.reached
          ensures LegOf(p, path[k], legs[k]).outcome == Arrived
        {
          if k > 0 {
            assert path[k] == path'[k - 1] && legs[k] == legs'[k - 1];
          }
        }
        if r.status != Completed {
          assert path[r.reached] == path'[rest.reached] && legs[r.reached] == legs'[rest.reached];
        }
      }
    }
  }

  /** The commands of a run are those of its legs in order, up to and
      including the first leg that did not arrive: no later waypoint issues
      anything. */
  lemma {:induction false} RunCommandsAreLegCommands(p: Params.MoveParams, path: seq<Params.Point>, legs: seq<LegTrace>)
    requires |legs| == |path| && TracesWellFormed(legs)
    ensures var r := RunPath(p, path, legs);
      && (r.status == Completed ==> r.cmds == LegsCommands(p, path, legs, |path|))
      && (r.status != Completed ==> r.reached < |path| && r.cmds == LegsCommands(p, path, legs, r.reached + 1))
    decreases |path|
  {
    var r := RunPath(p, path, legs);
    if |path| > 0 {
      var l := LegOf(p, path[0], legs[0]);
      if l.outcome == Arrived {
        RunCommandsAreLegCommands(p, path[1..], legs[1..]);
        var rest := RunPath(p, path[1..], legs[1..]);
        assert r.cmds == l.cmds + rest.cmds;
      } else {
        assert LegsCommands(p, path, legs, 1) == l.cmds + [];
      }
    }
  }

  /** Over a whole run the emergency notification is issued at most once,
      and exactly when the run was aborted by a progress failure. */
  lemma {:induction false} RunNotifiesOnce(p: Params.MoveParams, path: seq<Params.Point>, legs: seq<LegTrace>)
    requires |legs| == |path| && TracesWellFormed(legs)
    ensures var r := RunPath(p, path, legs);
      Occurrences(NotifyEmergency, r.cmds) == if r.status.Aborted? && Fatal(r.status.reason) then 1 else 0
    decreases |path|
  {
    if |path| > 0 {
      var l := LegOf(p, path[0], legs[0]);
      LegNotifiesOnce(p, path[0], FreshSession(legs[0].start), legs[0].obs);
      if l.outcome == Arrived {
        RunNotifiesOnce(p, path[1..], legs[1..]);
        OccurrencesConcat(NotifyEmergency, l.cmds, RunPath(p, path[1..], legs[1..]).cmds);
      }
    }
  }
}
