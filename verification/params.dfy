/** Navigation parameters of the map-tracker move action and their validation
    (`MapTrackerMoveParam` and `parseParam` in move.go). */
module Params {
  import opened Wrappers

  /** A map coordinate, `[2]int` in the source. */
  datatype Point = Point(x: int, y: int)

  /** The parameter record. Go's float64 fields are exact reals here and its
      int64 fields are unbounded integers. */
  datatype MoveParams = MoveParams(
    mapName: string,
    path: seq<Point>,
    arrivalThreshold: real,
    arrivalTimeout: int,
    rotationLowerThreshold: real,
    rotationUpperThreshold: real,
    rotationSpeed: real,
    rotationTimeout: int,
    sprintThreshold: real,
    stuckThreshold: int,
    stuckTimeout: int
  )

  /** The numeric fields, in the order the validator inspects them. */
  datatype Field =
    | ArrivalThreshold
    | ArrivalTimeout
    | RotationLowerThreshold
    | RotationUpperThreshold
    | RotationSpeed
    | RotationTimeout
    | SprintThreshold
    | StuckThreshold
    | StuckTimeout

  datatype ParamError =
    | MissingMapName
    | MissingPath
    | NegativeField(field: Field)
    | AngleOutOfRange(field: Field)

  /** Position of a field in the validation order. */
  function Rank(f: Field): nat {
    match f
    case ArrivalThreshold => 0
    case ArrivalTimeout => 1
    case RotationLowerThreshold => 2
    case RotationUpperThreshold => 3
    case RotationSpeed => 4
    case RotationTimeout => 5
    case SprintThreshold => 6
    case StuckThreshold => 7
    case StuckTimeout => 8
  }

  /** The value of a numeric field, integer fields read as reals. */
  function Get(p: MoveParams, f: Field): real {
    match f
    case ArrivalThreshold => p.arrivalThreshold
    case ArrivalTimeout => p.arrivalTimeout as real
    case RotationLowerThreshold => p.rotationLowerThreshold
    case RotationUpperThreshold => p.rotationUpperThreshold
    case RotationSpeed => p.rotationSpeed
    case RotationTimeout => p.rotationTimeout as real
    case SprintThreshold => p.sprintThreshold
    case StuckThreshold => p.stuckThreshold as real
    case StuckTimeout => p.stuckTimeout as real
  }

  /** The two rotation thresholds are angles and must not exceed 180 degrees. */
  predicate IsAngle(f: Field) {
    f == RotationLowerThreshold || f == RotationUpperThreshold
  }

  /** A field value the validator refuses. */
  predicate Offends(p: MoveParams, f: Field) {
    Get(p, f) < 0.0 || (IsAngle(f) && Get(p, f) > 180.0)
  }

  /** Everything the validator demands of a decoded parameter record. */
  predicate Acceptable(p: MoveParams) {
    && |p.mapName| > 0
    && |p.path| > 0
    && forall f: Field :: !Offends(p, f)
  }

  /** The quantified field condition, spelled out field by field. */
  lemma NoFieldOffends(p: MoveParams)
    ensures (forall f: Field :: !Offends(p, f)) <==>
      && !Offends(p, ArrivalThreshold) && !Offends(p, ArrivalTimeout)
      && !Offends(p, RotationLowerThreshold) && !Offends(p, RotationUpperThreshold)
      && !Offends(p, RotationSpeed) && !Offends(p, RotationTimeout)
      && !Offends(p, SprintThreshold) && !Offends(p, StuckThreshold)
      && !Offends(p, StuckTimeout)
  {
    if
      && !Offends(p, ArrivalThreshold) && !Offends(p, ArrivalTimeout)
      && !Offends(p, RotationLowerThreshold) && !Offends(p, RotationUpperThreshold)
      && !Offends(p, RotationSpeed) && !Offends(p, RotationTimeout)
      && !Offends(p, SprintThreshold) && !Offends(p, StuckThreshold)
      && !Offends(p, StuckTimeout)
    {
      forall f: Field ensures !Offends(p, f) {
        match f
        case ArrivalThreshold =>
        case ArrivalTimeout =>
        case RotationLowerThreshold =>
        case RotationUpperThreshold =>
        case RotationSpeed =>
        case RotationTimeout =>
        case SprintThreshold =>
        case StuckThreshold =>
        case StuckTimeout =>
      }
    }
  }

  /** A record the navigation loop can run with: every numeric field positive
      and both angle thresholds at most 180. */
  predicate Settled(p: MoveParams) {
    forall f: Field :: Get(p, f) > 0.0 && (IsAngle(f) ==> Get(p, f) <= 180.0)
  }

  /** One real-valued field: negative is an error naming the field, zero
      takes the default, and a positive value is kept. */
  function CheckReal(f: Field, v: real, default: real): (r: Result<real, ParamError>)
    ensures r.Success? <==> v >= 0.0
    ensures r.Failure? ==> r.error == NegativeField(f)
    ensures r.Success? ==> r.value == v || (v == 0.0 && r.value == default)
    ensures r.Success? && default > 0.0 ==> r.value > 0.0
  {
    if v < 0.0 then Failure(NegativeField(f))
    else if v == 0.0 then Success(default)
    else Success(v)
  }

  /** One angle field: negative or above 180 is an error naming the field and
      the reason, zero takes the default, and any other value is kept. */
  function CheckAngle(f: Field, v: real, default: real): (r: Result<real, ParamError>)
    ensures r.Success? <==> 0.0 <= v <= 180.0
    ensures r.Failure? ==> r.error == (if v < 0.0 then NegativeField(f) else AngleOutOfRange(f))
    ensures r.Success? ==> r.value == v || (v == 0.0 && r.value == default)
    ensures r.Success? && 0.0 < default <= 180.0 ==> 0.0 < r.value <= 180.0
  {
    if v < 0.0 then Failure(NegativeField(f))
    else if v > 180.0 then Failure(AngleOutOfRange(f))
    else if v == 0.0 then Success(default)
    else Success(v)
  }

  /** One integer (millisecond) field: negative is an error naming the
      field, zero takes the default, and a positive value is kept. */
  function CheckInt(f: Field, v: int, default: int): (r: Result<int, ParamError>)
    ensures r.Success? <==> v >= 0
    ensures r.Failure? ==> r.error == NegativeField(f)
    ensures r.Success? ==> r.value == v || (v == 0 && r.value == default)
    ensures r.Success? && default > 0 ==> r.value > 0
  {
    if v < 0 then Failure(NegativeField(f))
    else if v == 0 then Success(default)
    else Success(v)
  }

  /** `parseParam` after JSON decoding: the record `raw` is validated field by
      field and every zero field is replaced by the one in `defaults`, which
      stands for the package constant DEFAULT_MOVING_PARAM. It succeeds
      exactly on acceptable input, and the two required fields are checked
      first, the map name before the path. */
  function ParseParam(raw: MoveParams, defaults: MoveParams): (r: Result<MoveParams, ParamError>)
    ensures r.Success? <==> Acceptable(raw)
    ensures r == Failure(MissingMapName) <==> |raw.mapName| == 0
    ensures r == Failure(MissingPath) <==> |raw.mapName| > 0 && |raw.path| == 0
  {
    NoFieldOffends(raw);
    if |raw.mapName| == 0 then Failure(MissingMapName)
    else if |raw.path| == 0 then Failure(MissingPath)
    else
      var arrivalThreshold :- CheckReal(ArrivalThreshold, raw.arrivalThreshold, defaults.arrivalThreshold);
      var arrivalTimeout :- CheckInt(ArrivalTimeout, raw.arrivalTimeout, defaults.arrivalTimeout);
      var rotationLower :- CheckAngle(RotationLowerThreshold, raw.rotationLowerThreshold, defaults.rotationLowerThreshold);
      var rotationUpper :- CheckAngle(RotationUpperThreshold, raw.rotationUpperThreshold, defaults.rotationUpperThreshold);
      var rotationSpeed :- CheckReal(RotationSpeed, raw.rotationSpeed, defaults.rotationSpeed);
      var rotationTimeout :- CheckInt(RotationTimeout, raw.rotationTimeout, defaults.rotationTimeout);
      var sprintThreshold :- CheckReal(SprintThreshold, raw.sprintThreshold, defaults.sprintThreshold);
      var stuckThreshold :- CheckInt(StuckThreshold, raw.stuckThreshold, defaults.stuckThreshold);
      var stuckTimeout :- CheckInt(StuckTimeout, raw.stuckTimeout, defaults.stuckTimeout);
      Success(raw.(
        arrivalThreshold := arrivalThreshold,
        arrivalTimeout := arrivalTimeout,
        rotationLowerThreshold := rotationLower,
        rotationUpperThreshold := rotationUpper,
        rotationSpeed := rotationSpeed,
        rotationTimeout := rotationTimeout,
        sprintThreshold := sprintThreshold,
        stuckThreshold := stuckThreshold,
        stuckTimeout := stuckTimeout))
  }

  /** On success the name and path pass through, every zero field takes its
      default and every positive field is kept. */
  lemma ParseParamFields(raw: MoveParams, defaults: MoveParams)
    ensures var r := ParseParam(raw, defaults);
      r.Success? ==>
        && r.value.mapName == raw.mapName
        && r.value.path == raw.path
        && (forall f: Field :: Get(raw, f) == 0.0 ==> Get(r.value, f) == Get(defaults, f))
        && (forall f: Field :: Get(raw, f) > 0.0 ==> Get(r.value, f) == Get(raw, f))
  {
  }

  /** A reported field really offends, in the way reported, and it is the
      first offending field in validation order; the required fields were
      present. */
  lemma ParseParamFirstOffence(raw: MoveParams, defaults: MoveParams)
    ensures var r := ParseParam(raw, defaults);
      r.Failure? && (r.error.NegativeField? || r.error.AngleOutOfRange?) ==>
        && |raw.mapName| > 0 && |raw.path| > 0
        && (r.error.NegativeField? ==> Get(raw, r.error.field) < 0.0)
        && (r.error.AngleOutOfRange? ==> IsAngle(r.error.field) && Get(raw, r.error.field) > 180.0)
        && forall g: Field :: Rank(g) < Rank(r.error.field) ==> !Offends(raw, g)
  {
  }

  /** With settled defaults, a validated record is settled too: the loop never
      sees a zero or negative threshold. */
  lemma ParsedIsSettled(raw: MoveParams, defaults: MoveParams)
    requires Settled(defaults)
    requires ParseParam(raw, defaults).Success?
    ensures Settled(ParseParam(raw, defaults).value)
  {
    var p := ParseParam(raw, defaults).value;
    ParseParamFields(raw, defaults);
    forall f: Field
      ensures Get(p, f) > 0.0 && (IsAngle(f) ==> Get(p, f) <= 180.0)
    {
      assert !Offends(raw, f);
      if Get(raw, f) == 0.0 {
        assert Get(p, f) == Get(defaults, f);
      } else {
        assert Get(p, f) == Get(raw, f);
      }
    }
  }

  /** Validation is idempotent on settled records: running it again on its own
      output changes nothing. */
  lemma ParseParamIdempotent(raw: MoveParams, defaults: MoveParams)
    requires Settled(defaults)
    requires ParseParam(raw, defaults).Success?
    ensures ParseParam(ParseParam(raw, defaults).value, defaults) == ParseParam(raw, defaults)
  {
    var p := ParseParam(raw, defaults).value;
    ParsedIsSettled(raw, defaults);
    assert Acceptable(p) by {
      forall f: Field ensures !Offends(p, f) {
        assert Get(p, f) > 0.0;
      }
    }
    var q := ParseParam(p, defaults).value;
    ParseParamFields(raw, defaults);
    ParseParamFields(p, defaults);
    forall f: Field ensures Get(q, f) == Get(p, f) {
      assert Get(p, f) > 0.0;
    }
    assert q.arrivalThreshold == p.arrivalThreshold by { assert Get(q, ArrivalThreshold) == Get(p, ArrivalThreshold); }
    assert q.arrivalTimeout == p.arrivalTimeout by { assert Get(q, ArrivalTimeout) == Get(p, ArrivalTimeout); }
    assert q.rotationLowerThreshold == p.rotationLowerThreshold by { assert Get(q, RotationLowerThreshold) == Get(p, RotationLowerThreshold); }
    assert q.rotationUpperThreshold == p.rotationUpperThreshold by { assert Get(q, RotationUpperThreshold) == Get(p, RotationUpperThreshold); }
    assert q.rotationSpeed == p.rotationSpeed by { assert Get(q, RotationSpeed) == Get(p, RotationSpeed); }
    assert q.rotationTimeout == p.rotationTimeout by { assert Get(q, RotationTimeout) == Get(p, RotationTimeout); }
    assert q.sprintThreshold == p.sprintThreshold by { assert Get(q, SprintThreshold) == Get(p, SprintThreshold); }
    assert q.stuckThreshold == p.stuckThreshold by { assert Get(q, StuckThreshold) == Get(p, StuckThreshold); }
    assert q.stuckTimeout == p.stuckTimeout by { assert Get(q, StuckTimeout) == Get(p, StuckTimeout); }
  }
}
