/** The record validators of utils/robot.t.ts, as predicates over the
    records they accept. A schema's `parse` succeeds exactly on the records
    for which the matching predicate holds. */
module RobotSchemas {
  import opened Wrappers

  /** Lower and upper bound of every angle the schemas accept, in degrees. */
  const AngleMin: real := -180.0
  const AngleMax: real := 180.0

  datatype Angle = Angle(deg: real)

  datatype Position = Position(x: real, y: real, z: real)

  datatype Constraint = Constraint(min: real, max: real)

  datatype JointAngles = JointAngles(name: string, angle: Angle)

  datatype PartObj = PartObj(id: Option<real>, constraint: Constraint, origin: Position)

  datatype RobotDescriptor = RobotDescriptor(name: string, parts: map<string, PartObj>)

  /** The payload of an event: the union of the angle and constraint schemas. */
  datatype EventData = AngleData(angle: Angle) | ConstraintData(constraint: Constraint)

  datatype EventMessage = EventMessage(name: string, data: Option<EventData>)

  predicate InAngleRange(v: real) {
    AngleMin <= v <= AngleMax
  }

  /** AngleSchema: `deg` between -180 and 180, both included. */
  predicate ValidAngle(a: Angle) {
    InAngleRange(a.deg)
  }

  /** PositionSchema: any three numbers; no range restriction. */
  predicate ValidPosition(p: Position) {
    true
  }

  /** ConstraintSchema: both bounds in [-180, 180] and the refinement min < max. */
  predicate ValidConstraint(c: Constraint) {
    InAngleRange(c.min) && InAngleRange(c.max) && c.min < c.max
  }

  /** `z.string().min(1)`. */
  predicate NonEmptyName(s: string) {
    |s| >= 1
  }

  /** _JointAnglesSchema. */
  predicate ValidJointAngles(j: JointAngles) {
    NonEmptyName(j.name) && ValidAngle(j.angle)
  }

  /** PartObj: an optional id that is at least 0 when present. */
  predicate ValidPart(p: PartObj) {
    (p.id.Some? ==> p.id.value >= 0.0) && ValidConstraint(p.constraint) && ValidPosition(p.origin)
  }

  /** RobotDescriptorSchema: a non-empty name and a record of valid parts. */
  predicate ValidDescriptor(d: RobotDescriptor) {
    NonEmptyName(d.name) && forall k :: k in d.parts ==> ValidPart(d.parts[k])
  }

  predicate ValidEventData(e: EventData) {
    match e
    case AngleData(a) => ValidAngle(a)
    case ConstraintData(c) => ValidConstraint(c)
  }

  /** _EventMessageSchema: a non-empty name and optional angle-or-constraint data. */
  predicate ValidEventMessage(m: EventMessage) {
    NonEmptyName(m.name) && (m.data.Some? ==> ValidEventData(m.data.value))
  }

  /** The strict admission test of one angle against one joint's range:
      a value equal to a bound is refused. */
  predicate StrictlyWithin(c: Constraint, a: real) {
    c.min < a < c.max
  }

  /** The inclusive admission test: both bounds are accepted. */
  predicate Within(c: Constraint, a: real) {
    c.min <= a <= c.max
  }

  /** The middle of a constraint's range: an angle that passes the strict
      admission test `min < a < max` whenever the constraint is valid. */
  function Midpoint(c: Constraint): (a: real)
    requires ValidConstraint(c)
    ensures StrictlyWithin(c, a)
    ensures InAngleRange(a)
  {
    (c.min + c.max) / 2.0
  }

  /** A constraint accepted by the schema leaves a non-empty open interval,
      and conversely a non-empty open interval forces min < max. */
  lemma ValidConstraintHasInterior(c: Constraint)
    ensures ValidConstraint(c) ==> exists a :: StrictlyWithin(c, a)
    ensures (exists a :: StrictlyWithin(c, a)) ==> c.min < c.max
  {
    if ValidConstraint(c) {
      var a := Midpoint(c);
      assert StrictlyWithin(c, a);
    }
  }

  /** Every part of a valid descriptor carries a constraint with room to move. */
  lemma DescriptorPartsHaveRoom(d: RobotDescriptor, k: string)
    requires ValidDescriptor(d) && k in d.parts
    ensures exists a :: StrictlyWithin(d.parts[k].constraint, a)
  {
    ValidConstraintHasInterior(d.parts[k].constraint);
  }
}
