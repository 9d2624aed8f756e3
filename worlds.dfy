/** Inverse kinematics of utils/worlds.ts: the same candidates as
    utils/lampes.ts, checked against a fixed local table of [-180, 180] per
    joint with inclusive bounds, a reach bound of `3 * brasL`, and a zero pose
    returned when no candidate is admitted. */
module Worlds {
  import opened Wrappers
  import opened RobotSchemas
  import opened Arm

  /** The solver's own table, one range per joint. */
  datatype LocalTable = LocalTable(m1: Constraint, m2: Constraint, m3: Constraint)

  const Constraints: LocalTable :=
    LocalTable(Constraint(-180.0, 180.0), Constraint(-180.0, 180.0), Constraint(-180.0, 180.0))

  /** The one exception: the target is out of reach. */
  datatype WorldsError = HorsDePortee

  /** Largest planar distance the solver accepts, `3 * brasL` mm. */
  const MaxReach: real := 3.0 * BrasL

  /** The pose returned when no candidate is admitted. */
  const ZeroPose: Triple := Triple(0.0, 0.0, 0.0)

  /** Inclusive admission against the local table. */
  predicate Admits(c: Triple)
    ensures Admits(c) <==> ValidAngle(Angle(c.m1)) && ValidAngle(Angle(c.m2)) && ValidAngle(Angle(c.m3))
  {
    Within(Constraints.m1, c.m1) && Within(Constraints.m2, c.m2) && Within(Constraints.m3, c.m3)
  }

  /** `clampAngle`: `max(min, min(angle, max))`. */
  function ClampAngle(angle: real, min: real, max: real): (r: real)
    ensures min <= max ==> min <= r <= max
    ensures min <= angle <= max ==> r == angle
    ensures max < min ==> r == min
  {
    var m := if angle < max then angle else max;
    if min > m then min else m
  }

  /** On an ordered range `clampAngle` agrees with the `THREE.MathUtils.clamp`
      used on the cosines. */
  lemma ClampAngleIsClamp(angle: real, min: real, max: real)
    requires min <= max
    ensures ClampAngle(angle, min, max) == Clamp(angle, min, max)
  {
  }

  /** The first admitted candidate, or the zero pose when there is none. */
  function SelectOrZero(cs: seq<Triple>): (r: Triple)
    ensures Admits(r)
    ensures r == ZeroPose || r in cs
  {
    if cs == [] then ZeroPose
    else if Admits(cs[0]) then cs[0]
    else SelectOrZero(cs[1..])
  }

  /** Reference definition of the whole solve. */
  function Solve(p: Position, trig: Trig): (r: Result<Triple, WorldsError>)
    ensures Measure(p, trig).d > MaxReach <==> r.Failure?
    ensures r.Success? ==> Admits(r.value) && (r.value == ZeroPose || r.value in Candidates(p, trig))
  {
    if Measure(p, trig).d > MaxReach then Failure(HorsDePortee)
    else Success(SelectOrZero(Candidates(p, trig)))
  }

  /** SelectOrZero returns the first admitted candidate when there is one and
      the zero pose exactly when there is none. */
  lemma {:induction false} SelectOrZeroIsFirstAdmitted(cs: seq<Triple>)
    ensures (forall i :: 0 <= i < |cs| ==> !Admits(cs[i])) ==> SelectOrZero(cs) == ZeroPose
    ensures (exists i :: 0 <= i < |cs| && Admits(cs[i])) ==>
      exists i :: 0 <= i < |cs| && cs[i] == SelectOrZero(cs) && Admits(cs[i])
        && forall j :: 0 <= j < i ==> !Admits(cs[j])
  {
    if cs != [] && !Admits(cs[0]) {
      SelectOrZeroIsFirstAdmitted(cs[1..]);
      if forall i :: 0 <= i < |cs| ==> !Admits(cs[i]) {
        forall i | 0 <= i < |cs[1..]| ensures !Admits(cs[1..][i]) {
          assert cs[1..][i] == cs[i + 1];
        }
      }
      if exists i :: 0 <= i < |cs| && Admits(cs[i]) {
        var k :| 0 <= k < |cs| && Admits(cs[k]);
        assert cs[1..][k - 1] == cs[k];
        var i :| 0 <= i < |cs[1..]| && cs[1..][i] == SelectOrZero(cs[1..]) && Admits(cs[1..][i])
          && forall j :: 0 <= j < i ==> !Admits(cs[1..][j]);
        assert cs[i + 1] == cs[1..][i];
        forall j | 0 <= j < i + 1 ensures !Admits(cs[j]) {
          if j > 0 { assert cs[j] == cs[1..][j - 1]; }
        }
      }
    }
  }

  /** Selection order: elbow-down whenever it is admitted, else elbow-up when
      admitted, else the zero pose. */
  lemma SolveOrder(p: Position, trig: Trig)
    requires Measure(p, trig).d <= MaxReach && Measure(p, trig).d != 0.0
    ensures var m := Measure(p, trig);
      && (Admits(ElbowDown(m, trig)) ==> Solve(p, trig) == Success(ElbowDown(m, trig)))
      && (!Admits(ElbowDown(m, trig)) && Admits(ElbowUp(m, trig)) ==>
            Solve(p, trig) == Success(ElbowUp(m, trig)))
      && (!Admits(ElbowDown(m, trig)) && !Admits(ElbowUp(m, trig)) ==>
            Solve(p, trig) == Success(ZeroPose))
  {
    var m := Measure(p, trig);
    SelectOrZeroPair(ElbowDown(m, trig), ElbowUp(m, trig));
  }

  lemma SelectOrZeroPair(down: Triple, up: Triple)
    ensures SelectOrZero([down, up]) ==
      if Admits(down) then down else if Admits(up) then up else ZeroPose
  {
    assert [down, up][1..] == [up];
    assert [up][1..] == [];
    assert SelectOrZero([up]) == if Admits(up) then up else SelectOrZero([]);
  }

  /** At d = 0 both candidates carry a NaN shoulder angle: the zero pose is
      returned. */
  lemma SolveAtZeroDistance(p: Position, trig: Trig)
    requires Measure(p, trig).d == 0.0
    ensures Solve(p, trig) == Success(ZeroPose)
  {
  }

  /** The solver's result: a thrown error, or the first admitted candidate, or
      the zero pose. */
  method CinematiqueInverse(p: Position, trig: Trig) returns (r: Result<Triple, WorldsError>)
    ensures r == Solve(p, trig)
    ensures Measure(p, trig).d > MaxReach <==> r == Failure(HorsDePortee)
    ensures r.Success? ==> Admits(r.value)
    ensures r.Success? && r.value != ZeroPose ==> r.value in Candidates(p, trig)
  {
    var m := Measure(p, trig);
    if m.d > MaxReach {
      return Failure(HorsDePortee);
    }
    var solutions: seq<Triple> := [];
    // At d = 0 both candidates carry a NaN m2 and fail their checks.
    if m.d != 0.0 {
      var down := ElbowDown(m, trig);
      if Admits(down) {
        solutions := solutions + [down];
      }
      var up := ElbowUp(m, trig);
      if Admits(up) {
        solutions := solutions + [up];
      }
      SelectOrZeroPair(down, up);
    }
    if |solutions| == 0 {
      r := Success(ZeroPose);
    } else {
      r := Success(solutions[0]);
    }
  }

  /** The two admission policies on the same [-180, 180] ranges: the local
      table admits exactly what the strict checks of utils/lampes.ts admit plus
      the triples with some angle on a bound, -180 or 180. */
  lemma BoundaryPolicies(c: Triple)
    ensures (StrictlyWithin(Constraints.m1, c.m1) && StrictlyWithin(Constraints.m2, c.m2)
             && StrictlyWithin(Constraints.m3, c.m3)) ==> Admits(c)
    ensures Admits(c) ==>
      (!(StrictlyWithin(Constraints.m1, c.m1) && StrictlyWithin(Constraints.m2, c.m2)
         && StrictlyWithin(Constraints.m3, c.m3))
       <==> c.m1 in {-180.0, 180.0} || c.m2 in {-180.0, 180.0} || c.m3 in {-180.0, 180.0})
  {
  }
}
