/** Inverse kinematics of utils/lampes.ts: a process-wide constraint table,
    replaced whole by a setter, and a solver that throws when the target is out
    of reach or when no candidate lies strictly inside the table. */
module Lampes {
  import opened Wrappers
  import opened RobotSchemas
  import opened Arm

  /** The constraint table: one range per motor. m4 is part of the table but
      never read by the solver. */
  datatype Contraintes = Contraintes(m1: Constraint, m2: Constraint, m3: Constraint, m4: Constraint)

  /** The two exceptions the solver throws. */
  datatype IkError = HorsDePortee | AucuneSolution

  /** The table the module starts with: every range is [0, 0]. */
  const InitialContraintes: Contraintes :=
    Contraintes(Constraint(0.0, 0.0), Constraint(0.0, 0.0), Constraint(0.0, 0.0), Constraint(0.0, 0.0))

  /** Largest planar distance the solver accepts, `2 * brasL + 200` mm. */
  const MaxReach: real := 2.0 * BrasL + 200.0

  /** A candidate is admitted when each of m1, m2, m3 lies strictly inside its
      joint's range. */
  predicate Admits(t: Contraintes, c: Triple)
    ensures Admits(t, c) ==> t.m1.min < t.m1.max && t.m2.min < t.m2.max && t.m3.min < t.m3.max
    ensures Admits(t, c) ==> c.m1 != t.m1.max && c.m2 != t.m2.max && c.m3 != t.m3.max
    ensures Admits(t, c) ==> c.m1 != t.m1.min && c.m2 != t.m2.min && c.m3 != t.m3.min
  {
    StrictlyWithin(t.m1, c.m1) && StrictlyWithin(t.m2, c.m2) && StrictlyWithin(t.m3, c.m3)
  }

  /** The first admitted candidate, if any. */
  function Select(cs: seq<Triple>, t: Contraintes): (r: Option<Triple>)
    ensures r.Some? ==> r.value in cs && Admits(t, r.value)
  {
    if cs == [] then None
    else if Admits(t, cs[0]) then Some(cs[0])
    else Select(cs[1..], t)
  }

  /** Reference definition of the whole solve against a table. Beyond the
      reach bound it fails with HorsDePortee, whatever the table, and only
      there; a success is one of the candidates and lies strictly inside the
      table. */
  function Solve(p: Position, trig: Trig, t: Contraintes): (r: Result<Triple, IkError>)
    ensures Measure(p, trig).d > MaxReach <==> r == Failure(HorsDePortee)
    ensures r.Success? ==> Admits(t, r.value) && r.value in Candidates(p, trig)
  {
    if Measure(p, trig).d > MaxReach then Failure(HorsDePortee)
    else match Select(Candidates(p, trig), t)
      case Some(c) => Success(c)
      case None => Failure(AucuneSolution)
  }

  /** What Select returns is admitted, and it is the first admitted candidate. */
  lemma {:induction false} SelectIsFirstAdmitted(cs: seq<Triple>, t: Contraintes)
    ensures Select(cs, t).Some? ==>
      exists i :: 0 <= i < |cs| && cs[i] == Select(cs, t).value && Admits(t, cs[i])
        && forall j :: 0 <= j < i ==> !Admits(t, cs[j])
    ensures Select(cs, t).None? <==> forall i :: 0 <= i < |cs| ==> !Admits(t, cs[i])
  {
    if cs != [] && !Admits(t, cs[0]) {
      SelectIsFirstAdmitted(cs[1..], t);
      if Select(cs, t).Some? {
        var i :| 0 <= i < |cs[1..]| && cs[1..][i] == Select(cs[1..], t).value && Admits(t, cs[1..][i])
          && forall j :: 0 <= j < i ==> !Admits(t, cs[1..][j]);
        assert cs[i + 1] == cs[1..][i];
        forall j | 0 <= j < i + 1 ensures !Admits(t, cs[j]) {
          if j > 0 { assert cs[j] == cs[1..][j - 1]; }
        }
      }
      if forall i :: 0 <= i < |cs[1..]| ==> !Admits(t, cs[1..][i]) {
        forall i | 0 <= i < |cs| ensures !Admits(t, cs[i]) {
          if i > 0 { assert cs[i] == cs[1..][i - 1]; }
        }
      }
    }
  }

  /** If the elbow-down candidate is admitted and the target is in reach, it is
      returned, whatever the elbow-up candidate is. Otherwise the elbow-up one
      is returned when admitted, and AucuneSolution is thrown when neither is. */
  lemma SolveOrder(p: Position, trig: Trig, t: Contraintes)
    requires Measure(p, trig).d <= MaxReach && Measure(p, trig).d != 0.0
    ensures var m := Measure(p, trig);
      && (Admits(t, ElbowDown(m, trig)) ==> Solve(p, trig, t) == Success(ElbowDown(m, trig)))
      && (!Admits(t, ElbowDown(m, trig)) && Admits(t, ElbowUp(m, trig)) ==>
            Solve(p, trig, t) == Success(ElbowUp(m, trig)))
      && (!Admits(t, ElbowDown(m, trig)) && !Admits(t, ElbowUp(m, trig)) ==>
            Solve(p, trig, t) == Failure(AucuneSolution))
  {
    var m := Measure(p, trig);
    SelectPair(ElbowDown(m, trig), ElbowUp(m, trig), t);
  }

  /** Select over the two candidates, case by case. */
  lemma SelectPair(down: Triple, up: Triple, t: Contraintes)
    ensures Select([down, up], t) ==
      if Admits(t, down) then Some(down) else if Admits(t, up) then Some(up) else None
  {
    assert [down, up][1..] == [up];
    assert [up][1..] == [];
    assert Select([up], t) == if Admits(t, up) then Some(up) else Select([], t);
  }

  /** At d = 0 the NaN shoulder angle makes every candidate fail its checks. */
  lemma SolveAtZeroDistance(p: Position, trig: Trig, t: Contraintes)
    requires Measure(p, trig).d == 0.0
    ensures Solve(p, trig, t) == Failure(AucuneSolution)
  {
  }

  /** The m4 range is never consulted. */
  lemma SolveIgnoresM4(p: Position, trig: Trig, t: Contraintes, m4: Constraint)
    ensures Solve(p, trig, t.(m4 := m4)) == Solve(p, trig, t)
  {
    var cs := Candidates(p, trig);
    forall c ensures Admits(t.(m4 := m4), c) == Admits(t, c) { }
    SelectIgnoresM4(cs, t, m4);
  }

  lemma {:induction false} SelectIgnoresM4(cs: seq<Triple>, t: Contraintes, m4: Constraint)
    ensures Select(cs, t.(m4 := m4)) == Select(cs, t)
  {
    if cs != [] {
      SelectIgnoresM4(cs[1..], t, m4);
    }
  }

  /** With the initial table no angle is strictly inside [0, 0], so every
      in-reach solve throws AucuneSolution until a table is set. The initial
      ranges also fail the constraint schema's min < max refinement. */
  lemma InitialTableAdmitsNothing(p: Position, trig: Trig)
    ensures Measure(p, trig).d <= MaxReach ==> Solve(p, trig, InitialContraintes) == Failure(AucuneSolution)
    ensures !ValidConstraint(InitialContraintes.m1)
  {
    SelectIsFirstAdmitted(Candidates(p, trig), InitialContraintes);
  }

  /** A table whose m1, m2 and m3 ranges pass the constraint schema admits
      some triple: strict admission is satisfiable for every valid table. */
  lemma ValidTableAdmitsSome(t: Contraintes)
    requires ValidConstraint(t.m1) && ValidConstraint(t.m2) && ValidConstraint(t.m3)
    ensures exists c :: Admits(t, c)
  {
    var c := Triple(Midpoint(t.m1), Midpoint(t.m2), Midpoint(t.m3));
    assert Admits(t, c);
  }

  /** The module-level state of utils/lampes.ts: the current constraint table. */
  class ConstraintStore {
    var contraintes: Contraintes

    constructor ()
      ensures contraintes == InitialContraintes
    {
      contraintes := InitialContraintes;
    }

    /** Replaces the whole table. */
    method DefinirContraintes(c: Contraintes)
      modifies this
      ensures contraintes == c
    {
      contraintes := c;
    }

    /** Returns the current table, exactly as last set. */
    method RecupererContraintes() returns (c: Contraintes)
      ensures c == contraintes
    {
      c := contraintes;
    }

    /** Solves for a target against the current table: admitted candidates are
        pushed in order and the first is returned. */
    method CinematiqueInverse(p: Position, trig: Trig) returns (r: Result<Triple, IkError>)
      ensures r == Solve(p, trig, contraintes)
      ensures Measure(p, trig).d > MaxReach ==> r == Failure(HorsDePortee)
      ensures r.Success? ==> Admits(contraintes, r.value)
      ensures r.Failure? && r.error == AucuneSolution ==>
        forall c :: c in Candidates(p, trig) ==> !Admits(contraintes, c)
    {
      var m := Measure(p, trig);
      if m.d > MaxReach {
        return Failure(HorsDePortee);
      }
      var solutions: seq<Triple> := [];
      // At d = 0 both candidates carry a NaN m2 and fail their checks.
      if m.d != 0.0 {
        var down := ElbowDown(m, trig);
        if Admits(contraintes, down) {
          solutions := solutions + [down];
        }
        var up := ElbowUp(m, trig);
        if Admits(contraintes, up) {
          solutions := solutions + [up];
        }
      }
      if |solutions| == 0 {
        r := Failure(AucuneSolution);
      } else {
        r := Success(solutions[0]);
      }
      SelectIsFirstAdmitted(Candidates(p, trig), contraintes);
    }
  }
}
