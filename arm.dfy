/** The part of inverse kinematics that utils/lampes.ts and utils/worlds.ts
    share word for word: reducing the target to the arm's vertical plane and
    building the two candidate joint triples, elbow-down then elbow-up.

    The floating-point primitives (`Math.atan2`, `Math.sqrt`, `Math.acos`)
    are not modelled: they are the fields of a `Trig` record, uninterpreted
    functions of their arguments. Everything around them (the arm's
    constants, clamping, the degree/radian conversions and the sign
    conventions) is written out, in real arithmetic without rounding. */
module Arm {
  import opened RobotSchemas

  /** Horizontal arm between M1 and M2, in mm. */
  const BrasHorizontalL: real := 70.0
  /** Length of each of the two equal segments M2-M3 and M3-M4, in mm. */
  const BrasL: real := 320.0
  /** The decimal value of `Math.PI`. */
  const Pi: real := 3.141592653589793
  /** Mounting correction of the shoulder, in degrees. */
  const CorrectionDeg: real := 95.36

  function DegToRad(deg: real): real {
    deg * (Pi / 180.0)
  }

  function RadToDeg(rad: real): real {
    rad * (180.0 / Pi)
  }

  /** The trigonometric primitives, left uninterpreted. */
  datatype Trig = Trig(atan2: (real, real) -> real, sqrt: real -> real, acos: real -> real)

  /** `THREE.MathUtils.clamp(value, lo, hi)`, that is `max(lo, min(hi, value))`. */
  function Clamp(value: real, lo: real, hi: real): (r: real)
    requires lo <= hi
    ensures lo <= r <= hi
    ensures lo <= value <= hi ==> r == value
    ensures value < lo ==> r == lo
    ensures value > hi ==> r == hi
  {
    var m := if hi < value then hi else value;
    if lo > m then lo else m
  }

  /** `cosM3`, the cosine of the elbow bend for a target at distance `d`. */
  function ElbowCos(d: real): real {
    (d * d - 2.0 * BrasL * BrasL) / (2.0 * BrasL * BrasL)
  }

  /** The quotient `alpha` is the arc cosine of. */
  function ShoulderCos(d: real): real
    requires d != 0.0
  {
    (d * d + BrasL * BrasL - BrasL * BrasL) / (2.0 * d * BrasL)
  }

  lemma MulNonNeg(a: real, b: real)
    requires 0.0 <= a && 0.0 <= b
    ensures 0.0 <= a * b
  {
  }

  /** The elbow's cosine needs no clamping within the arm's span and
      saturates at 1 beyond it. */
  lemma ElbowClamp(d: real)
    ensures -2.0 * BrasL <= d <= 2.0 * BrasL ==> Clamp(ElbowCos(d), -1.0, 1.0) == ElbowCos(d)
    ensures (d >= 2.0 * BrasL || d <= -2.0 * BrasL) ==> Clamp(ElbowCos(d), -1.0, 1.0) == 1.0
  {
    var c := ElbowCos(d);
    var sq := d * d;
    assert c == (sq - 204800.0) / 204800.0;
    assert 0.0 <= sq;
    if -640.0 <= d <= 640.0 {
      assert sq <= 409600.0 by {
        if d >= 0.0 { MulNonNeg(d, 640.0 - d); } else { MulNonNeg(-d, 640.0 + d); }
      }
      assert -1.0 <= c <= 1.0;
    } else {
      assert sq >= 409600.0 by {
        if d >= 0.0 { MulNonNeg(d, d - 640.0); } else { MulNonNeg(-d, -d - 640.0); }
      }
      assert c >= 1.0;
    }
  }

  /** With two equal segments the shoulder's cosine is `d / (2·brasL)`. */
  lemma ShoulderCosine(d: real)
    requires d != 0.0
    ensures ShoulderCos(d) == d / (2.0 * BrasL)
  {
    var x := d * d + BrasL * BrasL - BrasL * BrasL;
    assert x == d * d;
    var y := 2.0 * d * BrasL;
    assert y == 640.0 * d;
    assert (d / 640.0) * y == x;
  }

  /** The shoulder's cosine needs no clamping within the arm's span and
      saturates at 1 beyond it. */
  lemma ShoulderClamp(d: real)
    requires d != 0.0
    ensures 0.0 < d <= 2.0 * BrasL ==> Clamp(ShoulderCos(d), -1.0, 1.0) == d / (2.0 * BrasL)
    ensures d >= 2.0 * BrasL ==> Clamp(ShoulderCos(d), -1.0, 1.0) == 1.0
  {
    ShoulderCosine(d);
  }

  /** The quantities computed from the target before the candidates: the base
      angle in radians, the distance `d` from the shoulder pivot to the target
      in the arm's plane, the bearing of the target from the shoulder and the
      unsigned elbow bend. */
  datatype Measures = Measures(m1Rad: real, d: real, angleToTarget: real, m3RadBase: real)

  /** Within the arm's span (`d` at most `2 * brasL`) the elbow bend is the
      law-of-cosines angle of the two equal segments; beyond it the clamp
      saturates and the arm is taken as fully stretched. */
  function Measure(p: Position, trig: Trig): (m: Measures)
    ensures -2.0 * BrasL <= m.d <= 2.0 * BrasL ==> m.m3RadBase == trig.acos(ElbowCos(m.d))
    ensures (m.d >= 2.0 * BrasL || m.d <= -2.0 * BrasL) ==> m.m3RadBase == trig.acos(1.0)
  {
    var m1Rad := trig.atan2(p.z, p.x);
    var pm := InPlane(HorizontalDistance(p, trig), p.y, trig);
    Measures(m1Rad, pm.d, pm.angleToTarget, pm.m3RadBase)
  }

  /** The target's distance from the vertical axis through the base. */
  function HorizontalDistance(p: Position, trig: Trig): real {
    trig.sqrt(SquaredHorizontal(p))
  }

  function SquaredHorizontal(p: Position): real {
    p.x * p.x + p.z * p.z
  }

  /** The measurement in the arm's vertical plane, from the target's distance
      to the vertical axis and its height. */
  datatype PlaneMeasures = PlaneMeasures(d: real, angleToTarget: real, m3RadBase: real)

  function InPlane(horizontalDistance: real, y: real, trig: Trig): (pm: PlaneMeasures)
    ensures -2.0 * BrasL <= pm.d <= 2.0 * BrasL ==> pm.m3RadBase == trig.acos(ElbowCos(pm.d))
    ensures (pm.d >= 2.0 * BrasL || pm.d <= -2.0 * BrasL) ==> pm.m3RadBase == trig.acos(1.0)
  {
    var lx := horizontalDistance - BrasHorizontalL;
    var ly := y;
    var d := trig.sqrt(lx * lx + ly * ly);
    var angleToTarget := trig.atan2(ly, lx);
    var cosM3 := ElbowCos(d);
    ElbowClamp(d);
    var m3RadBase := trig.acos(Clamp(cosM3, -1.0, 1.0));
    PlaneMeasures(d, angleToTarget, m3RadBase)
  }

  /** The half-angle `alpha` at the shoulder. Its quotient is 0/0 when `d` is
      0, which JavaScript evaluates to NaN; it is only defined here for d != 0. */
  function Alpha(m: Measures, trig: Trig): (a: real)
    requires m.d != 0.0
    ensures 0.0 < m.d <= 2.0 * BrasL ==> a == trig.acos(m.d / (2.0 * BrasL))
    ensures m.d >= 2.0 * BrasL ==> a == trig.acos(1.0)
  {
    ShoulderClamp(m.d);
    trig.acos(Clamp(ShoulderCos(m.d), -1.0, 1.0))
  }

  /** Converts a candidate's radians into the degrees the solver reports,
      undoing the sign inversions and the mounting correction of forward
      kinematics. */
  /** Forward kinematics reads a triple back as `degToRad(m1)`,
      `degToRad(-m2) + correction` and `degToRad(-m3)`: those give back the
      radians the triple was made from. */
  function ToDegrees(m1Rad: real, m2Rad: real, m3Rad: real): (t: Triple)
    ensures DegToRad(t.m1) == m1Rad
    ensures DegToRad(-t.m2) + DegToRad(CorrectionDeg) == m2Rad
    ensures DegToRad(-t.m3) == m3Rad
  {
    Triple(RadToDeg(m1Rad), -RadToDeg(m2Rad - DegToRad(CorrectionDeg)), -RadToDeg(m3Rad))
  }

  datatype Triple = Triple(m1: real, m2: real, m3: real)

  /** Elbow-down: read back by forward kinematics, the shoulder points
      `alpha` below the target's bearing and the elbow bends by `m3RadBase`. */
  function ElbowDown(m: Measures, trig: Trig): (t: Triple)
    requires m.d != 0.0
    ensures DegToRad(t.m1) == m.m1Rad
    ensures DegToRad(-t.m2) + DegToRad(CorrectionDeg) == m.angleToTarget - Alpha(m, trig)
    ensures DegToRad(-t.m3) == m.m3RadBase
  {
    ToDegrees(m.m1Rad, m.angleToTarget - Alpha(m, trig), m.m3RadBase)
  }

  /** Elbow-up: the shoulder points `alpha` above the bearing and the elbow
      bends the other way. */
  function ElbowUp(m: Measures, trig: Trig): (t: Triple)
    requires m.d != 0.0
    ensures DegToRad(t.m1) == m.m1Rad
    ensures DegToRad(-t.m2) + DegToRad(CorrectionDeg) == m.angleToTarget + Alpha(m, trig)
    ensures DegToRad(-t.m3) == -m.m3RadBase
  {
    ToDegrees(m.m1Rad, m.angleToTarget + Alpha(m, trig), -m.m3RadBase)
  }

  /** The candidates in the order they are tried. When d = 0 the NaN `alpha`
      makes `m2` NaN in both, and a NaN fails every comparison, so neither can
      ever be admitted: the model lists no candidate then. */
  function Candidates(p: Position, trig: Trig): (cs: seq<Triple>)
    ensures Measure(p, trig).d == 0.0 <==> cs == []
    ensures Measure(p, trig).d != 0.0 ==> |cs| == 2
  {
    var m := Measure(p, trig);
    if m.d == 0.0 then [] else [ElbowDown(m, trig), ElbowUp(m, trig)]
  }

  /** The two candidates share the base angle, bend the elbow by opposite
      amounts, and their shoulder angles differ by twice `alpha` in degrees. */
  lemma CandidatesMirror(p: Position, trig: Trig)
    requires Measure(p, trig).d != 0.0
    ensures var cs := Candidates(p, trig);
      && cs[0].m1 == cs[1].m1 == RadToDeg(Measure(p, trig).m1Rad)
      && cs[0].m3 == -cs[1].m3
      && cs[0].m2 - cs[1].m2 == 2.0 * RadToDeg(Alpha(Measure(p, trig), trig))
  {
  }

  /** Turning the target around the vertical axis changes only `m1`: the
      candidates' `m2` and `m3` depend on the target only through its
      distance from that axis and its height. */
  lemma CandidatesTurnWithBase(p: Position, q: Position, trig: Trig)
    requires SquaredHorizontal(p) == SquaredHorizontal(q) && p.y == q.y
    ensures var cp, cq := Candidates(p, trig), Candidates(q, trig);
      |cp| == |cq| && forall k :: 0 <= k < |cp| ==> cp[k].m2 == cq[k].m2 && cp[k].m3 == cq[k].m3
  {
    var mp, mq := Measure(p, trig), Measure(q, trig);
    if mp.d != 0.0 {
      assert Alpha(mp, trig) == Alpha(mq, trig);
      assert ElbowDown(mp, trig).m2 == ElbowDown(mq, trig).m2;
      assert ElbowUp(mp, trig).m2 == ElbowUp(mq, trig).m2;
    }
  }
}
