/** Keplerian ellipse bookkeeping for the orbit overlays: an orbit about a body at the
    origin, set up from its elements, from a position and velocity, or from apogee and
    perigee vectors, together with its screen outline and its area deviance from
    another orbit. */
module Orbits {
  import opened Geometry

  /** Colour of an orbit that was never given one. */
  const DEFAULT_COLOR: bv32 := 0x7f7f7f

  /** Tolerance of the opposition check when set up from apogee and perigee. */
  const OPPOSITION_SLOP: real := 0.01

  /** The deviance sweep: 1440 steps of a quarter degree each. */
  const DEVIANCE_STEPS: nat := 1440
  const THETA_STEP: real := TWOPI / 1440.0

  function Abs(x: real): real
  {
    if x < 0.0 then -x else x
  }

  /** fnear: a and b differ by strictly less than slop. */
  predicate Near(a: real, b: real, slop: real)
  {
    Abs(a - b) < slop
  }

  // ---------------------------------------------------------------------------
  // Colour

  /** The 8-bit channels of a packed 0xRRGGBB colour, a 32-bit int. */
  function Red(c: bv32): bv32 { (c & 0xff0000) >> 16 }
  function Green(c: bv32): bv32 { (c & 0x00ff00) >> 8 }
  function Blue(c: bv32): bv32 { c & 0x0000ff }

  /** The orbit colour for an object colour: every channel divided by four. */
  function QuarterColor(objectColor: bv32): (c: bv32)
    ensures c <= 0x3f3f3f
    ensures Red(c) == Red(objectColor) / 4
    ensures Green(c) == Green(objectColor) / 4
    ensures Blue(c) == Blue(objectColor) / 4
    ensures Red(c) <= 63 && Green(c) <= 63 && Blue(c) <= 63
  {
    var r := Red(objectColor) / 4;
    var g := Green(objectColor) / 4;
    var b := Blue(objectColor) / 4;
    (r << 16) + (g << 8) + b
  }

  // ---------------------------------------------------------------------------
  // Arithmetic facts

  lemma ProductPositive(x: real, y: real)
    requires x > 0.0 && y > 0.0
    ensures x * y > 0.0
  {
  }

  lemma ProductNonNegative(x: real, y: real)
    requires x >= 0.0 && y >= 0.0
    ensures x * y >= 0.0
  {
  }

  lemma QuotientPositive(x: real, y: real)
    requires x > 0.0 && y > 0.0
    ensures x / y > 0.0
  {
    ProductPositive(x / y, y);
  }

  lemma QuotientNonNegative(x: real, y: real)
    requires y > 0.0
    ensures x >= 0.0 ==> x / y >= 0.0
  {
    if x > 0.0 {
      QuotientPositive(x, y);
    }
  }

  /** Times a negative number, a positive number gives a negative one and a
      non-positive number a non-negative one. */
  lemma ProductSign(x: real, y: real)
    requires y < 0.0
    ensures x > 0.0 <==> x * y < 0.0
  {
  }

  /** With s > 0, x s < t s gives x < t. */
  lemma BelowQuotient(x: real, t: real, s: real)
    requires s > 0.0 && x * s < t * s
    ensures x < t
  {
  }

  /** Setting up from apogee and perigee distances and recomputing them gives them back. */
  lemma ApsidesRoundTrip(ap: real, pe: real)
    requires ap + pe > 0.0
    ensures var a := (ap + pe) / 2.0;
            var e := (ap - pe) / (ap + pe);
            a + e * a == ap && a - e * a == pe
  {
    var a := (ap + pe) / 2.0;
    var e := (ap - pe) / (ap + pe);
    assert e * (ap + pe) == ap - pe;
    assert e * a == (e * (ap + pe)) / 2.0;
  }

  /** The eccentricity from apogee and perigee distances is at most 1 exactly when the
      perigee distance is not negative. */
  lemma ApsidesEccentricity(ap: real, pe: real)
    requires ap + pe > 0.0
    ensures (ap - pe) / (ap + pe) <= 1.0 <==> pe >= 0.0
  {
    var e := (ap - pe) / (ap + pe);
    assert e * (ap + pe) == ap - pe;
    ProductSign(e - 1.0, -(ap + pe));
  }

  /** Recovering the energy from the semi-major axis it determines gives it back. */
  lemma EnergyRoundTrip(u: real, energy: real)
    requires energy < 0.0 && u != 0.0
    ensures -u / (2.0 * (-u / (2.0 * energy))) == energy
  {
    var a := -u / (2.0 * energy);
    assert a * (2.0 * energy) == -u;
    assert (2.0 * a) * energy == -u;
  }

  /** The semi-major axis from a negative energy is positive exactly when the
      gravitational parameter is. */
  lemma AxisSign(u: real, energy: real)
    requires energy < 0.0
    ensures -u / (2.0 * energy) > 0.0 <==> u > 0.0
  {
    var a := -u / (2.0 * energy);
    assert a * (2.0 * energy) == -u;
    ProductSign(a, 2.0 * energy);
  }

  /** The denominator of the polar ellipse formula stays positive while |e| < 1. */
  lemma DenominatorPositive(e: real, c: real)
    requires -1.0 < e < 1.0 && -1.0 <= c <= 1.0
    ensures 1.0 - e * c > 0.0
  {
    if e >= 0.0 {
      assert e * c <= e * 1.0;
    } else {
      assert e * c <= e * -1.0;
    }
  }

  /** The squared speed 2 (energy + u / r) at distance r from the focus. */
  function SpeedSquared(energy: real, u: real, r: real): real
    requires r != 0.0
  {
    2.0 * (energy + u / r)
  }

  /** The vis-viva relation: with energy -u / 2a, the squared speed at distance r is
      u (2 / r - 1 / a). */
  lemma VisViva(u: real, a: real, r: real)
    requires a != 0.0 && r != 0.0
    ensures SpeedSquared(-u / (2.0 * a), u, r) == u * (2.0 / r - 1.0 / a)
  {
    assert -u / (2.0 * a) == -(u * (1.0 / a)) / 2.0;
    assert u / r == u * (1.0 / r);
  }

  // ---------------------------------------------------------------------------
  // Elements

  /** The stored elements of an orbit: the foci and centre, the gravitational
      parameter u, eccentricity e, semi-major axis a, semi-minor axis b, focal
      distance f, major-axis angle w, specific energy, apsis distances and area. */
  datatype Elements = Elements(
    f1: Vec, f2: Vec, center: Vec,
    u: real, e: real, a: real, b: real, f: real, w: real,
    energy: real, apogee: real, perigee: real, orbitArea: real)

  /** The relations a valid set-up establishes among the elements. */
  ghost predicate Consistent(geo: Geometry, el: Elements)
  {
    && el.a > 0.0
    && el.f1 == Origin
    && el.f == el.e * el.a
    && el.b == geo.sqrt(el.a * el.a - el.f * el.f)
    && el.center == geo.polar(el.f, el.w)
    && el.f2 == geo.polar(2.0 * el.f, el.w)
    && el.energy == -el.u / (2.0 * el.a)
    && el.apogee == el.a + el.f
    && el.perigee == el.a - el.f
    && el.orbitArea == PI * el.a * el.b
  }

  /** The polar equation of an ellipse with the body at a focus: the r with
      r (1 - e c) = a (1 - e^2), c being the cosine of the angle from the major axis;
      None where 1 - e c is zero, since the double division gives no finite value
      there. */
  function PolarRadius(a: real, e: real, c: real): (r: Option<real>)
    ensures r.None? <==> e * c == 1.0
    ensures r.Some? ==> r.value * (1.0 - e * c) == a * (1.0 - e * e)
  {
    if 1.0 - e * c == 0.0 then None else Some(a * (1.0 - e * e) / (1.0 - e * c))
  }

  /** Distance from the body to the orbit at polar angle theta: 0 for an invalid
      orbit, otherwise the polar equation at cos(theta - w). */
  function Radius(geo: Geometry, valid: bool, el: Elements, theta: real): (r: Option<real>)
    ensures !valid ==> r == Some(0.0)
  {
    if !valid then Some(0.0)
    else PolarRadius(el.a, el.e, geo.cos(theta - el.w))
  }

  /** The polar radius is positive for a > 0, |e| < 1 and |c| <= 1. */
  lemma PolarRadiusPositive(a: real, e: real, c: real)
    requires a > 0.0 && -1.0 < e < 1.0 && -1.0 <= c <= 1.0
    ensures PolarRadius(a, e, c).Some? && PolarRadius(a, e, c).value > 0.0
  {
    DenominatorPositive(e, c);
    DenominatorPositive(e, e);
    ProductPositive(a, 1.0 - e * e);
    QuotientPositive(a * (1.0 - e * e), 1.0 - e * c);
  }

  /** x / y == z when z y == x and y is not zero. */
  lemma ExactQuotient(x: real, y: real, z: real)
    requires y != 0.0 && z * y == x
    ensures x / y == z
  {
  }

  /** With c = 1 (along the major axis) and e != 1 the polar radius is a (1 + e). */
  lemma PolarRadiusApsis(a: real, e: real)
    requires e != 1.0
    ensures PolarRadius(a, e, 1.0) == Some(a * (1.0 + e))
  {
    assert a * (1.0 - e * e) == (a * (1.0 + e)) * (1.0 - e);
    ExactQuotient(a * (1.0 - e * e), 1.0 - e, a * (1.0 + e));
  }

  /** A circular valid orbit has radius a at every angle. */
  lemma RadiusCircular(geo: Geometry, el: Elements, theta: real)
    requires el.e == 0.0
    ensures Radius(geo, true, el, theta) == Some(el.a)
  {
  }

  /** An elliptic (|e| < 1) valid orbit with a > 0 has a finite, positive radius at
      every angle. */
  lemma RadiusPositive(geo: Geometry, el: Elements, theta: real)
    requires Lawful(geo) && el.a > 0.0 && -1.0 < el.e < 1.0
    ensures Radius(geo, true, el, theta).Some? && Radius(geo, true, el, theta).value > 0.0
  {
    PolarRadiusPositive(el.a, el.e, geo.cos(theta - el.w));
  }

  /** At the angle of the major axis the radius is the apogee distance. */
  lemma RadiusAtApogee(geo: Geometry, el: Elements)
    requires Lawful(geo) && Consistent(geo, el) && el.e != 1.0
    ensures Radius(geo, true, el, el.w) == Some(el.apogee)
  {
    assert el.w - el.w == 0.0;
    assert geo.cos(el.w - el.w) == 1.0;
    var a, e := el.a, el.e;
    PolarRadiusApsis(a, e);
    assert el.apogee == a * (1.0 + e);
  }

  // ---------------------------------------------------------------------------
  // The outline sweep

  /** Number of slots of each half buffer: int(2a / xStep) + 2; the quotient is
      non-negative, so truncation is the floor. */
  function HalfCapacity(a: real, xStep: real): (n: int)
    requires xStep > 0.0
    ensures a >= 0.0 ==> n >= 2
  {
    QuotientNonNegative(2.0 * a, xStep);
    ((2.0 * a) / xStep).Floor + 2
  }

  /** x of step k of the outline sweep: from -a in steps of xStep, capped at a. */
  function SweepX(a: real, xStep: real, k: nat): (x: real)
    ensures x <= a
    ensures k == 0 && a >= 0.0 ==> x == -a
  {
    if -a + k as real * xStep > a then a else -a + k as real * xStep
  }

  /** A step count whose last x is still short of a fits the half buffers: with
      xStep > 0, step h short of a means h + 1 < int(2a / xStep) + 2. */
  lemma SweepFits(a: real, xStep: real, h: nat)
    requires a > 0.0 && xStep > 0.0
    requires -a + h as real * xStep < a
    ensures h + 1 < HalfCapacity(a, xStep)
  {
    var t := (2.0 * a) / xStep;
    assert t * xStep == 2.0 * a;
    BelowQuotient(h as real, t, xStep);
    assert h <= t.Floor;
  }

  /** After a step short of a, the next x is the previous one plus xStep, capped at
      a, and the step still fits the half buffers. */
  lemma SweepNext(a: real, xStep: real, h: nat)
    requires a > 0.0 && xStep > 0.0 && SweepX(a, xStep, h) < a
    ensures h + 1 < HalfCapacity(a, xStep)
    ensures SweepX(a, xStep, h + 1) ==
              if SweepX(a, xStep, h) + xStep > a then a else SweepX(a, xStep, h) + xStep
  {
    assert SweepX(a, xStep, h) == -a + h as real * xStep;
    SweepFits(a, xStep, h);
    assert (h + 1) as real * xStep == h as real * xStep + xStep;
  }

  /** The y of the upper half of the outline at x: sqrt(b^2 (1 - x^2 / a^2)). */
  function RimY(geo: Geometry, a: real, b: real, x: real): real
    requires a != 0.0
  {
    geo.sqrt(b * b * (1.0 - (x * x) / (a * a)))
  }

  /** Screen position of the outline point (x, y) given relative to the centre with
      the major axis along x. */
  function RimPoint(geo: Geometry, view: View, el: Elements, x: real, y: real): DrawPoint
  {
    ToView(view, geo.add(geo.rotate(Vec(x, y), el.w), el.center))
  }

  /** The upper and lower outline points of step k. */
  function Upper(geo: Geometry, view: View, el: Elements, xStep: real, k: nat): DrawPoint
    requires el.a != 0.0
  {
    var x := SweepX(el.a, xStep, k);
    RimPoint(geo, view, el, x, RimY(geo, el.a, el.b, x))
  }

  function Lower(geo: Geometry, view: View, el: Elements, xStep: real, k: nat): DrawPoint
    requires el.a != 0.0
  {
    var x := SweepX(el.a, xStep, k);
    RimPoint(geo, view, el, x, -RimY(geo, el.a, el.b, x))
  }

  /** The sweep of calcDrawPoints: fills the two half buffers step by step, from
      x = -a in steps of xStep until x reaches a, and reports how many points each
      holds.  The overflow guard never fires. */
  method SweepHalves(geo: Geometry, view: View, el: Elements, xStep: real, numPoints: int)
    returns (firstHalf: array<DrawPoint>, secondHalf: array<DrawPoint>, halfPos: int)
    requires el.a > 0.0 && xStep > 0.0 && numPoints == HalfCapacity(el.a, xStep)
    ensures fresh(firstHalf) && fresh(secondHalf)
    ensures firstHalf.Length == numPoints && secondHalf.Length == numPoints
    ensures 1 <= halfPos <= numPoints
    ensures SweepX(el.a, xStep, halfPos - 1) == el.a
    ensures forall k | 0 <= k < halfPos - 1 :: SweepX(el.a, xStep, k) < el.a
    ensures forall k | 0 <= k < halfPos :: firstHalf[k] == Upper(geo, view, el, xStep, k)
    ensures forall k | 0 <= k < halfPos :: secondHalf[k] == Lower(geo, view, el, xStep, k)
  {
    var a := el.a;
    assert 0 < numPoints by {
      QuotientPositive(2.0 * a, xStep);
    }
    firstHalf := new DrawPoint[numPoints];
    secondHalf := new DrawPoint[numPoints];
    halfPos := 0;
    var x := -a;
    while true
      invariant 0 <= halfPos < numPoints
      invariant x == SweepX(a, xStep, halfPos)
      invariant forall k | 0 <= k < halfPos :: SweepX(a, xStep, k) < a
      invariant forall k | 0 <= k < halfPos :: firstHalf[k] == Upper(geo, view, el, xStep, k)
      invariant forall k | 0 <= k < halfPos :: secondHalf[k] == Lower(geo, view, el, xStep, k)
      decreases numPoints - halfPos
    {
      if halfPos >= numPoints {
        // the engine's fatal "Draw point overflow"
        assert false;
      }
      PlotStep(geo, view, el, xStep, firstHalf, secondHalf, halfPos, x);
      halfPos := halfPos + 1;
      if x == a {
        break;
      }
      SweepNext(a, xStep, halfPos - 1);
      x := x + xStep;
      if x > a {
        x := a;
      }
    }
  }

  /** One step of the sweep: the upper and lower outline points at x, the x of step i,
      stored at index i of the two half buffers. */
  method PlotStep(geo: Geometry, view: View, el: Elements, xStep: real,
                  firstHalf: array<DrawPoint>, secondHalf: array<DrawPoint>, i: int, x: real)
    requires el.a > 0.0 && firstHalf != secondHalf
    requires 0 <= i < firstHalf.Length && i < secondHalf.Length && x == SweepX(el.a, xStep, i)
    modifies firstHalf, secondHalf
    ensures firstHalf[..] == old(firstHalf[..])[i := Upper(geo, view, el, xStep, i)]
    ensures secondHalf[..] == old(secondHalf[..])[i := Lower(geo, view, el, xStep, i)]
  {
    var y := RimY(geo, el.a, el.b, x);
    var work := geo.add(geo.rotate(Vec(x, y), el.w), el.center);
    firstHalf[i] := DrawPoint(view.toViewX(work.x), view.toViewY(work.y));
    work := geo.add(geo.rotate(Vec(x, -y), el.w), el.center);
    secondHalf[i] := DrawPoint(view.toViewX(work.x), view.toViewY(work.y));
    assert firstHalf[i] == Upper(geo, view, el, xStep, i);
    assert secondHalf[i] == Lower(geo, view, el, xStep, i);
  }

  /** The assembly of calcDrawPoints: the first half in order, then the second half
      in reverse, so the outline runs one way round; count is the number of points
      written.  The overflow guards never fire. */
  method Assemble(buffer: array<DrawPoint>, firstHalf: array<DrawPoint>, secondHalf: array<DrawPoint>,
                  halfPos: int) returns (count: int)
    requires firstHalf != buffer && secondHalf != buffer
    requires 0 <= halfPos <= firstHalf.Length && firstHalf.Length == secondHalf.Length
    requires 2 * firstHalf.Length <= buffer.Length
    modifies buffer
    ensures count == 2 * halfPos
    ensures forall k | 0 <= k < halfPos :: buffer[k] == firstHalf[k]
    ensures forall k | 0 <= k < halfPos :: buffer[2 * halfPos - 1 - k] == secondHalf[k]
  {
    count := 0;
    for i := 0 to halfPos
      invariant count == i
      invariant forall k | 0 <= k < i :: buffer[k] == firstHalf[k]
    {
      if count >= buffer.Length {
        // the engine's fatal "draw point overflow"
        assert false;
      }
      buffer[count] := firstHalf[i];
      count := count + 1;
    }
    var i := halfPos - 1;
    while i >= 0
      invariant -1 <= i < halfPos
      invariant count == 2 * halfPos - 1 - i
      invariant forall k | 0 <= k < halfPos :: buffer[k] == firstHalf[k]
      invariant forall k | i < k < halfPos :: buffer[2 * halfPos - 1 - k] == secondHalf[k]
    {
      if count >= buffer.Length {
        // the engine's fatal "draw point overflow"
        assert false;
      }
      buffer[count] := secondHalf[i];
      count := count + 1;
      i := i - 1;
    }
  }

  /** A fresh array holding the first n points of src. */
  method CopyPoints(src: array<DrawPoint>, n: int) returns (copy: array<DrawPoint>)
    requires 0 <= n <= src.Length
    ensures fresh(copy) && copy[..] == src[..n]
  {
    copy := new DrawPoint[n];
    var i := 0;
    while i < n
      invariant 0 <= i <= n
      invariant forall k | 0 <= k < i :: copy[k] == src[k]
    {
      copy[i] := src[i];
      i := i + 1;
    }
  }

  // ---------------------------------------------------------------------------
  // The deviance sweep

  /** The area r^2 dtheta / 2 of a sector of radius r over one sweep step. */
  function SectorArea(r: real): (area: real)
    ensures area >= 0.0
  {
    r * r * THETA_STEP * 0.5
  }

  /** One step of the deviance sweep: the absolute difference of the two orbits'
      sector areas at angle k * THETA_STEP; None where a radius is not finite. */
  function SweepTerm(geo: Geometry, valid: bool, el: Elements, otherValid: bool, other: Elements, k: nat): Option<real>
  {
    var rThis := Radius(geo, valid, el, k as real * THETA_STEP);
    var rOther := Radius(geo, otherValid, other, k as real * THETA_STEP);
    if rThis.Some? && rOther.Some? then Some(Abs(SectorArea(rThis.value) - SectorArea(rOther.value)))
    else None
  }

  /** The sum of the first k sweep steps; None once any of them is not finite. */
  function SweptDeviance(geo: Geometry, valid: bool, el: Elements, otherValid: bool, other: Elements, k: nat): Option<real>
  {
    if k == 0 then Some(0.0)
    else
      var total := SweptDeviance(geo, valid, el, otherValid, other, k - 1);
      var term := SweepTerm(geo, valid, el, otherValid, other, k - 1);
      if total.Some? && term.Some? then Some(total.value + term.value) else None
  }

  /** The sweep angle of step k is short of two pi exactly for the first 1440 steps,
      and each step adds THETA_STEP. */
  lemma SweepStepCount(k: nat)
    ensures k as real * THETA_STEP < TWOPI <==> k < DEVIANCE_STEPS
    ensures (k + 1) as real * THETA_STEP == k as real * THETA_STEP + THETA_STEP
  {
    assert THETA_STEP * 1440.0 == TWOPI;
  }

  /** A swept deviance is never negative. */
  lemma {:induction false} SweptDevianceNonNegative(geo: Geometry, valid: bool, el: Elements,
                                                    otherValid: bool, other: Elements, k: nat)
    ensures var d := SweptDeviance(geo, valid, el, otherValid, other, k);
            d.Some? ==> d.value >= 0.0
  {
    if k > 0 {
      SweptDevianceNonNegative(geo, valid, el, otherValid, other, k - 1);
    }
  }

  /** An orbit deviates from itself by nothing. */
  lemma {:induction false} SweptDevianceSelf(geo: Geometry, valid: bool, el: Elements, k: nat)
    ensures var d := SweptDeviance(geo, valid, el, valid, el, k);
            d == None || d == Some(0.0)
  {
    if k > 0 {
      SweptDevianceSelf(geo, valid, el, k - 1);
    }
  }

  /** The sum does not depend on which orbit is swept against which. */
  lemma {:induction false} SweptDevianceSymmetric(geo: Geometry, valid: bool, el: Elements,
                                                  otherValid: bool, other: Elements, k: nat)
    ensures SweptDeviance(geo, valid, el, otherValid, other, k)
         == SweptDeviance(geo, otherValid, other, valid, el, k)
  {
    if k > 0 {
      SweptDevianceSymmetric(geo, valid, el, otherValid, other, k - 1);
      var rThis := Radius(geo, valid, el, (k - 1) as real * THETA_STEP);
      var rOther := Radius(geo, otherValid, other, (k - 1) as real * THETA_STEP);
      if rThis.Some? && rOther.Some? {
        assert Abs(SectorArea(rThis.value) - SectorArea(rOther.value))
            == Abs(SectorArea(rOther.value) - SectorArea(rThis.value));
      }
    }
  }

  /** The deviance of an orbit (valid, el) from another: 0 when the first is invalid;
      when one apogee lies inside the other's perigee, the difference of the two
      areas; otherwise the swept sum over the full turn. */
  function Deviance(geo: Geometry, valid: bool, el: Elements, otherValid: bool, other: Elements): Option<real>
  {
    if !valid then Some(0.0)
    else if el.apogee < other.perigee then Some(other.orbitArea - el.orbitArea)
    else if other.apogee < el.perigee then Some(el.orbitArea - other.orbitArea)
    else SweptDeviance(geo, valid, el, otherValid, other, DEVIANCE_STEPS)
  }

  /** Between two valid, consistent orbits with e >= 0 the deviance is symmetric: at
      most one nesting test can hold, and both orders give the same area difference
      or the same swept sum. */
  lemma DevianceSymmetric(geo: Geometry, el: Elements, other: Elements)
    requires Consistent(geo, el) && Consistent(geo, other)
    requires el.e >= 0.0 && other.e >= 0.0
    ensures Deviance(geo, true, el, true, other) == Deviance(geo, true, other, true, el)
  {
    SweptDevianceSymmetric(geo, true, el, true, other, DEVIANCE_STEPS);
  }

  /** With 0 <= e <= 1 the focal distance e a lies between 0 and a. */
  lemma FocusWithinAxis(e: real, a: real)
    requires 0.0 <= e <= 1.0 && a > 0.0
    ensures 0.0 <= e * a <= a
  {
    ProductNonNegative(e, a);
    ProductNonNegative(1.0 - e, a);
  }

  /** a^2 - f^2 is the product of the apsis distances a - f and a + f, so it grows
      when both lie beyond the other ellipse's apogee. */
  lemma ApsisProductBelow(a1: real, f1: real, a2: real, f2: real)
    requires 0.0 <= f1 <= a1 && 0.0 <= f2 <= a2 && a1 + f1 < a2 - f2
    ensures a1 <= a2 && 0.0 <= a1 * a1 - f1 * f1 <= a2 * a2 - f2 * f2
  {
    assert a1 * a1 - f1 * f1 == (a1 - f1) * (a1 + f1);
    assert a2 * a2 - f2 * f2 == (a2 - f2) * (a2 + f2);
    ProductNonNegative(a1 - f1, a1 + f1);
    assert (a1 - f1) * (a1 + f1) <= (a1 + f1) * (a1 + f1);
    assert (a1 + f1) * (a1 + f1) <= (a2 - f2) * (a1 + f1);
    assert (a2 - f2) * (a1 + f1) <= (a2 - f2) * (a2 + f2);
  }

  /** pi a b grows with both semi-axes. */
  lemma EllipseAreaBelow(a1: real, b1: real, a2: real, b2: real)
    requires 0.0 <= a1 <= a2 && 0.0 <= b1 <= b2
    ensures PI * a1 * b1 <= PI * a2 * b2
  {
    assert a1 * b1 <= a2 * b1;
    assert a2 * b1 <= a2 * b2;
  }

  /** An ellipse lying wholly inside another by apsides has the smaller area. */
  lemma ContainedAreaSmaller(geo: Geometry, inner: Elements, outer: Elements)
    requires Lawful(geo)
    requires Consistent(geo, inner) && Consistent(geo, outer)
    requires 0.0 <= inner.e <= 1.0 && 0.0 <= outer.e <= 1.0
    requires inner.apogee < outer.perigee
    ensures inner.orbitArea <= outer.orbitArea
  {
    FocusWithinAxis(inner.e, inner.a);
    FocusWithinAxis(outer.e, outer.a);
    ApsisProductBelow(inner.a, inner.f, outer.a, outer.f);
    assert 0.0 <= inner.b <= outer.b;
    EllipseAreaBelow(inner.a, inner.b, outer.a, outer.b);
  }

  /** The deviance of a valid orbit from another, both consistent with 0 <= e <= 1,
      is never negative: a containment test gives the outer area less the inner. */
  lemma DevianceNonNegative(geo: Geometry, el: Elements, other: Elements)
    requires Lawful(geo)
    requires Consistent(geo, el) && Consistent(geo, other)
    requires 0.0 <= el.e <= 1.0 && 0.0 <= other.e <= 1.0
    ensures var d := Deviance(geo, true, el, true, other);
            d.Some? ==> d.value >= 0.0
  {
    if el.apogee < other.perigee {
      ContainedAreaSmaller(geo, el, other);
    } else if other.apogee < el.perigee {
      ContainedAreaSmaller(geo, other, el);
    } else {
      SweptDevianceNonNegative(geo, true, el, true, other, DEVIANCE_STEPS);
    }
  }

  /** A valid, consistent orbit with e >= 0 deviates from itself by nothing. */
  lemma DevianceSelf(geo: Geometry, el: Elements)
    requires Consistent(geo, el) && el.e >= 0.0
    ensures var d := Deviance(geo, true, el, true, el);
            d == None || d == Some(0.0)
  {
    SweptDevianceSelf(geo, true, el, DEVIANCE_STEPS);
  }

  // ---------------------------------------------------------------------------
  // The orbit

  class Orbit {
    var color: bv32
    var drawPoints: array?<DrawPoint>
    var numDrawPoints: int
    var el: Elements
    var valid: bool

    /** The outline buffer holds its count. */
    ghost predicate BufferOk()
      reads this
    {
      && (drawPoints == null ==> numDrawPoints == 0)
      && (drawPoints != null ==> 0 <= numDrawPoints <= drawPoints.Length)
    }

    /** The outline buffer holds its count, and a valid orbit is an ellipse (or the
        parabolic limit e == 1) with a positive semi-major axis. */
    ghost predicate Inv()
      reads this
    {
      BufferOk() && (valid ==> el.a > 0.0 && el.e <= 1.0)
    }

    /** The outline buffer of a valid orbit: the upper half swept from x = -a to x = a
        in steps of two pixels, then the lower half swept back; h points per half,
        where step h - 1 is the first to reach a. */
    ghost predicate Drawn(geo: Geometry, view: View)
      reads this, drawPoints
      requires el.a > 0.0 && view.kmPerPixel > 0.0
    {
      var s := 2.0 * view.kmPerPixel;
      var h := numDrawPoints / 2;
      && drawPoints != null
      && drawPoints.Length == 2 * HalfCapacity(el.a, s)
      && numDrawPoints % 2 == 0 && 1 <= h && numDrawPoints <= drawPoints.Length
      && SweepX(el.a, s, h - 1) == el.a
      && (forall k | 0 <= k < h - 1 :: SweepX(el.a, s, k) < el.a)
      && (forall k | 0 <= k < h :: drawPoints[k] == Upper(geo, view, el, s, k))
      && (forall k | 0 <= k < h :: drawPoints[2 * h - 1 - k] == Lower(geo, view, el, s, k))
    }

    constructor ()
      ensures Inv() && !valid
      ensures drawPoints == null && numDrawPoints == 0 && color == DEFAULT_COLOR
    {
      drawPoints := null;
      numDrawPoints := 0;
      color := DEFAULT_COLOR;
      valid := false;
      el := Elements(Origin, Origin, Origin, 0.0, 0.0, 0.0, 0.0, 0.0, 0.0, 0.0, 0.0, 0.0, 0.0);
    }

    /** Copy another orbit: the elements, the validity, the colour, and the outline
        into a buffer of its own. */
    method Set(other: Orbit)
      requires other != this && other.Inv()
      modifies this
      ensures Inv()
      ensures el == other.el && valid == other.valid && color == other.color
      ensures other.drawPoints == null ==> drawPoints == null && numDrawPoints == 0
      ensures other.drawPoints != null ==>
                && fresh(drawPoints) && numDrawPoints == other.numDrawPoints
                && drawPoints[..] == other.drawPoints[..other.numDrawPoints]
    {
      color := other.color;
      el := other.el;
      valid := other.valid;
      if other.drawPoints == null {
        drawPoints := null;
        numDrawPoints := 0;
      } else {
        numDrawPoints := other.numDrawPoints;
        drawPoints := CopyPoints(other.drawPoints, numDrawPoints);
      }
    }

    /** Take the orbit colour from an object colour: each channel quartered. */
    method SetColorFromObjectColor(objectColor: bv32)
      modifies this
      ensures color == QuarterColor(objectColor)
      ensures el == old(el) && valid == old(valid)
      ensures drawPoints == old(drawPoints) && numDrawPoints == old(numDrawPoints)
    {
      color := QuarterColor(objectColor);
    }

    /** Distance from the body to the orbit at polar angle theta: 0 for an invalid
        orbit, a for a circular one, positive for an ellipse, and the apogee distance
        along the major axis. */
    function GetR(geo: Geometry, theta: real): (r: Option<real>)
      reads this
      ensures r == Radius(geo, valid, el, theta)
      ensures !valid ==> r == Some(0.0)
      ensures valid && el.e == 0.0 ==> r == Some(el.a)
      ensures valid && Lawful(geo) && el.a > 0.0 && -1.0 < el.e < 1.0 ==> r.Some? && r.value > 0.0
      ensures valid && Lawful(geo) && Consistent(geo, el) && el.e != 1.0 && theta == el.w ==> r == Some(el.apogee)
    {
      assert valid && el.e == 0.0 ==> Radius(geo, valid, el, theta) == Some(el.a) by {
        if valid && el.e == 0.0 {
          RadiusCircular(geo, el, theta);
        }
      }
      assert valid && Lawful(geo) && el.a > 0.0 && -1.0 < el.e < 1.0 ==>
               Radius(geo, valid, el, theta).Some? && Radius(geo, valid, el, theta).value > 0.0 by {
        if valid && Lawful(geo) && el.a > 0.0 && -1.0 < el.e < 1.0 {
          RadiusPositive(geo, el, theta);
        }
      }
      assert valid && Lawful(geo) && Consistent(geo, el) && el.e != 1.0 && theta == el.w ==>
               Radius(geo, valid, el, theta) == Some(el.apogee) by {
        if valid && Lawful(geo) && Consistent(geo, el) && el.e != 1.0 && theta == el.w {
          RadiusAtApogee(geo, el);
        }
      }
      Radius(geo, valid, el, theta)
    }

    /** Position at polar angle theta: the radius of GetR along theta. */
    function GetPos(geo: Geometry, theta: real): (p: Option<Vec>)
      reads this
      ensures p.Some? <==> GetR(geo, theta).Some?
      ensures Lawful(geo) && p.Some? && GetR(geo, theta).value >= 0.0 ==>
                geo.length(p.value) == GetR(geo, theta).value
    {
      match GetR(geo, theta)
      case None => None
      case Some(r) => Some(geo.polar(r, theta))
    }

    /** Velocity at polar angle theta: the vis-viva speed sqrt(2 (energy + u / r)) at
        the distance r of GetPos, directed a quarter turn past the bisector of the
        directions from that position toward f1 and toward f2.  None where the
        position does not exist or lies on f1, since the double division gives no
        finite value there. */
    function GetVel(geo: Geometry, theta: real): (vel: Option<Vec>)
      reads this
      ensures vel.Some? <==> GetPos(geo, theta).Some? && geo.length(GetPos(geo, theta).value) != 0.0
      ensures vel.Some? && Lawful(geo) ==>
                var r := geo.length(GetPos(geo, theta).value);
                SpeedSquared(el.energy, el.u, r) >= 0.0 ==> geo.length(vel.value) == geo.sqrt(SpeedSquared(el.energy, el.u, r))
    {
      match GetPos(geo, theta)
      case None => None
      case Some(pos) =>
        var r := geo.length(pos);
        if r == 0.0 then None
        else
          var speed := geo.sqrt(SpeedSquared(el.energy, el.u, r));
          var angleToF1 := PI + theta;
          var angleToF2 := geo.angle(geo.sub(el.f2, pos));
          var bisector := angleToF1 + geo.angleDiff(angleToF1, angleToF2) / 2.0;
          Some(geo.polar(speed, bisector + PI / 2.0))
    }

    /** On a consistent orbit the squared speed of GetVel is the vis-viva
        u (2 / r - 1 / a). */
    lemma GetVelVisViva(geo: Geometry, theta: real)
      requires GetVel(geo, theta).Some? && Consistent(geo, el)
      ensures var r := geo.length(GetPos(geo, theta).value);
              SpeedSquared(el.energy, el.u, r) == el.u * (2.0 / r - 1.0 / el.a)
    {
      var r := geo.length(GetPos(geo, theta).value);
      VisViva(el.u, el.a, r);
    }

    /** Recompute the outline of a valid orbit at the view's scale; an invalid orbit
        keeps its buffer. */
    method CalcDrawPoints(geo: Geometry, view: View)
      requires Inv() && view.kmPerPixel > 0.0
      modifies this
      ensures Inv()
      ensures el == old(el) && valid == old(valid) && color == old(color)
      ensures !valid ==> drawPoints == old(drawPoints) && numDrawPoints == old(numDrawPoints)
      ensures valid ==> fresh(drawPoints) && Drawn(geo, view)
    {
      if !valid {
        return;
      }
      var xStep := 2.0 * view.kmPerPixel;
      var numPoints := ((2.0 * el.a) / xStep).Floor + 2;
      var maxDrawPoints := numPoints * 2;
      var buffer := new DrawPoint[maxDrawPoints];
      var firstHalf, secondHalf, halfPos := SweepHalves(geo, view, el, xStep, numPoints);
      numDrawPoints := Assemble(buffer, firstHalf, secondHalf, halfPos);
      drawPoints := buffer;
      assert numDrawPoints / 2 == halfPos;
    }

    /** Set up from the elements: sgp, eccentricity e, semi-major axis a and apogee
        angle w.  Rejected, touching nothing but the validity flag, when e > 1 or
        a <= 0; e == 1 is accepted. */
    method Init(geo: Geometry, view: View, sgp: real, e: real, a: real, w: real)
      requires BufferOk() && view.kmPerPixel > 0.0
      modifies this
      ensures Inv() && color == old(color)
      ensures valid <==> !(e > 1.0 || a <= 0.0)
      ensures !valid ==> el == old(el) && drawPoints == old(drawPoints) && numDrawPoints == old(numDrawPoints)
      ensures valid ==> el.u == sgp && el.e == e && el.a == a && el.w == w && Consistent(geo, el)
      ensures valid ==> el.apogee + el.perigee == 2.0 * a && el.apogee - el.perigee == 2.0 * el.f
      ensures valid ==> el.energy == -sgp / (2.0 * a)
      ensures valid ==> fresh(drawPoints) && Drawn(geo, view)
    {
      valid := true;
      if e > 1.0 {
        valid := false;
        return;
      }
      if a <= 0.0 {
        valid := false;
        return;
      }
      var f := e * a;
      var b := geo.sqrt(a * a - f * f);
      var center := geo.polar(f, w);
      var f2 := geo.polar(2.0 * f, w);
      var energy := -sgp / (2.0 * a);
      var apogee := a + f;
      var perigee := a - f;
      var orbitArea := PI * a * b;
      el := Elements(Origin, f2, center, sgp, e, a, b, f, w, energy, apogee, perigee, orbitArea);
      assert el.a * el.a - el.f * el.f == a * a - f * f;
      assert Consistent(geo, el);
      CalcDrawPoints(geo, view);
    }

    /** Set up from an orbiter's position and velocity relative to the body: invalid
        when the orbiter sits on the body or its specific energy v^2/2 - u/r is not
        negative (an escape); otherwise the semi-major axis is -u/(2E), the second
        focus is found along the reflected velocity, and the elements go through
        Init. */
    method InitPV(geo: Geometry, view: View, sgp: real, orbiterPos: Vec, orbiterVel: Vec)
      requires Inv() && view.kmPerPixel > 0.0
      modifies this
      ensures Inv() && color == old(color) && el.u == sgp && el.f1 == Origin
      ensures var r := geo.length(geo.scale(orbiterPos, -1.0));
              var v := geo.length(orbiterVel);
              && (r <= 0.0 ==> !valid)
              && (r > 0.0 ==> el.energy == v * v / 2.0 - sgp / r)
              && (r > 0.0 && v * v / 2.0 - sgp / r >= 0.0 ==> !valid)
              && (r > 0.0 && v * v / 2.0 - sgp / r < 0.0 ==>
                    && el.a == -sgp / (2.0 * (v * v / 2.0 - sgp / r))
                    && (valid <==> el.e <= 1.0 && sgp > 0.0))
      ensures var relativePos := geo.scale(orbiterPos, -1.0);
              var r := geo.length(relativePos);
              var v := geo.length(orbiterVel);
              var energy := if r > 0.0 then v * v / 2.0 - sgp / r else 0.0;
              r > 0.0 && energy < 0.0 ==>
                var a := -sgp / (2.0 * energy);
                var phi := PI - geo.angleDiff(geo.angle(orbiterVel), geo.angle(relativePos));
                var f2 := geo.add(geo.rotate(geo.setLength(orbiterVel, 2.0 * a - r), phi), orbiterPos);
                && el.w == geo.angle(f2)
                && (a != 0.0 ==> el.e == geo.length(f2) / 2.0 / a)
      ensures var relativePos := geo.scale(orbiterPos, -1.0);
              var r := geo.length(relativePos);
              var v := geo.length(orbiterVel);
              var energy := if r > 0.0 then v * v / 2.0 - sgp / r else 0.0;
              && (r <= 0.0 ==> el == old(el).(f1 := Origin, u := sgp))
              && (r > 0.0 && energy >= 0.0 ==> el == old(el).(f1 := Origin, u := sgp, energy := energy))
              && (r > 0.0 && energy < 0.0 && !valid ==>
                    var a := -sgp / (2.0 * energy);
                    var phi := PI - geo.angleDiff(geo.angle(orbiterVel), geo.angle(relativePos));
                    var f2 := geo.add(geo.rotate(geo.setLength(orbiterVel, 2.0 * a - r), phi), orbiterPos);
                    el == old(el).(f1 := Origin, u := sgp, energy := energy, a := a, f2 := f2,
                                   w := geo.angle(f2), f := geo.length(f2) / 2.0, e := el.e))
      ensures !valid ==> drawPoints == old(drawPoints) && numDrawPoints == old(numDrawPoints)
      ensures valid ==> Consistent(geo, el) && fresh(drawPoints) && Drawn(geo, view)
    {
      el := el.(f1 := Origin, u := sgp);
      var relativePos := geo.scale(orbiterPos, -1.0);
      var r := geo.length(relativePos);
      if r <= 0.0 {
        valid := false;
        return;
      }
      var v := geo.length(orbiterVel);
      var energy := (v * v / 2.0) - (sgp / r);
      el := el.(energy := energy);
      if energy >= 0.0 {
        valid := false;
        return;
      }
      InitBound(geo, view, sgp, orbiterPos, orbiterVel, r, energy);
    }

    /** The bound-orbit part of InitPV, at distance r and negative energy: a from the
        energy, the second focus f2 at distance 2a - r from the orbiter, turned from
        the velocity by pi minus the angle from the velocity to the direction toward
        f1; w and f from f2, e = f / a, then Init. */
    method InitBound(geo: Geometry, view: View, sgp: real, orbiterPos: Vec, orbiterVel: Vec, r: real, energy: real)
      requires Inv() && view.kmPerPixel > 0.0 && r > 0.0 && energy < 0.0
      modifies this
      ensures Inv() && color == old(color)
      ensures el.a == -sgp / (2.0 * energy)
      ensures var a := -sgp / (2.0 * energy);
              var phi := PI - geo.angleDiff(geo.angle(orbiterVel), geo.angle(geo.scale(orbiterPos, -1.0)));
              var f2 := geo.add(geo.rotate(geo.setLength(orbiterVel, 2.0 * a - r), phi), orbiterPos);
              && el.w == geo.angle(f2)
              && (a != 0.0 ==> el.e == geo.length(f2) / 2.0 / a)
      ensures valid <==> el.e <= 1.0 && sgp > 0.0
      ensures !valid ==>
                var a := -sgp / (2.0 * energy);
                var phi := PI - geo.angleDiff(geo.angle(orbiterVel), geo.angle(geo.scale(orbiterPos, -1.0)));
                var f2 := geo.add(geo.rotate(geo.setLength(orbiterVel, 2.0 * a - r), phi), orbiterPos);
                el == old(el).(a := a, f2 := f2, w := geo.angle(f2), f := geo.length(f2) / 2.0, e := el.e)
      ensures !valid ==> drawPoints == old(drawPoints) && numDrawPoints == old(numDrawPoints)
      ensures valid ==> el.u == sgp && el.energy == energy
      ensures valid ==> Consistent(geo, el) && fresh(drawPoints) && Drawn(geo, view)
    {
      var a := -sgp / (2.0 * energy);
      var d := 2.0 * a - r;
      var orbiterAngle := geo.angle(geo.scale(orbiterPos, -1.0));
      var velAngle := geo.angle(orbiterVel);
      var theta := geo.angleDiff(velAngle, orbiterAngle);
      var phi := PI - theta;
      var f2 := geo.add(geo.rotate(geo.setLength(orbiterVel, d), phi), orbiterPos);
      var w := geo.angle(f2);
      var f := geo.length(f2) / 2.0;
      // with sgp == 0 the double quotient is not finite; Init rejects a == 0 anyway
      var e := if a == 0.0 then 0.0 else f / a;
      el := el.(a := a, f2 := f2, w := w, f := f, e := e);
      AxisSign(sgp, energy);
      Init(geo, view, sgp, e, a, w);
      if valid {
        EnergyRoundTrip(sgp, energy);
      }
    }

    /** Set up from the apogee and perigee vectors: invalid unless they point within
        0.01 of opposite ways; otherwise a is half their summed lengths, w the apogee
        angle, e = (ap - pe) / (ap + pe), and the elements go through Init, which gives
        the two distances back. */
    method InitAP(geo: Geometry, view: View, sgp: real, apogeeVec: Vec, perigeeVec: Vec)
      requires Inv() && view.kmPerPixel > 0.0
      modifies this
      ensures Inv() && color == old(color)
      ensures var opposed := Near(Abs(geo.angleDiff(geo.angle(apogeeVec), geo.angle(perigeeVec))), PI, OPPOSITION_SLOP);
              var ap := geo.length(apogeeVec);
              var pe := geo.length(perigeeVec);
              && (!opposed ==> !valid && el == old(el))
              && (opposed ==> el.apogee == ap && el.perigee == pe)
              && (opposed ==> (valid <==> ap + pe > 0.0 && pe >= 0.0))
              && (opposed ==> el.a == (ap + pe) / 2.0 && el.w == geo.angle(apogeeVec))
              && (opposed && ap + pe != 0.0 ==> el.e == (ap - pe) / (ap + pe))
              && (opposed && !valid ==>
                    el == old(el).(apogee := ap, perigee := pe, a := (ap + pe) / 2.0,
                                   w := geo.angle(apogeeVec), e := el.e))
      ensures !valid ==> drawPoints == old(drawPoints) && numDrawPoints == old(numDrawPoints)
      ensures valid ==> el.u == sgp && el.energy == -sgp / (2.0 * el.a)
      ensures valid ==> Consistent(geo, el) && fresh(drawPoints) && Drawn(geo, view)
    {
      var angleDiff := geo.angleDiff(geo.angle(apogeeVec), geo.angle(perigeeVec));
      angleDiff := Abs(angleDiff);
      if !Near(angleDiff, PI, OPPOSITION_SLOP) {
        valid := false;
        return;
      }
      var apogee := geo.length(apogeeVec);
      var perigee := geo.length(perigeeVec);
      var a := (apogee + perigee) / 2.0;
      var w := geo.angle(apogeeVec);
      // with ap + pe == 0 the double quotient is not finite; Init rejects a == 0 anyway
      var e := if apogee + perigee == 0.0 then 0.0 else (apogee - perigee) / (apogee + perigee);
      el := el.(apogee := apogee, perigee := perigee, a := a, w := w, e := e);
      if apogee + perigee > 0.0 {
        ApsidesRoundTrip(apogee, perigee);
        ApsidesEccentricity(apogee, perigee);
      }
      Init(geo, view, sgp, e, a, w);
    }

    /** One step of the deviance sweep: adds the sector-area difference at theta, the
        angle of step k, to the sum of the first k steps. */
    method AddSector(geo: Geometry, other: Orbit, deviance: Option<real>, theta: real, ghost k: nat)
      returns (next: Option<real>)
      requires theta == k as real * THETA_STEP
      requires deviance == SweptDeviance(geo, valid, el, other.valid, other.el, k)
      ensures next == SweptDeviance(geo, valid, el, other.valid, other.el, k + 1)
    {
      var rThis := GetR(geo, theta);
      var rOther := other.GetR(geo, theta);
      if rThis.Some? && rOther.Some? && deviance.Some? {
        var areaThis := SectorArea(rThis.value);
        var areaOther := SectorArea(rOther.value);
        var diff := Abs(areaThis - areaOther);
        next := Some(deviance.value + diff);
      } else {
        next := None;
      }
    }

    /** The area by which this orbit and other do not overlap: 0 for an invalid orbit;
        when one apogee lies inside the other's perigee, the difference of the two
        areas; otherwise the swept sum of sector-area differences. */
    method CalcDeviance(geo: Geometry, other: Orbit) returns (d: Option<real>)
      ensures !valid ==> d == Some(0.0)
      ensures valid && el.apogee < other.el.perigee ==> d == Some(other.el.orbitArea - el.orbitArea)
      ensures valid && !(el.apogee < other.el.perigee) && other.el.apogee < el.perigee ==>
                d == Some(el.orbitArea - other.el.orbitArea)
      ensures valid && !(el.apogee < other.el.perigee) && !(other.el.apogee < el.perigee) ==>
                d == SweptDeviance(geo, valid, el, other.valid, other.el, DEVIANCE_STEPS)
      ensures d == Deviance(geo, valid, el, other.valid, other.el)
    {
      if !valid {
        return Some(0.0);
      }
      if el.apogee < other.el.perigee {
        return Some(other.el.orbitArea - el.orbitArea);
      }
      if other.el.apogee < el.perigee {
        return Some(el.orbitArea - other.el.orbitArea);
      }
      var thetaStep := TWOPI / 1440.0;
      var deviance := Some(0.0);
      var theta := 0.0;
      ghost var k: nat := 0;
      while theta < TWOPI
        invariant k <= DEVIANCE_STEPS && theta == k as real * THETA_STEP
        invariant deviance == SweptDeviance(geo, valid, el, other.valid, other.el, k)
        decreases DEVIANCE_STEPS - k
      {
        deviance := AddSector(geo, other, deviance, theta, k);
        SweepStepCount(k);
        theta := theta + thetaStep;
        k := k + 1;
      }
      SweepStepCount(k);
      return deviance;
    }
  }
}
