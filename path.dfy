/** A maneuver-aware trajectory: a ship's path around an orbitee, sampled at 900 fixed
    time steps, shaped by a list of acceleration points kept sorted by sample index. */
module Paths {
  import opened Geometry
  import opened Schedule
  import opened Trajectory
  import Orbits
  import Persistence

  /** Half-length of the on-screen thrust line, pixels; it also sets the pick radius. */
  const DISPLAY_THRUSTLINE_LENGTH: int := 50

  /** Pick radius of the nearest-neighbour searches, pixels, and its square. */
  const MAX_DIST: int := DISPLAY_THRUSTLINE_LENGTH + DISPLAY_THRUSTLINE_LENGTH / 10
  const MAX_DIST_SQ: int := MAX_DIST * MAX_DIST

  /** The gravitating body a path orbits, as far as the path reads it. */
  class Body {
    var pos: Vec
    var sgp: real

    constructor (pos: Vec, sgp: real)
      ensures this.pos == pos && this.sgp == sgp
    {
      this.pos := pos;
      this.sgp := sgp;
    }
  }

  /** One acceleration point, shared by reference between the path's list and callers. */
  class AccelerationPoint {
    var pointIdx: int
    var kind: int
    var angle: real
    var mag: real

    constructor (pointIdx: int, kind: int, angle: real, mag: real)
      ensures this.pointIdx == pointIdx && this.kind == kind
      ensures this.angle == angle && this.mag == mag
    {
      this.pointIdx := pointIdx;
      this.kind := kind;
      this.angle := angle;
      this.mag := mag;
    }
  }

  /** The value of one acceleration point. */
  function Value(p: AccelerationPoint): Accel
    reads p
  {
    Accel(p.pointIdx, p.kind, p.angle, p.mag)
  }

  /** The values of a list of acceleration points, element by element. */
  function Snapshot(ps: seq<AccelerationPoint>): (s: seq<Accel>)
    reads ps
    ensures |s| == |ps|
    ensures forall k | 0 <= k < |ps| :: s[k] == Value(ps[k])
  {
    seq(|ps|, k requires 0 <= k < |ps| reads ps => Value(ps[k]))
  }

  /** Taking values commutes with splicing one point into the list. */
  lemma SnapshotSplice(ps: seq<AccelerationPoint>, k: nat, p: AccelerationPoint)
    requires k <= |ps|
    ensures Snapshot(ps[..k] + [p] + ps[k..]) == Snapshot(ps)[..k] + [Value(p)] + Snapshot(ps)[k..]
  {
    var l := ps[..k] + [p] + ps[k..];
    assert forall j | 0 <= j < |l| :: l[j] == if j < k then ps[j] else if j == k then p else ps[j - 1];
  }

  /** Taking values commutes with cutting one point out of the list. */
  lemma SnapshotCut(ps: seq<AccelerationPoint>, k: nat)
    requires k < |ps|
    ensures Snapshot(ps[..k] + ps[k + 1..]) == Snapshot(ps)[..k] + Snapshot(ps)[k + 1..]
  {
    var l := ps[..k] + ps[k + 1..];
    assert forall j | 0 <= j < |l| :: l[j] == if j < k then ps[j] else ps[j + 1];
  }

  /** Position of the first occurrence of p in ps, or |ps| when it does not occur. */
  function PositionOf(ps: seq<AccelerationPoint>, p: AccelerationPoint): (k: nat)
    ensures k <= |ps|
    ensures forall j | 0 <= j < k :: ps[j] != p
    ensures k < |ps| ==> ps[k] == p
  {
    if ps == [] then 0
    else if ps[0] == p then 0
    else 1 + PositionOf(ps[1..], p)
  }

  /** A list whose values ascend strictly by index holds no object twice. */
  lemma AscendingDistinct(ps: seq<AccelerationPoint>)
    requires Ascending(Snapshot(ps))
    ensures forall j, k | 0 <= j < k < |ps| :: ps[j] != ps[k]
  {
    var s := Snapshot(ps);
    forall j, k | 0 <= j < k < |ps|
      ensures ps[j] != ps[k]
    {
      assert s[j].idx < s[k].idx;
    }
  }

  /** r is the result of a nearest-within-bound search over the first n entries of ds:
      -1 when none of them is below the bound, otherwise a position below n whose entry
      is below the bound, strictly smaller than every earlier entry and no larger than
      any later one. */
  ghost predicate NearestWithin(ds: seq<int>, n: int, bound: int, r: int)
    requires 0 <= n <= |ds|
  {
    if r == -1 then forall k | 0 <= k < n :: ds[k] >= bound
    else
      && 0 <= r < n && ds[r] < bound
      && (forall k | 0 <= k < r :: ds[r] < ds[k])
      && (forall k | r < k < n :: ds[r] <= ds[k])
  }

  /** The search result is unique: ties go to the first position. */
  lemma NearestUnique(ds: seq<int>, n: int, bound: int, r1: int, r2: int)
    requires 0 <= n <= |ds|
    requires NearestWithin(ds, n, bound, r1) && NearestWithin(ds, n, bound, r2)
    ensures r1 == r2
  {
  }

  /** The search finds nothing exactly when no entry is below the bound, and what it
      finds lies among the first n entries. */
  lemma NearestFound(ds: seq<int>, n: int, bound: int, r: int)
    requires 0 <= n <= |ds| && NearestWithin(ds, n, bound, r)
    ensures r == -1 <==> forall k | 0 <= k < n :: ds[k] >= bound
    ensures r != -1 ==> 0 <= r < n
  {
  }

  /** One step of the scanning loop: entry i is taken when it is below the bound and
      either nothing was taken yet or it is strictly below the current best. */
  lemma NearestStep(ds: seq<int>, bound: int, i: nat, r: int)
    requires i < |ds| && NearestWithin(ds, i, bound, r)
    ensures var r' := if ds[i] < bound && (r == -1 || ds[i] < ds[r]) then i else r;
            NearestWithin(ds, i + 1, bound, r')
  {
  }

  /** Squared screen distance from (viewX, viewY) to where the model point p is drawn. */
  function ViewDistSq(view: View, p: Vec, viewX: int, viewY: int): (d: int)
    ensures d >= 0
    ensures d == 0 <==> view.toViewX(p.x) == viewX && view.toViewY(p.y) == viewY
  {
    var dx := viewX - view.toViewX(p.x);
    var dy := viewY - view.toViewY(p.y);
    dx * dx + dy * dy
  }

  /** Squared screen distances from (viewX, viewY) to the first n samples of pts. */
  ghost function SampleDists(view: View, pts: seq<Vec>, n: nat, viewX: int, viewY: int): (ds: seq<int>)
    requires n <= |pts|
    ensures |ds| == n
    ensures forall k | 0 <= k < n :: ds[k] == ViewDistSq(view, pts[k], viewX, viewY)
  {
    seq(n, k requires 0 <= k < n => ViewDistSq(view, pts[k], viewX, viewY))
  }

  /** Squared screen distances from (viewX, viewY) to the samples (in pts) of the
      points a scan of s visits: list positions up to and including the first
      STOPTRACE point. */
  ghost function ScanDists(view: View, pts: seq<Vec>, s: seq<Accel>, viewX: int, viewY: int): (ds: seq<int>)
    requires |pts| == PATH_NUM_POINTS && InRange(s)
    ensures |ds| == ScanEnd(s)
    ensures forall k | 0 <= k < |ds| :: ds[k] == ViewDistSq(view, pts[s[k].idx], viewX, viewY)
  {
    seq(ScanEnd(s), k requires 0 <= k < ScanEnd(s) => ViewDistSq(view, pts[s[k].idx], viewX, viewY))
  }

  class Path {
    var startPos: Vec
    var startVel: Vec
    const points: array<Vec>
    var orbitee: Body?
    var accel: seq<AccelerationPoint>

    /** The list is strictly ascending by index and every index is a sample of the
        buffer; the buffer holds 900 samples. */
    ghost predicate Valid()
      reads this, accel
    {
      && points.Length == PATH_NUM_POINTS
      && Ascending(Snapshot(accel))
      && InRange(Snapshot(accel))
    }

    /** The acceleration points as values, in list order. */
    ghost function Maneuvers(): seq<Accel>
      reads this, accel
    {
      Snapshot(accel)
    }

    /** What a recomputation reads: the start state and the orbitee as it is now. */
    ghost function Inputs(): World
      reads this, orbitee
      requires orbitee != null
    {
      World(startPos, startVel, orbitee.pos, orbitee.sgp)
    }

    constructor ()
      ensures Valid() && fresh(points)
      ensures accel == [] && orbitee == null
    {
      startPos := Origin;
      startVel := Origin;
      points := new Vec[PATH_NUM_POINTS](_ => Origin);
      orbitee := null;
      accel := [];
    }

    /** The vector from the reference sample toward the orbitee, where the reference is
        the start position for index 0 and the previous sample otherwise. */
    function GravForPoint(geo: Geometry, pointIdx: int): (g: Vec)
      reads this, points, orbitee
      requires orbitee != null && 0 <= pointIdx <= points.Length
      ensures Lawful(geo) ==> geo.add(g, if pointIdx == 0 then startPos else points[pointIdx - 1]) == orbitee.pos
    {
      geo.sub(orbitee.pos, if pointIdx == 0 then startPos else points[pointIdx - 1])
    }

    /** The stop index: the index of the first STOPTRACE point in list order, or the
        last sample. */
    method GetStopPoint() returns (r: int)
      ensures r == StopIndex(Maneuvers())
      ensures Valid() ==> 0 <= r < PATH_NUM_POINTS
    {
      var k := 0;
      while k < |accel|
        invariant 0 <= k <= |accel|
        invariant forall j | 0 <= j < k :: accel[j].kind != ACCTYPE_STOPTRACE
      {
        if accel[k].kind == ACCTYPE_STOPTRACE {
          assert FirstStopPos(Maneuvers()) == k;
          return accel[k].pointIdx;
        }
        k := k + 1;
      }
      return PATH_NUM_POINTS - 1;
    }

    /** The thrust acceleration at sample pointIdx: zero without acceleration points,
        otherwise the direction toward the orbitee (measured from the previous sample)
        rotated by the active point's angle, at that point's magnitude.  The active
        point is the last one before the first point with a larger index (or the final
        point); the first point must not lie after pointIdx. */
    method GetThrustForPoint(geo: Geometry, pointIdx: int) returns (thrust: Vec)
      requires orbitee != null && 0 <= pointIdx <= points.Length
      requires accel == [] || accel[0].pointIdx <= pointIdx
      ensures accel == [] ==> thrust == Origin
      ensures thrust == ThrustVec(geo, Maneuvers(), GravForPoint(geo, pointIdx), pointIdx)
    {
      if |accel| == 0 {
        return Origin;
      }
      var gravDir := GravForPoint(geo, pointIdx);
      ghost var s := Maneuvers();
      var ap: AccelerationPoint? := null;
      var k := 0;
      while k < |accel|
        invariant 0 <= k <= |accel|
        invariant ap == null
        invariant forall j | 0 <= j < k :: accel[j].pointIdx <= pointIdx
      {
        if accel[k].pointIdx > pointIdx {
          assert FirstAbove(s, pointIdx) == k;
          ap := accel[k - 1];
          break;
        }
        k := k + 1;
      }
      if ap == null {
        assert FirstAbove(s, pointIdx) == |accel|;
        ap := accel[|accel| - 1];
      }
      thrust := geo.setLength(geo.rotate(gravDir, ap.angle), ap.mag);
    }

    /** Whether step i redirects: the first point whose index is exactly i is a
        REDIRECT point. */
    method IsRedirectStep(i: int) returns (b: bool)
      ensures b == RedirectAt(Maneuvers(), i)
    {
      ghost var s := Maneuvers();
      var k := 0;
      while k < |accel|
        invariant 0 <= k <= |accel|
        invariant forall j | 0 <= j < k :: accel[j].pointIdx != i
      {
        if accel[k].pointIdx == i {
          assert FirstAt(s, i) == k;
          return accel[k].kind == ACCTYPE_REDIRECT;
        }
        k := k + 1;
      }
      assert FirstAt(s, i) == |accel|;
      return false;
    }

    /** One step of the integrator for sample i, from the state after sample i - 1
        (which is also the sample stored at i - 1): gravity impulse, then thrust, then
        a redirect when a REDIRECT point sits at i, then the position update with the
        new velocity. */
    method Advance(geo: Geometry, i: int, pos: Vec, vel: Vec, ghost w: World, ghost s: seq<Accel>)
      returns (newPos: Vec, newVel: Vec)
      requires orbitee != null && 1 <= i <= points.Length
      requires w == Inputs()
      requires s == Maneuvers()
      requires s == [] || s[0].idx <= 1
      requires points[i - 1] == pos
      ensures Sim(newPos, newVel, geo.distance(newPos, w.orbiteePos) < FATAL_SUN_APPROACH)
              == Step(geo, w, s, i, Sim(pos, vel, false))
    {
      var gravAcc := geo.sub(orbitee.pos, pos);
      var impulsed := geo.add(vel, geo.setLength(gravAcc, GravImpulseLength(geo, orbitee.sgp, gravAcc)));
      var thrustAcc := GetThrustForPoint(geo, i);
      assert thrustAcc == ThrustVec(geo, s, geo.sub(w.orbiteePos, pos), i);
      thrustAcc := geo.scale(thrustAcc, POINTS_TIME);
      impulsed := geo.add(impulsed, thrustAcc);
      var redirect := IsRedirectStep(i);
      assert redirect == RedirectAt(s, i);
      newVel := if redirect then geo.polar(geo.length(impulsed), geo.angle(thrustAcc)) else impulsed;
      newPos := geo.add(pos, geo.scale(newVel, POINTS_TIME));
    }

    /** Record sample i from the integrator state after sample i - 1: a halted path
        repeats the previous sample, otherwise one step is taken and the path halts
        when the new sample is closer to the orbitee than the fatal distance.  The
        samples before i stay as they are. */
    method RecordSample(geo: Geometry, i: int, pos: Vec, vel: Vec, halt: bool, ghost w: World, ghost s: seq<Accel>)
      returns (newPos: Vec, newVel: Vec, newHalt: bool)
      requires orbitee != null && 1 <= i < points.Length
      requires w == Inputs()
      requires s == Maneuvers()
      requires s == [] || s[0].idx <= 1
      requires Sim(pos, vel, halt) == StateAt(geo, w, s, i - 1)
      requires forall k | 0 <= k < i :: points[k] == Sample(geo, w, s, k)
      modifies points
      ensures Sim(newPos, newVel, newHalt) == StateAt(geo, w, s, i)
      ensures forall k | 0 <= k <= i :: points[k] == Sample(geo, w, s, k)
      ensures forall k | i < k < points.Length :: points[k] == old(points[k])
    {
      if halt {
        points[i] := points[i - 1];
        return pos, vel, halt;
      }
      newPos, newVel := Advance(geo, i, pos, vel, w, s);
      points[i] := newPos;
      newHalt := geo.distance(points[i], orbitee.pos) < FATAL_SUN_APPROACH;
    }

    /** The integration loop: samples from..stopIdx follow the trajectory, given the
        integrator state after sample from - 1 and the samples before it. */
    method Integrate(geo: Geometry, from: int, stopIdx: int, pos: Vec, vel: Vec, ghost w: World, ghost s: seq<Accel>)
      requires orbitee != null && 1 <= from <= stopIdx + 1 && stopIdx < points.Length
      requires w == Inputs()
      requires s == Maneuvers()
      requires s == [] || s[0].idx <= 1
      requires StateAt(geo, w, s, from - 1) == Sim(pos, vel, false)
      requires forall k | 0 <= k < from :: points[k] == Sample(geo, w, s, k)
      modifies points
      ensures forall k | 0 <= k <= stopIdx :: points[k] == Sample(geo, w, s, k)
      ensures forall k | stopIdx < k < points.Length :: points[k] == old(points[k])
    {
      var pos, vel, halt := pos, vel, false;
      var i := from;
      while i <= stopIdx
        invariant from <= i <= stopIdx + 1
        invariant Sim(pos, vel, halt) == StateAt(geo, w, s, i - 1)
        invariant forall k | 0 <= k < i :: points[k] == Sample(geo, w, s, k)
        invariant forall k | i <= k < points.Length :: points[k] == old(points[k])
      {
        pos, vel, halt := RecordSample(geo, i, pos, vel, halt, w, s);
        i := i + 1;
      }
    }

    /** Recompute the samples: sample 0 is the start position, samples 1 to the stop
        index follow the trajectory, and nothing past the stop index is written. */
    method CalcPoints(geo: Geometry)
      requires Valid() && orbitee != null
      requires accel == [] || accel[0].pointIdx <= 1
      modifies points
      ensures forall k | 0 <= k <= StopIndex(Maneuvers()) :: points[k] == Sample(geo, Inputs(), Maneuvers(), k)
      ensures forall k | StopIndex(Maneuvers()) < k < PATH_NUM_POINTS :: points[k] == old(points[k])
    {
      ghost var w := Inputs();
      ghost var s := Maneuvers();
      var stopIdx := GetStopPoint();
      points[0] := startPos;
      assert Maneuvers() == s;
      assert Inputs() == w;
      Integrate(geo, 1, stopIdx, startPos, startVel, w, s);
      assert Maneuvers() == s;
      assert Inputs() == w;
    }

    /** The insertion scan: the first position whose point index is not below
        pointIdx, and whether the point there sits exactly at pointIdx. */
    method FindSlot(pointIdx: int) returns (k: int, found: bool)
      requires Valid()
      ensures k == SeekPos(Maneuvers(), pointIdx)
      ensures found <==> Occupied(Maneuvers(), pointIdx)
      ensures found ==> accel[k].pointIdx == pointIdx
    {
      ghost var s := Maneuvers();
      SeekFindsOccupied(s, pointIdx);
      k := 0;
      while k < |accel|
        invariant 0 <= k <= |accel|
        invariant forall j | 0 <= j < k :: accel[j].pointIdx < pointIdx
      {
        if accel[k].pointIdx == pointIdx {
          assert SeekPos(s, pointIdx) == k;
          return k, true;
        }
        if accel[k].pointIdx > pointIdx {
          break;
        }
        k := k + 1;
      }
      assert SeekPos(s, pointIdx) == k;
      return k, false;
    }

    /** Splice a new point into the list at its sorted position. */
    method InsertAt(k: int, ap: AccelerationPoint)
      requires Valid() && ap !in accel
      requires 0 <= ap.pointIdx < PATH_NUM_POINTS && !Occupied(Maneuvers(), ap.pointIdx)
      requires k == SeekPos(Maneuvers(), ap.pointIdx)
      modifies this
      ensures Valid()
      ensures accel == old(accel)[..k] + [ap] + old(accel)[k..]
      ensures Maneuvers() == Insert(old(Maneuvers()), Value(ap))
      ensures HasBaseline(old(Maneuvers())) ==> HasBaseline(Maneuvers())
      ensures startPos == old(startPos) && startVel == old(startVel) && orbitee == old(orbitee)
    {
      ghost var s := Maneuvers();
      SnapshotSplice(accel, k, ap);
      accel := accel[..k] + [ap] + accel[k..];
      InsertAscending(s, Value(ap));
    }

    /** The angle (relative to the direction toward the orbitee) and the magnitude of
        the thrust in effect at sample pointIdx. */
    method ThrustSetting(geo: Geometry, pointIdx: int) returns (angle: real, mag: real)
      requires orbitee != null && 0 <= pointIdx <= points.Length
      requires accel == [] || accel[0].pointIdx <= pointIdx
      ensures var thrust := ThrustVec(geo, Maneuvers(), GravForPoint(geo, pointIdx), pointIdx);
              && mag == geo.length(thrust)
              && angle == geo.angleDiff(geo.angle(GravForPoint(geo, pointIdx)), geo.angle(thrust))
    {
      var thrust := GetThrustForPoint(geo, pointIdx);
      mag := geo.length(thrust);
      var gravDir := GravForPoint(geo, pointIdx);
      angle := geo.angleDiff(geo.angle(gravDir), geo.angle(thrust));
    }

    /** Add a fresh NORMAL point at the free sample pointIdx, splicing it in at the
        position k the insertion scan stopped on; it carries the thrust in effect there
        when the list is not empty. */
    method AddPoint(geo: Geometry, pointIdx: int, k: int) returns (ap: AccelerationPoint)
      requires Valid()
      requires 0 <= pointIdx < PATH_NUM_POINTS && !Occupied(Maneuvers(), pointIdx)
      requires k == SeekPos(Maneuvers(), pointIdx)
      requires accel != [] ==> orbitee != null && accel[0].pointIdx <= pointIdx
      modifies this
      ensures startPos == old(startPos) && startVel == old(startVel) && orbitee == old(orbitee)
      ensures Valid()
      ensures fresh(ap) && ap.pointIdx == pointIdx && ap.kind == ACCTYPE_NORMAL
      ensures accel == old(accel)[..k] + [ap] + old(accel)[k..]
      ensures Maneuvers() == Insert(old(Maneuvers()), Accel(pointIdx, ACCTYPE_NORMAL, ap.angle, ap.mag))
      ensures old(accel) != [] ==>
                var thrust := ThrustVec(geo, old(Maneuvers()), GravForPoint(geo, pointIdx), pointIdx);
                && ap.mag == geo.length(thrust)
                && ap.angle == geo.angleDiff(geo.angle(GravForPoint(geo, pointIdx)), geo.angle(thrust))
      ensures HasBaseline(old(Maneuvers())) ==> HasBaseline(Maneuvers())
    {
      ghost var s := Maneuvers();
      var angle, mag := 0.0, 0.0;
      if |accel| > 0 {
        angle, mag := ThrustSetting(geo, pointIdx);
      }
      ghost var g := if orbitee == null then Origin else GravForPoint(geo, pointIdx);
      ap := new AccelerationPoint(pointIdx, ACCTYPE_NORMAL, angle, mag);
      assert Maneuvers() == s;
      InsertAt(k, ap);
      assert orbitee != null ==> GravForPoint(geo, pointIdx) == g;
    }

    /** Create the acceleration point for sample pointIdx, or find it.  An index off the
        buffer yields null; an occupied index yields the point already there; otherwise
        a fresh NORMAL point is inserted before the first point with a larger index,
        carrying the thrust currently in effect at that sample (its magnitude, and its
        angle relative to the direction toward the orbitee) when the list was not
        empty. */
    method CreateAccelerationPoint(geo: Geometry, pointIdx: int) returns (ap: AccelerationPoint?)
      requires Valid()
      requires 0 <= pointIdx < PATH_NUM_POINTS && accel != [] ==> orbitee != null && accel[0].pointIdx <= pointIdx
      modifies this
      ensures startPos == old(startPos) && startVel == old(startVel) && orbitee == old(orbitee)
      ensures Valid()
      ensures ap == null <==> !(0 <= pointIdx < PATH_NUM_POINTS)
      ensures ap == null ==> accel == old(accel)
      ensures ap != null ==> ap in accel && ap.pointIdx == pointIdx
      ensures ap != null && Occupied(old(Maneuvers()), pointIdx) ==>
                accel == old(accel) && ap == old(accel)[SeekPos(old(Maneuvers()), pointIdx)]
      ensures ap != null && !Occupied(old(Maneuvers()), pointIdx) ==>
                && fresh(ap) && ap.kind == ACCTYPE_NORMAL
                && accel == old(accel)[..SeekPos(old(Maneuvers()), pointIdx)] + [ap]
                            + old(accel)[SeekPos(old(Maneuvers()), pointIdx)..]
                && Maneuvers() == Insert(old(Maneuvers()), Accel(pointIdx, ACCTYPE_NORMAL, ap.angle, ap.mag))
      ensures ap != null && !Occupied(old(Maneuvers()), pointIdx) && old(accel) != [] ==>
                var thrust := ThrustVec(geo, old(Maneuvers()), GravForPoint(geo, pointIdx), pointIdx);
                && ap.mag == geo.length(thrust)
                && ap.angle == geo.angleDiff(geo.angle(GravForPoint(geo, pointIdx)), geo.angle(thrust))
      ensures HasBaseline(old(Maneuvers())) ==> HasBaseline(Maneuvers())
    {
      if pointIdx < 0 || pointIdx >= PATH_NUM_POINTS {
        return null;
      }
      var k, found := FindSlot(pointIdx);
      if found {
        return accel[k];
      }
      ap := AddPoint(geo, pointIdx, k);
    }

    /** Writes the path's saved form: the start position and velocity, the number of
        points, then each point's index, kind, angle and magnitude in list order.
        `Persistence.DecodeEncode` shows that reading it back restores the start state
        and the list. */
    method Save() returns (out: seq<Persistence.Token>)
      ensures out == Persistence.Encode(startPos, startVel, Maneuvers())
    {
      var head := Persistence.VecTokens(startPos) + Persistence.VecTokens(startVel)
                  + [Persistence.IntToken(|accel|)];
      out := head;
      var k := 0;
      while k < |accel|
        invariant 0 <= k <= |accel|
        invariant out == head + Persistence.PointsTokens(Maneuvers()[..k])
      {
        var ap := accel[k];
        Persistence.PointsTokensAppend(Maneuvers()[..k], Value(ap));
        assert Maneuvers()[..k + 1] == Maneuvers()[..k] + [Value(ap)];
        out := out + [Persistence.IntToken(ap.pointIdx), Persistence.IntToken(ap.kind),
                      Persistence.RealToken(ap.angle), Persistence.RealToken(ap.mag)];
        k := k + 1;
      }
      assert Maneuvers()[..|accel|] == Maneuvers();
    }

    /** Point the path at a new orbitee and start state, keeping its acceleration
        points, and recompute the samples. */
    method InitNoAcc(geo: Geometry, body: Body, pos: Vec, vel: Vec)
      requires Valid()
      requires accel == [] || accel[0].pointIdx <= 1
      modifies this, points
      ensures orbitee == body && startPos == pos && startVel == vel
      ensures accel == old(accel) && Maneuvers() == old(Maneuvers()) && Valid()
      ensures forall k | 0 <= k <= StopIndex(Maneuvers()) :: points[k] == Sample(geo, Inputs(), Maneuvers(), k)
    {
      orbitee := body;
      startPos := pos;
      startVel := vel;
      CalcPoints(geo);
    }

    /** Point the path at body, starting from where orbit places an orbiter at the
        J2000 angle: the angle is turned into the orbit's polar angle -pi/2 - angle,
        whose position and velocity on the orbit become the start state; the
        acceleration points are kept and the samples recomputed. */
    method InitNoAccFromOrbit(geo: Geometry, orbit: Orbits.Orbit, body: Body, angle: real)
      requires Valid()
      requires accel == [] || accel[0].pointIdx <= 1
      requires orbit.GetVel(geo, -PI / 2.0 - angle).Some?
      modifies this, points
      ensures orbitee == body
      ensures startPos == orbit.GetPos(geo, -PI / 2.0 - angle).value
      ensures startVel == orbit.GetVel(geo, -PI / 2.0 - angle).value
      ensures accel == old(accel) && Maneuvers() == old(Maneuvers()) && Valid()
      ensures forall k | 0 <= k <= StopIndex(Maneuvers()) :: points[k] == Sample(geo, Inputs(), Maneuvers(), k)
    {
      var theta := -PI / 2.0 - angle;
      var pos := orbit.GetPos(geo, theta).value;
      var vel := orbit.GetVel(geo, theta).value;
      InitNoAcc(geo, body, pos, vel);
    }

    /** The baseline burn a fresh path starts with: at sample 0, NORMAL, a quarter turn
        from the direction toward the orbitee, at full thrust. */
    method SetBaseline(ap: AccelerationPoint)
      requires Valid() && accel != [] && ap == accel[0]
      modifies ap
      ensures Valid()
      ensures Maneuvers() == [Accel(0, ACCTYPE_NORMAL, PI / 2.0, PATH_ACCELERATION)] + old(Maneuvers())[1..]
    {
      ghost var s := Maneuvers();
      AscendingDistinct(accel);
      ap.pointIdx := 0;
      ap.kind := ACCTYPE_NORMAL;
      ap.angle := PI / 2.0;
      ap.mag := PATH_ACCELERATION;
      assert forall j | 1 <= j < |accel| :: Maneuvers()[j] == s[j];
      assert Maneuvers() == [Accel(0, ACCTYPE_NORMAL, PI / 2.0, PATH_ACCELERATION)] + s[1..];
    }

    /** Give the list its baseline point at sample 0, creating it or resetting the
        one already there. */
    method AddBaseline(geo: Geometry)
      requires Valid() && orbitee != null
      requires accel == [] || HasBaseline(Maneuvers())
      modifies this, accel
      ensures startPos == old(startPos) && startVel == old(startVel) && orbitee == old(orbitee)
      ensures Valid()
      ensures Maneuvers() == [Accel(0, ACCTYPE_NORMAL, PI / 2.0, PATH_ACCELERATION)]
                             + (if old(accel) == [] then [] else old(Maneuvers())[1..])
    {
      var ap := CreateAccelerationPoint(geo, 0);
      assert ap == accel[0];
      assert old(accel) != [] ==> accel == old(accel) && Maneuvers() == old(Maneuvers());
      assert old(accel) == [] ==> |accel| == 1;
      SetBaseline(ap);
    }

    /** Start a path around body from (pos, vel): the list gets its baseline point at
        sample 0 (replacing the settings of one already there) and the samples are
        recomputed. */
    method Init(geo: Geometry, body: Body, pos: Vec, vel: Vec)
      requires Valid()
      requires accel == [] || HasBaseline(Maneuvers())
      modifies this, points, accel
      ensures orbitee == body && startPos == pos && startVel == vel
      ensures Valid()
      ensures Maneuvers() == [Accel(0, ACCTYPE_NORMAL, PI / 2.0, PATH_ACCELERATION)]
                             + (if old(accel) == [] then [] else old(Maneuvers())[1..])
      ensures forall k | 0 <= k <= StopIndex(Maneuvers()) :: points[k] == Sample(geo, Inputs(), Maneuvers(), k)
    {
      InitNoAcc(geo, body, pos, vel);
      AddBaseline(geo);
      CalcPoints(geo);
    }

    /** Remove an acceleration point.  The point at sample 0 is never removed; any other
        point is taken out of the list, the rest keeping their order. */
    method RemoveAccelerationPoint(ap: AccelerationPoint)
      requires Valid()
      modifies this
      ensures startPos == old(startPos) && startVel == old(startVel) && orbitee == old(orbitee)
      ensures Valid()
      ensures ap.pointIdx == 0 || ap !in old(accel) ==> accel == old(accel)
      ensures ap.pointIdx != 0 ==> ap !in accel
      ensures ap.pointIdx != 0 && ap in old(accel) ==>
                var k := PositionOf(old(accel), ap);
                && accel == old(accel)[..k] + old(accel)[k + 1..]
                && Maneuvers() == old(Maneuvers())[..k] + old(Maneuvers())[k + 1..]
      ensures HasBaseline(old(Maneuvers())) ==> HasBaseline(Maneuvers())
    {
      if ap.pointIdx == 0 {
        return;
      }
      ghost var s := Maneuvers();
      var k := 0;
      while k < |accel| && accel[k] != ap
        invariant 0 <= k <= |accel|
        invariant forall j | 0 <= j < k :: accel[j] != ap
      {
        k := k + 1;
      }
      assert k == PositionOf(accel, ap);
      if k < |accel| {
        AscendingDistinct(accel);
        SnapshotCut(accel, k);
        RemoveAscending(s, k);
        assert HasBaseline(s) ==> k > 0;
        accel := accel[..k] + accel[k + 1..];
      }
    }

    /** Re-aim an acceleration point at the screen position (mx, my): its angle becomes
        the signed angle from the direction toward the orbitee to the screen vector from
        the point's sample to (mx, my), and its magnitude becomes newMag. */
    method AdjustAccelerationPoint(geo: Geometry, view: View, ap: AccelerationPoint, mx: int, my: int, newMag: real)
      requires orbitee != null && 0 <= ap.pointIdx < points.Length
      modifies ap
      ensures ap.pointIdx == old(ap.pointIdx) && ap.kind == old(ap.kind) && ap.mag == newMag
      ensures var p := points[ap.pointIdx];
              var line := Vec((mx - view.toViewX(p.x)) as real, (my - view.toViewY(p.y)) as real);
              ap.angle == geo.angleDiff(geo.angle(GravForPoint(geo, ap.pointIdx)), geo.angle(line))
      ensures old(Valid()) ==> Valid()
    {
      ghost var s := Maneuvers();
      var pointIdx := ap.pointIdx;
      var apX := view.toViewX(points[pointIdx].x);
      var apY := view.toViewY(points[pointIdx].y);
      var newLine := Vec((mx - apX) as real, (my - apY) as real);
      var unadjustedAng := geo.angle(newLine);
      var gravDir := GravForPoint(geo, pointIdx);
      var gravAng := geo.angle(gravDir);
      ap.angle := geo.angleDiff(gravAng, unadjustedAng);
      ap.mag := newMag;
      assert forall j | 0 <= j < |accel| :: Maneuvers()[j].idx == s[j].idx;
    }

    /** One pass of the sample scan: measures sample i and takes it when it is within
        the pick radius and strictly nearer than the best so far. */
    method ScanSample(view: View, viewX: int, viewY: int, i: int, closestIdx: int, closestDistSq: int,
                      ghost ds: seq<int>)
      returns (closestIdx': int, closestDistSq': int)
      requires 0 <= i < |ds| <= points.Length
      requires ds == SampleDists(view, points[..], |ds|, viewX, viewY)
      requires NearestWithin(ds, i, MAX_DIST_SQ, closestIdx)
      requires closestIdx != -1 ==> closestDistSq == ds[closestIdx]
      ensures NearestWithin(ds, i + 1, MAX_DIST_SQ, closestIdx')
      ensures closestIdx' != -1 ==> closestDistSq' == ds[closestIdx']
    {
      var dx := viewX - view.toViewX(points[i].x);
      var dy := viewY - view.toViewY(points[i].y);
      var distSq := dx * dx + dy * dy;
      assert points[..][i] == points[i];
      assert distSq == ds[i];
      NearestStep(ds, MAX_DIST_SQ, i, closestIdx);
      closestIdx', closestDistSq' := closestIdx, closestDistSq;
      if distSq < MAX_DIST_SQ {
        if closestIdx == -1 || distSq < closestDistSq {
          closestDistSq' := distSq;
          closestIdx' := i;
        }
      }
    }

    /** The sample nearest the screen position (viewX, viewY) among samples 0 to the
        stop index, within the pick radius: -1 when no sample is within it, otherwise
        the index with the least squared screen distance, the lowest such index on a
        tie. */
    method GetNearestPointIdx(view: View, viewX: int, viewY: int) returns (r: int)
      requires Valid()
      ensures NearestWithin(SampleDists(view, points[..], StopIndex(Maneuvers()) + 1, viewX, viewY),
                            StopIndex(Maneuvers()) + 1, MAX_DIST_SQ, r)
    {
      var stopIdx := GetStopPoint();
      ghost var ds := SampleDists(view, points[..], stopIdx + 1, viewX, viewY);
      var closestIdx := -1;
      var closestDistSq := 0;
      var i := 0;
      while i <= stopIdx
        invariant 0 <= i <= stopIdx + 1
        invariant NearestWithin(ds, i, MAX_DIST_SQ, closestIdx)
        invariant closestIdx != -1 ==> closestDistSq == ds[closestIdx]
      {
        closestIdx, closestDistSq := ScanSample(view, viewX, viewY, i, closestIdx, closestDistSq, ds);
        i := i + 1;
      }
      assert i == |ds|;
      return closestIdx;
    }

    /** One pass of the acceleration-point scan: measures the i-th point and takes it
        when it is within the pick radius and strictly nearer than the best so far. */
    method ScanAccelPoint(view: View, viewX: int, viewY: int, i: int, closest: AccelerationPoint?,
                          closestDistSq: int, ghost r: int, ghost ds: seq<int>)
      returns (closest': AccelerationPoint?, closestDistSq': int, ghost r': int)
      requires points.Length == PATH_NUM_POINTS && InRange(Maneuvers())
      requires ds == ScanDists(view, points[..], Maneuvers(), viewX, viewY)
      requires 0 <= i < |ds|
      requires NearestWithin(ds, i, MAX_DIST_SQ, r)
      requires closest == null <==> r == -1
      requires r != -1 ==> closest == accel[r] && closestDistSq == ds[r]
      ensures NearestWithin(ds, i + 1, MAX_DIST_SQ, r')
      ensures closest' == null <==> r' == -1
      ensures r' != -1 ==> closest' == accel[r'] && closestDistSq' == ds[r']
      ensures closest' == closest || closest' == accel[i]
      ensures closest' != null ==> closestDistSq' < MAX_DIST_SQ
    {
      var ap := accel[i];
      assert Maneuvers()[i] == Value(ap);
      var dx := viewX - view.toViewX(points[ap.pointIdx].x);
      var dy := viewY - view.toViewY(points[ap.pointIdx].y);
      var distSq := dx * dx + dy * dy;
      assert distSq == ds[i];
      NearestStep(ds, MAX_DIST_SQ, i, r);
      closest', closestDistSq', r' := closest, closestDistSq, r;
      if distSq < MAX_DIST_SQ {
        if closest == null || distSq < closestDistSq {
          closestDistSq' := distSq;
          closest' := ap;
          r' := i;
        }
      }
    }

    /** The acceleration point nearest the screen position (viewX, viewY), scanning the
        list in order up to and including the first STOPTRACE point: null when none is
        within the pick radius, otherwise the scanned point with the least squared
        screen distance, the first such point on a tie. */
    method GetNearestAccelPoint(view: View, viewX: int, viewY: int) returns (closest: AccelerationPoint?, ghost r: int)
      requires points.Length == PATH_NUM_POINTS && InRange(Maneuvers())
      ensures NearestWithin(ScanDists(view, points[..], Maneuvers(), viewX, viewY), ScanEnd(Maneuvers()), MAX_DIST_SQ, r)
      ensures closest == null <==> r == -1
      ensures r != -1 ==> closest == accel[r]
      ensures closest == null <==>
                forall k | 0 <= k < ScanEnd(Maneuvers()) :: ScanDists(view, points[..], Maneuvers(), viewX, viewY)[k] >= MAX_DIST_SQ
      ensures closest != null ==> closest in accel[..ScanEnd(Maneuvers())]
    {
      ghost var ds := ScanDists(view, points[..], Maneuvers(), viewX, viewY);
      closest, r := ScanAccelPoints(view, viewX, viewY);
      NearestFound(ds, |ds|, MAX_DIST_SQ, r);
      assert r != -1 ==> accel[r] == accel[..|ds|][r];
    }

    /** The scanning loop of GetNearestAccelPoint. */
    method ScanAccelPoints(view: View, viewX: int, viewY: int) returns (closest: AccelerationPoint?, ghost r: int)
      requires points.Length == PATH_NUM_POINTS && InRange(Maneuvers())
      ensures NearestWithin(ScanDists(view, points[..], Maneuvers(), viewX, viewY), ScanEnd(Maneuvers()), MAX_DIST_SQ, r)
      ensures closest == null <==> r == -1
      ensures r != -1 ==> closest == accel[r]
    {
      ghost var ds := ScanDists(view, points[..], Maneuvers(), viewX, viewY);
      closest := null;
      var closestDistSq := 0;
      r := -1;
      var i := 0;
      while i < |accel|
        invariant 0 <= i <= |ds|
        invariant i == |ds| ==> i == |accel|
        invariant NearestWithin(ds, i, MAX_DIST_SQ, r)
        invariant closest == null <==> r == -1
        invariant r != -1 ==> closest == accel[r] && closestDistSq == ds[r]
      {
        closest, closestDistSq, r := ScanAccelPoint(view, viewX, viewY, i, closest, closestDistSq, r, ds);
        assert Maneuvers()[i] == Value(accel[i]);
        ScanEndAt(Maneuvers(), i);
        if accel[i].kind == ACCTYPE_STOPTRACE {
          i := i + 1;
          break;
        }
        i := i + 1;
      }
      assert i == |ds| == ScanEnd(Maneuvers());
    }
  }
}
