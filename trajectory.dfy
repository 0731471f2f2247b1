/** The sample sequence a path computes, as a pure function of its inputs.

    Sample 0 is the start position.  Each later sample up to the stop index is one fixed
    time step on from the previous one: a gravity impulse toward the orbitee and the
    active thrust are folded into the velocity, a REDIRECT point at exactly this index
    turns the velocity onto the thrust direction keeping its length, and the position
    then advances with the updated velocity.  Once a computed sample comes closer to the
    orbitee than the fatal-approach distance, every later sample repeats it.
    `Paths.Path.CalcPoints` is proved to fill its buffer with exactly these samples. */
module Trajectory {
  import opened Geometry
  import opened Schedule

  /** Seconds represented by one sample step. */
  const POINTS_TIME: real := 86400.0

  /** Default thrust magnitude, km/s^2. */
  const PATH_ACCELERATION: real := 0.000002

  /** A sample closer than this to the orbitee halts the path, km. */
  const FATAL_SUN_APPROACH: real := 35000000.0

  /** The inputs a recomputation reads: start state, and the orbitee's position and
      standard gravitational parameter as they are at the time of the call. */
  datatype World = World(startPos: Vec, startVel: Vec, orbiteePos: Vec, sgp: real)

  /** The integrator's loop variables. */
  datatype Sim = Sim(pos: Vec, vel: Vec, halt: bool)

  /** Length of the gravity impulse for one step: step seconds times u / d^2.  At zero
      distance the source divides by zero; the model uses 0 there. */
  function GravImpulseLength(geo: Geometry, sgp: real, toOrbitee: Vec): (r: real)
    ensures geo.lengthSq(toOrbitee) == 0.0 ==> r == 0.0
    ensures geo.lengthSq(toOrbitee) > 0.0 && sgp >= 0.0 ==> r >= 0.0
    ensures geo.lengthSq(toOrbitee) != 0.0 ==> r * geo.lengthSq(toOrbitee) == POINTS_TIME * sgp
  {
    var d2 := geo.lengthSq(toOrbitee);
    if d2 == 0.0 then 0.0 else (POINTS_TIME * sgp) / d2
  }

  /** The velocity after the gravity impulse and the thrust of step i, before any
      redirect.  `prev` is the previous sample, from which the thrust direction is
      measured. */
  function ImpulsedVel(geo: Geometry, w: World, s: seq<Accel>, i: int, st: Sim): Vec
    requires s == [] || s[0].idx <= i
  {
    var toOrbitee := geo.sub(w.orbiteePos, st.pos);
    var v1 := geo.add(st.vel, geo.setLength(toOrbitee, GravImpulseLength(geo, w.sgp, toOrbitee)));
    geo.add(v1, geo.scale(ThrustVec(geo, s, toOrbitee, i), POINTS_TIME))
  }

  /** The velocity that moves the body during step i. */
  function StepVel(geo: Geometry, w: World, s: seq<Accel>, i: int, st: Sim): Vec
    requires s == [] || s[0].idx <= i
  {
    var v := ImpulsedVel(geo, w, s, i, st);
    if RedirectAt(s, i) then
      geo.polar(geo.length(v), geo.angle(geo.scale(ThrustVec(geo, s, geo.sub(w.orbiteePos, st.pos), i), POINTS_TIME)))
    else v
  }

  /** One integration step, computing sample i from the state after sample i - 1. */
  function Step(geo: Geometry, w: World, s: seq<Accel>, i: int, st: Sim): (r: Sim)
    requires s == [] || s[0].idx <= i
  {
    var v := StepVel(geo, w, s, i, st);
    var p := geo.add(st.pos, geo.scale(v, POINTS_TIME));
    Sim(p, v, geo.distance(p, w.orbiteePos) < FATAL_SUN_APPROACH)
  }

  /** The integrator state once sample i has been recorded. */
  function StateAt(geo: Geometry, w: World, s: seq<Accel>, i: nat): Sim
    requires s == [] || s[0].idx <= 1
  {
    if i == 0 then Sim(w.startPos, w.startVel, false)
    else
      var prev := StateAt(geo, w, s, i - 1);
      if prev.halt then prev else Step(geo, w, s, i, prev)
  }

  /** Sample i of the path. */
  function Sample(geo: Geometry, w: World, s: seq<Accel>, i: nat): Vec
    requires s == [] || s[0].idx <= 1
  {
    StateAt(geo, w, s, i).pos
  }

  /** Sample 0 is the start position. */
  lemma FirstSampleIsStart(geo: Geometry, w: World, s: seq<Accel>)
    requires s == [] || s[0].idx <= 1
    ensures Sample(geo, w, s, 0) == w.startPos
  {
  }

  /** A computed sample (any sample but the start position) closer than the fatal
      distance leaves the integrator halted. */
  lemma CloseSampleHalts(geo: Geometry, w: World, s: seq<Accel>, i: nat)
    requires s == [] || s[0].idx <= 1
    requires i >= 1 && geo.distance(Sample(geo, w, s, i), w.orbiteePos) < FATAL_SUN_APPROACH
    ensures StateAt(geo, w, s, i).halt
  {
  }

  /** A halted integrator never changes again. */
  lemma {:induction false} HaltedStaysPut(geo: Geometry, w: World, s: seq<Accel>, i: nat, k: nat)
    requires s == [] || s[0].idx <= 1
    requires StateAt(geo, w, s, i).halt && i <= k
    ensures StateAt(geo, w, s, k) == StateAt(geo, w, s, i)
    decreases k - i
  {
    if i < k {
      HaltedStaysPut(geo, w, s, i, k - 1);
    }
  }

  /** Halt freezing: once a computed sample is closer than the fatal distance to the
      orbitee, every later sample equals it exactly. */
  lemma HaltFreezes(geo: Geometry, w: World, s: seq<Accel>, i: nat, k: nat)
    requires s == [] || s[0].idx <= 1
    requires i >= 1 && i <= k
    requires geo.distance(Sample(geo, w, s, i), w.orbiteePos) < FATAL_SUN_APPROACH
    ensures Sample(geo, w, s, k) == Sample(geo, w, s, i)
  {
    CloseSampleHalts(geo, w, s, i);
    HaltedStaysPut(geo, w, s, i, k);
  }

  /** Until the path halts, step i moves the body by the updated velocity, and that
      velocity is the impulsed one unless a REDIRECT point sits at exactly index i, in
      which case it keeps the impulsed velocity's length (under the library's laws). */
  lemma StepSemantics(geo: Geometry, w: World, s: seq<Accel>, i: nat)
    requires s == [] || s[0].idx <= 1
    requires i >= 1 && !StateAt(geo, w, s, i - 1).halt
    ensures var prev := StateAt(geo, w, s, i - 1);
            var cur := StateAt(geo, w, s, i);
            && cur.pos == geo.add(prev.pos, geo.scale(cur.vel, POINTS_TIME))
            && (!RedirectAt(s, i) ==> cur.vel == ImpulsedVel(geo, w, s, i, prev))
            && (Lawful(geo) && geo.length(ImpulsedVel(geo, w, s, i, prev)) >= 0.0 && RedirectAt(s, i)
                ==> geo.length(cur.vel) == geo.length(ImpulsedVel(geo, w, s, i, prev)))
  {
    var prev := StateAt(geo, w, s, i - 1);
    var v := ImpulsedVel(geo, w, s, i, prev);
    var t := geo.angle(geo.scale(ThrustVec(geo, s, geo.sub(w.orbiteePos, prev.pos), i), POINTS_TIME));
    if Lawful(geo) && geo.length(v) >= 0.0 {
      assert geo.length(geo.polar(geo.length(v), t)) == geo.length(v);
    }
  }

  /** A redirecting step takes the direction of the step's thrust vector and keeps the
      length of the gravity-plus-thrust velocity (under the library's laws, for a
      velocity that is not zero). */
  lemma RedirectDirection(geo: Geometry, w: World, s: seq<Accel>, i: nat)
    requires s == [] || s[0].idx <= 1
    requires Lawful(geo) && i >= 1 && !StateAt(geo, w, s, i - 1).halt && RedirectAt(s, i)
    requires geo.length(ImpulsedVel(geo, w, s, i, StateAt(geo, w, s, i - 1))) > 0.0
    ensures var prev := StateAt(geo, w, s, i - 1);
            var cur := StateAt(geo, w, s, i);
            && geo.angle(cur.vel)
                 == geo.angle(geo.scale(ThrustVec(geo, s, geo.sub(w.orbiteePos, prev.pos), i), POINTS_TIME))
            && geo.length(cur.vel) == geo.length(ImpulsedVel(geo, w, s, i, prev))
  {
    var prev := StateAt(geo, w, s, i - 1);
    var len := geo.length(ImpulsedVel(geo, w, s, i, prev));
    var thrust := geo.scale(ThrustVec(geo, s, geo.sub(w.orbiteePos, prev.pos), i), POINTS_TIME);
    assert StateAt(geo, w, s, i).vel == geo.polar(len, geo.angle(thrust));
    assert geo.angle(geo.polar(len, geo.angle(thrust))) == geo.angle(thrust);
  }

  /** Without a REDIRECT point exactly at index i, step i never redirects. */
  lemma NoRedirectOffIndex(geo: Geometry, w: World, s: seq<Accel>, i: nat)
    requires s == [] || s[0].idx <= 1
    requires i >= 1 && !StateAt(geo, w, s, i - 1).halt
    requires forall k | 0 <= k < |s| :: s[k].idx == i ==> s[k].kind != ACCTYPE_REDIRECT
    ensures StateAt(geo, w, s, i).vel == ImpulsedVel(geo, w, s, i, StateAt(geo, w, s, i - 1))
  {
    RedirectExact(s, i);
  }
}
