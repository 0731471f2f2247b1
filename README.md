# Orbital path planner: paths and orbits

This project models the two computational cores of a small orbital-mechanics game.

- **Paths.** A ship's planned trajectory around a gravitating body (its *orbitee*) is
  held as 900 position samples, one per simulated day. The ship's thrust comes from a
  list of *acceleration points*. The list is kept sorted by sample index, and each
  point is NORMAL (thrust from here on), REDIRECT (turn the velocity onto the thrust
  direction) or STOPTRACE (the trace ends here).
  - The samples come from a fixed-step integrator. Each step adds a gravity impulse
    and the active thrust to the velocity, applies a redirect at an exact REDIRECT
    index, and then moves the position by the new velocity.
  - Once a computed sample (index 1 or later) comes within the fatal distance of the
    orbitee, every later sample up to the stop index repeats it. Sample 0, the start
    position, is never tested.
  - Points are created and found by sample index, removed (never the one at sample
    0), re-aimed from a screen position, and picked by screen distance.
  - A path is saved as its start state followed by its points' fields, and that
    stream reads back to the same start state and list.
- **Orbits.** A Keplerian ellipse with the orbitee at focus f1.
  - It can be set up from elements (e, a, w), from a position and velocity, or from
    apogee and perigee vectors.
  - It computes the radius at an angle from the polar ellipse equation.
  - It builds a screen outline: the upper half swept in two-pixel steps from -a to a,
    then the lower half swept back.
  - It measures its deviance from another orbit: a difference of areas when one lies
    inside the other, and otherwise a sum of sector-area differences over 1440 steps
    of a quarter degree.

## Structure

Modules:

- `Geometry` (geometry.dfy): the vector library the program calls. Vectors are pairs
  of reals. The operations (add, subtract, scale, length, angle, rotate, set-length,
  polar construction, angle difference, distance, square root, cosine) are fields of a
  `Geometry` value.
  - Only the laws the proofs need are assumed about them, through the predicate
    `Lawful`:
    - adding back what was subtracted restores the point;
    - a vector built from polar (r, t) with r >= 0 has length r;
    - a vector built from polar (r, t) with r > 0, where t is an angle the library
      returned for some vector, has angle t again;
    - the square root of a non-negative number is non-negative;
    - the square root grows with its argument on the non-negative numbers;
    - the cosine lies in [-1, 1];
    - cos 0 = 1.
  - The view transformation (km per pixel, model-to-screen maps) is a `View` value.
- `Schedule` (schedule.dfy): the acceleration-point list as a sequence of values,
  plus the searches over it that the source's loops perform:
  - the stop index;
  - the insertion position;
  - the active point;
  - the redirect test.
- `Trajectory` (trajectory.dfy): the sample sequence as a pure function of the start
  state, the orbitee and the list (`StateAt`, `Sample`), plus lemmas about halting and
  about what one step does.
- `Persistence` (persistence.dfy): the saved form of a path as a token sequence, the
  load loop that reads it, and the proof that loading what was saved gives back the
  start state and the list.
- `Paths` (path.dfy): the `Path` class. Its fields are the start state, the orbitee,
  a 900-slot `array` of samples, and a `seq` of shared `AccelerationPoint` objects.
  - The list operations, the thrust lookup, the redirect test and the integrator are
    proved against the `Schedule` and `Trajectory` functions.
  - `CalcPoints` fills the buffer with exactly `Sample(…)` up to the stop index.
  - `GravForPoint`, `AdjustAccelerationPoint` and the pick searches are specified
    directly, the searches through the predicate `NearestWithin`.
- `Orbits` (orbit.dfy): the `Orbit` class. Its fields are the colour, the outline
  buffer, its count, the elements (an `Elements` value) and the validity flag.
  - The radius and the deviance are defined by functions (`Radius`,
    `SweptDeviance`), which the methods are proved against.
  - The outline sweep is proved never to overflow its buffers.

`Orbit::init` (Orbit.cpp:84-93) rejects only e > 1 or a <= 0. So e == 1 (the
parabolic limit) and negative e are accepted. `Orbits.Orbit.Init` does the same: `Inv`
gives e <= 1, and `RadiusPositive` assumes -1 < e < 1.

## Model

| member | source | states |
|---|---|---|
| Schedule.FirstStopPos | Path.cpp:330-338 | the list position of the first STOPTRACE point (or the length): no earlier point is STOPTRACE and the one found is |
| Schedule.StopIndex | Path.cpp:327-340 | the sample index of the first STOPTRACE point in list order, or 899 when there is none; inside the sample range when every index is |
| Schedule.ScanEnd | Path.cpp:370-389 | how many list positions a scan that stops after the first STOPTRACE point visits: all of them when there is no STOPTRACE point, otherwise up to and including the first one |
| Schedule.ScanEndAt | Path.cpp:387-388 | the scan ends right after position i exactly when the point at i is STOPTRACE or is the last one |
| Schedule.SeekPos | Path.cpp:173-189 | the insertion scan's stopping position: every earlier point has a smaller index, and the point there (if any) does not |
| Schedule.SeekFindsOccupied | Path.cpp:175-189 | in a strictly ascending list the scan stops on a point at index i exactly when some point has index i |
| Schedule.Insert | Path.cpp:219 | inserting at the scan position adds exactly one point |
| Schedule.InsertAscending | Path.cpp:167-221 | inserting at a free index keeps the list strictly ascending and within the sample range, and keeps the point at sample 0 first |
| Schedule.RemoveAscending | Path.cpp:117-124 | cutting a point out keeps the list strictly ascending and within the sample range; cutting anything but the first keeps the point at sample 0 |
| Schedule.FirstAbove | Path.cpp:437-448 | the position of the first point whose index exceeds i (or the length) |
| Schedule.ActivePos | Path.cpp:435-456 | the active point for sample i: its index and every earlier one are at most i, and the next point (if any) is past i |
| Schedule.ActiveIsLatest | Path.cpp:435-456 | in an ascending list the active point is the last point at or before sample i |
| Schedule.FirstAt | Path.cpp:516-521 | the position of the first point with index exactly i (or the length) |
| Schedule.RedirectExact | Path.cpp:515-530 | a step redirects only where some REDIRECT point has exactly that index, and in an ascending list wherever one does |
| Schedule.ThrustVec | Path.cpp:424-456 | the thrust acceleration getThrustForPoint returns: zero with no points, otherwise the given direction toward the orbitee rotated by the active point's angle, at that point's magnitude |
| Schedule.RedirectAt | Path.cpp:515-530 | the redirect loop's test: the first point in list order whose index is exactly i exists and is a REDIRECT point |
| Trajectory.GravImpulseLength | Path.cpp:495-499 | the gravity impulse length of one step: step seconds times sgp over the squared distance, so its product with that squared distance is step seconds times sgp; zero at zero distance |
| Trajectory.ImpulsedVel | Path.cpp:490-513 | the velocity after adding the gravity impulse toward the orbitee and the step's thrust times the step seconds, the thrust direction measured from the previous sample |
| Trajectory.StepVel | Path.cpp:515-530 | the step's velocity: the impulsed one, or on a redirect a vector of its length at the angle of the step's thrust vector |
| Trajectory.Step | Path.cpp:489-546 | one loop pass that does not halt at entry: the position advances by the step velocity times the step seconds, and halt is set when the new position is closer than the fatal distance |
| Trajectory.StateAt | Path.cpp:470-547 | calcPoints' loop variables after sample i: the start state at 0, then one Step per index, repeating the state once halted |
| Trajectory.Sample | Path.cpp:477-540 | the position calcPoints records as sample i |
| Trajectory.FirstSampleIsStart | Path.cpp:473-478 | sample 0 is the start position |
| Trajectory.CloseSampleHalts | Path.cpp:542-546 | a computed sample closer to the orbitee than the fatal distance halts the integrator |
| Trajectory.HaltedStaysPut | Path.cpp:484-488 | once halted, the integrator state never changes again |
| Trajectory.HaltFreezes | Path.cpp:482-547 | after a computed sample comes within the fatal distance, every later sample equals it |
| Trajectory.StepSemantics | Path.cpp:490-540 | until the path halts, a step moves the position by the step's new velocity; that velocity is the gravity-plus-thrust one unless the step redirects, and a redirect keeps its length |
| Trajectory.RedirectDirection | Path.cpp:523-528 | a redirecting step's velocity has the angle of the step's thrust vector and the length of the gravity-plus-thrust velocity |
| Trajectory.NoRedirectOffIndex | Path.cpp:515-530 | without a REDIRECT point at exactly index i, step i's velocity is the gravity-plus-thrust one |
| Paths.Body.constructor | OBObject.h:29-37 | the orbitee is given the position and gravitational parameter the path reads |
| Paths.AccelerationPoint.constructor | Path.h:29-38 | a point carries exactly the given index, type, angle and magnitude |
| Paths.Snapshot | Path.h:28-40 | the value list has one entry per shared point, entry by entry |
| Paths.SnapshotSplice | Path.cpp:219 | splicing a point into the list splices its value into the value list at the same place |
| Paths.SnapshotCut | Path.cpp:122 | cutting a point out of the list cuts its value out at the same place |
| Paths.PositionOf | Path.cpp:122 | the first position holding the given point, or the length when it is absent |
| Paths.AscendingDistinct | Path.cpp:122 | a strictly ascending list holds no point twice, so removing every occurrence removes one |
| Paths.NearestWithin | Path.cpp:404-417 | the pick rule: -1 when no entry is within the bound; otherwise an entry within it that is strictly nearer than every earlier entry and no farther than any later one |
| Paths.NearestUnique | Path.cpp:404-417 | the nearest-within-radius result is unique: ties go to the earliest candidate |
| Paths.NearestFound | Path.cpp:367-391 | a search finds nothing exactly when no entry is within the radius, and otherwise finds one of the entries scanned |
| Paths.NearestStep | Path.cpp:409-416 | taking a candidate when it is inside the radius and strictly nearer than the best so far keeps the nearest-within-radius result over one more entry |
| Paths.ViewDistSq | Path.cpp:373-377 | the squared screen distance from the cursor to a model point's screen position; never negative, and zero exactly when the point is drawn at the cursor |
| Paths.SampleDists | Path.cpp:406-408 | entry k is the squared screen distance to sample k |
| Paths.ScanDists | Path.cpp:373-377 | entry k is the squared screen distance to the sample of the k-th point visited, up to and including the first STOPTRACE point |
| Paths.Path.constructor | Path.cpp:7-13 | a new path has no orbitee and no acceleration points, and a fresh 900-sample buffer |
| Paths.Path.GravForPoint | Path.cpp:151-165 | the vector which, added to the reference point, reaches the orbitee; the reference is the start position for index 0 and the previous sample otherwise |
| Paths.Path.GetStopPoint | Path.cpp:327-340 | returns StopIndex of the list, which is a sample index |
| Paths.Path.GetThrustForPoint | Path.cpp:422-466 | zero with no points; otherwise the direction to the orbitee rotated by the active point's angle, at its magnitude |
| Paths.Path.IsRedirectStep | Path.cpp:515-530 | true exactly when the first point with index i is a REDIRECT point |
| Paths.Path.Advance | Path.cpp:490-540 | one integrator step from the state after sample i-1 equals the trajectory's Step, including the halting test |
| Paths.Path.RecordSample | Path.cpp:484-546 | after recording sample i the loop state is StateAt(i), samples 0..i are the trajectory's, and later slots are untouched |
| Paths.Path.Integrate | Path.cpp:480-547 | samples up to the stop index are the trajectory's samples; slots past it are untouched |
| Paths.Path.CalcPoints | Path.cpp:468-548 | the buffer holds exactly the trajectory's samples 0..StopIndex, and nothing past the stop index is written |
| Paths.Path.FindSlot | Path.cpp:173-189 | returns the insertion position, and whether a point already sits at the index, with that point at the position |
| Paths.Path.InsertAt | Path.cpp:219 | the list gains the point at the given position, its values are Insert of the old values, and it stays valid |
| Paths.Path.ThrustSetting | Path.cpp:196-213 | the magnitude of the thrust in effect at the sample, and its angle relative to the direction toward the orbitee |
| Paths.Path.AddPoint | Path.cpp:192-220 | a fresh NORMAL point at the index is inserted in sorted position, carrying the thrust setting in effect there when the list was not empty |
| Paths.Path.CreateAccelerationPoint | Path.cpp:167-221 | null exactly off the sample range; the existing point when the index is occupied; otherwise a fresh NORMAL point at its sorted place with the current thrust setting; the list stays strictly ascending |
| Paths.Path.Save | Path.cpp:66-85 | writes the start position and velocity, the number of points, and each point's index, kind, angle and magnitude in list order: exactly Encode of the path |
| Paths.Path.InitNoAcc | Path.cpp:33-44 | sets the orbitee and start state, keeps the points, and recomputes the samples |
| Paths.Path.InitNoAccFromOrbit | Path.cpp:46-64 | the start state is the orbit's position and velocity at polar angle -pi/2 - angle; the orbitee is set, the points kept, and the samples recomputed |
| Paths.Path.SetBaseline | Path.cpp:25-28 | the first point becomes NORMAL at sample 0, a quarter turn from the orbitee direction, at full thrust; the rest are unchanged |
| Paths.Path.AddBaseline | Path.cpp:24-28 | a path with no points, or only its baseline point, ends up with just the baseline point |
| Paths.Path.Init | Path.cpp:19-31 | the path starts at the given state; the first point becomes the baseline point and the old later points stay (so a fresh or baseline-only path ends with exactly the baseline point); its samples are the trajectory's |
| Paths.Path.RemoveAccelerationPoint | Path.cpp:117-124 | the point at sample 0 and absent points leave the list as it was; any other point is cut out, the rest keeping their order and the list staying valid |
| Paths.Path.AdjustAccelerationPoint | Path.cpp:126-149 | the point's angle becomes the signed angle from the orbitee direction to the screen vector from its sample to (mx, my); its magnitude becomes newMag; its index and type are kept |
| Paths.Path.ScanSample | Path.cpp:406-416 | one pass keeps the best-so-far the nearest-within-radius sample among the samples seen |
| Paths.Path.GetNearestPointIdx | Path.cpp:394-420 | -1 when no sample up to the stop index is within the pick radius; otherwise the nearest such sample, the earliest on ties |
| Paths.Path.ScanAccelPoint | Path.cpp:372-388 | one pass keeps the best-so-far the nearest-within-radius point among the points seen |
| Paths.Path.ScanAccelPoints | Path.cpp:367-391 | the scan's result is the nearest-within-radius point among those visited up to the first STOPTRACE point |
| Paths.Path.GetNearestAccelPoint | Path.cpp:361-392 | null when no point visited (up to the first STOPTRACE) is within the pick radius; otherwise the nearest such point, the earliest on ties |
| Persistence.PointsTokens | Path.cpp:75-84 | four fields per point, in list order |
| Persistence.PointsTokensAppend | Path.cpp:75-84 | writing one more point appends its four fields to what was written |
| Persistence.Encode | Path.cpp:66-85 | the saved stream: two vectors, the count, then 4 tokens per point, 5 + 4n tokens in all |
| Persistence.ReadPoint | Path.cpp:105-113 | one point's index, kind, angle and magnitude, read when its four tokens are there |
| Persistence.ReadPoints | Path.cpp:104-114 | n points read in order from a position, one after the other |
| Persistence.ReadPointsTokens | Path.cpp:104-114 | reading the fields written for a list gives the list back, whatever follows them |
| Persistence.Decode | Path.cpp:87-115 | what a load reads: the two vectors, the count, then that many points; None when the stream ends early or holds the wrong kind of value |
| Persistence.DecodeEncode | Path.cpp:66-115 | load after save: the start position, start velocity and point list come back exactly |
| Persistence.ReadPointsFails | Path.cpp:104-114 | a point that cannot be read makes the whole read fail |
| Persistence.ReadPointsSplit | Path.cpp:104-114 | reading i + 1 points is reading i points and appending the next one, as the load loop's push_back does |
| Persistence.Load | Path.cpp:87-115 | the load loop reads the stream exactly as Decode does: the two vectors, the count (a negative count reads nothing), then that many points |
| Orbits.Near | OBEngine.cpp:523-528 | fnear: the two values differ by strictly less than the slop |
| Orbits.QuarterColor | Orbit.cpp:60-72 | each red, green and blue channel is the object's channel divided by 4, so at most 63 |
| Orbits.ApsidesRoundTrip | Orbit.cpp:220-230 | with a = (ap+pe)/2 and e = (ap-pe)/(ap+pe), a(1+e) and a(1-e) give back apogee and perigee |
| Orbits.ApsidesEccentricity | Orbit.cpp:84-88 | the apsis-derived eccentricity passes the e <= 1 test exactly when the perigee distance is not negative |
| Orbits.EnergyRoundTrip | Orbit.cpp:118 | the energy -u/2a of the axis a = -u/2E derived from an energy E gives back E |
| Orbits.AxisSign | Orbit.cpp:168 | the axis derived from a negative energy is positive exactly when sgp is |
| Orbits.DenominatorPositive | Orbit.cpp:377 | for -1 < e < 1 the radius denominator 1 - e cos is positive |
| Orbits.PolarRadius | Orbit.cpp:376-378 | no finite radius exactly when e cos = 1; otherwise r (1 - e cos) = a (1 - e^2) |
| Orbits.Consistent | Orbit.cpp:95-126 | the element relations init establishes: a > 0, f1 at the origin, f = ea, b = sqrt(a^2 - f^2), the centre and f2 along w, energy -u/2a, apogee a+f, perigee a-f, area pi a b |
| Orbits.Radius | Orbit.cpp:370-380 | 0 for an invalid orbit |
| Orbits.PolarRadiusPositive | Orbit.cpp:376-378 | with a > 0 and -1 < e < 1 the radius exists and is positive |
| Orbits.PolarRadiusApsis | Orbit.cpp:376-378 | at cos = 1 the radius is a(1+e) |
| Orbits.RadiusCircular | Orbit.cpp:370-380 | a circular orbit has radius a at every angle |
| Orbits.RadiusPositive | Orbit.cpp:370-380 | a valid elliptic orbit has a positive radius at every angle |
| Orbits.RadiusAtApogee | Orbit.cpp:370-380 | at the major-axis angle w the radius is the stored apogee distance |
| Orbits.HalfCapacity | Orbit.cpp:248 | the slot count of each half buffer, int(2a/xStep) + 2, at least 2 for a non-negative axis |
| Orbits.SweepX | Orbit.cpp:267-315 | the sweep starts at -a and never passes a |
| Orbits.SweepFits | Orbit.cpp:248-277 | a step still short of a fits the int(2a/xStep)+2 slots of each half, so the overflow guard never fires |
| Orbits.SweepNext | Orbit.cpp:304-315 | after a step short of a, the next x is the previous plus xStep, capped at a |
| Orbits.RimY | Orbit.cpp:270-272 | the y of the outline's upper half at x, sqrt(b^2 (1 - x^2/a^2)) |
| Orbits.RimPoint | Orbit.cpp:279-291 | the screen position of an outline point given in the ellipse's own frame: rotated by w, moved to the centre, mapped to the view |
| Orbits.Upper | Orbit.cpp:270-291 | the upper-half outline point of sweep step k |
| Orbits.Lower | Orbit.cpp:293-299 | the lower-half outline point of sweep step k |
| Orbits.SweepHalves | Orbit.cpp:256-316 | both halves are filled with the upper and lower outline points of every step, stopping at the first step that reaches a |
| Orbits.PlotStep | Orbit.cpp:270-302 | slot i of each half gets that step's upper or lower outline point and nothing else changes |
| Orbits.Assemble | Orbit.cpp:318-342 | the buffer gets the first half in order followed by the second half reversed, 2·halfPos points |
| Orbits.CopyPoints | Orbit.cpp:49-56 | a fresh array holding the first n points of the source |
| Orbits.SectorArea | Orbit.cpp:463-466 | the area r^2 dtheta / 2 of one sweep step's sector, never negative |
| Orbits.SweepTerm | Orbit.cpp:459-467 | one sweep step's absolute difference of the two orbits' sector areas, None where a radius is not finite |
| Orbits.SweptDeviance | Orbit.cpp:456-469 | the running deviance sum after k sweep steps |
| Orbits.SweepStepCount | Orbit.cpp:454-457 | the angle loop runs exactly 1440 times, each step adding a quarter degree |
| Orbits.SweptDevianceNonNegative | Orbit.cpp:456-469 | the swept deviance is never negative |
| Orbits.SweptDevianceSelf | Orbit.cpp:456-469 | an orbit's swept deviance from itself is zero |
| Orbits.SweptDevianceSymmetric | Orbit.cpp:456-469 | the swept sum is the same with the two orbits exchanged, since each step takes the absolute difference of the two sector areas |
| Orbits.DevianceSymmetric | Orbit.cpp:436-472 | between two valid, consistent orbits with e >= 0, the deviance of each from the other is the same: at most one containment test can hold, and it gives the same area difference from either side |
| Orbits.DevianceSelf | Orbit.cpp:436-472 | a valid, consistent orbit with e >= 0 deviates from itself by 0: neither containment test holds, and every swept step adds 0 |
| Orbits.ContainedAreaSmaller | Orbit.cpp:440-450 | when one consistent ellipse (0 <= e <= 1) has its apogee inside the other's perigee, its area pi a b is at most the other's, so the containment branch's difference is not negative |
| Orbits.DevianceNonNegative | Orbit.cpp:436-472 | the deviance of a valid orbit from another is never negative when both are consistent with 0 <= e <= 1: the containment branches give the outer area less the inner one, and the swept sum adds absolute differences |
| Orbits.Orbit.constructor | Orbit.cpp:7-13 | a new orbit is invalid with no outline and the default grey colour 0x7f7f7f |
| Orbits.Orbit.Set | Orbit.cpp:20-58 | copies the elements, validity and colour, and gives the orbit its own copy of the other's outline, or none |
| Orbits.Orbit.SetColorFromObjectColor | Orbit.cpp:60-72 | the colour becomes the object colour with each channel quartered; nothing else changes |
| Orbits.Orbit.GetR | Orbit.cpp:370-380 | 0 for an invalid orbit; a at every angle for a circular one; positive at every angle for a valid ellipse; the apogee distance at the major-axis angle w |
| Orbits.Orbit.GetPos | Orbit.cpp:427-434 | the point at angle theta has length GetR, and exists exactly when the radius does |
| Orbits.VisViva | Orbit.cpp:392-394 | with energy -u/2a, the squared speed 2(E + u/r) is u(2/r - 1/a) |
| Orbits.Orbit.GetVel | Orbit.cpp:382-425 | exists exactly when the position exists and is off f1; its length is the vis-viva speed sqrt(2(E + u/r)) |
| Orbits.Orbit.GetVelVisViva | Orbit.cpp:390-395 | on a consistent orbit the squared speed 2(E + u/r) of GetVel is u(2/r - 1/a) |
| Orbits.Orbit.CalcDrawPoints | Orbit.cpp:236-347 | a valid orbit gets a fresh outline: the upper half from -a to a in two-pixel steps, then the lower half back; an invalid one keeps its buffer |
| Orbits.Orbit.Init | Orbit.cpp:79-130 | valid exactly when not (e > 1 or a <= 0); when valid, f = ea, b = sqrt(a^2 - f^2), the centre and f2 lie along w, energy -u/2a, apogee a+f, perigee a-f, area pi a b, and the outline is drawn; otherwise only the flag changes |
| Orbits.Orbit.InitPV | Orbit.cpp:132-201 | invalid at zero distance or non-negative energy v^2/2 - u/r; otherwise a = -u/2E, w is the angle of the computed second focus f2, e is half its length over a (where a is not 0), and the orbit is valid exactly when that e <= 1 and sgp > 0; a rejected orbit keeps every element it had except those stored before the rejection (f1 and u; then the energy; then a, f2, its angle w, half its length f, and e) |
| Orbits.Orbit.InitBound | Orbit.cpp:166-200 | a = -u/2E; w is the angle of the computed second focus f2 and e is half its length over a (where a is not 0), whether or not the orbit is accepted; valid exactly when that e <= 1 and sgp > 0; a valid orbit keeps u = sgp and the computed energy; a rejected orbit stores only a, f2 (at distance 2a - r from the orbiter, turned from the velocity by pi minus the angle from the velocity to the direction toward f1), its angle w, half its length f, and e |
| Orbits.Orbit.InitAP | Orbit.cpp:203-234 | vectors more than 0.01 rad away from opposition leave the orbit invalid and its elements untouched; otherwise apogee and perigee are their lengths, a is their mean, w is the apogee angle, e = (ap - pe)/(ap + pe) where ap + pe is not 0, and the orbit is valid exactly when ap + pe > 0 and pe >= 0, with u = sgp and energy -sgp/2a; when opposed but rejected, every other element keeps its old value |
| Orbits.Orbit.AddSector | Orbit.cpp:458-468 | adding one step's sector-area difference advances the running sum by one sweep step |
| Orbits.Orbit.CalcDeviance | Orbit.cpp:436-472 | 0 for an invalid orbit; the area difference when either orbit lies wholly inside the other by apsides; otherwise the 1440-step swept deviance; in all, the `Deviance` of the two orbits' states, so DevianceSymmetric, DevianceSelf and DevianceNonNegative apply to its result |

## Left out

- Drawing is not part of this model: `drawSelf`, `drawProgressivePath` and
  `drawThrustLine` produce graphics only.
- `Path::load` as a path operation is not modelled; only its reading of the stream
  is (`Persistence.Load`). It replaces the list with the indices and kinds found in
  the file, unsorted and unchecked, and then recomputes the samples. It is the one
  source path that can break `Valid` (ascending order, the sample range, the
  baseline at 0), and with a first point past sample 1 the recomputation steps an
  iterator back from the start of the list. The model covers only lists built by
  `createAccelerationPoint` and `init`.
- The data stream's reader and writer are not part of this model. A vector is taken
  to be written as its x and then its y, and a read past the end or of the wrong kind
  of value gives `None`.
- Orbits.Orbit.GetVel: its direction is stated only as the function's own
  construction (a quarter turn past the bisector of the directions toward the two
  foci). No law of the angle operations is assumed, so the model does not prove it
  tangent to the ellipse.
- Paths.Path.InitNoAccFromOrbit: it takes the orbiter's orbit and orbitee as two
  parameters, since the object record that holds them (OBObject.h) is not part of this
  model.
  - It requires the velocity at that angle to exist. That excludes a radius with a
    zero denominator, or a position on f1, where the source goes on with infinite or
    NaN values.
  - The colour and size it copies are display fields, which are not modelled.
- The engine is left out; the view and the orbitee are parameters. The engine supplies
  the model-to-screen maps, the km-per-pixel scale and the orbitee's position and
  gravitational parameter. The scale is assumed positive.
- Display-only fields are not modelled: the path's colour and size, and the engine
  pointers.
- The model does not release heap memory. The `delete` of a removed point and of the
  old outline buffers has no counterpart.
- The model uses exact reals, not IEEE doubles.
  - Rounding is not modelled. The outline sweep stops when x reaches a exactly, and the
    deviance loop runs its 1440 steps exactly; with doubles, accumulated rounding can
    change the number of steps.
  - Infinities and NaN are not modelled: a radius whose denominator is zero is
    `None`, and a swept deviance that meets one is `None`.
- Orbits.Orbit.InitPV: when a = 0, it stores e = 0 where the source divides to get an
  infinite or NaN eccentricity. The orbit is rejected either way. The contract gives
  the stored e only where a is not 0.
- Orbits.Orbit.InitBound: the same as for InitPV. When a = 0 it stores e = 0, where
  the source stores an infinite or NaN eccentricity, and the contract gives the
  stored e only where a is not 0.
- Orbits.Orbit.CalcDeviance: the deviance is symmetric only between two valid orbits
  with e >= 0 (DevianceSymmetric). The source's is not symmetric otherwise, and the
  model keeps that.
  - Only the receiver's validity is tested. An invalid orbit's deviance from a valid
    one is 0.
  - The valid one's deviance from the invalid one sweeps against a radius of 0. The
    exception is when the invalid orbit's stored apsides pass a containment test.
    Then the result is the area difference, using the invalid orbit's stored area.
  - A rejected re-init keeps the old apsides and area.
  - When e < 0 both containment tests can hold, and the two calls then return areas
    of opposite sign.
  - Non-negativity (DevianceNonNegative) is proved only for two valid, consistent
    orbits with 0 <= e <= 1.
- Orbits.Orbit.InitAP: when ap + pe = 0, it stores e = 0 where the source divides 0 by
  0. The orbit is rejected either way. The contract gives e only where ap + pe is not
  0.
- Trajectory.GravImpulseLength: a zero distance to the orbitee gives a zero impulse,
  where the source divides by zero.
- The `int` arithmetic of screen distances and of `int(2a/xStep)` is modelled without
  32-bit overflow.
- Paths.Path.GetThrustForPoint: it requires the first point's index to be at most the
  sample's, because the source steps an iterator back from the beginning of the list
  otherwise. The same requirement carries over to its callers:
  - CreateAccelerationPoint;
  - CalcPoints (the first point must be at sample 0 or 1);
  - Init (the list must be empty or start with the baseline point).
- Orbits.Orbit.Set: it requires the other orbit to be a different object. Copying an
  orbit onto itself frees its outline before reading it.
- Orbits.Radius: its own contract covers only the invalid case. The valid case is
  stated by PolarRadius and by the radius lemmas.
