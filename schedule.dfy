/** The maneuver list of a path, as values.

    A path keeps its acceleration points in a list that is kept sorted by sample index.
    This module holds the value view of that list (`seq<Accel>`) and the list logic the
    path's scanning loops implement: the first STOPTRACE cut-off, the insertion position,
    the "last point at or before i" lookup and the exact-index REDIRECT test.  The
    methods of `Paths.Path` are proved against these functions. */
module Schedule {
  import opened Geometry

  /** Number of samples in a path. */
  const PATH_NUM_POINTS: int := 900

  /** Acceleration point kinds, as the integer codes the source stores and saves. */
  const ACCTYPE_NORMAL: int := 0
  const ACCTYPE_REDIRECT: int := 1
  const ACCTYPE_STOPTRACE: int := 2

  /** The value of one acceleration point: the sample index where it takes effect, its
      kind, its angle relative to the direction toward the orbitee, and its magnitude. */
  datatype Accel = Accel(idx: int, kind: int, angle: real, mag: real)

  /** Strictly ascending by sample index, so no two points share an index. */
  ghost predicate Ascending(s: seq<Accel>)
  {
    forall j, k | 0 <= j < k < |s| :: s[j].idx < s[k].idx
  }

  /** Every point lies on a sample of the path. */
  ghost predicate InRange(s: seq<Accel>)
  {
    forall k | 0 <= k < |s| :: 0 <= s[k].idx < PATH_NUM_POINTS
  }

  ghost predicate Occupied(s: seq<Accel>, i: int)
  {
    exists k | 0 <= k < |s| :: s[k].idx == i
  }

  /** The permanent baseline point: the list starts with a point at sample 0. */
  ghost predicate HasBaseline(s: seq<Accel>)
  {
    |s| > 0 && s[0].idx == 0
  }

  // ---------------------------------------------------------------------------
  // The STOPTRACE cut-off

  /** Position of the first STOPTRACE point in list order, or |s| when there is none. */
  function FirstStopPos(s: seq<Accel>): (k: nat)
    ensures k <= |s|
    ensures forall j | 0 <= j < k :: s[j].kind != ACCTYPE_STOPTRACE
    ensures k < |s| ==> s[k].kind == ACCTYPE_STOPTRACE
  {
    if s == [] then 0
    else if s[0].kind == ACCTYPE_STOPTRACE then 0
    else 1 + FirstStopPos(s[1..])
  }

  /** The last sample index the path computes: the index of the first STOPTRACE point,
      or the last sample of the buffer. */
  function StopIndex(s: seq<Accel>): (r: int)
    ensures (forall k | 0 <= k < |s| :: s[k].kind != ACCTYPE_STOPTRACE) ==> r == PATH_NUM_POINTS - 1
    ensures forall k | 0 <= k < |s| && s[k].kind == ACCTYPE_STOPTRACE
                       && (forall j | 0 <= j < k :: s[j].kind != ACCTYPE_STOPTRACE) :: r == s[k].idx
    ensures InRange(s) ==> 0 <= r < PATH_NUM_POINTS
  {
    var k := FirstStopPos(s);
    if k < |s| then s[k].idx else PATH_NUM_POINTS - 1
  }

  /** Number of list positions a scan visits when it stops after the first STOPTRACE
      point (that point included). */
  function ScanEnd(s: seq<Accel>): (n: nat)
    ensures n <= |s|
    ensures forall j | 0 <= j < n - 1 :: s[j].kind != ACCTYPE_STOPTRACE
    ensures n < |s| ==> n > 0 && s[n - 1].kind == ACCTYPE_STOPTRACE
    ensures (forall j | 0 <= j < |s| :: s[j].kind != ACCTYPE_STOPTRACE) ==> n == |s|
  {
    var k := FirstStopPos(s);
    if k < |s| then k + 1 else |s|
  }

  /** A scan at a position it visits ends right after it exactly when that point is
      a STOPTRACE point or the last in the list. */
  lemma ScanEndAt(s: seq<Accel>, i: nat)
    requires i < ScanEnd(s)
    ensures ScanEnd(s) == i + 1 <==> s[i].kind == ACCTYPE_STOPTRACE || i + 1 == |s|
  {
  }

  // ---------------------------------------------------------------------------
  // Sorted insertion

  /** Where the insertion scan stops: the first position whose index is not below i. */
  function SeekPos(s: seq<Accel>, i: int): (k: nat)
    ensures k <= |s|
    ensures forall j | 0 <= j < k :: s[j].idx < i
    ensures k < |s| ==> s[k].idx >= i
  {
    if s == [] then 0
    else if s[0].idx >= i then 0
    else 1 + SeekPos(s[1..], i)
  }

  /** In an ascending list the scan stops on a point with index i exactly when i is
      already occupied. */
  lemma SeekFindsOccupied(s: seq<Accel>, i: int)
    requires Ascending(s)
    ensures Occupied(s, i) <==> SeekPos(s, i) < |s| && s[SeekPos(s, i)].idx == i
  {
    var k := SeekPos(s, i);
    if Occupied(s, i) {
      var j :| 0 <= j < |s| && s[j].idx == i;
      assert k <= j;
    }
  }

  /** The list after inserting a before the first point with a larger index. */
  function Insert(s: seq<Accel>, a: Accel): (r: seq<Accel>)
    ensures |r| == |s| + 1
  {
    var k := SeekPos(s, a.idx);
    s[..k] + [a] + s[k..]
  }

  /** Inserting a point at a free index keeps the list strictly ascending and on the
      sample range, and keeps the baseline point in front. */
  lemma InsertAscending(s: seq<Accel>, a: Accel)
    requires Ascending(s) && !Occupied(s, a.idx)
    ensures Ascending(Insert(s, a))
    ensures InRange(s) && 0 <= a.idx < PATH_NUM_POINTS ==> InRange(Insert(s, a))
    ensures HasBaseline(s) && a.idx >= 0 ==> HasBaseline(Insert(s, a)) && Insert(s, a)[0] == s[0]
  {
    var k := SeekPos(s, a.idx);
    var r := Insert(s, a);
    assert k < |s| ==> s[k].idx > a.idx by {
      if k < |s| { assert s[k].idx != a.idx; }
    }
    assert forall j | 0 <= j < |r| :: r[j] == if j < k then s[j] else if j == k then a else s[j - 1];
    if HasBaseline(s) && a.idx >= 0 {
      assert a.idx != 0;
      assert k > 0;
    }
  }

  // ---------------------------------------------------------------------------
  // Removal

  /** Removing any one point keeps the list ascending and on the sample range; removing
      a point other than the first keeps the baseline. */
  lemma RemoveAscending(s: seq<Accel>, k: nat)
    requires k < |s| && Ascending(s)
    ensures Ascending(s[..k] + s[k + 1..])
    ensures InRange(s) ==> InRange(s[..k] + s[k + 1..])
    ensures HasBaseline(s) && k > 0 ==> HasBaseline(s[..k] + s[k + 1..])
  {
    var r := s[..k] + s[k + 1..];
    assert forall j | 0 <= j < |r| :: r[j] == if j < k then s[j] else s[j + 1];
  }

  // ---------------------------------------------------------------------------
  // The thrust in effect at a sample

  /** Position of the first point whose index is above i, or |s|. */
  function FirstAbove(s: seq<Accel>, i: int): (k: nat)
    ensures k <= |s|
    ensures forall j | 0 <= j < k :: s[j].idx <= i
    ensures k < |s| ==> s[k].idx > i
  {
    if s == [] then 0
    else if s[0].idx > i then 0
    else 1 + FirstAbove(s[1..], i)
  }

  /** The point in effect at sample i: the one just before the first point with a larger
      index, or the final point when no index is larger.  The first point's index must
      not exceed i (the scan steps back from the first point otherwise). */
  function ActivePos(s: seq<Accel>, i: int): (r: nat)
    requires s != [] && s[0].idx <= i
    ensures r < |s| && s[r].idx <= i
    ensures forall j | 0 <= j <= r :: s[j].idx <= i
    ensures r + 1 < |s| ==> s[r + 1].idx > i
  {
    FirstAbove(s, i) - 1
  }

  /** In an ascending list that point is the last one whose index is at most i. */
  lemma ActiveIsLatest(s: seq<Accel>, i: int)
    requires s != [] && s[0].idx <= i && Ascending(s)
    ensures forall j | 0 <= j < |s| && s[j].idx <= i :: j <= ActivePos(s, i)
  {
    var r := ActivePos(s, i);
    assert forall j | r + 1 < j < |s| :: s[r + 1].idx < s[j].idx;
  }

  /** The thrust acceleration at sample i: zero with no points at all, otherwise the
      vector toward the orbitee rotated by the active point's angle, at its magnitude. */
  function ThrustVec(geo: Geometry, s: seq<Accel>, gravDir: Vec, i: int): (t: Vec)
    requires s == [] || s[0].idx <= i
    ensures s == [] ==> t == Origin
  {
    if s == [] then Origin
    else
      var a := s[ActivePos(s, i)];
      geo.setLength(geo.rotate(gravDir, a.angle), a.mag)
  }

  // ---------------------------------------------------------------------------
  // REDIRECT points

  /** Position of the first point whose index is exactly i, or |s|. */
  function FirstAt(s: seq<Accel>, i: int): (k: nat)
    ensures k <= |s|
    ensures forall j | 0 <= j < k :: s[j].idx != i
    ensures k < |s| ==> s[k].idx == i
  {
    if s == [] then 0
    else if s[0].idx == i then 0
    else 1 + FirstAt(s[1..], i)
  }

  /** Step i redirects the velocity when the first point at index i is a REDIRECT. */
  predicate RedirectAt(s: seq<Accel>, i: int)
  {
    FirstAt(s, i) < |s| && s[FirstAt(s, i)].kind == ACCTYPE_REDIRECT
  }

  /** A redirect fires only at the exact index of a REDIRECT point, and in an ascending
      list at every such index. */
  lemma RedirectExact(s: seq<Accel>, i: int)
    ensures RedirectAt(s, i) ==> exists k | 0 <= k < |s| :: s[k].idx == i && s[k].kind == ACCTYPE_REDIRECT
    ensures Ascending(s) && (exists k | 0 <= k < |s| :: s[k].idx == i && s[k].kind == ACCTYPE_REDIRECT)
            ==> RedirectAt(s, i)
  {
    var f := FirstAt(s, i);
    if Ascending(s) && exists k | 0 <= k < |s| :: s[k].idx == i && s[k].kind == ACCTYPE_REDIRECT {
      var k :| 0 <= k < |s| && s[k].idx == i && s[k].kind == ACCTYPE_REDIRECT;
      assert f <= k;
    }
  }
}
