/** The saved form of a path: the start position, the start velocity, the number of
    acceleration points, and then each point's index, kind, angle and magnitude, in
    list order.  A vector is written as its x and then its y.  `Paths.Path.Save`
    writes this token sequence, `Load` reads it back, and `DecodeEncode` proves that
    reading back what was written gives the same start state and the same list. */
module Persistence {
  import opened Geometry
  import opened Schedule

  /** One value of the data stream: an int or a double. */
  datatype Token = IntToken(i: int) | RealToken(r: real)

  /** What a load recovers: the start state and the acceleration points. */
  datatype Saved = Saved(startPos: Vec, startVel: Vec, points: seq<Accel>)

  function VecTokens(v: Vec): seq<Token>
  {
    [RealToken(v.x), RealToken(v.y)]
  }

  /** The four fields of one point, in the order they are written. */
  function PointTokens(a: Accel): (t: seq<Token>)
    ensures |t| == 4
  {
    [IntToken(a.idx), IntToken(a.kind), RealToken(a.angle), RealToken(a.mag)]
  }

  /** The fields of every point, in list order. */
  function PointsTokens(s: seq<Accel>): (t: seq<Token>)
    ensures |t| == 4 * |s|
  {
    if s == [] then [] else PointTokens(s[0]) + PointsTokens(s[1..])
  }

  /** Writing one more point appends its four fields. */
  lemma {:induction false} PointsTokensAppend(s: seq<Accel>, a: Accel)
    ensures PointsTokens(s + [a]) == PointsTokens(s) + PointTokens(a)
  {
    if s != [] {
      assert (s + [a])[1..] == s[1..] + [a];
      PointsTokensAppend(s[1..], a);
    }
  }

  /** The whole saved form of a path. */
  function Encode(startPos: Vec, startVel: Vec, s: seq<Accel>): (t: seq<Token>)
    ensures |t| == 5 + 4 * |s|
  {
    VecTokens(startPos) + VecTokens(startVel) + [IntToken(|s|)] + PointsTokens(s)
  }

  /** Reads a vector at position k, if two doubles are there. */
  function ReadVec(t: seq<Token>, k: nat): Option<Vec>
  {
    if k + 2 <= |t| && t[k].RealToken? && t[k + 1].RealToken? then Some(Vec(t[k].r, t[k + 1].r))
    else None
  }

  /** Reads one point at position k, if its two ints and two doubles are there. */
  function ReadPoint(t: seq<Token>, k: nat): (r: Option<Accel>)
    ensures r.Some? ==> k + 4 <= |t|
  {
    if k + 4 <= |t| && t[k].IntToken? && t[k + 1].IntToken? && t[k + 2].RealToken? && t[k + 3].RealToken?
    then Some(Accel(t[k].i, t[k + 1].i, t[k + 2].r, t[k + 3].r))
    else None
  }

  /** Reads n points starting at position k, appending them in the order read. */
  function ReadPoints(t: seq<Token>, k: nat, n: nat): (r: Option<seq<Accel>>)
    ensures r.Some? ==> |r.value| == n
    ensures n > 0 && r.Some? ==> k + 4 * n <= |t|
    decreases n
  {
    if n == 0 then Some([])
    else
      match ReadPoint(t, k)
      case None => None
      case Some(a) =>
        match ReadPoints(t, k + 4, n - 1)
        case None => None
        case Some(rest) => Some([a] + rest)
  }

  /** Reading a stream: the two vectors, the count, then that many points.  A negative
      count reads no points, as a loop counting up to it does; a stream that ends
      early or holds the wrong kind of value gives None.  Whatever follows the points
      is not read. */
  function Decode(t: seq<Token>): Option<Saved>
  {
    match (ReadVec(t, 0), ReadVec(t, 2))
    case (Some(p), Some(v)) =>
      if 4 < |t| && t[4].IntToken? then
        var n := if t[4].i < 0 then 0 else t[4].i;
        match ReadPoints(t, 5, n)
        case None => None
        case Some(s) => Some(Saved(p, v, s))
      else None
    case _ => None
  }

  /** Reading the fields of s from position k gives s back, whatever follows them. */
  lemma {:induction false} ReadPointsTokens(t: seq<Token>, k: nat, s: seq<Accel>)
    requires k + 4 * |s| <= |t| && t[k..k + 4 * |s|] == PointsTokens(s)
    ensures ReadPoints(t, k, |s|) == Some(s)
    decreases |s|
  {
    if s != [] {
      var w := t[k..k + 4 * |s|];
      assert w[..4] == PointTokens(s[0]);
      assert t[k..k + 4] == w[..4];
      assert t[k + 4..k + 4 + 4 * |s[1..]|] == w[4..];
      ReadPointsTokens(t, k + 4, s[1..]);
      assert [s[0]] + s[1..] == s;
    }
  }

  /** Load after save: the start state and the point list come back exactly. */
  lemma DecodeEncode(startPos: Vec, startVel: Vec, s: seq<Accel>)
    ensures Decode(Encode(startPos, startVel, s)) == Some(Saved(startPos, startVel, s))
  {
    var t := Encode(startPos, startVel, s);
    assert t[5..5 + 4 * |s|] == PointsTokens(s);
    ReadPointsTokens(t, 5, s);
  }

  /** The load loop: reads the start state and the count, then that many points,
      appending each to the list.  It reads the stream as `Decode` does. */
  method Load(t: seq<Token>) returns (r: Option<Saved>)
    ensures r == Decode(t)
  {
    var pos := ReadVec(t, 0);
    var vel := ReadVec(t, 2);
    if pos.None? || vel.None? || |t| <= 4 || !t[4].IntToken? {
      return None;
    }
    var count := t[4].i;
    var n: nat := if count < 0 then 0 else count;
    var points: seq<Accel> := [];
    var i := 0;
    while i < n
      invariant 0 <= i <= n
      invariant ReadPoints(t, 5, i) == Some(points)
    {
      var ap := ReadPoint(t, 5 + 4 * i);
      if ap.None? {
        ReadPointsFails(t, 5, i, n);
        return None;
      }
      ReadPointsSplit(t, 5, i);
      points := points + [ap.value];
      i := i + 1;
    }
    return Some(Saved(pos.value, vel.value, points));
  }

  /** When point i cannot be read, reading any n > i points fails. */
  lemma {:induction false} ReadPointsFails(t: seq<Token>, k: nat, i: nat, n: nat)
    requires i < n && ReadPoint(t, k + 4 * i).None?
    ensures ReadPoints(t, k, n).None?
    decreases i
  {
    if i > 0 {
      ReadPointsFails(t, k + 4, i - 1, n - 1);
      assert k + 4 + 4 * (i - 1) == k + 4 * i;
    }
  }

  /** Reading i + 1 points is reading i points and then one more. */
  lemma {:induction false} ReadPointsSplit(t: seq<Token>, k: nat, i: nat)
    requires ReadPoints(t, k, i).Some? && ReadPoint(t, k + 4 * i).Some?
    ensures ReadPoints(t, k, i + 1) == Some(ReadPoints(t, k, i).value + [ReadPoint(t, k + 4 * i).value])
    decreases i
  {
    var p := ReadPoint(t, k + 4 * i).value;
    if i == 0 {
      assert ReadPoints(t, k + 4, 0) == Some([]);
      assert [p] + [] == [] + [p];
    } else {
      var a := ReadPoint(t, k).value;
      var mid := ReadPoints(t, k + 4, i - 1).value;
      assert k + 4 + 4 * (i - 1) == k + 4 * i;
      ReadPointsSplit(t, k + 4, i - 1);
      assert ReadPoints(t, k + 4, i) == Some(mid + [p]);
      assert ReadPoints(t, k, i) == Some([a] + mid);
      assert [a] + (mid + [p]) == ([a] + mid) + [p];
    }
  }
}
