/** Planar vectors and the vector library both components rely on.

    Every vector operation the source performs goes through a double-precision vector
    library that is not part of this model: sum, difference, scalar multiple, length,
    squared length, angle, rotation, polar construction, signed angle difference,
    distance, and the scalar square root and cosine.  They are supplied as function
    values in a `Geometry` record, so every result of the model is stated for whatever
    implementation of them the caller provides, with the laws it relies on spelled out
    in `Lawful`. */
module Geometry {

  /** The simulator's value of pi and two pi. */
  const PI: real := 3.1415926535
  const TWOPI: real := 6.2831853071

  /** A value that may be absent: a failed read, or a quotient with no finite value. */
  datatype Option<T> = None | Some(value: T)

  /** A Cartesian 2-D vector in model units (km). */
  datatype Vec = Vec(x: real, y: real)

  const Origin: Vec := Vec(0.0, 0.0)

  /** The primitives of the vector library, left uninterpreted.
      - add: addVector
      - sub: subtractVector (first minus second)
      - scale: scalarMultiply
      - length: getLength
      - lengthSq: getLengthSq
      - angle: getAngle
      - rotate: rotate by an angle
      - setLength: keep the direction, change the length
      - polar: setRTheta(r, theta)
      - angleDiff: signed angle needed to go from the first angle to the second
      - distance: getDistance between two points */
  datatype Geometry = Geometry(
    add: (Vec, Vec) -> Vec,
    sub: (Vec, Vec) -> Vec,
    scale: (Vec, real) -> Vec,
    length: Vec -> real,
    lengthSq: Vec -> real,
    angle: Vec -> real,
    rotate: (Vec, real) -> Vec,
    setLength: (Vec, real) -> Vec,
    polar: (real, real) -> Vec,
    angleDiff: (real, real) -> real,
    distance: (Vec, Vec) -> real,
    sqrt: real -> real,
    cos: real -> real)

  /** The laws of the library that the model's statements use: adding back what was
      subtracted restores the vector, a polar vector of a non-negative radius has that
      length, a polar vector of a positive radius built at an angle the library
      returned has that angle again, the square root of a non-negative number is
      non-negative and grows with the number, cosine stays within [-1, 1], and the cosine of 0 is 1. */
  ghost predicate Lawful(geo: Geometry)
  {
    && (forall p: Vec, q: Vec :: geo.add(geo.sub(p, q), q) == p)
    && (forall r: real, t: real :: r >= 0.0 ==> geo.length(geo.polar(r, t)) == r)
    && (forall r: real, v: Vec :: r > 0.0 ==> geo.angle(geo.polar(r, geo.angle(v))) == geo.angle(v))
    && (forall x: real :: x >= 0.0 ==> geo.sqrt(x) >= 0.0)
    && (forall x: real, y: real :: 0.0 <= x <= y ==> geo.sqrt(x) <= geo.sqrt(y))
    && (forall t: real :: -1.0 <= geo.cos(t) <= 1.0)
    && geo.cos(0.0) == 1.0
  }

  /** The engine's mapping from model coordinates to screen pixels, and its scale. */
  datatype View = View(kmPerPixel: real, toViewX: real -> int, toViewY: real -> int)

  /** A point on the screen. */
  datatype DrawPoint = DrawPoint(viewX: int, viewY: int)

  function ToView(view: View, p: Vec): DrawPoint
  {
    DrawPoint(view.toViewX(p.x), view.toViewY(p.y))
  }
}
