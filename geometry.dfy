/** Plane geometry shared by the floor plan, the movement rule and the proximity engine. */
module Geometry {
  datatype Position = Position(x: real, y: real)

  /** Avatar diameter, the same for drawing, collision and bubble padding. */
  const AvatarSize: real := 50.0

  /** `Math.max` of two numbers. */
  function Max(a: real, b: real): (m: real)
    ensures m >= a && m >= b && (m == a || m == b)
  {
    if a >= b then a else b
  }

  /** `Math.min` of two numbers. */
  function Min(a: real, b: real): (m: real)
    ensures m <= a && m <= b && (m == a || m == b)
  {
    if a <= b then a else b
  }

  /** Squared Euclidean distance between two points. */
  function SqDist(x1: real, y1: real, x2: real, y2: real): (d: real)
    ensures d >= 0.0
  {
    (x1 - x2) * (x1 - x2) + (y1 - y2) * (y1 - y2)
  }
}
