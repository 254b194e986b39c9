/**
 * Three-component vectors over the reals, standing in for Unity's Vector3 and for
 * the x/y/z dictionaries of the capture script. Reals make midpoints, the axis
 * flip and the smoothing filter exact; floating-point rounding is not modelled.
 */
module Geometry {
  datatype Vec3 = Vec3(x: real, y: real, z: real)

  const Origin := Vec3(0.0, 0.0, 0.0)

  function Add(a: Vec3, b: Vec3): Vec3 {
    Vec3(a.x + b.x, a.y + b.y, a.z + b.z)
  }

  function Sub(a: Vec3, b: Vec3): Vec3 {
    Vec3(a.x - b.x, a.y - b.y, a.z - b.z)
  }

  function Scale(a: Vec3, k: real): Vec3 {
    Vec3(a.x * k, a.y * k, a.z * k)
  }

  /** (a + b) / 2, component by component. */
  function Mid(a: Vec3, b: Vec3): Vec3 {
    Vec3((a.x + b.x) / 2.0, (a.y + b.y) / 2.0, (a.z + b.z) / 2.0)
  }

  function Dot(a: Vec3, b: Vec3): real {
    a.x * b.x + a.y * b.y + a.z * b.z
  }

  /** Squared Euclidean distance; the distance itself needs a square root, which the reals of Dafny lack. */
  function DistSq(a: Vec3, b: Vec3): real {
    var d := Sub(b, a);
    Dot(d, d)
  }

  /** The midpoint lies half-way along the segment: stepping half of (b - a) from it in either direction reaches the endpoints. */
  lemma MidpointSplitsSegment(a: Vec3, b: Vec3)
    ensures Sub(Mid(a, b), Scale(Sub(b, a), 0.5)) == a
    ensures Add(Mid(a, b), Scale(Sub(b, a), 0.5)) == b
  {
  }

  /** The midpoint is equidistant from both endpoints, at a quarter of the squared length. */
  lemma MidpointEquidistant(a: Vec3, b: Vec3)
    ensures DistSq(a, Mid(a, b)) == DistSq(Mid(a, b), b) == DistSq(a, b) / 4.0
  {
    var m := Mid(a, b);
    assert Sub(m, a) == Scale(Sub(b, a), 0.5);
    assert Sub(b, m) == Scale(Sub(b, a), 0.5);
    ScaledDot(Sub(b, a), 0.5);
  }

  lemma ScaledDot(d: Vec3, k: real)
    ensures Dot(Scale(d, k), Scale(d, k)) == k * k * Dot(d, d)
  {
    calc {
      Dot(Scale(d, k), Scale(d, k));
      (d.x * k) * (d.x * k) + (d.y * k) * (d.y * k) + (d.z * k) * (d.z * k);
      k * k * (d.x * d.x) + k * k * (d.y * d.y) + k * k * (d.z * d.z);
      k * k * Dot(d, d);
    }
  }
}
