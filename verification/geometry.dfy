/** Vectors, the cutting plane and linear interpolation, with floats idealised
    as reals. Unity's Vector3, Vector4, Plane and Mathf.Clamp01 are modelled
    here by their documented behaviour. */
module Geometry {

  datatype Vec3 = Vec3(x: real, y: real, z: real)

  datatype Vec4 = Vec4(x: real, y: real, z: real, w: real)

  const Zero3: Vec3 := Vec3(0.0, 0.0, 0.0)
  const Zero4: Vec4 := Vec4(0.0, 0.0, 0.0, 0.0)

  function Dot(a: Vec3, b: Vec3): real
  {
    a.x * b.x + a.y * b.y + a.z * b.z
  }

  /** A plane as Unity stores it: a normal and a signed offset, so that the
      plane is the set of points p with Dot(normal, p) + distance == 0. */
  datatype Plane = Plane(normal: Vec3, distance: real)

  function SignedDistance(plane: Plane, p: Vec3): real
  {
    Dot(plane.normal, p) + plane.distance
  }

  /** The classification policy of the cutter: strictly positive is above,
      so a point exactly on the plane counts as below. */
  predicate IsAbove(plane: Plane, p: Vec3)
  {
    SignedDistance(plane, p) > 0.0
  }

  /** Mathf.Clamp01, which Vector3.Lerp and Vector4.Lerp apply to t. */
  function Clamp01(t: real): (r: real)
    ensures 0.0 <= r <= 1.0
    ensures 0.0 <= t <= 1.0 ==> r == t
    ensures t < 0.0 ==> r == 0.0
    ensures t > 1.0 ==> r == 1.0
  {
    if t < 0.0 then 0.0 else if t > 1.0 then 1.0 else t
  }

  function Lerp3(a: Vec3, b: Vec3, t: real): (r: Vec3)
    ensures t <= 0.0 ==> r == a
    ensures t >= 1.0 ==> r == b
  {
    var s := Clamp01(t);
    Vec3(a.x + (b.x - a.x) * s, a.y + (b.y - a.y) * s, a.z + (b.z - a.z) * s)
  }

  function Lerp4(a: Vec4, b: Vec4, t: real): (r: Vec4)
    ensures t <= 0.0 ==> r == a
    ensures t >= 1.0 ==> r == b
  {
    var s := Clamp01(t);
    Vec4(a.x + (b.x - a.x) * s, a.y + (b.y - a.y) * s,
         a.z + (b.z - a.z) * s, a.w + (b.w - a.w) * s)
  }

  /** The signed distance is affine along a segment: moving a fraction t from
      a towards b moves the distance the same fraction from d(a) towards d(b). */
  lemma DistanceAlongSegment(plane: Plane, a: Vec3, b: Vec3, t: real)
    requires 0.0 <= t <= 1.0
    ensures SignedDistance(plane, Lerp3(a, b, t))
         == SignedDistance(plane, a) + t * (SignedDistance(plane, b) - SignedDistance(plane, a))
  {
    var n := plane.normal;
    var p := Lerp3(a, b, t);
    assert p == Vec3(a.x + (b.x - a.x) * t, a.y + (b.y - a.y) * t, a.z + (b.z - a.z) * t);
    calc {
      Dot(n, p);
      n.x * (a.x + (b.x - a.x) * t) + n.y * (a.y + (b.y - a.y) * t) + n.z * (a.z + (b.z - a.z) * t);
      { assert n.x * ((b.x - a.x) * t) == t * (n.x * b.x - n.x * a.x);
        assert n.y * ((b.y - a.y) * t) == t * (n.y * b.y - n.y * a.y);
        assert n.z * ((b.z - a.z) * t) == t * (n.z * b.z - n.z * a.z); }
      Dot(n, a) + t * (Dot(n, b) - Dot(n, a));
    }
  }
}
