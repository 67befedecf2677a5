/** Points of the model and the rotation step of `drawCube`. Sines and
    cosines are not computed: each rotation takes the cosine and sine of its
    angle as a pair of reals. */
module Geometry {

  /** A model point; `f` is the face tag, meaningful only for points produced
      by the cube generator. */
  datatype Vec3f = Vec3f(x: real, y: real, z: real, f: int)

  /** Cosine and sine of one rotation angle. */
  datatype Trig = Trig(cos: real, sin: real)

  const NoTurn: Trig := Trig(1.0, 0.0)

  /** The same position, whatever the tags. */
  predicate SamePlace(p: Vec3f, q: Vec3f) {
    p.x == q.x && p.y == q.y && p.z == q.z
  }

  // Each rotation builds a fresh struct from three coordinates, so its face
  // tag is value-initialised to 0.

  function RotateOnZ(p: Vec3f, t: Trig): (r: Vec3f)
    ensures r.z == p.z && r.f == 0
    ensures t == NoTurn ==> SamePlace(r, p)
  {
    Vec3f(p.x * t.cos - p.y * t.sin, p.x * t.sin + p.y * t.cos, p.z, 0)
  }

  function RotateOnY(p: Vec3f, t: Trig): (r: Vec3f)
    ensures r.y == p.y && r.f == 0
    ensures t == NoTurn ==> SamePlace(r, p)
  {
    Vec3f(p.x * t.cos + p.z * t.sin, p.y, -p.x * t.sin + p.z * t.cos, 0)
  }

  function RotateOnX(p: Vec3f, t: Trig): (r: Vec3f)
    ensures r.x == p.x && r.f == 0
    ensures t == NoTurn ==> SamePlace(r, p)
  {
    Vec3f(p.x, p.y * t.cos - p.z * t.sin, p.y * t.sin + p.z * t.cos, 0)
  }

  /** Rotation of a world point about the cube's centre: translate to the
      centre, rotate on X, then Y, then Z, translate back. */
  function RotateAbout(p: Vec3f, center: Vec3f, ax: Trig, ay: Trig, az: Trig): (r: Vec3f)
    ensures ax == NoTurn && ay == NoTurn && az == NoTurn ==> SamePlace(r, p)
    ensures SamePlace(p, center) ==> SamePlace(r, center)
  {
    var local := Vec3f(p.x - center.x, p.y - center.y, p.z - center.z, p.f);
    var turned := RotateOnZ(RotateOnY(RotateOnX(local, ax), ay), az);
    Vec3f(turned.x + center.x, turned.y + center.y, turned.z + center.z, turned.f)
  }
}
