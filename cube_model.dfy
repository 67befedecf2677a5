/** The point cloud of `getCubeModel`: six faces sampled in a fixed order,
    each holding one coordinate at a bound of the cube and carrying a fixed
    tag. The sample positions along each axis (float steps of 0.4) are taken
    as given sequences. */
module CubeModel {
  import opened Geometry
  import opened Screen

  /** C++ integer division by 2, which truncates toward zero. */
  function HalfTowardZero(n: int): (h: int)
    ensures -1 <= n - 2 * h <= 1
    ensures n >= 0 ==> n - 2 * h >= 0
    ensures n < 0 ==> n - 2 * h <= 0
  {
    if n >= 0 then n / 2 else -((-n) / 2)
  }

  /** The bounds of the cube around its position. */
  datatype Box = Box(xmin: real, xmax: real, ymin: real, ymax: real, zmin: real, zmax: real)

  function BoxOf(position: Vec3f, size: int): (b: Box)
    ensures b.xmin + b.xmax == 2.0 * position.x
    ensures b.ymin + b.ymax == 2.0 * position.y
    ensures b.zmin + b.zmax == 2.0 * position.z
    ensures b.xmax - b.xmin == b.ymax - b.ymin == b.zmax - b.zmin
    ensures size >= 0 ==> b.xmin <= b.xmax && size as real - 1.0 <= b.xmax - b.xmin <= size as real
    ensures size % 2 == 0 ==> b.xmax - b.xmin == size as real
  {
    var half := HalfTowardZero(size) as real;
    Box(position.x - half, position.x + half,
        position.y - half, position.y + half,
        position.z - half, position.z + half)
  }

  datatype Face = Front | Top | Bottom | Back | Right | Left

  /** The tag each face's points carry; front and top share tag 1. */
  function Tag(face: Face): int {
    match face
    case Front => 1
    case Top => 1
    case Bottom => 2
    case Back => 3
    case Right => 4
    case Left => 5
  }

  /** The point of `face` at sample `u` of its outer loop and `v` of its inner. */
  function FacePoint(face: Face, b: Box, u: real, v: real): Vec3f {
    match face
    case Front => Vec3f(u, v, b.zmin, 1)
    case Top => Vec3f(u, b.ymax, v, 1)
    case Bottom => Vec3f(u, b.ymin, v, 2)
    case Back => Vec3f(u, v, b.zmax, 3)
    case Right => Vec3f(b.xmax, u, v, 4)
    case Left => Vec3f(b.xmin, u, v, 5)
  }

  /** The point lies in the plane of `face` and carries its tag. */
  predicate OnFace(p: Vec3f, face: Face, b: Box) {
    && p.f == Tag(face)
    && match face
       case Front => p.z == b.zmin
       case Top => p.y == b.ymax
       case Bottom => p.y == b.ymin
       case Back => p.z == b.zmax
       case Right => p.x == b.xmax
       case Left => p.x == b.xmin
  }

  /** The points of one pass of the inner loop. */
  function Row(face: Face, b: Box, u: real, vs: seq<real>): (r: seq<Vec3f>)
    ensures |r| == |vs|
  {
    seq(|vs|, j requires 0 <= j < |vs| => FacePoint(face, b, u, vs[j]))
  }

  /** The points of one face: the rows for `us` in order. */
  function Grid(face: Face, b: Box, us: seq<real>, vs: seq<real>): seq<Vec3f>
    decreases |us|
  {
    if |us| == 0 then []
    else Grid(face, b, us[..|us| - 1], vs) + Row(face, b, us[|us| - 1], vs)
  }

  /** Every point of a face lies on the face and carries its tag. */
  lemma {:induction false} GridOnFace(face: Face, b: Box, us: seq<real>, vs: seq<real>)
    ensures forall p :: p in Grid(face, b, us, vs) ==> OnFace(p, face, b)
    decreases |us|
  {
    if |us| > 0 {
      GridOnFace(face, b, us[..|us| - 1], vs);
    }
  }

  lemma {:induction false} GridLength(face: Face, b: Box, us: seq<real>, vs: seq<real>)
    ensures |Grid(face, b, us, vs)| == |us| * |vs|
    decreases |us|
  {
    if |us| > 0 {
      GridLength(face, b, us[..|us| - 1], vs);
      assert (|us| - 1) * |vs| + |vs| == |us| * |vs|;
    }
  }

  /** The points of a face are emitted outer sample major. */
  lemma {:induction false} GridAt(face: Face, b: Box, us: seq<real>, vs: seq<real>, i: nat, j: nat)
    requires i < |us| && j < |vs|
    ensures i * |vs| + j < |Grid(face, b, us, vs)|
    ensures Grid(face, b, us, vs)[i * |vs| + j] == FacePoint(face, b, us[i], vs[j])
    decreases |us|
  {
    var n := |us| - 1;
    var init := us[..n];
    GridLength(face, b, init, vs);
    var m := |vs|;
    assert Grid(face, b, us, vs) == Grid(face, b, init, vs) + Row(face, b, us[n], vs);
    if i < n {
      GridAt(face, b, init, vs, i, j);
      assert i * m + j < n * m by {
        assert i * m <= (n - 1) * m;
        assert (n - 1) * m + m == n * m;
      }
    } else {
      assert i * m + j == n * m + j;
    }
  }

  /** The whole cloud of a cube: front, top, bottom, back, right, left. */
  function Model(b: Box, xs: seq<real>, ys: seq<real>, zs: seq<real>): seq<Vec3f> {
    Grid(Front, b, xs, ys) + Grid(Top, b, xs, zs) + Grid(Bottom, b, xs, zs)
    + Grid(Back, b, xs, ys) + Grid(Right, b, ys, zs) + Grid(Left, b, ys, zs)
  }

  lemma ModelLength(b: Box, xs: seq<real>, ys: seq<real>, zs: seq<real>)
    ensures |Model(b, xs, ys, zs)| == 2 * (|xs| * |ys|) + 2 * (|xs| * |zs|) + 2 * (|ys| * |zs|)
  {
    GridLength(Front, b, xs, ys);
    GridLength(Top, b, xs, zs);
    GridLength(Bottom, b, xs, zs);
    GridLength(Back, b, xs, ys);
    GridLength(Right, b, ys, zs);
    GridLength(Left, b, ys, zs);
  }

  /** The tag a point carries names a plane the point lies on. */
  predicate TagMatchesPlane(p: Vec3f, b: Box) {
    && 1 <= p.f <= 5
    && (p.f == 1 ==> p.z == b.zmin || p.y == b.ymax)
    && (p.f == 2 ==> p.y == b.ymin)
    && (p.f == 3 ==> p.z == b.zmax)
    && (p.f == 4 ==> p.x == b.xmax)
    && (p.f == 5 ==> p.x == b.xmin)
  }

  /** Every point of the cloud carries a tag in 1..5 that names the plane it
      lies on, so glyph 0 ('/') is never selected for it. */
  lemma ModelTags(b: Box, xs: seq<real>, ys: seq<real>, zs: seq<real>)
    ensures forall p :: p in Model(b, xs, ys, zs) ==> TagMatchesPlane(p, b) && Symbols[p.f] != Symbols[0]
  {
    GridOnFace(Front, b, xs, ys);
    GridOnFace(Top, b, xs, zs);
    GridOnFace(Bottom, b, xs, zs);
    GridOnFace(Back, b, xs, ys);
    GridOnFace(Right, b, ys, zs);
    GridOnFace(Left, b, ys, zs);
  }

  /** The two nested loops of one face, appending to the cloud. */
  method AppendFace(points: seq<Vec3f>, face: Face, b: Box, us: seq<real>, vs: seq<real>)
    returns (r: seq<Vec3f>)
    ensures r == points + Grid(face, b, us, vs)
  {
    r := points;
    var i := 0;
    while i < |us|
      invariant 0 <= i <= |us|
      invariant r == points + Grid(face, b, us[..i], vs)
    {
      var j := 0;
      while j < |vs|
        invariant 0 <= j <= |vs|
        invariant r == points + Grid(face, b, us[..i], vs) + Row(face, b, us[i], vs[..j])
      {
        assert Row(face, b, us[i], vs[..j + 1]) == Row(face, b, us[i], vs[..j]) + [FacePoint(face, b, us[i], vs[j])];
        r := r + [FacePoint(face, b, us[i], vs[j])];
        j := j + 1;
      }
      assert vs[..j] == vs;
      assert us[..i + 1][..i] == us[..i];
      i := i + 1;
    }
    assert us[..i] == us;
  }

  /** `getCubeModel` for a cube at `position` with edge `size`, given the
      samples its loops take along each axis. */
  method GetCubeModel(position: Vec3f, size: int, xs: seq<real>, ys: seq<real>, zs: seq<real>)
    returns (points: seq<Vec3f>)
    ensures points == Model(BoxOf(position, size), xs, ys, zs)
    ensures |points| == 2 * (|xs| * |ys|) + 2 * (|xs| * |zs|) + 2 * (|ys| * |zs|)
    ensures forall p :: p in points ==> TagMatchesPlane(p, BoxOf(position, size))
  {
    var b := BoxOf(position, size);
    points := [];
    points := AppendFace(points, Front, b, xs, ys);
    points := AppendFace(points, Top, b, xs, zs);
    points := AppendFace(points, Bottom, b, xs, zs);
    points := AppendFace(points, Back, b, xs, ys);
    points := AppendFace(points, Right, b, ys, zs);
    points := AppendFace(points, Left, b, ys, zs);
    ModelLength(b, xs, ys, zs);
    ModelTags(b, xs, ys, zs);
  }
}
