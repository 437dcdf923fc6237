/**
  Points, pixels and rigid transforms as the detector handles them.  Coordinates are
  reals: float rounding is not part of this model.  A rigid transform travels as the
  16 coefficients of a row-major 4x4 homogeneous matrix.
 */
module Geometry {

  /** A float coordinate as stored in the depth image: a number or NaN. */
  datatype Float = Finite(value: real) | NaN

  /** A 3D point of the depth image (cv::Point3f); a coordinate may be NaN. */
  datatype Point3F = Point3F(x: Float, y: Float, z: Float)

  /** A 3D point with numeric coordinates (pcl::PointXYZ). */
  datatype Point3 = Point3(x: real, y: real, z: real)

  /** A keypoint position in the image, in pixels. */
  datatype Pixel = Pixel(x: real, y: real)

  datatype KeyPoint = KeyPoint(pt: Pixel)

  predicate HasNaN(p: Point3F) {
    p.x.NaN? || p.y.NaN? || p.z.NaN?
  }

  function ToPoint(p: Point3F): (q: Point3)
    requires !HasNaN(p)
    ensures p == Point3F(Finite(q.x), Finite(q.y), Finite(q.z))
  {
    Point3(p.x.value, p.y.value, p.z.value)
  }

  /** pcl::squaredEuclideanDistance */
  function SquaredDistance(p: Point3, q: Point3): real {
    (p.x - q.x) * (p.x - q.x) + (p.y - q.y) * (p.y - q.y) + (p.z - q.z) * (p.z - q.z)
  }

  /** Squared distance between two keypoints in the image. */
  function PixelSquaredDistance(a: Pixel, b: Pixel): real {
    (a.x - b.x) * (a.x - b.x) + (a.y - b.y) * (a.y - b.y)
  }

  /** a - b, NaN when either is NaN. */
  function Sub(a: Float, b: Float): (r: Float)
    ensures r.NaN? <==> a.NaN? || b.NaN?
  {
    if a.Finite? && b.Finite? then Finite(a.value - b.value) else NaN
  }

  /** std::abs */
  function Abs(a: Float): (r: Float)
    ensures r.NaN? <==> a.NaN?
    ensures r.Finite? ==> r.value >= 0.0 && (r.value == a.value || r.value == -a.value)
  {
    if a.NaN? then NaN else if a.value < 0.0 then Finite(-a.value) else a
  }

  /** std::sqrt, given the square root of a number; NaN stays NaN. */
  function Sqrt(sqrt: real -> real, a: Float): (r: Float)
    ensures r.NaN? <==> a.NaN?
  {
    if a.NaN? then NaN else Finite(sqrt(a.value))
  }

  /** a > b; false whenever a is NaN. */
  predicate Greater(a: Float, b: real) {
    a.Finite? && a.value > b
  }

  /** a < b; false whenever a is NaN. */
  predicate Less(a: Float, b: real) {
    a.Finite? && a.value < b
  }

  /** pcl::squaredEuclideanDistance on points that may carry NaN. */
  function SquaredDistanceF(p: Point3F, q: Point3F): (d: Float)
    ensures d.NaN? <==> HasNaN(p) || HasNaN(q)
    ensures d.Finite? ==> d.value == SquaredDistance(ToPoint(p), ToPoint(q)) && d.value >= 0.0
  {
    if HasNaN(p) || HasNaN(q) then NaN else Finite(SquaredDistance(ToPoint(p), ToPoint(q)))
  }

  datatype Vec3 = Vec3(x: real, y: real, z: real) {
    function At(i: nat): real
      requires i < 3
    {
      if i == 0 then x else if i == 1 then y else z
    }
  }

  /** A 3x3 matrix by rows. */
  datatype Mat3 = Mat3(row0: Vec3, row1: Vec3, row2: Vec3) {
    function Row(i: nat): Vec3
      requires i < 3
    {
      if i == 0 then row0 else if i == 1 then row1 else row2
    }

    function At(i: nat, j: nat): real
      requires i < 3 && j < 3
    {
      Row(i).At(j)
    }
  }

  /** A rotation and a translation: p maps to rot * p + trans. */
  datatype RigidTransform = RigidTransform(rot: Mat3, trans: Vec3)

  /** The row-major 4x4 homogeneous matrix of a rigid transform, as 16 coefficients:
      rotation row r at 4r..4r+2, translation component r at 4r+3, last row 0 0 0 1. */
  function Coefficients(t: RigidTransform): (c: seq<real>)
    ensures |c| == 16
    ensures forall r, k :: 0 <= r < 3 && 0 <= k < 3 ==> c[4 * r + k] == t.rot.At(r, k)
    ensures forall r :: 0 <= r < 3 ==> c[4 * r + 3] == t.trans.At(r)
    ensures c[12] == 0.0 && c[13] == 0.0 && c[14] == 0.0 && c[15] == 1.0
  {
    var R, T := t.rot, t.trans;
    [R.row0.x, R.row0.y, R.row0.z, T.x,
     R.row1.x, R.row1.y, R.row1.z, T.y,
     R.row2.x, R.row2.y, R.row2.z, T.z,
     0.0, 0.0, 0.0, 1.0]
  }

  /** The upper-left 3x3 block of a coefficient vector. */
  function RotationOf(c: seq<real>): (m: Mat3)
    requires |c| == 16
    ensures forall r, k :: 0 <= r < 3 && 0 <= k < 3 ==> m.At(r, k) == c[4 * r + k]
  {
    Mat3(Vec3(c[0], c[1], c[2]), Vec3(c[4], c[5], c[6]), Vec3(c[8], c[9], c[10]))
  }

  /** The last column, rows 0..2, of a coefficient vector. */
  function TranslationOf(c: seq<real>): (v: Vec3)
    requires |c| == 16
    ensures forall r :: 0 <= r < 3 ==> v.At(r) == c[4 * r + 3]
  {
    Vec3(c[3], c[7], c[11])
  }

  /** Rotation and translation read back from the coefficients are the ones written. */
  lemma CoefficientsRoundTrip(t: RigidTransform)
    ensures RotationOf(Coefficients(t)) == t.rot
    ensures TranslationOf(Coefficients(t)) == t.trans
  {
  }

  /** A coefficient vector whose last row is 0 0 0 1 is the layout of the rigid transform
      it holds. */
  lemma {:induction false} LayoutIsCoefficients(c: seq<real>)
    requires |c| == 16
    requires c[12] == 0.0 && c[13] == 0.0 && c[14] == 0.0 && c[15] == 1.0
    ensures Coefficients(RigidTransform(RotationOf(c), TranslationOf(c))) == c
  {
    var d := Coefficients(RigidTransform(RotationOf(c), TranslationOf(c)));
    forall i | 0 <= i < 16 ensures d[i] == c[i] {
      if i < 12 {
        var r, k := i / 4, i % 4;
        assert i == 4 * r + k;
        if k == 3 {
          assert d[4 * r + 3] == TranslationOf(c).At(r);
        } else {
          assert d[4 * r + k] == RotationOf(c).At(r, k);
        }
      }
    }
  }

  function Transpose(m: Mat3): (t: Mat3)
    ensures forall i, j :: 0 <= i < 3 && 0 <= j < 3 ==> t.At(i, j) == m.At(j, i)
  {
    Mat3(Vec3(m.row0.x, m.row1.x, m.row2.x),
         Vec3(m.row0.y, m.row1.y, m.row2.y),
         Vec3(m.row0.z, m.row1.z, m.row2.z))
  }

  function Dot(a: Vec3, b: Vec3): real {
    a.x * b.x + a.y * b.y + a.z * b.z
  }

  function MatVec(m: Mat3, v: Vec3): Vec3 {
    Vec3(Dot(m.row0, v), Dot(m.row1, v), Dot(m.row2, v))
  }

  function Negate(v: Vec3): Vec3 {
    Vec3(-v.x, -v.y, -v.z)
  }

  /** Column j of a matrix. */
  function Col(m: Mat3, j: nat): (v: Vec3)
    requires j < 3
    ensures forall i :: 0 <= i < 3 ==> v.At(i) == m.At(i, j)
  {
    Vec3(m.row0.At(j), m.row1.At(j), m.row2.At(j))
  }

  function MatMul(a: Mat3, b: Mat3): Mat3 {
    Mat3(Vec3(Dot(a.row0, Col(b, 0)), Dot(a.row0, Col(b, 1)), Dot(a.row0, Col(b, 2))),
         Vec3(Dot(a.row1, Col(b, 0)), Dot(a.row1, Col(b, 1)), Dot(a.row1, Col(b, 2))),
         Vec3(Dot(a.row2, Col(b, 0)), Dot(a.row2, Col(b, 1)), Dot(a.row2, Col(b, 2))))
  }

  function Identity(): Mat3 {
    Mat3(Vec3(1.0, 0.0, 0.0), Vec3(0.0, 1.0, 0.0), Vec3(0.0, 0.0, 1.0))
  }

  /** A rotation: its transpose is its inverse. */
  predicate Orthonormal(m: Mat3) {
    MatMul(Transpose(m), m) == Identity()
  }

  function AddVec(a: Vec3, b: Vec3): Vec3 {
    Vec3(a.x + b.x, a.y + b.y, a.z + b.z)
  }

  /** Multiplying by a matrix distributes over a sum of vectors. */
  lemma MatVecAdd(m: Mat3, a: Vec3, b: Vec3)
    ensures MatVec(m, AddVec(a, b)) == AddVec(MatVec(m, a), MatVec(m, b))
  {
  }

  /** Multiplying by two matrices in turn is multiplying by their product. */
  lemma MatVecCompose(a: Mat3, b: Mat3, v: Vec3)
    ensures MatVec(a, MatVec(b, v)) == MatVec(MatMul(a, b), v)
  {
  }

  /** Squared norm of (C * (p, 1)) - (q, 1), C the 4x4 matrix of the coefficients: how
      far the transformed source point lands from its target point. */
  function SquaredResidual(c: seq<real>, p: Point3, q: Point3): real
    requires |c| == 16
  {
    var d0 := c[0] * p.x + c[1] * p.y + c[2] * p.z + c[3] - q.x;
    var d1 := c[4] * p.x + c[5] * p.y + c[6] * p.z + c[7] - q.y;
    var d2 := c[8] * p.x + c[9] * p.y + c[10] * p.z + c[11] - q.z;
    var d3 := c[12] * p.x + c[13] * p.y + c[14] * p.z + c[15] - 1.0;
    d0 * d0 + d1 * d1 + d2 * d2 + d3 * d3
  }

  /** The residual of points that may carry NaN: NaN as soon as one coordinate is. */
  function SquaredResidualF(c: seq<real>, p: Point3F, q: Point3F): (r: Float)
    requires |c| == 16
    ensures r.NaN? <==> HasNaN(p) || HasNaN(q)
    ensures r.Finite? ==> r.value == SquaredResidual(c, ToPoint(p), ToPoint(q))
  {
    if HasNaN(p) || HasNaN(q) then NaN else Finite(SquaredResidual(c, ToPoint(p), ToPoint(q)))
  }

  /** For the coefficients of a rigid transform the residual is the squared distance
      between the moved source point and the target point. */
  lemma ResidualOfRigid(t: RigidTransform, p: Point3, q: Point3)
    ensures SquaredResidual(Coefficients(t), p, q)
         == SquaredDistance(Apply(t, p), q)
  {
  }

  /** The growth test on points as stored: for the coefficients of a rigid transform the
      residual is NaN as soon as a point carries NaN, and otherwise the squared distance
      between the moved source point and the target point. */
  lemma ResidualOfRigidF(t: RigidTransform, p: Point3F, q: Point3F)
    ensures SquaredResidualF(Coefficients(t), p, q)
         == if HasNaN(p) || HasNaN(q) then NaN else Finite(SquaredDistance(Apply(t, ToPoint(p)), ToPoint(q)))
  {
    if !HasNaN(p) && !HasNaN(q) {
      ResidualOfRigid(t, ToPoint(p), ToPoint(q));
    }
  }

  function Apply(t: RigidTransform, p: Point3): Point3 {
    var v := MatVec(t.rot, Vec3(p.x, p.y, p.z));
    Point3(v.x + t.trans.x, v.y + t.trans.y, v.z + t.trans.z)
  }
}
