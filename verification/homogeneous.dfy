/**
 * Vector arithmetic and homogeneous-coordinate helpers shared by the mesh,
 * curve and skeleton code:
 * `project` drops w, `expand` appends w = 1, and `homogenized` embeds a 3x3
 * matrix in the upper-left corner of an otherwise zero 4x4 matrix whose
 * (3,3) entry is 1.
 */
module Homogeneous {

  datatype Vec3 = Vec3(x: real, y: real, z: real)

  datatype Vec4 = Vec4(x: real, y: real, z: real, w: real)

  /** A dense row-major matrix of reals. */
  type Matrix = seq<seq<real>>

  ghost predicate IsSquare(m: Matrix, n: nat)
  {
    |m| == n && forall i :: 0 <= i < n ==> |m[i]| == n
  }

  /** The all-zero n x n matrix: the value a default-constructed vecmath matrix holds. */
  function ZeroMatrix(n: nat): (z: Matrix)
    ensures IsSquare(z, n)
    ensures forall i, j :: 0 <= i < n && 0 <= j < n ==> z[i][j] == 0.0
  {
    seq(n, i => seq(n, j => 0.0))
  }

  function Add3(a: Vec3, b: Vec3): Vec3
  {
    Vec3(a.x + b.x, a.y + b.y, a.z + b.z)
  }

  function Sub3(a: Vec3, b: Vec3): Vec3
  {
    Vec3(a.x - b.x, a.y - b.y, a.z - b.z)
  }

  function Scale3(c: real, a: Vec3): Vec3
  {
    Vec3(c * a.x, c * a.y, c * a.z)
  }

  function Cross(a: Vec3, b: Vec3): Vec3
  {
    Vec3(a.y * b.z - a.z * b.y, a.z * b.x - a.x * b.z, a.x * b.y - a.y * b.x)
  }

  function Dot3(a: Vec3, b: Vec3): real
  {
    a.x * b.x + a.y * b.y + a.z * b.z
  }

  function Project(v: Vec4): (p: Vec3)
    ensures p.x == v.x && p.y == v.y && p.z == v.z
  {
    Vec3(v.x, v.y, v.z)
  }

  function Expand(v: Vec3): (e: Vec4)
    ensures e.x == v.x && e.y == v.y && e.z == v.z
    ensures e.w == 1.0
  {
    Vec4(v.x, v.y, v.z, 1.0)
  }

  /** Expanding then projecting gives the original point back. */
  lemma ProjectExpand(v: Vec3)
    ensures Project(Expand(v)) == v
  {
  }

  /** Projecting then expanding is the identity exactly on points with w = 1. */
  lemma ExpandProject(v: Vec4)
    ensures Expand(Project(v)) == v <==> v.w == 1.0
  {
  }

  function Add4(a: Vec4, b: Vec4): Vec4
  {
    Vec4(a.x + b.x, a.y + b.y, a.z + b.z, a.w + b.w)
  }

  function Scale4(c: real, a: Vec4): Vec4
  {
    Vec4(c * a.x, c * a.y, c * a.z, c * a.w)
  }

  /** A default-constructed `Vector4f`. */
  const Zero4 := Vec4(0.0, 0.0, 0.0, 0.0)

  /** The sum of the first `k` weights. */
  function WeightSum(cs: seq<real>, k: nat): real
    requires k <= |cs|
  {
    if k == 0 then 0.0 else WeightSum(cs, k - 1) + cs[k - 1]
  }

  /** Scaling distributes over a sum of weights. */
  lemma ScalesAdd(a: real, b: real, p: Vec4)
    ensures Add4(Scale4(a, p), Scale4(b, p)) == Scale4(a + b, p)
  {
    assert a * p.x + b * p.x == (a + b) * p.x;
    assert a * p.y + b * p.y == (a + b) * p.y;
    assert a * p.z + b * p.z == (a + b) * p.z;
    assert a * p.w + b * p.w == (a + b) * p.w;
  }

  /** The 4x4 matrix with `m` in its upper-left 3x3 block, 1 at (3,3) and 0 elsewhere. */
  function Homogenized(m: Matrix): (h: Matrix)
    requires IsSquare(m, 3)
    ensures IsSquare(h, 4)
    ensures forall i, j :: 0 <= i < 3 && 0 <= j < 3 ==> h[i][j] == m[i][j]
    ensures h[3][3] == 1.0
    ensures forall k :: 0 <= k < 3 ==> h[3][k] == 0.0 && h[k][3] == 0.0
  {
    seq(4, i requires 0 <= i < 4 => seq(4, j requires 0 <= j < 4 => if i < 3 && j < 3 then m[i][j] else if i == 3 && j == 3 then 1.0 else 0.0))
  }

  /** The 4x4 matrix product `a * b`. */
  function MatMul4(a: Matrix, b: Matrix): (p: Matrix)
    requires IsSquare(a, 4) && IsSquare(b, 4)
    ensures IsSquare(p, 4)
  {
    seq(4, i requires 0 <= i < 4 => seq(4, j requires 0 <= j < 4 =>
      a[i][0] * b[0][j] + a[i][1] * b[1][j] + a[i][2] * b[2][j] + a[i][3] * b[3][j]))
  }

  /** The 3x3 matrix product `a * b`. */
  function MatMul3(a: Matrix, b: Matrix): (p: Matrix)
    requires IsSquare(a, 3) && IsSquare(b, 3)
    ensures IsSquare(p, 3)
  {
    seq(3, i requires 0 <= i < 3 => seq(3, j requires 0 <= j < 3 =>
      a[i][0] * b[0][j] + a[i][1] * b[1][j] + a[i][2] * b[2][j]))
  }

  function Transpose4(a: Matrix): (t: Matrix)
    requires IsSquare(a, 4)
    ensures IsSquare(t, 4)
    ensures forall i, j :: 0 <= i < 4 && 0 <= j < 4 ==> t[i][j] == a[j][i]
  {
    seq(4, i requires 0 <= i < 4 => seq(4, j requires 0 <= j < 4 => a[j][i]))
  }
}
