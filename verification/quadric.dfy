/**
 * Quadric error matrices: symmetric 4x4 real matrices that combine only by
 * entry-wise addition. `OuterProd(p, p)` is the contribution of one face
 * plane p = [a, b, c, d].
 */
module Quadric {
  import opened Homogeneous

  /** A 4x4 matrix; the zero matrix is what a default-constructed Matrix4f holds. */
  type Mat4 = m: Matrix | IsSquare(m, 4) witness ZeroMatrix(4)

  /** Component k of a homogeneous vector, as `v[k]` in vecmath. */
  function Comp(v: Vec4, k: int): real
    requires 0 <= k < 4
  {
    if k == 0 then v.x else if k == 1 then v.y else if k == 2 then v.z else v.w
  }

  function Zero(): (z: Mat4)
    ensures forall i, j :: 0 <= i < 4 && 0 <= j < 4 ==> z[i][j] == 0.0
  {
    ZeroMatrix(4)
  }

  /** `outer_prod(x, y)`: entry (i, j) is x[i] * y[j]. */
  function OuterProd(x: Vec4, y: Vec4): (p: Mat4)
    ensures forall i, j :: 0 <= i < 4 && 0 <= j < 4 ==> p[i][j] == Comp(x, i) * Comp(y, j)
  {
    seq(4, i requires 0 <= i < 4 => seq(4, j requires 0 <= j < 4 => Comp(x, i) * Comp(y, j)))
  }

  /** `operator +` on matrices: entry-wise sum. */
  function Add(a: Mat4, b: Mat4): (s: Mat4)
    ensures forall i, j :: 0 <= i < 4 && 0 <= j < 4 ==> s[i][j] == a[i][j] + b[i][j]
  {
    seq(4, i requires 0 <= i < 4 => seq(4, j requires 0 <= j < 4 => a[i][j] + b[i][j]))
  }

  predicate Symmetric(m: Mat4)
  {
    forall i, j :: 0 <= i < 4 && 0 <= j < 4 ==> m[i][j] == m[j][i]
  }

  /** Two 4x4 matrices with the same entries are the same matrix. */
  lemma Extensional(a: Mat4, b: Mat4)
    requires forall i, j :: 0 <= i < 4 && 0 <= j < 4 ==> a[i][j] == b[i][j]
    ensures a == b
  {
    forall i | 0 <= i < 4
      ensures a[i] == b[i]
    {
      assert |a[i]| == |b[i]| == 4;
    }
  }

  /** Quadrics form a commutative monoid under `Add` with `Zero` as identity. */
  lemma AddMonoid(a: Mat4, b: Mat4, c: Mat4)
    ensures Add(a, b) == Add(b, a)
    ensures Add(Add(a, b), c) == Add(a, Add(b, c))
    ensures Add(Zero(), a) == a
  {
    Extensional(Add(a, b), Add(b, a));
    Extensional(Add(Add(a, b), c), Add(a, Add(b, c)));
    Extensional(Add(Zero(), a), a);
  }

  lemma OuterProdSymmetric(p: Vec4)
    ensures Symmetric(OuterProd(p, p))
  {
  }

  lemma AddSymmetric(a: Mat4, b: Mat4)
    requires Symmetric(a) && Symmetric(b)
    ensures Symmetric(Add(a, b))
  {
  }

  /**
   * The running sum `Q = Q + outer_prod(p, p)` over a sequence of planes,
   * accumulated left to right from the zero matrix.
   */
  function PlaneSum(planes: seq<Vec4>): Mat4
  {
    if planes == [] then Zero()
    else Add(PlaneSum(planes[..|planes| - 1]), OuterProd(planes[|planes| - 1], planes[|planes| - 1]))
  }

  /** Scalar reference: sum over the planes of p[i] * p[j]. */
  function EntrySum(planes: seq<Vec4>, i: int, j: int): real
    requires 0 <= i < 4 && 0 <= j < 4
  {
    if planes == [] then 0.0
    else EntrySum(planes[..|planes| - 1], i, j) + Comp(planes[|planes| - 1], i) * Comp(planes[|planes| - 1], j)
  }

  /** Every entry of the accumulated quadric is the sum of the per-plane products. */
  lemma {:induction false} PlaneSumEntries(planes: seq<Vec4>)
    ensures forall i, j :: 0 <= i < 4 && 0 <= j < 4 ==> PlaneSum(planes)[i][j] == EntrySum(planes, i, j)
  {
    if planes != [] {
      PlaneSumEntries(planes[..|planes| - 1]);
    }
  }

  /** A sum of plane outer products is symmetric. */
  lemma {:induction false} PlaneSumSymmetric(planes: seq<Vec4>)
    ensures Symmetric(PlaneSum(planes))
  {
    if planes != [] {
      var last := planes[|planes| - 1];
      PlaneSumSymmetric(planes[..|planes| - 1]);
      OuterProdSymmetric(last);
      AddSymmetric(PlaneSum(planes[..|planes| - 1]), OuterProd(last, last));
    }
  }

  /** Summing the planes of two lists is adding their quadrics. */
  lemma {:induction false} PlaneSumConcat(p: seq<Vec4>, q: seq<Vec4>)
    ensures PlaneSum(p + q) == Add(PlaneSum(p), PlaneSum(q))
  {
    if q == [] {
      assert p + q == p;
      AddMonoid(PlaneSum(p), Zero(), Zero());
      Extensional(Add(PlaneSum(p), Zero()), PlaneSum(p));
    } else {
      var q0 := q[..|q| - 1];
      var last := q[|q| - 1];
      assert (p + q)[..|p + q| - 1] == p + q0;
      PlaneSumConcat(p, q0);
      var o := OuterProd(last, last);
      AddMonoid(PlaneSum(p), PlaneSum(q0), o);
    }
  }

  /** `v . w` over all four components. */
  function Dot(v: Vec4, w: Vec4): real
  {
    v.x * w.x + v.y * w.y + v.z * w.z + v.w * w.w
  }

  /** Matrix times column vector. */
  function MulVec(m: Mat4, v: Vec4): (r: Vec4)
    ensures forall i :: 0 <= i < 4 ==> Comp(r, i) == m[i][0] * v.x + m[i][1] * v.y + m[i][2] * v.z + m[i][3] * v.w
  {
    Vec4(m[0][0] * v.x + m[0][1] * v.y + m[0][2] * v.z + m[0][3] * v.w,
         m[1][0] * v.x + m[1][1] * v.y + m[1][2] * v.z + m[1][3] * v.w,
         m[2][0] * v.x + m[2][1] * v.y + m[2][2] * v.z + m[2][3] * v.w,
         m[3][0] * v.x + m[3][1] * v.y + m[3][2] * v.z + m[3][3] * v.w)
  }

  /** `Q.setRow(3, [0, 0, 0, 1])`: rows 0..2 kept, row 3 replaced. */
  function WithUnitLastRow(m: Mat4): (r: Mat4)
    ensures forall i, j :: 0 <= i < 3 && 0 <= j < 4 ==> r[i][j] == m[i][j]
    ensures r[3] == [0.0, 0.0, 0.0, 1.0]
  {
    m[3 := [0.0, 0.0, 0.0, 1.0]]
  }
}
