/**
 * Vertex geometry of the subdivision program: a homogeneous position and a
 * homogeneous normal. `linearCombination` blends geometries with weights;
 * it adds the weighted positions and normals to zero vectors in order and
 * normalises the normal. The square root behind `normalized()` is a
 * function parameter `unit`; `Normalizes(unit)` is its contract.
 * Arithmetic is on reals, so rounding is not modelled.
 */
module OneGeometry {
  import opened Homogeneous
  import opened OneMesh

  /** Squared Euclidean length. */
  function Norm2(v: Vec3): real
  {
    v.x * v.x + v.y * v.y + v.z * v.z
  }

  /** `normalized()` meets its contract: a non-zero vector becomes a unit vector. */
  ghost predicate Normalizes(unit: Vec3 -> Vec3)
  {
    forall v :: Norm2(v) != 0.0 ==> Norm2(unit(v)) == 1.0
  }

  /**
   * The `VertexGeometry(v, vn)` constructor as written: the initialiser list
   * stores `vn`, and the body then normalises the parameter `vn`, which
   * shadows the member, so the stored normal keeps its length.
   */
  function GeometryAsWritten(v: Vec4, vn: Vec4): (g: Geometry)
    ensures g.v == v && g.vn == vn
  {
    Geometry(v, vn)
  }

  /**
   * For every input the constructor as written keeps the normal it was given.
   * Whenever that normal is neither zero nor of unit length, the stored
   * normal is therefore not of unit length, while the intended constructor
   * stores a unit normal: the two disagree on every such input.
   */
  lemma GeometryAsWrittenKeepsNormal(unit: Vec3 -> Vec3, v: Vec4, vn: Vec4)
    requires Normalizes(unit)
    ensures GeometryAsWritten(v, vn).vn == vn
    ensures Norm2(Project(vn)) != 0.0 && Norm2(Project(vn)) != 1.0 ==>
      Norm2(Project(GeometryAsWritten(v, vn).vn)) != 1.0
      && Norm2(Project(MakeGeometry(unit, v, vn).vn)) == 1.0
      && GeometryAsWritten(v, vn) != MakeGeometry(unit, v, vn)
  {
    if Norm2(Project(vn)) != 0.0 {
      MakeGeometryUnit(unit, v, vn);
    }
  }

  /** The constructor as evidently intended: the stored normal is `expand(project(vn).normalized())`. */
  function MakeGeometry(unit: Vec3 -> Vec3, v: Vec4, vn: Vec4): (g: Geometry)
    ensures g.v == v && g.vn.w == 1.0
  {
    Geometry(v, Expand(unit(Project(vn))))
  }

  /** With a normalising `unit`, every non-zero normal is stored with unit length. */
  lemma MakeGeometryUnit(unit: Vec3 -> Vec3, v: Vec4, vn: Vec4)
    requires Normalizes(unit)
    requires Norm2(Project(vn)) != 0.0
    ensures Norm2(Project(MakeGeometry(unit, v, vn).vn)) == 1.0
    ensures Project(MakeGeometry(unit, v, vn).vn) == unit(Project(vn))
  {
    ProjectExpand(unit(Project(vn)));
  }

  /**
   * Which normal `VertexGeometry(v, vn)` stores: the given one, as the
   * constructor is written, or the normalised one, as intended.
   */
  datatype NormalRule = KeepNormal | Normalise(unit: Vec3 -> Vec3)

  /** `VertexGeometry(v, vn)` under a normal rule: the position is kept either way. */
  function Construct(rule: NormalRule, v: Vec4, vn: Vec4): (g: Geometry)
    ensures g.v == v
    ensures rule.KeepNormal? ==> g.vn == vn
    ensures rule.Normalise? ==> g.vn.w == 1.0 && Project(g.vn) == rule.unit(Project(vn))
  {
    match rule
    case KeepNormal => GeometryAsWritten(v, vn)
    case Normalise(unit) =>
      ProjectExpand(unit(Project(vn)));
      MakeGeometry(unit, v, vn)
  }

  /** `cs[0] * ps[0] + ... + cs[k-1] * ps[k-1]` for `k = |ps|`, accumulated left to right from zero. */
  function Combine(ps: seq<Vec4>, cs: seq<real>): Vec4
    requires |cs| >= |ps|
    decreases |ps|
  {
    if ps == [] then Zero4
    else Add4(Combine(ps[..|ps| - 1], cs), Scale4(cs[|ps| - 1], ps[|ps| - 1]))
  }

  function Positions(geoms: seq<Geometry>): (ps: seq<Vec4>)
    ensures |ps| == |geoms| && forall i :: 0 <= i < |ps| ==> ps[i] == geoms[i].v
  {
    seq(|geoms|, i requires 0 <= i < |geoms| => geoms[i].v)
  }

  function NormalVectors(geoms: seq<Geometry>): (ns: seq<Vec4>)
    ensures |ns| == |geoms| && forall i :: 0 <= i < |ns| ==> ns[i] == geoms[i].vn
  {
    seq(|geoms|, i requires 0 <= i < |geoms| => geoms[i].vn)
  }

  /**
   * `linearCombination(geoms, cs)`: the weighted sum of the positions, and
   * the normalised weighted sum of the normals. The loop reads `cs[i]` for
   * every geometry, so there are at least as many weights as geometries.
   */
  function LinearCombination(unit: Vec3 -> Vec3, geoms: seq<Geometry>, cs: seq<real>): (g: Geometry)
    requires |cs| >= |geoms|
    ensures g.vn.w == 1.0
  {
    Geometry(Combine(Positions(geoms), cs), Expand(unit(Project(Combine(NormalVectors(geoms), cs)))))
  }

  /** The w coordinate of a combination is the weighted sum of the w coordinates. */
  lemma {:induction false} CombineW(ps: seq<Vec4>, cs: seq<real>)
    requires |cs| >= |ps|
    requires forall i :: 0 <= i < |ps| ==> ps[i].w == 1.0
    ensures Combine(ps, cs).w == WeightSum(cs, |ps|)
    decreases |ps|
  {
    if ps != [] {
      CombineW(ps[..|ps| - 1], cs);
    }
  }

  /** Combining copies of one point gives that point scaled by the total weight. */
  lemma {:induction false} CombineSame(ps: seq<Vec4>, cs: seq<real>, p: Vec4)
    requires |cs| >= |ps|
    requires forall i :: 0 <= i < |ps| ==> ps[i] == p
    ensures Combine(ps, cs) == Scale4(WeightSum(cs, |ps|), p)
    decreases |ps|
  {
    if ps != [] {
      var k := |ps| - 1;
      CombineSame(ps[..k], cs, p);
      ScalesAdd(WeightSum(cs, k), cs[k], p);
    }
  }

  /** With weights summing to one, a combination of points (w = 1) is a point. */
  lemma AffineKeepsPoints(unit: Vec3 -> Vec3, geoms: seq<Geometry>, cs: seq<real>)
    requires |cs| >= |geoms| && WeightSum(cs, |geoms|) == 1.0
    requires forall i :: 0 <= i < |geoms| ==> geoms[i].v.w == 1.0
    ensures LinearCombination(unit, geoms, cs).v.w == 1.0
  {
    CombineW(Positions(geoms), cs);
  }

  /** With weights summing to one, a combination of copies of one position is that position. */
  lemma AffineReproduces(unit: Vec3 -> Vec3, geoms: seq<Geometry>, cs: seq<real>, p: Vec4)
    requires |cs| >= |geoms| && WeightSum(cs, |geoms|) == 1.0
    requires forall i :: 0 <= i < |geoms| ==> geoms[i].v == p
    ensures LinearCombination(unit, geoms, cs).v == p
  {
    CombineSame(Positions(geoms), cs, p);
  }

  /** The blended normal has unit length whenever the weighted sum of normals is not zero. */
  lemma CombinationNormalUnit(unit: Vec3 -> Vec3, geoms: seq<Geometry>, cs: seq<real>)
    requires Normalizes(unit) && |cs| >= |geoms|
    requires Norm2(Project(Combine(NormalVectors(geoms), cs))) != 0.0
    ensures Norm2(Project(LinearCombination(unit, geoms, cs).vn)) == 1.0
  {
    ProjectExpand(unit(Project(Combine(NormalVectors(geoms), cs))));
  }
}
