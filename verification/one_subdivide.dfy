/**
 * `Mesh::loopSubdivide`: one step of Loop subdivision on a consistent mesh.
 * New positions are computed for the old ("even") vertices and for one new
 * ("odd") vertex per edge; the new vertex of edge e is pushed with id
 * `nv + e`; every face is cut into three corner faces and one centre face,
 * each oriented like the face it came from; `closure` rebuilds the edges and
 * incidence; finally the even and odd positions are stored.
 *
 * Where the source reads past an array (`cs[4]` when an edge's faces offer
 * more than two off-edge corners, `ev[2]` when a corner lies on more than
 * two of its face's edges) or reads an unset `ev[1]`, the result is an
 * error here.
 */
module OneSubdivide {
  import opened Wrappers
  import opened Homogeneous
  import opened Sets
  import opened OneMesh
  import opened OneClosure
  import opened OneGeometry

  datatype SubdivideError =
    | OddStencil                  // an edge's faces offer more than two off-edge corners
    | CornerEdges                 // a corner lies on other than two of its face's edges
    | Reclosure(e: ClosureError)  // `closure` of the refined faces fails

  /** The weight of each neighbour in the even rule. */
  function Beta(valence: nat): real
  {
    if valence > 3 then 3.0 / (8.0 * valence as real) else 3.0 / 16.0
  }

  /** `cs` of the even rule: `BETA` per neighbour, then `1 - BETA * valence` for the vertex itself. */
  function EvenWeights(valence: nat): (cs: seq<real>)
    ensures |cs| == valence + 1
  {
    seq(valence, k => Beta(valence)) + [1.0 - Beta(valence) * valence as real]
  }

  /** `cs` of the odd rule: the two opposite corners, then the two endpoints. */
  const OddWeights: seq<real> := [1.0 / 8.0, 1.0 / 8.0, 3.0 / 8.0, 3.0 / 8.0]

  /** `cs` of a new vertex when it is pushed: halfway between the endpoints. */
  const HalfWeights: seq<real> := [0.5, 0.5]

  lemma {:induction false} ConstantSum(cs: seq<real>, b: real, k: nat)
    requires k <= |cs|
    requires forall i :: 0 <= i < k ==> cs[i] == b
    ensures WeightSum(cs, k) == b * k as real
  {
    if k > 0 {
      ConstantSum(cs, b, k - 1);
    }
  }

  /** All three rules are affine: their weights sum to one. */
  lemma WeightsAffine(valence: nat)
    ensures WeightSum(EvenWeights(valence), valence + 1) == 1.0
    ensures WeightSum(OddWeights, 4) == 1.0
    ensures WeightSum(HalfWeights, 2) == 1.0
  {
    ConstantSum(EvenWeights(valence), Beta(valence), valence);
  }

  /** The other endpoint of each edge of vertex x, in ascending edge id order (the order of `u.es`). */
  function Neighbours(m: Mesh, x: int): (ns: seq<int>)
    requires Consistent(m) && 0 <= x < |m.vertices|
    ensures |ns| == |m.vertices[x].es|
    ensures forall k :: 0 <= k < |ns| ==> 0 <= ns[k] < |m.vertices|
  {
    var es := Ascending(m.vertices[x].es);
    assert forall k :: 0 <= k < |es| ==> es[k] in m.vertices[x].es;
    seq(|es|, k requires 0 <= k < |es| => EdgeOther(m.edges[es[k]], x))
  }

  function Geoms(m: Mesh, xs: seq<int>): (gs: seq<Geometry>)
    requires forall k :: 0 <= k < |xs| ==> 0 <= xs[k] < |m.vertices|
    ensures |gs| == |xs|
  {
    seq(|xs|, k requires 0 <= k < |xs| => m.vertices[xs[k]].geom)
  }

  /** The new position of old vertex x: its neighbours weighted `BETA`, itself `1 - valence * BETA`. */
  function Even(unit: Vec3 -> Vec3, m: Mesh, x: int): Geometry
    requires Consistent(m) && 0 <= x < |m.vertices|
  {
    var ns := Neighbours(m, x);
    LinearCombination(unit, Geoms(m, ns) + [m.vertices[x].geom], EvenWeights(|ns|))
  }

  /** The corners of one face that are not endpoints of the edge, in corner order. */
  function Off(vs: seq<int>, ed: Edge): (r: seq<int>)
    requires |vs| == 3 && |ed.vs| == 2
    ensures forall k :: 0 <= k < |r| ==> r[k] in vs && !EdgeHasVert(ed, r[k])
    ensures forall k :: 0 <= k < 3 && !EdgeHasVert(ed, vs[k]) ==> vs[k] in r
  {
    (if EdgeHasVert(ed, vs[0]) then [] else [vs[0]])
    + (if EdgeHasVert(ed, vs[1]) then [] else [vs[1]])
    + (if EdgeHasVert(ed, vs[2]) then [] else [vs[2]])
  }

  /** The corners the odd rule gathers for edge e: those of its two faces that are off the edge. */
  function OffEdge(m: Mesh, e: int): (r: seq<int>)
    requires Consistent(m) && 0 <= e < |m.edges|
    ensures forall k :: 0 <= k < |r| ==> 0 <= r[k] < |m.vertices|
  {
    var ed := m.edges[e];
    Off(m.faces[ed.fs[0]].vs, ed) + Off(m.faces[ed.fs[1]].vs, ed)
  }

  /** The new position of edge e's vertex: the off-edge corners, then the two endpoints. */
  function Odd(unit: Vec3 -> Vec3, m: Mesh, e: int): Geometry
    requires Consistent(m) && 0 <= e < |m.edges| && |OffEdge(m, e)| <= 2
  {
    var ed := m.edges[e];
    LinearCombination(unit, Geoms(m, OffEdge(m, e) + [ed.vs[0], ed.vs[1]]), OddWeights)
  }

  /** The vertex pushed for edge e: id `nv + e.id`, halfway between the endpoints. */
  function Midpoint(unit: Vec3 -> Vec3, m: Mesh, e: int): (v: Vertex)
    requires Consistent(m) && 0 <= e < |m.edges|
    ensures v.id == |m.vertices| + e && v.fs == {} && v.es == {}
  {
    var ed := m.edges[e];
    Vertex(|m.vertices| + ed.id,
           LinearCombination(unit, [m.vertices[ed.vs[0]].geom, m.vertices[ed.vs[1]].geom], HalfWeights), {}, {})
  }

  /** The edges of face f that have `v` as an endpoint, in the face's edge order: `ev`. */
  function Through(m: Mesh, f: int, v: int): (ts: seq<int>)
    requires Consistent(m) && 0 <= f < |m.faces|
    ensures forall k :: 0 <= k < |ts| ==> 0 <= ts[k] < |m.edges|
  {
    var es := m.faces[f].es;
    (if EdgeHasVert(m.edges[es[0]], v) then [es[0]] else [])
    + (if EdgeHasVert(m.edges[es[1]], v) then [es[1]] else [])
    + (if EdgeHasVert(m.edges[es[2]], v) then [es[2]] else [])
  }

  /** Every corner lies on exactly two of its face's edges, so `ev` is filled exactly. */
  predicate CornersResolved(m: Mesh)
    requires Consistent(m)
  {
    forall f, i :: 0 <= f < |m.faces| && 0 <= i < 3 ==> |Through(m, f, m.faces[f].vs[i])| == 2
  }

  /** Every edge's faces offer at most two off-edge corners, so the odd rule has its weights. */
  predicate StencilsFit(m: Mesh)
    requires Consistent(m)
  {
    forall e :: 0 <= e < |m.edges| ==> |OffEdge(m, e)| <= 2
  }

  /**
   * The corners of new face `4 f + i` before orientation: for i < 3 the old
   * corner and the new vertices of its two edges; for i = 3 the new
   * vertices of the face's three edges.
   */
  function Piece(m: Mesh, f: int, i: int): (vs: seq<int>)
    requires Consistent(m) && CornersResolved(m) && 0 <= f < |m.faces| && 0 <= i < 4
    ensures |vs| == 3 && forall k :: 0 <= k < 3 ==> 0 <= vs[k] < |m.vertices| + |m.edges|
  {
    var nv := |m.vertices|;
    var g := m.faces[f];
    if i < 3 then
      var ts := Through(m, f, g.vs[i]);
      [g.vs[i], nv + ts[0], nv + ts[1]]
    else
      [nv + g.es[0], nv + g.es[1], nv + g.es[2]]
  }

  /** The normal `_orient` computes for corners `vs`: `(x - y) x (x - z)` of the normalised positions. */
  function TriangleNormal(unit: Vec3 -> Vec3, verts: seq<Vertex>, vs: seq<int>): Vec3
    requires |vs| == 3 && forall k :: 0 <= k < 3 ==> 0 <= vs[k] < |verts|
  {
    var x := unit(Project(verts[vs[0]].geom.v));
    var y := unit(Project(verts[vs[1]].geom.v));
    var z := unit(Project(verts[vs[2]].geom.v));
    Cross(Sub3(x, y), Sub3(x, z))
  }

  /** `_orient(a, b)`: swap a's first two corners when its normal points against b's. */
  function Orient(unit: Vec3 -> Vec3, verts: seq<Vertex>, a: seq<int>, b: seq<int>): (r: seq<int>)
    requires |a| == 3 && forall k :: 0 <= k < 3 ==> 0 <= a[k] < |verts|
    requires |b| == 3 && forall k :: 0 <= k < 3 ==> 0 <= b[k] < |verts|
    ensures |r| == 3 && multiset(r) == multiset(a) && r[2] == a[2]
    ensures r == a || r == [a[1], a[0], a[2]]
    ensures Dot3(TriangleNormal(unit, verts, a), TriangleNormal(unit, verts, b)) >= 0.0 ==> r == a
  {
    if Dot3(TriangleNormal(unit, verts, a), TriangleNormal(unit, verts, b)) < 0.0 then
      assert a == [a[0]] + [a[1]] + [a[2]];
      assert [a[1], a[0], a[2]] == [a[1]] + [a[0]] + [a[2]];
      [a[1], a[0], a[2]]
    else a
  }

  /** Swapping two corners turns the normal around, so `_orient` settles a face's orientation in one call. */
  lemma OrientAgrees(unit: Vec3 -> Vec3, verts: seq<Vertex>, a: seq<int>, b: seq<int>)
    requires |a| == 3 && forall k :: 0 <= k < 3 ==> 0 <= a[k] < |verts|
    requires |b| == 3 && forall k :: 0 <= k < 3 ==> 0 <= b[k] < |verts|
    ensures Dot3(TriangleNormal(unit, verts, Orient(unit, verts, a, b)), TriangleNormal(unit, verts, b)) >= 0.0
  {
    var x := unit(Project(verts[a[0]].geom.v));
    var y := unit(Project(verts[a[1]].geom.v));
    var z := unit(Project(verts[a[2]].geom.v));
    var n := TriangleNormal(unit, verts, b);
    var flipped := Cross(Sub3(y, x), Sub3(y, z));
    var kept := Cross(Sub3(x, y), Sub3(x, z));
    assert flipped == Vec3(-kept.x, -kept.y, -kept.z);
    assert Dot3(flipped, n) == -Dot3(kept, n);
  }

  /** The refined faces, oriented against the vertex array that already holds the new vertices. */
  function Refined(unit: Vec3 -> Vec3, m: Mesh, verts: seq<Vertex>): (fs: seq<Face>)
    requires Consistent(m) && CornersResolved(m)
    requires |verts| == |m.vertices| + |m.edges|
    ensures |fs| == 4 * |m.faces| && Tri3(fs)
  {
    seq(4 * |m.faces|, q requires 0 <= q < 4 * |m.faces| =>
      Face(q, Orient(unit, verts, Piece(m, q / 4, q % 4), m.faces[q / 4].vs), []))
  }

  /** The stored positions: even rule for old vertices, odd rule for new ones. */
  function Placed(unit: Vec3 -> Vec3, m: Mesh, vs: seq<Vertex>): (r: seq<Vertex>)
    requires Consistent(m) && StencilsFit(m)
    requires |vs| == |m.vertices| + |m.edges|
    ensures |r| == |vs|
    ensures forall x :: 0 <= x < |r| ==> r[x].id == vs[x].id && r[x].fs == vs[x].fs && r[x].es == vs[x].es
    ensures forall x :: 0 <= x < |m.vertices| ==> r[x].geom == Even(unit, m, x)
    ensures forall e :: 0 <= e < |m.edges| ==> r[|m.vertices| + e].geom == Odd(unit, m, e)
  {
    seq(|vs|, x requires 0 <= x < |vs| => vs[x].(geom := Rule(unit, m, x)))
  }

  /** The position of vertex x after subdivision: the even rule for an old vertex, the odd rule of its edge for a new one. */
  function Rule(unit: Vec3 -> Vec3, m: Mesh, x: int): Geometry
    requires Consistent(m) && StencilsFit(m) && 0 <= x < |m.vertices| + |m.edges|
  {
    if x < |m.vertices| then Even(unit, m, x) else Odd(unit, m, x - |m.vertices|)
  }

  /** The vertex array once the new vertex of every edge is pushed behind the old ones. */
  function Pushed(unit: Vec3 -> Vec3, m: Mesh): (vs: seq<Vertex>)
    requires Consistent(m)
    ensures |vs| == |m.vertices| + |m.edges|
  {
    m.vertices + seq(|m.edges|, e requires 0 <= e < |m.edges| => Midpoint(unit, m, e))
  }

  /** The mesh handed to `closure`: old and pushed vertices, the refined faces, the old edges. */
  function Refinement(unit: Vec3 -> Vec3, m: Mesh): (n: Mesh)
    requires Consistent(m) && CornersResolved(m)
    ensures Tri3(n.faces)
  {
    var verts := Pushed(unit, m);
    Mesh(verts, Refined(unit, m, verts), m.edges)
  }

  /** `Mesh::loopSubdivide`. */
  function Subdivide(unit: Vec3 -> Vec3, m: Mesh): (r: Result<Mesh, SubdivideError>)
    requires Consistent(m)
    ensures r.Ok? ==> Consistent(r.value)
    ensures r.Ok? ==> |r.value.vertices| == |m.vertices| + |m.edges| && |r.value.faces| == 4 * |m.faces|
  {
    if !StencilsFit(m) then Err(OddStencil)
    else if !CornersResolved(m) then Err(CornerEdges)
    else
      match Closure(Refinement(unit, m))
      case Err(e) => Err(Reclosure(e))
      case Ok(c) =>
        MovedConsistent(c, Placed(unit, m, c.vertices));
        Ok(c.(vertices := Placed(unit, m, c.vertices)))
  }

  /** A vertex lies on an edge exactly when it is one end of the edge's key. */
  lemma OnKey(ed: Edge, v: int)
    requires |ed.vs| == 2
    ensures EdgeHasVert(ed, v) <==> v == EdgeKey(ed).0 || v == EdgeKey(ed).1
  {
    var k := Key(ed.vs[0], ed.vs[1]);
    assert v in {k.0, k.1} <==> v in {ed.vs[0], ed.vs[1]};
  }

  /** Of the three distinct sides of a proper triangle, each corner lies on exactly two. */
  lemma CornerOnTwoSides(k0: (int, int), k1: (int, int), k2: (int, int), a: int, b: int, c: int)
    requires a != b && b != c && a != c
    requires k0 != k1 && k1 != k2 && k0 != k2
    requires {k0, k1, k2} == {Key(a, b), Key(b, c), Key(c, a)}
    ensures (if a == k0.0 || a == k0.1 then 1 else 0) + (if a == k1.0 || a == k1.1 then 1 else 0)
            + (if a == k2.0 || a == k2.1 then 1 else 0) == 2
  {
    var p, q, r := Key(a, b), Key(b, c), Key(c, a);
    assert a == p.0 || a == p.1 by { assert a in {p.0, p.1}; }
    assert a == r.0 || a == r.1 by { assert a in {r.0, r.1}; }
    assert a != q.0 && a != q.1 by { assert {q.0, q.1} == {b, c}; }
    assert k0 in {p, q, r} && k1 in {p, q, r} && k2 in {p, q, r};
    assert q in {k0, k1, k2};
  }

  /** Distinct edges of an ascending edge array have distinct keys. */
  lemma KeysDiffer(edges: seq<Edge>, a: int, b: int)
    requires EdgesAscending(edges) && 0 <= a < |edges| && 0 <= b < |edges| && a != b
    ensures EdgeKey(edges[a]) != EdgeKey(edges[b])
  {
    if a < b {
      assert EdgeLess(edges[a], edges[b]);
    } else {
      assert EdgeLess(edges[b], edges[a]);
    }
  }

  /** Read from any corner, a face's sides are the same three keys. */
  lemma Rotated(g: Face, i: int)
    requires |g.vs| == 3 && 0 <= i < 3
    ensures {Key(g.vs[i], g.vs[(i + 1) % 3]), Key(g.vs[(i + 1) % 3], g.vs[(i + 2) % 3]),
             Key(g.vs[(i + 2) % 3], g.vs[i])} == CycleKeys(g)
  {
    assert PairKey(g, 0) == Key(g.vs[0], g.vs[1]);
    assert PairKey(g, 1) == Key(g.vs[1], g.vs[2]);
    assert PairKey(g, 2) == Key(g.vs[2], g.vs[0]);
    assert i == 0 || i == 1 || i == 2;
  }

  /** Three edges whose distinct keys are a proper triangle's sides: each corner is on two of them. */
  lemma SidesThrough(e0: Edge, e1: Edge, e2: Edge, g: Face, i: int)
    requires |e0.vs| == 2 && |e1.vs| == 2 && |e2.vs| == 2 && 0 <= i < 3
    requires |g.vs| == 3 && g.vs[0] != g.vs[1] && g.vs[1] != g.vs[2] && g.vs[0] != g.vs[2]
    requires EdgeKey(e0) != EdgeKey(e1) && EdgeKey(e1) != EdgeKey(e2) && EdgeKey(e0) != EdgeKey(e2)
    requires {EdgeKey(e0), EdgeKey(e1), EdgeKey(e2)} == CycleKeys(g)
    ensures (if EdgeHasVert(e0, g.vs[i]) then 1 else 0) + (if EdgeHasVert(e1, g.vs[i]) then 1 else 0)
            + (if EdgeHasVert(e2, g.vs[i]) then 1 else 0) == 2
  {
    var a, b, c := g.vs[i], g.vs[(i + 1) % 3], g.vs[(i + 2) % 3];
    assert a != b && b != c && a != c by {
      assert i == 0 || i == 1 || i == 2;
    }
    assert {EdgeKey(e0), EdgeKey(e1), EdgeKey(e2)} == {Key(a, b), Key(b, c), Key(c, a)} by {
      Rotated(g, i);
    }
    CornerOnTwoSides(EdgeKey(e0), EdgeKey(e1), EdgeKey(e2), a, b, c);
    OnKey(e0, a);
    OnKey(e1, a);
    OnKey(e2, a);
  }

  lemma ThroughSides(m: Mesh, f: int, g: Face, i: int)
    requires Consistent(m) && 0 <= f < |m.faces| && 0 <= i < 3
    requires FaceSides(m.faces[f].es, f, m.edges, g) && g.vs == m.faces[f].vs
    requires g.vs[0] != g.vs[1] && g.vs[1] != g.vs[2] && g.vs[0] != g.vs[2]
    requires EdgesAscending(m.edges)
    ensures |Through(m, f, g.vs[i])| == 2
  {
    var es := m.faces[f].es;
    KeysDiffer(m.edges, es[0], es[1]);
    KeysDiffer(m.edges, es[1], es[2]);
    KeysDiffer(m.edges, es[0], es[2]);
    SidesThrough(m.edges[es[0]], m.edges[es[1]], m.edges[es[2]], g, i);
  }

  /** In a mesh `closure` built from proper triangles, every corner lies on two of its face's edges. */
  lemma ClosureResolvesCorners(m0: Mesh, m: Mesh)
    requires Tri3(m0.faces) && Triangles(m0.faces) && Closure(m0) == Ok(m)
    ensures Consistent(m) && CornersResolved(m)
  {
    ClosureEdges(m0, m);
    forall f, i | 0 <= f < |m.faces| && 0 <= i < 3
      ensures |Through(m, f, m.faces[f].vs[i])| == 2
    {
      ClosureFaceEdges(m0, m, f);
      ThroughSides(m, f, m0.faces[f], i);
    }
  }

  /** A side of a proper triangle leaves exactly one of its corners off. */
  lemma OffOne(g: Face, ed: Edge)
    requires |g.vs| == 3 && g.vs[0] != g.vs[1] && g.vs[1] != g.vs[2] && g.vs[0] != g.vs[2]
    requires |ed.vs| == 2 && EdgeKey(ed) in CycleKeys(g)
    ensures |Off(g.vs, ed)| == 1
  {
    OnKey(ed, g.vs[0]);
    OnKey(ed, g.vs[1]);
    OnKey(ed, g.vs[2]);
    var k := EdgeKey(ed);
    var a, b, c := g.vs[0], g.vs[1], g.vs[2];
    assert {Key(a, b).0, Key(a, b).1} == {a, b};
    assert {Key(b, c).0, Key(b, c).1} == {b, c};
    assert {Key(c, a).0, Key(c, a).1} == {c, a};
    assert k == Key(a, b) || k == Key(b, c) || k == Key(c, a);
  }

  lemma StencilOfSides(m: Mesh, g0: Face, g1: Face, e: int)
    requires Consistent(m) && 0 <= e < |m.edges|
    requires g0.vs == m.faces[m.edges[e].fs[0]].vs && g1.vs == m.faces[m.edges[e].fs[1]].vs
    requires |g0.vs| == 3 && g0.vs[0] != g0.vs[1] && g0.vs[1] != g0.vs[2] && g0.vs[0] != g0.vs[2]
    requires |g1.vs| == 3 && g1.vs[0] != g1.vs[1] && g1.vs[1] != g1.vs[2] && g1.vs[0] != g1.vs[2]
    requires EdgeKey(m.edges[e]) in CycleKeys(g0) && EdgeKey(m.edges[e]) in CycleKeys(g1)
    ensures |OffEdge(m, e)| == 2
  {
    OffOne(g0, m.edges[e]);
    OffOne(g1, m.edges[e]);
  }

  /** In a mesh `closure` built from proper triangles, each edge's two faces offer exactly two off-edge corners. */
  lemma ClosureStencils(m0: Mesh, m: Mesh)
    requires Tri3(m0.faces) && Triangles(m0.faces) && Closure(m0) == Ok(m)
    ensures Consistent(m) && StencilsFit(m)
    ensures forall e :: 0 <= e < |m.edges| ==> |OffEdge(m, e)| == 2
  {
    forall e | 0 <= e < |m.edges|
      ensures |OffEdge(m, e)| == 2
    {
      ClosureTwoFaces(m0, m, e);
      var ed := m.edges[e];
      assert ed.fs[0] in ed.fs && ed.fs[1] in ed.fs;
      StencilOfSides(m, m0.faces[ed.fs[0]], m0.faces[ed.fs[1]], e);
    }
  }

  lemma NeighbourAt(m: Mesh, x: int, k: int)
    requires Consistent(m) && 0 <= x < |m.vertices| && 0 <= k < |Neighbours(m, x)|
    ensures Ascending(m.vertices[x].es)[k] in m.vertices[x].es
    ensures Neighbours(m, x)[k] == EdgeOther(m.edges[Ascending(m.vertices[x].es)[k]], x)
    ensures EdgeHasVert(m.edges[Ascending(m.vertices[x].es)[k]], x)
    ensures Neighbours(m, x)[k] in m.edges[Ascending(m.vertices[x].es)[k]].vs
  {
    var t := Ascending(m.vertices[x].es)[k];
    assert t in m.vertices[x].es;
    assert EdgeHasVert(m.edges[t], x);
  }

  /** w is an end of an edge that x lists and lies on. */
  ghost predicate Adjacent(m: Mesh, x: int, w: int)
    requires Consistent(m) && 0 <= x < |m.vertices|
  {
    exists t :: t in m.vertices[x].es && EdgeHasVert(m.edges[t], x) && w in m.edges[t].vs
  }

  /** Each neighbour of x shares an edge with x. */
  lemma NeighboursAdjacent(m: Mesh, x: int)
    requires Consistent(m) && 0 <= x < |m.vertices|
    ensures forall k :: 0 <= k < |Neighbours(m, x)| ==> Adjacent(m, x, Neighbours(m, x)[k])
  {
    forall k | 0 <= k < |Neighbours(m, x)|
      ensures Adjacent(m, x, Neighbours(m, x)[k])
    {
      NeighbourAt(m, x, k);
      var t := Ascending(m.vertices[x].es)[k];
      assert t in m.vertices[x].es && EdgeHasVert(m.edges[t], x) && Neighbours(m, x)[k] in m.edges[t].vs;
    }
  }

  /** Every edge of x contributes its other end to the neighbours. */
  lemma NeighboursCover(m: Mesh, x: int)
    requires Consistent(m) && 0 <= x < |m.vertices|
    ensures forall t :: t in m.vertices[x].es ==> EdgeOther(m.edges[t], x) in Neighbours(m, x)
  {
    var es := Ascending(m.vertices[x].es);
    forall t | t in m.vertices[x].es
      ensures EdgeOther(m.edges[t], x) in Neighbours(m, x)
    {
      var k :| 0 <= k < |es| && es[k] == t;
      NeighbourAt(m, x, k);
    }
  }

  /** Keeping the flagged ones of three values keeps their order. */
  lemma Picked(x0: int, x1: int, x2: int, b0: bool, b1: bool, b2: bool, ts: seq<int>)
    requires ts == (if b0 then [x0] else []) + (if b1 then [x1] else []) + (if b2 then [x2] else [])
    ensures forall x :: x in ts <==> (b0 && x == x0) || (b1 && x == x1) || (b2 && x == x2)
    ensures x0 < x1 < x2 ==> forall j, k :: 0 <= j < k < |ts| ==> ts[j] < ts[k]
  {
  }

  /** `ev` holds exactly the face's edges through v, in the face's edge order. */
  lemma ThroughFacts(m: Mesh, f: int, v: int)
    requires Consistent(m) && 0 <= f < |m.faces|
    ensures forall x :: x in m.faces[f].es ==> 0 <= x < |m.edges|
    ensures forall x :: x in Through(m, f, v) <==>
      x in m.faces[f].es && 0 <= x < |m.edges| && EdgeHasVert(m.edges[x], v)
    ensures m.faces[f].es[0] < m.faces[f].es[1] < m.faces[f].es[2] ==>
      forall j, k :: 0 <= j < k < |Through(m, f, v)| ==> Through(m, f, v)[j] < Through(m, f, v)[k]
  {
    var es := m.faces[f].es;
    assert es == [es[0], es[1], es[2]];
    assert 0 <= es[0] < |m.edges| && 0 <= es[1] < |m.edges| && 0 <= es[2] < |m.edges|;
    Picked(es[0], es[1], es[2], EdgeHasVert(m.edges[es[0]], v), EdgeHasVert(m.edges[es[1]], v),
           EdgeHasVert(m.edges[es[2]], v), Through(m, f, v));
  }

  /** Corner piece i is the old corner and the new vertices of `ev`. */
  lemma CornerPiece(m: Mesh, f: int, i: int)
    requires Consistent(m) && CornersResolved(m) && 0 <= f < |m.faces| && 0 <= i < 3
    ensures |Through(m, f, m.faces[f].vs[i])| == 2
    ensures Piece(m, f, i) == [m.faces[f].vs[i], |m.vertices| + Through(m, f, m.faces[f].vs[i])[0],
                               |m.vertices| + Through(m, f, m.faces[f].vs[i])[1]]
  {
  }

  /** The centre piece joins the new vertices of the face's three edges. */
  lemma CentrePiece(m: Mesh, f: int)
    requires Consistent(m) && CornersResolved(m) && 0 <= f < |m.faces|
    ensures forall c :: c in Piece(m, f, 3) <==> c >= |m.vertices| && c - |m.vertices| in m.faces[f].es
  {
  }

  /** A successful subdivision went through both checks and a successful `closure`. */
  lemma SubdivideStages(unit: Vec3 -> Vec3, m: Mesh, r: Mesh)
    requires Consistent(m) && Subdivide(unit, m) == Ok(r)
    ensures StencilsFit(m) && CornersResolved(m) && Closure(Refinement(unit, m)).Ok?
    ensures r == Closure(Refinement(unit, m)).value.(vertices := Placed(unit, m, Closure(Refinement(unit, m)).value.vertices))
  {
  }

  /** Changing only vertex positions keeps a mesh consistent. */
  lemma MovedConsistent(m: Mesh, vs: seq<Vertex>)
    requires Consistent(m) && |vs| == |m.vertices|
    requires forall x :: 0 <= x < |vs| ==> vs[x].id == m.vertices[x].id && vs[x].fs == m.vertices[x].fs && vs[x].es == m.vertices[x].es
    ensures Consistent(m.(vertices := vs))
  {
  }

  /** A subdivided mesh is consistent, with one new vertex per old edge and four faces per old face. */
  lemma SubdivideShape(unit: Vec3 -> Vec3, m: Mesh, r: Mesh)
    requires Consistent(m) && Subdivide(unit, m) == Ok(r)
    ensures Consistent(r)
    ensures |r.vertices| == |m.vertices| + |m.edges| && |r.faces| == 4 * |m.faces|
  {
    SubdivideStages(unit, m, r);
    var r0 := Closure(Refinement(unit, m)).value;
    MovedConsistent(r0, r.vertices);
    assert r == r0.(vertices := r.vertices);
  }

  /** Old vertices take the even rule, and the new vertex `nv + e` the odd rule of edge e. */
  lemma SubdividePlaces(unit: Vec3 -> Vec3, m: Mesh, r: Mesh)
    requires Consistent(m) && Subdivide(unit, m) == Ok(r)
    ensures StencilsFit(m) && |r.vertices| == |m.vertices| + |m.edges|
    ensures forall x :: 0 <= x < |m.vertices| ==> r.vertices[x].geom == Even(unit, m, x)
    ensures forall e :: 0 <= e < |m.edges| ==> r.vertices[|m.vertices| + e].geom == Odd(unit, m, e)
  {
    SubdivideStages(unit, m, r);
    var r0 := Closure(Refinement(unit, m)).value;
    assert |r0.vertices| == |m.vertices| + |m.edges|;
    assert r.vertices == Placed(unit, m, r0.vertices);
  }

  /**
   * Face `4 f + i` of a subdivided mesh holds the corners of piece i of old
   * face f, keeps its last corner in place, and faces the same way as f.
   */
  lemma SubdivideFace(unit: Vec3 -> Vec3, m: Mesh, r: Mesh, q: int)
    requires Consistent(m) && Subdivide(unit, m) == Ok(r) && 0 <= q < 4 * |m.faces|
    ensures CornersResolved(m) && |r.faces| == 4 * |m.faces|
    ensures multiset(r.faces[q].vs) == multiset(Piece(m, q / 4, q % 4))
    ensures r.faces[q].vs[2] == Piece(m, q / 4, q % 4)[2]
    ensures Dot3(TriangleNormal(unit, Pushed(unit, m), r.faces[q].vs),
                 TriangleNormal(unit, Pushed(unit, m), m.faces[q / 4].vs)) >= 0.0
  {
    SubdivideStages(unit, m, r);
    var n := Refinement(unit, m);
    assert r.faces[q].vs == n.faces[q].vs;
    OrientAgrees(unit, Pushed(unit, m), Piece(m, q / 4, q % 4), m.faces[q / 4].vs);
  }

  /** Each face lists its three edges in ascending id order, as `closure` leaves them. */
  predicate SidesAscending(m: Mesh)
    requires Shaped(m)
  {
    forall f :: 0 <= f < |m.faces| ==> m.faces[f].es[0] < m.faces[f].es[1] < m.faces[f].es[2]
  }

  lemma PieceDistinct(m: Mesh, f: int, i: int)
    requires Consistent(m) && CornersResolved(m) && SidesAscending(m) && Triangles(m.faces)
    requires 0 <= f < |m.faces| && 0 <= i < 4
    ensures Piece(m, f, i)[0] != Piece(m, f, i)[1] && Piece(m, f, i)[1] != Piece(m, f, i)[2]
    ensures Piece(m, f, i)[0] != Piece(m, f, i)[2]
  {
    var g := m.faces[f];
    assert g.es[0] < g.es[1] < g.es[2];
    if i < 3 {
      CornerPiece(m, f, i);
      ThroughFacts(m, f, g.vs[i]);
      var ts := Through(m, f, g.vs[i]);
      assert ts[0] in ts && ts[1] in ts;
      assert g.vs[i] < |m.vertices|;
    }
  }

  lemma RefinedFace(unit: Vec3 -> Vec3, m: Mesh, q: int)
    requires Consistent(m) && CornersResolved(m) && 0 <= q < 4 * |m.faces|
    ensures Refinement(unit, m).faces[q].vs == Orient(unit, Pushed(unit, m), Piece(m, q / 4, q % 4), m.faces[q / 4].vs)
  {
  }

  lemma OrientProper(unit: Vec3 -> Vec3, verts: seq<Vertex>, a: seq<int>, b: seq<int>)
    requires |a| == 3 && forall k :: 0 <= k < 3 ==> 0 <= a[k] < |verts|
    requires |b| == 3 && forall k :: 0 <= k < 3 ==> 0 <= b[k] < |verts|
    requires a[0] != a[1] && a[1] != a[2] && a[0] != a[2]
    ensures var r := Orient(unit, verts, a, b);
      r[0] != r[1] && r[1] != r[2] && r[0] != r[2] && forall k :: 0 <= k < 3 ==> 0 <= r[k] < |verts|
  {
    var r := Orient(unit, verts, a, b);
    assert r == a || r == [a[1], a[0], a[2]];
  }

  lemma RefinedFaceProper(unit: Vec3 -> Vec3, m: Mesh, q: int)
    requires Consistent(m) && CornersResolved(m) && SidesAscending(m) && Triangles(m.faces)
    requires 0 <= q < 4 * |m.faces|
    ensures var vs := Refinement(unit, m).faces[q].vs;
      |vs| == 3 && vs[0] != vs[1] && vs[1] != vs[2] && vs[0] != vs[2]
      && forall j :: 0 <= j < 3 ==> 0 <= vs[j] < |m.vertices| + |m.edges|
  {
    var a := Piece(m, q / 4, q % 4);
    PieceDistinct(m, q / 4, q % 4);
    RefinedFace(unit, m, q);
    OrientProper(unit, Pushed(unit, m), a, m.faces[q / 4].vs);
  }

  /** The refined faces of ascending, proper triangles are proper triangles on the enlarged vertex array. */
  lemma RefinedTriangles(unit: Vec3 -> Vec3, m: Mesh)
    requires Consistent(m) && CornersResolved(m) && SidesAscending(m) && Triangles(m.faces)
    ensures Triangles(Refinement(unit, m).faces)
    ensures CornersBelow(Refinement(unit, m).faces, |m.vertices| + |m.edges|)
  {
    var fs := Refinement(unit, m).faces;
    forall q | 0 <= q < |fs|
      ensures |fs[q].vs| == 3 && fs[q].vs[0] != fs[q].vs[1] && fs[q].vs[1] != fs[q].vs[2] && fs[q].vs[0] != fs[q].vs[2]
      ensures forall j :: 0 <= j < 3 ==> 0 <= fs[q].vs[j] < |m.vertices| + |m.edges|
    {
      RefinedFaceProper(unit, m, q);
    }
  }

  lemma ClosureSidesAscending(m0: Mesh, m: Mesh)
    requires Tri3(m0.faces) && Triangles(m0.faces) && Closure(m0) == Ok(m)
    ensures Consistent(m) && SidesAscending(m) && Triangles(m.faces)
  {
    forall f | 0 <= f < |m.faces|
      ensures m.faces[f].es[0] < m.faces[f].es[1] < m.faces[f].es[2]
    {
      ClosureFaceEdges(m0, m, f);
    }
  }

  /**
   * Subdividing a mesh that `closure` built from proper triangles passes
   * both checks and hands `closure` faces whose corners all exist: the only
   * way it can fail is a re-closure that finds an open edge, a short face
   * or an inconsistency.
   */
  lemma ClosedMeshSubdivides(unit: Vec3 -> Vec3, m0: Mesh, m: Mesh)
    requires Tri3(m0.faces) && Triangles(m0.faces) && Closure(m0) == Ok(m)
    ensures Subdivide(unit, m) != Err(OddStencil) && Subdivide(unit, m) != Err(CornerEdges)
    ensures Subdivide(unit, m) != Err(Reclosure(CornerOutOfRange))
  {
    ClosureResolvesCorners(m0, m);
    ClosureStencils(m0, m);
    ClosureSidesAscending(m0, m);
    RefinedTriangles(unit, m);
  }

  /** Every vertex position is a point: homogeneous coordinate w = 1. */
  predicate AllPoints(vs: seq<Vertex>)
  {
    forall x :: 0 <= x < |vs| ==> vs[x].geom.v.w == 1.0
  }

  /** The even rule maps points to a point. */
  lemma EvenIsPoint(unit: Vec3 -> Vec3, m: Mesh, x: int)
    requires Consistent(m) && 0 <= x < |m.vertices| && AllPoints(m.vertices)
    ensures Even(unit, m, x).v.w == 1.0
  {
    var ns := Neighbours(m, x);
    WeightsAffine(|ns|);
    AffineKeepsPoints(unit, Geoms(m, ns) + [m.vertices[x].geom], EvenWeights(|ns|));
  }

  /** The odd rule maps points to a point when the edge has its full four-corner stencil. */
  lemma OddIsPoint(unit: Vec3 -> Vec3, m: Mesh, e: int)
    requires Consistent(m) && 0 <= e < |m.edges| && |OffEdge(m, e)| == 2 && AllPoints(m.vertices)
    ensures Odd(unit, m, e).v.w == 1.0
  {
    var ed := m.edges[e];
    WeightsAffine(0);
    AffineKeepsPoints(unit, Geoms(m, OffEdge(m, e) + [ed.vs[0], ed.vs[1]]), OddWeights);
  }

  lemma PlacedPoints(unit: Vec3 -> Vec3, m: Mesh, r: Mesh)
    requires Consistent(m) && Subdivide(unit, m) == Ok(r) && AllPoints(m.vertices)
    requires forall e :: 0 <= e < |m.edges| ==> |OffEdge(m, e)| == 2
    ensures AllPoints(r.vertices)
  {
    SubdividePlaces(unit, m, r);
    PlacesArePoints(unit, m, r.vertices);
  }

  /** Positions set by the even and odd rules from points are points. */
  lemma PlacesArePoints(unit: Vec3 -> Vec3, m: Mesh, vs: seq<Vertex>)
    requires Consistent(m) && StencilsFit(m) && AllPoints(m.vertices)
    requires forall e :: 0 <= e < |m.edges| ==> |OffEdge(m, e)| == 2
    requires |vs| == |m.vertices| + |m.edges|
    requires forall x :: 0 <= x < |m.vertices| ==> vs[x].geom == Even(unit, m, x)
    requires forall e :: 0 <= e < |m.edges| ==> vs[|m.vertices| + e].geom == Odd(unit, m, e)
    ensures AllPoints(vs)
  {
    EvenPlacesArePoints(unit, m, vs);
    OddPlacesArePoints(unit, m, vs);
  }

  lemma EvenPlacesArePoints(unit: Vec3 -> Vec3, m: Mesh, vs: seq<Vertex>)
    requires Consistent(m) && AllPoints(m.vertices) && |vs| >= |m.vertices|
    requires forall x :: 0 <= x < |m.vertices| ==> vs[x].geom == Even(unit, m, x)
    ensures forall x :: 0 <= x < |m.vertices| ==> vs[x].geom.v.w == 1.0
  {
    forall x | 0 <= x < |m.vertices|
      ensures vs[x].geom.v.w == 1.0
    {
      EvenIsPoint(unit, m, x);
    }
  }

  lemma OddPlacesArePoints(unit: Vec3 -> Vec3, m: Mesh, vs: seq<Vertex>)
    requires Consistent(m) && AllPoints(m.vertices) && |vs| == |m.vertices| + |m.edges|
    requires forall e :: 0 <= e < |m.edges| ==> |OffEdge(m, e)| == 2
    requires forall e :: 0 <= e < |m.edges| ==> vs[|m.vertices| + e].geom == Odd(unit, m, e)
    ensures forall x :: |m.vertices| <= x < |vs| ==> vs[x].geom.v.w == 1.0
  {
    var nv := |m.vertices|;
    forall x | nv <= x < |vs|
      ensures vs[x].geom.v.w == 1.0
    {
      var e := x - nv;
      assert vs[nv + e].geom == Odd(unit, m, e);
      OddIsPoint(unit, m, e);
    }
  }

  /** Subdividing a `closure` of proper triangles whose positions are points leaves every position a point. */
  lemma SubdividePoints(unit: Vec3 -> Vec3, m0: Mesh, m: Mesh, r: Mesh)
    requires Tri3(m0.faces) && Triangles(m0.faces) && Closure(m0) == Ok(m)
    requires Subdivide(unit, m) == Ok(r) && AllPoints(m.vertices)
    ensures AllPoints(r.vertices)
  {
    ClosureStencils(m0, m);
    PlacedPoints(unit, m, r);
  }
}
