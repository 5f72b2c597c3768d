/**
 * The subdivision mesh: vertices, faces and edges in three arrays whose ids
 * should equal their positions, with incidence stored on every element.
 * A face has three corners and three edges; an edge has two endpoints and
 * two faces; a vertex has sets of faces and edges. `closure` rebuilds the
 * edges and all incidence from the faces' corners; `consistent` checks the
 * result; `loopSubdivide` splits every face into four.
 *
 * Face and edge arrays of fixed size three and two are sequences here. A
 * field the source leaves uninitialised (a new face's edges, a new edge's
 * faces) is the empty sequence until `closure` fills it.
 */
module OneMesh {
  import opened Wrappers
  import opened Homogeneous
  import opened Sets
  import opened Candidates

  datatype Geometry = Geometry(v: Vec4, vn: Vec4)

  datatype Vertex = Vertex(id: int, geom: Geometry, fs: set<int>, es: set<int>)

  datatype Face = Face(id: int, vs: seq<int>, es: seq<int>)

  datatype Edge = Edge(id: int, vs: seq<int>, fs: seq<int>)

  datatype Mesh = Mesh(vertices: seq<Vertex>, faces: seq<Face>, edges: seq<Edge>)

  /** `Face::hasVert`: one of the three corners is `v`. */
  predicate FaceHasVert(f: Face, v: int)
    requires |f.vs| == 3
  {
    f.vs[0] == v || f.vs[1] == v || f.vs[2] == v
  }

  /** `Face::hasEdge`: one of the three edges is `e`. */
  predicate FaceHasEdge(f: Face, e: int)
    requires |f.es| == 3
  {
    f.es[0] == e || f.es[1] == e || f.es[2] == e
  }

  /** `Edge::hasVert`. */
  predicate EdgeHasVert(e: Edge, u: int)
    requires |e.vs| == 2
  {
    u == e.vs[0] || u == e.vs[1]
  }

  /** `Edge::hasFace`. */
  predicate EdgeHasFace(e: Edge, f: int)
    requires |e.fs| == 2
  {
    f == e.fs[0] || f == e.fs[1]
  }

  /** The four membership tests are exactly membership in the stored arrays. */
  lemma MembershipExact(f: Face, e: Edge, x: int)
    requires |f.vs| == 3 && |f.es| == 3 && |e.vs| == 2 && |e.fs| == 2
    ensures FaceHasVert(f, x) <==> x in f.vs
    ensures FaceHasEdge(f, x) <==> x in f.es
    ensures EdgeHasVert(e, x) <==> x in e.vs
    ensures EdgeHasFace(e, x) <==> x in e.fs
  {
  }

  /** `Edge::v(u)`: the endpoint that is not `u`, or `vs[0]` when `u` is not `vs[0]`. */
  function EdgeOther(e: Edge, u: int): (w: int)
    requires |e.vs| == 2
    ensures w in e.vs
    ensures EdgeHasVert(e, u) && e.vs[0] != e.vs[1] ==> w != u
  {
    if u == e.vs[0] then e.vs[1] else e.vs[0]
  }

  /** Taking the other endpoint twice returns to where one started. */
  lemma EdgeOtherInvolution(e: Edge, u: int)
    requires |e.vs| == 2 && EdgeHasVert(e, u)
    ensures EdgeHasVert(e, EdgeOther(e, u))
    ensures EdgeOther(e, EdgeOther(e, u)) == u
  {
  }

  function Min2(a: int, b: int): int { if a < b then a else b }

  function Max2(a: int, b: int): int { if a < b then b else a }

  /** The normalised endpoint pair `(min, max)` that `Edge::operator<` compares. */
  function Key(a: int, b: int): (k: (int, int))
    ensures k.0 <= k.1
    ensures {k.0, k.1} == {a, b}
  {
    (Min2(a, b), Max2(a, b))
  }

  function EdgeKey(e: Edge): (int, int)
    requires |e.vs| == 2
  {
    Key(e.vs[0], e.vs[1])
  }

  /** `Edge::operator<`: lexicographic order on the normalised pairs. */
  predicate EdgeLess(e: Edge, t: Edge)
    requires |e.vs| == 2 && |t.vs| == 2
  {
    PairLess(EdgeKey(e).0, EdgeKey(e).1, EdgeKey(t).0, EdgeKey(t).1)
  }

  /**
   * `Edge::operator<` is a strict weak order whose equivalence classes are
   * the unordered endpoint pairs: {a, b} and {b, a} are the same map key.
   */
  lemma EdgeOrder(e: Edge, t: Edge, u: Edge)
    requires |e.vs| == 2 && |t.vs| == 2 && |u.vs| == 2
    ensures !EdgeLess(e, e)
    ensures EdgeLess(e, t) && EdgeLess(t, u) ==> EdgeLess(e, u)
    ensures !EdgeLess(e, t) && !EdgeLess(t, e) <==> {e.vs[0], e.vs[1]} == {t.vs[0], t.vs[1]}
    ensures EdgeLess(e, t) || EdgeLess(t, e) || EdgeKey(e) == EdgeKey(t)
  {
    var a := e.vs[0];
    var b := e.vs[1];
    var c := t.vs[0];
    var d := t.vs[1];
    if {a, b} == {c, d} {
      assert EdgeKey(e) == EdgeKey(t) by {
        assert a in {c, d} && b in {c, d} && c in {a, b} && d in {a, b};
      }
    }
    if !EdgeLess(e, t) && !EdgeLess(t, e) {
      assert EdgeKey(e) == EdgeKey(t);
      assert {a, b} == {EdgeKey(e).0, EdgeKey(e).1};
    }
  }

  /** Face shape and edge shape fixed by the C++ array sizes. */
  predicate Shaped(m: Mesh)
  {
    && (forall i :: 0 <= i < |m.faces| ==> |m.faces[i].vs| == 3 && |m.faces[i].es| == 3)
    && (forall i :: 0 <= i < |m.edges| ==> |m.edges[i].vs| == 2 && |m.edges[i].fs| == 2)
  }

  /** Every index `consistent` follows points into its array. */
  predicate Indexable(m: Mesh)
  {
    && Shaped(m)
    && (forall i, j :: 0 <= i < |m.vertices| && j in m.vertices[i].es ==> 0 <= j < |m.edges|)
    && (forall i, j :: 0 <= i < |m.vertices| && j in m.vertices[i].fs ==> 0 <= j < |m.faces|)
    && (forall i, k :: 0 <= i < |m.faces| && 0 <= k < 3 ==> 0 <= m.faces[i].es[k] < |m.edges|)
    && (forall i, k :: 0 <= i < |m.faces| && 0 <= k < 3 ==> 0 <= m.faces[i].vs[k] < |m.vertices|)
    && (forall i, k :: 0 <= i < |m.edges| && 0 <= k < 2 ==> 0 <= m.edges[i].fs[k] < |m.faces|)
    && (forall i, k :: 0 <= i < |m.edges| && 0 <= k < 2 ==> 0 <= m.edges[i].vs[k] < |m.vertices|)
  }

  predicate IdsDense(m: Mesh)
  {
    && (forall i :: 0 <= i < |m.vertices| ==> m.vertices[i].id == i)
    && (forall i :: 0 <= i < |m.faces| ==> m.faces[i].id == i)
    && (forall i :: 0 <= i < |m.edges| ==> m.edges[i].id == i)
  }

  /** Each element's stored neighbours list it back, for all six directions. */
  predicate Incidences(m: Mesh)
    requires Indexable(m)
  {
    && (forall i, j :: 0 <= i < |m.vertices| && j in m.vertices[i].es ==> EdgeHasVert(m.edges[j], i))
    && (forall i, j :: 0 <= i < |m.vertices| && j in m.vertices[i].fs ==> FaceHasVert(m.faces[j], i))
    && (forall i, k :: 0 <= i < |m.faces| && 0 <= k < 3 ==> EdgeHasFace(m.edges[m.faces[i].es[k]], i))
    && (forall i, k :: 0 <= i < |m.faces| && 0 <= k < 3 ==> i in m.vertices[m.faces[i].vs[k]].fs)
    && (forall i, k :: 0 <= i < |m.edges| && 0 <= k < 2 ==> FaceHasEdge(m.faces[m.edges[i].fs[k]], i))
    && (forall i, k :: 0 <= i < |m.edges| && 0 <= k < 2 ==> i in m.vertices[m.edges[i].vs[k]].es)
  }

  /** What `consistent()` accepts: dense ids and mutually inclusive incidence. */
  predicate Consistent(m: Mesh)
  {
    Indexable(m) && IdsDense(m) && Incidences(m)
  }

  /** The two meshes differ at most in their vertices' geometry. */
  predicate SameButGeometry(m1: Mesh, m2: Mesh)
  {
    && m1.faces == m2.faces && m1.edges == m2.edges && |m1.vertices| == |m2.vertices|
    && forall x :: 0 <= x < |m1.vertices| ==>
         m1.vertices[x].id == m2.vertices[x].id && m1.vertices[x].fs == m2.vertices[x].fs && m1.vertices[x].es == m2.vertices[x].es
  }

  /** `consistent` never looks at positions or normals. */
  lemma ConsistentIgnoresGeometry(m1: Mesh, m2: Mesh)
    requires SameButGeometry(m1, m2)
    ensures Consistent(m1) <==> Consistent(m2)
  {
  }

  /**
   * `Mesh::consistent`: the id checks, then for each element the check that
   * every neighbour it stores lists it back. The loops stop at the first
   * failure; their verdict is exactly `Consistent`.
   */
  method CheckConsistent(m: Mesh) returns (ok: bool)
    requires Indexable(m)
    ensures ok <==> Consistent(m)
  {
    var i := 0;
    while i < |m.vertices|
      invariant 0 <= i <= |m.vertices|
      invariant forall k :: 0 <= k < i ==> m.vertices[k].id == k
    {
      if m.vertices[i].id != i { return false; }
      i := i + 1;
    }
    i := 0;
    while i < |m.faces|
      invariant 0 <= i <= |m.faces|
      invariant forall k :: 0 <= k < i ==> m.faces[k].id == k
    {
      if m.faces[i].id != i { return false; }
      i := i + 1;
    }
    i := 0;
    while i < |m.edges|
      invariant 0 <= i <= |m.edges|
      invariant forall k :: 0 <= k < i ==> m.edges[k].id == k
    {
      if m.edges[i].id != i { return false; }
      i := i + 1;
    }
    ok := VertexChecks(m);
    if !ok { return; }
    ok := FaceChecks(m);
    if !ok { return; }
    ok := EdgeChecks(m);
  }

  /** The vertex loop of `consistent`: each stored edge and face has the vertex. */
  method VertexChecks(m: Mesh) returns (ok: bool)
    requires Indexable(m)
    ensures ok <==> (forall i, j :: 0 <= i < |m.vertices| && j in m.vertices[i].es ==> EdgeHasVert(m.edges[j], i))
                    && (forall i, j :: 0 <= i < |m.vertices| && j in m.vertices[i].fs ==> FaceHasVert(m.faces[j], i))
  {
    var i := 0;
    while i < |m.vertices|
      invariant 0 <= i <= |m.vertices|
      invariant forall k, j :: 0 <= k < i && j in m.vertices[k].es ==> EdgeHasVert(m.edges[j], k)
      invariant forall k, j :: 0 <= k < i && j in m.vertices[k].fs ==> FaceHasVert(m.faces[j], k)
    {
      var es := m.vertices[i].es;
      while es != {}
        invariant es <= m.vertices[i].es
        invariant forall j :: j in m.vertices[i].es - es ==> EdgeHasVert(m.edges[j], i)
        decreases |es|
      {
        var j := Min(es);
        if !EdgeHasVert(m.edges[j], i) { return false; }
        es := es - {j};
      }
      var fs := m.vertices[i].fs;
      while fs != {}
        invariant fs <= m.vertices[i].fs
        invariant forall j :: j in m.vertices[i].fs - fs ==> FaceHasVert(m.faces[j], i)
        decreases |fs|
      {
        var j := Min(fs);
        if !FaceHasVert(m.faces[j], i) { return false; }
        fs := fs - {j};
      }
      i := i + 1;
    }
    return true;
  }

  /** The face loop of `consistent`: each edge of a face has the face, each corner lists it. */
  method FaceChecks(m: Mesh) returns (ok: bool)
    requires Indexable(m)
    ensures ok <==> (forall i, k :: 0 <= i < |m.faces| && 0 <= k < 3 ==> EdgeHasFace(m.edges[m.faces[i].es[k]], i))
                    && (forall i, k :: 0 <= i < |m.faces| && 0 <= k < 3 ==> i in m.vertices[m.faces[i].vs[k]].fs)
  {
    var i := 0;
    while i < |m.faces|
      invariant 0 <= i <= |m.faces|
      invariant forall p, k :: 0 <= p < i && 0 <= k < 3 ==> EdgeHasFace(m.edges[m.faces[p].es[k]], p)
      invariant forall p, k :: 0 <= p < i && 0 <= k < 3 ==> p in m.vertices[m.faces[p].vs[k]].fs
    {
      var k := 0;
      while k < 3
        invariant 0 <= k <= 3
        invariant forall q :: 0 <= q < k ==> EdgeHasFace(m.edges[m.faces[i].es[q]], i)
      {
        if !EdgeHasFace(m.edges[m.faces[i].es[k]], i) { return false; }
        k := k + 1;
      }
      k := 0;
      while k < 3
        invariant 0 <= k <= 3
        invariant forall q :: 0 <= q < k ==> i in m.vertices[m.faces[i].vs[q]].fs
      {
        if i !in m.vertices[m.faces[i].vs[k]].fs { return false; }
        k := k + 1;
      }
      i := i + 1;
    }
    return true;
  }

  /** The edge loop of `consistent`: each face of an edge has the edge, each endpoint lists it. */
  method EdgeChecks(m: Mesh) returns (ok: bool)
    requires Indexable(m)
    ensures ok <==> (forall i, k :: 0 <= i < |m.edges| && 0 <= k < 2 ==> FaceHasEdge(m.faces[m.edges[i].fs[k]], i))
                    && (forall i, k :: 0 <= i < |m.edges| && 0 <= k < 2 ==> i in m.vertices[m.edges[i].vs[k]].es)
  {
    var i := 0;
    while i < |m.edges|
      invariant 0 <= i <= |m.edges|
      invariant forall p, k :: 0 <= p < i && 0 <= k < 2 ==> FaceHasEdge(m.faces[m.edges[p].fs[k]], p)
      invariant forall p, k :: 0 <= p < i && 0 <= k < 2 ==> p in m.vertices[m.edges[p].vs[k]].es
    {
      var k := 0;
      while k < 2
        invariant 0 <= k <= 2
        invariant forall q :: 0 <= q < k ==> FaceHasEdge(m.faces[m.edges[i].fs[q]], i)
      {
        if !FaceHasEdge(m.faces[m.edges[i].fs[k]], i) { return false; }
        k := k + 1;
      }
      k := 0;
      while k < 2
        invariant 0 <= k <= 2
        invariant forall q :: 0 <= q < k ==> i in m.vertices[m.edges[i].vs[q]].es
      {
        if i !in m.vertices[m.edges[i].vs[k]].es { return false; }
        k := k + 1;
      }
      i := i + 1;
    }
    return true;
  }
}
