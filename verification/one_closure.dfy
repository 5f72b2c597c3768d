/**
 * `Mesh::closure`: given faces with corners and vertices with geometry,
 * rebuild the edge array and all incidence. The edges are the distinct
 * unordered corner pairs, in `Edge::operator<` order (the iteration order of
 * the `std::map` keyed by them); each keeps the orientation first visited
 * and the first two faces that visit it. A face's edges are the first three
 * edges listing it. Where the source reads past the end of a vector or
 * indexes outside the vertex array the result here is an error; the final
 * `exit` on an inconsistent mesh is the `Inconsistent` error.
 */
module OneClosure {
  import opened Wrappers
  import opened Sets
  import opened Candidates
  import opened OneMesh

  datatype ClosureError = CornerOutOfRange | OpenEdge | ShortFace | Inconsistent

  /** Every face has the three corners its array holds. */
  predicate Tri3(faces: seq<Face>)
  {
    forall i :: 0 <= i < |faces| ==> |faces[i].vs| == 3
  }

  /** Every face is a proper triangle: three pairwise distinct corners. */
  predicate Triangles(faces: seq<Face>)
  {
    forall i :: 0 <= i < |faces| ==>
      |faces[i].vs| == 3 && faces[i].vs[0] != faces[i].vs[1]
      && faces[i].vs[1] != faces[i].vs[2] && faces[i].vs[0] != faces[i].vs[2]
  }

  /** Every corner names a vertex. */
  predicate CornersBelow(faces: seq<Face>, n: int)
    requires Tri3(faces)
  {
    forall i, j :: 0 <= i < |faces| && 0 <= j < 3 ==> 0 <= faces[i].vs[j] < n
  }

  /** The key of the `j`-th corner pair `(vs[j], vs[(j + 1) % 3])`. */
  function PairKey(f: Face, j: int): (int, int)
    requires |f.vs| == 3 && 0 <= j < 3
  {
    Key(f.vs[j], f.vs[(j + 1) % 3])
  }

  /** The keys of a face's three sides. */
  function CycleKeys(f: Face): set<(int, int)>
    requires |f.vs| == 3
  {
    {PairKey(f, 0), PairKey(f, 1), PairKey(f, 2)}
  }

  /** Pair keys of a face as integers: `a * n + b` orders like `(a, b)`. */
  function Code(k: (int, int), n: int): int
  {
    k.0 * n + k.1
  }

  function Decode(c: int, n: int): (int, int)
    requires n > 0
  {
    (c / n, c % n)
  }

  lemma CodeDecode(k: (int, int), n: int)
    requires 0 <= k.0 < n && 0 <= k.1 < n
    ensures Decode(Code(k, n), n) == k
  {
    var c := Code(k, n);
    var q := c / n;
    var r := c % n;
    assert c == q * n + r;
    assert (k.0 - q) * n == r - k.1;
    MulBounds(k.0 - q, n);
  }

  /** A non-zero multiple of `n` is at least `n` away from zero. */
  lemma MulBounds(d: int, n: int)
    requires n > 0
    ensures d >= 1 ==> d * n >= n
    ensures d <= -1 ==> d * n <= -n
  {
    assert d * n == (d - 1) * n + n;
    assert d * n == (d + 1) * n - n;
    assert d >= 1 ==> (d - 1) * n >= 0;
    assert d <= -1 ==> (d + 1) * n <= 0;
  }

  lemma CodeOrder(k: (int, int), l: (int, int), n: int)
    requires 0 <= k.0 < n && 0 <= k.1 < n && 0 <= l.0 < n && 0 <= l.1 < n
    ensures Code(k, n) < Code(l, n) <==> PairLess(k.0, k.1, l.0, l.1)
  {
    if k.0 < l.0 {
      RowBelow(k, l, n);
    } else if l.0 < k.0 {
      RowBelow(l, k, n);
    }
  }

  /** A key in an earlier row codes below any key in a later row. */
  lemma RowBelow(k: (int, int), l: (int, int), n: int)
    requires 0 <= k.0 < l.0 && 0 <= k.1 < n && 0 <= l.1
    ensures Code(k, n) < Code(l, n)
  {
    var d := l.0 - k.0;
    assert d >= 1;
    assert Code(l, n) == Code(k, n) + d * n + (l.1 - k.1);
    assert d * n >= n by {
      assert (d - 1) * n >= 0;
      assert d * n == (d - 1) * n + n;
    }
  }

  /** The set of side keys over all faces, coded as integers. */
  function AllCodes(faces: seq<Face>, n: int): set<int>
    requires Tri3(faces)
  {
    set i, j | 0 <= i < |faces| && 0 <= j < 3 :: Code(PairKey(faces[i], j), n)
  }

  /** Some face has side key `k`. */
  ghost predicate IsSide(faces: seq<Face>, k: (int, int))
    requires Tri3(faces)
  {
    exists i :: 0 <= i < |faces| && k in CycleKeys(faces[i])
  }

  /** The keys of `edge2face`, in the map's order: each side key once, ascending. */
  function KeyList(faces: seq<Face>, n: int): (ks: seq<(int, int)>)
    requires Tri3(faces)
  {
    if n <= 0 then []
    else
      var cs := Ascending(AllCodes(faces, n));
      seq(|cs|, e requires 0 <= e < |cs| => Decode(cs[e], n))
  }

  /** Each key is a side of some face, and codes back to the entry it came from. */
  lemma KeyListSides(faces: seq<Face>, n: int)
    requires Tri3(faces) && CornersBelow(faces, n)
    ensures forall e :: 0 <= e < |KeyList(faces, n)| ==> IsSide(faces, KeyList(faces, n)[e])
    ensures forall e :: 0 <= e < |KeyList(faces, n)| ==>
      0 <= KeyList(faces, n)[e].0 < n && 0 <= KeyList(faces, n)[e].1 < n
      && Code(KeyList(faces, n)[e], n) == Ascending(AllCodes(faces, n))[e]
  {
    var ks := KeyList(faces, n);
    forall e | 0 <= e < |ks|
      ensures IsSide(faces, ks[e])
      ensures 0 <= ks[e].0 < n && 0 <= ks[e].1 < n && Code(ks[e], n) == Ascending(AllCodes(faces, n))[e]
    {
      var cs := Ascending(AllCodes(faces, n));
      assert cs[e] in AllCodes(faces, n);
      var i, j :| 0 <= i < |faces| && 0 <= j < 3 && cs[e] == Code(PairKey(faces[i], j), n);
      CodeDecode(PairKey(faces[i], j), n);
      assert ks[e] == PairKey(faces[i], j);
      assert ks[e] in CycleKeys(faces[i]) by { assert j == 0 || j == 1 || j == 2; }
    }
  }

  /** The keys strictly ascend under `Edge::operator<`. */
  lemma KeyListSorted(faces: seq<Face>, n: int)
    requires Tri3(faces) && CornersBelow(faces, n)
    ensures forall a, b :: 0 <= a < b < |KeyList(faces, n)| ==>
      PairLess(KeyList(faces, n)[a].0, KeyList(faces, n)[a].1, KeyList(faces, n)[b].0, KeyList(faces, n)[b].1)
  {
    var ks := KeyList(faces, n);
    KeyListSides(faces, n);
    forall a, b | 0 <= a < b < |ks|
      ensures PairLess(ks[a].0, ks[a].1, ks[b].0, ks[b].1)
    {
      CodeOrder(ks[a], ks[b], n);
    }
  }

  /** Every side of every face has its key in the list. */
  lemma KeyListCovers(faces: seq<Face>, n: int, i: int, j: int)
    requires Tri3(faces) && CornersBelow(faces, n)
    requires 0 <= i < |faces| && 0 <= j < 3
    ensures PairKey(faces[i], j) in KeyList(faces, n)
  {
    assert 0 <= faces[i].vs[0] < n;
    var cs := Ascending(AllCodes(faces, n));
    var c := Code(PairKey(faces[i], j), n);
    assert c in AllCodes(faces, n);
    var e :| 0 <= e < |cs| && cs[e] == c;
    CodeDecode(PairKey(faces[i], j), n);
    assert KeyList(faces, n)[e] == PairKey(faces[i], j);
  }

  /** Face `i` once for each of its sides with key `k`. */
  function OnFace(f: Face, i: int, k: (int, int)): (r: seq<int>)
    requires |f.vs| == 3
    ensures forall x :: x in r ==> x == i
    ensures |r| > 0 <==> k in CycleKeys(f)
  {
    (if PairKey(f, 0) == k then [i] else [])
    + (if PairKey(f, 1) == k then [i] else [])
    + (if PairKey(f, 2) == k then [i] else [])
  }

  /** The three sides of a proper triangle have three different keys. */
  lemma SidesDistinct(f: Face)
    requires |f.vs| == 3 && f.vs[0] != f.vs[1] && f.vs[1] != f.vs[2] && f.vs[0] != f.vs[2]
    ensures PairKey(f, 0) != PairKey(f, 1) && PairKey(f, 1) != PairKey(f, 2) && PairKey(f, 0) != PairKey(f, 2)
    ensures forall k :: |OnFace(f, 0, k)| <= 1
  {
    var a, b, c := f.vs[0], f.vs[1], f.vs[2];
    assert {PairKey(f, 0).0, PairKey(f, 0).1} == {a, b};
    assert {PairKey(f, 1).0, PairKey(f, 1).1} == {b, c};
    assert {PairKey(f, 2).0, PairKey(f, 2).1} == {c, a};
    assert a !in {b, c} && b !in {c, a} && c !in {a, b};
  }

  /** `edge2face[k]`: the faces visiting side `k`, once per visit, in face order. */
  function FacesOn(faces: seq<Face>, k: (int, int)): seq<int>
    requires Tri3(faces)
    decreases |faces|
  {
    if faces == [] then []
    else
      var i := |faces| - 1;
      FacesOn(faces[..i], k) + OnFace(faces[i], i, k)
  }

  /** A face is listed for `k` exactly when one of its sides has key `k`. */
  lemma {:induction false} FacesOnMembers(faces: seq<Face>, k: (int, int))
    requires Tri3(faces)
    ensures forall x :: x in FacesOn(faces, k) <==> 0 <= x < |faces| && k in CycleKeys(faces[x])
    ensures forall a, b :: 0 <= a < b < |FacesOn(faces, k)| ==> FacesOn(faces, k)[a] <= FacesOn(faces, k)[b]
    decreases |faces|
  {
    if faces != [] {
      var i := |faces| - 1;
      FacesOnMembers(faces[..i], k);
      assert forall x :: 0 <= x < i ==> faces[..i][x] == faces[x];
      var p := FacesOn(faces[..i], k);
      var q := OnFace(faces[i], i, k);
      assert FacesOn(faces, k) == p + q;
      forall a, b | 0 <= a < b < |p + q|
        ensures (p + q)[a] <= (p + q)[b]
      {
        if b >= |p| {
          assert (p + q)[b] == q[b - |p|] && q[b - |p|] in q;
          if a < |p| {
            assert (p + q)[a] == p[a] && p[a] in p;
          } else {
            assert (p + q)[a] == q[a - |p|] && q[a - |p|] in q;
          }
        }
      }
    }
  }

  /** Over proper triangles each face visits a side at most once, so the list strictly ascends. */
  lemma {:induction false} FacesOnStrict(faces: seq<Face>, k: (int, int))
    requires Tri3(faces) && Triangles(faces)
    ensures forall a, b :: 0 <= a < b < |FacesOn(faces, k)| ==> FacesOn(faces, k)[a] < FacesOn(faces, k)[b]
    decreases |faces|
  {
    if faces != [] {
      var i := |faces| - 1;
      FacesOnStrict(faces[..i], k);
      FacesOnMembers(faces[..i], k);
      assert forall x :: 0 <= x < i ==> faces[..i][x] == faces[x];
      var p := FacesOn(faces[..i], k);
      var q := OnFace(faces[i], i, k);
      SidesDistinct(faces[i]);
      assert |q| == |OnFace(faces[i], 0, k)|;
      assert FacesOn(faces, k) == p + q;
      forall a, b | 0 <= a < b < |p + q|
        ensures (p + q)[a] < (p + q)[b]
      {
        if b >= |p| {
          assert a < |p|;
          assert (p + q)[b] == q[b - |p|] && q[b - |p|] in q;
          assert (p + q)[a] == p[a] && p[a] in p;
        }
      }
    }
  }

  /** The first face, in face order, with side key `k`. */
  function FirstFace(faces: seq<Face>, k: (int, int)): (i: nat)
    requires Tri3(faces) && IsSide(faces, k)
    ensures i < |faces| && k in CycleKeys(faces[i])
    ensures forall p :: 0 <= p < i ==> k !in CycleKeys(faces[p])
    decreases |faces|
  {
    if k in CycleKeys(faces[0]) then 0
    else
      var i :| 0 <= i < |faces| && k in CycleKeys(faces[i]);
      assert k in CycleKeys(faces[1..][i - 1]);
      1 + FirstFace(faces[1..], k)
  }

  /** The first corner `j` of `f` whose side has key `k`. */
  function FirstCorner(f: Face, k: (int, int)): (j: nat)
    requires |f.vs| == 3 && k in CycleKeys(f)
    ensures j < 3 && PairKey(f, j) == k
    ensures forall p :: 0 <= p < j ==> PairKey(f, p) != k
  {
    if PairKey(f, 0) == k then 0 else if PairKey(f, 1) == k then 1 else 2
  }

  /** The endpoints of side `k` as first visited: `edge2face` keeps the first key inserted. */
  function Orientation(faces: seq<Face>, k: (int, int)): (vs: seq<int>)
    requires Tri3(faces) && IsSide(faces, k)
    ensures |vs| == 2 && Key(vs[0], vs[1]) == k
  {
    var f := faces[FirstFace(faces, k)];
    var j := FirstCorner(f, k);
    [f.vs[j], f.vs[(j + 1) % 3]]
  }

  /** Every side is visited at least twice: `p.second[1]` exists for every key. */
  predicate Closed(faces: seq<Face>, ks: seq<(int, int)>)
    requires Tri3(faces)
  {
    forall e :: 0 <= e < |ks| ==> |FacesOn(faces, ks[e])| >= 2
  }

  /** The rebuilt edge array: one edge per key, numbered in key order. */
  function EdgeList(faces: seq<Face>, n: int): (edges: seq<Edge>)
    requires Tri3(faces) && CornersBelow(faces, n) && Closed(faces, KeyList(faces, n))
    ensures |edges| == |KeyList(faces, n)|
    ensures forall e :: 0 <= e < |edges| ==> |edges[e].vs| == 2 && |edges[e].fs| == 2
  {
    KeyListSides(faces, n);
    var ks := KeyList(faces, n);
    seq(|ks|, e requires 0 <= e < |ks| => Edge(e, Orientation(faces, ks[e]), FacesOn(faces, ks[e])[..2]))
  }

  /** The faces listing vertex `x` among their corners, by id. */
  function FacesAt(faces: seq<Face>, x: int): set<int>
  {
    set i | 0 <= i < |faces| && x in faces[i].vs :: faces[i].id
  }

  /** The edges with endpoint `x`, by id. */
  function EdgesAt(edges: seq<Edge>, x: int): set<int>
  {
    set e | 0 <= e < |edges| && x in edges[e].vs :: edges[e].id
  }

  /** One entry for each face slot of `e` that names `i`. */
  function Slots(e: Edge, x: int, i: int): (r: seq<int>)
    requires |e.fs| == 2
    ensures forall y :: y in r ==> y == x
    ensures |r| > 0 <==> i in e.fs
  {
    (if e.fs[0] == i then [x] else []) + (if e.fs[1] == i then [x] else [])
  }

  /** `face2edge[i]`: edge indices whose face slots name `i`, once per slot, ascending. */
  function EdgesWithFace(edges: seq<Edge>, i: int): seq<int>
    requires forall e :: 0 <= e < |edges| ==> |edges[e].fs| == 2
    decreases |edges|
  {
    if edges == [] then []
    else
      var e := |edges| - 1;
      EdgesWithFace(edges[..e], i) + Slots(edges[e], e, i)
  }

  /** An edge is listed for face `i` exactly when one of its slots names `i`; the list ascends. */
  lemma {:induction false} EdgesWithFaceMembers(edges: seq<Edge>, i: int)
    requires forall e :: 0 <= e < |edges| ==> |edges[e].fs| == 2
    ensures forall x :: x in EdgesWithFace(edges, i) <==> 0 <= x < |edges| && i in edges[x].fs
    ensures forall a, b :: 0 <= a < b < |EdgesWithFace(edges, i)| ==>
      EdgesWithFace(edges, i)[a] <= EdgesWithFace(edges, i)[b]
    decreases |edges|
  {
    if edges != [] {
      var e := |edges| - 1;
      EdgesWithFaceMembers(edges[..e], i);
      assert forall x :: 0 <= x < e ==> edges[..e][x] == edges[x];
      var p := EdgesWithFace(edges[..e], i);
      var q := Slots(edges[e], e, i);
      assert EdgesWithFace(edges, i) == p + q;
      forall a, b | 0 <= a < b < |p + q|
        ensures (p + q)[a] <= (p + q)[b]
      {
        if b >= |p| {
          assert (p + q)[b] == q[b - |p|] && q[b - |p|] in q;
          if a < |p| {
            assert (p + q)[a] == p[a] && p[a] in p;
          } else {
            assert (p + q)[a] == q[a - |p|] && q[a - |p|] in q;
          }
        }
      }
    }
  }

  /** When no edge names the same face twice, the list strictly ascends. */
  lemma {:induction false} EdgesWithFaceStrict(edges: seq<Edge>, i: int)
    requires forall e :: 0 <= e < |edges| ==> |edges[e].fs| == 2 && edges[e].fs[0] != edges[e].fs[1]
    ensures forall a, b :: 0 <= a < b < |EdgesWithFace(edges, i)| ==>
      EdgesWithFace(edges, i)[a] < EdgesWithFace(edges, i)[b]
    decreases |edges|
  {
    if edges != [] {
      var e := |edges| - 1;
      EdgesWithFaceStrict(edges[..e], i);
      EdgesWithFaceMembers(edges[..e], i);
      assert forall x :: 0 <= x < e ==> edges[..e][x] == edges[x];
      var p := EdgesWithFace(edges[..e], i);
      var q := Slots(edges[e], e, i);
      assert |q| <= 1;
      assert EdgesWithFace(edges, i) == p + q;
      forall a, b | 0 <= a < b < |p + q|
        ensures (p + q)[a] < (p + q)[b]
      {
        if b >= |p| {
          assert a < |p|;
          assert (p + q)[b] == q[b - |p|] && q[b - |p|] in q;
          assert (p + q)[a] == p[a] && p[a] in p;
        }
      }
    }
  }

  predicate FacesShort(edges: seq<Edge>, count: int)
    requires forall e :: 0 <= e < |edges| ==> |edges[e].fs| == 2
  {
    exists i :: 0 <= i < count && |EdgesWithFace(edges, i)| < 3
  }

  /** `Mesh::closure`. */
  function Closure(m: Mesh): (r: Result<Mesh, ClosureError>)
    requires Tri3(m.faces)
    ensures !CornersBelow(m.faces, |m.vertices|) <==> r == Err(CornerOutOfRange)
    ensures r.Ok? ==> Consistent(r.value)
    ensures r.Ok? ==> |r.value.vertices| == |m.vertices| && |r.value.faces| == |m.faces|
    ensures r.Ok? ==> forall i :: 0 <= i < |m.faces| ==> r.value.faces[i].vs == m.faces[i].vs
    ensures r.Ok? ==> forall x :: 0 <= x < |m.vertices| ==>
      r.value.vertices[x].geom == m.vertices[x].geom && r.value.vertices[x].id == m.vertices[x].id
  {
    var n := |m.vertices|;
    if !CornersBelow(m.faces, n) then Err(CornerOutOfRange)
    else if !Closed(m.faces, KeyList(m.faces, n)) then Err(OpenEdge)
    else
      var edges := EdgeList(m.faces, n);
      if FacesShort(edges, |m.faces|) then Err(ShortFace)
      else
        var r := Assembled(m, edges);
        if Consistent(r) then Ok(r) else Err(Inconsistent)
  }

  /**
   * Whether `closure` succeeds depends on the faces and the vertex count
   * only, never on the vertices' positions or normals.
   */
  lemma ClosureIgnoresGeometry(m1: Mesh, m2: Mesh)
    requires Tri3(m1.faces) && m1.faces == m2.faces && |m1.vertices| == |m2.vertices|
    requires forall x :: 0 <= x < |m1.vertices| ==> m1.vertices[x].id == m2.vertices[x].id
    ensures Closure(m1).Ok? <==> Closure(m2).Ok?
  {
    var n := |m1.vertices|;
    if CornersBelow(m1.faces, n) && Closed(m1.faces, KeyList(m1.faces, n)) {
      var edges := EdgeList(m1.faces, n);
      if !FacesShort(edges, |m1.faces|) {
        var r1 := Assembled(m1, edges);
        var r2 := Assembled(m2, edges);
        assert SameButGeometry(r1, r2);
        ConsistentIgnoresGeometry(r1, r2);
      }
    }
  }

  /** The mesh `closure` leaves behind once the edges are known. */
  function Assembled(m: Mesh, edges: seq<Edge>): (r: Mesh)
    requires Tri3(m.faces)
    requires forall e :: 0 <= e < |edges| ==> |edges[e].fs| == 2
    requires !FacesShort(edges, |m.faces|)
    ensures |r.vertices| == |m.vertices| && |r.faces| == |m.faces| && r.edges == edges
    ensures forall i :: 0 <= i < |m.faces| ==> r.faces[i].vs == m.faces[i].vs
    ensures forall x :: 0 <= x < |m.vertices| ==> r.vertices[x].geom == m.vertices[x].geom && r.vertices[x].id == m.vertices[x].id
  {
    var vertices := seq(|m.vertices|, x requires 0 <= x < |m.vertices| =>
      m.vertices[x].(fs := FacesAt(m.faces, x), es := EdgesAt(edges, x)));
    var faces := seq(|m.faces|, i requires 0 <= i < |m.faces| =>
      m.faces[i].(es := EdgesWithFace(edges, i)[..3]));
    Mesh(vertices, faces, edges)
  }

  /** The stages `closure` passed on the way to `r`. */
  predicate Built(m: Mesh, r: Mesh)
    requires Tri3(m.faces)
  {
    && CornersBelow(m.faces, |m.vertices|)
    && Closed(m.faces, KeyList(m.faces, |m.vertices|))
    && !FacesShort(EdgeList(m.faces, |m.vertices|), |m.faces|)
    && r == Assembled(m, EdgeList(m.faces, |m.vertices|))
  }

  /** A successful `closure` passed every stage. */
  lemma ClosureStages(m: Mesh, r: Mesh)
    requires Tri3(m.faces) && Closure(m) == Ok(r)
    ensures Built(m, r) && Consistent(r)
  {
  }

  /** The arrays of a built mesh. */
  lemma BuiltArrays(m: Mesh, r: Mesh)
    requires Tri3(m.faces) && Built(m, r)
    ensures r.edges == EdgeList(m.faces, |m.vertices|)
    ensures |r.vertices| == |m.vertices| && |r.faces| == |m.faces|
  {
  }

  /** A built vertex: the old one with fresh face and edge sets. */
  lemma BuiltVertex(m: Mesh, r: Mesh, x: int)
    requires Tri3(m.faces) && Built(m, r) && 0 <= x < |m.vertices|
    ensures r.vertices[x] == m.vertices[x].(fs := FacesAt(m.faces, x), es := EdgesAt(r.edges, x))
  {
  }

  /** A built face: the old one with the first three edges listing it. */
  lemma BuiltFace(m: Mesh, r: Mesh, i: int)
    requires Tri3(m.faces) && Built(m, r) && 0 <= i < |m.faces|
    ensures |EdgesWithFace(r.edges, i)| >= 3
    ensures r.faces[i] == m.faces[i].(es := EdgesWithFace(r.edges, i)[..3])
  {
    assert !FacesShort(r.edges, |m.faces|);
  }

  /** The edge built for key `e` and what it records. */
  lemma EdgeAt(faces: seq<Face>, n: int, e: int)
    requires Tri3(faces) && CornersBelow(faces, n) && Closed(faces, KeyList(faces, n))
    requires 0 <= e < |KeyList(faces, n)|
    ensures IsSide(faces, KeyList(faces, n)[e])
    ensures EdgeList(faces, n)[e] ==
      Edge(e, Orientation(faces, KeyList(faces, n)[e]), FacesOn(faces, KeyList(faces, n)[e])[..2])
    ensures EdgeKey(EdgeList(faces, n)[e]) == KeyList(faces, n)[e]
  {
    KeyListSides(faces, n);
  }

  /** Ids are positions and the edges strictly ascend under `Edge::operator<`. */
  ghost predicate EdgesAscending(edges: seq<Edge>)
  {
    && (forall e :: 0 <= e < |edges| ==> |edges[e].vs| == 2 && edges[e].id == e)
    && (forall a, b :: 0 <= a < b < |edges| ==> EdgeLess(edges[a], edges[b]))
  }

  /** Every edge is a side of some face. */
  ghost predicate EdgesAreSides(edges: seq<Edge>, faces: seq<Face>)
    requires Tri3(faces)
  {
    forall e :: 0 <= e < |edges| ==> |edges[e].vs| == 2 && IsSide(faces, EdgeKey(edges[e]))
  }

  /** Every side of every face is an edge. */
  ghost predicate SidesAreEdges(edges: seq<Edge>, faces: seq<Face>)
    requires Tri3(faces)
  {
    forall i, j :: 0 <= i < |faces| && 0 <= j < 3 ==>
      exists e :: 0 <= e < |edges| && |edges[e].vs| == 2 && EdgeKey(edges[e]) == PairKey(faces[i], j)
  }

  /**
   * The rebuilt edges are the distinct sides of the faces, one edge per
   * side, strictly ascending under `Edge::operator<`, with ids equal to
   * positions.
   */
  lemma ClosureEdges(m: Mesh, r: Mesh)
    requires Tri3(m.faces) && Closure(m) == Ok(r)
    ensures EdgesAscending(r.edges)
    ensures EdgesAreSides(r.edges, m.faces)
    ensures SidesAreEdges(r.edges, m.faces)
  {
    ClosureStages(m, r);
    BuiltArrays(m, r);
    EdgeListAscending(m.faces, |m.vertices|);
    EdgeListSides(m.faces, |m.vertices|);
    EdgeListCovers(m.faces, |m.vertices|);
  }

  lemma EdgeListAscending(faces: seq<Face>, n: int)
    requires Tri3(faces) && CornersBelow(faces, n) && Closed(faces, KeyList(faces, n))
    ensures EdgesAscending(EdgeList(faces, n))
  {
    var edges := EdgeList(faces, n);
    var ks := KeyList(faces, n);
    KeyListSorted(faces, n);
    forall e | 0 <= e < |edges|
      ensures edges[e].id == e && EdgeKey(edges[e]) == ks[e]
    {
      EdgeAt(faces, n, e);
    }
    forall a, b | 0 <= a < b < |edges|
      ensures EdgeLess(edges[a], edges[b])
    {
      assert PairLess(ks[a].0, ks[a].1, ks[b].0, ks[b].1);
    }
  }

  lemma EdgeListSides(faces: seq<Face>, n: int)
    requires Tri3(faces) && CornersBelow(faces, n) && Closed(faces, KeyList(faces, n))
    ensures EdgesAreSides(EdgeList(faces, n), faces)
  {
    var edges := EdgeList(faces, n);
    forall e | 0 <= e < |edges|
      ensures IsSide(faces, EdgeKey(edges[e]))
    {
      EdgeAt(faces, n, e);
    }
  }

  lemma EdgeListCovers(faces: seq<Face>, n: int)
    requires Tri3(faces) && CornersBelow(faces, n) && Closed(faces, KeyList(faces, n))
    ensures SidesAreEdges(EdgeList(faces, n), faces)
  {
    var edges := EdgeList(faces, n);
    var ks := KeyList(faces, n);
    forall i, j | 0 <= i < |faces| && 0 <= j < 3
      ensures exists e :: 0 <= e < |edges| && |edges[e].vs| == 2 && EdgeKey(edges[e]) == PairKey(faces[i], j)
    {
      KeyListCovers(faces, n, i, j);
      var e :| 0 <= e < |ks| && ks[e] == PairKey(faces[i], j);
      EdgeAt(faces, n, e);
    }
  }

  /** Side `k` is first visited as corner pair `j` of face `i`. */
  ghost predicate FirstVisit(faces: seq<Face>, i: int, j: int, k: (int, int))
    requires Tri3(faces)
  {
    && 0 <= i < |faces| && 0 <= j < 3 && PairKey(faces[i], j) == k
    && (forall p :: 0 <= p < i ==> k !in CycleKeys(faces[p]))
    && (forall q :: 0 <= q < j ==> PairKey(faces[i], q) != k)
  }

  /** Each edge keeps the direction in which the walk over faces and corners first met it. */
  lemma ClosureOrientation(m: Mesh, r: Mesh, e: int)
    requires Tri3(m.faces) && Closure(m) == Ok(r)
    requires 0 <= e < |r.edges|
    ensures |r.edges[e].vs| == 2
    ensures exists i, j ::
      && FirstVisit(m.faces, i, j, EdgeKey(r.edges[e]))
      && r.edges[e].vs == [m.faces[i].vs[j], m.faces[i].vs[(j + 1) % 3]]
  {
    ClosureStages(m, r);
    BuiltArrays(m, r);
    EdgeListOrientation(m.faces, |m.vertices|, e);
  }

  lemma EdgeListOrientation(faces: seq<Face>, n: int, e: int)
    requires Tri3(faces) && CornersBelow(faces, n) && Closed(faces, KeyList(faces, n))
    requires 0 <= e < |EdgeList(faces, n)|
    ensures exists i, j ::
      && FirstVisit(faces, i, j, EdgeKey(EdgeList(faces, n)[e]))
      && EdgeList(faces, n)[e].vs == [faces[i].vs[j], faces[i].vs[(j + 1) % 3]]
  {
    EdgeAt(faces, n, e);
    var k := KeyList(faces, n)[e];
    var i := FirstFace(faces, k);
    var j := FirstCorner(faces[i], k);
    assert FirstVisit(faces, i, j, k);
  }

  /** The two faces of an edge are the first two visits of its side, in face order. */
  ghost predicate FirstTwoVisits(ed: Edge, faces: seq<Face>)
    requires Tri3(faces)
  {
    && |ed.fs| == 2 && |ed.vs| == 2
    && 0 <= ed.fs[0] <= ed.fs[1] < |faces|
    && EdgeKey(ed) in CycleKeys(faces[ed.fs[0]])
    && EdgeKey(ed) in CycleKeys(faces[ed.fs[1]])
    && (forall x :: 0 <= x < ed.fs[1] && EdgeKey(ed) in CycleKeys(faces[x]) ==> x == ed.fs[0])
  }

  /**
   * An edge's two faces are the first two visits of its side: both have the
   * side, and no other face before the second has it.
   */
  lemma ClosureEdgeFaces(m: Mesh, r: Mesh, e: int)
    requires Tri3(m.faces) && Closure(m) == Ok(r)
    requires 0 <= e < |r.edges|
    ensures FirstTwoVisits(r.edges[e], m.faces)
  {
    ClosureStages(m, r);
    BuiltArrays(m, r);
    EdgeListFaces(m.faces, |m.vertices|, e);
  }

  lemma EdgeListFaces(faces: seq<Face>, n: int, e: int)
    requires Tri3(faces) && CornersBelow(faces, n) && Closed(faces, KeyList(faces, n))
    requires 0 <= e < |EdgeList(faces, n)|
    ensures EdgeList(faces, n)[e].fs == FacesOn(faces, EdgeKey(EdgeList(faces, n)[e]))[..2]
    ensures FirstTwoVisits(EdgeList(faces, n)[e], faces)
  {
    EdgeAt(faces, n, e);
    FirstTwo(faces, KeyList(faces, n)[e]);
  }

  /** The first two entries of `edge2face[k]` are the first two visits of `k`. */
  lemma FirstTwo(faces: seq<Face>, k: (int, int))
    requires Tri3(faces) && |FacesOn(faces, k)| >= 2
    ensures var l := FacesOn(faces, k);
      && 0 <= l[0] <= l[1] < |faces|
      && k in CycleKeys(faces[l[0]]) && k in CycleKeys(faces[l[1]])
      && (forall x :: 0 <= x < l[1] && k in CycleKeys(faces[x]) ==> x == l[0])
  {
    var l := FacesOn(faces, k);
    FacesOnMembers(faces, k);
    assert l[0] in l && l[1] in l;
    forall x | 0 <= x < l[1] && k in CycleKeys(faces[x])
      ensures x == l[0]
    {
      assert x in l;
      assert l == [l[0]] + l[1..];
      assert forall y :: y in l[1..] ==> y >= l[1];
    }
  }

  /** Each vertex's face and edge sets are exactly its incident faces and edges. */
  ghost predicate VertexSetsExact(r: Mesh, faces: seq<Face>)
  {
    forall x :: 0 <= x < |r.vertices| ==>
      && r.vertices[x].fs == (set i | 0 <= i < |faces| && x in faces[i].vs)
      && r.vertices[x].es == (set e | 0 <= e < |r.edges| && x in r.edges[e].vs)
  }

  /** After `closure` each vertex knows exactly the faces and edges it belongs to. */
  lemma ClosureIncidence(m: Mesh, r: Mesh)
    requires Tri3(m.faces) && Closure(m) == Ok(r)
    ensures VertexSetsExact(r, m.faces)
  {
    ClosureStages(m, r);
    BuiltArrays(m, r);
    forall i | 0 <= i < |m.faces|
      ensures m.faces[i].id == i
    {
      BuiltFace(m, r, i);
    }
    forall x | 0 <= x < |r.vertices|
      ensures r.vertices[x].fs == (set i | 0 <= i < |m.faces| && x in m.faces[i].vs)
      ensures r.vertices[x].es == (set e | 0 <= e < |r.edges| && x in r.edges[e].vs)
    {
      BuiltVertex(m, r, x);
      FacesAtExact(m.faces, x);
      EdgesAtExact(r.edges, x);
    }
  }

  lemma FacesAtExact(faces: seq<Face>, x: int)
    requires forall i :: 0 <= i < |faces| ==> faces[i].id == i
    ensures FacesAt(faces, x) == set i | 0 <= i < |faces| && x in faces[i].vs
  {
  }

  lemma EdgesAtExact(edges: seq<Edge>, x: int)
    requires forall e :: 0 <= e < |edges| ==> edges[e].id == e
    ensures EdgesAt(edges, x) == set e | 0 <= e < |edges| && x in edges[e].vs
  {
  }

  /** Three distinct members of a three-element set are all of it. */
  lemma Pigeonhole<T>(a: T, b: T, c: T, s: set<T>, x: T, y: T, z: T)
    requires s == {x, y, z} && a in s && b in s && c in s
    requires a != b && b != c && a != c
    ensures {a, b, c} == s
  {
    assert x in {a, b, c} && y in {a, b, c} && z in {a, b, c};
  }

  /** Over proper triangles an edge never names the same face twice. */
  lemma EdgeListDistinctFaces(faces: seq<Face>, n: int)
    requires Tri3(faces) && Triangles(faces) && CornersBelow(faces, n) && Closed(faces, KeyList(faces, n))
    ensures forall e :: 0 <= e < |EdgeList(faces, n)| ==> EdgeList(faces, n)[e].fs[0] < EdgeList(faces, n)[e].fs[1]
  {
    forall e | 0 <= e < |EdgeList(faces, n)|
      ensures EdgeList(faces, n)[e].fs[0] < EdgeList(faces, n)[e].fs[1]
    {
      EdgeAt(faces, n, e);
      FacesOnStrict(faces, KeyList(faces, n)[e]);
    }
  }

  /**
   * Face `i`'s edge list `es` over `edges`: three ascending edges, each
   * naming face `i`, whose keys are exactly the sides of the corners `g`.
   */
  ghost predicate FaceSides(es: seq<int>, i: int, edges: seq<Edge>, g: Face)
  {
    && |es| == 3 && |g.vs| == 3
    && (forall k :: 0 <= k < 3 ==> 0 <= es[k] < |edges| && |edges[es[k]].vs| == 2 && i in edges[es[k]].fs)
    && es[0] < es[1] < es[2]
    && {EdgeKey(edges[es[0]]), EdgeKey(edges[es[1]]), EdgeKey(edges[es[2]])} == CycleKeys(g)
  }

  /**
   * Over proper triangles, a face's three edges after `closure` are exactly
   * its three sides, in ascending id order.
   */
  lemma ClosureFaceEdges(m: Mesh, r: Mesh, i: int)
    requires Tri3(m.faces) && Triangles(m.faces) && Closure(m) == Ok(r)
    requires 0 <= i < |m.faces|
    ensures FaceSides(r.faces[i].es, i, r.edges, m.faces[i])
  {
    ClosureStages(m, r);
    BuiltArrays(m, r);
    BuiltFace(m, r, i);
    ListFaceSides(m.faces, |m.vertices|, i);
  }

  lemma ListFaceSides(faces: seq<Face>, n: int, i: int)
    requires Tri3(faces) && Triangles(faces) && CornersBelow(faces, n) && Closed(faces, KeyList(faces, n))
    requires 0 <= i < |faces| && |EdgesWithFace(EdgeList(faces, n), i)| >= 3
    ensures FaceSides(EdgesWithFace(EdgeList(faces, n), i)[..3], i, EdgeList(faces, n), faces[i])
  {
    var edges := EdgeList(faces, n);
    EdgeListAscending(faces, n);
    EdgeListDistinctFaces(faces, n);
    EdgesWithFaceMembers(edges, i);
    EdgesWithFaceStrict(edges, i);
    var l := EdgesWithFace(edges, i);
    var es := l[..3];
    forall k | 0 <= k < 3
      ensures 0 <= es[k] < |edges| && EdgeKey(edges[es[k]]) in CycleKeys(faces[i])
      ensures i in edges[es[k]].fs
    {
      assert es[k] == l[k] && l[k] in l;
      EdgeListFaces(faces, n, es[k]);
      FacesOnMembers(faces, EdgeKey(edges[es[k]]));
      assert i in FacesOn(faces, EdgeKey(edges[es[k]]));
    }
    assert es[0] < es[1] < es[2] by {
      assert l[0] < l[1] < l[2];
    }
    assert EdgeLess(edges[es[0]], edges[es[1]]) && EdgeLess(edges[es[1]], edges[es[2]])
      && EdgeLess(edges[es[0]], edges[es[2]]);
    var f := faces[i];
    Pigeonhole(EdgeKey(edges[es[0]]), EdgeKey(edges[es[1]]), EdgeKey(edges[es[2]]), CycleKeys(f),
      PairKey(f, 0), PairKey(f, 1), PairKey(f, 2));
  }

  /** An edge names two different faces, and they are exactly the faces having its side. */
  ghost predicate ExactlyTwoFaces(ed: Edge, faces: seq<Face>)
    requires Tri3(faces)
  {
    && |ed.fs| == 2 && |ed.vs| == 2
    && ed.fs[0] < ed.fs[1]
    && (forall i :: 0 <= i < |faces| ==> (i in ed.fs <==> EdgeKey(ed) in CycleKeys(faces[i])))
  }

  /**
   * Over proper triangles, `closure` succeeds only when every edge lies in
   * exactly two faces: the faces an edge names are exactly the faces having
   * it as a side, and they are different.
   */
  lemma ClosureTwoFaces(m: Mesh, r: Mesh, e: int)
    requires Tri3(m.faces) && Triangles(m.faces) && Closure(m) == Ok(r)
    requires 0 <= e < |r.edges|
    ensures ExactlyTwoFaces(r.edges[e], m.faces)
  {
    ClosureStages(m, r);
    BuiltArrays(m, r);
    BuiltNotShort(m, r);
    ListTwoFaces(m.faces, |m.vertices|, e);
  }

  lemma BuiltNotShort(m: Mesh, r: Mesh)
    requires Tri3(m.faces) && Built(m, r)
    ensures forall i :: 0 <= i < |m.faces| ==> |EdgesWithFace(EdgeList(m.faces, |m.vertices|), i)| >= 3
  {
    assert !FacesShort(EdgeList(m.faces, |m.vertices|), |m.faces|);
  }

  lemma ListTwoFaces(faces: seq<Face>, n: int, e: int)
    requires Tri3(faces) && Triangles(faces) && CornersBelow(faces, n) && Closed(faces, KeyList(faces, n))
    requires forall i :: 0 <= i < |faces| ==> |EdgesWithFace(EdgeList(faces, n), i)| >= 3
    requires 0 <= e < |EdgeList(faces, n)|
    ensures ExactlyTwoFaces(EdgeList(faces, n)[e], faces)
  {
    var ed := EdgeList(faces, n)[e];
    EdgeListFaces(faces, n, e);
    FacesOnStrict(faces, EdgeKey(ed));
    assert ed.fs[0] < ed.fs[1];
    forall i | 0 <= i < |faces|
      ensures i in ed.fs <==> EdgeKey(ed) in CycleKeys(faces[i])
    {
      if EdgeKey(ed) in CycleKeys(faces[i]) {
        ListSideNamesFace(faces, n, e, i);
      }
    }
  }

  /** A face with the side of edge `e` is one of the faces `e` names. */
  lemma ListSideNamesFace(faces: seq<Face>, n: int, e: int, i: int)
    requires Tri3(faces) && Triangles(faces) && CornersBelow(faces, n) && Closed(faces, KeyList(faces, n))
    requires 0 <= i < |faces| && |EdgesWithFace(EdgeList(faces, n), i)| >= 3
    requires 0 <= e < |EdgeList(faces, n)| && EdgeKey(EdgeList(faces, n)[e]) in CycleKeys(faces[i])
    ensures i in EdgeList(faces, n)[e].fs
  {
    var edges := EdgeList(faces, n);
    EdgeListAscending(faces, n);
    ListFaceSides(faces, n, i);
    var es := EdgesWithFace(edges, i)[..3];
    var q := if EdgeKey(edges[es[0]]) == EdgeKey(edges[e]) then 0
             else if EdgeKey(edges[es[1]]) == EdgeKey(edges[e]) then 1 else 2;
    KeyNamesEdge(edges, es[q], e);
  }

  /** Distinct edges have distinct keys. */
  lemma KeyNamesEdge(edges: seq<Edge>, a: int, b: int)
    requires EdgesAscending(edges)
    requires 0 <= a < |edges| && 0 <= b < |edges| && EdgeKey(edges[a]) == EdgeKey(edges[b])
    ensures a == b
  {
    assert a < b ==> EdgeLess(edges[a], edges[b]);
    assert b < a ==> EdgeLess(edges[b], edges[a]);
  }
}
