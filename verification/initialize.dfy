/**
 * The `GarlandHeckbert` constructor: `computeQuadrics` sums, for every
 * vertex, the outer products of the planes of the faces on its `faceIds`;
 * `initializeCandidates` walks every face's cyclically consecutive corner
 * pairs and queues one candidate per undirected edge, in the orientation
 * first met.
 */
module Initialize {
  import opened Homogeneous
  import opened Quadric
  import opened Candidates
  import opened ZeroMesh
  import opened Sets
  import opened Simplify

  /** Every face has the three corners `_faceNormal` reads. */
  predicate PlaneReady(m: Mesh)
  {
    && WellFormed(m)
    && (forall f :: 0 <= f < |m.faces| ==> |m.faces[f].corners| >= 3)
  }

  /** `_faceNormal(f)`: the plane through the face's first three corners (numerics abstract). */
  function FacePlane(num: Numerics, m: Mesh, f: int): Vec4
    requires PlaneReady(m) && 0 <= f < |m.faces|
  {
    var c := m.faces[f].corners;
    assert c[0] in c && c[1] in c && c[2] in c;
    num.plane(m.vertices[c[0]].pos, m.vertices[c[1]].pos, m.vertices[c[2]].pos)
  }

  /** The planes of the listed faces, in list order. */
  function FacePlanes(num: Numerics, m: Mesh, fids: seq<int>): (ps: seq<Vec4>)
    requires PlaneReady(m)
    requires forall k :: 0 <= k < |fids| ==> 0 <= fids[k] < |m.faces|
    ensures |ps| == |fids|
    ensures forall k :: 0 <= k < |fids| ==> ps[k] == FacePlane(num, m, fids[k])
  {
    seq(|fids|, k requires 0 <= k < |fids| => FacePlane(num, m, fids[k]))
  }

  /** The planes of vertex v's faces, visited in ascending id order as `std::set` iteration does. */
  function VertexPlanes(num: Numerics, m: Mesh, v: int): (ps: seq<Vec4>)
    requires PlaneReady(m) && 0 <= v < |m.vertices|
    ensures |ps| == |m.vertices[v].faceIds|
  {
    var fids := Ascending(m.vertices[v].faceIds);
    assert forall k :: 0 <= k < |fids| ==> fids[k] in m.vertices[v].faceIds;
    FacePlanes(num, m, fids)
  }

  /**
   * `computeQuadrics`: one quadric per vertex, each symmetric, each entry
   * (a, b) the sum over the vertex's faces of plane[a] * plane[b].
   */
  function ComputeQuadrics(num: Numerics, m: Mesh): (qs: seq<Mat4>)
    requires PlaneReady(m)
    ensures |qs| == |m.vertices|
    ensures forall v :: 0 <= v < |qs| ==> Symmetric(qs[v])
    ensures forall v, a, b :: 0 <= v < |qs| && 0 <= a < 4 && 0 <= b < 4 ==>
              qs[v][a][b] == EntrySum(VertexPlanes(num, m, v), a, b)
  {
    seq(|m.vertices|, v requires 0 <= v < |m.vertices| => VertexQuadric(num, m, v))
  }

  /** The quadric of vertex v: the sum of its faces' plane products, symmetric. */
  function VertexQuadric(num: Numerics, m: Mesh, v: int): (q: Mat4)
    requires PlaneReady(m) && 0 <= v < |m.vertices|
    ensures Symmetric(q)
    ensures forall a, b :: 0 <= a < 4 && 0 <= b < 4 ==> q[a][b] == EntrySum(VertexPlanes(num, m, v), a, b)
  {
    var planes := VertexPlanes(num, m, v);
    PlaneSumSymmetric(planes);
    PlaneSumEntries(planes);
    PlaneSum(planes)
  }

  /** Two ordered pairs name the same undirected edge. */
  predicate SameEdge(p: (int, int), q: (int, int))
  {
    p == q || p == (q.1, q.0)
  }

  /** A face's cyclically consecutive corner pairs (c[i], c[(i + 1) % |c|]), in corner order. */
  function FaceCycle(c: seq<int>): (es: seq<(int, int)>)
    ensures |es| == |c|
    ensures forall i :: 0 <= i < |c| ==> es[i] == (c[i], c[(i + 1) % |c|])
  {
    seq(|c|, i requires 0 <= i < |c| => (c[i], c[(i + 1) % |c|]))
  }

  /** Every face's corner pairs, faces in id order: the order `initializeCandidates` meets them. */
  function EdgeWalk(faces: seq<Face>): (es: seq<(int, int)>)
  {
    if faces == [] then [] else EdgeWalk(faces[..|faces| - 1]) + FaceCycle(faces[|faces| - 1].corners)
  }

  /** Each walked pair is a corner pair of some face. */
  lemma {:induction false} EdgeWalkFrom(faces: seq<Face>, k: int)
    requires 0 <= k < |EdgeWalk(faces)|
    ensures exists f :: 0 <= f < |faces| && EdgeWalk(faces)[k] in FaceCycle(faces[f].corners)
    decreases |faces|
  {
    var n := |faces| - 1;
    var init := EdgeWalk(faces[..n]);
    if k < |init| {
      EdgeWalkFrom(faces[..n], k);
      var f :| 0 <= f < n && init[k] in FaceCycle(faces[..n][f].corners);
      assert faces[..n][f] == faces[f];
    } else {
      assert EdgeWalk(faces)[k] == FaceCycle(faces[n].corners)[k - |init|];
    }
  }

  /** The pair at position i of `walk` was already met, in either orientation, before position i. */
  predicate SeenBefore(walk: seq<(int, int)>, i: int)
    requires 0 <= i < |walk|
  {
    exists j :: 0 <= j < i && SameEdge(walk[j], walk[i])
  }

  /** Reference definition: the pairs of `walk` whose undirected edge was not met earlier, in walk order. */
  function FirstOccurrences(walk: seq<(int, int)>): (r: seq<(int, int)>)
    ensures |r| <= |walk|
    ensures forall x :: x in r ==> x in walk
  {
    if walk == [] then []
    else
      var n := |walk| - 1;
      FirstOccurrences(walk[..n]) + (if SeenBefore(walk, n) then [] else [walk[n]])
  }

  /**
   * The pair loop of `initializeCandidates`: a pair is taken unless it, in
   * either orientation, is already in `pairs`; taking it adds both
   * orientations.
   */
  method CollectEdges(walk: seq<(int, int)>) returns (chosen: seq<(int, int)>)
    ensures chosen == FirstOccurrences(walk)
  {
    chosen := [];
    var pairs: set<(int, int)> := {};
    var i := 0;
    while i < |walk|
      invariant 0 <= i <= |walk|
      invariant chosen == FirstOccurrences(walk[..i])
      invariant forall p :: p in pairs <==> exists j :: 0 <= j < i && SameEdge(walk[j], p)
    {
      var (a, b) := walk[i];
      assert walk[..i + 1][..i] == walk[..i];
      assert (a, b) in pairs <==> SeenBefore(walk[..i + 1], i) by {
        assert forall j :: 0 <= j < i ==> walk[..i + 1][j] == walk[j];
        assert forall j :: 0 <= j < i ==> (SameEdge(walk[j], (a, b)) <==> SameEdge(walk[j], (b, a)));
      }
      if (a, b) !in pairs {
        chosen := chosen + [(a, b)];
        pairs := pairs + {(a, b), (b, a)};
      }
      i := i + 1;
    }
    assert walk[..|walk|] == walk;
  }

  /** Every pair of the walk has its undirected edge among the first occurrences. */
  lemma {:induction false} FirstOccurrencesCover(walk: seq<(int, int)>, i: int)
    requires 0 <= i < |walk|
    ensures exists k :: 0 <= k < |FirstOccurrences(walk)| && SameEdge(FirstOccurrences(walk)[k], walk[i])
    decreases |walk|
  {
    var n := |walk| - 1;
    var r := FirstOccurrences(walk);
    var init := FirstOccurrences(walk[..n]);
    assert r[..|init|] == init;
    if i < n {
      FirstOccurrencesCover(walk[..n], i);
      var k :| 0 <= k < |init| && SameEdge(init[k], walk[..n][i]);
      assert r[k] == init[k];
    } else if SeenBefore(walk, n) {
      var j :| 0 <= j < n && SameEdge(walk[j], walk[n]);
      FirstOccurrencesCover(walk[..n], j);
      var k :| 0 <= k < |init| && SameEdge(init[k], walk[..n][j]);
      assert r[k] == init[k];
    } else {
      assert r[|init|] == walk[n];
    }
  }

  /** The first occurrences never name one undirected edge twice: never both (a, b) and (b, a), never (a, b) twice. */
  lemma {:induction false} FirstOccurrencesDistinct(walk: seq<(int, int)>)
    ensures forall k, l :: 0 <= k < l < |FirstOccurrences(walk)| ==>
              !SameEdge(FirstOccurrences(walk)[k], FirstOccurrences(walk)[l])
    decreases |walk|
  {
    if walk != [] {
      var n := |walk| - 1;
      var r := FirstOccurrences(walk);
      var init := FirstOccurrences(walk[..n]);
      FirstOccurrencesDistinct(walk[..n]);
      forall k, l | 0 <= k < l < |r|
        ensures !SameEdge(r[k], r[l])
      {
        assert r[k] == init[k];
        if l < |init| {
          assert r[l] == init[l];
          assert !SameEdge(init[k], init[l]);
        } else {
          assert !SeenBefore(walk, n) && r[l] == walk[n];
          assert init[k] in walk[..n];
          var j :| 0 <= j < n && walk[..n][j] == init[k];
          assert walk[j] == init[k];
          assert !SameEdge(walk[j], walk[n]);
        }
      }
    }
  }

  /** Each chosen pair is oriented as its edge was first met: the earliest walk position with that edge holds exactly it. */
  lemma {:induction false} FirstOccurrencesOrientation(walk: seq<(int, int)>, k: int)
    requires 0 <= k < |FirstOccurrences(walk)|
    ensures exists i :: && 0 <= i < |walk|
                        && walk[i] == FirstOccurrences(walk)[k]
                        && forall j :: 0 <= j < i ==> !SameEdge(walk[j], walk[i])
    decreases |walk|
  {
    var n := |walk| - 1;
    var init := FirstOccurrences(walk[..n]);
    var r := FirstOccurrences(walk);
    assert r[..|init|] == init;
    if k < |init| {
      FirstOccurrencesOrientation(walk[..n], k);
      var i :| && 0 <= i < n && walk[..n][i] == init[k]
               && forall j :: 0 <= j < i ==> !SameEdge(walk[..n][j], walk[..n][i]);
      assert r[k] == init[k];
      assert walk[i] == r[k];
      assert forall j :: 0 <= j < i ==> walk[..n][j] == walk[j];
    } else {
      assert r[k] == walk[n];
    }
  }

  /** Every undirected edge of the walk has a queued candidate, in one orientation or the other. */
  ghost predicate EdgesQueued(walk: seq<(int, int)>, q: seq<Candidate>)
  {
    forall i :: 0 <= i < |walk| ==> exists x :: x in q && SameEdge((x.v1, x.v2), walk[i])
  }

  /** Pair p is the first walked pair of its undirected edge, in the orientation met there. */
  ghost predicate FirstMet(walk: seq<(int, int)>, p: (int, int))
  {
    exists i :: 0 <= i < |walk| && walk[i] == p && forall j :: 0 <= j < i ==> !SameEdge(walk[j], walk[i])
  }

  /** The initial candidate set: one candidate per chosen pair, queued in candidate order. */
  function InitialQueue(num: Numerics, m: Mesh, qs: seq<Mat4>, chosen: seq<(int, int)>): (q: seq<Candidate>)
    requires |qs| == |m.vertices|
    requires forall k :: 0 <= k < |chosen| ==> 0 <= chosen[k].0 < |m.vertices| && 0 <= chosen[k].1 < |m.vertices|
    ensures Sorted(q)
    ensures forall k :: 0 <= k < |chosen| ==>
              HasKey(q, MakeCandidate(num, qs, Positions(m), chosen[k].0, chosen[k].1))
    ensures forall x :: x in q ==>
              && (x.v1, x.v2) in chosen
              && 0 <= x.v1 < |m.vertices| && 0 <= x.v2 < |m.vertices|
              && x == MakeCandidate(num, qs, Positions(m), x.v1, x.v2)
  {
    var cands := BuildCandidates(num, qs, Positions(m), chosen);
    var q := InsertAll([], cands);
    forall x | x in q
      ensures (x.v1, x.v2) in chosen && 0 <= x.v1 < |m.vertices| && 0 <= x.v2 < |m.vertices|
      ensures x == MakeCandidate(num, qs, Positions(m), x.v1, x.v2)
    {
      var k :| 0 <= k < |cands| && cands[k] == x;
    }
    q
  }

  /** Every walked pair joins two in-range corners of one face. */
  lemma EdgeWalkInRange(m: Mesh)
    requires WellFormed(m)
    ensures forall k :: 0 <= k < |EdgeWalk(m.faces)| ==>
              0 <= EdgeWalk(m.faces)[k].0 < |m.vertices| && 0 <= EdgeWalk(m.faces)[k].1 < |m.vertices|
  {
    var walk := EdgeWalk(m.faces);
    forall k | 0 <= k < |walk|
      ensures 0 <= walk[k].0 < |m.vertices| && 0 <= walk[k].1 < |m.vertices|
    {
      EdgeWalkFrom(m.faces, k);
      var f :| 0 <= f < |m.faces| && walk[k] in FaceCycle(m.faces[f].corners);
      var c := m.faces[f].corners;
      var i :| 0 <= i < |c| && FaceCycle(c)[i] == walk[k];
      assert c[i] in c && c[(i + 1) % |c|] in c;
    }
  }

  /** On a mesh of proper triangles no walked pair joins a vertex to itself. */
  lemma EdgeWalkNoSelfLoops(m: Mesh)
    requires forall f :: 0 <= f < |m.faces| ==> Triangle(m.faces[f].corners)
    ensures forall k :: 0 <= k < |EdgeWalk(m.faces)| ==> EdgeWalk(m.faces)[k].0 != EdgeWalk(m.faces)[k].1
  {
    var walk := EdgeWalk(m.faces);
    forall k | 0 <= k < |walk|
      ensures walk[k].0 != walk[k].1
    {
      EdgeWalkFrom(m.faces, k);
      var f :| 0 <= f < |m.faces| && walk[k] in FaceCycle(m.faces[f].corners);
      TriangleCycleNoLoops(m.faces[f].corners, walk[k]);
    }
  }

  /** A proper triangle's corner pairs never join a corner to itself. */
  lemma TriangleCycleNoLoops(c: seq<int>, p: (int, int))
    requires Triangle(c) && p in FaceCycle(c)
    ensures p.0 != p.1
  {
    var i :| 0 <= i < |c| && FaceCycle(c)[i] == p;
    assert i == 0 || i == 1 || i == 2;
  }

  /**
   * The constructor: quadrics first, then one candidate per undirected face
   * edge, oriented as first met. On a consistent mesh the result satisfies
   * the engine invariants.
   */
  method Construct(num: Numerics, m: Mesh) returns (e: Engine)
    requires PlaneReady(m)
    ensures Ready(e)
    ensures e.mesh == m
    ensures e.qs == ComputeQuadrics(num, m)
    ensures EdgesQueued(EdgeWalk(m.faces), e.queue)
    ensures forall i, j :: 0 <= i < j < |e.queue| ==> !SameEdge((e.queue[i].v1, e.queue[i].v2), (e.queue[j].v1, e.queue[j].v2))
    ensures forall x :: x in e.queue ==> FirstMet(EdgeWalk(m.faces), (x.v1, x.v2))
    ensures Consistent(m) ==> Valid(e)
  {
    var qs := ComputeQuadrics(num, m);
    var walk := EdgeWalk(m.faces);
    var chosen := CollectEdges(walk);
    ChosenInRange(m, walk, chosen);
    var q := InitialQueue(num, m, qs, chosen);
    e := Engine(m, qs, q);
    ConstructFacts(num, m, qs, walk, chosen, q);
  }

  lemma ConstructFacts(num: Numerics, m: Mesh, qs: seq<Mat4>, walk: seq<(int, int)>, chosen: seq<(int, int)>, q: seq<Candidate>)
    requires PlaneReady(m)
    requires qs == ComputeQuadrics(num, m)
    requires walk == EdgeWalk(m.faces) && chosen == FirstOccurrences(walk)
    requires forall k :: 0 <= k < |chosen| ==> 0 <= chosen[k].0 < |m.vertices| && 0 <= chosen[k].1 < |m.vertices|
    requires q == InitialQueue(num, m, qs, chosen)
    ensures Ready(Engine(m, qs, q))
    ensures EdgesQueued(walk, q)
    ensures forall i, j :: 0 <= i < j < |q| ==> !SameEdge((q[i].v1, q[i].v2), (q[j].v1, q[j].v2))
    ensures forall x :: x in q ==> FirstMet(walk, (x.v1, x.v2))
    ensures Consistent(m) ==> Valid(Engine(m, qs, q))
  {
    InitialQueueOriented(num, m, qs, walk, chosen, q);
    InitialQueueInRange(num, m, qs, walk, chosen, q);
    InitialQueueCovers(num, m, qs, walk, chosen, q);
    InitialQueueDistinct(num, m, qs, walk, chosen, q);
    if Consistent(m) {
      InitialQueueNoSelfLoops(num, m, qs, walk, chosen, q);
    }
  }

  lemma ChosenInRange(m: Mesh, walk: seq<(int, int)>, chosen: seq<(int, int)>)
    requires WellFormed(m)
    requires walk == EdgeWalk(m.faces) && chosen == FirstOccurrences(walk)
    ensures forall k :: 0 <= k < |chosen| ==> 0 <= chosen[k].0 < |m.vertices| && 0 <= chosen[k].1 < |m.vertices|
  {
    EdgeWalkInRange(m);
    forall k | 0 <= k < |chosen|
      ensures 0 <= chosen[k].0 < |m.vertices| && 0 <= chosen[k].1 < |m.vertices|
    {
      assert chosen[k] in walk;
    }
  }

  lemma InitialQueueInRange(num: Numerics, m: Mesh, qs: seq<Mat4>, walk: seq<(int, int)>, chosen: seq<(int, int)>, q: seq<Candidate>)
    requires |qs| == |m.vertices|
    requires forall k :: 0 <= k < |chosen| ==> 0 <= chosen[k].0 < |m.vertices| && 0 <= chosen[k].1 < |m.vertices|
    requires q == InitialQueue(num, m, qs, chosen)
    ensures QueueInRange(q, |m.vertices|)
  {
    forall i | 0 <= i < |q|
      ensures 0 <= q[i].v1 < |m.vertices| && 0 <= q[i].v2 < |m.vertices|
    {
      assert q[i] in q;
    }
  }

  /** Every undirected edge of the walk has a queued candidate. */
  lemma InitialQueueCovers(num: Numerics, m: Mesh, qs: seq<Mat4>, walk: seq<(int, int)>, chosen: seq<(int, int)>, q: seq<Candidate>)
    requires |qs| == |m.vertices|
    requires chosen == FirstOccurrences(walk)
    requires forall k :: 0 <= k < |chosen| ==> 0 <= chosen[k].0 < |m.vertices| && 0 <= chosen[k].1 < |m.vertices|
    requires q == InitialQueue(num, m, qs, chosen)
    ensures EdgesQueued(walk, q)
  {
    forall i | 0 <= i < |walk|
      ensures exists x :: x in q && SameEdge((x.v1, x.v2), walk[i])
    {
      FirstOccurrencesCover(walk, i);
      var k :| 0 <= k < |chosen| && SameEdge(chosen[k], walk[i]);
      var c := MakeCandidate(num, qs, Positions(m), chosen[k].0, chosen[k].1);
      assert HasKey(q, c);
      var j :| 0 <= j < |q| && SameKey(q[j], c);
      assert q[j] in q;
    }
  }

  /** Every queued pair is oriented as its edge was first met in the walk. */
  lemma InitialQueueOriented(num: Numerics, m: Mesh, qs: seq<Mat4>, walk: seq<(int, int)>, chosen: seq<(int, int)>, q: seq<Candidate>)
    requires |qs| == |m.vertices|
    requires chosen == FirstOccurrences(walk)
    requires forall k :: 0 <= k < |chosen| ==> 0 <= chosen[k].0 < |m.vertices| && 0 <= chosen[k].1 < |m.vertices|
    requires q == InitialQueue(num, m, qs, chosen)
    ensures forall x :: x in q ==> FirstMet(walk, (x.v1, x.v2))
  {
    forall x | x in q
      ensures FirstMet(walk, (x.v1, x.v2))
    {
      var k :| 0 <= k < |chosen| && chosen[k] == (x.v1, x.v2);
      FirstOccurrencesOrientation(walk, k);
    }
  }

  /** Pairs drawn from a list of pairwise different edges, no two from the same slot, are different edges. */
  lemma DrawnPairsApart(pairs: seq<(int, int)>, chosen: seq<(int, int)>)
    requires forall i :: 0 <= i < |pairs| ==> pairs[i] in chosen
    requires forall i, j :: 0 <= i < j < |pairs| ==> pairs[i] != pairs[j]
    requires forall k, l :: 0 <= k < l < |chosen| ==> !SameEdge(chosen[k], chosen[l])
    ensures forall i, j :: 0 <= i < j < |pairs| ==> !SameEdge(pairs[i], pairs[j])
  {
    forall i, j | 0 <= i < j < |pairs|
      ensures !SameEdge(pairs[i], pairs[j])
    {
      var k :| 0 <= k < |chosen| && chosen[k] == pairs[i];
      var l :| 0 <= l < |chosen| && chosen[l] == pairs[j];
      if k < l {
        assert !SameEdge(chosen[k], chosen[l]);
      } else if l < k {
        assert !SameEdge(chosen[l], chosen[k]);
      }
    }
  }

  /** In a strictly sorted queue of candidates each determined by its pair, no pair occurs twice. */
  lemma SortedPairsDiffer(num: Numerics, qs: seq<Mat4>, ps: seq<Vec4>, q: seq<Candidate>)
    requires Sorted(q)
    requires forall x :: x in q ==>
      0 <= x.v1 < |qs| && 0 <= x.v2 < |qs| && x.v1 < |ps| && x.v2 < |ps| && x == MakeCandidate(num, qs, ps, x.v1, x.v2)
    ensures forall i, j :: 0 <= i < j < |q| ==> (q[i].v1, q[i].v2) != (q[j].v1, q[j].v2)
  {
    forall i, j | 0 <= i < j < |q|
      ensures (q[i].v1, q[i].v2) != (q[j].v1, q[j].v2)
    {
      assert q[i] in q && q[j] in q;
      if (q[i].v1, q[i].v2) == (q[j].v1, q[j].v2) {
        assert q[i] == q[j];
        LessIsStrictOrder(q[i], q[j], q[j]);
      }
    }
  }

  /** A sorted queue of candidates, each determined by its pair and each pair from a list of distinct edges, holds every edge once. */
  lemma QueueEdgesApart(num: Numerics, qs: seq<Mat4>, ps: seq<Vec4>, q: seq<Candidate>, chosen: seq<(int, int)>)
    requires Sorted(q)
    requires forall x :: x in q ==>
      (x.v1, x.v2) in chosen && 0 <= x.v1 < |qs| && 0 <= x.v2 < |qs| && x.v1 < |ps| && x.v2 < |ps| &&
      x == MakeCandidate(num, qs, ps, x.v1, x.v2)
    requires forall k, l :: 0 <= k < l < |chosen| ==> !SameEdge(chosen[k], chosen[l])
    ensures forall i, j :: 0 <= i < j < |q| ==> !SameEdge((q[i].v1, q[i].v2), (q[j].v1, q[j].v2))
  {
    SortedPairsDiffer(num, qs, ps, q);
    var pairs := seq(|q|, i requires 0 <= i < |q| => (q[i].v1, q[i].v2));
    forall i | 0 <= i < |q|
      ensures pairs[i] in chosen
    {
      assert q[i] in q;
    }
    DrawnPairsApart(pairs, chosen);
  }

  /** No undirected edge is queued twice, in either orientation. */
  lemma InitialQueueDistinct(num: Numerics, m: Mesh, qs: seq<Mat4>, walk: seq<(int, int)>, chosen: seq<(int, int)>, q: seq<Candidate>)
    requires |qs| == |m.vertices|
    requires chosen == FirstOccurrences(walk)
    requires forall k :: 0 <= k < |chosen| ==> 0 <= chosen[k].0 < |m.vertices| && 0 <= chosen[k].1 < |m.vertices|
    requires q == InitialQueue(num, m, qs, chosen)
    ensures forall i, j :: 0 <= i < j < |q| ==> !SameEdge((q[i].v1, q[i].v2), (q[j].v1, q[j].v2))
  {
    FirstOccurrencesDistinct(walk);
    QueueEdgesApart(num, qs, Positions(m), q, chosen);
  }

  /** On a mesh of proper triangles the initial queue never joins a vertex to itself. */
  lemma InitialQueueNoSelfLoops(num: Numerics, m: Mesh, qs: seq<Mat4>, walk: seq<(int, int)>, chosen: seq<(int, int)>, q: seq<Candidate>)
    requires forall f :: 0 <= f < |m.faces| ==> Triangle(m.faces[f].corners)
    requires walk == EdgeWalk(m.faces)
    requires |qs| == |m.vertices|
    requires chosen == FirstOccurrences(walk)
    requires forall k :: 0 <= k < |chosen| ==> 0 <= chosen[k].0 < |m.vertices| && 0 <= chosen[k].1 < |m.vertices|
    requires q == InitialQueue(num, m, qs, chosen)
    ensures forall i :: 0 <= i < |q| ==> q[i].v1 != q[i].v2
  {
    EdgeWalkNoSelfLoops(m);
    forall i | 0 <= i < |q| ensures q[i].v1 != q[i].v2
    {
      assert q[i] in q;
      assert (q[i].v1, q[i].v2) in walk;
    }
  }
}
