/**
 * The Garland-Heckbert edge-contraction simplifier over the tombstoned mesh.
 *
 * An `Engine` owns the mesh, one quadric per vertex and the candidate queue.
 * `Step` pops candidates until it finds one whose endpoints are both live,
 * then `Contract` tombstones every live face on either endpoint, re-creates
 * each face that keeps exactly two other corners as [those corners, vnew],
 * appends vnew with the summed quadric, tombstones both endpoints and queues
 * a candidate for every new (corner, vnew) edge.
 */
module Simplify {
  import opened Homogeneous
  import opened Quadric
  import opened Candidates
  import opened ZeroMesh
  import opened Sets

  datatype Engine = Engine(mesh: Mesh, qs: seq<Mat4>, queue: seq<Candidate>)

  function Positions(m: Mesh): (p: seq<Vec4>)
    ensures |p| == |m.vertices|
    ensures forall i :: 0 <= i < |p| ==> p[i] == m.vertices[i].pos
  {
    seq(|m.vertices|, i requires 0 <= i < |m.vertices| => m.vertices[i].pos)
  }

  predicate QueueInRange(q: seq<Candidate>, n: int)
  {
    forall i :: 0 <= i < |q| ==> 0 <= q[i].v1 < n && 0 <= q[i].v2 < n
  }

  /** What one step dereferences: a well-formed mesh, one quadric per vertex, an ordered queue of in-range pairs. */
  predicate Ready(e: Engine)
  {
    && WellFormed(e.mesh)
    && |e.qs| == |e.mesh.vertices|
    && Sorted(e.queue)
    && QueueInRange(e.queue, |e.mesh.vertices|)
  }

  /** `Ready` plus the mesh invariants and no candidate joining a vertex to itself. */
  ghost predicate Valid(e: Engine)
  {
    && Ready(e)
    && Consistent(e.mesh)
    && (forall i :: 0 <= i < |e.queue| ==> e.queue[i].v1 != e.queue[i].v2)
  }

  /** The entries of `ids` that are not tombstoned, in their order. */
  function LiveOnly(ids: seq<int>, invalid: set<int>): (r: seq<int>)
    ensures forall x :: x in r <==> x in ids && x !in invalid
    ensures StrictlyIncreasing(ids) ==> StrictlyIncreasing(r)
  {
    if ids == [] then []
    else
      var t := LiveOnly(ids[1..], invalid);
      var h := if ids[0] in invalid then [] else [ids[0]];
      PrependSmallest(ids, h, t);
      h + t
  }

  lemma PrependSmallest(ids: seq<int>, h: seq<int>, t: seq<int>)
    requires |ids| > 0 && (h == [] || h == [ids[0]])
    requires forall x :: x in t ==> x in ids[1..]
    requires StrictlyIncreasing(ids[1..]) ==> StrictlyIncreasing(t)
    ensures StrictlyIncreasing(ids) ==> StrictlyIncreasing(h + t)
  {
    if StrictlyIncreasing(ids) {
      assert StrictlyIncreasing(ids[1..]);
      forall i, j | 0 <= i < j < |h + t|
        ensures (h + t)[i] < (h + t)[j]
      {
        if i < |h| {
          assert (h + t)[j] in ids[1..];
        }
      }
    }
  }

  /** `notInCandidate`: the corners other than v1 and v2, in their original order. */
  function Outside(corners: seq<int>, v1: int, v2: int): (r: seq<int>)
    ensures forall x :: x in r <==> x in corners && x != v1 && x != v2
    ensures |r| <= |corners|
  {
    if corners == [] then []
    else (if corners[0] != v1 && corners[0] != v2 then [corners[0]] else []) + Outside(corners[1..], v1, v2)
  }

  /** `fids`: v1's live faces in ascending id order, then v2's; a face on both is listed twice. */
  function TouchedFaces(m: Mesh, v1: int, v2: int): (fids: seq<int>)
    requires 0 <= v1 < |m.vertices| && 0 <= v2 < |m.vertices|
    ensures forall f :: f in fids <==>
              f !in m.invalidFaces && (f in m.vertices[v1].faceIds || f in m.vertices[v2].faceIds)
  {
    LiveOnly(Ascending(m.vertices[v1].faceIds), m.invalidFaces)
      + LiveOnly(Ascending(m.vertices[v2].faceIds), m.invalidFaces)
  }

  /** The touched faces that keep exactly two corners outside {v1, v2}, in `fids` order. */
  function Kept(faces: seq<Face>, fids: seq<int>, v1: int, v2: int): (g: seq<int>)
    requires forall j :: 0 <= j < |fids| ==> 0 <= fids[j] < |faces|
    ensures forall f :: f in g <==> f in fids && 0 <= f < |faces| && |Outside(faces[f].corners, v1, v2)| == 2
  {
    if fids == [] then []
    else
      assert forall j :: 0 <= j < |fids| - 1 ==> fids[1..][j] == fids[j + 1];
      (if |Outside(faces[fids[0]].corners, v1, v2)| == 2 then [fids[0]] else [])
        + Kept(faces, fids[1..], v1, v2)
  }

  /** For each kept face, its two corners outside {v1, v2} in their original order. */
  function Survivors(faces: seq<Face>, g: seq<int>, v1: int, v2: int): (s: seq<seq<int>>)
    requires forall k :: 0 <= k < |g| ==> 0 <= g[k] < |faces|
    ensures |s| == |g|
    ensures forall k :: 0 <= k < |g| ==> s[k] == Outside(faces[g[k]].corners, v1, v2)
  {
    seq(|g|, k requires 0 <= k < |g| => Outside(faces[g[k]].corners, v1, v2))
  }

  /** Ids of the new faces, numbered from `nf`, whose corner lists contain `x`. */
  function NewFacesOf(s: seq<seq<int>>, nf: int, x: int): (r: set<int>)
    ensures forall g :: g in r <==> nf <= g < nf + |s| && x in s[g - nf]
    decreases |s|
  {
    if s == [] then {}
    else NewFacesOf(s[..|s| - 1], nf, x) + (if x in s[|s| - 1] then {nf + |s| - 1} else {})
  }

  /** `newedges`: (a, vnew) and (b, vnew) for each surviving pair [a, b], in order. */
  function NewEdges(s: seq<seq<int>>, vnew: int): (es: seq<(int, int)>)
    requires forall k :: 0 <= k < |s| ==> |s[k]| == 2
    ensures |es| == 2 * |s|
    ensures forall i :: 0 <= i < |es| ==> es[i].1 == vnew && es[i].0 == s[i / 2][i % 2]
  {
    seq(2 * |s|, i requires 0 <= i < 2 * |s| => (s[i / 2][i % 2], vnew))
  }

  /** A fresh candidate for each edge, built from the given quadrics and positions. */
  function BuildCandidates(num: Numerics, qs: seq<Mat4>, pos: seq<Vec4>, edges: seq<(int, int)>): (cs: seq<Candidate>)
    requires forall i :: 0 <= i < |edges| ==>
               0 <= edges[i].0 < |qs| && 0 <= edges[i].1 < |qs| && edges[i].0 < |pos| && edges[i].1 < |pos|
    ensures |cs| == |edges|
    ensures forall i :: 0 <= i < |edges| ==> cs[i] == MakeCandidate(num, qs, pos, edges[i].0, edges[i].1)
  {
    seq(|edges|, i requires 0 <= i < |edges| => MakeCandidate(num, qs, pos, edges[i].0, edges[i].1))
  }

  /** The merged vertex's normal: the normalised average of the endpoints' normals, with w = 1. */
  function MergedNormal(num: Numerics, n1: Vec4, n2: Vec4): (n: Vec4)
    ensures n.w == 1.0
  {
    Expand(num.normalize(Vec3((n1.x + n2.x) / 2.0, (n1.y + n2.y) / 2.0, (n1.z + n2.z) / 2.0)))
  }

  function SetOf(s: seq<int>): (r: set<int>)
    ensures forall x :: x in r <==> x in s
  {
    set x | x in s
  }

  /** The touched faces of contracting (v1, v2) that are re-created, in creation order. */
  function MeshKept(m: Mesh, v1: int, v2: int): (g: seq<int>)
    requires WellFormed(m)
    requires 0 <= v1 < |m.vertices| && 0 <= v2 < |m.vertices|
    ensures forall f :: f in g <==>
              f in TouchedFaces(m, v1, v2) && 0 <= f < |m.faces| && |Outside(m.faces[f].corners, v1, v2)| == 2
    ensures forall k :: 0 <= k < |g| ==> 0 <= g[k] < |m.faces|
  {
    var fids := TouchedFaces(m, v1, v2);
    assert forall j :: 0 <= j < |fids| ==> 0 <= fids[j] < |m.faces| by {
      forall j | 0 <= j < |fids| ensures 0 <= fids[j] < |m.faces| {
        assert fids[j] in fids;
      }
    }
    var g := Kept(m.faces, fids, v1, v2);
    assert forall k :: 0 <= k < |g| ==> g[k] in g;
    g
  }

  /** The corner pairs of the re-created faces. */
  function MeshSurvivors(m: Mesh, v1: int, v2: int): (s: seq<seq<int>>)
    requires WellFormed(m)
    requires 0 <= v1 < |m.vertices| && 0 <= v2 < |m.vertices|
    ensures |s| == |MeshKept(m, v1, v2)|
    ensures forall k :: 0 <= k < |s| ==> s[k] == Outside(m.faces[MeshKept(m, v1, v2)[k]].corners, v1, v2)
    ensures forall k :: 0 <= k < |s| ==> |s[k]| == 2
    ensures forall k, x :: 0 <= k < |s| && x in s[k] ==> 0 <= x < |m.vertices| && x != v1 && x != v2
  {
    var g := MeshKept(m, v1, v2);
    var s := Survivors(m.faces, g, v1, v2);
    assert forall k :: 0 <= k < |s| ==> g[k] in g;
    s
  }

  /** Corner j of the k-th surviving pair. */
  function SurvivorAt(m: Mesh, v1: int, v2: int, k: int, j: int): (a: int)
    requires WellFormed(m)
    requires 0 <= v1 < |m.vertices| && 0 <= v2 < |m.vertices|
    requires 0 <= k < |MeshKept(m, v1, v2)| && 0 <= j < 2
    ensures 0 <= a < |m.vertices| && a != v1 && a != v2
  {
    var s := MeshSurvivors(m, v1, v2);
    assert s[k][j] in s[k];
    s[k][j]
  }

  /** The replacement faces [a, b, vnew], numbered from `nf`. */
  function NewFaceList(s: seq<seq<int>>, nf: int, vnew: int): (fs: seq<Face>)
    ensures |fs| == |s|
    ensures forall k :: 0 <= k < |s| ==> fs[k] == Face(nf + k, s[k] + [vnew])
  {
    seq(|s|, k requires 0 <= k < |s| => Face(nf + k, s[k] + [vnew]))
  }

  /** Each surviving corner's `faceIds` gains the ids of the new faces it lies on. */
  function GrowFaceIds(vs: seq<Vertex>, s: seq<seq<int>>, nf: int): (r: seq<Vertex>)
    ensures |r| == |vs|
    ensures forall i :: 0 <= i < |vs| ==> r[i] == vs[i].(faceIds := vs[i].faceIds + NewFacesOf(s, nf, i))
  {
    seq(|vs|, i requires 0 <= i < |vs| => vs[i].(faceIds := vs[i].faceIds + NewFacesOf(s, nf, i)))
  }

  function Range(lo: int, hi: int): (r: set<int>)
    ensures forall x :: x in r <==> lo <= x < hi
    decreases hi - lo
  {
    if lo >= hi then {} else {lo} + Range(lo + 1, hi)
  }

  /** The mesh after contracting (v1, v2) into the new vertex |vertices| placed at `pos`. */
  function ContractMesh(num: Numerics, m: Mesh, v1: int, v2: int, pos: Vec4): (m': Mesh)
    requires WellFormed(m)
    requires 0 <= v1 < |m.vertices| && 0 <= v2 < |m.vertices|
    ensures |m'.vertices| == |m.vertices| + 1 && m'.vertices[|m.vertices|].pos == pos
    ensures |m.faces| <= |m'.faces| && m'.faces[..|m.faces|] == m.faces
    ensures m.invalidFaces <= m'.invalidFaces && m'.invalidVertices == m.invalidVertices + {v1, v2}
  {
    var s := MeshSurvivors(m, v1, v2);
    var nf := |m.faces|;
    var vnew := |m.vertices|;
    var merged := Vertex(vnew, pos, MergedNormal(num, m.vertices[v1].normal, m.vertices[v2].normal),
                         Range(nf, nf + |s|));
    Mesh(GrowFaceIds(m.vertices, s, nf) + [merged],
         m.faces + NewFaceList(s, nf, vnew),
         m.invalidFaces + SetOf(TouchedFaces(m, v1, v2)),
         m.invalidVertices + {v1, v2})
  }

  lemma ContractMeshWellFormed(num: Numerics, m: Mesh, v1: int, v2: int, pos: Vec4)
    requires WellFormed(m)
    requires 0 <= v1 < |m.vertices| && 0 <= v2 < |m.vertices|
    ensures WellFormed(ContractMesh(num, m, v1, v2, pos))
    ensures |ContractMesh(num, m, v1, v2, pos).vertices| == |m.vertices| + 1
    ensures ContractMesh(num, m, v1, v2, pos).vertices[|m.vertices|].pos == pos
  {
    var m' := ContractMesh(num, m, v1, v2, pos);
    var s := MeshSurvivors(m, v1, v2);
    assert m'.faces == m.faces + NewFaceList(s, |m.faces|, |m.vertices|);
    assert m'.vertices == GrowFaceIds(m.vertices, s, |m.faces|) + [m'.vertices[|m.vertices|]];
    GrownWellFormed(m, m', s);
  }

  /** Appending the faces [a, b, vnew] and a vertex holding exactly them keeps every index in range. */
  lemma GrownWellFormed(m: Mesh, m': Mesh, s: seq<seq<int>>)
    requires WellFormed(m)
    requires forall k, c :: 0 <= k < |s| && c in s[k] ==> 0 <= c < |m.vertices|
    requires m'.faces == m.faces + NewFaceList(s, |m.faces|, |m.vertices|)
    requires |m'.vertices| == |m.vertices| + 1
    requires m'.vertices[..|m.vertices|] == GrowFaceIds(m.vertices, s, |m.faces|)
    requires m'.vertices[|m.vertices|].faceIds == Range(|m.faces|, |m'.faces|)
    ensures WellFormed(m')
  {
    var nf := |m.faces|;
    var vnew := |m.vertices|;
    forall v, f | 0 <= v < |m'.vertices| && f in m'.vertices[v].faceIds
      ensures 0 <= f < |m'.faces|
    {
      if v < vnew {
        assert m'.vertices[v] == m'.vertices[..vnew][v];
      }
    }
    forall f, c | 0 <= f < |m'.faces| && c in m'.faces[f].corners
      ensures 0 <= c < |m'.vertices|
    {
      if f >= nf {
        AppendedAt(m'.faces, m.faces, s, vnew, f);
        if c != vnew {
          assert c in s[f - nf];
        }
      } else {
        assert m'.faces[f] == m.faces[f];
      }
    }
  }

  /** A face the contraction of (v1, v2) tombstones: not yet tombstoned and on either endpoint's `faceIds`. */
  predicate Touched(m: Mesh, v1: int, v2: int, f: int)
    requires 0 <= v1 < |m.vertices| && 0 <= v2 < |m.vertices|
  {
    f !in m.invalidFaces && (f in m.vertices[v1].faceIds || f in m.vertices[v2].faceIds)
  }

  /**
   * Contraction's effect on the vertex array, stated without reference to
   * how it is computed: one vertex vnew = |vertices| is appended with the
   * candidate's position, the averaged normal and exactly the appended faces
   * as its `faceIds`; every old vertex keeps id, position and normal, and its
   * `faceIds` gain exactly the appended faces it is a corner of.
   */
  ghost predicate VerticesContracted(num: Numerics, m: Mesh, m': Mesh, v1: int, v2: int, pos: Vec4)
    requires 0 <= v1 < |m.vertices| && 0 <= v2 < |m.vertices|
  {
    && |m'.vertices| == |m.vertices| + 1
    && m'.vertices[|m.vertices|].id == |m.vertices|
    && m'.vertices[|m.vertices|].pos == pos
    && m'.vertices[|m.vertices|].normal == MergedNormal(num, m.vertices[v1].normal, m.vertices[v2].normal)
    && (forall g :: g in m'.vertices[|m.vertices|].faceIds <==> |m.faces| <= g < |m'.faces|)
    && (forall i :: 0 <= i < |m.vertices| ==>
          m'.vertices[i].id == m.vertices[i].id && m'.vertices[i].pos == m.vertices[i].pos
          && m'.vertices[i].normal == m.vertices[i].normal)
    && (forall i :: 0 <= i < |m.vertices| ==>
          forall g :: g in m'.vertices[i].faceIds <==>
            g in m.vertices[i].faceIds || (|m.faces| <= g < |m'.faces| && i in m'.faces[g].corners))
  }

  /**
   * Contraction's effect on the face array: old faces are never rewritten;
   * the k-th appended face has id nf + k and corners [a, b, vnew], where
   * [a, b] are the corners outside {v1, v2}, in their original order, of the
   * touched face kept[k]; and `kept` holds every touched face with exactly two
   * such corners.
   */
  ghost predicate FacesContracted(m: Mesh, m': Mesh, v1: int, v2: int, kept: seq<int>)
    requires 0 <= v1 < |m.vertices| && 0 <= v2 < |m.vertices|
  {
    && |m'.faces| == |m.faces| + |kept|
    && m'.faces[..|m.faces|] == m.faces
    && (forall k :: 0 <= k < |kept| ==>
          && 0 <= kept[k] < |m.faces|
          && Touched(m, v1, v2, kept[k])
          && |Outside(m.faces[kept[k]].corners, v1, v2)| == 2
          && m'.faces[|m.faces| + k] == Face(|m.faces| + k, Outside(m.faces[kept[k]].corners, v1, v2) + [|m.vertices|]))
    && (forall f :: 0 <= f < |m.faces| && Touched(m, v1, v2, f) && |Outside(m.faces[f].corners, v1, v2)| == 2 ==>
          f in kept)
  }

  /** Contraction's effect on the tombstones: v1, v2 and every face on either endpoint's `faceIds` are added; nothing leaves. */
  ghost predicate TombstonesContracted(m: Mesh, m': Mesh, v1: int, v2: int)
    requires 0 <= v1 < |m.vertices| && 0 <= v2 < |m.vertices|
  {
    && m'.invalidVertices == m.invalidVertices + {v1, v2}
    && (forall f :: f in m'.invalidFaces <==>
          f in m.invalidFaces || f in m.vertices[v1].faceIds || f in m.vertices[v2].faceIds)
  }

  /** The declarative description of one contraction, with the re-created faces' origins in `kept`. */
  ghost predicate ContractedFrom(num: Numerics, m: Mesh, m': Mesh, v1: int, v2: int, pos: Vec4, kept: seq<int>)
    requires 0 <= v1 < |m.vertices| && 0 <= v2 < |m.vertices|
  {
    VerticesContracted(num, m, m', v1, v2, pos) && FacesContracted(m, m', v1, v2, kept) && TombstonesContracted(m, m', v1, v2)
  }

  /** Face g of the faces with [a, b, vnew] appended per pair. */
  lemma AppendedAt(faces: seq<Face>, before: seq<Face>, s: seq<seq<int>>, vnew: int, g: int)
    requires faces == before + NewFaceList(s, |before|, vnew)
    requires |before| <= g < |before| + |s|
    ensures |faces| == |before| + |s| && faces[g] == Face(g, s[g - |before|] + [vnew])
  {
    assert faces[g] == NewFaceList(s, |before|, vnew)[g - |before|];
  }

  /** An old vertex i gains exactly the appended faces it is a corner of. */
  lemma OldVertexAt(num: Numerics, m: Mesh, v1: int, v2: int, pos: Vec4, i: int, g: int)
    requires WellFormed(m)
    requires 0 <= v1 < |m.vertices| && 0 <= v2 < |m.vertices|
    requires 0 <= i < |m.vertices|
    ensures var m' := ContractMesh(num, m, v1, v2, pos);
            && |m'.vertices| == |m.vertices| + 1
            && m'.vertices[i].id == m.vertices[i].id
            && m'.vertices[i].pos == m.vertices[i].pos
            && m'.vertices[i].normal == m.vertices[i].normal
            && (g in m'.vertices[i].faceIds <==>
                  g in m.vertices[i].faceIds || (|m.faces| <= g < |m'.faces| && i in m'.faces[g].corners))
  {
    var m' := ContractMesh(num, m, v1, v2, pos);
    var s := MeshSurvivors(m, v1, v2);
    var nf := |m.faces|;
    OldVertexGrows(num, m, v1, v2, pos, i);
    OldVertexGains(num, m, v1, v2, pos, i, g);
  }

  /** Appended face g lists old vertex i exactly when i is among its surviving corners. */
  lemma OldVertexGains(num: Numerics, m: Mesh, v1: int, v2: int, pos: Vec4, i: int, g: int)
    requires WellFormed(m)
    requires 0 <= v1 < |m.vertices| && 0 <= v2 < |m.vertices|
    requires 0 <= i < |m.vertices|
    ensures var m' := ContractMesh(num, m, v1, v2, pos);
            g in NewFacesOf(MeshSurvivors(m, v1, v2), |m.faces|, i) <==>
              |m.faces| <= g < |m'.faces| && i in m'.faces[g].corners
  {
    var m' := ContractMesh(num, m, v1, v2, pos);
    var s := MeshSurvivors(m, v1, v2);
    assert m'.faces == m.faces + NewFaceList(s, |m.faces|, |m.vertices|);
    GainsAppended(m'.faces, m.faces, s, |m.vertices|, i, g);
  }

  /** In faces with the list [a, b, vnew] appended per pair, g lists x < vnew exactly when its pair does. */
  lemma GainsAppended(faces: seq<Face>, before: seq<Face>, s: seq<seq<int>>, vnew: int, x: int, g: int)
    requires faces == before + NewFaceList(s, |before|, vnew) && x < vnew
    ensures g in NewFacesOf(s, |before|, x) <==> |before| <= g < |faces| && x in faces[g].corners
  {
    if |before| <= g < |faces| {
      assert faces[g].corners == s[g - |before|] + [vnew];
    }
  }

  /** An old vertex keeps its fields and gains the appended faces listing it. */
  lemma OldVertexGrows(num: Numerics, m: Mesh, v1: int, v2: int, pos: Vec4, i: int)
    requires WellFormed(m)
    requires 0 <= v1 < |m.vertices| && 0 <= v2 < |m.vertices|
    requires 0 <= i < |m.vertices|
    ensures var m' := ContractMesh(num, m, v1, v2, pos);
            |m'.vertices| == |m.vertices| + 1 &&
            m'.vertices[i].id == m.vertices[i].id && m'.vertices[i].pos == m.vertices[i].pos &&
            m'.vertices[i].normal == m.vertices[i].normal &&
            m'.vertices[i].faceIds == m.vertices[i].faceIds + NewFacesOf(MeshSurvivors(m, v1, v2), |m.faces|, i)
  {
    var m' := ContractMesh(num, m, v1, v2, pos);
    var s := MeshSurvivors(m, v1, v2);
    assert m'.vertices == GrowFaceIds(m.vertices, s, |m.faces|) + [m'.vertices[|m.vertices|]];
  }

  lemma ContractMeshVertices(num: Numerics, m: Mesh, v1: int, v2: int, pos: Vec4)
    requires WellFormed(m)
    requires 0 <= v1 < |m.vertices| && 0 <= v2 < |m.vertices|
    ensures VerticesContracted(num, m, ContractMesh(num, m, v1, v2, pos), v1, v2, pos)
  {
    var m' := ContractMesh(num, m, v1, v2, pos);
    NewVertexAt(num, m, v1, v2, pos);
    forall i, g | 0 <= i < |m.vertices|
      ensures m'.vertices[i].id == m.vertices[i].id && m'.vertices[i].pos == m.vertices[i].pos
              && m'.vertices[i].normal == m.vertices[i].normal
      ensures g in m'.vertices[i].faceIds <==>
                g in m.vertices[i].faceIds || (|m.faces| <= g < |m'.faces| && i in m'.faces[g].corners)
    {
      OldVertexAt(num, m, v1, v2, pos, i, g);
    }
  }

  /** The appended vertex: id |vertices|, the candidate's position, the merged normal, and the appended faces. */
  lemma NewVertexAt(num: Numerics, m: Mesh, v1: int, v2: int, pos: Vec4)
    requires WellFormed(m)
    requires 0 <= v1 < |m.vertices| && 0 <= v2 < |m.vertices|
    ensures var m' := ContractMesh(num, m, v1, v2, pos);
            && |m'.vertices| == |m.vertices| + 1
            && m'.vertices[|m.vertices|]
               == Vertex(|m.vertices|, pos, MergedNormal(num, m.vertices[v1].normal, m.vertices[v2].normal), Range(|m.faces|, |m'.faces|))
  {
    var m' := ContractMesh(num, m, v1, v2, pos);
    var s := MeshSurvivors(m, v1, v2);
    assert m'.faces == m.faces + NewFaceList(s, |m.faces|, |m.vertices|);
    assert m'.vertices[|m.vertices|] == (GrowFaceIds(m.vertices, s, |m.faces|) + [m'.vertices[|m.vertices|]])[|m.vertices|];
  }

  /** The k-th re-created face comes from the touched face MeshKept[k]. */
  lemma KeptAt(num: Numerics, m: Mesh, v1: int, v2: int, pos: Vec4, k: int)
    requires WellFormed(m)
    requires 0 <= v1 < |m.vertices| && 0 <= v2 < |m.vertices|
    requires 0 <= k < |MeshKept(m, v1, v2)|
    ensures var kept := MeshKept(m, v1, v2);
            && 0 <= kept[k] < |m.faces|
            && Touched(m, v1, v2, kept[k])
            && |Outside(m.faces[kept[k]].corners, v1, v2)| == 2
            && ContractMesh(num, m, v1, v2, pos).faces[|m.faces| + k]
               == Face(|m.faces| + k, Outside(m.faces[kept[k]].corners, v1, v2) + [|m.vertices|])
  {
    ContractFaces(num, m, v1, v2, pos);
    KeptFacts(m, v1, v2, k);
    AppendedAt(ContractMesh(num, m, v1, v2, pos).faces, m.faces, MeshSurvivors(m, v1, v2), |m.vertices|, |m.faces| + k);
  }

  /** Contracting appends one face [a, b, vnew] per surviving pair and keeps the old faces. */
  lemma ContractFaces(num: Numerics, m: Mesh, v1: int, v2: int, pos: Vec4)
    requires WellFormed(m)
    requires 0 <= v1 < |m.vertices| && 0 <= v2 < |m.vertices|
    ensures ContractMesh(num, m, v1, v2, pos).faces == m.faces + NewFaceList(MeshSurvivors(m, v1, v2), |m.faces|, |m.vertices|)
  {
  }

  /** The k-th kept face is a touched face with two corners outside the pair, and the k-th survivor is those corners. */
  lemma KeptFacts(m: Mesh, v1: int, v2: int, k: int)
    requires WellFormed(m)
    requires 0 <= v1 < |m.vertices| && 0 <= v2 < |m.vertices|
    requires 0 <= k < |MeshKept(m, v1, v2)|
    ensures var kept := MeshKept(m, v1, v2);
            && 0 <= kept[k] < |m.faces|
            && Touched(m, v1, v2, kept[k])
            && |Outside(m.faces[kept[k]].corners, v1, v2)| == 2
            && MeshSurvivors(m, v1, v2)[k] == Outside(m.faces[kept[k]].corners, v1, v2)
  {
    var kept := MeshKept(m, v1, v2);
    assert kept[k] in kept;
  }

  lemma FacesPrefix(num: Numerics, m: Mesh, v1: int, v2: int, pos: Vec4)
    requires WellFormed(m)
    requires 0 <= v1 < |m.vertices| && 0 <= v2 < |m.vertices|
    ensures |ContractMesh(num, m, v1, v2, pos).faces| == |m.faces| + |MeshKept(m, v1, v2)|
    ensures ContractMesh(num, m, v1, v2, pos).faces[..|m.faces|] == m.faces
  {
    var m' := ContractMesh(num, m, v1, v2, pos);
    assert m'.faces == m.faces + NewFaceList(MeshSurvivors(m, v1, v2), |m.faces|, |m.vertices|);
  }

  lemma KeptComplete(m: Mesh, v1: int, v2: int)
    requires WellFormed(m)
    requires 0 <= v1 < |m.vertices| && 0 <= v2 < |m.vertices|
    ensures forall f :: 0 <= f < |m.faces| && Touched(m, v1, v2, f) && |Outside(m.faces[f].corners, v1, v2)| == 2 ==>
              f in MeshKept(m, v1, v2)
  {
  }

  /** Introduction rule for `FacesContracted`, so that callers need not unfold it. */
  lemma FacesContractedIntro(m: Mesh, m': Mesh, v1: int, v2: int, kept: seq<int>)
    requires 0 <= v1 < |m.vertices| && 0 <= v2 < |m.vertices|
    requires |m'.faces| == |m.faces| + |kept|
    requires m'.faces[..|m.faces|] == m.faces
    requires forall k :: 0 <= k < |kept| ==>
               && 0 <= kept[k] < |m.faces|
               && Touched(m, v1, v2, kept[k])
               && |Outside(m.faces[kept[k]].corners, v1, v2)| == 2
               && m'.faces[|m.faces| + k] == Face(|m.faces| + k, Outside(m.faces[kept[k]].corners, v1, v2) + [|m.vertices|])
    requires forall f :: 0 <= f < |m.faces| && Touched(m, v1, v2, f) && |Outside(m.faces[f].corners, v1, v2)| == 2 ==>
               f in kept
    ensures FacesContracted(m, m', v1, v2, kept)
  {
  }

  lemma KeptAll(num: Numerics, m: Mesh, v1: int, v2: int, pos: Vec4)
    requires WellFormed(m)
    requires 0 <= v1 < |m.vertices| && 0 <= v2 < |m.vertices|
    ensures var kept := MeshKept(m, v1, v2);
            forall k :: 0 <= k < |kept| ==>
              && 0 <= kept[k] < |m.faces|
              && Touched(m, v1, v2, kept[k])
              && |Outside(m.faces[kept[k]].corners, v1, v2)| == 2
              && ContractMesh(num, m, v1, v2, pos).faces[|m.faces| + k]
                 == Face(|m.faces| + k, Outside(m.faces[kept[k]].corners, v1, v2) + [|m.vertices|])
  {
    forall k | 0 <= k < |MeshKept(m, v1, v2)| {
      KeptAt(num, m, v1, v2, pos, k);
    }
  }

  lemma ContractMeshFaces(num: Numerics, m: Mesh, v1: int, v2: int, pos: Vec4)
    requires WellFormed(m)
    requires 0 <= v1 < |m.vertices| && 0 <= v2 < |m.vertices|
    ensures FacesContracted(m, ContractMesh(num, m, v1, v2, pos), v1, v2, MeshKept(m, v1, v2))
  {
    FacesPrefix(num, m, v1, v2, pos);
    KeptComplete(m, v1, v2);
    KeptAll(num, m, v1, v2, pos);
    FacesContractedIntro(m, ContractMesh(num, m, v1, v2, pos), v1, v2, MeshKept(m, v1, v2));
  }

  lemma ContractMeshTombstones(num: Numerics, m: Mesh, v1: int, v2: int, pos: Vec4)
    requires WellFormed(m)
    requires 0 <= v1 < |m.vertices| && 0 <= v2 < |m.vertices|
    ensures TombstonesContracted(m, ContractMesh(num, m, v1, v2, pos), v1, v2)
  {
  }

  /** `ContractMesh` meets the declarative description, with `MeshKept` as the origins of the re-created faces. */
  lemma ContractMeshSpec(num: Numerics, m: Mesh, v1: int, v2: int, pos: Vec4)
    requires WellFormed(m)
    requires 0 <= v1 < |m.vertices| && 0 <= v2 < |m.vertices|
    ensures ContractedFrom(num, m, ContractMesh(num, m, v1, v2, pos), v1, v2, pos, MeshKept(m, v1, v2))
  {
    ContractMeshVertices(num, m, v1, v2, pos);
    ContractMeshFaces(num, m, v1, v2, pos);
    ContractMeshTombstones(num, m, v1, v2, pos);
  }

  /** `Outside` on a three-corner list, position by position. */
  lemma OutsideOfThree(c: seq<int>, v1: int, v2: int)
    requires |c| == 3
    ensures Outside(c, v1, v2)
            == (if c[0] != v1 && c[0] != v2 then [c[0]] else [])
             + (if c[1] != v1 && c[1] != v2 then [c[1]] else [])
             + (if c[2] != v1 && c[2] != v2 then [c[2]] else [])
  {
    var o2 := Outside(c[1..][1..], v1, v2);
    var o1 := Outside(c[1..], v1, v2);
    assert c[1..][1..] == [c[2]];
    assert Outside(c[1..][1..][1..], v1, v2) == [];
    assert o2 == (if c[2] != v1 && c[2] != v2 then [c[2]] else []);
    assert o1 == (if c[1] != v1 && c[1] != v2 then [c[1]] else []) + o2;
  }

  /** The three rotations of a corner list: the same triangle with the same winding. */
  predicate SameWinding(c: seq<int>, d: seq<int>)
    requires |c| == 3
  {
    d == c || d == [c[1], c[2], c[0]] || d == [c[2], c[0], c[1]]
  }

  /** The corner list with every x replaced by y: the face as an in-place collapse would rewrite it. */
  function Substitute(c: seq<int>, x: int, y: int): (d: seq<int>)
    ensures |d| == |c|
    ensures forall i :: 0 <= i < |c| ==> d[i] == (if c[i] == x then y else c[i])
  {
    seq(|c|, i requires 0 <= i < |c| => if c[i] == x then y else c[i])
  }

  /**
   * The winding quirk: the re-created face [outside corners..., vnew] has
   * the same orientation as the face with the collapsed corner replaced in
   * place exactly when that corner was not the middle one; a collapsed
   * middle corner flips the face.
   */
  lemma ReplacementWinding(c: seq<int>, v1: int, v2: int, vnew: int)
    requires Triangle(c) && vnew !in c
    requires (v1 in c) != (v2 in c)
    ensures var w := if v1 in c then v1 else v2;
            SameWinding(Substitute(c, w, vnew), Outside(c, v1, v2) + [vnew]) <==> c[1] != w
  {
    OutsideOfThree(c, v1, v2);
    var w := if v1 in c then v1 else v2;
    var d := Substitute(c, w, vnew);
    var r := Outside(c, v1, v2) + [vnew];
    if c[0] == w {
      assert r == [c[1], c[2], vnew] && d == [vnew, c[1], c[2]];
    } else if c[1] == w {
      assert r == [c[0], c[2], vnew] && d == [c[0], vnew, c[2]];
    } else {
      assert c[2] == w;
      assert r == [c[0], c[1], vnew] && d == [c[0], c[1], vnew];
    }
  }

  /**
   * The corners of a triangle outside {v1, v2}: a face holding both (distinct)
   * endpoints keeps one corner, a face holding exactly one keeps two, and
   * two kept corners are distinct.
   */
  lemma TriangleOutside(c: seq<int>, v1: int, v2: int)
    requires Triangle(c)
    ensures |Outside(c, v1, v2)| == 2 ==> Outside(c, v1, v2)[0] != Outside(c, v1, v2)[1]
    ensures v1 != v2 && v1 in c && v2 in c ==> |Outside(c, v1, v2)| == 1
    ensures (v1 in c) != (v2 in c) ==> |Outside(c, v1, v2)| == 2
  {
    OutsideOfThree(c, v1, v2);
  }

  /** Ids stay dense, every face stays a triangle with corners in range, and the tombstones name existing elements. */
  lemma ContractedStructure(num: Numerics, m: Mesh, m': Mesh, v1: int, v2: int, pos: Vec4, kept: seq<int>)
    requires Consistent(m)
    requires 0 <= v1 < |m.vertices| && 0 <= v2 < |m.vertices|
    requires ContractedFrom(num, m, m', v1, v2, pos, kept)
    ensures WellFormed(m')
    ensures DenseIds(m')
    ensures forall f :: 0 <= f < |m'.faces| ==> Triangle(m'.faces[f].corners)
    ensures forall f :: f in m'.invalidFaces ==> 0 <= f < |m.faces|
    ensures forall v :: v in m'.invalidVertices ==> 0 <= v < |m.vertices|
  {
    var nf := |m.faces|;
    forall f | 0 <= f < |m'.faces|
      ensures m'.faces[f].id == f && Triangle(m'.faces[f].corners)
      ensures forall c :: c in m'.faces[f].corners ==> 0 <= c < |m'.vertices|
    {
      if f < nf {
        assert m'.faces[f] == m'.faces[..nf][f];
      } else {
        var o := Outside(m.faces[kept[f - nf]].corners, v1, v2);
        TriangleOutside(m.faces[kept[f - nf]].corners, v1, v2);
        assert o[0] in o && o[1] in o;
        assert m'.faces[f].corners == o + [|m.vertices|];
      }
    }
    assert VerticesContracted(num, m, m', v1, v2, pos);
    forall v, g | 0 <= v < |m'.vertices| && g in m'.vertices[v].faceIds
      ensures 0 <= g < |m'.faces|
    {
      if v < |m.vertices| {
        assert g in m.vertices[v].faceIds || (nf <= g < |m'.faces| && v in m'.faces[g].corners);
      }
    }
  }

  /** Live faces of the contracted mesh have only live corners. */
  lemma ContractedLiveCorners(num: Numerics, m: Mesh, m': Mesh, v1: int, v2: int, pos: Vec4, kept: seq<int>, f: int, c: int)
    requires Consistent(m)
    requires LiveVertex(m, v1) && LiveVertex(m, v2)
    requires ContractedFrom(num, m, m', v1, v2, pos, kept)
    requires LiveFace(m', f) && c in m'.faces[f].corners
    ensures LiveVertex(m', c)
  {
    var nf := |m.faces|;
    assert TombstonesContracted(m, m', v1, v2);
    assert VerticesContracted(num, m, m', v1, v2, pos);
    if f < nf {
      assert m'.faces[f] == m'.faces[..nf][f];
      assert LiveFace(m, f);
      assert f !in LiveFaceIds(m, v1) && f !in LiveFaceIds(m, v2);
      assert f !in IncidentLive(m, v1) && f !in IncidentLive(m, v2);
      assert LiveVertex(m, c);
    } else {
      var h := kept[f - nf];
      assert m'.faces[f].corners == Outside(m.faces[h].corners, v1, v2) + [|m.vertices|];
      if c != |m.vertices| {
        assert c in Outside(m.faces[h].corners, v1, v2);
        assert LiveFace(m, h);
        assert LiveVertex(m, c);
      } else {
        assert c !in m.invalidVertices;
      }
    }
  }

  /** For a live vertex x of the contracted mesh, g is a non-tombstoned entry of x's `faceIds` iff g is a live face cornered on x. */
  lemma ContractedAdjacencyAt(num: Numerics, m: Mesh, m': Mesh, v1: int, v2: int, pos: Vec4, kept: seq<int>, x: int, g: int)
    requires Consistent(m)
    requires 0 <= v1 < |m.vertices| && 0 <= v2 < |m.vertices|
    requires ContractedFrom(num, m, m', v1, v2, pos, kept)
    requires LiveVertex(m', x)
    ensures (g in m'.vertices[x].faceIds && g !in m'.invalidFaces)
              <==> (0 <= g < |m'.faces| && g !in m'.invalidFaces && x in m'.faces[g].corners)
  {
    var nf := |m.faces|;
    ContractedStructure(num, m, m', v1, v2, pos, kept);
    assert VerticesContracted(num, m, m', v1, v2, pos);
    assert TombstonesContracted(m, m', v1, v2);
    var inFaceIds := g in m'.vertices[x].faceIds;
    assert FacesContracted(m, m', v1, v2, kept);
    if x == |m.vertices| {
      if 0 <= g < nf {
        assert m'.faces[g] == m'.faces[..nf][g];
        assert x !in m.faces[g].corners;
      } else if nf <= g < |m'.faces| {
        var k := g - nf;
        assert m'.faces[nf + k].corners == Outside(m.faces[kept[k]].corners, v1, v2) + [|m.vertices|];
        assert g !in m'.invalidFaces;
      }
    } else {
      assert LiveVertex(m, x);
      assert (g in LiveFaceIds(m, x)) == (g in IncidentLive(m, x));
      if 0 <= g < nf {
        assert m'.faces[g] == m'.faces[..nf][g];
        assert inFaceIds == (g in m.vertices[x].faceIds);
      } else if nf <= g < |m'.faces| {
        assert g !in m.vertices[x].faceIds;
        assert g !in m'.invalidFaces;
        assert inFaceIds == (x in m'.faces[g].corners);
      } else {
        assert g !in m.vertices[x].faceIds;
        assert !inFaceIds;
      }
    }
  }

  /** Any contraction of two live vertices keeps the mesh invariants. */
  lemma ContractedConsistent(num: Numerics, m: Mesh, m': Mesh, v1: int, v2: int, pos: Vec4, kept: seq<int>)
    requires Consistent(m)
    requires LiveVertex(m, v1) && LiveVertex(m, v2)
    requires ContractedFrom(num, m, m', v1, v2, pos, kept)
    ensures Consistent(m')
  {
    ContractedStructure(num, m, m', v1, v2, pos, kept);
    forall f, c | LiveFace(m', f) && c in m'.faces[f].corners
      ensures LiveVertex(m', c)
    {
      ContractedLiveCorners(num, m, m', v1, v2, pos, kept, f, c);
    }
    forall x | LiveVertex(m', x)
      ensures LiveFaceIds(m', x) == IncidentLive(m', x)
    {
      forall g ensures g in LiveFaceIds(m', x) <==> g in IncidentLive(m', x)
      {
        ContractedAdjacencyAt(num, m, m', v1, v2, pos, kept, x, g);
      }
    }
  }

  /** Contraction keeps the mesh invariants. */
  lemma ContractMeshConsistent(num: Numerics, m: Mesh, v1: int, v2: int, pos: Vec4)
    requires Consistent(m)
    requires LiveVertex(m, v1) && LiveVertex(m, v2)
    ensures Consistent(ContractMesh(num, m, v1, v2, pos))
  {
    ContractMeshSpec(num, m, v1, v2, pos);
    ContractedConsistent(num, m, ContractMesh(num, m, v1, v2, pos), v1, v2, pos, MeshKept(m, v1, v2));
  }

  /** One contraction of the live candidate `c`; `e.queue` holds the candidates still queued after it. */
  function Contract(num: Numerics, e: Engine, c: Candidate): (r: Engine)
    requires Ready(e)
    requires 0 <= c.v1 < |e.mesh.vertices| && 0 <= c.v2 < |e.mesh.vertices|
    ensures Ready(r)
    ensures |r.mesh.vertices| == |e.mesh.vertices| + 1
  {
    var m := e.mesh;
    var s := MeshSurvivors(m, c.v1, c.v2);
    var m' := ContractMesh(num, m, c.v1, c.v2, c.pos);
    ContractMeshWellFormed(num, m, c.v1, c.v2, c.pos);
    var qs' := e.qs + [Add(e.qs[c.v1], e.qs[c.v2])];
    var edges := NewEdges(s, |m.vertices|);
    NewEdgesInRange(s, |m.vertices|);
    var cands := BuildCandidates(num, qs', Positions(m'), edges);
    assert QueueInRange(cands, |m.vertices| + 1);
    var q' := InsertAll(e.queue, cands);
    QueueStaysInRange(e.queue, cands, q', |m.vertices|);
    Engine(m', qs', q')
  }

  lemma NewEdgesInRange(s: seq<seq<int>>, n: int)
    requires forall k :: 0 <= k < |s| ==> |s[k]| == 2
    requires forall k, x :: 0 <= k < |s| && x in s[k] ==> 0 <= x < n
    ensures forall i :: 0 <= i < |NewEdges(s, n)| ==> 0 <= NewEdges(s, n)[i].0 < n && NewEdges(s, n)[i].1 == n
  {
    var es := NewEdges(s, n);
    forall i | 0 <= i < |es|
      ensures 0 <= es[i].0 < n
    {
      var k := i / 2;
      assert 0 <= k < |s|;
      assert s[k][i % 2] in s[k];
    }
  }

  lemma QueueStaysInRange(q: seq<Candidate>, cands: seq<Candidate>, q': seq<Candidate>, n: int)
    requires QueueInRange(q, n) && QueueInRange(cands, n + 1)
    requires forall x :: x in q' ==> x in q || x in cands
    ensures QueueInRange(q', n + 1)
  {
    forall i | 0 <= i < |q'|
      ensures 0 <= q'[i].v1 < n + 1 && 0 <= q'[i].v2 < n + 1
    {
      assert q'[i] in q';
      if q'[i] in q {
        var j :| 0 <= j < |q| && q[j] == q'[i];
      } else {
        var j :| 0 <= j < |cands| && cands[j] == q'[i];
      }
    }
  }

  /**
   * What a contraction does to the engine's quadrics and queue: the new
   * vertex's quadric is the sum of its endpoints'; every queued candidate
   * stays queued; every other queued candidate is a fresh (corner, vnew)
   * candidate built from the extended quadrics and positions; and for each
   * re-created face both (corner, vnew) keys end up in the queue.
   */
  lemma ContractEngine(num: Numerics, e: Engine, c: Candidate)
    requires Ready(e)
    requires 0 <= c.v1 < |e.mesh.vertices| && 0 <= c.v2 < |e.mesh.vertices|
    ensures var r := Contract(num, e, c);
            var vnew := |e.mesh.vertices|;
            && r.mesh == ContractMesh(num, e.mesh, c.v1, c.v2, c.pos)
            && r.qs == e.qs + [Add(e.qs[c.v1], e.qs[c.v2])]
            && (forall x :: x in e.queue ==> x in r.queue)
            && (forall x :: x in r.queue ==>
                  x in e.queue
                  || (0 <= x.v1 < vnew && x.v2 == vnew && x == MakeCandidate(num, r.qs, Positions(r.mesh), x.v1, vnew)))
  {
    var r := Contract(num, e, c);
    var m := e.mesh;
    var s := MeshSurvivors(m, c.v1, c.v2);
    var edges := NewEdges(s, |m.vertices|);
    NewEdgesInRange(s, |m.vertices|);
    ContractMeshWellFormed(num, m, c.v1, c.v2, c.pos);
    var cands := BuildCandidates(num, r.qs, Positions(r.mesh), edges);
    assert r.queue == InsertAll(e.queue, cands);
    forall x | x in r.queue && x !in e.queue
      ensures 0 <= x.v1 < |m.vertices| && x.v2 == |m.vertices|
      ensures x == MakeCandidate(num, r.qs, Positions(r.mesh), x.v1, |m.vertices|)
    {
      var i :| 0 <= i < |cands| && cands[i] == x;
    }
  }

  lemma PairIndex(k: int, j: int)
    requires 0 <= k && 0 <= j < 2
    ensures (2 * k + j) / 2 == k && (2 * k + j) % 2 == j
  {
  }

  /**
   * Both (corner, vnew) keys of every re-created face are queued after the
   * contraction, built after the quadrics and positions were extended.
   */
  lemma ContractQueuesNewEdges(num: Numerics, e: Engine, c: Candidate, k: int, j: int)
    requires Ready(e)
    requires 0 <= c.v1 < |e.mesh.vertices| && 0 <= c.v2 < |e.mesh.vertices|
    requires 0 <= k < |MeshKept(e.mesh, c.v1, c.v2)| && 0 <= j < 2
    ensures var r := Contract(num, e, c);
            HasKey(r.queue, MakeCandidate(num, r.qs, Positions(r.mesh), SurvivorAt(e.mesh, c.v1, c.v2, k, j), |e.mesh.vertices|))
  {
    var r := Contract(num, e, c);
    var m := e.mesh;
    var s := MeshSurvivors(m, c.v1, c.v2);
    var edges := NewEdges(s, |m.vertices|);
    NewEdgesInRange(s, |m.vertices|);
    ContractMeshWellFormed(num, m, c.v1, c.v2, c.pos);
    var cands := BuildCandidates(num, r.qs, Positions(r.mesh), edges);
    assert r.queue == InsertAll(e.queue, cands);
    PairIndex(k, j);
    assert edges[2 * k + j] == (s[k][j], |m.vertices|);
  }

  /** The queue after a contraction never joins a vertex to itself if it did not before. */
  lemma ContractNoSelfLoops(num: Numerics, e: Engine, c: Candidate)
    requires Ready(e)
    requires 0 <= c.v1 < |e.mesh.vertices| && 0 <= c.v2 < |e.mesh.vertices|
    requires forall i :: 0 <= i < |e.queue| ==> e.queue[i].v1 != e.queue[i].v2
    ensures var r := Contract(num, e, c);
            forall i :: 0 <= i < |r.queue| ==> r.queue[i].v1 != r.queue[i].v2
  {
    ContractEngine(num, e, c);
    QueueNoSelfLoops(e.queue, Contract(num, e, c).queue, |e.mesh.vertices|);
  }

  /** A queue drawn from a loop-free queue and from pairs (a, vnew) with a < vnew has no loop. */
  lemma QueueNoSelfLoops(q: seq<Candidate>, q': seq<Candidate>, vnew: int)
    requires forall i :: 0 <= i < |q| ==> q[i].v1 != q[i].v2
    requires forall x :: x in q' ==> x in q || (0 <= x.v1 < vnew && x.v2 == vnew)
    ensures forall i :: 0 <= i < |q'| ==> q'[i].v1 != q'[i].v2
  {
    forall i | 0 <= i < |q'| ensures q'[i].v1 != q'[i].v2
    {
      assert q'[i] in q';
      if q'[i] in q {
        var j :| 0 <= j < |q| && q[j] == q'[i];
      }
    }
  }

  /** Contracting a live candidate keeps the engine valid. */
  lemma ContractValid(num: Numerics, e: Engine, c: Candidate)
    requires Valid(e)
    requires LiveVertex(e.mesh, c.v1) && LiveVertex(e.mesh, c.v2)
    ensures Valid(Contract(num, e, c))
  {
    ContractEngine(num, e, c);
    ContractMeshConsistent(num, e.mesh, c.v1, c.v2, c.pos);
    ContractNoSelfLoops(num, e, c);
  }

  /** A candidate is stale once either endpoint is tombstoned. */
  predicate Stale(m: Mesh, c: Candidate)
  {
    c.v1 in m.invalidVertices || c.v2 in m.invalidVertices
  }

  /** How many candidates the pop loop discards as stale before it reaches a live one (|q| if none is live). */
  function FirstLive(m: Mesh, q: seq<Candidate>): (k: nat)
    ensures k <= |q|
    ensures forall i :: 0 <= i < k ==> Stale(m, q[i])
    ensures k < |q| ==> !Stale(m, q[k])
    decreases |q|
  {
    if q == [] then 0
    else if Stale(m, q[0]) then
      var k := FirstLive(m, q[1..]);
      assert forall i :: 1 <= i < k + 1 ==> q[i] == q[1..][i - 1];
      1 + k
    else 0
  }

  /** Dropping a prefix of the queue keeps an engine ready. */
  lemma DropPrefixReady(e: Engine, k: nat)
    requires Ready(e) && k <= |e.queue|
    ensures Ready(e.(queue := e.queue[k..]))
  {
    assert forall i :: 0 <= i < |e.queue| - k ==> e.queue[k..][i] == e.queue[k + i];
  }

  /**
   * `simplifyStep`: pop candidates in queue order, discarding stale ones,
   * and contract the first live one (which is popped too); the flag says
   * whether a contraction happened.
   */
  function Step(num: Numerics, e: Engine): (r: (Engine, bool))
    requires Ready(e)
    ensures Ready(r.0)
    ensures r.1 <==> exists i :: 0 <= i < |e.queue| && !Stale(e.mesh, e.queue[i])
    ensures !r.1 ==> r.0 == e.(queue := [])
  {
    var k := FirstLive(e.mesh, e.queue);
    if k == |e.queue| then
      (e.(queue := []), false)
    else
      DropPrefixReady(e, k + 1);
      (Contract(num, e.(queue := e.queue[k + 1..]), e.queue[k]), true)
  }

  /** The live vertices after contracting two distinct live vertices: both endpoints leave and vnew joins. */
  lemma ContractedLiveVertices(num: Numerics, m: Mesh, m': Mesh, v1: int, v2: int, pos: Vec4, kept: seq<int>)
    requires Consistent(m)
    requires LiveVertex(m, v1) && LiveVertex(m, v2) && v1 != v2
    requires ContractedFrom(num, m, m', v1, v2, pos, kept)
    ensures LiveVertices(m') == LiveVertices(m) - {v1, v2} + {|m.vertices|}
    ensures |LiveVertices(m')| + 1 == |LiveVertices(m)|
  {
    assert TombstonesContracted(m, m', v1, v2);
    assert VerticesContracted(num, m, m', v1, v2, pos);
    var a := LiveVertices(m);
    assert LiveVertices(m') == a - {v1, v2} + {|m.vertices|};
    assert |a - {v1, v2}| == |a| - 2 by {
      assert a - {v1, v2} == a - {v1} - {v2};
    }
  }

  /**
   * `simplifyStep` contracts the least live candidate in queue order: every
   * candidate before it is stale and discarded, and it is popped together
   * with them.
   */
  lemma StepContractsLeastLive(num: Numerics, e: Engine)
    requires Ready(e)
    ensures var r := Step(num, e);
            r.1 ==> exists k :: && 0 <= k < |e.queue|
                                && !Stale(e.mesh, e.queue[k])
                                && (forall i :: 0 <= i < k ==> Stale(e.mesh, e.queue[i]))
                                && (forall i :: 0 <= i < |e.queue| && !Stale(e.mesh, e.queue[i]) ==>
                                      i == k || Less(e.queue[k], e.queue[i]))
                                && Ready(e.(queue := e.queue[k + 1..]))
                                && 0 <= e.queue[k].v1 < |e.mesh.vertices| && 0 <= e.queue[k].v2 < |e.mesh.vertices|
                                && r.0 == Contract(num, e.(queue := e.queue[k + 1..]), e.queue[k])
  {
    var k := FirstLive(e.mesh, e.queue);
    if k < |e.queue| {
      DropPrefixReady(e, k + 1);
      forall i | 0 <= i < |e.queue| && !Stale(e.mesh, e.queue[i])
        ensures i == k || Less(e.queue[k], e.queue[i])
      {
        if i != k {
          assert i > k;
        }
      }
    }
  }

  /** Dropping a prefix of the queue keeps an engine valid. */
  lemma DropPrefixValid(e: Engine, k: nat)
    requires Valid(e) && k <= |e.queue|
    ensures Valid(e.(queue := e.queue[k..]))
  {
    DropPrefixReady(e, k);
    assert forall i :: 0 <= i < |e.queue| - k ==> e.queue[k..][i] == e.queue[k + i];
  }

  /** A step that finds a live candidate contracts it on the rest of the queue. */
  lemma StepContracts(num: Numerics, e: Engine, k: nat, rest: Engine)
    requires Ready(e) && k == FirstLive(e.mesh, e.queue) && k < |e.queue|
    requires rest == e.(queue := e.queue[k + 1..]) && Ready(rest)
    ensures Step(num, e) == (Contract(num, rest, e.queue[k]), true)
  {
  }

  /** The candidate the pop loop stops at joins two live vertices. */
  lemma FirstLiveInRange(e: Engine, k: nat)
    requires QueueInRange(e.queue, |e.mesh.vertices|) && k == FirstLive(e.mesh, e.queue) && k < |e.queue|
    ensures LiveVertex(e.mesh, e.queue[k].v1) && LiveVertex(e.mesh, e.queue[k].v2)
  {
  }

  /** `simplifyStep` keeps the engine valid. */
  lemma StepValid(num: Numerics, e: Engine)
    requires Valid(e)
    ensures Valid(Step(num, e).0)
  {
    var k := FirstLive(e.mesh, e.queue);
    if k < |e.queue| {
      DropPrefixValid(e, k + 1);
      StepContracts(num, e, k, e.(queue := e.queue[k + 1..]));
      ContractValid(num, e.(queue := e.queue[k + 1..]), e.queue[k]);
    }
  }

  /** Contracting two distinct live vertices lowers the live-vertex count by exactly one. */
  lemma ContractLiveCount(num: Numerics, e: Engine, c: Candidate)
    requires Valid(e)
    requires LiveVertex(e.mesh, c.v1) && LiveVertex(e.mesh, c.v2) && c.v1 != c.v2
    ensures |LiveVertices(Contract(num, e, c).mesh)| + 1 == |LiveVertices(e.mesh)|
  {
    ContractEngine(num, e, c);
    ContractMeshSpec(num, e.mesh, c.v1, c.v2, c.pos);
    ContractedLiveVertices(num, e.mesh, Contract(num, e, c).mesh, c.v1, c.v2, c.pos, MeshKept(e.mesh, c.v1, c.v2));
  }

  /** A contracting step lowers the live-vertex count by exactly one; a step that finds nothing live changes no vertex. */
  lemma StepLiveCount(num: Numerics, e: Engine)
    requires Valid(e)
    ensures var r := Step(num, e);
            && (r.1 ==> |LiveVertices(r.0.mesh)| + 1 == |LiveVertices(e.mesh)| && |LiveVertices(e.mesh)| >= 2)
            && (!r.1 ==> r.0.mesh == e.mesh)
  {
    var k := FirstLive(e.mesh, e.queue);
    if k < |e.queue| {
      var c := e.queue[k];
      DropPrefixValid(e, k + 1);
      StepContracts(num, e, k, e.(queue := e.queue[k + 1..]));
      FirstLiveInRange(e, k);
      ContractLiveCount(num, e.(queue := e.queue[k + 1..]), c);
      LiveCardinality(e.mesh, c.v1, c.v2);
    }
  }

  /**
   * `n` successive calls of `simplifyStep`, returning the engine and how many
   * of them contracted.
   */
  function Run(num: Numerics, e: Engine, n: nat): (r: (Engine, nat))
    requires Ready(e)
    ensures Ready(r.0)
    ensures r.1 <= n
    decreases n
  {
    if n == 0 then (e, 0)
    else
      var (e', did) := Step(num, e);
      var (e'', count) := Run(num, e', n - 1);
      (e'', count + if did then 1 else 0)
  }

  /**
   * Termination bound: repeated steps keep the engine valid, every
   * contraction removes exactly one live vertex, and since each needs two
   * live endpoints, at most |live vertices| - 1 contractions ever happen.
   */
  lemma {:induction false} RunBound(num: Numerics, e: Engine, n: nat)
    requires Valid(e)
    ensures var r := Run(num, e, n);
            && Valid(r.0)
            && |LiveVertices(r.0.mesh)| + r.1 == |LiveVertices(e.mesh)|
            && (r.1 > 0 ==> r.1 + 1 <= |LiveVertices(e.mesh)|)
    decreases n
  {
    if n > 0 {
      var (e', did) := Step(num, e);
      StepValid(num, e);
      StepLiveCount(num, e);
      RunBound(num, e', n - 1);
    }
  }

  lemma LiveCardinality(m: Mesh, a: int, b: int)
    requires a in LiveVertices(m) && b in LiveVertices(m) && a != b
    ensures |LiveVertices(m)| >= 2
  {
    var l := LiveVertices(m);
    assert {a, b} <= l;
    SubsetCard({a, b}, l);
  }

  lemma SubsetCard(x: set<int>, y: set<int>)
    requires x <= y
    ensures |x| <= |y|
  {
    assert y == x + (y - x);
  }
}
