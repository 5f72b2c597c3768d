/**
 * The simplifier's mesh: dense vertex and face arrays whose ids equal their
 * indices, per-vertex incident-face sets, and two tombstone sets marking
 * deleted faces and vertices. Nothing is ever removed from the arrays.
 */
module ZeroMesh {
  import opened Homogeneous

  datatype Vertex = Vertex(id: int, pos: Vec4, normal: Vec4, faceIds: set<int>)

  datatype Face = Face(id: int, corners: seq<int>)

  datatype Mesh = Mesh(vertices: seq<Vertex>, faces: seq<Face>, invalidFaces: set<int>, invalidVertices: set<int>)

  predicate LiveVertex(m: Mesh, v: int)
  {
    0 <= v < |m.vertices| && v !in m.invalidVertices
  }

  predicate LiveFace(m: Mesh, f: int)
  {
    0 <= f < |m.faces| && f !in m.invalidFaces
  }

  /** The live faces that have `v` as a corner. */
  ghost function IncidentLive(m: Mesh, v: int): set<int>
  {
    set f | 0 <= f < |m.faces| && f !in m.invalidFaces && v in m.faces[f].corners
  }

  /** The entries of `v`'s `faceIds` that are not tombstoned. */
  ghost function LiveFaceIds(m: Mesh, v: int): set<int>
    requires 0 <= v < |m.vertices|
  {
    set f | f in m.vertices[v].faceIds && f !in m.invalidFaces
  }

  /** Every index the simplifier follows without a check is in range. */
  predicate WellFormed(m: Mesh)
  {
    && (forall v, f :: 0 <= v < |m.vertices| && f in m.vertices[v].faceIds ==> 0 <= f < |m.faces|)
    && (forall f, c :: 0 <= f < |m.faces| && c in m.faces[f].corners ==> 0 <= c < |m.vertices|)
  }

  /** Three pairwise distinct corners. */
  predicate Triangle(c: seq<int>)
  {
    |c| == 3 && c[0] != c[1] && c[1] != c[2] && c[0] != c[2]
  }

  /** Ids equal indices in both arrays. */
  predicate DenseIds(m: Mesh)
  {
    && (forall v :: 0 <= v < |m.vertices| ==> m.vertices[v].id == v)
    && (forall f :: 0 <= f < |m.faces| ==> m.faces[f].id == f)
  }

  /**
   * The mesh invariants: ids are dense, faces are proper triangles,
   * tombstones name existing elements, live faces use only live vertices,
   * and each live vertex's non-tombstoned `faceIds` are exactly the live
   * faces cornered on it.
   */
  ghost predicate Consistent(m: Mesh)
  {
    && WellFormed(m)
    && DenseIds(m)
    && (forall f :: 0 <= f < |m.faces| ==> Triangle(m.faces[f].corners))
    && (forall f :: f in m.invalidFaces ==> 0 <= f < |m.faces|)
    && (forall v :: v in m.invalidVertices ==> 0 <= v < |m.vertices|)
    && (forall f, c :: LiveFace(m, f) && c in m.faces[f].corners ==> LiveVertex(m, c))
    && (forall v :: LiveVertex(m, v) ==> LiveFaceIds(m, v) == IncidentLive(m, v))
  }

  ghost function LiveVertices(m: Mesh): set<int>
  {
    set v | 0 <= v < |m.vertices| && v !in m.invalidVertices
  }

  ghost function LiveFaces(m: Mesh): set<int>
  {
    set f | 0 <= f < |m.faces| && f !in m.invalidFaces
  }
}
