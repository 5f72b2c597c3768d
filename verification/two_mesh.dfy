/**
 * The skinned mesh of the skeleton program (`two/Mesh.cpp`): `load` reads
 * bind-pose vertices and faces from OBJ-style lines, and `loadAttachments`
 * reads one row of joint weights per line. Stream parsing is left out:
 * each line arrives as its command and its numbers.
 */
module TwoMesh {
  import opened Wrappers
  import opened Homogeneous
  import opened Text

  /** A `Tuple3u` face of vertex indices. */
  datatype Face3 = Face3(a: nat, b: nat, c: nat)

  /** `bindVertices`, `currentVertices`, `faces` and the per-vertex weight rows `attachments`. */
  datatype SkinMesh = SkinMesh(bindVertices: seq<Vec3>, currentVertices: seq<Vec3>, faces: seq<Face3>, attachments: seq<seq<real>>)

  /** A line of the mesh file: `v x y z`, `f i j k` read as unsigned numbers, or any other command. */
  datatype MeshLine = VertexLine(v: Vec3) | FaceLine(i: nat, j: nat, k: nat) | OtherLine

  /** `loadAttachments` with no joints writes entry 0 of an empty row. */
  datatype SkinError = NoJoints

  const EmptyMesh := SkinMesh([], [], [], [])

  /** Every face index is an `unsigned` value. */
  predicate UnsignedFaces(lines: seq<MeshLine>)
  {
    forall q :: 0 <= q < |lines| && lines[q].FaceLine? ==> lines[q].i < TWO_32 && lines[q].j < TWO_32 && lines[q].k < TWO_32
  }

  /** The positions of the `v` lines, in file order. */
  function Vertices(lines: seq<MeshLine>): seq<Vec3>
  {
    if lines == [] then []
    else Vertices(lines[..|lines| - 1]) + (if lines[|lines| - 1].VertexLine? then [lines[|lines| - 1].v] else [])
  }

  /** The face an `f` line yields: each index decremented as an `unsigned`. */
  function FaceOf(l: MeshLine): Face3
    requires l.FaceLine? && l.i < TWO_32 && l.j < TWO_32 && l.k < TWO_32
  {
    Face3(DecUnsigned(l.i), DecUnsigned(l.j), DecUnsigned(l.k))
  }

  /** The faces of the `f` lines, in file order. */
  function Faces(lines: seq<MeshLine>): seq<Face3>
    requires UnsignedFaces(lines)
  {
    if lines == [] then []
    else Faces(lines[..|lines| - 1]) + (if lines[|lines| - 1].FaceLine? then [FaceOf(lines[|lines| - 1])] else [])
  }

  /**
   * `load`: each `v` line appends a bind vertex, each `f` line a face with
   * every index decremented, other lines are skipped; the current pose
   * starts as a copy of the bind pose.
   */
  method Load(m: SkinMesh, lines: seq<MeshLine>) returns (r: SkinMesh)
    requires UnsignedFaces(lines)
    ensures r.bindVertices == m.bindVertices + Vertices(lines)
    ensures r.faces == m.faces + Faces(lines)
    ensures r.currentVertices == r.bindVertices
    ensures r.attachments == m.attachments
  {
    var bind, faces := m.bindVertices, m.faces;
    var q := 0;
    while q < |lines|
      invariant 0 <= q <= |lines|
      invariant bind == m.bindVertices + Vertices(lines[..q])
      invariant faces == m.faces + Faces(lines[..q])
    {
      assert lines[..q + 1][..q] == lines[..q];
      match lines[q] {
        case VertexLine(v) =>
          bind := bind + [v];
        case FaceLine(i, j, k) =>
          faces := faces + [Face3(DecUnsigned(i), DecUnsigned(j), DecUnsigned(k))];
        case OtherLine =>
      }
      q := q + 1;
    }
    assert lines[..q] == lines;
    r := SkinMesh(bind, bind, faces, m.attachments);
  }

  /** Reading lines in two parts reads the parts in order. */
  lemma {:induction false} VerticesAppend(a: seq<MeshLine>, b: seq<MeshLine>)
    ensures Vertices(a + b) == Vertices(a) + Vertices(b)
    decreases |b|
  {
    if b == [] {
      assert a + b == a;
    } else {
      var b0 := b[..|b| - 1];
      VerticesAppend(a, b0);
      assert (a + b)[..|a + b| - 1] == a + b0;
    }
  }

  /** The `v` line at q becomes bind vertex number (count of earlier `v` lines). */
  lemma VertexInOrder(lines: seq<MeshLine>, q: nat)
    requires q < |lines| && lines[q].VertexLine?
    ensures |Vertices(lines[..q])| < |Vertices(lines)|
    ensures Vertices(lines)[|Vertices(lines[..q])|] == lines[q].v
  {
    VerticesAppend(lines[..q], lines[q..]);
    VerticesAppend([lines[q]], lines[q + 1..]);
    assert lines[q..] == [lines[q]] + lines[q + 1..];
    assert lines[..q] + lines[q..] == lines;
    assert Vertices([lines[q]]) == [lines[q].v] by {
      assert [lines[q]][..0] == [];
    }
  }

  /** Reading lines in two parts reads the parts' faces in order. */
  lemma {:induction false} FacesAppend(a: seq<MeshLine>, b: seq<MeshLine>)
    requires UnsignedFaces(a) && UnsignedFaces(b)
    ensures UnsignedFaces(a + b)
    ensures Faces(a + b) == Faces(a) + Faces(b)
    decreases |b|
  {
    if b == [] {
      assert a + b == a;
    } else {
      var b0 := b[..|b| - 1];
      FacesAppend(a, b0);
      assert (a + b)[..|a + b| - 1] == a + b0;
    }
  }

  /** The `f` line at q becomes face number (count of earlier `f` lines). */
  lemma FaceAt(lines: seq<MeshLine>, q: nat)
    requires UnsignedFaces(lines) && q < |lines| && lines[q].FaceLine?
    ensures |Faces(lines[..q])| < |Faces(lines)|
    ensures Faces(lines)[|Faces(lines[..q])|] == FaceOf(lines[q])
  {
    FacesAppend(lines[..q], lines[q..]);
    FacesAppend([lines[q]], lines[q + 1..]);
    assert lines[q..] == [lines[q]] + lines[q + 1..];
    assert lines[..q] + lines[q..] == lines;
    assert Faces([lines[q]]) == [FaceOf(lines[q])] by {
      assert [lines[q]][..0] == [];
    }
  }

  /** The `f` line at q becomes face number (count of earlier `f` lines), each index one lower. */
  lemma FaceInOrder(lines: seq<MeshLine>, q: nat)
    requires UnsignedFaces(lines) && q < |lines| && lines[q].FaceLine?
    requires lines[q].i > 0 && lines[q].j > 0 && lines[q].k > 0
    ensures |Faces(lines[..q])| < |Faces(lines)|
    ensures Faces(lines)[|Faces(lines[..q])|] == Face3(lines[q].i - 1, lines[q].j - 1, lines[q].k - 1)
  {
    FaceAt(lines, q);
  }

  /**
   * In any file, an index 0 in the `f` line at q wraps to the largest
   * `unsigned` value instead of -1 in the face it becomes.
   */
  lemma FaceZeroWraps(lines: seq<MeshLine>, q: nat)
    requires UnsignedFaces(lines) && q < |lines| && lines[q].FaceLine?
    ensures |Faces(lines[..q])| < |Faces(lines)|
    ensures var f := Faces(lines)[|Faces(lines[..q])|];
      && (lines[q].i == 0 ==> f.a == TWO_32 - 1)
      && (lines[q].j == 0 ==> f.b == TWO_32 - 1)
      && (lines[q].k == 0 ==> f.c == TWO_32 - 1)
  {
    FaceAt(lines, q);
  }

  /**
   * The weight row a line of the attachments file yields: entry 0 (the root
   * joint) is 0, entries 1 .. numJoints - 1 are the numbers of the line in
   * order, and an entry the line runs out before keeps its zero value.
   */
  function Row(numbers: seq<real>, numJoints: nat): (row: seq<real>)
    ensures |row| == numJoints
  {
    seq(numJoints, k requires 0 <= k < numJoints => if k == 0 || k - 1 >= |numbers| then 0.0 else numbers[k - 1])
  }

  /** `loadAttachments(file, numJoints)`: one row of `numJoints` weights per line, appended in order. */
  method LoadAttachments(m: SkinMesh, lines: seq<seq<real>>, numJoints: nat) returns (r: Result<SkinMesh, SkinError>)
    ensures r.Err? <==> numJoints == 0 && lines != []
    ensures r.Ok? ==> r.value == m.(attachments := r.value.attachments)
    ensures r.Ok? ==> |r.value.attachments| == |m.attachments| + |lines|
    ensures r.Ok? ==> r.value.attachments[..|m.attachments|] == m.attachments
    ensures r.Ok? ==> forall q :: 0 <= q < |lines| ==>
      var row := r.value.attachments[|m.attachments| + q];
      |row| == numJoints && row[0] == 0.0 &&
      forall k :: 1 <= k < numJoints ==> row[k] == if k - 1 < |lines[q]| then lines[q][k - 1] else 0.0
  {
    var rows := m.attachments;
    var q := 0;
    while q < |lines|
      invariant 0 <= q <= |lines|
      invariant q > 0 ==> numJoints > 0
      invariant |rows| == |m.attachments| + q && rows[..|m.attachments|] == m.attachments
      invariant forall p :: 0 <= p < q ==> rows[|m.attachments| + p] == Row(lines[p], numJoints)
    {
      if numJoints == 0 {
        return Err(NoJoints);
      }
      var row := seq(numJoints, k => 0.0);
      var k := 1;
      while k < numJoints
        invariant 1 <= k <= numJoints && |row| == numJoints
        invariant forall i :: 0 <= i < numJoints ==> row[i] == if 1 <= i < k then Row(lines[q], numJoints)[i] else 0.0
      {
        if k - 1 < |lines[q]| {
          row := row[k := lines[q][k - 1]];
        }
        k := k + 1;
      }
      assert row == Row(lines[q], numJoints);
      rows := rows + [row];
      q := q + 1;
    }
    return Ok(m.(attachments := rows));
  }
}
