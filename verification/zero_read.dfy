/**
 * `Mesh::read` of the simplifier: the OBJ lines are gathered into vertex
 * positions, normals and per-face id lists, then every face becomes a
 * triangle of the first, fourth and seventh id (the vertex fields of three
 * `v/vt/vn` triples), each vertex collects the faces that use it, and each
 * vertex takes the normal named by the last face that lists it.
 *
 * Indexing a `std::vector` out of range, and `std::stoi` throwing, are both
 * errors here.
 */
module ZeroRead {
  import opened Wrappers
  import opened Homogeneous
  import opened Text
  import opened ZeroMesh
  import opened ObjLines

  datatype LoadError =
    | BadNumber         // `stoi` throws on a segment of a face word
    | ShortFace         // a face record has fewer than nine ids
    | CornerOutOfRange  // `fids[a]` or `vnid[a]` outside the vertex array
    | NormalOutOfRange  // `vecn[vnid[i]]` outside the normal array

  /** A line with an unknown command changes nothing that is read. */
  lemma IgnoresOther(a: seq<ObjLine>, b: seq<ObjLine>)
    ensures Load(a + [OtherLine] + b) == Load(a + b)
  {
    OtherLineAddsNothing(a, b);
  }

  /** The ids of one face line: the ids of all its words, concatenated in order. */
  function WordIds(words: seq<string>): (r: Option<seq<nat>>)
    ensures r.Some? ==> forall k :: 0 <= k < |r.value| ==> r.value[k] < TWO_32
  {
    if words == [] then Some([])
    else match (StoiAll(Split(words[0], "/")), WordIds(words[1..]))
      case (Some(ids), Some(rest)) => Some(ids + rest)
      case _ => None
  }

  /** The indices one face record contributes after `num--` and the `int` conversion. */
  datatype FaceRecord = FaceRecord(a: int, c: int, d: int, f: int, g: int, i: int)

  /** The corner index an id becomes: `num--` on the unsigned id, then conversion to `int`. */
  function IdToIndex(u: nat): int
    requires u < TWO_32
  {
    ToSigned(DecUnsigned(u))
  }

  /** One-based ids that fit in an `int` become their zero-based index; id 0 becomes -1. */
  lemma IdToIndexDecrements(u: nat)
    requires u < TWO_32
    ensures 1 <= u <= INT_MAX + 1 ==> IdToIndex(u) == u - 1
    ensures u == 0 ==> IdToIndex(u) == -1
    ensures u > INT_MAX + 1 ==> IdToIndex(u) < 0
  {
  }

  /** Every id of a face record is decremented, with unsigned wrap-around. */
  function Decrement(ids: seq<nat>): (r: seq<nat>)
    requires forall k :: 0 <= k < |ids| ==> ids[k] < TWO_32
    ensures |r| == |ids|
    ensures forall k :: 0 <= k < |ids| ==> r[k] < TWO_32 && (ids[k] > 0 ==> r[k] == ids[k] - 1)
  {
    seq(|ids|, k requires 0 <= k < |ids| => DecUnsigned(ids[k]))
  }

  /** Lines 57-60: decrement every id, then read positions 0, 2, 3, 5, 6 and 8. */
  function ParseFace(words: seq<string>): (r: Result<FaceRecord, LoadError>)
    ensures r.Ok? <==> WordIds(words).Some? && |WordIds(words).value| >= 9
    ensures r.Ok? ==>
              var ids := WordIds(words).value;
              && r.value.a == IdToIndex(ids[0]) && r.value.c == IdToIndex(ids[2])
              && r.value.d == IdToIndex(ids[3]) && r.value.f == IdToIndex(ids[5])
              && r.value.g == IdToIndex(ids[6]) && r.value.i == IdToIndex(ids[8])
  {
    match WordIds(words)
    case None => Err(BadNumber)
    case Some(ids) =>
      if |ids| < 9 then Err(ShortFace)
      else
        var n := Decrement(ids);
        Ok(FaceRecord(ToSigned(n[0]), ToSigned(n[2]), ToSigned(n[3]), ToSigned(n[5]), ToSigned(n[6]), ToSigned(n[8])))
  }

  /** Every face line parses, or the first failure is reported. */
  function ParseFaces(faces: seq<seq<string>>): (r: Result<seq<FaceRecord>, LoadError>)
    ensures r.Ok? <==> forall j :: 0 <= j < |faces| ==> ParseFace(faces[j]).Ok?
    ensures r.Ok? ==> |r.value| == |faces|
    ensures r.Ok? ==> forall j :: 0 <= j < |faces| ==> r.value[j] == ParseFace(faces[j]).value
  {
    if faces == [] then Ok([])
    else match ParseFace(faces[0])
      case Err(e) => Err(e)
      case Ok(rec) =>
        match ParseFaces(faces[1..])
        case Err(e) => Err(e)
        case Ok(rest) => Ok([rec] + rest)
  }

  /** `x` is one of the three corners a face record lists. */
  predicate Lists(r: FaceRecord, x: int)
  {
    x == r.a || x == r.d || x == r.g
  }

  predicate CornersInRange(recs: seq<FaceRecord>, n: int)
  {
    forall j :: 0 <= j < |recs| ==> 0 <= recs[j].a < n && 0 <= recs[j].d < n && 0 <= recs[j].g < n
  }

  /** `fids` after the loop of lines 55-68: face j inserted at each of its corners. */
  function Fids(recs: seq<FaceRecord>, n: nat): (fids: seq<set<int>>)
    requires CornersInRange(recs, n)
    ensures |fids| == n
    decreases |recs|
  {
    if recs == [] then seq(n, x => {})
    else
      var j := |recs| - 1;
      var r := recs[j];
      var p := Fids(recs[..j], n);
      var p1 := p[r.a := p[r.a] + {j}];
      var p2 := p1[r.d := p1[r.d] + {j}];
      p2[r.g := p2[r.g] + {j}]
  }

  /** `j` is in `fids[x]` exactly when face j lists x as a corner. */
  lemma {:induction false} FidsExact(recs: seq<FaceRecord>, n: nat, x: int, j: int)
    requires CornersInRange(recs, n) && 0 <= x < n
    ensures j in Fids(recs, n)[x] <==> 0 <= j < |recs| && Lists(recs[j], x)
    decreases |recs|
  {
    if recs != [] {
      var k := |recs| - 1;
      assert CornersInRange(recs[..k], n);
      FidsExact(recs[..k], n, x, j);
      FidsStep(recs, n, x);
      if 0 <= j < k {
        assert recs[..k][j] == recs[j];
      }
    }
  }

  /** The last face record adds its index exactly at the corners it lists. */
  lemma FidsStep(recs: seq<FaceRecord>, n: nat, x: int)
    requires CornersInRange(recs, n) && recs != [] && 0 <= x < n
    ensures CornersInRange(recs[..|recs| - 1], n)
    ensures Fids(recs, n)[x] == Fids(recs[..|recs| - 1], n)[x] + if Lists(recs[|recs| - 1], x) then {|recs| - 1} else {}
  {
    assert CornersInRange(recs[..|recs| - 1], n);
  }

  /** `vnid` after the loop: each face writes its three normal indices in the order a, d, g. */
  function Vnid(recs: seq<FaceRecord>, n: nat): (vnid: seq<int>)
    requires CornersInRange(recs, n)
    ensures |vnid| == n
    decreases |recs|
  {
    if recs == [] then seq(n, x => 0)
    else
      var r := recs[|recs| - 1];
      Vnid(recs[..|recs| - 1], n)[r.a := r.c][r.d := r.f][r.g := r.i]
  }

  /** The normal index a face record gives `x`; of several writes in one face the last (g, then d, then a) stands. */
  function NormalFor(r: FaceRecord, x: int): int
  {
    if x == r.g then r.i else if x == r.d then r.f else r.c
  }

  /**
   * Last writer wins: `vnid[x]` is the normal index from the last face that
   * lists x, and 0 (the vector's initial value) when no face lists x.
   */
  lemma {:induction false} VnidLastWriter(recs: seq<FaceRecord>, n: nat, x: int)
    requires CornersInRange(recs, n) && 0 <= x < n
    ensures (forall j :: 0 <= j < |recs| ==> !Lists(recs[j], x)) ==> Vnid(recs, n)[x] == 0
    ensures forall j :: 0 <= j < |recs| && Lists(recs[j], x) && (forall k :: j < k < |recs| ==> !Lists(recs[k], x))
              ==> Vnid(recs, n)[x] == NormalFor(recs[j], x)
    decreases |recs|
  {
    if recs != [] {
      var last := |recs| - 1;
      var init := recs[..last];
      var r := recs[last];
      assert CornersInRange(init, n);
      VnidLastWriter(init, n, x);
      var v := Vnid(init, n);
      assert Vnid(recs, n)[x] == if x == r.g then r.i else if x == r.d then r.f else if x == r.a then r.c else v[x];
      forall j | 0 <= j < |recs| && Lists(recs[j], x) && (forall k :: j < k < |recs| ==> !Lists(recs[k], x))
        ensures Vnid(recs, n)[x] == NormalFor(recs[j], x)
      {
        if j < last {
          assert init[j] == recs[j];
          assert !Lists(r, x);
          forall k | j < k < |init|
            ensures !Lists(init[k], x)
          {
            assert init[k] == recs[k];
          }
        }
      }
      if forall j :: 0 <= j < |recs| ==> !Lists(recs[j], x) {
        assert !Lists(r, x);
        forall j | 0 <= j < |init|
          ensures !Lists(init[j], x)
        {
          assert init[j] == recs[j];
        }
      }
    }
  }

  /** Every corner is a vertex and every normal index `vecn` is read at exists. */
  predicate Assemblable(vecv: seq<Vec4>, vecn: seq<Vec4>, recs: seq<FaceRecord>)
  {
    CornersInRange(recs, |vecv|) && forall x :: 0 <= x < |vecv| ==> 0 <= Vnid(recs, |vecv|)[x] < |vecn|
  }

  /** The vertex and face arrays built at lines 61 and 69-70. */
  function Assemble(vecv: seq<Vec4>, vecn: seq<Vec4>, recs: seq<FaceRecord>): (m: Mesh)
    requires Assemblable(vecv, vecn, recs)
  {
    var fids := Fids(recs, |vecv|);
    var vnid := Vnid(recs, |vecv|);
    Mesh(seq(|vecv|, x requires 0 <= x < |vecv| => Vertex(x, vecv[x], vecn[vnid[x]], fids[x])),
         seq(|recs|, j requires 0 <= j < |recs| => Face(j, [recs[j].a, recs[j].d, recs[j].g])),
         {}, {})
  }

  /** `Mesh::read`, with every out-of-range access and `stoi` failure an error. */
  function Load(lines: seq<ObjLine>): (r: Result<Mesh, LoadError>)
    ensures (exists j :: 0 <= j < |FaceWords(lines)| && WordIds(FaceWords(lines)[j]).None?) ==> r == Err(BadNumber)
    ensures r.Ok? ==> |r.value.vertices| == |VertexPositions(lines)| && |r.value.faces| == |FaceWords(lines)|
    ensures r.Ok? ==> forall x :: 0 <= x < |r.value.vertices| ==> r.value.vertices[x].pos == VertexPositions(lines)[x]
    ensures r.Ok? ==> r.value.invalidFaces == {} && r.value.invalidVertices == {}
  {
    Build(VertexPositions(lines), Normals(lines), FaceWords(lines))
  }

  /** The assembly after reading, from the gathered positions, normals and face words. */
  function Build(vecv: seq<Vec4>, vecn: seq<Vec4>, faces: seq<seq<string>>): (r: Result<Mesh, LoadError>)
    ensures (exists j :: 0 <= j < |faces| && WordIds(faces[j]).None?) ==> r == Err(BadNumber)
    ensures r.Ok? ==> |r.value.vertices| == |vecv| && |r.value.faces| == |faces|
    ensures r.Ok? ==> forall x :: 0 <= x < |r.value.vertices| ==> r.value.vertices[x].pos == vecv[x]
    ensures r.Ok? ==> r.value.invalidFaces == {} && r.value.invalidVertices == {}
  {
    if exists j :: 0 <= j < |faces| && WordIds(faces[j]).None? then Err(BadNumber)
    else match ParseFaces(faces)
    case Err(e) => Err(e)
    case Ok(recs) =>
      if !CornersInRange(recs, |vecv|) then Err(CornerOutOfRange)
      else if !(forall x :: 0 <= x < |vecv| ==> 0 <= Vnid(recs, |vecv|)[x] < |vecn|) then Err(NormalOutOfRange)
      else Ok(Assemble(vecv, vecn, recs))
  }

  /**
   * `Mesh::read` as written: each `f` line is cut by the `while (ss.good())`
   * loop, so text ending in white space (a trailing blank, or the `\r` of a
   * CRLF file) hands `split` an empty word, and `stoi("")` throws.
   */
  function LoadAsWritten(lines: seq<ObjLine>): (r: Result<Mesh, LoadError>)
    ensures (exists j :: 0 <= j < |LoopFaceWords(lines)| && WordIds(LoopFaceWords(lines)[j]).None?) ==> r == Err(BadNumber)
    ensures r.Ok? ==> |r.value.vertices| == |VertexPositions(lines)| && |r.value.faces| == |LoopFaceWords(lines)|
    ensures r.Ok? ==> forall x :: 0 <= x < |r.value.vertices| ==> r.value.vertices[x].pos == VertexPositions(lines)[x]
  {
    Build(VertexPositions(lines), Normals(lines), LoopFaceWords(lines))
  }

  /** Appending an empty word makes a word list unreadable: `stoi("")` throws. */
  lemma {:induction false} WordIdsEmptyWord(words: seq<string>)
    ensures WordIds(words + [""]).None?
    decreases |words|
  {
    assert Split("", "/") == [""];
    if words != [] {
      assert (words + [""])[1..] == words[1..] + [""];
      WordIdsEmptyWord(words[1..]);
    }
  }

  /**
   * The reader as written fails with `BadNumber` as soon as one `f` line
   * ends in white space, and otherwise reads exactly what `Load` reads.
   */
  lemma LoadAsWrittenTrailing(lines: seq<ObjLine>)
    ensures (exists j :: 0 <= j < |lines| && lines[j].FaceLine? && EndsInSpace(lines[j].text)) ==> LoadAsWritten(lines) == Err(BadNumber)
    ensures (forall j :: 0 <= j < |lines| && lines[j].FaceLine? ==> !EndsInSpace(lines[j].text)) ==> LoadAsWritten(lines) == Load(lines)
  {
    if j :| 0 <= j < |lines| && lines[j].FaceLine? && EndsInSpace(lines[j].text) {
      var faces := LoopFaceWords(lines);
      LoopFaceWordsAt(lines, j);
      var k :| 0 <= k < |faces| && faces[k] == LoopWords(lines[j].text);
      LoopWordsTrailing(lines[j].text);
      WordIdsEmptyWord(Words(lines[j].text));
      assert WordIds(faces[k]).None?;
    } else {
      LoopFaceWordsClean(lines);
    }
  }

  /** The face records of a successful load. */
  function Records(lines: seq<ObjLine>): seq<FaceRecord>
    requires Load(lines).Ok?
  {
    ParseFaces(FaceWords(lines)).value
  }

  /**
   * A load fails exactly when a face word has a segment `stoi` rejects, a
   * face has fewer than nine ids, a face corner lies outside the vertices,
   * or some vertex's normal index lies outside the normals.
   */
  lemma LoadFails(lines: seq<ObjLine>)
    ensures (exists j :: 0 <= j < |FaceWords(lines)| && !ParseFace(FaceWords(lines)[j]).Ok?) ==> Load(lines).Err?
    ensures ParseFaces(FaceWords(lines)).Ok? ==>
              (Load(lines).Ok? <==> Assemblable(VertexPositions(lines), Normals(lines), ParseFaces(FaceWords(lines)).value))
  {
  }

  /** A successful load is the assembly of the gathered lists and the parsed face records. */
  lemma LoadIsAssemble(lines: seq<ObjLine>)
    requires Load(lines).Ok?
    ensures ParseFaces(FaceWords(lines)).Ok?
    ensures Assemblable(VertexPositions(lines), Normals(lines), Records(lines))
    ensures Load(lines).value == Assemble(VertexPositions(lines), Normals(lines), Records(lines))
  {
  }

  /** Vertex i is the i-th `v` line with id i, face j comes from the j-th `f` line with id j, and nothing starts tombstoned. */
  lemma AssembleShape(vecv: seq<Vec4>, vecn: seq<Vec4>, recs: seq<FaceRecord>)
    requires Assemblable(vecv, vecn, recs)
    ensures var m := Assemble(vecv, vecn, recs);
            && |m.vertices| == |vecv| && |m.faces| == |recs|
            && (forall x :: 0 <= x < |vecv| ==> m.vertices[x].id == x && m.vertices[x].pos == vecv[x])
            && (forall j :: 0 <= j < |recs| ==> m.faces[j] == Face(j, [recs[j].a, recs[j].d, recs[j].g]))
            && m.invalidFaces == {} && m.invalidVertices == {}
  {
  }

  /** Vertex i of a loaded mesh is the i-th `v` line, with id i; no element starts tombstoned. */
  lemma LoadVertices(lines: seq<ObjLine>)
    requires Load(lines).Ok?
    ensures var m := Load(lines).value;
            && |m.vertices| == |VertexPositions(lines)|
            && (forall x :: 0 <= x < |m.vertices| ==> m.vertices[x].id == x && m.vertices[x].pos == VertexPositions(lines)[x])
            && m.invalidFaces == {} && m.invalidVertices == {}
  {
    LoadIsAssemble(lines);
    AssembleShape(VertexPositions(lines), Normals(lines), Records(lines));
  }

  /**
   * Face j of a loaded mesh comes from the j-th `f` line, has id j and the
   * corners (ids[0] - 1, ids[3] - 1, ids[6] - 1) of that line's ids.
   */
  lemma LoadFaces(lines: seq<ObjLine>)
    requires Load(lines).Ok?
    ensures var m := Load(lines).value;
            && |m.faces| == |FaceWords(lines)|
            && forall j :: 0 <= j < |m.faces| ==>
                 && WordIds(FaceWords(lines)[j]).Some?
                 && |WordIds(FaceWords(lines)[j]).value| >= 9
                 && var ids := WordIds(FaceWords(lines)[j]).value;
                    && m.faces[j].id == j
                    && m.faces[j].corners == [IdToIndex(ids[0]), IdToIndex(ids[3]), IdToIndex(ids[6])]
  {
    LoadIsAssemble(lines);
    var recs := Records(lines);
    AssembleShape(VertexPositions(lines), Normals(lines), recs);
    forall j | 0 <= j < |recs|
      ensures ParseFace(FaceWords(lines)[j]).Ok? && recs[j] == ParseFace(FaceWords(lines)[j]).value
    {
    }
  }

  /** Face j is in `fids[x]` exactly when x is a corner of face j, and every stored index is in range. */
  lemma AssembleAdjacency(vecv: seq<Vec4>, vecn: seq<Vec4>, recs: seq<FaceRecord>)
    requires Assemblable(vecv, vecn, recs)
    ensures var m := Assemble(vecv, vecn, recs);
            && WellFormed(m) && DenseIds(m)
            && forall x :: 0 <= x < |m.vertices| ==>
                 forall j :: j in m.vertices[x].faceIds <==> 0 <= j < |m.faces| && x in m.faces[j].corners
  {
    var m := Assemble(vecv, vecn, recs);
    var n := |vecv|;
    AssembleShape(vecv, vecn, recs);
    forall x, j | 0 <= x < n
      ensures j in m.vertices[x].faceIds <==> 0 <= j < |m.faces| && x in m.faces[j].corners
    {
      FidsExact(recs, n, x, j);
      assert m.vertices[x].faceIds == Fids(recs, n)[x];
    }
    forall f, c | 0 <= f < |m.faces| && c in m.faces[f].corners
      ensures 0 <= c < n
    {
      assert m.faces[f].corners == [recs[f].a, recs[f].d, recs[f].g];
    }
    forall v, f | 0 <= v < |m.vertices| && f in m.vertices[v].faceIds
      ensures 0 <= f < |m.faces|
    {
      FidsExact(recs, n, v, f);
      assert m.vertices[v].faceIds == Fids(recs, n)[v];
    }
  }

  /**
   * At load, faces and vertices agree: face j is in `faceIds` of x exactly
   * when x is a corner of face j, and every stored index is in range.
   */
  lemma LoadAdjacency(lines: seq<ObjLine>)
    requires Load(lines).Ok?
    ensures var m := Load(lines).value;
            && WellFormed(m) && DenseIds(m)
            && forall x :: 0 <= x < |m.vertices| ==>
                 forall j :: j in m.vertices[x].faceIds <==> 0 <= j < |m.faces| && x in m.faces[j].corners
  {
    LoadIsAssemble(lines);
    AssembleAdjacency(VertexPositions(lines), Normals(lines), Records(lines));
  }

  /** Each vertex's normal is the one its last listing face names, or the first normal if no face lists it. */
  lemma LoadNormals(lines: seq<ObjLine>, x: int)
    requires Load(lines).Ok?
    requires 0 <= x < |Load(lines).value.vertices|
    ensures var m := Load(lines).value;
            var recs := Records(lines);
            var vecn := Normals(lines);
            && ((forall j :: 0 <= j < |recs| ==> !Lists(recs[j], x)) ==> |vecn| > 0 && m.vertices[x].normal == vecn[0])
            && (forall j :: 0 <= j < |recs| && Lists(recs[j], x) && (forall k :: j < k < |recs| ==> !Lists(recs[k], x))
                  ==> 0 <= NormalFor(recs[j], x) < |vecn| && m.vertices[x].normal == vecn[NormalFor(recs[j], x)])
  {
    LoadNormalIndex(lines, x);
    NormalChoice(Records(lines), |VertexPositions(lines)|, x, Normals(lines), Load(lines).value.vertices[x].normal);
  }

  /** The normal at `vnid[x]` is the first one or the one x's last listing face names. */
  lemma NormalChoice(recs: seq<FaceRecord>, n: nat, x: int, vecn: seq<Vec4>, normal: Vec4)
    requires CornersInRange(recs, n) && 0 <= x < n
    requires 0 <= Vnid(recs, n)[x] < |vecn| && normal == vecn[Vnid(recs, n)[x]]
    ensures (forall j :: 0 <= j < |recs| ==> !Lists(recs[j], x)) ==> |vecn| > 0 && normal == vecn[0]
    ensures forall j :: 0 <= j < |recs| && Lists(recs[j], x) && (forall k :: j < k < |recs| ==> !Lists(recs[k], x))
              ==> 0 <= NormalFor(recs[j], x) < |vecn| && normal == vecn[NormalFor(recs[j], x)]
  {
    VnidLastWriter(recs, n, x);
  }

  /** Vertex x of a loaded mesh takes the normal its `vnid` entry names. */
  lemma LoadNormalIndex(lines: seq<ObjLine>, x: int)
    requires Load(lines).Ok?
    requires 0 <= x < |Load(lines).value.vertices|
    ensures CornersInRange(Records(lines), |VertexPositions(lines)|) && x < |VertexPositions(lines)|
    ensures var k := Vnid(Records(lines), |VertexPositions(lines)|)[x];
            0 <= k < |Normals(lines)| && Load(lines).value.vertices[x].normal == Normals(lines)[k]
  {
    LoadIsAssemble(lines);
    AssembleShape(VertexPositions(lines), Normals(lines), Records(lines));
  }

  /** A loaded mesh whose faces are proper triangles meets the simplifier's invariants. */
  lemma LoadConsistent(lines: seq<ObjLine>)
    requires Load(lines).Ok?
    requires forall j :: 0 <= j < |Load(lines).value.faces| ==> Triangle(Load(lines).value.faces[j].corners)
    ensures Consistent(Load(lines).value)
  {
    var m := Load(lines).value;
    LoadAdjacency(lines);
    forall v | LiveVertex(m, v)
      ensures LiveFaceIds(m, v) == IncidentLive(m, v)
    {
    }
  }
}
