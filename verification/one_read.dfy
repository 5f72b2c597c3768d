/**
 * `Mesh::read` of the subdivision program. A face word is cut at '/', empty
 * pieces are dropped, and the first and last remaining numbers name the
 * vertex and the normal. The faces use the first three words of each `f`
 * line; each vertex takes the normal named by the last face listing it;
 * `closure` then builds edges and incidence.
 *
 * Indexing a `std::vector` out of range, dereferencing the first element of
 * an empty vector, and `std::stoi` throwing are errors here, as is the
 * `exit` inside `closure`.
 */
module OneRead {
  import opened Wrappers
  import opened Homogeneous
  import opened Text
  import opened ObjLines
  import opened OneMesh
  import opened OneClosure
  import opened OneGeometry
  import ZeroRead

  datatype ReadError =
    | BadNumber                       // `stoi` throws on a piece of a face word
    | EmptyWord                       // a face word with no digits-bearing piece: `*ids.begin()` on an empty vector
    | FaceTooShort                    // an `f` line with fewer than three words
    | NoSuchVertex                    // `vert2norm[a]` outside the vertex array
    | NormalOutOfRange                // `vecn[vert2norm[i]]` outside the normal array
    | ClosureFailed(e: ClosureError)  // `closure` reads out of range or exits

  /** The pieces of `_split`'s loop that are pushed: all non-empty ones, in order. */
  function NonEmptyPieces(parts: seq<string>): (r: seq<string>)
    ensures forall k :: 0 <= k < |r| ==> |r[k]| > 0
  {
    if parts == [] then []
    else (if |parts[0]| > 0 then [parts[0]] else []) + NonEmptyPieces(parts[1..])
  }

  /** `_split`: the first and last non-empty piece's `(unsigned) stoi`, read back as `int`. */
  function SplitPair(s: string): (r: Result<(int, int), ReadError>)
    ensures r.Ok? ==> INT_MIN <= r.value.0 <= INT_MAX && INT_MIN <= r.value.1 <= INT_MAX
    ensures r == Err(EmptyWord) <==> NonEmptyPieces(Split(s, "/")) == []
  {
    var pieces := NonEmptyPieces(Split(s, "/"));
    match StoiAll(pieces)
    case None => Err(BadNumber)
    case Some(ids) =>
      if ids == [] then Err(EmptyWord)
      else
        assert ids[0] < TWO_32 && ids[|ids| - 1] < TWO_32;
        Ok((ToSigned(ids[0]), ToSigned(ids[|ids| - 1])))
  }

  /** `stoi` reads every numeral of a list back, and `(unsigned)` leaves the values alone. */
  lemma NumeralsReadBack(segs: seq<string>, ns: seq<nat>)
    requires |segs| == |ns|
    requires forall k :: 0 <= k < |ns| ==> ns[k] <= INT_MAX && segs[k] == ShowNat(ns[k])
    ensures StoiAll(segs) == Some(ns)
  {
    forall k | 0 <= k < |ns|
      ensures Stoi(segs[k]) == Some(ns[k])
    {
      StoiShow(ns[k]);
    }
    var r := StoiAll(segs);
    assert r.Some?;
    forall k | 0 <= k < |ns|
      ensures r.value[k] == ns[k]
    {
      UnsignedOfNat(ns[k]);
    }
    assert r.value == ns;
  }

  lemma UnsignedOfNat(n: nat)
    requires n <= INT_MAX
    ensures ToUnsigned(n) == n
  {
  }

  /** `SplitPair` once the pieces and their values are known. */
  lemma SplitPairOf(s: string, pieces: seq<string>, ids: seq<nat>)
    requires NonEmptyPieces(Split(s, "/")) == pieces
    requires StoiAll(pieces) == Some(ids)
    requires ids != [] && ids[0] <= INT_MAX && ids[|ids| - 1] <= INT_MAX
    ensures SplitPair(s) == Ok((ids[0], ids[|ids| - 1]))
  {
  }

  lemma Join3(a: string, b: string, c: string)
    ensures Join([a, b, c], "/") == a + "/" + b + "/" + c
  {
    assert [a, b, c][1..] == [b, c];
    assert [b, c][1..] == [c];
    assert Join([c], "/") == c;
    assert Join([b, c], "/") == b + "/" + c;
    assert Join([a, b, c], "/") == a + "/" + (b + "/" + c);
  }

  /** Numerals joined with '/' split back into the same numerals. */
  lemma SplitNumerals(parts: seq<string>, ns: seq<nat>)
    requires |parts| == |ns| >= 1
    requires forall k :: 0 <= k < |ns| ==> parts[k] == ShowNat(ns[k])
    ensures Split(Join(parts, "/"), "/") == parts
  {
    forall k | 0 <= k < |parts|
      ensures !Contains(parts[k], ['/'])
    {
      NumeralFree(ns[k], '/');
    }
    SplitJoinChar(parts, '/');
  }

  /** The pieces kept of three: the empty middle one is dropped. */
  lemma PiecesOfThree(a: string, b: string, c: string)
    requires |a| > 0 && |c| > 0
    ensures NonEmptyPieces([a, b, c]) == if b == [] then [a, c] else [a, b, c]
  {
    assert [a, b, c][1..] == [b, c];
    assert [b, c][1..] == [c];
    assert [c][1..] == [];
    assert NonEmptyPieces([c]) == [c];
    assert NonEmptyPieces([b, c]) == (if b == [] then [] else [b]) + [c];
  }

  /** A `v/vt/vn` word names the vertex and the normal. */
  lemma SplitPairTriple(a: nat, b: nat, c: nat)
    requires a <= INT_MAX && b <= INT_MAX && c <= INT_MAX
    ensures SplitPair(ShowNat(a) + "/" + ShowNat(b) + "/" + ShowNat(c)) == Ok((a, c))
  {
    var w := ShowNat(a) + "/" + ShowNat(b) + "/" + ShowNat(c);
    var parts := [ShowNat(a), ShowNat(b), ShowNat(c)];
    ThreeNumeralsSplit(a, b, c);
    ThreeNumeralsRead(a, b, c);
    SplitPairOf(w, parts, [a, b, c]);
  }

  /** Three numerals joined by '/' split into those numerals. */
  lemma ThreeNumeralsSplit(a: nat, b: nat, c: nat)
    ensures Split(ShowNat(a) + "/" + ShowNat(b) + "/" + ShowNat(c), "/") == [ShowNat(a), ShowNat(b), ShowNat(c)]
  {
    var parts, ns := [ShowNat(a), ShowNat(b), ShowNat(c)], [a, b, c];
    Join3(ShowNat(a), ShowNat(b), ShowNat(c));
    forall k | 0 <= k < 3
      ensures parts[k] == ShowNat(ns[k])
    {
      assert k == 0 || k == 1 || k == 2;
    }
    SplitNumerals(parts, ns);
  }

  /** Three numerals are all kept as pieces and read back as their values. */
  lemma ThreeNumeralsRead(a: nat, b: nat, c: nat)
    requires a <= INT_MAX && b <= INT_MAX && c <= INT_MAX
    ensures NonEmptyPieces([ShowNat(a), ShowNat(b), ShowNat(c)]) == [ShowNat(a), ShowNat(b), ShowNat(c)]
    ensures StoiAll([ShowNat(a), ShowNat(b), ShowNat(c)]) == Some([a, b, c])
  {
    PiecesOfThree(ShowNat(a), ShowNat(b), ShowNat(c));
    NumeralsReadBack([ShowNat(a), ShowNat(b), ShowNat(c)], [a, b, c]);
  }

  /** A `v//vn` word, without texture, names the vertex and the normal. */
  lemma SplitPairNoTexture(a: nat, c: nat)
    requires a <= INT_MAX && c <= INT_MAX
    ensures SplitPair(ShowNat(a) + "//" + ShowNat(c)) == Ok((a, c))
  {
    var pieces := [ShowNat(a), ShowNat(c)];
    NoTexturePieces(a, c);
    NumeralsReadBack(pieces, [a, c]);
    SplitPairOf(ShowNat(a) + "//" + ShowNat(c), pieces, [a, c]);
  }

  /** The non-empty pieces of a `v//vn` word are its two numerals. */
  lemma NoTexturePieces(a: nat, c: nat)
    ensures NonEmptyPieces(Split(ShowNat(a) + "//" + ShowNat(c), "/")) == [ShowNat(a), ShowNat(c)]
  {
    var w := ShowNat(a) + "//" + ShowNat(c);
    var parts := [ShowNat(a), "", ShowNat(c)];
    NumeralFree(a, '/');
    NumeralFree(c, '/');
    assert !Contains("", "/");
    Join3(ShowNat(a), "", ShowNat(c));
    assert Join(parts, "/") == w;
    SplitJoinChar(parts, '/');
    assert Split(w, "/") == parts;
    PiecesOfThree(ShowNat(a), "", ShowNat(c));
  }

  /** A bare `v` word names its vertex as both vertex and normal. */
  lemma SplitPairSingle(a: nat)
    requires a <= INT_MAX
    ensures SplitPair(ShowNat(a)) == Ok((a, a))
  {
    NumeralFree(a, '/');
    SplitJoinChar([ShowNat(a)], '/');
    NumeralsReadBack([ShowNat(a)], [a]);
    SplitPairOf(ShowNat(a), [ShowNat(a)], [a]);
  }

  /** The empty word, which `while (ss.good())` hands on after trailing white space, has no piece. */
  lemma SplitPairEmpty()
    ensures SplitPair("") == Err(EmptyWord)
  {
    assert Split("", "/") == [""];
  }

  /** One face word after `_split` and the two decrements. */
  function ParseWord(w: string): Result<(int, int), ReadError>
  {
    match SplitPair(w)
    case Err(e) => Err(e)
    case Ok(p) => Ok((p.0 - 1, p.1 - 1))
  }

  /** The values of a list of results, in order, or the first error. */
  function Collect<T>(rs: seq<Result<T, ReadError>>): Result<seq<T>, ReadError>
  {
    if rs == [] then Ok([])
    else match rs[0]
      case Err(e) => Err(e)
      case Ok(v) =>
        match Collect(rs[1..])
        case Err(e) => Err(e)
        case Ok(rest) => Ok([v] + rest)
  }

  /** Collecting succeeds exactly when every result is a value, and then keeps them in order. */
  lemma {:induction false} CollectOk<T>(rs: seq<Result<T, ReadError>>)
    ensures Collect(rs).Ok? <==> forall k :: 0 <= k < |rs| ==> rs[k].Ok?
    ensures Collect(rs).Ok? ==>
      |Collect(rs).value| == |rs| && forall k :: 0 <= k < |rs| ==> Collect(rs).value[k] == rs[k].value
  {
    if rs != [] {
      CollectOk(rs[1..]);
      assert forall k :: 1 <= k < |rs| ==> rs[1..][k - 1] == rs[k];
    }
  }

  /** After results that are all values, the first error is the one reported. */
  lemma {:induction false} CollectThenFail<T>(rs: seq<Result<T, ReadError>>, r: Result<T, ReadError>)
    requires forall k :: 0 <= k < |rs| ==> rs[k].Ok?
    requires r.Err?
    ensures Collect(rs + [r]) == Err(r.error)
  {
    if rs == [] {
      assert [] + [r] == [r];
      assert [r][1..] == [];
    } else {
      assert (rs + [r])[0] == rs[0];
      assert (rs + [r])[1..] == rs[1..] + [r];
      CollectThenFail(rs[1..], r);
    }
  }

  /** Every word of one `f` line, in order, or the first failure. */
  function ParseWords(words: seq<string>): Result<seq<(int, int)>, ReadError>
  {
    Collect(seq(|words|, k requires 0 <= k < |words| => ParseWord(words[k])))
  }

  /** A line parses exactly when each of its words does, and then pair k comes from word k. */
  lemma ParseWordsOk(words: seq<string>)
    ensures ParseWords(words).Ok? <==> forall k :: 0 <= k < |words| ==> ParseWord(words[k]).Ok?
    ensures ParseWords(words).Ok? ==>
      |ParseWords(words).value| == |words|
      && forall k :: 0 <= k < |words| ==> ParseWords(words).value[k] == ParseWord(words[k]).value
  {
    var rs := seq(|words|, k requires 0 <= k < |words| => ParseWord(words[k]));
    assert forall k :: 0 <= k < |words| ==> rs[k] == ParseWord(words[k]);
    CollectOk(rs);
  }

  /** The reading loop over all `f` lines: `vecf`. */
  function ParseFaces(faces: seq<seq<string>>): Result<seq<seq<(int, int)>>, ReadError>
  {
    Collect(seq(|faces|, j requires 0 <= j < |faces| => ParseWords(faces[j])))
  }

  /** All lines parse exactly when each does, and then entry j comes from line j. */
  lemma ParseFacesOk(faces: seq<seq<string>>)
    ensures ParseFaces(faces).Ok? <==> forall j :: 0 <= j < |faces| ==> ParseWords(faces[j]).Ok?
    ensures ParseFaces(faces).Ok? ==>
      |ParseFaces(faces).value| == |faces|
      && forall j :: 0 <= j < |faces| ==> ParseFaces(faces).value[j] == ParseWords(faces[j]).value
  {
    var rs := seq(|faces|, j requires 0 <= j < |faces| => ParseWords(faces[j]));
    assert forall j :: 0 <= j < |faces| ==> rs[j] == ParseWords(faces[j]);
    CollectOk(rs);
  }

  /** The record of one face: the first three pairs; the source reads `ids[0..2]` whatever the count. */
  function Record(ps: seq<(int, int)>): ZeroRead.FaceRecord
    requires |ps| >= 3
  {
    ZeroRead.FaceRecord(ps[0].0, ps[0].1, ps[1].0, ps[1].1, ps[2].0, ps[2].1)
  }

  /**
   * The face loop of lines 203-210, face by face: a face with fewer than
   * three pairs reads past its vector, and `vert2norm[a]` needs `a` to be a
   * vertex.
   */
  function Records(vecf: seq<seq<(int, int)>>, n: int): (r: Result<seq<ZeroRead.FaceRecord>, ReadError>)
    ensures r.Ok? <==> forall j :: 0 <= j < |vecf| ==> |vecf[j]| >= 3 && InRange(Record(vecf[j]), n)
    ensures r.Ok? ==> |r.value| == |vecf| && forall j :: 0 <= j < |vecf| ==> r.value[j] == Record(vecf[j])
    ensures r.Ok? ==> ZeroRead.CornersInRange(r.value, n)
    decreases |vecf|
  {
    if vecf == [] then Ok([])
    else if |vecf[0]| < 3 then Err(FaceTooShort)
    else if !InRange(Record(vecf[0]), n) then Err(NoSuchVertex)
    else match Records(vecf[1..], n)
      case Err(e) => Err(e)
      case Ok(rest) => Ok([Record(vecf[0])] + rest)
  }

  predicate InRange(rec: ZeroRead.FaceRecord, n: int)
  {
    0 <= rec.a < n && 0 <= rec.d < n && 0 <= rec.g < n
  }

  /** The mesh handed to `closure`: faces with corners only, vertices with geometry only, no edges. */
  function Initial(rule: NormalRule, vecv: seq<Vec4>, vecn: seq<Vec4>, recs: seq<ZeroRead.FaceRecord>): (m: Mesh)
    requires ZeroRead.CornersInRange(recs, |vecv|)
    requires forall x :: 0 <= x < |vecv| ==> 0 <= ZeroRead.Vnid(recs, |vecv|)[x] < |vecn|
    ensures Tri3(m.faces)
  {
    var vnid := ZeroRead.Vnid(recs, |vecv|);
    Mesh(seq(|vecv|, x requires 0 <= x < |vecv| => Vertex(x, Construct(rule, vecv[x], vecn[vnid[x]]), {}, {})),
         seq(|recs|, j requires 0 <= j < |recs| => Face(j, [recs[j].a, recs[j].d, recs[j].g], [])),
         [])
  }

  /**
   * `Mesh::read` with the corrected word loop; `rule` says which normal each
   * vertex geometry stores (`Normalise` is the intended constructor).
   */
  function Read(rule: NormalRule, lines: seq<ObjLine>): (r: Result<Mesh, ReadError>)
    ensures r.Ok? ==> Consistent(r.value)
    ensures r.Ok? ==> |r.value.vertices| == |VertexPositions(lines)| && |r.value.faces| == |FaceWords(lines)|
    ensures r.Ok? ==> forall x :: 0 <= x < |r.value.vertices| ==> r.value.vertices[x].geom.v == VertexPositions(lines)[x]
  {
    Build(rule, VertexPositions(lines), Normals(lines), FaceWords(lines))
  }

  /** The assembly after reading, from the gathered positions, normals and face words. */
  function Build(rule: NormalRule, vecv: seq<Vec4>, vecn: seq<Vec4>, faces: seq<seq<string>>): (r: Result<Mesh, ReadError>)
    ensures r.Ok? ==> Consistent(r.value)
    ensures r.Ok? ==> |r.value.vertices| == |vecv| && |r.value.faces| == |faces|
    ensures r.Ok? ==> forall x :: 0 <= x < |vecv| ==> r.value.vertices[x].geom.v == vecv[x]
  {
    ParseFacesOk(faces);
    match ParseFaces(faces)
    case Err(e) => Err(e)
    case Ok(vecf) =>
      match Records(vecf, |vecv|)
      case Err(e) => Err(e)
      case Ok(recs) =>
        if !(forall x :: 0 <= x < |vecv| ==> 0 <= ZeroRead.Vnid(recs, |vecv|)[x] < |vecn|) then Err(NormalOutOfRange)
        else
          match Closure(Initial(rule, vecv, vecn, recs))
          case Err(e) => Err(ClosureFailed(e))
          case Ok(r) => Ok(r)
  }

  /** The face records of the gathered face words, when every word parses and every face is complete. */
  predicate Recorded(vecv: seq<Vec4>, faces: seq<seq<string>>, recs: seq<ZeroRead.FaceRecord>)
  {
    && ParseFaces(faces).Ok?
    && Records(ParseFaces(faces).value, |vecv|) == Ok(recs)
  }

  /** `m` is what `closure` makes of the initial mesh of the gathered lists. */
  predicate ReadFrom(rule: NormalRule, vecv: seq<Vec4>, vecn: seq<Vec4>, faces: seq<seq<string>>,
                     recs: seq<ZeroRead.FaceRecord>, m: Mesh)
  {
    && Recorded(vecv, faces, recs)
    && ZeroRead.Assemblable(vecv, vecn, recs)
    && Closure(Initial(rule, vecv, vecn, recs)) == Ok(m)
  }

  /**
   * A successful read is `closure` applied to the initial mesh of the
   * gathered lists; every face word parsed and every face had three words.
   */
  lemma ReadIsClosure(rule: NormalRule, lines: seq<ObjLine>)
    requires Read(rule, lines).Ok?
    ensures exists recs :: ReadFrom(rule, VertexPositions(lines), Normals(lines), FaceWords(lines), recs, Read(rule, lines).value)
  {
    var vecf := ParseFaces(FaceWords(lines)).value;
    var recs := Records(vecf, |VertexPositions(lines)|).value;
    assert ReadFrom(rule, VertexPositions(lines), Normals(lines), FaceWords(lines), recs, Read(rule, lines).value);
  }

  /** What `closure` keeps of the initial mesh: face j's id and corners, vertex x's id and geometry. */
  lemma InitialKept(rule: NormalRule, vecv: seq<Vec4>, vecn: seq<Vec4>, recs: seq<ZeroRead.FaceRecord>, m: Mesh)
    requires ZeroRead.Assemblable(vecv, vecn, recs)
    requires Closure(Initial(rule, vecv, vecn, recs)) == Ok(m)
    ensures |m.faces| == |recs| && |m.vertices| == |vecv|
    ensures forall j :: 0 <= j < |recs| ==> m.faces[j].id == j && m.faces[j].vs == [recs[j].a, recs[j].d, recs[j].g]
    ensures forall x :: 0 <= x < |vecv| ==>
      m.vertices[x].id == x && m.vertices[x].geom == Construct(rule, vecv[x], vecn[ZeroRead.Vnid(recs, |vecv|)[x]])
  {
    var m0 := Initial(rule, vecv, vecn, recs);
    ClosureKeeps(m0, m);
    assert |m0.faces| == |recs| && |m0.vertices| == |vecv|;
    forall j | 0 <= j < |recs|
      ensures m.faces[j].id == j && m.faces[j].vs == [recs[j].a, recs[j].d, recs[j].g]
    {
      assert m0.faces[j] == Face(j, [recs[j].a, recs[j].d, recs[j].g], []);
    }
    forall x | 0 <= x < |vecv|
      ensures m.vertices[x].id == x && m.vertices[x].geom == Construct(rule, vecv[x], vecn[ZeroRead.Vnid(recs, |vecv|)[x]])
    {
      assert m0.vertices[x] == Vertex(x, Construct(rule, vecv[x], vecn[ZeroRead.Vnid(recs, |vecv|)[x]]), {}, {});
    }
  }

  /** `closure` keeps every face's id and corners and every vertex's id and geometry. */
  lemma ClosureKeeps(m0: Mesh, m: Mesh)
    requires Tri3(m0.faces) && Closure(m0) == Ok(m)
    ensures |m.faces| == |m0.faces| && |m.vertices| == |m0.vertices|
    ensures forall j :: 0 <= j < |m0.faces| ==> m.faces[j].id == m0.faces[j].id && m.faces[j].vs == m0.faces[j].vs
    ensures forall x :: 0 <= x < |m0.vertices| ==>
      m.vertices[x].id == m0.vertices[x].id && m.vertices[x].geom == m0.vertices[x].geom
  {
    ClosureStages(m0, m);
    BuiltKeeps(m0, m);
  }

  lemma BuiltKeeps(m0: Mesh, m: Mesh)
    requires Tri3(m0.faces) && Built(m0, m)
    ensures |m.faces| == |m0.faces| && |m.vertices| == |m0.vertices|
    ensures forall j :: 0 <= j < |m0.faces| ==> m.faces[j].id == m0.faces[j].id && m.faces[j].vs == m0.faces[j].vs
    ensures forall x :: 0 <= x < |m0.vertices| ==>
      m.vertices[x].id == m0.vertices[x].id && m.vertices[x].geom == m0.vertices[x].geom
  {
    BuiltArrays(m0, m);
    forall j | 0 <= j < |m0.faces|
      ensures m.faces[j].id == m0.faces[j].id && m.faces[j].vs == m0.faces[j].vs
    {
      BuiltFace(m0, m, j);
    }
    forall x | 0 <= x < |m0.vertices|
      ensures m.vertices[x].id == m0.vertices[x].id && m.vertices[x].geom == m0.vertices[x].geom
    {
      BuiltVertex(m0, m, x);
    }
  }

  /** The facts of a read mesh that do not mention `closure`. */
  lemma ReadFromKept(rule: NormalRule, vecv: seq<Vec4>, vecn: seq<Vec4>, faces: seq<seq<string>>,
                     recs: seq<ZeroRead.FaceRecord>, m: Mesh)
    requires ReadFrom(rule, vecv, vecn, faces, recs, m)
    ensures Recorded(vecv, faces, recs) && ZeroRead.Assemblable(vecv, vecn, recs)
    ensures |m.faces| == |recs| && |m.vertices| == |vecv|
    ensures forall j :: 0 <= j < |recs| ==> m.faces[j].id == j && m.faces[j].vs == [recs[j].a, recs[j].d, recs[j].g]
    ensures forall x :: 0 <= x < |vecv| ==>
      m.vertices[x].id == x && m.vertices[x].geom == Construct(rule, vecv[x], vecn[ZeroRead.Vnid(recs, |vecv|)[x]])
  {
    InitialKept(rule, vecv, vecn, recs, m);
  }

  /** Record j holds the decremented vertex numbers of the first three words of line j. */
  lemma RecordOfLine(vecv: seq<Vec4>, faces: seq<seq<string>>, recs: seq<ZeroRead.FaceRecord>, j: int)
    requires Recorded(vecv, faces, recs) && 0 <= j < |faces|
    ensures |faces| == |recs| && |faces[j]| >= 3
    ensures SplitPair(faces[j][0]).Ok? && SplitPair(faces[j][1]).Ok? && SplitPair(faces[j][2]).Ok?
    ensures recs[j].a == SplitPair(faces[j][0]).value.0 - 1 && recs[j].c == SplitPair(faces[j][0]).value.1 - 1
    ensures recs[j].d == SplitPair(faces[j][1]).value.0 - 1 && recs[j].f == SplitPair(faces[j][1]).value.1 - 1
    ensures recs[j].g == SplitPair(faces[j][2]).value.0 - 1 && recs[j].i == SplitPair(faces[j][2]).value.1 - 1
  {
    ParseFacesOk(faces);
    var vecf := ParseFaces(faces).value;
    assert vecf[j] == ParseWords(faces[j]).value;
    ParseWordsOk(faces[j]);
    assert recs[j] == Record(vecf[j]);
    assert ParseWord(faces[j][0]).Ok? && ParseWord(faces[j][1]).Ok? && ParseWord(faces[j][2]).Ok?;
  }

  /**
   * A read fails when some face word cannot be parsed, or some `f` line has
   * fewer than three words.
   */
  lemma ReadFails(rule: NormalRule, lines: seq<ObjLine>, j: int, k: int)
    requires 0 <= j < |FaceWords(lines)|
    requires (0 <= k < |FaceWords(lines)[j]| && !SplitPair(FaceWords(lines)[j][k]).Ok?) || |FaceWords(lines)[j]| < 3
    ensures Read(rule, lines).Err?
  {
    var faces := FaceWords(lines);
    ParseFacesOk(faces);
    ParseWordsOk(faces[j]);
    if ParseFaces(faces).Ok? {
      assert ParseWords(faces[j]).Ok?;
      assert |ParseFaces(faces).value[j]| == |faces[j]|;
    }
  }

  /**
   * Face j of a read mesh has id j and, as corners, the decremented first
   * numbers of the first three words of the j-th `f` line.
   */
  lemma ReadFaces(rule: NormalRule, lines: seq<ObjLine>, j: int)
    requires Read(rule, lines).Ok?
    requires 0 <= j < |FaceWords(lines)|
    ensures |Read(rule, lines).value.faces| == |FaceWords(lines)|
    ensures FaceFromWords(Read(rule, lines).value.faces[j], j, FaceWords(lines)[j])
  {
    ReadIsClosure(rule, lines);
    var m := Read(rule, lines).value;
    var vecv, vecn, faces := VertexPositions(lines), Normals(lines), FaceWords(lines);
    var recs :| ReadFrom(rule, vecv, vecn, faces, recs, m);
    ReadFromKept(rule, vecv, vecn, faces, recs, m);
    RecordOfLine(vecv, faces, recs, j);
  }

  /** Face `f` is face j with the vertex numbers of its first three words, less one, as corners. */
  predicate FaceFromWords(f: Face, j: int, ws: seq<string>)
  {
    && |ws| >= 3
    && SplitPair(ws[0]).Ok? && SplitPair(ws[1]).Ok? && SplitPair(ws[2]).Ok?
    && f.id == j
    && f.vs == [SplitPair(ws[0]).value.0 - 1, SplitPair(ws[1]).value.0 - 1, SplitPair(ws[2]).value.0 - 1]
  }

  /**
   * `g` is vertex x's geometry built from the normal of the last face record
   * listing x, or from the first normal when no record lists x.
   */
  ghost predicate LastNormal(rule: NormalRule, vecv: seq<Vec4>, vecn: seq<Vec4>, recs: seq<ZeroRead.FaceRecord>, x: int, g: Geometry)
    requires 0 <= x < |vecv|
  {
    && ((forall j :: 0 <= j < |recs| ==> !ZeroRead.Lists(recs[j], x)) ==>
          |vecn| > 0 && g == Construct(rule, vecv[x], vecn[0]))
    && (forall j ::
          (0 <= j < |recs| && ZeroRead.Lists(recs[j], x) && (forall k :: j < k < |recs| ==> !ZeroRead.Lists(recs[k], x))) ==>
          0 <= ZeroRead.NormalFor(recs[j], x) < |vecn|
          && g == Construct(rule, vecv[x], vecn[ZeroRead.NormalFor(recs[j], x)]))
  }

  /** The geometry built from `vnid` is the one `LastNormal` describes. */
  lemma LastNormalOf(rule: NormalRule, vecv: seq<Vec4>, vecn: seq<Vec4>, recs: seq<ZeroRead.FaceRecord>, x: int)
    requires ZeroRead.Assemblable(vecv, vecn, recs) && 0 <= x < |vecv|
    ensures LastNormal(rule, vecv, vecn, recs, x, Construct(rule, vecv[x], vecn[ZeroRead.Vnid(recs, |vecv|)[x]]))
  {
    ZeroRead.VnidLastWriter(recs, |vecv|, x);
  }

  /**
   * Vertex x of a read mesh has id x, the position of the x-th `v` line, and
   * the geometry `rule` builds from the normal of the last face listing it
   * (the first normal if no face lists it).
   */
  lemma ReadVertices(rule: NormalRule, lines: seq<ObjLine>, x: int)
    requires Read(rule, lines).Ok?
    requires 0 <= x < |VertexPositions(lines)|
    ensures |Read(rule, lines).value.vertices| == |VertexPositions(lines)|
    ensures Read(rule, lines).value.vertices[x].id == x
    ensures Read(rule, lines).value.vertices[x].geom.v == VertexPositions(lines)[x]
    ensures exists recs ::
      && Recorded(VertexPositions(lines), FaceWords(lines), recs)
      && 0 <= x < |VertexPositions(lines)|
      && LastNormal(rule, VertexPositions(lines), Normals(lines), recs, x, Read(rule, lines).value.vertices[x].geom)
  {
    ReadIsClosure(rule, lines);
    var m := Read(rule, lines).value;
    var vecv, vecn, faces := VertexPositions(lines), Normals(lines), FaceWords(lines);
    var recs :| ReadFrom(rule, vecv, vecn, faces, recs, m);
    ReadFromKept(rule, vecv, vecn, faces, recs, m);
    LastNormalOf(rule, vecv, vecn, recs, x);
  }

  /** A successful read is consistent. */
  lemma ReadConsistent(rule: NormalRule, lines: seq<ObjLine>)
    requires Read(rule, lines).Ok?
    ensures Consistent(Read(rule, lines).value)
  {
    ReadIsClosure(rule, lines);
  }

  /**
   * The word loop as written on an `f` line: the words of
   * `while (ss.good()) { ss >> a; ... }`.
   */
  function ParseLineAsWritten(text: string): Result<seq<(int, int)>, ReadError>
  {
    ParseWords(LoopWords(text))
  }

  /** The corrected word loop, `while (ss >> a)`, which the reader above uses. */
  function ParseLine(text: string): Result<seq<(int, int)>, ReadError>
  {
    ParseWords(Words(text))
  }

  /**
   * A line whose words all parse is read by the corrected loop, but the loop
   * as written fails on it as soon as it ends in white space: the extra empty
   * word has no number in it.
   */
  lemma TrailingSpaceFails(text: string)
    requires forall k :: 0 <= k < |Words(text)| ==> ParseWord(Words(text)[k]).Ok?
    ensures ParseLine(text).Ok?
    ensures |text| > 0 && IsSpace(text[|text| - 1]) ==> ParseLineAsWritten(text) == Err(EmptyWord)
  {
    var ws := Words(text);
    ParseWordsOk(ws);
    LoopWordsTrailing(text);
    SplitPairEmpty();
    if |text| > 0 && IsSpace(text[|text| - 1]) {
      ParseWordsThenFail(ws, "");
    }
  }

  /**
   * `Mesh::read` as written: every `f` line is cut by the `while (ss.good())`
   * loop, which yields one empty word more after text ending in white space,
   * and every vertex keeps the listed normal unnormalised, as the
   * `VertexGeometry` constructor is written.
   */
  function ReadAsWritten(lines: seq<ObjLine>): (r: Result<Mesh, ReadError>)
    ensures r.Ok? ==> Consistent(r.value)
    ensures r.Ok? ==> |r.value.vertices| == |VertexPositions(lines)| && |r.value.faces| == |LoopFaceWords(lines)|
    ensures r.Ok? ==> forall x :: 0 <= x < |r.value.vertices| ==> r.value.vertices[x].geom.v == VertexPositions(lines)[x]
  {
    Build(KeepNormal, VertexPositions(lines), Normals(lines), LoopFaceWords(lines))
  }

  /**
   * The reader as written fails as soon as one `f` line ends in white space
   * (a trailing blank, or the `\r` of a CRLF file), and otherwise reads
   * exactly what `Read` reads.
   */
  lemma ReadAsWrittenTrailing(lines: seq<ObjLine>)
    ensures (exists j :: 0 <= j < |lines| && lines[j].FaceLine? && EndsInSpace(lines[j].text)) ==> ReadAsWritten(lines).Err?
    ensures (forall j :: 0 <= j < |lines| && lines[j].FaceLine? ==> !EndsInSpace(lines[j].text)) ==> ReadAsWritten(lines) == Read(KeepNormal, lines)
  {
    if j :| 0 <= j < |lines| && lines[j].FaceLine? && EndsInSpace(lines[j].text) {
      var faces := LoopFaceWords(lines);
      LoopFaceWordsAt(lines, j);
      var k :| 0 <= k < |faces| && faces[k] == LoopWords(lines[j].text);
      LoopWordsTrailing(lines[j].text);
      var ws := Words(lines[j].text) + [""];
      assert faces[k] == ws;
      SplitPairEmpty();
      assert ParseWord(ws[|ws| - 1]).Err?;
      ParseWordsOk(ws);
      ParseFacesOk(faces);
    } else {
      LoopFaceWordsClean(lines);
    }
  }

  /** Both rules' meshes after `closure`: the same faces and positions, the normalised normal against the kept one. */
  predicate RulesAgree(unit: Vec3 -> Vec3, a: Mesh, b: Mesh)
  {
    && |a.vertices| == |b.vertices| && |a.faces| == |b.faces|
    && (forall j :: 0 <= j < |a.faces| ==> a.faces[j].vs == b.faces[j].vs)
    && (forall x :: 0 <= x < |a.vertices| ==>
          b.vertices[x].geom.v == a.vertices[x].geom.v && Project(b.vertices[x].geom.vn) == unit(Project(a.vertices[x].geom.vn)))
  }

  /** `closure` of the two rules' initial meshes: see `RulesAgree`. */
  lemma ClosedRulesAgree(unit: Vec3 -> Vec3, vecv: seq<Vec4>, vecn: seq<Vec4>, recs: seq<ZeroRead.FaceRecord>, a: Mesh, b: Mesh)
    requires ZeroRead.Assemblable(vecv, vecn, recs)
    requires Closure(Initial(KeepNormal, vecv, vecn, recs)) == Ok(a)
    requires Closure(Initial(Normalise(unit), vecv, vecn, recs)) == Ok(b)
    ensures RulesAgree(unit, a, b)
  {
    InitialKept(KeepNormal, vecv, vecn, recs, a);
    InitialKept(Normalise(unit), vecv, vecn, recs, b);
    var vnid := ZeroRead.Vnid(recs, |vecv|);
    forall j | 0 <= j < |a.faces|
      ensures a.faces[j].vs == b.faces[j].vs
    {
      assert a.faces[j].vs == [recs[j].a, recs[j].d, recs[j].g];
    }
    forall x | 0 <= x < |a.vertices|
      ensures b.vertices[x].geom.v == a.vertices[x].geom.v && Project(b.vertices[x].geom.vn) == unit(Project(a.vertices[x].geom.vn))
    {
      var vn := vecn[vnid[x]];
      assert a.vertices[x].geom == Construct(KeepNormal, vecv[x], vn);
      assert b.vertices[x].geom == Construct(Normalise(unit), vecv[x], vn);
    }
  }

  /** The normal rule never decides whether a read succeeds. */
  lemma BuildRulesOk(unit: Vec3 -> Vec3, vecv: seq<Vec4>, vecn: seq<Vec4>, faces: seq<seq<string>>)
    ensures Build(KeepNormal, vecv, vecn, faces).Ok? <==> Build(Normalise(unit), vecv, vecn, faces).Ok?
  {
    if ParseFaces(faces).Ok? && Records(ParseFaces(faces).value, |vecv|).Ok? {
      var recs := Records(ParseFaces(faces).value, |vecv|).value;
      if forall x :: 0 <= x < |vecv| ==> 0 <= ZeroRead.Vnid(recs, |vecv|)[x] < |vecn| {
        ClosureIgnoresGeometry(Initial(KeepNormal, vecv, vecn, recs), Initial(Normalise(unit), vecv, vecn, recs));
      }
    }
  }

  /**
   * The normal rule decides only the stored normals: both rules succeed on
   * the same lists, give the same faces and positions, and the normalising
   * rule stores the normalised form of the normal the other keeps.
   */
  lemma BuildRulesAgree(unit: Vec3 -> Vec3, vecv: seq<Vec4>, vecn: seq<Vec4>, faces: seq<seq<string>>)
    ensures Build(KeepNormal, vecv, vecn, faces).Ok? <==> Build(Normalise(unit), vecv, vecn, faces).Ok?
    ensures Build(KeepNormal, vecv, vecn, faces).Ok? ==>
      RulesAgree(unit, Build(KeepNormal, vecv, vecn, faces).value, Build(Normalise(unit), vecv, vecn, faces).value)
  {
    BuildRulesOk(unit, vecv, vecn, faces);
    if Build(KeepNormal, vecv, vecn, faces).Ok? {
      var recs := Records(ParseFaces(faces).value, |vecv|).value;
      ClosedRulesAgree(unit, vecv, vecn, recs, Build(KeepNormal, vecv, vecn, faces).value, Build(Normalise(unit), vecv, vecn, faces).value);
    }
  }

  /** `Read` under the two normal rules: see `BuildRulesAgree`. */
  lemma ReadRulesAgree(unit: Vec3 -> Vec3, lines: seq<ObjLine>)
    ensures Read(KeepNormal, lines).Ok? <==> Read(Normalise(unit), lines).Ok?
    ensures Read(KeepNormal, lines).Ok? ==> RulesAgree(unit, Read(KeepNormal, lines).value, Read(Normalise(unit), lines).value)
  {
    BuildRulesAgree(unit, VertexPositions(lines), Normals(lines), FaceWords(lines));
  }

  /**
   * Against the reader with both corrections: the reader as written fails
   * once an `f` line ends in white space; otherwise both succeed on the same
   * files with the same faces and positions, and the corrected reader's
   * normal is the normalised form of the one the reader as written keeps.
   */
  lemma ReadAsWrittenAgainstRead(unit: Vec3 -> Vec3, lines: seq<ObjLine>)
    ensures (exists j :: 0 <= j < |lines| && lines[j].FaceLine? && EndsInSpace(lines[j].text)) ==> ReadAsWritten(lines).Err?
    ensures (forall j :: 0 <= j < |lines| && lines[j].FaceLine? ==> !EndsInSpace(lines[j].text)) ==>
      (ReadAsWritten(lines).Ok? <==> Read(Normalise(unit), lines).Ok?)
    ensures (forall j :: 0 <= j < |lines| && lines[j].FaceLine? ==> !EndsInSpace(lines[j].text)) && ReadAsWritten(lines).Ok? ==>
      RulesAgree(unit, ReadAsWritten(lines).value, Read(Normalise(unit), lines).value)
  {
    ReadAsWrittenTrailing(lines);
    ReadRulesAgree(unit, lines);
  }

  /**
   * Vertex x read as written has the position of the x-th `v` line and, as
   * normal, one of the listed normals exactly as listed: the one the last
   * face listing x names, or the first when no face lists it.
   */
  lemma ReadAsWrittenVertices(lines: seq<ObjLine>, x: int)
    requires ReadAsWritten(lines).Ok?
    requires 0 <= x < |VertexPositions(lines)|
    ensures |ReadAsWritten(lines).value.vertices| == |VertexPositions(lines)|
    ensures ReadAsWritten(lines).value.vertices[x].id == x
    ensures ReadAsWritten(lines).value.vertices[x].geom.v == VertexPositions(lines)[x]
    ensures exists k :: 0 <= k < |Normals(lines)| && ReadAsWritten(lines).value.vertices[x].geom.vn == Normals(lines)[k]
    ensures exists recs ::
      && Recorded(VertexPositions(lines), FaceWords(lines), recs)
      && LastNormal(KeepNormal, VertexPositions(lines), Normals(lines), recs, x, ReadAsWritten(lines).value.vertices[x].geom)
  {
    ReadAsWrittenTrailing(lines);
    if exists j :: 0 <= j < |lines| && lines[j].FaceLine? && EndsInSpace(lines[j].text) {
      assert false;
    }
    ReadVertices(KeepNormal, lines, x);
    ReadIsClosure(KeepNormal, lines);
    var vecv, vecn, faces := VertexPositions(lines), Normals(lines), FaceWords(lines);
    var recs :| ReadFrom(KeepNormal, vecv, vecn, faces, recs, Read(KeepNormal, lines).value);
    ReadFromKept(KeepNormal, vecv, vecn, faces, recs, Read(KeepNormal, lines).value);
    var k := ZeroRead.Vnid(recs, |vecv|)[x];
    assert ReadAsWritten(lines).value.vertices[x].geom.vn == vecn[k];
  }

  /** A failing word after words that parse: the line fails with that word's error. */
  lemma ParseWordsThenFail(ws: seq<string>, w: string)
    requires forall k :: 0 <= k < |ws| ==> ParseWord(ws[k]).Ok?
    requires ParseWord(w).Err?
    ensures ParseWords(ws + [w]) == Err(ParseWord(w).error)
  {
    var rs := seq(|ws|, k requires 0 <= k < |ws| => ParseWord(ws[k]));
    assert seq(|ws + [w]|, k requires 0 <= k < |ws + [w]| => ParseWord((ws + [w])[k])) == rs + [ParseWord(w)];
    CollectThenFail(rs, ParseWord(w));
  }

  /** Three words that each parse: the line parses to their three pairs. */
  lemma ThreeWordsParse(a: string, b: string, c: string)
    requires ParseWord(a).Ok? && ParseWord(b).Ok? && ParseWord(c).Ok?
    ensures forall k :: 0 <= k < 3 ==> ParseWord([a, b, c][k]).Ok?
    ensures ParseWords([a, b, c]) == Ok([ParseWord(a).value, ParseWord(b).value, ParseWord(c).value])
  {
    var ws := [a, b, c];
    ParseWordsOk(ws);
    forall k | 0 <= k < 3
      ensures ParseWord(ws[k]).Ok?
    {
      assert k == 0 || k == 1 || k == 2;
    }
    var v := ParseWords(ws).value;
    assert v[0] == ParseWord(a).value && v[1] == ParseWord(b).value && v[2] == ParseWord(c).value;
    assert v == [ParseWord(a).value, ParseWord(b).value, ParseWord(c).value];
  }
}
