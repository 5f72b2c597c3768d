/**
 * Swept surfaces (`one/surf.cpp`): the flatness check on the profile curve,
 * the `IdPair` grid index, the triangulation `makeFaces`, the vertex layout
 * of `makeSurfRev` and `makeGenCyl`, and the face lines of `outputObjFile`.
 *
 * Rotations and normalisation are function parameters (`turn`, `unit`);
 * the frame product `B * v` of `makeGenCyl` is written out.
 */
module OneSurf {
  import opened Wrappers
  import opened Homogeneous
  import opened Text
  import opened RowMajor
  import opened OneCurve
  import opened ObjLines
  import opened OneRead

  /** The surface arrays: positions, normals, triangles of vertex indices. */
  datatype Surface = Surface(vv: seq<Vec4>, vn: seq<Vec4>, vf: seq<Tri>)

  datatype Tri = Tri(a: int, b: int, c: int)

  /** The profile is not in the xy plane: the program exits. */
  datatype SurfError = NotFlat

  // ---------------------------------------------------------------- checkFlat

  predicate FlatPoint(p: CurvePoint)
  {
    p.V.z == 0.0 && p.T.z == 0.0 && p.N.z == 0.0
  }

  predicate Flat(profile: seq<CurvePoint>)
  {
    forall i :: 0 <= i < |profile| ==> FlatPoint(profile[i])
  }

  /** `checkFlat`: false at the first point with a non-zero z in V, T or N. */
  method CheckFlat(profile: seq<CurvePoint>) returns (flat: bool)
    ensures flat <==> Flat(profile)
  {
    var i := 0;
    while i < |profile|
      invariant 0 <= i <= |profile|
      invariant forall k :: 0 <= k < i ==> FlatPoint(profile[k])
    {
      if profile[i].V.z != 0.0 || profile[i].T.z != 0.0 || profile[i].N.z != 0.0 {
        return false;
      }
      i := i + 1;
    }
    return true;
  }

  /** A circle from `evalCircle` passes `checkFlat`, so it can be swept into a surface. */
  lemma CircleIsFlat(trig: nat -> (real, real), radius: real, steps: nat)
    requires steps < TWO_32 && EvalCircle(trig, radius, steps).Ok?
    ensures Flat(EvalCircle(trig, radius, steps).value)
  {
    var c := EvalCircle(trig, radius, steps).value;
    forall i | 0 <= i < |c|
      ensures FlatPoint(c[i])
    {
      var (x, y) := trig(i);
      assert c[i] == CurvePoint(Scale3(radius, Vec3(x, y, 0.0)), Vec3(-y, x, 0.0), Vec3(-x, -y, 0.0), Up);
    }
  }

  // ---------------------------------------------------------------- IdPair

  /** C++ `%` on `int`: truncates toward zero, so the remainder takes the dividend's sign. */
  function CRem(a: int, b: int): (r: int)
    requires b > 0
    ensures a >= 0 ==> 0 <= r < b
    ensures a < 0 ==> -b < r <= 0
  {
    if a >= 0 then a % b else -((-a) % b)
  }

  /** `IdPair(i, j, n, m)`: the grid position reduced to row `i % n`, column `j % m`. */
  datatype IdPair = IdPair(i: int, j: int, n: int, m: int)

  function MakeIdPair(i: int, j: int, n: int, m: int): (p: IdPair)
    requires n > 0 && m > 0
    ensures p.n == n && p.m == m
    ensures i >= 0 && j >= 0 ==> 0 <= p.i < n && 0 <= p.j < m
  {
    IdPair(CRem(i, n), CRem(j, m), n, m)
  }

  /** `to1D`: row-major index. */
  function To1D(p: IdPair): int
  {
    p.i * p.m + p.j
  }

  /** The vertex index of grid position (i, j). */
  function Index(i: int, j: int, n: int, m: int): int
    requires n > 0 && m > 0
  {
    To1D(MakeIdPair(i, j, n, m))
  }

  /** For non-negative positions the index lies in [0, n m) and names row `i % n`, column `j % m`. */
  lemma IndexRange(i: int, j: int, n: int, m: int)
    requires n > 0 && m > 0 && i >= 0 && j >= 0
    ensures 0 <= Index(i, j, n, m) < n * m
    ensures Index(i, j, n, m) / m == i % n && Index(i, j, n, m) % m == j % m
  {
    var p := MakeIdPair(i, j, n, m);
    CellBelow(p.i, p.j, n, m);
    RowCol(p.i, p.j, m);
  }

  /** Inside the grid the index is plain `i * m + j`: no reduction happens. */
  lemma IndexInside(i: int, j: int, n: int, m: int)
    requires 0 <= i < n && 0 <= j < m
    ensures Index(i, j, n, m) == i * m + j
  {
    RowCol(0, i, n);
    RowCol(0, j, m);
    assert CRem(i, n) == i && CRem(j, m) == j;
  }

  lemma FactorsPositive(n: int, m: int)
    requires n >= 0 && m >= 0 && n * m > 0
    ensures n > 0 && m > 0
  {
  }

  /** Every index of the grid is the index of its own row and column. */
  lemma IndexOnto(k: int, n: int, m: int)
    requires n > 0 && m > 0 && 0 <= k < n * m
    ensures 0 <= k / m < n && Index(k / m, k % m, n, m) == k
  {
    var i, j := k / m, k % m;
    assert k == i * m + j;
    assert i >= 0;
    assert i < n by {
      MulSign(i - n, m);
      assert i * m == (i - n) * m + n * m;
    }
    IndexInside(i, j, n, m);
  }

  // ---------------------------------------------------------------- makeFaces

  /** The two triangles of cell (i, j): (i,j),(i+1,j),(i,j+1) and (i,j+1),(i+1,j),(i+1,j+1). */
  function CellFace(i: int, j: int, n: int, m: int, half: int): Tri
    requires n > 0 && m > 0
  {
    if half == 0 then Tri(Index(i, j, n, m), Index(i + 1, j, n, m), Index(i, j + 1, n, m))
    else Tri(Index(i, j + 1, n, m), Index(i + 1, j, n, m), Index(i + 1, j + 1, n, m))
  }

  /** The first k cells in row-major order, two triangles each. */
  function Cells(k: nat, n: int, m: int): (fs: seq<Tri>)
    requires n > 0 && m > 0
    ensures |fs| == 2 * k
  {
    seq(2 * k, q requires 0 <= q < 2 * k => CellFace((q / 2) / m, (q / 2) % m, n, m, q % 2))
  }

  /** The number of rows of cells: every row when closed, else all but the last. */
  function Rows(n: int, closed: bool): nat
  {
    if n <= 0 then 0 else if closed then n else n - 1
  }

  /** The triangles `makeFaces` appends. */
  function Grid(n: int, m: int, closed: bool): (fs: seq<Tri>)
  {
    if n <= 0 || m <= 0 then [] else Cells(Rows(n, closed) * m, n, m)
  }

  lemma CellsStep(k: nat, n: int, m: int)
    requires n > 0 && m > 0
    ensures Cells(k + 1, n, m) == Cells(k, n, m) + [CellFace(k / m, k % m, n, m, 0), CellFace(k / m, k % m, n, m, 1)]
  {
    var a := Cells(k + 1, n, m);
    var b := Cells(k, n, m) + [CellFace(k / m, k % m, n, m, 0), CellFace(k / m, k % m, n, m, 1)];
    forall q | 0 <= q < 2 * k + 2
      ensures a[q] == b[q]
    {
      if q >= 2 * k {
        assert q / 2 == k;
      }
    }
  }

  lemma CellsAppend(base: nat, i: int, j: int, n: int, m: int)
    requires n > 0 && m > 0 && 0 <= j < m && base == i * m
    ensures Cells(base + j + 1, n, m) == Cells(base + j, n, m) + [CellFace(i, j, n, m, 0), CellFace(i, j, n, m, 1)]
  {
    RowCol(i, j, m);
    CellsStep(base + j, n, m);
  }

  /** One pass of the inner loop of `makeFaces`: the cells of row i, if the row is kept. */
  method RowFaces(n: int, m: int, i: int, closed: bool, vf: seq<Tri>, r0: seq<Tri>) returns (r: seq<Tri>)
    requires 0 <= i < n && m > 0
    requires r0 == vf + Cells(i * m, n, m)
    ensures closed || i + 1 < n ==> r == vf + Cells((i + 1) * m, n, m)
    ensures !(closed || i + 1 < n) ==> r == r0
  {
    ghost var base: nat := i * m;
    r := r0;
    var j := 0;
    while j < m
      invariant 0 <= j <= m
      invariant closed || i + 1 < n ==> r == vf + Cells(base + j, n, m)
      invariant !(closed || i + 1 < n) ==> r == r0
    {
      if closed || i + 1 < n {
        CellsAppend(base, i, j, n, m);
        r := r + [CellFace(i, j, n, m, 0), CellFace(i, j, n, m, 1)];
      }
      j := j + 1;
    }
    assert base + m == (i + 1) * m;
  }

  /** `makeFaces(n, m, surface, closed)`: appends the grid's triangles to `vf`. */
  method MakeFaces(n: int, m: int, vf: seq<Tri>, closed: bool) returns (r: seq<Tri>)
    ensures r == vf + Grid(n, m, closed)
  {
    r := vf;
    if n <= 0 || m <= 0 {
      return;
    }
    var i := 0;
    while i < n
      invariant 0 <= i <= n
      invariant i <= Rows(n, closed) ==> r == vf + Cells(i * m, n, m)
      invariant i > Rows(n, closed) ==> r == vf + Cells(Rows(n, closed) * m, n, m)
    {
      r := RowFaces(n, m, i, closed, vf, r);
      i := i + 1;
    }
  }

  /**
   * The grid has two triangles per cell over `Rows` rows of m cells: 2 m (n - 1)
   * for an open profile, 2 n m when closed.
   */
  lemma GridCount(n: int, m: int, closed: bool)
    requires n > 0 && m > 0
    ensures !closed ==> |Grid(n, m, closed)| == 2 * m * (n - 1)
    ensures closed ==> |Grid(n, m, closed)| == 2 * m * n
  {
  }

  /** Cell (i, j) of the grid holds its two triangles at 2 (i m + j) and the next slot. */
  lemma GridCell(n: int, m: int, closed: bool, i: int, j: int)
    requires n > 0 && m > 0 && 0 <= i < Rows(n, closed) && 0 <= j < m
    ensures 2 * (i * m + j) + 1 < |Grid(n, m, closed)|
    ensures Grid(n, m, closed)[2 * (i * m + j)] == Tri(Index(i, j, n, m), Index(i + 1, j, n, m), Index(i, j + 1, n, m))
    ensures Grid(n, m, closed)[2 * (i * m + j) + 1] == Tri(Index(i, j + 1, n, m), Index(i + 1, j, n, m), Index(i + 1, j + 1, n, m))
  {
    CellBelow(i, j, Rows(n, closed), m);
    RowCol(i, j, m);
    var k := i * m + j;
    assert (2 * k) / 2 == k && (2 * k + 1) / 2 == k;
  }

  /** Every corner of every grid triangle is a vertex of the n x m layout. */
  lemma GridInRange(n: int, m: int, closed: bool)
    ensures forall q :: 0 <= q < |Grid(n, m, closed)| ==>
      var t := Grid(n, m, closed)[q];
      0 <= t.a < n * m && 0 <= t.b < n * m && 0 <= t.c < n * m
  {
    if n > 0 && m > 0 {
      var fs := Grid(n, m, closed);
      forall q | 0 <= q < |fs|
        ensures 0 <= fs[q].a < n * m && 0 <= fs[q].b < n * m && 0 <= fs[q].c < n * m
      {
        var k := q / 2;
        assert k >= 0;
        MulSign(k / m, m);
        IndexRange(k / m, k % m, n, m);
        IndexRange(k / m + 1, k % m, n, m);
        IndexRange(k / m, k % m + 1, n, m);
        IndexRange(k / m + 1, k % m + 1, n, m);
      }
    }
  }

  // ---------------------------------------------------------------- vertex layout

  /** Column j of the layout holds the n points of sweep step j; point (i, j) goes to `i * m + j`. */
  ghost predicate Columns(cols: seq<seq<Vec3>>, n: int, m: int)
  {
    n >= 0 && m >= 0 && |cols| == m && forall j :: 0 <= j < m ==> |cols[j]| == n
  }

  function LayoutAt(cols: seq<seq<Vec3>>, n: int, m: int, k: int): Vec4
    requires Columns(cols, n, m) && 0 <= k < n * m
  {
    FactorsPositive(n, m);
    IndexOnto(k, n, m);
    Expand(cols[k % m][k / m])
  }

  /** The vertex array: `for i < n, for j < m: push(expand(S[j][i]))`. */
  function Layout(cols: seq<seq<Vec3>>, n: int, m: int): (vs: seq<Vec4>)
    requires Columns(cols, n, m)
    ensures |vs| == n * m
  {
    assert n * m >= 0 by {
      assert n >= 0 && m >= 0;
    }
    seq(n * m, k requires 0 <= k < n * m => LayoutAt(cols, n, m, k))
  }

  /** Grid position (i, j) of the layout holds point i of column j. */
  lemma LayoutIndex(cols: seq<seq<Vec3>>, n: int, m: int, i: int, j: int)
    requires Columns(cols, n, m) && 0 <= i < n && 0 <= j < m
    ensures 0 <= Index(i, j, n, m) < n * m
    ensures Layout(cols, n, m)[Index(i, j, n, m)] == Expand(cols[j][i])
  {
    IndexInside(i, j, n, m);
    CellBelow(i, j, n, m);
    RowCol(i, j, m);
    assert Layout(cols, n, m)[i * m + j] == LayoutAt(cols, n, m, i * m + j);
  }

  // ---------------------------------------------------------------- makeSurfRev / makeGenCyl

  /** The profile with every normal negated: `p.N.negate()`. */
  function Negated(profile: seq<CurvePoint>): (r: seq<CurvePoint>)
    ensures |r| == |profile|
  {
    seq(|profile|, i requires 0 <= i < |profile| =>
      profile[i].(N := Vec3(-profile[i].N.x, -profile[i].N.y, -profile[i].N.z)))
  }

  /** One rotation step about y applied to every point, the normal renormalised. */
  function Turned(turn: Vec3 -> Vec3, unit: Vec3 -> Vec3, c: seq<CurvePoint>): (r: seq<CurvePoint>)
    ensures |r| == |c|
  {
    seq(|c|, i requires 0 <= i < |c| =>
      CurvePoint(turn(c[i].V), turn(c[i].T), unit(turn(c[i].N)), turn(c[i].B)))
  }

  /** `S[k]`: the negated profile after k rotation steps. */
  function Sweep(turn: Vec3 -> Vec3, unit: Vec3 -> Vec3, profile: seq<CurvePoint>, k: nat): (r: seq<CurvePoint>)
    ensures |r| == |profile|
  {
    if k == 0 then Negated(profile) else Turned(turn, unit, Sweep(turn, unit, profile, k - 1))
  }

  function Positions3(c: seq<CurvePoint>): (ps: seq<Vec3>)
    ensures |ps| == |c|
  {
    seq(|c|, i requires 0 <= i < |c| => c[i].V)
  }

  function Normals3(c: seq<CurvePoint>): (ns: seq<Vec3>)
    ensures |ns| == |c|
  {
    seq(|c|, i requires 0 <= i < |c| => c[i].N)
  }

  /**
   * `makeSurfRev(profile, steps)`: `m = steps` converted to `int`, m copies
   * of the profile rotated step by step, laid out row by profile point, and
   * the open grid (rows do not wrap, columns do).
   */
  function SurfRev(turn: Vec3 -> Vec3, unit: Vec3 -> Vec3, profile: seq<CurvePoint>, steps: nat): (r: Result<Surface, SurfError>)
    requires steps < TWO_32
    ensures r.Ok? <==> Flat(profile)
    ensures r.Ok? ==> Indexed(r.value)
  {
    if !Flat(profile) then Err(NotFlat)
    else
      var n, m := |profile|, if ToSigned(steps) < 0 then 0 else ToSigned(steps);
      GridInRange(n, m, false);
      var cols := seq(m, j requires 0 <= j < m => Sweep(turn, unit, profile, j));
      Ok(Surface(Layout(seq(m, j requires 0 <= j < m => Positions3(cols[j])), n, m),
                 Layout(seq(m, j requires 0 <= j < m => Normals3(cols[j])), n, m),
                 Grid(n, m, false)))
  }

  /** `B * v` for the frame `B(N, B, T)` with those vectors as columns. */
  function InFrame(sp: CurvePoint, v: Vec3): Vec3
  {
    Vec3(sp.N.x * v.x + sp.B.x * v.y + sp.T.x * v.z,
         sp.N.y * v.x + sp.B.y * v.y + sp.T.y * v.z,
         sp.N.z * v.x + sp.B.z * v.y + sp.T.z * v.z)
  }

  /**
   * `makeGenCyl(profile, sweep)`: the negated profile placed in the frame
   * of each sweep point, positions offset by the sweep point, normals
   * renormalised; the same layout and open grid.
   */
  function GenCyl(unit: Vec3 -> Vec3, profile: seq<CurvePoint>, sweep: seq<CurvePoint>): (r: Result<Surface, SurfError>)
    ensures r.Ok? <==> Flat(profile)
    ensures r.Ok? ==> Indexed(r.value) && |r.value.vv| == |profile| * |sweep|
  {
    if !Flat(profile) then Err(NotFlat)
    else
      var n, m := |profile|, |sweep|;
      GridInRange(n, m, false);
      var pr := Negated(profile);
      var vv := seq(m, j requires 0 <= j < m => seq(n, i requires 0 <= i < n => Add3(sweep[j].V, InFrame(sweep[j], pr[i].V))));
      var vn := seq(m, j requires 0 <= j < m => seq(n, i requires 0 <= i < n => unit(InFrame(sweep[j], pr[i].N))));
      Ok(Surface(Layout(vv, n, m), Layout(vn, n, m), Grid(n, m, false)))
  }

  /** Every triangle corner names a position and a normal. */
  ghost predicate Indexed(s: Surface)
  {
    |s.vv| == |s.vn|
    && forall q :: 0 <= q < |s.vf| ==>
      0 <= s.vf[q].a < |s.vv| && 0 <= s.vf[q].b < |s.vv| && 0 <= s.vf[q].c < |s.vv|
  }

  /** Grid position (i, j) of an n by m surface exists and holds the point v. */
  ghost predicate VertexAt(s: Surface, n: int, m: int, i: int, j: int, v: Vec4)
    requires n > 0 && m > 0
  {
    0 <= Index(i, j, n, m) < |s.vv| && s.vv[Index(i, j, n, m)] == v
  }

  /**
   * A surface of revolution exists exactly for a flat profile; it has
   * n m vertices, 2 m (n - 1) triangles, every corner in range, and the
   * first column is the profile itself.
   */
  lemma SurfRevShape(turn: Vec3 -> Vec3, unit: Vec3 -> Vec3, profile: seq<CurvePoint>, steps: nat)
    requires 0 < steps <= INT_MAX
    ensures SurfRev(turn, unit, profile, steps).Ok? <==> Flat(profile)
    ensures SurfRev(turn, unit, profile, steps).Ok? ==>
      var s := SurfRev(turn, unit, profile, steps).value;
      && Indexed(s) && |s.vv| == |profile| * steps
      && (|profile| > 0 ==> |s.vf| == 2 * steps * (|profile| - 1))
      && forall i :: 0 <= i < |profile| ==> VertexAt(s, |profile|, steps, i, 0, Expand(profile[i].V))
  {
    if Flat(profile) {
      var n, m := |profile|, steps;
      assert ToSigned(steps) == steps;
      var s := SurfRev(turn, unit, profile, steps).value;
      GridInRange(n, m, false);
      if n > 0 {
        GridCount(n, m, false);
      }
      var cols := seq(m, j requires 0 <= j < m => Positions3(Sweep(turn, unit, profile, j)));
      forall i | 0 <= i < n
        ensures VertexAt(s, n, m, i, 0, Expand(profile[i].V))
      {
        LayoutIndex(cols, n, m, i, 0);
      }
    }
  }

  /**
   * A generalised cylinder exists exactly for a flat profile; it has
   * n m vertices and every triangle corner in range; vertex (i, j) is the
   * profile point i carried into the frame of sweep point j.
   */
  lemma GenCylShape(unit: Vec3 -> Vec3, profile: seq<CurvePoint>, sweep: seq<CurvePoint>)
    ensures GenCyl(unit, profile, sweep).Ok? <==> Flat(profile)
    ensures GenCyl(unit, profile, sweep).Ok? ==>
      var s := GenCyl(unit, profile, sweep).value;
      && Indexed(s) && |s.vv| == |profile| * |sweep|
      && forall i, j :: 0 <= i < |profile| && 0 <= j < |sweep| ==>
        VertexAt(s, |profile|, |sweep|, i, j, Expand(Add3(sweep[j].V, InFrame(sweep[j], profile[i].V))))
  {
    if Flat(profile) {
      var n, m := |profile|, |sweep|;
      var s := GenCyl(unit, profile, sweep).value;
      var pr := Negated(profile);
      GridInRange(n, m, false);
      var vv := seq(m, j requires 0 <= j < m => seq(n, i requires 0 <= i < n => Add3(sweep[j].V, InFrame(sweep[j], pr[i].V))));
      forall i, j | 0 <= i < n && 0 <= j < m
        ensures VertexAt(s, n, m, i, j, Expand(Add3(sweep[j].V, InFrame(sweep[j], profile[i].V))))
      {
        LayoutIndex(vv, n, m, i, j);
      }
    }
  }

  // ---------------------------------------------------------------- outputObjFile

  /** `unsigned a = VF[i][j] + 1`. */
  function CornerNumber(k: int): nat
  {
    ToUnsigned(k + 1)
  }

  /** Corner k of a face line: `a << "/" << "1" << "/" << a`. */
  function CornerText(k: int): string
  {
    ShowNat(CornerNumber(k)) + "/" + "1" + "/" + ShowNat(CornerNumber(k))
  }

  /** What follows the command word on a face line: `"f  "` then each corner and a space. */
  function FaceText(t: Tri): string
  {
    "  " + CornerText(t.a) + (" " + CornerText(t.b) + (" " + CornerText(t.c) + " "))
  }

  function VertexLines(vs: seq<Vec4>): (ls: seq<ObjLine>)
    ensures |ls| == |vs|
    decreases |vs|
  {
    if vs == [] then []
    else
      var v := vs[|vs| - 1];
      VertexLines(vs[..|vs| - 1]) + [VertexLine(v.x, v.y, v.z)]
  }

  function NormalLines(vs: seq<Vec4>): (ls: seq<ObjLine>)
    ensures |ls| == |vs|
    decreases |vs|
  {
    if vs == [] then []
    else
      var v := vs[|vs| - 1];
      NormalLines(vs[..|vs| - 1]) + [NormalLine(v.x, v.y, v.z)]
  }

  function TextLines(ts: seq<string>): (ls: seq<ObjLine>)
    ensures |ls| == |ts|
    decreases |ts|
  {
    if ts == [] then [] else TextLines(ts[..|ts| - 1]) + [FaceLine(ts[|ts| - 1])]
  }

  function FaceTexts(fs: seq<Tri>): (ts: seq<string>)
    ensures |ts| == |fs| && forall q :: 0 <= q < |fs| ==> ts[q] == FaceText(fs[q])
  {
    seq(|fs|, q requires 0 <= q < |fs| => FaceText(fs[q]))
  }

  /** `outputObjFile`: the `v` lines, the `vn` lines, one `vt` line, the `f` lines, as the OBJ reader sees them. */
  function ObjOutput(s: Surface): (ls: seq<ObjLine>)
    ensures |ls| == |s.vv| + |s.vn| + 1 + |s.vf|
  {
    VertexLines(s.vv) + NormalLines(s.vn) + [OtherLine] + TextLines(FaceTexts(s.vf))
  }

  ghost predicate AllPoints(vs: seq<Vec4>)
  {
    forall i :: 0 <= i < |vs| ==> vs[i].w == 1.0
  }

  lemma {:induction false} VertexLinesGather(vs: seq<Vec4>)
    requires AllPoints(vs)
    ensures VertexPositions(VertexLines(vs)) == vs
    ensures Normals(VertexLines(vs)) == [] && FaceWords(VertexLines(vs)) == []
    decreases |vs|
  {
    if vs != [] {
      var v := vs[|vs| - 1];
      VertexLinesGather(vs[..|vs| - 1]);
      VertexLineAdds(VertexLines(vs[..|vs| - 1]), v.x, v.y, v.z);
      assert vs == vs[..|vs| - 1] + [Vec4(v.x, v.y, v.z, 1.0)];
    }
  }

  lemma {:induction false} NormalLinesGather(vs: seq<Vec4>)
    requires AllPoints(vs)
    ensures Normals(NormalLines(vs)) == vs
    ensures VertexPositions(NormalLines(vs)) == [] && FaceWords(NormalLines(vs)) == []
    decreases |vs|
  {
    if vs != [] {
      var v := vs[|vs| - 1];
      var line := NormalLine(v.x, v.y, v.z);
      NormalLinesGather(vs[..|vs| - 1]);
      GatherConcat(NormalLines(vs[..|vs| - 1]), [line]);
      assert [line][1..] == [];
      assert vs == vs[..|vs| - 1] + [Vec4(v.x, v.y, v.z, 1.0)];
    }
  }

  lemma {:induction false} TextLinesGather(ts: seq<string>)
    ensures FaceWords(TextLines(ts)) == seq(|ts|, q requires 0 <= q < |ts| => Words(ts[q]))
    ensures VertexPositions(TextLines(ts)) == [] && Normals(TextLines(ts)) == []
    decreases |ts|
  {
    if ts != [] {
      var line := FaceLine(ts[|ts| - 1]);
      TextLinesGather(ts[..|ts| - 1]);
      GatherConcat(TextLines(ts[..|ts| - 1]), [line]);
      assert [line][1..] == [];
    }
  }

  /**
   * Read back through the OBJ line lists, the written file gives the
   * surface's positions and normals (points and vectors with w = 1), and
   * one word list per triangle, from that triangle's line.
   */
  lemma ObjGather(s: Surface)
    requires AllPoints(s.vv) && AllPoints(s.vn)
    ensures VertexPositions(ObjOutput(s)) == s.vv
    ensures Normals(ObjOutput(s)) == s.vn
    ensures |FaceWords(ObjOutput(s))| == |s.vf|
    ensures forall q :: 0 <= q < |s.vf| ==> FaceWords(ObjOutput(s))[q] == Words(FaceText(s.vf[q]))
  {
    var a, b, f := VertexLines(s.vv), NormalLines(s.vn), TextLines(FaceTexts(s.vf));
    VertexLinesGather(s.vv);
    NormalLinesGather(s.vn);
    TextLinesGather(FaceTexts(s.vf));
    OtherLineAddsNothing(a + b, f);
    GatherConcat(a, b);
    GatherConcat(a + b, f);
  }

  /** A corner's text is one word: digits and slashes. */
  lemma CornerIsWord(k: int)
    ensures IsWord(CornerText(k))
  {
    var w := CornerText(k);
    forall i | 0 <= i < |w|
      ensures !IsSpace(w[i])
    {
      var a := ShowNat(CornerNumber(k));
      assert w == a + "/1/" + a;
      if i < |a| {
        assert IsDigit(a[i]);
      } else if i >= |a| + 3 {
        assert w[i] == a[i - |a| - 3];
        assert IsDigit(a[i - |a| - 3]);
      }
    }
  }

  /** Corner k is read back as vertex k with normal k. */
  lemma CornerReadsBack(k: int)
    requires 0 <= k < INT_MAX
    ensures ParseWord(CornerText(k)) == Ok((k, k))
  {
    assert CornerNumber(k) == k + 1;
    assert ShowNat(1) == "1";
    SplitPairTriple(k + 1, 1, k + 1);
  }

  /** Three words, each after a run of white space, with white space at the end, split into those three words. */
  lemma ThreeWordsSpaced(s1: string, A: string, s2: string, B: string, s3: string, C: string, s4: string)
    requires IsWord(A) && IsWord(B) && IsWord(C)
    requires forall i :: 0 <= i < |s1| ==> IsSpace(s1[i])
    requires |s2| > 0 && forall i :: 0 <= i < |s2| ==> IsSpace(s2[i])
    requires |s3| > 0 && forall i :: 0 <= i < |s3| ==> IsSpace(s3[i])
    requires |s4| > 0 && forall i :: 0 <= i < |s4| ==> IsSpace(s4[i])
    ensures Words(s1 + A + (s2 + B + (s3 + C + s4))) == [A, B, C]
  {
    WordsOfSpaces(s4);
    WordsStep(s3, C, s4);
    var tail := s3 + C + s4;
    assert tail[0] == s3[0];
    WordsStep(s2, B, tail);
    var tail2 := s2 + B + tail;
    assert tail2[0] == s2[0];
    WordsStep(s1, A, tail2);
  }

  /** The words of a written face line are its three corners. */
  lemma FaceTextWords(t: Tri)
    ensures Words(FaceText(t)) == [CornerText(t.a), CornerText(t.b), CornerText(t.c)]
  {
    CornerIsWord(t.a);
    CornerIsWord(t.b);
    CornerIsWord(t.c);
    ThreeWordsSpaced("  ", CornerText(t.a), " ", CornerText(t.b), " ", CornerText(t.c), " ");
  }

  /**
   * A written face line is read back, by the corrected word loop, as its
   * three corners; the word loop as written fails on it, because the line
   * ends in a space.
   */
  lemma FaceLineReadsBack(t: Tri)
    requires 0 <= t.a < INT_MAX && 0 <= t.b < INT_MAX && 0 <= t.c < INT_MAX
    ensures ParseLine(FaceText(t)) == Ok([(t.a, t.a), (t.b, t.b), (t.c, t.c)])
    ensures ParseLineAsWritten(FaceText(t)) == Err(EmptyWord)
  {
    var A, B, C := CornerText(t.a), CornerText(t.b), CornerText(t.c);
    FaceTextWords(t);
    CornerReadsBack(t.a);
    CornerReadsBack(t.b);
    CornerReadsBack(t.c);
    ThreeWordsParse(A, B, C);
    var text := FaceText(t);
    assert text[|text| - 1] == ' ';
    TrailingSpaceFails(text);
  }

  /**
   * The face lists the OBJ reader parses out of a written surface are the
   * surface's triangles, each corner naming the same vertex and normal.
   */
  lemma ObjFacesReadBack(s: Surface)
    requires AllPoints(s.vv) && AllPoints(s.vn)
    requires forall q :: 0 <= q < |s.vf| ==>
      0 <= s.vf[q].a < INT_MAX && 0 <= s.vf[q].b < INT_MAX && 0 <= s.vf[q].c < INT_MAX
    ensures ParseFaces(FaceWords(ObjOutput(s))).Ok?
    ensures |ParseFaces(FaceWords(ObjOutput(s))).value| == |s.vf|
    ensures forall q :: 0 <= q < |s.vf| ==>
      ParseFaces(FaceWords(ObjOutput(s))).value[q] == [(s.vf[q].a, s.vf[q].a), (s.vf[q].b, s.vf[q].b), (s.vf[q].c, s.vf[q].c)]
  {
    ObjGather(s);
    var ws := FaceWords(ObjOutput(s));
    forall q | 0 <= q < |s.vf|
      ensures ParseWords(ws[q]) == Ok([(s.vf[q].a, s.vf[q].a), (s.vf[q].b, s.vf[q].b), (s.vf[q].c, s.vf[q].c)])
    {
      FaceLineReadsBack(s.vf[q]);
    }
    ParseFacesOk(ws);
  }
}
