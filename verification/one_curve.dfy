/**
 * Curves (`one/curve.cpp`): the segmentation of `evalBezier` and the frame
 * propagation that fills N and B, the B-spline to Bezier change of basis
 * `bsp2bez`, `evalBspline`, and `evalCircle`.
 *
 * Evaluating a cubic at a parameter (`evalBezierAtT`), normalisation,
 * `cos`/`sin` and `rectifyNormal` are function parameters; arithmetic is on
 * reals, so rounding is not modelled.
 */
module OneCurve {
  import opened Wrappers
  import opened Homogeneous
  import opened Text
  import opened RowMajor

  /** A sample of a curve: position, tangent, normal, binormal. */
  datatype CurvePoint = CurvePoint(V: Vec3, T: Vec3, N: Vec3, B: Vec3)

  /**
   * `BezierCount` and `BsplineCount`: the checks that print a message and
   * `exit(0)`. `NoSamples`: a `steps` above `INT_MAX` is negative as an
   * `int`, nothing is sampled, and `rectifyNormal` reads `front()` of the
   * empty curve. `EndlessSegment`: `(int) steps` is `INT_MAX`, so the test
   * `st <= (int) steps` never fails and `st++` overflows. `EndlessCircle`:
   * `steps + 1` wraps to 0 and the loop `i <= steps` never ends.
   */
  datatype CurveError = BezierCount | BsplineCount | NoSamples | EndlessSegment | EndlessCircle

  /**
   * `evalBezierAtT` on the four control points `cp` at `t = st / steps`:
   * the position and the normalised tangent.
   */
  type Sampler = (seq<Vec3>, nat, nat) -> (Vec3, Vec3)

  const Up := Vec3(0.0, 0.0, 1.0)

  // ---------------------------------------------------------------- evalBezier

  /**
   * Samples per segment: `st` runs from 0 to `(int) steps` inclusive. `None`
   * when that loop never ends: at `(int) steps == INT_MAX` every `st`
   * passes the test.
   */
  function PerSegment(steps: nat): (per: Option<nat>)
    requires steps < TWO_32
    ensures per.None? <==> steps == INT_MAX
    ensures steps < INT_MAX ==> per == Some(steps + 1)
    ensures steps > INT_MAX ==> per == Some(0)
  {
    if ToSigned(steps) == INT_MAX then None
    else if ToSigned(steps) < 0 then Some(0)
    else Some(ToSigned(steps) + 1)
  }

  /** The control points `P[3s .. 3s + 4]` of segment s. */
  function Segment(P: seq<Vec3>, s: nat): (cp: seq<Vec3>)
    requires 3 * s + 4 <= |P|
    ensures |cp| == 4 && forall j :: 0 <= j < 4 ==> cp[j] == P[3 * s + j]
  {
    P[3 * s .. 3 * s + 4]
  }

  /** The position in the sample list of step `st` of segment `s`. */
  function Slot(s: nat, st: nat, per: nat): nat
  {
    s * per + st
  }

  /** `(V, T)` of every sample of the first s segments, in the order the loops produce them. */
  function Sampled(at: Sampler, P: seq<Vec3>, s: nat, per: nat, steps: nat): (vt: seq<(Vec3, Vec3)>)
    requires 3 * s + 1 <= |P|
    ensures |vt| == s * per
  {
    if s == 0 then []
    else
      Sampled(at, P, s - 1, per, steps) + seq(per, st requires 0 <= st < per => at(Segment(P, s - 1), st, steps))
  }

  /** Step `st` of segment `s` sits at `s * per + st` and is the sample of `P[3s .. 3s + 4]` at that step. */
  lemma {:induction false} SampledAt(at: Sampler, P: seq<Vec3>, s: nat, per: nat, steps: nat, s0: nat, st: nat)
    requires 3 * s + 1 <= |P| && s0 < s && st < per
    ensures Slot(s0, st, per) < |Sampled(at, P, s, per, steps)|
    ensures Sampled(at, P, s, per, steps)[Slot(s0, st, per)] == at(Segment(P, s0), st, steps)
  {
    CellBelow(s0, st, s, per);
    var prev := Sampled(at, P, s - 1, per, steps);
    if s0 < s - 1 {
      SampledAt(at, P, s - 1, per, steps, s0, st);
    } else {
      assert Slot(s0, st, per) == |prev| + st;
    }
  }

  /**
   * The B list after sampling the tangents `ts`: empty before the first
   * sample; the first sample pushes `(0, 0, 1)`, and every sample pushes the
   * normalised `T x N`, where `N` is the normalised `B.back() x T`.
   */
  function Binormals(unit: Vec3 -> Vec3, ts: seq<Vec3>): (bs: seq<Vec3>)
    ensures |bs| == if ts == [] then 0 else |ts| + 1
    decreases |ts|
  {
    if ts == [] then []
    else
      var prev := if |ts| == 1 then [Up] else Binormals(unit, ts[..|ts| - 1]);
      var t := ts[|ts| - 1];
      prev + [unit(Cross(t, unit(Cross(prev[|prev| - 1], t))))]
  }

  /** Sampling more tangents only appends to the B list. */
  lemma {:induction false} BinormalsPrefix(unit: Vec3 -> Vec3, ts: seq<Vec3>, j: nat)
    requires 1 <= j <= |ts|
    ensures Binormals(unit, ts[..j]) == Binormals(unit, ts)[..j + 1]
    decreases |ts|
  {
    if j < |ts| {
      var pre := ts[..|ts| - 1];
      BinormalsPrefix(unit, pre, j);
      assert pre[..j] == ts[..j];
      if |ts| == 1 {
      } else {
        assert Binormals(unit, ts)[..|ts|] == Binormals(unit, pre);
      }
    } else {
      assert ts[..j] == ts;
    }
  }

  /** The entry a sample pushes onto the B list follows from the entry before it and that sample's tangent. */
  lemma BinormalsLast(unit: Vec3 -> Vec3, ts: seq<Vec3>)
    requires ts != []
    ensures Binormals(unit, ts)[0] == Up
    ensures var k, bs := |ts| - 1, Binormals(unit, ts);
      bs[k + 1] == unit(Cross(ts[k], unit(Cross(bs[k], ts[k]))))
  {
    if |ts| > 1 {
      var prev := Binormals(unit, ts[..|ts| - 1]);
      assert Binormals(unit, ts) == prev + [Binormals(unit, ts)[|ts|]];
      BinormalsLast(unit, ts[..|ts| - 1]);
    }
  }

  /** The B list starts at `(0, 0, 1)` and each entry follows from the previous one and the tangent. */
  lemma FrameRecurrence(unit: Vec3 -> Vec3, ts: seq<Vec3>, k: nat)
    requires k < |ts|
    ensures Binormals(unit, ts)[0] == Up
    ensures Binormals(unit, ts)[k + 1] == unit(Cross(ts[k], unit(Cross(Binormals(unit, ts)[k], ts[k]))))
  {
    var pre := ts[..k + 1];
    BinormalsLast(unit, pre);
    BinormalsPrefix(unit, ts, k + 1);
    BinormalsLast(unit, ts);
  }

  /** The tangents of the samples. */
  function Tangents(vt: seq<(Vec3, Vec3)>): (ts: seq<Vec3>)
    ensures |ts| == |vt| && forall k :: 0 <= k < |vt| ==> ts[k] == vt[k].1
  {
    seq(|vt|, k requires 0 <= k < |vt| => vt[k].1)
  }

  /**
   * The curve `c(V.size())` filled from the four lists: `c[i].B = B[i]` is
   * in range because B holds one entry more than V.
   */
  function Assemble(unit: Vec3 -> Vec3, vt: seq<(Vec3, Vec3)>): (c: seq<CurvePoint>)
    ensures |c| == |vt|
    ensures forall k :: 0 <= k < |c| ==> c[k].V == vt[k].0 && c[k].T == vt[k].1
  {
    var bs := Binormals(unit, Tangents(vt));
    seq(|vt|, k requires 0 <= k < |vt| => CurvePoint(vt[k].0, vt[k].1, unit(Cross(bs[k], vt[k].1)), bs[k]))
  }

  /**
   * The frames before `rectifyNormal`: B starts at `(0, 0, 1)`, every N is
   * the normalised `B x T` of its sample, and every next B is the
   * normalised `T x N` of the sample before it.
   */
  lemma AssembleFrames(unit: Vec3 -> Vec3, vt: seq<(Vec3, Vec3)>)
    ensures var c := Assemble(unit, vt);
      (c != [] ==> c[0].B == Up) &&
      (forall k :: 0 <= k < |c| ==> c[k].N == unit(Cross(c[k].B, c[k].T))) &&
      (forall k :: 0 <= k < |c| - 1 ==> c[k + 1].B == unit(Cross(c[k].T, c[k].N)))
  {
    var c := Assemble(unit, vt);
    var ts := Tangents(vt);
    forall k | 0 <= k < |c| - 1
      ensures c[k + 1].B == unit(Cross(c[k].T, c[k].N))
    {
      FrameRecurrence(unit, ts, k);
    }
    if c != [] {
      FrameRecurrence(unit, ts, 0);
    }
  }

  /** `rectifyNormal` keeps the number of points and every position and tangent: it rewrites only N and B. */
  ghost predicate KeepsSamples(rectify: seq<CurvePoint> -> seq<CurvePoint>)
  {
    forall c: seq<CurvePoint> :: |rectify(c)| == |c| && forall k :: 0 <= k < |c| ==> rectify(c)[k].V == c[k].V && rectify(c)[k].T == c[k].T
  }

  /**
   * `evalBezier(P, steps)`: exit unless there are 3n + 1 control points,
   * n >= 1; sample each of the n segments `steps + 1` times; fill in the
   * frames; `rectifyNormal`.
   */
  function EvalBezier(at: Sampler, unit: Vec3 -> Vec3, rectify: seq<CurvePoint> -> seq<CurvePoint>,
                      P: seq<Vec3>, steps: nat): (r: Result<seq<CurvePoint>, CurveError>)
    requires steps < TWO_32
    ensures r == Err(BezierCount) <==> |P| < 4 || |P| % 3 != 1
  {
    if |P| < 4 || |P| % 3 != 1 then Err(BezierCount)
    else
      match PerSegment(steps)
      case None => Err(EndlessSegment)
      case Some(per) =>
        var c := Assemble(unit, Sampled(at, P, (|P| - 1) / 3, per, steps));
        if c == [] then Err(NoSamples) else Ok(rectify(c))
  }

  /** The segments `P[3s .. 3s + 4]` for s < n. */
  function Segments(P: seq<Vec3>, n: nat): (segs: seq<seq<Vec3>>)
    requires 3 * n + 1 <= |P|
    ensures |segs| == n && forall s :: 0 <= s < n ==> segs[s] == Segment(P, s)
  {
    seq(n, s requires 0 <= s < n => Segment(P, s))
  }

  /**
   * The curve c samples each of the four-point segments `segs` in turn,
   * `steps + 1` times: point `s (steps + 1) + st` has the position and
   * tangent of step st on segment s.
   */
  ghost predicate SamplesEach(c: seq<CurvePoint>, at: Sampler, segs: seq<seq<Vec3>>, steps: nat)
  {
    |c| == |segs| * (steps + 1) &&
    forall s, st :: 0 <= s < |segs| && 0 <= st <= steps ==> SampleIs(c, at, segs, steps, s, st)
  }

  /** Point `s (steps + 1) + st` of c has the position and tangent of step st on segment s. */
  ghost predicate SampleIs(c: seq<CurvePoint>, at: Sampler, segs: seq<seq<Vec3>>, steps: nat, s: nat, st: nat)
    requires s < |segs|
  {
    Slot(s, st, steps + 1) < |c| &&
    c[Slot(s, st, steps + 1)].V == at(segs[s], st, steps).0 &&
    c[Slot(s, st, steps + 1)].T == at(segs[s], st, steps).1
  }

  /** Before `rectifyNormal`: the frames assembled from n segments sample each segment in turn. */
  lemma AssembledSamples(at: Sampler, unit: Vec3 -> Vec3, P: seq<Vec3>, n: nat, steps: nat)
    requires |P| == 3 * n + 1 && n >= 1
    ensures var c := Assemble(unit, Sampled(at, P, n, steps + 1, steps));
      c != [] && SamplesEach(c, at, Segments(P, n), steps)
  {
    var per := steps + 1;
    var vt := Sampled(at, P, n, per, steps);
    var c := Assemble(unit, vt);
    var segs := Segments(P, n);
    assert n * per >= per by { MulSign(n, per); }
    forall s, st | 0 <= s < n && 0 <= st <= steps
      ensures SampleIs(c, at, segs, steps, s, st)
    {
      SampledAt(at, P, n, per, steps, s, st);
    }
  }

  /** A curve with the same positions and tangents samples the same segments. */
  lemma SameSamples(c: seq<CurvePoint>, d: seq<CurvePoint>, at: Sampler, segs: seq<seq<Vec3>>, steps: nat)
    requires |d| == |c| && forall k :: 0 <= k < |c| ==> d[k].V == c[k].V && d[k].T == c[k].T
    requires SamplesEach(c, at, segs, steps)
    ensures SamplesEach(d, at, segs, steps)
  {
    forall s, st | 0 <= s < |segs| && 0 <= st <= steps
      ensures SampleIs(d, at, segs, steps, s, st)
    {
      assert SampleIs(c, at, segs, steps, s, st);
    }
  }

  /** `rectifyNormal` keeps what the curve samples. */
  lemma RectifyKeepsSamples(rectify: seq<CurvePoint> -> seq<CurvePoint>, c: seq<CurvePoint>, at: Sampler, segs: seq<seq<Vec3>>, steps: nat)
    requires KeepsSamples(rectify) && SamplesEach(c, at, segs, steps)
    ensures SamplesEach(rectify(c), at, segs, steps)
  {
    SameSamples(c, rectify(c), at, segs, steps);
  }

  /** With 3n + 1 control points and `steps` below `INT_MAX`, the curve is the rectified assembly of the samples. */
  lemma BezierRectified(at: Sampler, unit: Vec3 -> Vec3, rectify: seq<CurvePoint> -> seq<CurvePoint>, P: seq<Vec3>, n: nat, steps: nat)
    requires steps <= INT_MAX && |P| == 3 * n + 1 && n >= 1
    ensures steps < INT_MAX ==> EvalBezier(at, unit, rectify, P, steps) == Ok(rectify(Assemble(unit, Sampled(at, P, n, steps + 1, steps))))
    ensures steps == INT_MAX ==> EvalBezier(at, unit, rectify, P, steps) == Err(EndlessSegment)
  {
    assert (|P| - 1) / 3 == n && |P| % 3 == 1;
    if steps < INT_MAX {
      assert PerSegment(steps) == Some(steps + 1);
      assert n * (steps + 1) >= 1 by { MulSign(n, steps + 1); }
    }
  }

  /**
   * With 3n + 1 control points the curve exists exactly when `steps` is
   * below `INT_MAX`, and then it samples each segment `P[3s .. 3s + 4]` in
   * turn, `steps + 1` times. At `INT_MAX` the sample loop never ends; above
   * it nothing is sampled.
   */
  lemma BezierSamples(at: Sampler, unit: Vec3 -> Vec3, rectify: seq<CurvePoint> -> seq<CurvePoint>, P: seq<Vec3>, steps: nat)
    requires steps < TWO_32 && KeepsSamples(rectify)
    requires 4 <= |P| && |P| % 3 == 1
    ensures EvalBezier(at, unit, rectify, P, steps).Ok? <==> steps < INT_MAX
    ensures steps == INT_MAX ==> EvalBezier(at, unit, rectify, P, steps) == Err(EndlessSegment)
    ensures steps > INT_MAX ==> EvalBezier(at, unit, rectify, P, steps) == Err(NoSamples)
    ensures EvalBezier(at, unit, rectify, P, steps).Ok? ==>
      SamplesEach(EvalBezier(at, unit, rectify, P, steps).value, at, Segments(P, (|P| - 1) / 3), steps)
  {
    var n := (|P| - 1) / 3;
    assert |P| == 3 * n + 1;
    if steps < INT_MAX {
      AssembledSamples(at, unit, P, n, steps);
      BezierRectified(at, unit, rectify, P, n, steps);
      RectifyKeepsSamples(rectify, Assemble(unit, Sampled(at, P, n, steps + 1, steps)), at, Segments(P, n), steps);
    } else if steps > INT_MAX {
      assert Sampled(at, P, n, 0, steps) == [] by { assert n * 0 == 0; }
    }
  }

  // ---------------------------------------------------------------- bsp2bez

  /** The Bernstein basis matrix `BERNSTEIN`. */
  const Bernstein: Matrix := [
    [1.0, -3.0, 3.0, -1.0],
    [0.0, 3.0, -6.0, 3.0],
    [0.0, 0.0, 3.0, -3.0],
    [0.0, 0.0, 0.0, 1.0]]

  /** The uniform cubic B-spline basis matrix `BSPLINE`. */
  const Bspline: Matrix := [
    [1.0 / 6.0, -3.0 / 6.0, 3.0 / 6.0, -1.0 / 6.0],
    [4.0 / 6.0, 0.0, -6.0 / 6.0, 3.0 / 6.0],
    [1.0 / 6.0, 3.0 / 6.0, 3.0 / 6.0, -3.0 / 6.0],
    [0.0, 0.0, 0.0, 1.0 / 6.0]]

  /** `M = (BSPLINE * BERNSTEIN^-1)^T`, written out exactly. */
  const ToBezierMatrix: Matrix := [
    [1.0 / 6.0, 4.0 / 6.0, 1.0 / 6.0, 0.0],
    [0.0, 4.0 / 6.0, 2.0 / 6.0, 0.0],
    [0.0, 2.0 / 6.0, 4.0 / 6.0, 0.0],
    [0.0, 1.0 / 6.0, 4.0 / 6.0, 1.0 / 6.0]]

  /** `M^T * BERNSTEIN == BSPLINE`; BERNSTEIN is invertible, so M is the matrix the program computes. */
  lemma ChangeOfBasis()
    ensures IsSquare(Bernstein, 4) && IsSquare(Bspline, 4) && IsSquare(ToBezierMatrix, 4)
    ensures MatMul4(Transpose4(ToBezierMatrix), Bernstein) == Bspline
  {
    var p := MatMul4(Transpose4(ToBezierMatrix), Bernstein);
    assert p[0] == Bspline[0];
    assert p[1] == Bspline[1];
    assert p[2] == Bspline[2];
    assert p[3] == Bspline[3];
  }

  /** One row of `M * g`, applied to each coordinate of the four points. */
  function RowTimes(w: seq<real>, g: seq<Vec3>): Vec3
    requires |w| == 4 && |g| == 4
  {
    Vec3(w[0] * g[0].x + w[1] * g[1].x + w[2] * g[2].x + w[3] * g[3].x,
         w[0] * g[0].y + w[1] * g[1].y + w[2] * g[2].y + w[3] * g[3].y,
         w[0] * g[0].z + w[1] * g[1].z + w[2] * g[2].z + w[3] * g[3].z)
  }

  /** The Bezier control points `(nx, ny, nz)` of a four-point B-spline window. */
  function ToBezier(g: seq<Vec3>): (b: seq<Vec3>)
    requires |g| == 4
    ensures |b| == 4
  {
    seq(4, j requires 0 <= j < 4 => RowTimes(ToBezierMatrix[j], g))
  }

  /** The window `bsp[i .. i + 4]`. */
  function Window(bsp: seq<Vec3>, i: nat): (g: seq<Vec3>)
    requires i + 4 <= |bsp|
    ensures |g| == 4
  {
    bsp[i .. i + 4]
  }

  /**
   * Consecutive windows meet: the last Bezier point of window i is the
   * first of window i + 1, which is why `bsp2bez` emits the first point of
   * window 0 only.
   */
  lemma WindowsMeet(bsp: seq<Vec3>, i: nat)
    requires i + 5 <= |bsp|
    ensures ToBezier(Window(bsp, i))[3] == ToBezier(Window(bsp, i + 1))[0]
  {
  }

  /**
   * `bsp2bez(bsp, bez)`: for every window, its first Bezier point when it
   * is window 0, then its other three. The result has `3 (k - 3) + 1`
   * points for k >= 4 control points, and its segment i is exactly the
   * Bezier form of window i.
   */
  method Bsp2Bez(bsp: seq<Vec3>) returns (bez: seq<Vec3>)
    ensures |bsp| < 4 ==> bez == []
    ensures |bsp| >= 4 ==> |bez| == 3 * (|bsp| - 3) + 1
    ensures forall i :: 0 <= i && i + 4 <= |bsp| ==> 3 * i + 4 <= |bez| && bez[3 * i .. 3 * i + 4] == ToBezier(Window(bsp, i))
  {
    bez := [];
    var i := 0;
    while i + 3 < |bsp|
      invariant i <= if |bsp| < 3 then 0 else |bsp| - 3
      invariant |bez| == if i == 0 then 0 else 3 * i + 1
      invariant forall w :: 0 <= w < i ==> 3 * w + 4 <= |bez| && bez[3 * w .. 3 * w + 4] == ToBezier(Window(bsp, w))
    {
      var nb := ToBezier(Window(bsp, i));
      var old_bez := bez;
      if i == 0 {
        bez := bez + [nb[0]];
      } else {
        WindowsMeet(bsp, i - 1);
        assert old_bez[3 * (i - 1) .. 3 * (i - 1) + 4][3] == bez[3 * i];
      }
      bez := bez + nb[1..];
      assert bez[3 * i .. 3 * i + 4] == nb;
      forall w | 0 <= w < i
        ensures bez[3 * w .. 3 * w + 4] == old_bez[3 * w .. 3 * w + 4]
      {
      }
      i := i + 1;
    }
  }

  /** The Bezier forms of the B-spline windows `P[s .. s + 4]`, in order. */
  function BezierWindows(P: seq<Vec3>): (segs: seq<seq<Vec3>>)
    requires |P| >= 4
    ensures |segs| == |P| - 3 && forall s :: 0 <= s < |P| - 3 ==> segs[s] == ToBezier(Window(P, s))
  {
    seq(|P| - 3, s requires 0 <= s < |P| - 3 => ToBezier(Window(P, s)))
  }

  /**
   * `evalBspline(P, steps)`: exit with fewer than four control points,
   * otherwise `evalBezier` on `bsp2bez(P)`, whose check then always passes.
   * The curve samples the Bezier form of each window `P[s .. s + 4]` in
   * turn, `steps + 1` times.
   */
  method EvalBspline(at: Sampler, unit: Vec3 -> Vec3, rectify: seq<CurvePoint> -> seq<CurvePoint>,
                     P: seq<Vec3>, steps: nat) returns (r: Result<seq<CurvePoint>, CurveError>)
    requires steps < TWO_32
    ensures r == Err(BsplineCount) <==> |P| < 4
    ensures r != Err(BezierCount)
    ensures KeepsSamples(rectify) && |P| >= 4 ==> (r.Ok? <==> steps < INT_MAX)
    ensures |P| >= 4 && steps == INT_MAX ==> r == Err(EndlessSegment)
    ensures KeepsSamples(rectify) && r.Ok? ==> |P| >= 4 && SamplesEach(r.value, at, BezierWindows(P), steps)
  {
    if |P| < 4 {
      return Err(BsplineCount);
    }
    var bez := Bsp2Bez(P);
    ghost var k := |P| - 3;
    assert |bez| == 3 * k + 1 && |bez| % 3 == 1;
    r := EvalBezier(at, unit, rectify, bez, steps);
    if KeepsSamples(rectify) {
      BsplineSamples(at, unit, rectify, P, bez, steps);
    }
  }

  /** `evalBezier` on the output of `bsp2bez` samples the Bezier form of each window in turn. */
  lemma BsplineSamples(at: Sampler, unit: Vec3 -> Vec3, rectify: seq<CurvePoint> -> seq<CurvePoint>,
                       P: seq<Vec3>, bez: seq<Vec3>, steps: nat)
    requires steps < TWO_32 && KeepsSamples(rectify)
    requires |P| >= 4 && |bez| == 3 * (|P| - 3) + 1
    requires forall i :: 0 <= i && i + 4 <= |P| ==> 3 * i + 4 <= |bez| && bez[3 * i .. 3 * i + 4] == ToBezier(Window(P, i))
    ensures EvalBezier(at, unit, rectify, bez, steps).Ok? <==> steps < INT_MAX
    ensures steps == INT_MAX ==> EvalBezier(at, unit, rectify, bez, steps) == Err(EndlessSegment)
    ensures steps > INT_MAX ==> EvalBezier(at, unit, rectify, bez, steps) == Err(NoSamples)
    ensures EvalBezier(at, unit, rectify, bez, steps).Ok? ==>
      SamplesEach(EvalBezier(at, unit, rectify, bez, steps).value, at, BezierWindows(P), steps)
  {
    var k := |P| - 3;
    RowCol(k, 0, 3);
    assert (|bez| - 1) / 3 == k;
    assert Segments(bez, k) == BezierWindows(P);
    BezierSamples(at, unit, rectify, bez, steps);
  }

  // ---------------------------------------------------------------- evalCircle

  /**
   * `evalCircle(radius, steps)`: `steps + 1` points counterclockwise about
   * the z axis. `trig(i)` is `(cos t, sin t)` at `t = 2 pi i / steps`.
   */
  function EvalCircle(trig: nat -> (real, real), radius: real, steps: nat): (r: Result<seq<CurvePoint>, CurveError>)
    requires steps < TWO_32
    ensures r.Err? <==> steps == TWO_32 - 1
    ensures r.Ok? ==> |r.value| == steps + 1
  {
    if steps + 1 == TWO_32 then Err(EndlessCircle)
    else
      Ok(seq(steps + 1, i requires 0 <= i <= steps =>
        var (c, s) := trig(i);
        CurvePoint(Scale3(radius, Vec3(c, s, 0.0)), Vec3(-s, c, 0.0), Vec3(-c, -s, 0.0), Up)))
  }

  /**
   * Every circle point lies in the xy plane with V, T and N flat, B up, T
   * orthogonal to V and N, and, on the unit circle, `T x N == B`: a
   * right-handed frame.
   */
  lemma CircleFrames(trig: nat -> (real, real), radius: real, steps: nat)
    requires steps < TWO_32
    requires forall i :: trig(i).0 * trig(i).0 + trig(i).1 * trig(i).1 == 1.0
    ensures EvalCircle(trig, radius, steps).Ok? ==>
      var c := EvalCircle(trig, radius, steps).value;
      forall i :: 0 <= i < |c| ==>
        c[i].V.z == 0.0 && c[i].T.z == 0.0 && c[i].N.z == 0.0 && c[i].B == Up &&
        Dot3(c[i].T, c[i].N) == 0.0 && Dot3(c[i].T, c[i].V) == 0.0 &&
        Cross(c[i].T, c[i].N) == c[i].B
  {
    var r := EvalCircle(trig, radius, steps);
    if r.Ok? {
      var c := r.value;
      forall i | 0 <= i < |c|
        ensures Dot3(c[i].T, c[i].N) == 0.0 && Dot3(c[i].T, c[i].V) == 0.0
        ensures Cross(c[i].T, c[i].N) == c[i].B
      {
        var (x, y) := trig(i);
        assert c[i] == CurvePoint(Scale3(radius, Vec3(x, y, 0.0)), Vec3(-y, x, 0.0), Vec3(-x, -y, 0.0), Up);
        assert x * x + y * y == 1.0;
      }
    }
  }
}
