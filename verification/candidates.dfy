/**
 * Contraction candidates and the ordered candidate queue.
 *
 * A candidate names an ORDERED vertex pair (v1, v2), the position chosen for
 * the merged vertex and the quadric error of placing it there. The queue is a
 * `std::set<Candidate>` under the candidate's `operator<`; here it is a
 * strictly increasing sequence, so its head is the minimum, and inserting a
 * candidate whose key is already present leaves the queue unchanged.
 */
module Candidates {
  import opened Homogeneous
  import opened Quadric

  /** `INF` is `DBL_MAX`, the largest finite double, not an infinity. */
  const DBL_MAX: real := 179769313486231570814527423731704356798070567525844996598917476803157260780028538760589558632766878171540458953514382464234321326889464182768467546703537516986049910576551282076245490090389328944075868508455133942304583236903222948165808559332123348274797826204144723168738177180919299881250404026184124858368.0

  /** Threshold below which |det| counts as singular. */
  const DET_EPS: real := 0.01

  /**
   * The floating-point routines the simplifier calls but whose numerics are
   * not modelled: determinant, inverse, `homogenize`, 3-vector
   * normalisation and the plane through three corners.
   */
  datatype Numerics = Numerics(
    det: Mat4 -> real,
    inverse: Mat4 -> Mat4,
    homogenize: Vec4 -> Vec4,
    normalize: Vec3 -> Vec3,
    plane: (Vec4, Vec4, Vec4) -> Vec4)

  datatype Candidate = Candidate(v1: int, v2: int, error: real, pos: Vec4)

  function Abs(x: real): real
  {
    if x < 0.0 then -x else x
  }

  /** `proj(a + b) / 2` re-expanded with w = 1. */
  function Midpoint(a: Vec4, b: Vec4): (m: Vec4)
    ensures m.w == 1.0
    ensures Project(m) == Vec3((a.x + b.x) / 2.0, (a.y + b.y) / 2.0, (a.z + b.z) / 2.0)
  {
    Expand(Vec3((a.x + b.x) / 2.0, (a.y + b.y) / 2.0, (a.z + b.z) / 2.0))
  }

  /** The quadric cost x^T Q x of placing a vertex at x. */
  function QuadricError(q: Mat4, x: Vec4): real
  {
    Dot(x, MulVec(q, x))
  }

  /** The pair's summed quadric is singular once its last row is replaced by [0,0,0,1]. */
  predicate Degenerate(num: Numerics, q: Mat4)
  {
    Abs(num.det(WithUnitLastRow(q))) < DET_EPS
  }

  /**
   * The `Candidate(gh, v1, v2)` constructor: it reads the two endpoints'
   * quadrics and positions as they are when it runs.
   */
  function MakeCandidate(num: Numerics, qs: seq<Mat4>, positions: seq<Vec4>, v1: int, v2: int): (c: Candidate)
    requires 0 <= v1 < |qs| && 0 <= v2 < |qs|
    requires v1 < |positions| && v2 < |positions|
    ensures c.v1 == v1 && c.v2 == v2
    ensures Degenerate(num, Add(qs[v1], qs[v2])) ==>
              c.error == DBL_MAX && c.pos == Midpoint(positions[v1], positions[v2])
    ensures !Degenerate(num, Add(qs[v1], qs[v2])) ==>
              c.error == QuadricError(Add(qs[v1], qs[v2]), c.pos)
  {
    var q := Add(qs[v1], qs[v2]);
    if Abs(num.det(WithUnitLastRow(q))) < DET_EPS then
      Candidate(v1, v2, DBL_MAX, Midpoint(positions[v1], positions[v2]))
    else
      var x := num.homogenize(MulVec(num.inverse(WithUnitLastRow(q)), Vec4(0.0, 0.0, 0.0, 1.0)));
      Candidate(v1, v2, QuadricError(q, x), x)
  }

  /**
   * Error and position depend on the unordered pair only: swapping the
   * endpoints swaps the ids and keeps everything else.
   */
  lemma MakeCandidateSwap(num: Numerics, qs: seq<Mat4>, positions: seq<Vec4>, v1: int, v2: int)
    requires 0 <= v1 < |qs| && 0 <= v2 < |qs|
    requires v1 < |positions| && v2 < |positions|
    ensures MakeCandidate(num, qs, positions, v2, v1)
            == MakeCandidate(num, qs, positions, v1, v2).(v1 := v2, v2 := v1)
  {
    AddMonoid(qs[v1], qs[v2], qs[v1]);
    var a := positions[v1];
    var b := positions[v2];
    assert Midpoint(a, b) == Midpoint(b, a);
  }

  /** `make_pair(v1, v2) < make_pair(t.v1, t.v2)`: lexicographic on the ordered pair. */
  predicate PairLess(a1: int, a2: int, b1: int, b2: int)
  {
    a1 < b1 || (a1 == b1 && a2 < b2)
  }

  /** `Candidate::operator<`: error first, ties broken on the ordered pair. */
  predicate Less(a: Candidate, b: Candidate)
  {
    if a.error == b.error then PairLess(a.v1, a.v2, b.v1, b.v2) else a.error < b.error
  }

  /** Neither orders before the other: the `std::set` notion of the same key. */
  predicate SameKey(a: Candidate, b: Candidate)
  {
    a.error == b.error && a.v1 == b.v1 && a.v2 == b.v2
  }

  /** `Less` is a strict total order on keys (error, v1, v2). */
  lemma LessIsStrictOrder(a: Candidate, b: Candidate, c: Candidate)
    ensures !Less(a, a)
    ensures Less(a, b) && Less(b, c) ==> Less(a, c)
    ensures Less(a, b) || Less(b, a) || SameKey(a, b)
    ensures SameKey(a, b) <==> !Less(a, b) && !Less(b, a)
  {
  }

  /**
   * Ties compare the ORDERED pair, so (a, b) and (b, a) with equal error are
   * different keys that both fit in the queue, ordered by their first vertex.
   */
  lemma OrderedTieBreak(x: Candidate, y: Candidate)
    requires x.error == y.error && x.v1 == y.v2 && x.v2 == y.v1 && x.v1 < x.v2
    ensures Less(x, y) && !SameKey(x, y)
  {
  }

  predicate Sorted(q: seq<Candidate>)
  {
    forall i, j :: 0 <= i < j < |q| ==> Less(q[i], q[j])
  }

  predicate HasKey(q: seq<Candidate>, c: Candidate)
  {
    exists i :: 0 <= i < |q| && SameKey(q[i], c)
  }

  lemma HasKeyTail(q: seq<Candidate>, c: Candidate)
    requires |q| > 0 && !SameKey(q[0], c)
    ensures HasKey(q, c) <==> HasKey(q[1..], c)
  {
    if HasKey(q, c) {
      var i :| 0 <= i < |q| && SameKey(q[i], c);
      assert SameKey(q[1..][i - 1], c);
    }
    if HasKey(q[1..], c) {
      var i :| 0 <= i < |q| - 1 && SameKey(q[1..][i], c);
      assert SameKey(q[i + 1], c);
    }
  }

  lemma SortedCons(x: Candidate, t: seq<Candidate>)
    requires Sorted(t)
    requires forall y :: y in t ==> Less(x, y)
    ensures Sorted([x] + t)
  {
    forall i, j | 0 <= i < j < |[x] + t|
      ensures Less(([x] + t)[i], ([x] + t)[j])
    {
      if i > 0 {
        assert ([x] + t)[i] == t[i - 1];
      }
      assert ([x] + t)[j] == t[j - 1];
    }
  }

  /** Nothing in a sorted queue orders strictly before a candidate that precedes its head. */
  lemma BelowHead(q: seq<Candidate>, c: Candidate)
    requires Sorted(q) && |q| > 0 && Less(c, q[0])
    ensures !HasKey(q, c)
    ensures forall y :: y in q ==> Less(c, y)
  {
    forall i | 0 <= i < |q|
      ensures !SameKey(q[i], c) && Less(c, q[i])
    {
      LessIsStrictOrder(c, q[0], q[i]);
    }
  }

  /** `candidates.emplace(c)`: insert at its place, or do nothing if the key is present. */
  function Insert(q: seq<Candidate>, c: Candidate): (r: seq<Candidate>)
    requires Sorted(q)
    ensures Sorted(r)
    ensures HasKey(q, c) ==> r == q
    ensures !HasKey(q, c) ==> multiset(r) == multiset(q) + multiset{c}
  {
    if q == [] then [c]
    else if Less(c, q[0]) then
      BelowHead(q, c);
      SortedCons(c, q);
      [c] + q
    else if Less(q[0], c) then
      var t := Insert(q[1..], c);
      HasKeyTail(q, c);
      assert q == [q[0]] + q[1..];
      InsertAbove(q[0], q[1..], c, t);
      [q[0]] + t
    else
      assert SameKey(q[0], c);
      q
  }

  /** Every candidate in the result of inserting above `x` still orders after `x`. */
  lemma InsertAbove(x: Candidate, t0: seq<Candidate>, c: Candidate, t: seq<Candidate>)
    requires Sorted(t0) && Sorted(t)
    requires forall y :: y in t0 ==> Less(x, y)
    requires Less(x, c)
    requires t == t0 || multiset(t) == multiset(t0) + multiset{c}
    ensures Sorted([x] + t)
  {
    forall y | y in t
      ensures Less(x, y)
    {
      assert y in multiset(t);
    }
    SortedCons(x, t);
  }

  /** After `Insert`, the key of `c` is present. */
  lemma InsertHasKey(q: seq<Candidate>, c: Candidate)
    requires Sorted(q)
    ensures HasKey(Insert(q, c), c)
  {
    var r := Insert(q, c);
    if HasKey(q, c) {
    } else {
      assert c in multiset(r);
      var i :| 0 <= i < |r| && r[i] == c;
      assert SameKey(r[i], c);
    }
  }

  /** Insertion keeps every queued candidate and adds nothing but `c`. */
  lemma InsertMembers(q: seq<Candidate>, c: Candidate)
    requires Sorted(q)
    ensures forall x :: x in q ==> x in Insert(q, c)
    ensures forall x :: x in Insert(q, c) ==> x in q || x == c
  {
    var r := Insert(q, c);
    if !HasKey(q, c) {
      forall x | x in q ensures x in r {
        assert x in multiset(q);
        assert x in multiset(r);
      }
      forall x | x in r ensures x in q || x == c {
        assert x in multiset(r);
      }
    }
  }

  /** Inserting each candidate of `cs` in order. */
  function InsertAll(q: seq<Candidate>, cs: seq<Candidate>): (r: seq<Candidate>)
    requires Sorted(q)
    ensures Sorted(r)
    ensures forall x :: x in q ==> x in r
    ensures forall x :: x in r ==> x in q || x in cs
    ensures forall i :: 0 <= i < |cs| ==> HasKey(r, cs[i])
    decreases |cs|
  {
    if cs == [] then q
    else
      var q' := Insert(q, cs[0]);
      InsertHasKey(q, cs[0]);
      InsertMembers(q, cs[0]);
      var r := InsertAll(q', cs[1..]);
      InsertAllStep(q', cs, r);
      r
  }

  lemma InsertAllStep(q': seq<Candidate>, cs: seq<Candidate>, r: seq<Candidate>)
    requires |cs| > 0 && HasKey(q', cs[0])
    requires forall x :: x in q' ==> x in r
    requires forall i :: 0 <= i < |cs| - 1 ==> HasKey(r, cs[1..][i])
    ensures forall i :: 0 <= i < |cs| ==> HasKey(r, cs[i])
  {
    forall i | 0 <= i < |cs|
      ensures HasKey(r, cs[i])
    {
      if i == 0 {
        var k :| 0 <= k < |q'| && SameKey(q'[k], cs[0]);
        assert q'[k] in r;
        var j :| 0 <= j < |r| && r[j] == q'[k];
        assert SameKey(r[j], cs[0]);
      } else {
        assert cs[i] == cs[1..][i - 1];
      }
    }
  }
}
