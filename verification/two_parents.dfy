/**
 * The parent array of a skeleton file (`two/SkeletalModel.cpp`,
 * `loadSkeleton`) read as a forest. Each joint names one parent or -1, so
 * following parents up from a joint is a single path. A path that reaches a
 * joint with parent -1 stops there, and therefore never repeats a joint: a
 * cycle in the array can only be entered from joints that never reach a
 * root. This is why the passes from the root always end.
 */
module TwoParents {

  /** A parent entry either marks a root (-1) or names one of the n joints. */
  predicate ParentOk(p: int, n: nat)
  {
    p == -1 || 0 <= p < n
  }

  predicate ParentsOk(ps: seq<int>)
  {
    forall i :: 0 <= i < |ps| ==> ParentOk(ps[i], |ps|)
  }

  /** r is a root: a joint whose parent is -1. */
  predicate IsRoot(ps: seq<int>, r: int)
  {
    0 <= r < |ps| && ps[r] == -1
  }

  /** One step up: the parent of x, and -1 for anything that is not a joint. */
  function Up(ps: seq<int>, x: int): int
  {
    if 0 <= x < |ps| then ps[x] else -1
  }

  /** The k-th ancestor of x: k steps up. */
  function Ancestor(ps: seq<int>, x: int, k: nat): int
    decreases k
  {
    if k == 0 then x else Ancestor(ps, Up(ps, x), k - 1)
  }

  /** x lies below c (or is c): following parents up from x reaches c. */
  ghost predicate Below(ps: seq<int>, x: int, c: int)
  {
    exists k: nat :: Ancestor(ps, x, k) == c
  }

  /** Walking a steps and then b steps is walking a + b steps. */
  lemma {:induction false} AncestorAdd(ps: seq<int>, x: int, a: nat, b: nat)
    ensures Ancestor(ps, x, a + b) == Ancestor(ps, Ancestor(ps, x, a), b)
    decreases a
  {
    if a > 0 {
      AncestorAdd(ps, Up(ps, x), a - 1, b);
    }
  }

  /** Above -1 there is only -1. */
  lemma {:induction false} AncestorNone(ps: seq<int>, k: nat)
    ensures Ancestor(ps, -1, k) == -1
    decreases k
  {
    if k > 0 {
      AncestorNone(ps, k - 1);
    }
  }

  /** The (k+1)-th ancestor is the parent of the k-th. */
  lemma AncestorStep(ps: seq<int>, x: int, k: nat)
    ensures Ancestor(ps, x, k + 1) == Up(ps, Ancestor(ps, x, k))
  {
    AncestorAdd(ps, x, k, 1);
  }

  /** In a well-formed array every ancestor of a joint is a joint or -1. */
  lemma {:induction false} AncestorRange(ps: seq<int>, x: int, k: nat)
    requires ParentsOk(ps) && -1 <= x < |ps|
    ensures -1 <= Ancestor(ps, x, k) < |ps|
    decreases k
  {
    if k > 0 {
      AncestorRange(ps, Up(ps, x), k - 1);
    }
  }

  /** A joint reaches a root in exactly one number of steps. */
  lemma DepthUnique(ps: seq<int>, r: int, x: int, d: nat, e: nat)
    requires IsRoot(ps, r) && Ancestor(ps, x, d) == r && Ancestor(ps, x, e) == r
    ensures d == e
  {
    if d < e {
      OnlyNoneAbove(ps, r, x, d, e);
    } else if e < d {
      OnlyNoneAbove(ps, r, x, e, d);
    }
  }

  /** More steps than the depth of a root lead to -1. */
  lemma OnlyNoneAbove(ps: seq<int>, r: int, x: int, d: nat, e: nat)
    requires IsRoot(ps, r) && Ancestor(ps, x, d) == r && d < e
    ensures Ancestor(ps, x, e) == -1
  {
    AncestorStep(ps, x, d);
    AncestorAdd(ps, x, d + 1, e - d - 1);
    AncestorNone(ps, e - d - 1);
  }

  /** The path from a joint up to a root never repeats a joint. */
  lemma ChainDistinct(ps: seq<int>, r: int, x: int, d: nat, i: nat, j: nat)
    requires IsRoot(ps, r) && Ancestor(ps, x, d) == r && i < j <= d
    ensures Ancestor(ps, x, i) != Ancestor(ps, x, j)
  {
    if Ancestor(ps, x, i) == Ancestor(ps, x, j) {
      AncestorAdd(ps, x, i, d - j);
      AncestorAdd(ps, x, j, d - j);
      DepthUnique(ps, r, x, i + (d - j), d);
    }
  }

  /** A joint below a root is never its own ancestor. */
  lemma NoCycle(ps: seq<int>, r: int, x: int, t: nat)
    requires IsRoot(ps, r) && Below(ps, x, r) && t >= 1
    ensures Ancestor(ps, x, t) != x
  {
    var d: nat :| Ancestor(ps, x, d) == r;
    if t <= d {
      ChainDistinct(ps, r, x, d, 0, t);
    } else {
      OnlyNoneAbove(ps, r, x, d, t);
      assert Up(ps, r) == -1;
      AncestorStep(ps, x, d);
      if x == -1 {
        AncestorNone(ps, d);
      }
    }
  }

  /** Distinct entries drawn from [0, n) number at most n. */
  lemma {:induction false} DistinctBound(s: seq<int>, n: nat)
    requires forall i :: 0 <= i < |s| ==> 0 <= s[i] < n
    requires forall i, j :: 0 <= i < j < |s| ==> s[i] != s[j]
    ensures |s| <= n
    decreases n
  {
    if |s| > 0 {
      assert 0 <= s[0] < n;
      if k :| 0 <= k < |s| && s[k] == n - 1 {
        var t := s[..k] + s[k + 1..];
        assert forall i :: 0 <= i < |t| ==> t[i] == if i < k then s[i] else s[i + 1];
        DistinctBound(t, n - 1);
      } else {
        DistinctBound(s, n - 1);
      }
    }
  }

  /** A joint reaching a root does so in fewer steps than there are joints. */
  lemma DepthBound(ps: seq<int>, r: int, x: int, d: nat)
    requires ParentsOk(ps) && IsRoot(ps, r) && 0 <= x < |ps| && Ancestor(ps, x, d) == r
    ensures d < |ps|
  {
    var chain := seq(d + 1, i requires 0 <= i <= d => Ancestor(ps, x, i));
    forall i | 0 <= i < |chain|
      ensures 0 <= chain[i] < |ps|
    {
      AncestorRange(ps, x, i);
      if chain[i] == -1 {
        AncestorAdd(ps, x, i, d - i);
        AncestorNone(ps, d - i);
      }
    }
    forall i, j | 0 <= i < j < |chain|
      ensures chain[i] != chain[j]
    {
      ChainDistinct(ps, r, x, d, i, j);
    }
    DistinctBound(chain, |ps|);
  }

  /** A child of a joint d steps below r is d + 1 steps below r. */
  lemma ChildDepth(ps: seq<int>, r: int, c: int, j: int, d: nat)
    requires 0 <= c < |ps| && ps[c] == j && Ancestor(ps, j, d) == r
    ensures Ancestor(ps, c, d + 1) == r
  {
  }

  /** Below is transitive. */
  lemma BelowTrans(ps: seq<int>, x: int, y: int, z: int)
    requires Below(ps, x, y) && Below(ps, y, z)
    ensures Below(ps, x, z)
  {
    var a: nat :| Ancestor(ps, x, a) == y;
    var b: nat :| Ancestor(ps, y, b) == z;
    AncestorAdd(ps, x, a, b);
  }

  /** Two joints above x lie on one path: one is below the other. */
  lemma BelowChain(ps: seq<int>, x: int, a: int, b: int)
    requires Below(ps, x, a) && Below(ps, x, b)
    ensures Below(ps, a, b) || Below(ps, b, a)
  {
    var ka: nat :| Ancestor(ps, x, ka) == a;
    var kb: nat :| Ancestor(ps, x, kb) == b;
    if ka <= kb {
      AncestorAdd(ps, x, ka, kb - ka);
    } else {
      AncestorAdd(ps, x, kb, ka - kb);
    }
  }

  /** What lies below a joint lies below its parent. */
  lemma BelowParent(ps: seq<int>, x: int, c: int)
    requires 0 <= c < |ps| && Below(ps, x, c)
    ensures Below(ps, x, ps[c])
  {
    var k: nat :| Ancestor(ps, x, k) == c;
    AncestorStep(ps, x, k);
  }

  /** A joint strictly below j lies below some child of j. */
  lemma ChildToward(ps: seq<int>, x: int, j: int)
    requires 0 <= j && Below(ps, x, j) && x != j
    ensures exists c :: 0 <= c < |ps| && ps[c] == j && Below(ps, x, c)
  {
    var k: nat :| Ancestor(ps, x, k) == j;
    var c := Ancestor(ps, x, k - 1);
    AncestorStep(ps, x, k - 1);
    assert Up(ps, c) == j;
    assert Below(ps, x, c);
  }

  /** Only the root itself lies above a root. */
  lemma AboveRoot(ps: seq<int>, r: int, a: int)
    requires IsRoot(ps, r) && Below(ps, r, a) && a >= 0
    ensures a == r
  {
    var k: nat :| Ancestor(ps, r, k) == a;
    if k > 0 {
      AncestorNone(ps, k - 1);
    }
  }
}
