/**
 * How far the transform passes of `two/SkeletalModel.cpp` reach: for any
 * file whose parents all name joints or -1, the pass from the root assigns
 * every joint whose path up reaches the root exactly once and no other
 * joint, so other trees (under earlier lines with parent -1) and joints
 * caught in a cycle of the parent array keep their default matrices.
 */
module TwoHierarchy {
  import opened Homogeneous
  import opened TwoSkeleton
  import opened TwoParents

  /** Some assignment of ws is to joint x. */
  ghost predicate Assigned(ws: seq<(nat, Matrix)>, x: nat)
  {
    exists q :: 0 <= q < |ws| && ws[q].0 == x
  }

  /** No joint is assigned twice. */
  ghost predicate Once(ws: seq<(nat, Matrix)>)
  {
    forall p, q :: 0 <= p < q < |ws| ==> ws[p].0 != ws[q].0
  }

  /** x lies below one of the joints cs. */
  ghost predicate BelowAny(ps: seq<int>, x: int, cs: seq<nat>)
  {
    exists i :: 0 <= i < |cs| && Below(ps, x, cs[i])
  }

  // ---------------------------------------------------------------- the parent relation

  /** A joint lies below its parent. */
  lemma ChildBelow(ps: seq<int>, c: int)
    requires 0 <= c < |ps|
    ensures Below(ps, c, ps[c])
  {
    assert Ancestor(ps, c, 1) == ps[c];
  }

  /** A joint of the root's tree never lies below one of its own children. */
  lemma ChildNotAbove(ps: seq<int>, r: int, j: int, c: int)
    requires IsRoot(ps, r) && Below(ps, j, r) && 0 <= c < |ps| && ps[c] == j
    ensures !Below(ps, j, c)
  {
    if Below(ps, j, c) {
      var k: nat :| Ancestor(ps, j, k) == c;
      AncestorStep(ps, j, k);
      NoCycle(ps, r, j, k + 1);
    }
  }

  /** No joint climbs to its sibling: the climb would close a cycle through their parent. */
  lemma ClimbsToSibling(ps: seq<int>, r: int, a: int, b: int)
    requires IsRoot(ps, r) && 0 <= a < |ps| && 0 <= b < |ps| && a != b
    requires ps[a] == ps[b] && Below(ps, ps[a], r)
    ensures !Below(ps, a, b)
  {
    if Below(ps, a, b) {
      var t: nat :| Ancestor(ps, a, t) == b;
      AncestorStep(ps, a, t);
      AncestorAdd(ps, a, 1, t);
      NoCycle(ps, r, ps[a], t);
    }
  }

  /** Two different children of one joint of the root's tree have no joint below both. */
  lemma SiblingsApart(ps: seq<int>, r: int, a: int, b: int, x: int)
    requires IsRoot(ps, r) && 0 <= a < |ps| && 0 <= b < |ps| && a != b
    requires ps[a] == ps[b] && Below(ps, ps[a], r)
    ensures !(Below(ps, x, a) && Below(ps, x, b))
  {
    if Below(ps, x, a) && Below(ps, x, b) {
      BelowChain(ps, x, a, b);
      if Below(ps, a, b) {
        ClimbsToSibling(ps, r, a, b);
      } else {
        ClimbsToSibling(ps, r, b, a);
      }
    }
  }

  // ---------------------------------------------------------------- the passes

  /** Every assignment of ws is to a joint below one of cs. */
  ghost predicate Reach(ps: seq<int>, ws: seq<(nat, Matrix)>, cs: seq<nat>)
  {
    forall q :: 0 <= q < |ws| ==> ws[q].0 < |ps| && BelowAny(ps, ws[q].0, cs)
  }

  /** Every joint below one of cs is assigned in ws. */
  ghost predicate Covers(ps: seq<int>, ws: seq<(nat, Matrix)>, cs: seq<nat>)
  {
    forall i, x :: 0 <= i < |cs| && 0 <= x < |ps| && Below(ps, x, cs[i]) ==> Assigned(ws, x)
  }

  /** ws assigns exactly the joints below cs, each once. */
  ghost predicate Spans(ps: seq<int>, ws: seq<(nat, Matrix)>, cs: seq<nat>)
  {
    Reach(ps, ws, cs) && Once(ws) && Covers(ps, ws, cs)
  }

  /** The pass over the first sibling followed by the pass over the others spans all the siblings. */
  lemma JoinSiblings(ps: seq<int>, r: int, cs: seq<nat>, j: int, first: seq<(nat, Matrix)>, rest: seq<(nat, Matrix)>)
    requires IsRoot(ps, r) && Below(ps, j, r) && cs != [] && Ascending(cs)
    requires forall i :: 0 <= i < |cs| ==> cs[i] < |ps| && ps[cs[i]] == j
    requires Spans(ps, first, [cs[0]]) && Spans(ps, rest, cs[1..])
    ensures Spans(ps, first + rest, cs)
  {
    var ws := first + rest;
    forall q | 0 <= q < |ws|
      ensures ws[q].0 < |ps| && BelowAny(ps, ws[q].0, cs)
    {
      if q < |first| {
        assert ws[q] == first[q];
        assert Below(ps, ws[q].0, [cs[0]][0]);
      } else {
        assert ws[q] == rest[q - |first|];
        var i :| 0 <= i < |cs[1..]| && Below(ps, rest[q - |first|].0, cs[1..][i]);
        assert Below(ps, ws[q].0, cs[i + 1]);
      }
    }
    forall p, q | 0 <= p < q < |ws|
      ensures ws[p].0 != ws[q].0
    {
      if q < |first| {
        assert ws[p] == first[p] && ws[q] == first[q];
      } else if p >= |first| {
        assert ws[p] == rest[p - |first|] && ws[q] == rest[q - |first|];
      } else {
        assert ws[p] == first[p] && ws[q] == rest[q - |first|];
        var x := first[p].0;
        assert Below(ps, x, [cs[0]][0]);
        var i :| 0 <= i < |cs[1..]| && Below(ps, rest[q - |first|].0, cs[1..][i]);
        SiblingsApart(ps, r, cs[0], cs[i + 1], x);
      }
    }
    forall i, x | 0 <= i < |cs| && 0 <= x < |ps| && Below(ps, x, cs[i])
      ensures Assigned(ws, x)
    {
      if i == 0 {
        assert Below(ps, x, [cs[0]][0]);
        assert Assigned(first, x);
        var q :| 0 <= q < |first| && first[q].0 == x;
        assert ws[q].0 == x;
      } else {
        assert Below(ps, x, cs[1..][i - 1]);
        assert Assigned(rest, x);
        var q :| 0 <= q < |rest| && rest[q].0 == x;
        assert ws[|first| + q].0 == x;
      }
    }
  }

  /** Assigning j and then the joints below its children spans j. */
  lemma AddParent(ps: seq<int>, r: int, j: nat, w: Matrix, cs: seq<nat>, rest: seq<(nat, Matrix)>)
    requires IsRoot(ps, r) && j < |ps| && Below(ps, j, r)
    requires forall c :: c in cs <==> 0 <= c < |ps| && ps[c] == j
    requires Spans(ps, rest, cs)
    ensures Spans(ps, [(j, w)] + rest, [j])
  {
    var ws := [(j, w)] + rest;
    forall q | 0 < q < |ws|
      ensures ws[q].0 < |ps| && Below(ps, ws[q].0, j) && ws[q].0 != j
    {
      var x := rest[q - 1].0;
      var i :| 0 <= i < |cs| && Below(ps, x, cs[i]);
      assert cs[i] in cs;
      BelowParent(ps, x, cs[i]);
      ChildNotAbove(ps, r, j, cs[i]);
    }
    assert Ancestor(ps, j, 0) == j;
    assert Reach(ps, ws, [j]) by {
      forall q | 0 <= q < |ws|
        ensures ws[q].0 < |ps| && BelowAny(ps, ws[q].0, [j])
      {
        assert Below(ps, ws[q].0, [j][0]);
      }
    }
    forall i, x | 0 <= i < 1 && 0 <= x < |ps| && Below(ps, x, [j][i])
      ensures Assigned(ws, x)
    {
      if x == j {
        assert ws[0].0 == j;
      } else {
        ChildToward(ps, x, j);
        var c :| 0 <= c < |ps| && ps[c] == j && Below(ps, x, c);
        assert c in cs;
        var k :| 0 <= k < |cs| && cs[k] == c;
        assert Below(ps, x, cs[k]);
        assert Assigned(rest, x);
        var q :| 0 <= q < |rest| && rest[q].0 == x;
        assert ws[q + 1].0 == x;
      }
    }
  }

  /** A pass that ends from a joint j of the root's tree assigns exactly the joints below j, each once. */
  lemma {:induction false} PassTree(nodes: seq<Node>, ps: seq<int>, r: int, mul: (Matrix, Matrix) -> Matrix, j: nat, m: Matrix, fuel: nat)
    requires Family(nodes, ps) && IsRoot(ps, r) && j < |nodes| && Below(ps, j, r)
    requires Pass(nodes, mul, j, m, fuel).Some?
    ensures Spans(ps, Pass(nodes, mul, j, m, fuel).value, [j])
    decreases fuel, 1, 0
  {
    var cs := nodes[j].children;
    var w := mul(m, nodes[j].transform);
    forall i | 0 <= i < |cs|
      ensures cs[i] < |ps| && ps[cs[i]] == j
    {
      assert cs[i] in cs;
    }
    PassAllTree(nodes, ps, r, mul, cs, w, fuel, j);
    AddParent(ps, r, j, w, cs, PassAll(nodes, mul, cs, w, fuel).value);
  }

  /** A pass that ends over the children cs of a joint j of the root's tree assigns exactly the joints below them, each once. */
  lemma {:induction false} PassAllTree(nodes: seq<Node>, ps: seq<int>, r: int, mul: (Matrix, Matrix) -> Matrix, cs: seq<nat>, m: Matrix, fuel: nat, j: int)
    requires Family(nodes, ps) && IsRoot(ps, r) && Below(ps, j, r)
    requires forall i :: 0 <= i < |cs| ==> cs[i] < |ps| && ps[cs[i]] == j
    requires Ascending(cs) && Within(cs, |nodes|)
    requires PassAll(nodes, mul, cs, m, fuel).Some?
    ensures Spans(ps, PassAll(nodes, mul, cs, m, fuel).value, cs)
    decreases fuel, 0, |cs|
  {
    if cs != [] {
      ChildBelow(ps, cs[0]);
      BelowTrans(ps, cs[0], j, r);
      PassTree(nodes, ps, r, mul, cs[0], m, fuel - 1);
      PassAllTree(nodes, ps, r, mul, cs[1..], m, fuel, j);
      JoinSiblings(ps, r, cs, j, Pass(nodes, mul, cs[0], m, fuel - 1).value, PassAll(nodes, mul, cs[1..], m, fuel).value);
    }
  }

  /**
   * For a file whose parents all name joints or -1 and that has a root, the
   * transform pass from the root ends, assigns no joint twice, and assigns a
   * joint exactly when following parents up from it reaches the root.
   */
  lemma PassVisitsTreeOnce(lines: seq<JointLine>, mul: (Matrix, Matrix) -> Matrix, m: Matrix)
    requires forall i :: 0 <= i < |lines| ==> ParentOk(lines[i].parent, |lines|)
    requires Linking(lines).root.Some?
    ensures Indexed(Linking(lines)) && Pass(Linking(lines).nodes, mul, Linking(lines).root.value, m, |lines|).Some?
    ensures var sk := Linking(lines);
      var ws := Pass(sk.nodes, mul, sk.root.value, m, |lines|).value;
      Once(ws) && forall x :: 0 <= x < |lines| ==> (Assigned(ws, x) <==> Below(Parents(lines), x, sk.root.value))
  {
    var sk := Linking(lines);
    var ps := Parents(lines);
    var r := sk.root.value;
    PassFromRootEnds(lines, mul, m);
    LinkingFamily(lines);
    LinkingRoot(lines);
    assert Ancestor(ps, r, 0) == r;
    PassTree(sk.nodes, ps, r, mul, r, m, |lines|);
    SpansOne(ps, Pass(sk.nodes, mul, r, m, |lines|).value, r);
  }

  /** A pass spanning the single joint r assigns each joint once, and exactly the joints below r. */
  lemma SpansOne(ps: seq<int>, ws: seq<(nat, Matrix)>, r: nat)
    requires Spans(ps, ws, [r])
    ensures Once(ws) && forall x :: 0 <= x < |ps| ==> (Assigned(ws, x) <==> Below(ps, x, r))
  {
    forall x | 0 <= x < |ps| && Below(ps, x, r)
      ensures Assigned(ws, x)
    {
      assert Below(ps, x, [r][0]);
    }
    forall x | 0 <= x < |ps| && Assigned(ws, x)
      ensures Below(ps, x, r)
    {
      var q :| 0 <= q < |ws| && ws[q].0 == x;
      assert BelowAny(ps, x, [r]);
    }
  }
}
