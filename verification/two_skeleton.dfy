/**
 * The skeleton of the skinning program (`two/SkeletalModel.cpp`): the joint
 * hierarchy `loadSkeleton` builds from a parent array, the matrix-stack
 * traversals `_drawJoint` and `_drawSkeleton`, `setJointTransform`, the two
 * transform passes, `updateMesh`, and `load`, which runs them in order.
 *
 * Joints are indices into the joint list rather than pointers, and each
 * joint's bind-pose and current-pose matrices are held in lists parallel to
 * it. Matrix product, inverse and the bone frames are function parameters;
 * the skinning sum of `updateMesh` is written out over the joints. Every recursion carries a depth bound `fuel` and
 * reports `Endless` when it runs out; for a skeleton the loader links, the
 * bound of one step per joint always suffices (`PassFromRootEnds`), because
 * the path up from any joint the root reaches ends at the root.
 */
module TwoSkeleton {
  import opened Wrappers
  import opened Homogeneous
  import opened TwoMesh
  import opened TwoParents

  /** The part of a joint the traversals read: its local transform and its children. */
  datatype Node = Node(transform: Matrix, children: seq<nat>)

  /** The joints, their `bindWorldToJointTransform`s and `currentJointToWorldTransform`s, and the root. */
  datatype Skeleton = Skeleton(nodes: seq<Node>, bindWorldToJoint: seq<Matrix>, currentJointToWorld: seq<Matrix>, root: Option<nat>)

  /** A line of the skeleton file: the offset from the parent and the parent's index, -1 for the root. */
  datatype JointLine = JointLine(offset: Vec3, parent: int)

  /**
   * `BadParent`: `m_joints[ps[i]]` is out of range. `NoRoot`: no line has
   * parent -1, so `m_rootJoint` is never set. `Endless`: the traversal
   * from the root does not end. `NoJoint`: `m_joints[jointIndex]` is out of
   * range. `ShortAttachments`: `updateMesh` reads past a bind vertex or a
   * weight row.
   */
  datatype SkeletonError = BadParent(line: nat) | NoRoot | Endless | NoJoint | ShortAttachments

  /** A default-constructed `Matrix4f`. */
  const Default4 := ZeroMatrix(4)

  function Identity4(): (e: Matrix)
    ensures IsSquare(e, 4)
  {
    seq(4, i requires 0 <= i < 4 => seq(4, j requires 0 <= j < 4 => if i == j then 1.0 else 0.0))
  }

  /** `Matrix4f::translation(v)`: the identity with v in the last column. */
  function Translation(v: Vec3): (t: Matrix)
    ensures IsSquare(t, 4)
    ensures forall i, j :: 0 <= i < 4 && 0 <= j < 3 ==> t[i][j] == if i == j then 1.0 else 0.0
    ensures t[0][3] == v.x && t[1][3] == v.y && t[2][3] == v.z && t[3][3] == 1.0
  {
    [[1.0, 0.0, 0.0, v.x],
     [0.0, 1.0, 0.0, v.y],
     [0.0, 0.0, 1.0, v.z],
     [0.0, 0.0, 0.0, 1.0]]
  }

  predicate Ascending(s: seq<nat>)
  {
    forall a, b :: 0 <= a < b < |s| ==> s[a] < s[b]
  }

  /** Every index in cs names one of n joints. */
  predicate Within(cs: seq<nat>, n: nat)
  {
    forall i :: 0 <= i < |cs| ==> cs[i] < n
  }

  /** Every child index names a joint. */
  ghost predicate Linked(nodes: seq<Node>)
  {
    forall k :: 0 <= k < |nodes| ==> Within(nodes[k].children, |nodes|)
  }

  /** Children are linked, the root names a joint, and the matrix lists run parallel to the joints. */
  ghost predicate Indexed(sk: Skeleton)
  {
    |sk.bindWorldToJoint| == |sk.nodes| && |sk.currentJointToWorld| == |sk.nodes| &&
    (sk.root.Some? ==> sk.root.value < |sk.nodes|) && Linked(sk.nodes)
  }

  /** Every transform is a 4x4 matrix. */
  ghost predicate Shaped(sk: Skeleton)
  {
    forall k :: 0 <= k < |sk.nodes| ==> IsSquare(sk.nodes[k].transform, 4)
  }

  // ---------------------------------------------------------------- loadSkeleton

  /** The children joint k has once the first i lines are linked: the later lines naming k as parent, in order. */
  function ChildrenOf(lines: seq<JointLine>, k: int, i: nat): seq<nat>
    requires i <= |lines|
  {
    if i == 0 then []
    else ChildrenOf(lines, k, i - 1) + (if lines[i - 1].parent == k then [i - 1] else [])
  }

  /** Children come out ascending, and c is a child of k exactly when line c names k as its parent. */
  lemma {:induction false} ChildrenOfSpec(lines: seq<JointLine>, k: int, i: nat)
    requires i <= |lines|
    ensures Ascending(ChildrenOf(lines, k, i)) && Within(ChildrenOf(lines, k, i), i)
    ensures forall c :: c in ChildrenOf(lines, k, i) <==> 0 <= c < i && lines[c].parent == k
  {
    if i > 0 {
      ChildrenOfSpec(lines, k, i - 1);
    }
  }

  /** The joint the last of the first i lines with parent -1 names: assigning `m_rootJoint` again overwrites it. */
  function LastRoot(lines: seq<JointLine>, i: nat): Option<nat>
    requires i <= |lines|
  {
    if i == 0 then None
    else if lines[i - 1].parent == -1 then Some(i - 1)
    else LastRoot(lines, i - 1)
  }

  /** The root is set exactly when some line has parent -1, and then it is the last such line. */
  lemma {:induction false} LastRootSpec(lines: seq<JointLine>, i: nat)
    requires i <= |lines|
    ensures LastRoot(lines, i).Some? <==> exists k :: 0 <= k < i && lines[k].parent == -1
    ensures LastRoot(lines, i).Some? ==>
      var top := LastRoot(lines, i).value;
      top < i && lines[top].parent == -1 && forall k :: top < k < i ==> lines[k].parent != -1
  {
    if i > 0 {
      LastRootSpec(lines, i - 1);
    }
  }

  /** The skeleton a file whose parents all name joints (or -1) describes. */
  function Linking(lines: seq<JointLine>): (sk: Skeleton)
    ensures |sk.nodes| == |lines| && |sk.bindWorldToJoint| == |lines| && |sk.currentJointToWorld| == |lines|
    ensures Translated(sk.nodes, lines)
    ensures sk.root.Some? <==> exists i :: 0 <= i < |lines| && lines[i].parent == -1
    ensures sk.root.Some? ==> sk.root.value < |lines| && lines[sk.root.value].parent == -1
  {
    LastRootSpec(lines, |lines|);
    var n := |lines|;
    Skeleton(seq(n, k requires 0 <= k < n => Node(Translation(lines[k].offset), ChildrenOf(lines, k, n))),
             seq(n, k => Default4), seq(n, k => Default4), LastRoot(lines, n))
  }

  /** Each joint's transform is the translation by its line's offset. */
  ghost predicate Translated(nodes: seq<Node>, lines: seq<JointLine>)
    requires |nodes| == |lines|
  {
    forall k :: 0 <= k < |lines| ==> nodes[k].transform == Translation(lines[k].offset)
  }

  /**
   * The linked skeleton is well indexed, each joint's transform is the
   * translation by its offset, its children are exactly the lines naming it
   * as parent, in ascending order, and the root is the last line with
   * parent -1.
   */
  lemma LinkingSpec(lines: seq<JointLine>)
    ensures var sk := Linking(lines);
      Indexed(sk) && Shaped(sk) && |sk.nodes| == |lines|
    ensures var sk := Linking(lines);
      forall k :: 0 <= k < |lines| ==>
        sk.nodes[k].transform == Translation(lines[k].offset) &&
        sk.bindWorldToJoint[k] == Default4 && sk.currentJointToWorld[k] == Default4 &&
        Ascending(sk.nodes[k].children) &&
        forall c :: c in sk.nodes[k].children <==> 0 <= c < |lines| && lines[c].parent == k
    ensures var sk := Linking(lines);
      sk.root.Some? <==> exists i :: 0 <= i < |lines| && lines[i].parent == -1
    ensures var sk := Linking(lines);
      sk.root.Some? ==> var top := sk.root.value;
        top < |lines| && lines[top].parent == -1 && forall i :: top < i < |lines| ==> lines[i].parent != -1
  {
    var n := |lines|;
    forall k | 0 <= k < n
      ensures Ascending(ChildrenOf(lines, k, n)) && Within(ChildrenOf(lines, k, n), n)
      ensures forall c :: c in ChildrenOf(lines, k, n) <==> 0 <= c < n && lines[c].parent == k
    {
      ChildrenOfSpec(lines, k, n);
    }
    LastRootSpec(lines, n);
  }

  /** The parent array of a skeleton file. */
  function Parents(lines: seq<JointLine>): (ps: seq<int>)
    ensures |ps| == |lines| && forall i :: 0 <= i < |lines| ==> ps[i] == lines[i].parent
  {
    seq(|lines|, i requires 0 <= i < |lines| => lines[i].parent)
  }

  /** The children of every joint are, in ascending order, exactly the joints naming it in ps. */
  ghost predicate Family(nodes: seq<Node>, ps: seq<int>)
  {
    |nodes| == |ps| && Linked(nodes) &&
    forall k :: 0 <= k < |nodes| ==>
      Ascending(nodes[k].children) && forall c :: c in nodes[k].children <==> 0 <= c < |ps| && ps[c] == k
  }

  /** The linked joints form the family the file's parent array describes. */
  lemma LinkingFamily(lines: seq<JointLine>)
    ensures Family(Linking(lines).nodes, Parents(lines))
  {
    LinkingSpec(lines);
  }

  /** The linked skeleton has a root exactly when some line has parent -1, and its root is a root of the parent array. */
  lemma LinkingRoot(lines: seq<JointLine>)
    ensures Linking(lines).root.Some? <==> exists i :: 0 <= i < |lines| && lines[i].parent == -1
    ensures Linking(lines).root.Some? ==> IsRoot(Parents(lines), Linking(lines).root.value)
  {
    LastRootSpec(lines, |lines|);
  }

  /**
   * `loadSkeleton`: one joint per line, in order, with transform
   * `translation(offset)`; a line with parent -1 makes its joint the root,
   * any other line appends its joint to its parent's children. A parent
   * index out of range stops the load at the first such line.
   */
  method LoadSkeleton(lines: seq<JointLine>) returns (r: Result<Skeleton, SkeletonError>)
    ensures r.Err? <==> exists i :: 0 <= i < |lines| && !ParentOk(lines[i].parent, |lines|)
    ensures r.Err? ==> r.error.BadParent? && r.error.line < |lines| && !ParentOk(lines[r.error.line].parent, |lines|)
    ensures r.Err? ==> forall i :: 0 <= i < r.error.line ==> ParentOk(lines[i].parent, |lines|)
    ensures r.Ok? ==> r.value == Linking(lines)
  {
    var n := |lines|;
    var sk := Skeleton(seq(n, k => Node(Default4, [])), seq(n, k => Default4), seq(n, k => Default4), None);
    LinkedUpToNone(lines);
    var i := 0;
    while i < n
      invariant 0 <= i <= n
      invariant forall k :: 0 <= k < i ==> ParentOk(lines[k].parent, n)
      invariant sk == LinkedUpTo(lines, i)
    {
      if !ParentOk(lines[i].parent, n) {
        return Err(BadParent(i));
      }
      LinkLineStep(lines, i);
      sk := LinkLine(sk, lines[i], i);
      i := i + 1;
    }
    LinkedUpToAll(lines);
    r := Ok(sk);
  }

  /**
   * The skeleton once the first i lines are linked: those joints carry their
   * translation, every joint the children named so far, and the root is the
   * last root line so far.
   */
  function LinkedUpTo(lines: seq<JointLine>, i: nat): Skeleton
    requires i <= |lines|
  {
    var n := |lines|;
    Skeleton(seq(n, k requires 0 <= k < n => Node(if k < i then Translation(lines[k].offset) else Default4, ChildrenOf(lines, k, i))),
             seq(n, k => Default4), seq(n, k => Default4), LastRoot(lines, i))
  }

  /** Before any line is linked, every joint has the default transform and no children, and there is no root. */
  lemma LinkedUpToNone(lines: seq<JointLine>)
    ensures LinkedUpTo(lines, 0) == Skeleton(seq(|lines|, k => Node(Default4, [])), seq(|lines|, k => Default4), seq(|lines|, k => Default4), None)
  {
    assert LinkedUpTo(lines, 0).nodes == seq(|lines|, k => Node(Default4, []));
  }

  /** One iteration of `loadSkeleton`: joint i takes its translation, then becomes the root or its parent's last child. */
  function LinkLine(sk: Skeleton, l: JointLine, i: nat): Skeleton
    requires i < |sk.nodes| && ParentOk(l.parent, |sk.nodes|)
  {
    var nodes := sk.nodes[i := Node(Translation(l.offset), sk.nodes[i].children)];
    if l.parent == -1 then sk.(nodes := nodes, root := Some(i))
    else sk.(nodes := nodes[l.parent := nodes[l.parent].(children := nodes[l.parent].children + [i])])
  }

  /** Linking line i onto the first i lines gives the first i + 1. */
  lemma LinkLineStep(lines: seq<JointLine>, i: nat)
    requires i < |lines| && ParentOk(lines[i].parent, |lines|)
    ensures LinkLine(LinkedUpTo(lines, i), lines[i], i) == LinkedUpTo(lines, i + 1)
  {
    var a := LinkLine(LinkedUpTo(lines, i), lines[i], i).nodes;
    var b := LinkedUpTo(lines, i + 1).nodes;
    forall k | 0 <= k < |lines|
      ensures a[k] == b[k]
    {
      assert ChildrenOf(lines, k, i + 1) == ChildrenOf(lines, k, i) + (if lines[i].parent == k then [i] else []);
    }
  }

  /** With every line linked, the partial skeleton is the linked one. */
  lemma LinkedUpToAll(lines: seq<JointLine>)
    ensures LinkedUpTo(lines, |lines|) == Linking(lines)
  {
    assert LinkedUpTo(lines, |lines|).nodes == Linking(lines).nodes;
  }

  // ---------------------------------------------------------------- transform passes

  /**
   * The assignments one transform pass performs from joint j with incoming
   * matrix m, in order: `m = m * j->transform` is stored for j, then each
   * child's subtree is visited with that m. `None` when the depth bound runs
   * out.
   */
  function Pass(nodes: seq<Node>, mul: (Matrix, Matrix) -> Matrix, j: nat, m: Matrix, fuel: nat): (r: Option<seq<(nat, Matrix)>>)
    requires j < |nodes| && Linked(nodes)
    ensures r.Some? ==> |r.value| >= 1 && r.value[0] == (j, mul(m, nodes[j].transform))
    ensures r.Some? ==> InRange(r.value, |nodes|)
    decreases fuel, 1, 0
  {
    var w := mul(m, nodes[j].transform);
    match PassAll(nodes, mul, nodes[j].children, w, fuel)
    case None => None
    case Some(ws) => Some([(j, w)] + ws)
  }

  /** The pass over a list of sibling subtrees, each entered with the same matrix m. */
  function PassAll(nodes: seq<Node>, mul: (Matrix, Matrix) -> Matrix, cs: seq<nat>, m: Matrix, fuel: nat): (r: Option<seq<(nat, Matrix)>>)
    requires Within(cs, |nodes|) && Linked(nodes)
    ensures r.Some? ==> |r.value| >= |cs|
    ensures r.Some? ==> InRange(r.value, |nodes|)
    decreases fuel, 0, |cs|
  {
    if cs == [] then Some([])
    else if fuel == 0 then None
    else
      match Pass(nodes, mul, cs[0], m, fuel - 1)
      case None => None
      case Some(first) =>
        match PassAll(nodes, mul, cs[1..], m, fuel)
        case None => None
        case Some(rest) => Some(first + rest)
  }

  /** Every assignment of a pass names a joint. */
  ghost predicate InRange(ws: seq<(nat, Matrix)>, n: nat)
  {
    forall q :: 0 <= q < |ws| ==> ws[q].0 < n
  }

  /**
   * Assignment q is to a child of a joint assigned earlier, and stores that
   * joint's matrix times the child's transform.
   */
  ghost predicate Parented(nodes: seq<Node>, mul: (Matrix, Matrix) -> Matrix, ws: seq<(nat, Matrix)>, q: nat)
    requires InRange(ws, |nodes|) && q < |ws|
  {
    exists p :: 0 <= p < q && ws[q].0 in nodes[ws[p].0].children && ws[q].1 == mul(ws[p].1, nodes[ws[q].0].transform)
  }

  /** Every assignment from index `from` on is `Parented`. */
  ghost predicate Inherits(nodes: seq<Node>, mul: (Matrix, Matrix) -> Matrix, ws: seq<(nat, Matrix)>, from: nat)
    requires InRange(ws, |nodes|)
  {
    forall q :: from <= q < |ws| ==> Parented(nodes, mul, ws, q)
  }

  /** Putting assignments in front of a pass keeps each of its inheritances, shifted. */
  lemma ParentedShift(nodes: seq<Node>, mul: (Matrix, Matrix) -> Matrix, a: seq<(nat, Matrix)>, b: seq<(nat, Matrix)>, q: nat)
    requires InRange(a, |nodes|) && InRange(b, |nodes|) && q < |b|
    requires Parented(nodes, mul, b, q)
    ensures InRange(a + b, |nodes|) && Parented(nodes, mul, a + b, |a| + q)
  {
    var p :| 0 <= p < q && b[q].0 in nodes[b[p].0].children && b[q].1 == mul(b[p].1, nodes[b[q].0].transform);
    assert (a + b)[|a| + p] == b[p] && (a + b)[|a| + q] == b[q];
  }

  /** Appending assignments after a pass keeps each of its inheritances. */
  lemma ParentedExtend(nodes: seq<Node>, mul: (Matrix, Matrix) -> Matrix, a: seq<(nat, Matrix)>, b: seq<(nat, Matrix)>, q: nat)
    requires InRange(a, |nodes|) && InRange(b, |nodes|) && q < |a|
    requires Parented(nodes, mul, a, q)
    ensures InRange(a + b, |nodes|) && Parented(nodes, mul, a + b, q)
  {
    var p :| 0 <= p < q && a[q].0 in nodes[a[p].0].children && a[q].1 == mul(a[p].1, nodes[a[q].0].transform);
    assert (a + b)[p] == a[p] && (a + b)[q] == a[q];
  }

  /**
   * A pass that ends starts with `(j, m * transform(j))`, and every later
   * assignment gives a child its parent's accumulated matrix composed with
   * its own transform.
   */
  lemma {:induction false} PassInherits(nodes: seq<Node>, mul: (Matrix, Matrix) -> Matrix, j: nat, m: Matrix, fuel: nat)
    requires j < |nodes| && Linked(nodes)
    requires Pass(nodes, mul, j, m, fuel).Some?
    ensures var ws := Pass(nodes, mul, j, m, fuel).value;
      ws != [] && ws[0] == (j, mul(m, nodes[j].transform)) && InRange(ws, |nodes|) && Inherits(nodes, mul, ws, 1)
    decreases fuel, 1, 0
  {
    var w := mul(m, nodes[j].transform);
    var head := [(j, w)];
    var rest := PassAll(nodes, mul, nodes[j].children, w, fuel).value;
    PassAllInherits(nodes, mul, nodes[j].children, w, fuel);
    var ws := head + rest;
    assert ws == Pass(nodes, mul, j, m, fuel).value;
    forall q | 1 <= q < |ws|
      ensures Parented(nodes, mul, ws, q)
    {
      var q0 := q - 1;
      if Sibling(nodes, mul, nodes[j].children, w, rest, q0) {
        assert ws[0] == (j, w) && ws[q] == rest[q0];
      } else {
        ParentedShift(nodes, mul, head, rest, q0);
      }
    }
  }

  /** Assignment q is to one of the siblings cs, storing m times its transform. */
  ghost predicate Sibling(nodes: seq<Node>, mul: (Matrix, Matrix) -> Matrix, cs: seq<nat>, m: Matrix, ws: seq<(nat, Matrix)>, q: nat)
    requires InRange(ws, |nodes|) && q < |ws|
  {
    ws[q].0 in cs && ws[q].1 == mul(m, nodes[ws[q].0].transform)
  }

  /**
   * In a pass over siblings `cs` entered with m, each assignment is either
   * to a sibling, storing m times its transform, or inherits from an earlier
   * assignment.
   */
  lemma {:induction false} PassAllInherits(nodes: seq<Node>, mul: (Matrix, Matrix) -> Matrix, cs: seq<nat>, m: Matrix, fuel: nat)
    requires Within(cs, |nodes|) && Linked(nodes)
    requires PassAll(nodes, mul, cs, m, fuel).Some?
    ensures var ws := PassAll(nodes, mul, cs, m, fuel).value;
      InRange(ws, |nodes|) &&
      forall q :: 0 <= q < |ws| ==> Sibling(nodes, mul, cs, m, ws, q) || Parented(nodes, mul, ws, q)
    decreases fuel, 0, |cs|
  {
    if cs != [] {
      var first := Pass(nodes, mul, cs[0], m, fuel - 1).value;
      var rest := PassAll(nodes, mul, cs[1..], m, fuel).value;
      PassInherits(nodes, mul, cs[0], m, fuel - 1);
      PassAllInherits(nodes, mul, cs[1..], m, fuel);
      var ws := first + rest;
      assert ws == PassAll(nodes, mul, cs, m, fuel).value;
      forall q | 0 <= q < |ws|
        ensures Sibling(nodes, mul, cs, m, ws, q) || Parented(nodes, mul, ws, q)
      {
        if q == 0 {
          assert ws[0] == first[0];
        } else if q < |first| {
          ParentedExtend(nodes, mul, first, rest, q);
        } else {
          var q0 := q - |first|;
          if Sibling(nodes, mul, cs[1..], m, rest, q0) {
            assert ws[q] == rest[q0];
          } else {
            ParentedShift(nodes, mul, first, rest, q0);
          }
        }
      }
    }
  }

  /** The matrices list after the assignments ws, each passed through f; later assignments win. */
  function Written(ms: seq<Matrix>, ws: seq<(nat, Matrix)>, f: Matrix -> Matrix): (r: seq<Matrix>)
    requires InRange(ws, |ms|)
    ensures |r| == |ms|
    decreases |ws|
  {
    if ws == [] then ms
    else Written(ms, ws[..|ws| - 1], f)[ws[|ws| - 1].0 := f(ws[|ws| - 1].1)]
  }

  function Same(m: Matrix): Matrix
  {
    m
  }

  /**
   * After writing the same assignments into two lists, one through `inv`
   * and one unchanged, every entry is either untouched in both or the first
   * holds `inv` of the second.
   */
  lemma {:induction false} WrittenTogether(bs: seq<Matrix>, cs: seq<Matrix>, ws: seq<(nat, Matrix)>, inv: Matrix -> Matrix)
    requires |bs| == |cs| && InRange(ws, |bs|)
    ensures forall k :: 0 <= k < |bs| ==>
      (Written(bs, ws, inv)[k] == bs[k] && Written(cs, ws, Same)[k] == cs[k]) ||
      Written(bs, ws, inv)[k] == inv(Written(cs, ws, Same)[k])
    decreases |ws|
  {
    if ws != [] {
      WrittenTogether(bs, cs, ws[..|ws| - 1], inv);
    }
  }

  /**
   * `computeBindWorldToJointTransforms`: a pass from the root with the
   * identity, storing the inverse of each accumulated matrix.
   */
  function ComputeBind(sk: Skeleton, mul: (Matrix, Matrix) -> Matrix, inv: Matrix -> Matrix): (r: Result<Skeleton, SkeletonError>)
    requires Indexed(sk)
    ensures r.Ok? ==> r.value == sk.(bindWorldToJoint := r.value.bindWorldToJoint) && Indexed(r.value)
    ensures r.Err? <==> sk.root.None? || Pass(sk.nodes, mul, sk.root.value, Identity4(), |sk.nodes|).None?
  {
    if sk.root.None? then Err(NoRoot)
    else
      match Pass(sk.nodes, mul, sk.root.value, Identity4(), |sk.nodes|)
      case None => Err(Endless)
      case Some(ws) =>
        PassInherits(sk.nodes, mul, sk.root.value, Identity4(), |sk.nodes|);
        Ok(sk.(bindWorldToJoint := Written(sk.bindWorldToJoint, ws, inv)))
  }

  /**
   * `updateCurrentJointToWorldTransforms`: a pass from the root with the
   * identity, storing each accumulated matrix.
   */
  function UpdateCurrent(sk: Skeleton, mul: (Matrix, Matrix) -> Matrix): (r: Result<Skeleton, SkeletonError>)
    requires Indexed(sk)
    ensures r.Ok? ==> r.value == sk.(currentJointToWorld := r.value.currentJointToWorld) && Indexed(r.value)
    ensures r.Err? <==> sk.root.None? || Pass(sk.nodes, mul, sk.root.value, Identity4(), |sk.nodes|).None?
  {
    if sk.root.None? then Err(NoRoot)
    else
      match Pass(sk.nodes, mul, sk.root.value, Identity4(), |sk.nodes|)
      case None => Err(Endless)
      case Some(ws) =>
        PassInherits(sk.nodes, mul, sk.root.value, Identity4(), |sk.nodes|);
        Ok(sk.(currentJointToWorld := Written(sk.currentJointToWorld, ws, Same)))
  }

  /**
   * Right after both passes, every joint the root reaches has a bind-pose
   * matrix that is the inverse of its current-pose matrix; the others keep
   * the matrices they had.
   */
  lemma BindInvertsCurrent(sk: Skeleton, mul: (Matrix, Matrix) -> Matrix, inv: Matrix -> Matrix)
    requires Indexed(sk) && ComputeBind(sk, mul, inv).Ok?
    ensures UpdateCurrent(ComputeBind(sk, mul, inv).value, mul).Ok?
    ensures var posed := UpdateCurrent(ComputeBind(sk, mul, inv).value, mul).value;
      posed.nodes == sk.nodes && posed.root == sk.root && Indexed(posed) &&
      forall k :: 0 <= k < |sk.nodes| ==>
        (posed.bindWorldToJoint[k] == sk.bindWorldToJoint[k] && posed.currentJointToWorld[k] == sk.currentJointToWorld[k]) ||
        posed.bindWorldToJoint[k] == inv(posed.currentJointToWorld[k])
  {
    var ws := Pass(sk.nodes, mul, sk.root.value, Identity4(), |sk.nodes|).value;
    PassInherits(sk.nodes, mul, sk.root.value, Identity4(), |sk.nodes|);
    WrittenTogether(sk.bindWorldToJoint, sk.currentJointToWorld, ws, inv);
  }

  /**
   * A pass from a joint d steps below a root ends once the depth bound and
   * d together reach the joint count: each child is one step deeper, and no
   * joint below a root is deeper than the joint count allows.
   */
  lemma {:induction false} PassEndsBelow(nodes: seq<Node>, ps: seq<int>, mul: (Matrix, Matrix) -> Matrix, r: int, j: nat, d: nat, m: Matrix, fuel: nat)
    requires Family(nodes, ps) && ParentsOk(ps) && IsRoot(ps, r)
    requires j < |nodes| && Ancestor(ps, j, d) == r && fuel + d + 1 >= |nodes|
    ensures Pass(nodes, mul, j, m, fuel).Some?
    decreases fuel, 1, 0
  {
    var cs := nodes[j].children;
    assert forall i :: 0 <= i < |cs| ==> ps[cs[i]] == j by {
      forall i | 0 <= i < |cs|
        ensures ps[cs[i]] == j
      {
        assert cs[i] in cs;
      }
    }
    PassAllEndsBelow(nodes, ps, mul, r, cs, j, d, mul(m, nodes[j].transform), fuel);
  }

  lemma {:induction false} PassAllEndsBelow(nodes: seq<Node>, ps: seq<int>, mul: (Matrix, Matrix) -> Matrix, r: int, cs: seq<nat>, j: nat, d: nat, m: Matrix, fuel: nat)
    requires Family(nodes, ps) && ParentsOk(ps) && IsRoot(ps, r)
    requires Within(cs, |nodes|) && forall i :: 0 <= i < |cs| ==> ps[cs[i]] == j
    requires Ancestor(ps, j, d) == r && fuel + d + 1 >= |nodes|
    ensures PassAll(nodes, mul, cs, m, fuel).Some?
    decreases fuel, 0, |cs|
  {
    if cs != [] {
      ChildDepth(ps, r, cs[0], j, d);
      DepthBound(ps, r, cs[0], d + 1);
      PassEndsBelow(nodes, ps, mul, r, cs[0], d + 1, m, fuel - 1);
      PassAllEndsBelow(nodes, ps, mul, r, cs[1..], j, d, m, fuel);
    }
  }

  /**
   * For a file whose parents all name joints or -1 and that has a root, the
   * pass from the root ends within one step per joint, whatever order the
   * lines come in and whatever cycles the other lines form.
   */
  lemma PassFromRootEnds(lines: seq<JointLine>, mul: (Matrix, Matrix) -> Matrix, m: Matrix)
    requires forall i :: 0 <= i < |lines| ==> ParentOk(lines[i].parent, |lines|)
    requires Linking(lines).root.Some?
    ensures Indexed(Linking(lines)) && Pass(Linking(lines).nodes, mul, Linking(lines).root.value, m, |lines|).Some?
  {
    var sk := Linking(lines);
    LinkingFresh(lines);
    LinkingFamily(lines);
    LinkingRoot(lines);
    PassEndsBelow(sk.nodes, Parents(lines), mul, sk.root.value, sk.root.value, 0, m, |lines|);
  }

  // ---------------------------------------------------------------- matrix-stack traversals

  /** `push(m)` on a non-empty stack puts `top * m` on top. */
  function Push(mul: (Matrix, Matrix) -> Matrix, st: seq<Matrix>, m: Matrix): (r: seq<Matrix>)
    requires st != []
    ensures |r| == |st| + 1 && r[..|st|] == st
  {
    st + [mul(st[|st| - 1], m)]
  }

  /** `pop` removes the top. */
  function Pop(st: seq<Matrix>): (r: seq<Matrix>)
    requires st != []
    ensures |r| == |st| - 1
  {
    st[..|st| - 1]
  }

  /** What a traversal leaves: the stack, and the matrices handed to `glLoadMatrix`, in order. */
  datatype Drawn = Drawn(stack: seq<Matrix>, loads: seq<Matrix>)

  /**
   * `_drawJoint(j)`: push the joint's transform, load the top (a sphere is
   * drawn there), visit the children, pop. The stack comes back unchanged.
   */
  function DrawJoint(nodes: seq<Node>, mul: (Matrix, Matrix) -> Matrix, j: nat, st: seq<Matrix>, fuel: nat): (r: Option<Drawn>)
    requires j < |nodes| && Linked(nodes)
    requires st != []
    ensures r.Some? ==> r.value.stack == st
    decreases fuel, 1, 0
  {
    var st1 := Push(mul, st, nodes[j].transform);
    match DrawJoints(nodes, mul, nodes[j].children, st1, fuel)
    case None => None
    case Some(d) => Some(Drawn(Pop(d.stack), [st1[|st1| - 1]] + d.loads))
  }

  function DrawJoints(nodes: seq<Node>, mul: (Matrix, Matrix) -> Matrix, cs: seq<nat>, st: seq<Matrix>, fuel: nat): (r: Option<Drawn>)
    requires Within(cs, |nodes|) && Linked(nodes)
    requires st != []
    ensures r.Some? ==> r.value.stack == st
    decreases fuel, 0, |cs|
  {
    if cs == [] then Some(Drawn(st, []))
    else if fuel == 0 then None
    else
      match DrawJoint(nodes, mul, cs[0], st, fuel - 1)
      case None => None
      case Some(d) =>
        match DrawJoints(nodes, mul, cs[1..], d.stack, fuel)
        case None => None
        case Some(e) => Some(Drawn(e.stack, d.loads + e.loads))
  }

  function Matrices(ws: seq<(nat, Matrix)>): (ms: seq<Matrix>)
    ensures |ms| == |ws| && forall q :: 0 <= q < |ws| ==> ms[q] == ws[q].1
  {
    seq(|ws|, q requires 0 <= q < |ws| => ws[q].1)
  }

  lemma MatricesAppend(a: seq<(nat, Matrix)>, b: seq<(nat, Matrix)>)
    ensures Matrices(a + b) == Matrices(a) + Matrices(b)
  {
    assert Matrices(a + b) == Matrices(a) + Matrices(b);
  }

  /**
   * The spheres `_drawJoint` draws sit at the matrices the transform pass
   * accumulates from the stack's top: the same traversal, with the top of
   * the stack in place of the identity.
   */
  lemma {:induction false} DrawJointIsPass(nodes: seq<Node>, mul: (Matrix, Matrix) -> Matrix, j: nat, st: seq<Matrix>, fuel: nat)
    requires j < |nodes| && Linked(nodes)
    requires st != []
    ensures DrawJoint(nodes, mul, j, st, fuel).Some? <==> Pass(nodes, mul, j, st[|st| - 1], fuel).Some?
    ensures DrawJoint(nodes, mul, j, st, fuel).Some? ==>
      DrawJoint(nodes, mul, j, st, fuel).value.loads == Matrices(Pass(nodes, mul, j, st[|st| - 1], fuel).value)
    decreases fuel, 1, 0
  {
    var st1 := Push(mul, st, nodes[j].transform);
    DrawJointsIsPass(nodes, mul, nodes[j].children, st1, fuel);
    if DrawJoint(nodes, mul, j, st, fuel).Some? {
      var ws := PassAll(nodes, mul, nodes[j].children, st1[|st1| - 1], fuel).value;
      MatricesAppend([(j, st1[|st1| - 1])], ws);
    }
  }

  lemma {:induction false} DrawJointsIsPass(nodes: seq<Node>, mul: (Matrix, Matrix) -> Matrix, cs: seq<nat>, st: seq<Matrix>, fuel: nat)
    requires Within(cs, |nodes|) && Linked(nodes)
    requires st != []
    ensures DrawJoints(nodes, mul, cs, st, fuel).Some? <==> PassAll(nodes, mul, cs, st[|st| - 1], fuel).Some?
    ensures DrawJoints(nodes, mul, cs, st, fuel).Some? ==>
      DrawJoints(nodes, mul, cs, st, fuel).value.loads == Matrices(PassAll(nodes, mul, cs, st[|st| - 1], fuel).value)
    decreases fuel, 0, |cs|
  {
    if cs != [] && fuel > 0 {
      DrawJointIsPass(nodes, mul, cs[0], st, fuel - 1);
      DrawJointsIsPass(nodes, mul, cs[1..], st, fuel);
      if DrawJoints(nodes, mul, cs, st, fuel).Some? {
        var first := Pass(nodes, mul, cs[0], st[|st| - 1], fuel - 1).value;
        var rest := PassAll(nodes, mul, cs[1..], st[|st| - 1], fuel).value;
        MatricesAppend(first, rest);
      }
    }
  }

  /** The three matrices `_drawSkeleton` pushes for the bone to a child: translation, rotation, scaling. */
  type BoneFrames = Matrix -> (Matrix, Matrix, Matrix)

  /**
   * `_drawSkeleton(j)`: push the joint's transform and load it; for each
   * child push the three bone matrices, load (a box is drawn), pop three
   * times, and visit the child; then pop. The stack comes back unchanged.
   */
  function DrawSkeleton(nodes: seq<Node>, mul: (Matrix, Matrix) -> Matrix, bone: BoneFrames, j: nat, st: seq<Matrix>, fuel: nat): (r: Option<Drawn>)
    requires j < |nodes| && Linked(nodes)
    requires st != []
    ensures r.Some? ==> r.value.stack == st
    decreases fuel, 1, 0
  {
    var st1 := Push(mul, st, nodes[j].transform);
    match DrawBones(nodes, mul, bone, nodes[j].children, st1, fuel)
    case None => None
    case Some(d) => Some(Drawn(Pop(d.stack), [st1[|st1| - 1]] + d.loads))
  }

  /**
   * The matrix a bone's box is drawn with: the top after pushing the three
   * bone matrices. Popping them again leaves the stack as it was.
   */
  function BoxFrame(mul: (Matrix, Matrix) -> Matrix, st: seq<Matrix>, frames: (Matrix, Matrix, Matrix)): (box: Matrix)
    requires st != []
    ensures var st3 := Push(mul, Push(mul, Push(mul, st, frames.0), frames.1), frames.2);
      box == st3[|st3| - 1] && Pop(Pop(Pop(st3))) == st
  {
    var st3 := Push(mul, Push(mul, Push(mul, st, frames.0), frames.1), frames.2);
    st3[|st3| - 1]
  }

  function DrawBones(nodes: seq<Node>, mul: (Matrix, Matrix) -> Matrix, bone: BoneFrames, cs: seq<nat>, st: seq<Matrix>, fuel: nat): (r: Option<Drawn>)
    requires Within(cs, |nodes|) && Linked(nodes)
    requires st != []
    ensures r.Some? ==> r.value.stack == st
    decreases fuel, 0, |cs|
  {
    if cs == [] then Some(Drawn(st, []))
    else if fuel == 0 then None
    else
      var box := BoxFrame(mul, st, bone(nodes[cs[0]].transform));
      match DrawSkeleton(nodes, mul, bone, cs[0], st, fuel - 1)
      case None => None
      case Some(d) =>
        match DrawBones(nodes, mul, bone, cs[1..], d.stack, fuel)
        case None => None
        case Some(e) => Some(Drawn(e.stack, [box] + d.loads + e.loads))
  }

  /** A traversal that ends loads one matrix per visited joint, and `_drawSkeleton` one more per bone. */
  lemma {:induction false} DrawSkeletonLoads(nodes: seq<Node>, mul: (Matrix, Matrix) -> Matrix, bone: BoneFrames, j: nat, st: seq<Matrix>, fuel: nat)
    requires j < |nodes| && Linked(nodes)
    requires st != []
    ensures DrawSkeleton(nodes, mul, bone, j, st, fuel).Some? <==> Pass(nodes, mul, j, st[|st| - 1], fuel).Some?
    ensures DrawSkeleton(nodes, mul, bone, j, st, fuel).Some? ==>
      |DrawSkeleton(nodes, mul, bone, j, st, fuel).value.loads| == 2 * |Pass(nodes, mul, j, st[|st| - 1], fuel).value| - 1
    decreases fuel, 1, 0
  {
    var st1 := Push(mul, st, nodes[j].transform);
    DrawBonesLoads(nodes, mul, bone, nodes[j].children, st1, fuel);
  }

  lemma {:induction false} DrawBonesLoads(nodes: seq<Node>, mul: (Matrix, Matrix) -> Matrix, bone: BoneFrames, cs: seq<nat>, st: seq<Matrix>, fuel: nat)
    requires Within(cs, |nodes|) && Linked(nodes)
    requires st != []
    ensures DrawBones(nodes, mul, bone, cs, st, fuel).Some? <==> PassAll(nodes, mul, cs, st[|st| - 1], fuel).Some?
    ensures DrawBones(nodes, mul, bone, cs, st, fuel).Some? ==>
      |DrawBones(nodes, mul, bone, cs, st, fuel).value.loads| == 2 * |PassAll(nodes, mul, cs, st[|st| - 1], fuel).value|
    decreases fuel, 0, |cs|
  {
    if cs != [] && fuel > 0 {
      PassAllStep(nodes, mul, cs, st[|st| - 1], fuel);
      DrawBonesStep(nodes, mul, bone, cs, st, fuel);
      DrawSkeletonLoads(nodes, mul, bone, cs[0], st, fuel - 1);
      DrawBonesLoads(nodes, mul, bone, cs[1..], st, fuel);
    }
  }

  /** The pass over a non-empty sibling list is the pass over the first sibling followed by the pass over the rest. */
  lemma PassAllStep(nodes: seq<Node>, mul: (Matrix, Matrix) -> Matrix, cs: seq<nat>, m: Matrix, fuel: nat)
    requires Within(cs, |nodes|) && Linked(nodes) && cs != [] && fuel > 0
    ensures PassAll(nodes, mul, cs, m, fuel).Some? <==>
      Pass(nodes, mul, cs[0], m, fuel - 1).Some? && PassAll(nodes, mul, cs[1..], m, fuel).Some?
    ensures PassAll(nodes, mul, cs, m, fuel).Some? ==>
      |PassAll(nodes, mul, cs, m, fuel).value| == |Pass(nodes, mul, cs[0], m, fuel - 1).value| + |PassAll(nodes, mul, cs[1..], m, fuel).value|
  {
  }

  /** Drawing the bones to a non-empty sibling list draws the first bone and subtree, then the rest from the same stack. */
  lemma DrawBonesStep(nodes: seq<Node>, mul: (Matrix, Matrix) -> Matrix, bone: BoneFrames, cs: seq<nat>, st: seq<Matrix>, fuel: nat)
    requires Within(cs, |nodes|) && Linked(nodes) && st != [] && cs != [] && fuel > 0
    ensures DrawBones(nodes, mul, bone, cs, st, fuel).Some? <==>
      DrawSkeleton(nodes, mul, bone, cs[0], st, fuel - 1).Some? && DrawBones(nodes, mul, bone, cs[1..], st, fuel).Some?
    ensures DrawBones(nodes, mul, bone, cs, st, fuel).Some? ==>
      |DrawBones(nodes, mul, bone, cs, st, fuel).value.loads| ==
        1 + |DrawSkeleton(nodes, mul, bone, cs[0], st, fuel - 1).value.loads| + |DrawBones(nodes, mul, bone, cs[1..], st, fuel).value.loads|
  {
  }

  // ---------------------------------------------------------------- setJointTransform

  /** A rotation angle as its cosine and sine. */
  datatype Angle = Angle(cos: real, sin: real)

  function RotateX(a: Angle): (r: Matrix)
    ensures IsSquare(r, 3)
  {
    [[1.0, 0.0, 0.0], [0.0, a.cos, -a.sin], [0.0, a.sin, a.cos]]
  }

  function RotateY(a: Angle): (r: Matrix)
    ensures IsSquare(r, 3)
  {
    [[a.cos, 0.0, a.sin], [0.0, 1.0, 0.0], [-a.sin, 0.0, a.cos]]
  }

  function RotateZ(a: Angle): (r: Matrix)
    ensures IsSquare(r, 3)
  {
    [[a.cos, -a.sin, 0.0], [a.sin, a.cos, 0.0], [0.0, 0.0, 1.0]]
  }

  /** With no turn about x or y the first two factors cancel, leaving the third. */
  lemma NoTurnsLeaveThird(a: Matrix)
    requires IsSquare(a, 3)
    ensures MatMul3(MatMul3(RotateX(Angle(1.0, 0.0)), RotateY(Angle(1.0, 0.0))), a) == a
  {
    var e := MatMul3(RotateX(Angle(1.0, 0.0)), RotateY(Angle(1.0, 0.0)));
    assert e[0] == [1.0, 0.0, 0.0] && e[1] == [0.0, 1.0, 0.0] && e[2] == [0.0, 0.0, 1.0];
    var p := MatMul3(e, a);
    assert p[0] == a[0] && p[1] == a[1] && p[2] == a[2];
  }

  /** The rotation `setJointTransform` builds as written: the third angle turns about x again. */
  function EulerAsWritten(rx: Angle, ry: Angle, rz: Angle): (r: Matrix)
    ensures IsSquare(r, 3)
    ensures rx == Angle(1.0, 0.0) && ry == Angle(1.0, 0.0) ==> r == RotateX(rz)
  {
    NoTurnsLeaveThird(RotateX(rz));
    MatMul3(MatMul3(RotateX(rx), RotateY(ry)), RotateX(rz))
  }

  /** The rotation evidently intended: x, then y, then z. */
  function Euler(rx: Angle, ry: Angle, rz: Angle): (r: Matrix)
    ensures IsSquare(r, 3)
    ensures rx == Angle(1.0, 0.0) && ry == Angle(1.0, 0.0) ==> r == RotateZ(rz)
  {
    NoTurnsLeaveThird(RotateZ(rz));
    MatMul3(MatMul3(RotateX(rx), RotateY(ry)), RotateZ(rz))
  }

  function Apply3(m: Matrix, v: Vec3): Vec3
    requires IsSquare(m, 3)
  {
    Vec3(m[0][0] * v.x + m[0][1] * v.y + m[0][2] * v.z,
         m[1][0] * v.x + m[1][1] * v.y + m[1][2] * v.z,
         m[2][0] * v.x + m[2][1] * v.y + m[2][2] * v.z)
  }

  const NoTurn := Angle(1.0, 0.0)
  const QuarterTurn := Angle(0.0, 1.0)

  /**
   * A quarter turn on the z slider alone, as written, leaves the x axis
   * where it is and moves the y axis onto z: a turn about x.
   */
  lemma ZSliderTurnsAboutX()
    ensures Apply3(EulerAsWritten(NoTurn, NoTurn, QuarterTurn), Vec3(1.0, 0.0, 0.0)) == Vec3(1.0, 0.0, 0.0)
    ensures Apply3(EulerAsWritten(NoTurn, NoTurn, QuarterTurn), Vec3(0.0, 1.0, 0.0)) == Vec3(0.0, 0.0, 1.0)
  {
  }

  /** With the x and y angles at zero, the corrected rotation turns about z: z stays, x goes to `(cos, sin, 0)`. */
  lemma ZSliderTurnsAboutZ(rz: Angle)
    ensures Apply3(Euler(NoTurn, NoTurn, rz), Vec3(0.0, 0.0, 1.0)) == Vec3(0.0, 0.0, 1.0)
    ensures Apply3(Euler(NoTurn, NoTurn, rz), Vec3(1.0, 0.0, 0.0)) == Vec3(rz.cos, rz.sin, 0.0)
  {
  }

  /** The transform with its upper-left 3x3 replaced by rot. */
  function WithRotation(t: Matrix, rot: Matrix): (r: Matrix)
    requires IsSquare(t, 4) && IsSquare(rot, 3)
    ensures IsSquare(r, 4)
  {
    seq(4, i requires 0 <= i < 4 => seq(4, j requires 0 <= j < 4 => if i < 3 && j < 3 then rot[i][j] else t[i][j]))
  }

  /**
   * `setJointTransform(jointIndex, rX, rY, rZ)` with the rotation built by
   * `rotation`: only the upper-left 3x3 of that joint's transform changes.
   */
  function SetJointTransform(sk: Skeleton, index: int, rot: Matrix): (r: Result<Skeleton, SkeletonError>)
    requires Shaped(sk) && IsSquare(rot, 3)
    ensures r.Err? <==> !(0 <= index < |sk.nodes|)
    ensures r.Ok? ==> Shaped(r.value) && |r.value.nodes| == |sk.nodes|
    ensures r.Ok? ==>
      var t, t' := sk.nodes[index].transform, r.value.nodes[index].transform;
      r.value == sk.(nodes := sk.nodes[index := Node(t', sk.nodes[index].children)]) &&
      forall i, j :: 0 <= i < 4 && 0 <= j < 4 ==> t'[i][j] == if i < 3 && j < 3 then rot[i][j] else t[i][j]
  {
    if !(0 <= index < |sk.nodes|) then Err(NoJoint)
    else Ok(sk.(nodes := sk.nodes[index := sk.nodes[index].(transform := WithRotation(sk.nodes[index].transform, rot))]))
  }

  /** Setting the same rotation twice is the same as setting it once. */
  lemma SetJointTransformIdempotent(sk: Skeleton, index: int, rot: Matrix)
    requires Shaped(sk) && IsSquare(rot, 3) && 0 <= index < |sk.nodes|
    ensures SetJointTransform(SetJointTransform(sk, index, rot).value, index, rot) == SetJointTransform(sk, index, rot)
  {
    var t := sk.nodes[index].transform;
    var t1 := WithRotation(t, rot);
    forall i | 0 <= i < 4
      ensures WithRotation(t1, rot)[i] == t1[i]
    {
    }
    assert WithRotation(t1, rot) == t1;
    var once := SetJointTransform(sk, index, rot).value;
    assert once.nodes[index] == sk.nodes[index].(transform := t1);
    assert once.nodes[index].(transform := WithRotation(once.nodes[index].transform, rot)) == once.nodes[index];
    assert once.nodes[index := once.nodes[index]] == once.nodes;
  }

  /**
   * `setJointTransform(jointIndex, rX, rY, rZ)` as written: the joint's
   * rotation becomes `EulerAsWritten`, so with the x and y angles at no turn
   * the z angle turns the joint about x; every other joint is left alone.
   */
  function SetJointTransformAsWritten(sk: Skeleton, index: int, rx: Angle, ry: Angle, rz: Angle): (r: Result<Skeleton, SkeletonError>)
    requires Shaped(sk)
    ensures r.Err? <==> !(0 <= index < |sk.nodes|)
    ensures r.Ok? ==> Shaped(r.value) && |r.value.nodes| == |sk.nodes|
    ensures r.Ok? ==> forall k :: 0 <= k < |sk.nodes| && k != index ==> r.value.nodes[k] == sk.nodes[k]
    ensures r.Ok? && rx == NoTurn && ry == NoTurn ==>
      forall i, j :: 0 <= i < 3 && 0 <= j < 3 ==> r.value.nodes[index].transform[i][j] == RotateX(rz)[i][j]
  {
    SetJointTransform(sk, index, EulerAsWritten(rx, ry, rz))
  }

  // ---------------------------------------------------------------- updateMesh

  /** Every current vertex has a bind vertex and a weight row with an entry per joint. */
  predicate Covered(numJoints: nat, mesh: SkinMesh)
  {
    |mesh.currentVertices| <= |mesh.bindVertices| && |mesh.currentVertices| <= |mesh.attachments| &&
    forall i :: 0 <= i < |mesh.currentVertices| ==> |mesh.attachments[i]| >= numJoints
  }

  /** Entry (i, j) of a matrix, 0 where the matrix has none. */
  function Entry(a: Matrix, i: nat, j: nat): real
  {
    if i < |a| && j < |a[i]| then a[i][j] else 0.0
  }

  /** The product `a * v` of a 4x4 matrix and a homogeneous vector. */
  function MatVec4(a: Matrix, v: Vec4): Vec4
  {
    Vec4(Entry(a, 0, 0) * v.x + Entry(a, 0, 1) * v.y + Entry(a, 0, 2) * v.z + Entry(a, 0, 3) * v.w,
         Entry(a, 1, 0) * v.x + Entry(a, 1, 1) * v.y + Entry(a, 1, 2) * v.z + Entry(a, 1, 3) * v.w,
         Entry(a, 2, 0) * v.x + Entry(a, 2, 1) * v.y + Entry(a, 2, 2) * v.z + Entry(a, 2, 3) * v.w,
         Entry(a, 3, 0) * v.x + Entry(a, 3, 1) * v.y + Entry(a, 3, 2) * v.z + Entry(a, 3, 3) * v.w)
  }

  /** The identity matrix leaves every vector unchanged. */
  lemma MatVecIdentity(v: Vec4)
    ensures MatVec4(Identity4(), v) == v
  {
    var e := Identity4();
    assert e[0] == [1.0, 0.0, 0.0, 0.0] && e[1] == [0.0, 1.0, 0.0, 0.0];
    assert e[2] == [0.0, 0.0, 1.0, 0.0] && e[3] == [0.0, 0.0, 0.0, 1.0];
  }

  /** Where joint j carries a bind-pose point: `currentJointToWorld * bindWorldToJoint * p`. */
  function Carried(sk: Skeleton, mul: (Matrix, Matrix) -> Matrix, j: nat, p: Vec4): Vec4
    requires Indexed(sk) && j < |sk.nodes|
  {
    MatVec4(mul(sk.currentJointToWorld[j], sk.bindWorldToJoint[j]), p)
  }

  /** The skinning sum over the first k joints, accumulated from the zero vector: `v = v + w[j] * (t * binv * p)`. */
  function SkinSum(sk: Skeleton, mul: (Matrix, Matrix) -> Matrix, w: seq<real>, p: Vec4, k: nat): (v: Vec4)
    requires Indexed(sk) && k <= |sk.nodes| && k <= |w|
    ensures (forall j :: 0 <= j < k ==> w[j] == 0.0) ==> v == Zero4
  {
    if k == 0 then Zero4
    else Add4(SkinSum(sk, mul, w, p, k - 1), Scale4(w[k - 1], Carried(sk, mul, k - 1, p)))
  }

  /**
   * `updateMesh`: every current vertex becomes the projection of the
   * skinning sum over all joints of its bind vertex, weighted by its row of
   * attachments. Reading past the bind vertices or a weight row shorter than
   * the joint count is out of range.
   */
  function UpdateMesh(sk: Skeleton, mesh: SkinMesh, mul: (Matrix, Matrix) -> Matrix): (r: Result<SkinMesh, SkeletonError>)
    requires Indexed(sk)
    ensures r.Ok? <==> Covered(|sk.nodes|, mesh)
    ensures r.Ok? ==> r.value == mesh.(currentVertices := r.value.currentVertices)
    ensures r.Ok? ==> |r.value.currentVertices| == |mesh.currentVertices|
  {
    var n := |mesh.currentVertices|;
    if !Covered(|sk.nodes|, mesh) then
      Err(ShortAttachments)
    else
      Ok(mesh.(currentVertices := seq(n, i requires 0 <= i < n =>
        Project(SkinSum(sk, mul, mesh.attachments[i], Expand(mesh.bindVertices[i]), |sk.nodes|)))))
  }

  /** When every joint's current and bind transforms cancel, the skinning sum is the point scaled by the total weight. */
  lemma {:induction false} SkinAtBindPose(sk: Skeleton, mul: (Matrix, Matrix) -> Matrix, w: seq<real>, p: Vec4, k: nat)
    requires Indexed(sk) && k <= |sk.nodes| && k <= |w|
    requires forall j :: 0 <= j < k ==> mul(sk.currentJointToWorld[j], sk.bindWorldToJoint[j]) == Identity4()
    ensures SkinSum(sk, mul, w, p, k) == Scale4(WeightSum(w, k), p)
  {
    if k > 0 {
      SkinAtBindPose(sk, mul, w, p, k - 1);
      MatVecIdentity(p);
      ScalesAdd(WeightSum(w, k - 1), w[k - 1], p);
    } else {
      assert Scale4(0.0, p) == Zero4;
    }
  }

  /**
   * In the bind pose (every joint's current transform undoes its bind
   * transform) with each vertex's weights summing to one, `updateMesh` puts
   * every vertex back at its bind position.
   */
  lemma UpdateMeshAtBindPose(sk: Skeleton, mesh: SkinMesh, mul: (Matrix, Matrix) -> Matrix)
    requires Indexed(sk) && Covered(|sk.nodes|, mesh)
    requires forall j :: 0 <= j < |sk.nodes| ==> mul(sk.currentJointToWorld[j], sk.bindWorldToJoint[j]) == Identity4()
    requires forall i :: 0 <= i < |mesh.currentVertices| ==> WeightSum(mesh.attachments[i], |sk.nodes|) == 1.0
    ensures UpdateMesh(sk, mesh, mul).Ok?
    ensures forall i :: 0 <= i < |mesh.currentVertices| ==> UpdateMesh(sk, mesh, mul).value.currentVertices[i] == mesh.bindVertices[i]
  {
    forall i | 0 <= i < |mesh.currentVertices|
      ensures UpdateMesh(sk, mesh, mul).value.currentVertices[i] == mesh.bindVertices[i]
    {
      var p := Expand(mesh.bindVertices[i]);
      SkinAtBindPose(sk, mul, mesh.attachments[i], p, |sk.nodes|);
      assert Scale4(1.0, p) == p;
      ProjectExpand(mesh.bindVertices[i]);
    }
  }

  /** A weight row with weight 1 on joint j and 0 elsewhere sums to where joint j carries the point. */
  lemma {:induction false} SkinOneJoint(sk: Skeleton, mul: (Matrix, Matrix) -> Matrix, w: seq<real>, p: Vec4, j: nat, k: nat)
    requires Indexed(sk) && k <= |sk.nodes| && k <= |w| && j < |sk.nodes| && j < |w|
    requires w[j] == 1.0 && forall i :: 0 <= i < |w| && i != j ==> w[i] == 0.0
    ensures SkinSum(sk, mul, w, p, k) == if j < k then Carried(sk, mul, j, p) else Zero4
  {
    if k > 0 {
      SkinOneJoint(sk, mul, w, p, j, k - 1);
      var c := Carried(sk, mul, k - 1, p);
      assert SkinSum(sk, mul, w, p, k) == Add4(SkinSum(sk, mul, w, p, k - 1), Scale4(w[k - 1], c));
      if k - 1 == j {
        assert Scale4(1.0, c) == c;
      } else {
        assert Scale4(0.0, c) == Zero4;
      }
    }
  }

  /** A vertex attached to a single joint moves rigidly with that joint. */
  lemma UpdateMeshRigid(sk: Skeleton, mesh: SkinMesh, mul: (Matrix, Matrix) -> Matrix, i: nat, j: nat)
    requires Indexed(sk) && Covered(|sk.nodes|, mesh) && i < |mesh.currentVertices| && j < |sk.nodes|
    requires mesh.attachments[i][j] == 1.0
    requires forall k :: 0 <= k < |mesh.attachments[i]| && k != j ==> mesh.attachments[i][k] == 0.0
    ensures UpdateMesh(sk, mesh, mul).Ok?
    ensures UpdateMesh(sk, mesh, mul).value.currentVertices[i] == Project(Carried(sk, mul, j, Expand(mesh.bindVertices[i])))
  {
    SkinOneJoint(sk, mul, mesh.attachments[i], Expand(mesh.bindVertices[i]), j, |sk.nodes|);
  }

  // ---------------------------------------------------------------- load

  datatype Model = Model(skeleton: Skeleton, mesh: SkinMesh)

  datatype ModelError = SkeletonFile(e: SkeletonError) | AttachmentsFile(a: SkinError)

  /**
   * `SkeletalModel::load`: the skeleton, the mesh, the attachments with one
   * weight per joint, then the bind-pose pass and the current-pose pass.
   */
  method LoadModel(skeletonLines: seq<JointLine>, meshLines: seq<MeshLine>, attachmentLines: seq<seq<real>>,
                   mul: (Matrix, Matrix) -> Matrix, inv: Matrix -> Matrix) returns (r: Result<Model, ModelError>)
    requires UnsignedFaces(meshLines)
    ensures r.Ok? ==> Indexed(r.value.skeleton) && |r.value.skeleton.nodes| == |skeletonLines|
    ensures r.Ok? ==> r.value.mesh.bindVertices == Vertices(meshLines) && r.value.mesh.faces == Faces(meshLines)
    ensures r.Ok? ==> r.value.mesh.currentVertices == r.value.mesh.bindVertices
    ensures r.Ok? ==> |r.value.mesh.attachments| == |attachmentLines|
    ensures r.Ok? ==> forall q :: 0 <= q < |attachmentLines| ==>
      |r.value.mesh.attachments[q]| == |skeletonLines| && r.value.mesh.attachments[q] == Row(attachmentLines[q], |skeletonLines|)
    ensures r.Ok? ==> BindsInverse(r.value.skeleton, inv)
    ensures r.Ok? <==> (forall i :: 0 <= i < |skeletonLines| ==> ParentOk(skeletonLines[i].parent, |skeletonLines|)) &&
                       (exists i :: 0 <= i < |skeletonLines| && skeletonLines[i].parent == -1)
  {
    var loaded := LoadSkeleton(skeletonLines);
    if loaded.Err? {
      return Err(SkeletonFile(loaded.error));
    }
    var sk := loaded.value;
    LinkingFresh(skeletonLines);
    LinkingRoot(skeletonLines);
    var mesh := LoadSkin(meshLines, attachmentLines, |sk.nodes|);
    if mesh.Err? {
      return Err(AttachmentsFile(mesh.error));
    }
    if sk.root.Some? {
      LinkingPoses(skeletonLines, mul, inv);
    }
    var posed := Pose(sk, mul, inv);
    if posed.Err? {
      return Err(SkeletonFile(posed.error));
    }
    PoseBindsInverse(sk, mul, inv);
    return Ok(Model(posed.value, mesh.value));
  }

  /** `m_mesh.load(meshFile)` then `m_mesh.loadAttachments(attachmentsFile, numJoints)` on a fresh mesh. */
  method LoadSkin(meshLines: seq<MeshLine>, attachmentLines: seq<seq<real>>, numJoints: nat) returns (r: Result<SkinMesh, SkinError>)
    requires UnsignedFaces(meshLines)
    ensures r.Err? <==> numJoints == 0 && attachmentLines != []
    ensures r.Ok? ==> r.value.bindVertices == Vertices(meshLines) && r.value.faces == Faces(meshLines)
    ensures r.Ok? ==> r.value.currentVertices == r.value.bindVertices
    ensures r.Ok? ==> |r.value.attachments| == |attachmentLines|
    ensures r.Ok? ==> forall q :: 0 <= q < |attachmentLines| ==> r.value.attachments[q] == Row(attachmentLines[q], numJoints)
  {
    var mesh := Load(EmptyMesh, meshLines);
    r := LoadAttachments(mesh, attachmentLines, numJoints);
  }

  /** A freshly linked skeleton is indexed, has one joint per line and every matrix at its default. */
  lemma LinkingFresh(lines: seq<JointLine>)
    ensures Indexed(Linking(lines)) && |Linking(lines).nodes| == |lines| && AllDefault(Linking(lines))
  {
    LinkingSpec(lines);
  }

  /** `computeBindWorldToJointTransforms` followed by `updateCurrentJointToWorldTransforms`. */
  function Pose(sk: Skeleton, mul: (Matrix, Matrix) -> Matrix, inv: Matrix -> Matrix): (r: Result<Skeleton, SkeletonError>)
    requires Indexed(sk)
    ensures r.Ok? ==> r.value.nodes == sk.nodes && r.value.root == sk.root && Indexed(r.value)
    ensures r.Err? <==> sk.root.None? || Pass(sk.nodes, mul, sk.root.value, Identity4(), |sk.nodes|).None?
  {
    match ComputeBind(sk, mul, inv)
    case Err(e) => Err(e)
    case Ok(bound) => UpdateCurrent(bound, mul)
  }

  /** Posing a skeleton whose matrices all hold the default binds every joint's inverse. */
  lemma PoseBindsInverse(sk: Skeleton, mul: (Matrix, Matrix) -> Matrix, inv: Matrix -> Matrix)
    requires Indexed(sk) && AllDefault(sk)
    ensures Pose(sk, mul, inv).Ok? ==> BindsInverse(Pose(sk, mul, inv).value, inv)
  {
    if ComputeBind(sk, mul, inv).Ok? {
      BindInvertsCurrent(sk, mul, inv);
      DefaultsBound(sk, Pose(sk, mul, inv).value, inv);
    }
  }

  /** A file whose parents all name joints or -1 and that names a root poses without error. */
  lemma LinkingPoses(lines: seq<JointLine>, mul: (Matrix, Matrix) -> Matrix, inv: Matrix -> Matrix)
    requires forall i :: 0 <= i < |lines| ==> ParentOk(lines[i].parent, |lines|)
    requires exists i :: 0 <= i < |lines| && lines[i].parent == -1
    ensures Indexed(Linking(lines)) && Pose(Linking(lines), mul, inv).Ok?
  {
    LinkingRoot(lines);
    PassFromRootEnds(lines, mul, Identity4());
  }

  /** Every joint's bind matrix inverts its current matrix, unless both still hold the default. */
  ghost predicate BindsInverse(sk: Skeleton, inv: Matrix -> Matrix)
  {
    Indexed(sk) &&
    forall k :: 0 <= k < |sk.nodes| ==>
      (sk.bindWorldToJoint[k] == Default4 && sk.currentJointToWorld[k] == Default4) ||
      sk.bindWorldToJoint[k] == inv(sk.currentJointToWorld[k])
  }

  /** Every bind and current matrix holds the default. */
  ghost predicate AllDefault(sk: Skeleton)
    requires Indexed(sk)
  {
    forall k :: 0 <= k < |sk.nodes| ==> sk.bindWorldToJoint[k] == Default4 && sk.currentJointToWorld[k] == Default4
  }

  /** Starting from defaults, a pose whose every joint kept its matrices or was bound to their inverse binds inverses. */
  lemma DefaultsBound(sk: Skeleton, posed: Skeleton, inv: Matrix -> Matrix)
    requires Indexed(sk) && AllDefault(sk) && Indexed(posed) && posed.nodes == sk.nodes
    requires forall k :: 0 <= k < |sk.nodes| ==>
        (posed.bindWorldToJoint[k] == sk.bindWorldToJoint[k] && posed.currentJointToWorld[k] == sk.currentJointToWorld[k]) ||
        posed.bindWorldToJoint[k] == inv(posed.currentJointToWorld[k])
    ensures BindsInverse(posed, inv)
  {
  }
}
