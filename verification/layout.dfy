/** A concrete placement of a scene: per object its node type, graph node,
    parent object, local position and rotation about the vertical axis; per
    path its polyline and parent path. Parent links are indices, -1 (any
    negative value) meaning "no parent". */
module Layouts {
  import opened Wrappers
  import opened Seqs

  /** `Vector3`, with reals for floats. */
  datatype Vec3 = Vec3(x: real, y: real, z: real)

  /** `SceneLayout.ObjectInfo`. */
  datatype ObjectInfo = ObjectInfo(
    nodeType: string,
    correspondsToNodeIndex: int,
    parentIndex: int,
    position: Vec3,
    rotationY: real)

  /** `SceneLayout.PathInfo`. */
  datatype PathInfo = PathInfo(nodePositions: seq<Vec3>, parentIndex: int)

  datatype SceneLayout = SceneLayout(objects: seq<ObjectInfo>, paths: seq<PathInfo>)

  /** `Copy`: a new layout with new arrays holding the same records. */
  function Copy(l: SceneLayout): (r: SceneLayout)
    ensures |r.objects| == |l.objects| && |r.paths| == |l.paths|
    ensures forall k :: 0 <= k < |l.objects| ==> r.objects[k] == l.objects[k]
    ensures forall k :: 0 <= k < |l.paths| ==>
      r.paths[k].nodePositions == l.paths[k].nodePositions && r.paths[k].parentIndex == l.paths[k].parentIndex
  {
    SceneLayout(l.objects[..],
      seq(|l.paths|, k requires 0 <= k < |l.paths| => PathInfo(l.paths[k].nodePositions[..], l.paths[k].parentIndex)))
  }

  /** A copy is indistinguishable from its original. */
  lemma CopyIsIdentity(l: SceneLayout)
    ensures Copy(l) == l
  {
    assert Copy(l).paths == l.paths;
  }

  // ---------------------------------------------------------------------
  // Parent links of paths
  // ---------------------------------------------------------------------

  /** A path whose parent index is negative is a root. */
  predicate IsRoot(paths: seq<PathInfo>, i: int) {
    0 <= i < |paths| && paths[i].parentIndex < 0
  }

  /** Every parent index is below the number of paths. */
  predicate LinksInRange(paths: seq<PathInfo>) {
    forall i :: 0 <= i < |paths| ==> paths[i].parentIndex < |paths|
  }

  /** One step up the parent links; a root (or an index outside the
      array) stays where it is. */
  function Up1(paths: seq<PathInfo>, i: int): int {
    if 0 <= i < |paths| && paths[i].parentIndex >= 0 then paths[i].parentIndex else i
  }

  /** The ancestor k steps up from path i. */
  function Up(paths: seq<PathInfo>, i: int, k: nat): int
    decreases k
  {
    if k == 0 then i else Up(paths, Up1(paths, i), k - 1)
  }

  /** c lies on the chain of parents from p (p itself included). */
  ghost predicate OnChain(paths: seq<PathInfo>, p: int, c: int) {
    exists k: nat :: Up(paths, p, k) == c
  }

  /** From path i, following parents eventually reaches a root. */
  ghost predicate ReachesRoot(paths: seq<PathInfo>, i: int) {
    exists k: nat :: IsRoot(paths, Up(paths, i, k))
  }

  /** Parent links form a forest: every link is in range and every path
      reaches a root. */
  ghost predicate Acyclic(paths: seq<PathInfo>) {
    LinksInRange(paths) && forall i :: 0 <= i < |paths| ==> ReachesRoot(paths, i)
  }

  lemma {:induction false} UpAdd(paths: seq<PathInfo>, i: int, a: nat, b: nat)
    ensures Up(paths, i, a + b) == Up(paths, Up(paths, i, a), b)
    decreases a
  {
    if a > 0 {
      UpAdd(paths, Up1(paths, i), a - 1, b);
    }
  }

  lemma {:induction false} UpOfRoot(paths: seq<PathInfo>, i: int, k: nat)
    requires IsRoot(paths, i)
    ensures Up(paths, i, k) == i
  {
    if k > 0 {
      UpOfRoot(paths, i, k - 1);
    }
  }

  lemma {:induction false} UpInRange(paths: seq<PathInfo>, i: int, k: nat)
    requires LinksInRange(paths) && 0 <= i < |paths|
    ensures 0 <= Up(paths, i, k) < |paths|
    decreases k
  {
    if k > 0 {
      UpInRange(paths, Up1(paths, i), k - 1);
    }
  }

  /** Among the first n + 1 ancestors of a path some index repeats, when
      all of them lie in an array of n paths. */
  lemma Pigeonhole(paths: seq<PathInfo>, i: int) returns (a: nat, b: nat)
    requires forall k :: 0 <= k <= |paths| ==> 0 <= Up(paths, i, k) < |paths|
    ensures a < b <= |paths| && Up(paths, i, a) == Up(paths, i, b)
  {
    var n := |paths|;
    var s: seq<int> := seq(n + 1, k requires 0 <= k <= n => Up(paths, i, k));
    var l: seq<int> := Range(0, n);
    if Distinct(s) {
      forall k | 0 <= k < |s|
        ensures s[k] in l
      {
        assert l[s[k]] == s[k];
      }
      DistinctWithinLength(s, l);
      assert false;
    }
    a, b :| 0 <= a < b < |s| && s[a] == s[b];
  }

  /** A repeat in the ancestors makes them periodic from there on. */
  lemma Periodic(paths: seq<PathInfo>, i: int, a: nat, b: nat, k: nat)
    requires a < b <= k && Up(paths, i, a) == Up(paths, i, b)
    ensures Up(paths, i, k) == Up(paths, i, k - (b - a))
  {
    UpAdd(paths, i, b, k - b);
    UpAdd(paths, i, a, k - b);
  }

  /** In a forest, n steps up from any path reach a root. */
  lemma {:induction false} RootWithin(paths: seq<PathInfo>, i: int, k: nat)
    requires LinksInRange(paths) && 0 <= i < |paths| && IsRoot(paths, Up(paths, i, k))
    ensures IsRoot(paths, Up(paths, i, |paths|))
    decreases k
  {
    if k <= |paths| {
      UpAdd(paths, i, k, |paths| - k);
      UpOfRoot(paths, Up(paths, i, k), |paths| - k);
    } else {
      forall j | 0 <= j <= |paths|
        ensures 0 <= Up(paths, i, j) < |paths|
      {
        UpInRange(paths, i, j);
      }
      var a, b := Pigeonhole(paths, i);
      Periodic(paths, i, a, b, k);
      RootWithin(paths, i, k - (b - a));
    }
  }

  // ---------------------------------------------------------------------
  // CouldBeParentPathIndex
  // ---------------------------------------------------------------------

  /** How the recursion of `CouldBeParentPathIndex` can fail: an index
      outside the path array, or a walk that goes on for more steps than
      there are paths (where the program recurses until its stack is
      exhausted). */
  datatype WalkError = IndexOutOfRange | Unbounded

  /** The recursion of `CouldBeParentPathIndex` with at most `fuel` further
      steps up. */
  function ParentWalk(paths: seq<PathInfo>, p: int, c: int, fuel: nat): (r: Result<bool, WalkError>)
    ensures p == c ==> r == Success(false)
    decreases fuel
  {
    if p == c then Success(false)
    else if p < 0 || p >= |paths| then Failure(IndexOutOfRange)
    else if paths[p].parentIndex < 0 then Success(true)
    else if fuel == 0 then Failure(Unbounded)
    else ParentWalk(paths, paths[p].parentIndex, c, fuel - 1)
  }

  /** `CouldBeParentPathIndex(p, c)`: path p may become the parent of path
      c when c is not p and not an ancestor of p. */
  function CouldBeParent(paths: seq<PathInfo>, p: int, c: int): Result<bool, WalkError> {
    ParentWalk(paths, p, c, |paths|)
  }

  /** Whatever the links, an answer is right: true exactly when c is not on
      the chain from p to its root. */
  lemma {:induction false} ParentWalkSound(paths: seq<PathInfo>, p: int, c: int, fuel: nat)
    ensures ParentWalk(paths, p, c, fuel).Success? ==>
      (ParentWalk(paths, p, c, fuel).value <==> !OnChain(paths, p, c))
    decreases fuel
  {
    var r := ParentWalk(paths, p, c, fuel);
    if p == c {
      assert Up(paths, p, 0) == c;
    } else if 0 <= p < |paths| && paths[p].parentIndex < 0 {
      forall k: nat ensures Up(paths, p, k) != c {
        UpOfRoot(paths, p, k);
      }
    } else if 0 <= p < |paths| && fuel > 0 {
      var q := paths[p].parentIndex;
      ParentWalkSound(paths, q, c, fuel - 1);
      if r.Success? {
        if OnChain(paths, p, c) {
          var k: nat :| Up(paths, p, k) == c;
          assert k > 0 && Up(paths, q, k - 1) == c;
        }
        if OnChain(paths, q, c) {
          var k: nat :| Up(paths, q, k) == c;
          assert Up(paths, p, k + 1) == c;
        }
      }
    }
  }

  /** A walk that reaches a root within its fuel, through in-range links,
      never fails. */
  lemma {:induction false} ParentWalkSucceeds(paths: seq<PathInfo>, p: int, c: int, fuel: nat)
    requires LinksInRange(paths) && 0 <= p < |paths| && IsRoot(paths, Up(paths, p, fuel))
    ensures ParentWalk(paths, p, c, fuel).Success?
    decreases fuel
  {
    if p != c && paths[p].parentIndex >= 0 {
      if fuel == 0 {
        assert false;
      }
      ParentWalkSucceeds(paths, paths[p].parentIndex, c, fuel - 1);
    }
  }

  /** `CouldBeParentPathIndex(p, p)` is false; and in a forest, for every
      path p, `CouldBeParentPathIndex(p, c)` answers without error, true
      exactly when c is not on the chain from p up to its root. */
  lemma CouldBeParentSpec(paths: seq<PathInfo>, p: int, c: int)
    ensures CouldBeParent(paths, p, p) == Success(false)
    ensures Acyclic(paths) && 0 <= p < |paths| ==> CouldBeParent(paths, p, c) == Success(!OnChain(paths, p, c))
  {
    if Acyclic(paths) && 0 <= p < |paths| {
      assert ReachesRoot(paths, p);
      var k: nat :| IsRoot(paths, Up(paths, p, k));
      RootWithin(paths, p, k);
      ParentWalkSucceeds(paths, p, c, |paths|);
      ParentWalkSound(paths, p, c, |paths|);
    }
  }

  /** A walk that runs out of fuel stands for a recursion that never ends:
      its first fuel + 1 steps all continue upward. */
  lemma {:induction false} OutOfFuelSteps(paths: seq<PathInfo>, p: int, c: int, fuel: nat, k: nat)
    requires ParentWalk(paths, p, c, fuel) == Failure(Unbounded) && k <= fuel
    ensures Continues(paths, c, Up(paths, p, k))
    decreases fuel
  {
    if k > 0 {
      OutOfFuelSteps(paths, paths[p].parentIndex, c, fuel - 1, k - 1);
    }
  }

  /** At j the recursion goes on: j is not c, and j is an in-range path
      with a parent. */
  predicate Continues(paths: seq<PathInfo>, c: int, j: int) {
    j != c && 0 <= j < |paths| && paths[j].parentIndex >= 0
  }

  /** When the model reports `Unbounded`, the recursion of the program
      never returns: every ancestor of p continues upward. */
  lemma UnboundedNeverReturns(paths: seq<PathInfo>, p: int, c: int, k: nat)
    requires CouldBeParent(paths, p, c) == Failure(Unbounded)
    ensures Continues(paths, c, Up(paths, p, k))
  {
    var n := |paths|;
    forall j | 0 <= j <= n
      ensures 0 <= Up(paths, p, j) < n
    {
      OutOfFuelSteps(paths, p, c, n, j);
    }
    var a, b := Pigeonhole(paths, p);
    ContinuesForever(paths, p, c, a, b, k);
  }

  lemma {:induction false} ContinuesForever(paths: seq<PathInfo>, p: int, c: int, a: nat, b: nat, k: nat)
    requires CouldBeParent(paths, p, c) == Failure(Unbounded)
    requires a < b <= |paths| && Up(paths, p, a) == Up(paths, p, b)
    ensures Continues(paths, c, Up(paths, p, k))
    decreases k
  {
    if k <= |paths| {
      OutOfFuelSteps(paths, p, c, |paths|, k);
    } else {
      Periodic(paths, p, a, b, k);
      ContinuesForever(paths, p, c, a, b, k - (b - a));
    }
  }

  // ---------------------------------------------------------------------
  // Re-parenting
  // ---------------------------------------------------------------------

  /** `Paths[c].ParentIndex = p`. */
  function SetParent(paths: seq<PathInfo>, c: nat, p: int): (r: seq<PathInfo>)
    requires c < |paths|
    ensures |r| == |paths| && r[c].parentIndex == p && r[c].nodePositions == paths[c].nodePositions
    ensures forall i :: 0 <= i < |paths| && i != c ==> r[i] == paths[i]
  {
    paths[c := paths[c].(parentIndex := p)]
  }

  /** Away from c, the new links agree with the old ones. */
  lemma {:induction false} UpAvoiding(paths: seq<PathInfo>, c: nat, p: int, i: int, k: nat)
    requires c < |paths|
    requires forall j :: 0 <= j < k ==> Up(paths, i, j) != c
    ensures Up(SetParent(paths, c, p), i, k) == Up(paths, i, k)
    decreases k
  {
    if k > 0 {
      assert Up(paths, i, 0) == i;
      forall j | 0 <= j < k - 1
        ensures Up(paths, Up1(paths, i), j) != c
      {
        assert Up(paths, i, j + 1) == Up(paths, Up1(paths, i), j);
      }
      UpAvoiding(paths, c, p, Up1(paths, i), k - 1);
    }
  }

  /** After re-parenting c under p, p still reaches a root. */
  lemma ParentStillReachesRoot(paths: seq<PathInfo>, c: nat, p: nat)
    requires Acyclic(paths) && c < |paths| && p < |paths| && !OnChain(paths, p, c)
    ensures ReachesRoot(SetParent(paths, c, p), p)
  {
    assert ReachesRoot(paths, p);
    var k: nat :| IsRoot(paths, Up(paths, p, k));
    UpAvoiding(paths, c, p, p, k);
    assert Up(paths, p, k) != c;
    assert IsRoot(SetParent(paths, c, p), Up(SetParent(paths, c, p), p, k));
  }

  lemma {:induction false} StillReachesRoot(paths: seq<PathInfo>, c: nat, p: nat, i: int, k: nat)
    requires Acyclic(paths) && c < |paths| && p < |paths| && !OnChain(paths, p, c)
    requires 0 <= i < |paths| && IsRoot(paths, Up(paths, i, k))
    ensures ReachesRoot(SetParent(paths, c, p), i)
    decreases k
  {
    var q := SetParent(paths, c, p);
    if i == c {
      ParentStillReachesRoot(paths, c, p);
      var m: nat :| IsRoot(q, Up(q, p, m));
      assert Up(q, c, m + 1) == Up(q, p, m);
    } else if paths[i].parentIndex < 0 {
      assert Up(q, i, 0) == i;
    } else {
      var j := paths[i].parentIndex;
      assert k > 0 && Up(paths, j, k - 1) == Up(paths, i, k);
      StillReachesRoot(paths, c, p, j, k - 1);
      var m: nat :| IsRoot(q, Up(q, j, m));
      assert Up(q, i, m + 1) == Up(q, j, m);
    }
  }

  /** Re-parenting a path c under a path p that `CouldBeParentPathIndex`
      accepts keeps the parent links a forest. */
  lemma ReparentKeepsAcyclic(paths: seq<PathInfo>, c: nat, p: nat)
    requires Acyclic(paths) && c < |paths| && p < |paths|
    requires CouldBeParent(paths, p, c) == Success(true)
    ensures Acyclic(SetParent(paths, c, p))
  {
    CouldBeParentSpec(paths, p, c);
    var q := SetParent(paths, c, p);
    forall i | 0 <= i < |q|
      ensures ReachesRoot(q, i)
    {
      assert ReachesRoot(paths, i);
      var k: nat :| IsRoot(paths, Up(paths, i, k));
      StillReachesRoot(paths, c, p, i, k);
    }
  }

  /** The links are all that matter: paths with the same parent indices
      are equally acyclic, whatever their vertices. */
  lemma {:induction false} SameLinksSameUp(a: seq<PathInfo>, b: seq<PathInfo>, i: int, k: nat)
    requires |a| == |b| && forall j :: 0 <= j < |a| ==> a[j].parentIndex == b[j].parentIndex
    ensures Up(a, i, k) == Up(b, i, k)
    decreases k
  {
    if k > 0 {
      SameLinksSameUp(a, b, Up1(a, i), k - 1);
    }
  }

  lemma AcyclicLinksOnly(a: seq<PathInfo>, b: seq<PathInfo>)
    requires |a| == |b| && forall j :: 0 <= j < |a| ==> a[j].parentIndex == b[j].parentIndex
    requires Acyclic(a)
    ensures Acyclic(b)
  {
    forall i | 0 <= i < |b|
      ensures ReachesRoot(b, i)
    {
      assert ReachesRoot(a, i);
      var k: nat :| IsRoot(a, Up(a, i, k));
      SameLinksSameUp(a, b, i, k);
      assert IsRoot(b, Up(b, i, k));
    }
  }
}
