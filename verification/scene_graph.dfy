/** The scene relationship graph: a graph whose node labels are
    hierarchical object types ("Table/Desk") and whose edge labels are
    relationships. It supplies the label hierarchy the morphism search uses
    (with the empty label as wildcard), the type test of a placed object,
    and the clustering of nodes into part-of groups. */
module SceneGraphs {
  import opened Wrappers
  import opened Seqs
  import opened Graphs
  import opened Morphisms
  import opened Relationships

  type SceneGraph = Graph<string, RelationshipType>

  /** `WildcardNodeType`. */
  const Wildcard: string := ""

  // ---------------------------------------------------------------------
  // Hierarchical labels
  // ---------------------------------------------------------------------

  /** `Split('/')[0]`: the text before the first '/', or the whole label
      when it has none. */
  function FirstSegment(s: string): (r: string)
    ensures r <= s && '/' !in r
    ensures |r| < |s| ==> s[|r|] == '/'
  {
    if |s| == 0 || s[0] == '/' then [] else [s[0]] + FirstSegment(s[1..])
  }

  /** A label without '/' is its own first segment. */
  lemma {:induction false} FirstSegmentOfPlain(s: string)
    requires '/' !in s
    ensures FirstSegment(s) == s
  {
    if |s| > 0 {
      assert s[0] in s;
      FirstSegmentOfPlain(s[1..]);
    }
  }

  /** `GetHierachicalNodeGroups`: the label itself, then, for a label with
      a '/', its first segment. */
  function HierarchicalNodeGroups(nodeType: string): (r: seq<string>)
    ensures |r| == (if '/' in nodeType then 2 else 1) && r[0] == nodeType
    ensures Distinct(r) && forall k :: 0 <= k < |r| ==> nodeType <= r[k] || r[k] <= nodeType
  {
    if '/' in nodeType then [nodeType, FirstSegment(nodeType)] else [nodeType]
  }

  /** `GraphNodeBehaviour.MatchesNodeType`: the object's type equals the
      asked type or has it as first segment. */
  predicate MatchesNodeType(objectType: string, asked: string) {
    objectType == asked || FirstSegment(objectType) == asked
  }

  /** An object matches exactly the groups of its own type; in particular
      it matches its own type, and a type without '/' matches only
      itself. */
  lemma MatchesIffInGroups(objectType: string, asked: string)
    ensures MatchesNodeType(objectType, asked) <==> asked in HierarchicalNodeGroups(objectType)
    ensures MatchesNodeType(objectType, objectType)
    ensures '/' !in objectType ==> (MatchesNodeType(objectType, asked) <==> asked == objectType)
  {
    if '/' !in objectType {
      FirstSegmentOfPlain(objectType);
    }
  }

  /** The first segment of a label has no '/', so its groups are itself. */
  lemma GroupsOfSegment(nodeType: string)
    ensures HierarchicalNodeGroups(FirstSegment(nodeType)) == [FirstSegment(nodeType)]
  {
  }

  /** The scene hierarchy obeys the laws under which the morphism search is
      complete: the wildcard is its own only group, every nodeType lies in its
      own groups, groups have no repeats, and the relation is transitive. */
  lemma SceneHierarchyLaws()
    ensures HierarchyLaws(HierarchicalNodeGroups, Wildcard)
  {
    forall x, y, z | y in HierarchicalNodeGroups(x) && z in HierarchicalNodeGroups(y)
      ensures z in HierarchicalNodeGroups(x)
    {
      if y != x {
        GroupsOfSegment(x);
      }
    }
  }

  // ---------------------------------------------------------------------
  // Part-of clustering
  // ---------------------------------------------------------------------

  /** The two exceptions of clustering: a node that would get a second,
      different parent, and an array index outside the node list. */
  datatype ClusterError = MultipleClusters(node: nat, current: nat, proposed: nat) | IndexOutOfRange

  type Parents = seq<Option<nat>>

  /** Number of nodes without a parent yet. */
  function NullCount(p: Parents): nat {
    if |p| == 0 then 0 else NullCount(p[..|p| - 1]) + (if p[|p| - 1].None? then 1 else 0)
  }

  lemma {:induction false} NullCountFill(p: Parents, a: nat, v: Option<nat>)
    requires a < |p| && p[a].None? && v.Some?
    ensures NullCount(p[a := v]) == NullCount(p) - 1
  {
    var q := p[a := v];
    if a < |p| - 1 {
      assert q[..|q| - 1] == p[..|p| - 1][a := v];
      NullCountFill(p[..|p| - 1], a, v);
    } else {
      assert q[..|q| - 1] == p[..|p| - 1];
    }
  }

  /** After a pass without change, edge e is in the state the loop
      leaves alone: a part-of edge a->b has parent[a] = b and b is a root
      (or its own parent); any part-of-or-on-top-of edge a->b has
      parent[a] = parent[b] unless b has no parent. */
  predicate Settled(p: Parents, e: Edge<RelationshipType>) {
    && (IsTypePartOfOrOnTopOf(e.rel) ==> e.from < |p| && e.to < |p| && (p[e.to].None? || p[e.from] == p[e.to]))
    && (IsTypePartOf(e.rel) ==> e.from < |p| && p[e.from] == Some(e.to))
  }

  /** q only fills entries of p that were empty. */
  predicate Fills(p: Parents, q: Parents) {
    |q| == |p| && forall i :: 0 <= i < |p| && p[i].Some? ==> q[i] == p[i]
  }

  /** The body of the `foreach` for one edge (a, rel, b): a part-of edge
      gives a its parent b; a part-of-or-on-top-of edge hands b's parent
      down to a; a node that already has a different parent makes the
      graph unclusterable. Returns the new parents and whether anything
      changed. */
  function EdgeStep(p: Parents, e: Edge<RelationshipType>): (r: Result<(Parents, bool), ClusterError>)
    ensures r.Success? ==> Fills(p, r.value.0)
    ensures r.Success? && r.value.1 ==> NullCount(r.value.0) == NullCount(p) - 1
    ensures r.Success? && !r.value.1 ==> r.value.0 == p && Settled(p, e)
    ensures !IsTypePartOfOrOnTopOf(e.rel) ==> r == Success((p, false))
    ensures r.Failure? && r.error.IndexOutOfRange? ==> e.from >= |p| || e.to >= |p|
    ensures r.Failure? && r.error.MultipleClusters? ==>
      && r.error.node == e.from < |p| && p[e.from] == Some(r.error.current) && r.error.current != r.error.proposed
  {
    var a, b := e.from, e.to;
    if IsTypePartOf(e.rel) && (a >= |p| || p[a] != Some(b)) then
      if a >= |p| then Failure(IndexOutOfRange)
      else if p[a].Some? then Failure(MultipleClusters(a, p[a].value, b))
      else
        NullCountFill(p, a, Some(b));
        Success((p[a := Some(b)], true))
    else if IsTypePartOfOrOnTopOf(e.rel) then
      if a >= |p| || b >= |p| then Failure(IndexOutOfRange)
      else if p[a] != p[b] && p[b].Some? then
        if p[a].Some? then Failure(MultipleClusters(a, p[a].value, p[b].value))
        else
          NullCountFill(p, a, p[b]);
          Success((p[a := p[b]], true))
      else Success((p, false))
    else Success((p, false))
  }

  /** One pass of the `foreach` over the edges, in order: the first
      exception ends the pass; otherwise the new parents and whether any
      edge changed them. */
  function Pass(edges: seq<Edge<RelationshipType>>, p: Parents): (r: Result<(Parents, bool), ClusterError>)
    ensures r.Success? ==> Fills(p, r.value.0)
    ensures r.Success? && r.value.1 ==> NullCount(r.value.0) < NullCount(p)
    ensures r.Success? && !r.value.1 ==> r.value.0 == p && forall e :: e in edges ==> Settled(p, e)
  {
    if |edges| == 0 then Success((p, false))
    else
      var first :- EdgeStep(p, edges[0]);
      var rest :- Pass(edges[1..], first.0);
      Success((rest.0, first.1 || rest.1))
  }

  /** The `while (changedThisStep)` loop from parents p; it ends because
      every change gives one more node a parent. */
  function ClusterFrom(edges: seq<Edge<RelationshipType>>, p: Parents): (r: Result<Parents, ClusterError>)
    decreases NullCount(p)
  {
    var pass :- Pass(edges, p);
    if pass.1 then ClusterFrom(edges, pass.0) else Success(pass.0)
  }

  /** `GetNodeHierachyClustering`: every node starts without a parent. */
  function Clustering(g: SceneGraph): Result<Parents, ClusterError> {
    ClusterFrom(g.edges, seq(|g.nodes|, _ => None))
  }

  /** A successful clustering only adds parents, and leaves every edge
      settled: each part-of edge a->b gives a the parent b, and each
      part-of-or-on-top-of edge a->b gives a the parent of b when b has
      one. */
  lemma {:induction false} ClusterFromSettled(edges: seq<Edge<RelationshipType>>, p: Parents)
    ensures ClusterFrom(edges, p).Success? ==>
      && Fills(p, ClusterFrom(edges, p).value)
      && forall e :: e in edges ==> Settled(ClusterFrom(edges, p).value, e)
    decreases NullCount(p)
  {
    var pass := Pass(edges, p);
    if pass.Success? && pass.value.1 {
      ClusterFromSettled(edges, pass.value.0);
    }
  }

  /** The clustering of a graph has one entry per node; on success every
      part-of edge a->b has parent[a] = b, every part-of-or-on-top-of
      edge a->b whose b has a parent gives a the same parent, and every
      such edge joins two existing nodes. */
  lemma ClusteringSettled(g: SceneGraph)
    ensures Clustering(g).Success? ==>
      && |Clustering(g).value| == |g.nodes|
      && forall e :: e in g.edges ==> Settled(Clustering(g).value, e)
  {
    ClusterFromSettled(g.edges, seq(|g.nodes|, _ => None));
  }

  /** A part-of or on-top-of edge with an endpoint outside the node list
      makes clustering fail. */
  lemma DanglingEdgeFails(g: SceneGraph, e: Edge<RelationshipType>)
    requires e in g.edges && IsTypePartOfOrOnTopOf(e.rel)
    requires e.from >= |g.nodes| || e.to >= |g.nodes|
    ensures Clustering(g).Failure?
  {
    ClusteringSettled(g);
  }

  /** Nested part-of is not clusterable: with part-of edges a->b and b->c
      for c != b, node a would need both b and c as parent. */
  lemma NestedPartOfFails(g: SceneGraph, e1: Edge<RelationshipType>, e2: Edge<RelationshipType>)
    requires e1 in g.edges && e2 in g.edges
    requires IsTypePartOf(e1.rel) && IsTypePartOf(e2.rel)
    requires e1.to == e2.from && e2.to != e2.from
    ensures Clustering(g).Failure?
  {
    ClusteringSettled(g);
    ClassificationsNested(e1.rel);
  }

  /** v is the target of some part-of edge. */
  ghost predicate IsPartOfTarget(edges: seq<Edge<RelationshipType>>, v: nat) {
    exists e :: e in edges && IsTypePartOf(e.rel) && e.to == v
  }

  /** Every assigned parent is the target of a part-of edge. */
  ghost predicate ParentsAreTargets(edges: seq<Edge<RelationshipType>>, p: Parents) {
    forall i :: 0 <= i < |p| && p[i].Some? ==> IsPartOfTarget(edges, p[i].value)
  }

  lemma EdgeStepKeepsTargets(all: seq<Edge<RelationshipType>>, p: Parents, e: Edge<RelationshipType>)
    requires e in all && ParentsAreTargets(all, p)
    ensures EdgeStep(p, e).Success? ==> ParentsAreTargets(all, EdgeStep(p, e).value.0)
  {
  }

  lemma {:induction false} PassKeepsTargets(all: seq<Edge<RelationshipType>>, edges: seq<Edge<RelationshipType>>, p: Parents)
    requires (forall e :: e in edges ==> e in all) && ParentsAreTargets(all, p)
    ensures Pass(edges, p).Success? ==> ParentsAreTargets(all, Pass(edges, p).value.0)
  {
    if |edges| > 0 {
      EdgeStepKeepsTargets(all, p, edges[0]);
      var first := EdgeStep(p, edges[0]);
      if first.Success? {
        PassKeepsTargets(all, edges[1..], first.value.0);
      }
    }
  }

  lemma {:induction false} ClusterFromKeepsTargets(edges: seq<Edge<RelationshipType>>, p: Parents)
    requires ParentsAreTargets(edges, p)
    ensures ClusterFrom(edges, p).Success? ==> ParentsAreTargets(edges, ClusterFrom(edges, p).value)
    decreases NullCount(p)
  {
    PassKeepsTargets(edges, edges, p);
    var pass := Pass(edges, p);
    if pass.Success? && pass.value.1 {
      ClusterFromKeepsTargets(edges, pass.value.0);
    }
  }

  /** Clusters are named after their parent: every parent in a successful
      clustering is the target of some part-of edge of the graph. */
  lemma ClusteringParentsAreTargets(g: SceneGraph)
    ensures Clustering(g).Success? ==> ParentsAreTargets(g.edges, Clustering(g).value)
  {
    ClusterFromKeepsTargets(g.edges, seq(|g.nodes|, _ => None));
  }

  /** A settled edge is left alone by the loop body. */
  lemma EdgeStepSettled(p: Parents, e: Edge<RelationshipType>)
    requires Settled(p, e)
    ensures EdgeStep(p, e) == Success((p, false))
  {
  }

  lemma {:induction false} PassSettled(edges: seq<Edge<RelationshipType>>, p: Parents)
    requires forall e :: e in edges ==> Settled(p, e)
    ensures Pass(edges, p) == Success((p, false))
  {
    if |edges| > 0 {
      EdgeStepSettled(p, edges[0]);
      PassSettled(edges[1..], p);
    }
  }

  /** The loop stops at once exactly on parents that settle every edge:
      those are the fixed points of clustering. */
  lemma SettledIsFixedPoint(edges: seq<Edge<RelationshipType>>, p: Parents)
    ensures ClusterFrom(edges, p) == Success(p) <==> forall e :: e in edges ==> Settled(p, e)
  {
    ClusterFromSettled(edges, p);
    if forall e :: e in edges ==> Settled(p, e) {
      PassSettled(edges, p);
    }
  }

  /** Clustering is idempotent: running the loop again from a successful
      clustering gives the same parents. */
  lemma ClusteringIdempotent(g: SceneGraph)
    ensures Clustering(g).Success? ==> ClusterFrom(g.edges, Clustering(g).value) == Clustering(g)
  {
    ClusteringSettled(g);
    if Clustering(g).Success? {
      SettledIsFixedPoint(g.edges, Clustering(g).value);
    }
  }

  /** The number of passes the `while (changedThisStep)` loop makes from p,
      counting the last pass that changes nothing. */
  function PassCount(edges: seq<Edge<RelationshipType>>, p: Parents): Result<nat, ClusterError>
    decreases NullCount(p)
  {
    var pass :- Pass(edges, p);
    if pass.1 then
      var n :- PassCount(edges, pass.0);
      Success(n + 1)
    else Success(1)
  }

  /** The loop fails on exactly the same inputs as it counts passes for,
      and it makes at most one pass more than there are nodes without a
      parent, because every pass that changes something fills one. */
  lemma {:induction false} PassBound(edges: seq<Edge<RelationshipType>>, p: Parents)
    ensures PassCount(edges, p).Success? <==> ClusterFrom(edges, p).Success?
    ensures PassCount(edges, p).Success? ==> PassCount(edges, p).value <= NullCount(p) + 1
    decreases NullCount(p)
  {
    var pass := Pass(edges, p);
    if pass.Success? && pass.value.1 {
      PassBound(edges, pass.value.0);
    }
  }

  lemma {:induction false} NullCountAllEmpty(p: Parents)
    requires forall i :: 0 <= i < |p| ==> p[i].None?
    ensures NullCount(p) == |p|
  {
    if |p| > 0 {
      NullCountAllEmpty(p[..|p| - 1]);
    }
  }

  /** `GetNodeHierachyClustering` starts with one empty entry per node and
      finishes within n + 1 passes over the edges, n the node count. */
  lemma ClusteringPasses(g: SceneGraph)
    ensures PassCount(g.edges, seq(|g.nodes|, _ => None)).Success? <==> Clustering(g).Success?
    ensures PassCount(g.edges, seq(|g.nodes|, _ => None)).Success? ==>
      PassCount(g.edges, seq(|g.nodes|, _ => None)).value <= |g.nodes| + 1
  {
    PassBound(g.edges, seq(|g.nodes|, _ => None));
    NullCountAllEmpty(seq(|g.nodes|, _ => None));
  }
}
