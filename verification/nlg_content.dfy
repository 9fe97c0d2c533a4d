/** Content selection (`DetermineTextContent`): which objects and which
    relations a scene description talks about, and the cluster each
    object belongs to. */
module TextContents {
  import opened Wrappers
  import opened Seqs
  import opened Graphs
  import opened Relationships
  import opened SceneGraphs
  import opened NodeInfo

  /** `TextEntity`: an object to talk about and the object whose cluster
      it belongs to (`Parent`), as a position in the content's entities. */
  datatype TextEntity = TextEntity(info: NodeInfoProvider, parent: Option<nat>)

  /** `TextContent`; a relationship names its two entities by position. */
  datatype TextContent = TextContent(entities: seq<TextEntity>, relationships: seq<Edge<RelationshipType>>)

  datatype ContentError =
    | MissingNodeInfo                     // an info list shorter than the node list
    | Removal(removal: RemovalError)
    | DanglingRelationship                // an edge endpoint past the node list
    | Unclusterable(cluster: ClusterError)

  /** An object with at least one word is described; others are not. */
  predicate HasWords(info: NodeInfoProvider) {
    |info.hierarchy| > 0
  }

  predicate IsExplicit(e: Edge<RelationshipType>) {
    !IsImplicit(e.rel)
  }

  /** `nodeIndicesToDelete`: the positions below n whose info has no
      words, in ascending order. */
  function WordlessNodes(infos: seq<NodeInfoProvider>, n: nat): (r: seq<nat>)
    requires n <= |infos|
    ensures forall i: nat :: i in r <==> i < n && !HasWords(infos[i])
  {
    if n == 0 then [] else WordlessNodes(infos, n - 1) + (if HasWords(infos[n - 1]) then [] else [n - 1])
  }

  /** `edgeIndicesToDelete`: the positions below m of implicit edges. */
  function ImplicitEdges(edges: seq<Edge<RelationshipType>>, m: nat): (r: seq<nat>)
    requires m <= |edges|
    ensures forall j: nat :: j in r <==> j < m && !IsExplicit(edges[j])
  {
    if m == 0 then [] else ImplicitEdges(edges, m - 1) + (if IsExplicit(edges[m - 1]) then [] else [m - 1])
  }

  /** Deleting the positions where p fails is filtering by p. */
  lemma {:induction false} WithoutIsFilter<T>(s: seq<T>, idx: seq<int>, p: T -> bool)
    requires forall m :: 0 <= m < |s| ==> (m in idx <==> !p(s[m]))
    ensures Without(s, idx) == Filter(s, p)
  {
    if |s| > 0 {
      var init := s[..|s| - 1];
      assert forall m :: 0 <= m < |init| ==> init[m] == s[m];
      WithoutIsFilter(init, idx, p);
    }
  }

  /** The nodes' parents, position by position. */
  function ParentsOf(entities: seq<TextEntity>): (r: Parents)
    ensures |r| == |entities|
    ensures forall i :: 0 <= i < |entities| ==> r[i] == entities[i].parent
  {
    seq(|entities|, i requires 0 <= i < |entities| => entities[i].parent)
  }

  /** `DetermineTextContent`: drop the objects without words together with
      their edges, then the implicit edges; pair the i-th remaining node
      with the i-th info that has words, and give it the parent of its
      cluster. */
  function DetermineTextContent(g: SceneGraph, infos: seq<NodeInfoProvider>): (r: Result<TextContent, ContentError>)
    ensures r.Success? ==> |r.value.entities| <= |g.nodes|
  {
    if |infos| < |g.nodes| then Failure(MissingNodeInfo)
    else match GraphByRemovingNodesAndIncidentEdges(g, WordlessNodes(infos, |g.nodes|))
      case Failure(e) => Failure(Removal(e))
      case Success(pruned) =>
        var explicit := GraphByRemovingEdges(pruned, ImplicitEdges(pruned.edges, |pruned.edges|));
        var kept := Filter(infos, HasWords);
        if |kept| < |explicit.nodes| then Failure(MissingNodeInfo)
        else if !EndpointsInRange(explicit) then Failure(DanglingRelationship)
        else match Clustering(explicit)
          case Failure(e) => Failure(Unclusterable(e))
          case Success(parents) =>
            assert |parents| == |explicit.nodes| by { ClusteringSettled(explicit); }
            var entities := seq(|explicit.nodes|, i requires 0 <= i < |explicit.nodes| => TextEntity(kept[i], parents[i]));
            Success(TextContent(entities, explicit.edges))
  }

  // ---------------------------------------------------------------------
  // What content selection guarantees
  // ---------------------------------------------------------------------

  predicate RelationshipsInRange(c: TextContent) {
    forall e :: e in c.relationships ==> e.from < |c.entities| && e.to < |c.entities|
  }

  predicate ParentsInRange(c: TextContent) {
    forall i :: 0 <= i < |c.entities| && c.entities[i].parent.Some? ==> c.entities[i].parent.value < |c.entities|
  }

  /** The clusters agree with the relationships: every relationship is
      settled by the entities' parents. */
  predicate Clustered(c: TextContent) {
    forall e :: e in c.relationships ==> Settled(ParentsOf(c.entities), e)
  }

  /** A well-formed content: relationships and parents name entities. */
  predicate ContentWellFormed(c: TextContent) {
    RelationshipsInRange(c) && ParentsInRange(c)
  }

  /** The nodes that survive the pruning, paired with the infos that have
      words, are exactly the infos of the first |g.nodes| with words. */
  lemma KeptInfos(g: SceneGraph, infos: seq<NodeInfoProvider>)
    requires |g.nodes| <= |infos|
    ensures |Without(g.nodes, WordlessNodes(infos, |g.nodes|))| == |Filter(infos[..|g.nodes|], HasWords)|
    ensures Filter(infos[..|g.nodes|], HasWords) <= Filter(infos, HasWords)
  {
    var n := |g.nodes|;
    var idx := WordlessNodes(infos, n);
    WithoutIsFilter(infos[..n], idx, HasWords);
    assert infos == infos[..n] + infos[n..];
    FilterAppend(infos[..n], infos[n..], HasWords);
  }

  /** No wordless position reaches the node count. */
  lemma WordlessBelow(infos: seq<NodeInfoProvider>, n: nat, hi: int)
    requires n <= |infos|
    ensures !ListedIn(WordlessNodes(infos, n), n, hi)
  {
    var idx := WordlessNodes(infos, n);
    forall t | 0 <= t < |idx|
      ensures idx[t] < n
    {
      assert idx[t] in idx;
    }
  }

  /** Deleting the wordless nodes never fails. */
  lemma WordlessRemovable(g: SceneGraph, infos: seq<NodeInfoProvider>)
    requires |g.nodes| <= |infos|
    ensures GraphByRemovingNodesAndIncidentEdges(g, WordlessNodes(infos, |g.nodes|)).Success?
  {
    var n := |g.nodes|;
    var idx := WordlessNodes(infos, n);
    WordlessBelow(infos, n, n + CountListed(idx, n));
    var r := GraphByRemovingNodesAndIncidentEdges(g, idx);
    assert r != Failure(RemoveAtOutOfRange) && r != Failure(ContactConditionViolated);
  }

  /** Content selection fails for a missing info exactly when there are
      fewer infos than nodes, never because of the node removal, and on a
      well-formed graph only for a missing info or an unclusterable
      graph. */
  lemma ContentErrors(g: SceneGraph, infos: seq<NodeInfoProvider>)
    ensures DetermineTextContent(g, infos) == Failure(MissingNodeInfo) <==> |infos| < |g.nodes|
    ensures DetermineTextContent(g, infos).Failure? ==> !DetermineTextContent(g, infos).error.Removal?
    ensures WellFormed(g) && DetermineTextContent(g, infos).Failure? ==>
      DetermineTextContent(g, infos).error.MissingNodeInfo? || DetermineTextContent(g, infos).error.Unclusterable?
  {
    if |g.nodes| <= |infos| {
      var n := |g.nodes|;
      var idx := WordlessNodes(infos, n);
      WordlessRemovable(g, infos);
      KeptInfos(g, infos);
      var pruned := GraphByRemovingNodesAndIncidentEdges(g, idx).value;
      var explicit := GraphByRemovingEdges(pruned, ImplicitEdges(pruned.edges, |pruned.edges|));
      assert |Filter(infos, HasWords)| >= |explicit.nodes|;
      if WellFormed(g) {
        var kept := NonIncident(g.edges, idx);
        FilterDistinct(g.edges, (e: Edge<RelationshipType>) => e.from !in idx && e.to !in idx);
        forall j | 0 <= j < |kept|
          ensures EdgeInRange(kept[j], n)
        {
          FilterMembers(g.edges, (e: Edge<RelationshipType>) => e.from !in idx && e.to !in idx, kept[j]);
        }
        RemoveNodesWellFormed(Graph(g.nodes, kept), idx);
        RemoveEdgesWellFormed(pruned, ImplicitEdges(pruned.edges, |pruned.edges|));
      }
    }
  }
  /** A selected content talks about exactly the objects with words, in
      node order, each with its own info; its relationships are the
      explicit edges between those objects, renumbered. */
  lemma ContentSelected(g: SceneGraph, infos: seq<NodeInfoProvider>)
    requires DetermineTextContent(g, infos).Success?
    ensures var c := DetermineTextContent(g, infos).value;
      && |c.entities| == |Filter(infos[..|g.nodes|], HasWords)|
      && (forall i :: 0 <= i < |c.entities| ==> c.entities[i].info == Filter(infos[..|g.nodes|], HasWords)[i])
      && c.relationships == Filter(RenumberEdges(NonIncident(g.edges, WordlessNodes(infos, |g.nodes|)),
                                                 WordlessNodes(infos, |g.nodes|), |g.nodes|), IsExplicit)
  {
    var n := |g.nodes|;
    var idx := WordlessNodes(infos, n);
    var c := DetermineTextContent(g, infos).value;
    KeptInfos(g, infos);
    var pruned := GraphByRemovingNodesAndIncidentEdges(g, idx).value;
    var explicit := GraphByRemovingEdges(pruned, ImplicitEdges(pruned.edges, |pruned.edges|));
    var kept := Filter(infos[..n], HasWords);
    assert c.relationships == explicit.edges;
    WithoutIsFilter(pruned.edges, ImplicitEdges(pruned.edges, |pruned.edges|), IsExplicit);
    forall i | 0 <= i < |c.entities|
      ensures c.entities[i].info == kept[i]
    {
      assert kept[i] == Filter(infos, HasWords)[i];
    }
  }

  /** No selected entity lacks words and no selected relationship is
      implicit. */
  lemma ContentExplicit(g: SceneGraph, infos: seq<NodeInfoProvider>)
    requires DetermineTextContent(g, infos).Success?
    ensures var c := DetermineTextContent(g, infos).value;
      && (forall i :: 0 <= i < |c.entities| ==> HasWords(c.entities[i].info))
      && (forall e :: e in c.relationships ==> !IsImplicit(e.rel))
  {
    var c := DetermineTextContent(g, infos).value;
    ContentSelected(g, infos);
    forall e | e in c.relationships
      ensures !IsImplicit(e.rel)
    {
      var k :| 0 <= k < |c.relationships| && c.relationships[k] == e;
    }
  }

  /** Every parent a successful clustering assigns is a node. */
  lemma ClusterParentsInRange(g: SceneGraph)
    requires Clustering(g).Success?
    ensures var p := Clustering(g).value;
      |p| == |g.nodes| && forall i :: 0 <= i < |p| && p[i].Some? ==> p[i].value < |g.nodes|
  {
    var p := Clustering(g).value;
    ClusteringSettled(g);
    ClusteringParentsAreTargets(g);
    forall i | 0 <= i < |p| && p[i].Some?
      ensures p[i].value < |g.nodes|
    {
      assert IsPartOfTarget(g.edges, p[i].value);
      var e :| e in g.edges && IsTypePartOf(e.rel) && e.to == p[i].value;
      assert Settled(p, e);
    }
  }

  /** Every relationship and parent of a selected content names an
      entity, and the parents settle every relationship. */
  lemma ContentClean(g: SceneGraph, infos: seq<NodeInfoProvider>)
    requires DetermineTextContent(g, infos).Success?
    ensures ContentWellFormed(DetermineTextContent(g, infos).value)
    ensures Clustered(DetermineTextContent(g, infos).value)
  {
    var n := |g.nodes|;
    var idx := WordlessNodes(infos, n);
    var c := DetermineTextContent(g, infos).value;
    var pruned := GraphByRemovingNodesAndIncidentEdges(g, idx).value;
    var explicit := GraphByRemovingEdges(pruned, ImplicitEdges(pruned.edges, |pruned.edges|));
    var parents := Clustering(explicit).value;
    assert c.relationships == explicit.edges;
    assert EndpointsInRange(explicit);
    ClusteringSettled(explicit);
    ClusterParentsInRange(explicit);
    assert ParentsOf(c.entities) == parents;
    assert forall i :: 0 <= i < |c.entities| ==> c.entities[i].parent == parents[i];
  }

  /** From a well-formed graph (no dangling edge, no repeated edge),
      content selection selects no relationship twice. */
  lemma ContentDistinct(g: SceneGraph, infos: seq<NodeInfoProvider>)
    requires WellFormed(g) && DetermineTextContent(g, infos).Success?
    ensures Distinct(DetermineTextContent(g, infos).value.relationships)
  {
    var n := |g.nodes|;
    var idx := WordlessNodes(infos, n);
    WordlessRemovable(g, infos);
    var pruned := GraphByRemovingNodesAndIncidentEdges(g, idx).value;
    var kept := NonIncident(g.edges, idx);
    FilterDistinct(g.edges, (e: Edge<RelationshipType>) => e.from !in idx && e.to !in idx);
    forall j | 0 <= j < |kept|
      ensures EdgeInRange(kept[j], n)
    {
      FilterMembers(g.edges, (e: Edge<RelationshipType>) => e.from !in idx && e.to !in idx, kept[j]);
    }
    RemoveNodesWellFormed(Graph(g.nodes, kept), idx);
    RemoveEdgesWellFormed(pruned, ImplicitEdges(pruned.edges, |pruned.edges|));
  }
}
