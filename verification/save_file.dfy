/** The serialisable form of a scene relationship graph: node labels as
    they are, and every edge with its relation written as the relation's
    name. Loading parses the names back. */
module SaveFiles {
  import opened Wrappers
  import opened Graphs
  import opened Relationships
  import opened SceneGraphs

  /** `EdgeSaveFile`: an edge whose relation is stored by name. */
  datatype EdgeSaveFile = EdgeSaveFile(from: nat, relName: string, to: nat)

  /** `SceneRelationshipGraphSaveFile`. */
  datatype SaveFile = SaveFile(nodes: seq<string>, edges: seq<EdgeSaveFile>)

  /** The `ArgumentException` of `Enum.Parse` on a name that is no
      relation's. */
  datatype LoadError = UnknownRelationship(name: string)

  /** The `EdgeSaveFile` constructor. */
  function SaveEdge(e: Edge<RelationshipType>): (s: EdgeSaveFile)
    ensures s.from == e.from && s.to == e.to
  {
    EdgeSaveFile(e.from, Name(e.rel), e.to)
  }

  /** `ToEdge`: the stored name must be a relation's name. */
  function LoadEdge(s: EdgeSaveFile): (r: Result<Edge<RelationshipType>, LoadError>)
    ensures r.Success? ==> r.value.from == s.from && r.value.to == s.to && Name(r.value.rel) == s.relName
    ensures r.Failure? ==> r.error == UnknownRelationship(s.relName)
  {
    match Parse(s.relName)
    case Some(t) => Success(Edge(s.from, t, s.to))
    case None => Failure(UnknownRelationship(s.relName))
  }

  /** An edge survives saving and loading, and a loaded edge saves back to
      the record it came from. Loading fails exactly when the stored name
      is nobody's. */
  lemma EdgeRoundTrip(e: Edge<RelationshipType>, s: EdgeSaveFile)
    ensures LoadEdge(SaveEdge(e)) == Success(e)
    ensures LoadEdge(s).Success? ==> SaveEdge(LoadEdge(s).value) == s
    ensures LoadEdge(s).Failure? <==> forall t :: Name(t) != s.relName
  {
    ParseName(e.rel, s.relName);
  }

  /** The save-file constructor from a graph: labels verbatim, edges in
      order. */
  function FromGraph(g: SceneGraph): (sf: SaveFile)
    ensures sf.nodes == g.nodes && |sf.edges| == |g.edges|
    ensures forall k :: 0 <= k < |g.edges| ==> sf.edges[k] == SaveEdge(g.edges[k])
  {
    SaveFile(g.nodes, seq(|g.edges|, k requires 0 <= k < |g.edges| => SaveEdge(g.edges[k])))
  }

  /** `edges.Select(e => e.ToEdge()).ToArray()`: the first unknown name
      aborts. */
  function LoadEdges(ss: seq<EdgeSaveFile>): (r: Result<seq<Edge<RelationshipType>>, LoadError>)
    ensures r.Success? ==> |r.value| == |ss| && forall k :: 0 <= k < |ss| ==> LoadEdge(ss[k]) == Success(r.value[k])
    ensures r.Failure? ==> exists k :: 0 <= k < |ss| && LoadEdge(ss[k]) == Failure(r.error)
  {
    if |ss| == 0 then Success([])
    else
      var e :- LoadEdge(ss[0]);
      var rest :- LoadEdges(ss[1..]);
      Success([e] + rest)
  }

  /** `ToGraph`. */
  function ToGraph(sf: SaveFile): Result<SceneGraph, LoadError> {
    var edges :- LoadEdges(sf.edges);
    Success(Graph(sf.nodes, edges))
  }

  /** Saving and loading a graph gives it back unchanged. */
  lemma SaveThenLoad(g: SceneGraph)
    ensures ToGraph(FromGraph(g)) == Success(g)
  {
    var sf := FromGraph(g);
    forall k | 0 <= k < |g.edges|
      ensures LoadEdge(sf.edges[k]) == Success(g.edges[k])
    {
      EdgeRoundTrip(g.edges[k], sf.edges[k]);
    }
    LoadEdgesOf(sf.edges, g.edges);
  }

  /** Loading succeeds on records whose edges each load, and gives those
      edges. */
  lemma {:induction false} LoadEdgesOf(ss: seq<EdgeSaveFile>, es: seq<Edge<RelationshipType>>)
    requires |ss| == |es| && forall k :: 0 <= k < |ss| ==> LoadEdge(ss[k]) == Success(es[k])
    ensures LoadEdges(ss) == Success(es)
  {
    if |ss| > 0 {
      assert LoadEdge(ss[0]) == Success(es[0]);
      forall k | 0 <= k < |ss| - 1
        ensures LoadEdge(ss[1..][k]) == Success(es[1..][k])
      {
        assert ss[1..][k] == ss[k + 1] && es[1..][k] == es[k + 1];
      }
      LoadEdgesOf(ss[1..], es[1..]);
      assert es == [es[0]] + es[1..];
    }
  }

  /** A save file that loads is exactly the save file of what it loads
      to; it fails to load iff some stored relation name is nobody's. */
  lemma LoadThenSave(sf: SaveFile)
    ensures ToGraph(sf).Success? ==> FromGraph(ToGraph(sf).value) == sf
    ensures ToGraph(sf).Failure? <==> exists k :: 0 <= k < |sf.edges| && forall t :: Name(t) != sf.edges[k].relName
  {
    var r := LoadEdges(sf.edges);
    if r.Success? {
      forall k | 0 <= k < |sf.edges|
        ensures SaveEdge(r.value[k]) == sf.edges[k] && exists t :: Name(t) == sf.edges[k].relName
      {
        EdgeRoundTrip(r.value[k], sf.edges[k]);
      }
      assert FromGraph(ToGraph(sf).value).edges == sf.edges;
    } else {
      var k :| 0 <= k < |sf.edges| && LoadEdge(sf.edges[k]) == Failure(r.error);
      EdgeRoundTrip(Edge(0, NextTo, 0), sf.edges[k]);
    }
  }
}
