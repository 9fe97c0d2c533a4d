/** The immutable labelled multigraph of the graph grammar: node labels
    addressed by index and a sequence of (from, label, to) edge triples, with
    the pure operations that remove and add nodes and edges. */
module Graphs {
  import opened Wrappers
  import opened Seqs

  /** An edge triple (from, label, to); endpoints are node indices. */
  datatype Edge<E> = Edge(from: nat, rel: E, to: nat)

  datatype Graph<N, E> = Graph(nodes: seq<N>, edges: seq<Edge<E>>)

  /** The two exceptions of structural validation; each carries the index of
      the first offending edge. */
  datatype StructuralError =
    | EndpointOutOfRange(edgeIndex: nat)
    | DuplicateEdge(edgeIndex: nat)

  /** The two ways node removal can throw: the contact condition, and a
      `RemoveAt` past the end of the shrinking node list. */
  datatype RemovalError = ContactConditionViolated | RemoveAtOutOfRange

  // ---------------------------------------------------------------------
  // Structural validation
  // ---------------------------------------------------------------------

  predicate EdgeInRange<E>(e: Edge<E>, n: nat) {
    e.from < n && e.to < n
  }

  predicate EndpointsInRange<N, E>(g: Graph<N, E>) {
    forall j :: 0 <= j < |g.edges| ==> EdgeInRange(g.edges[j], |g.nodes|)
  }

  /** A well-formed graph: every endpoint names a node and no edge triple
      occurs twice. */
  predicate WellFormed<N, E(==)>(g: Graph<N, E>) {
    EndpointsInRange(g) && Distinct(g.edges)
  }

  /** Edge j passes the checks of one iteration of the validation loop. */
  predicate EdgeValid<N, E(==)>(g: Graph<N, E>, j: nat)
    requires j < |g.edges|
  {
    EdgeInRange(g.edges[j], |g.nodes|) && g.edges[j] !in g.edges[j + 1..]
  }

  /** The validation loop from edge i on: it stops at the first edge with an
      endpoint out of range or with a later duplicate. */
  function ValidateFrom<N, E(==)>(g: Graph<N, E>, i: nat): (r: Result<(), StructuralError>)
    requires i <= |g.edges|
    ensures r.Success? <==> forall j :: i <= j < |g.edges| ==> EdgeValid(g, j)
    ensures r.Failure? ==>
      && i <= r.error.edgeIndex < |g.edges|
      && !EdgeValid(g, r.error.edgeIndex)
      && (forall j :: i <= j < r.error.edgeIndex ==> EdgeValid(g, j))
      && (r.error.EndpointOutOfRange? <==> !EdgeInRange(g.edges[r.error.edgeIndex], |g.nodes|))
    decreases |g.edges| - i
  {
    if i == |g.edges| then Success(())
    else
      var e := g.edges[i];
      if e.from >= |g.nodes| || e.to >= |g.nodes| then
        assert !EdgeValid(g, i);
        Failure(EndpointOutOfRange(i))
      else if e in g.edges[i + 1..] then
        assert !EdgeValid(g, i);
        Failure(DuplicateEdge(i))
      else
        assert EdgeValid(g, i);
        ValidateFrom(g, i + 1)
  }

  /** Structural validation succeeds exactly for well-formed graphs; on
      failure it names the first edge that is out of range or duplicated. */
  function Validate<N, E(==)>(g: Graph<N, E>): (r: Result<(), StructuralError>)
    ensures r.Success? <==> WellFormed(g)
    ensures r.Failure? ==>
      && r.error.edgeIndex < |g.edges|
      && (forall j :: 0 <= j < r.error.edgeIndex ==> EdgeValid(g, j))
      && (r.error.EndpointOutOfRange? <==> !EdgeInRange(g.edges[r.error.edgeIndex], |g.nodes|))
      && (r.error.DuplicateEdge? ==> g.edges[r.error.edgeIndex] in g.edges[r.error.edgeIndex + 1..])
  {
    AllEdgesValidIffWellFormed(g);
    ValidateFrom(g, 0)
  }

  lemma AllEdgesValidIffWellFormed<N, E>(g: Graph<N, E>)
    ensures (forall j :: 0 <= j < |g.edges| ==> EdgeValid(g, j)) <==> WellFormed(g)
  {
    if forall j :: 0 <= j < |g.edges| ==> EdgeValid(g, j) {
      forall i, j | 0 <= i < j < |g.edges|
        ensures g.edges[i] != g.edges[j]
      {
        assert EdgeValid(g, i);
        assert g.edges[j] == g.edges[i + 1..][j - i - 1];
      }
      forall j | 0 <= j < |g.edges|
        ensures EdgeInRange(g.edges[j], |g.nodes|)
      {
        assert EdgeValid(g, j);
      }
    }
    if WellFormed(g) {
      forall j | 0 <= j < |g.edges|
        ensures EdgeValid(g, j)
      {
        var rest := g.edges[j + 1..];
        forall t | 0 <= t < |rest|
          ensures rest[t] != g.edges[j]
        {
          assert rest[t] == g.edges[j + 1 + t];
        }
      }
    }
  }

  // ---------------------------------------------------------------------
  // Grouping nodes by a label hierarchy
  // ---------------------------------------------------------------------

  /** Every group named by some node's hierarchy. */
  function GroupsOf<N(!new)>(nodes: seq<N>, h: N -> seq<N>): (r: set<N>)
    ensures forall g :: g in r <==> exists i :: 0 <= i < |nodes| && g in h(nodes[i])
  {
    var r := set i, k | 0 <= i < |nodes| && 0 <= k < |h(nodes[i])| :: h(nodes[i])[k];
    assert forall i, k :: 0 <= i < |nodes| && 0 <= k < |h(nodes[i])| ==> h(nodes[i])[k] in r;
    r
  }

  /** The indices grouped under g, in node order; a node whose hierarchy
      names g several times is listed that many times, as the flattened
      (index, group) pairs of the grouping query are. */
  function IndicesIn<N(==)>(nodes: seq<N>, h: N -> seq<N>, g: N): (r: seq<nat>)
    ensures IndicesOf(nodes, h, g, r)
  {
    if |nodes| == 0 then []
    else
      var last := |nodes| - 1;
      var head := IndicesIn(nodes[..last], h, g);
      var times := CountWhere(h(nodes[last]), (x: N) => x == g);
      IndicesAppend(nodes, h, g, head, times);
      head + seq(times, _ => last)
  }

  /** r lists, in ascending order, indices of nodes whose hierarchy names g,
      and every such index. */
  predicate IndicesOf<N(==)>(nodes: seq<N>, h: N -> seq<N>, g: N, r: seq<nat>) {
    && (forall t :: 0 <= t < |r| ==> r[t] < |nodes| && g in h(nodes[r[t]]))
    && (forall i :: 0 <= i < |nodes| && g in h(nodes[i]) ==> i in r)
    && (forall s, t :: 0 <= s < t < |r| ==> r[s] <= r[t])
  }

  /** Appending the last node's index once per time its hierarchy names g
      extends the grouping of the other nodes to all nodes. */
  lemma IndicesAppend<N>(nodes: seq<N>, h: N -> seq<N>, g: N, head: seq<nat>, times: nat)
    requires |nodes| > 0
    requires times == CountWhere(h(nodes[|nodes| - 1]), (x: N) => x == g)
    requires IndicesOf(nodes[..|nodes| - 1], h, g, head)
    ensures IndicesOf(nodes, h, g, head + seq(times, _ => |nodes| - 1))
  {
    var last := |nodes| - 1;
    var init := nodes[..last];
    assert forall i :: 0 <= i < last ==> init[i] == nodes[i];
    assert g in h(nodes[last]) ==> times > 0 by {
      if g in h(nodes[last]) {
        CountWherePositive(h(nodes[last]), (x: N) => x == g, g);
      }
    }
    var tail := seq(times, _ => last);
    assert forall t :: 0 <= t < |tail| ==> tail[t] == last;
    assert g in h(nodes[last]) ==> last in head + tail by {
      if g in h(nodes[last]) {
        assert (head + tail)[|head|] == last;
      }
    }
    assert forall t :: 0 <= t < |tail| ==> g in h(nodes[tail[t]]) by {
      if |tail| > 0 {
        assert g in h(nodes[last]) by {
          if g !in h(nodes[last]) {
            CountWhereNone(h(nodes[last]), (x: N) => x == g);
          }
        }
      }
    }
  }

  lemma {:induction false} CountWhereNone<T>(s: seq<T>, p: T -> bool)
    requires forall k :: 0 <= k < |s| ==> !p(s[k])
    ensures CountWhere(s, p) == 0
  {
    if |s| > 0 {
      CountWhereNone(s[..|s| - 1], p);
    }
  }

  lemma {:induction false} CountWherePositive<T>(s: seq<T>, p: T -> bool, x: T)
    requires x in s && p(x)
    ensures CountWhere(s, p) > 0
  {
    if s[|s| - 1] != x {
      assert x in s[..|s| - 1];
      CountWherePositive(s[..|s| - 1], p, x);
    }
  }

  /** `GetNodesGroupedByType`: one entry per group named by some node's
      hierarchy, holding exactly the indices of the nodes whose hierarchy
      names that group, in ascending order. */
  function GetNodesGroupedByType<N(==,!new)>(nodes: seq<N>, h: N -> seq<N>): (r: map<N, seq<nat>>)
    ensures forall g :: g in r <==> exists i :: 0 <= i < |nodes| && g in h(nodes[i])
    ensures forall g, i :: g in r ==> (i in r[g] <==> 0 <= i < |nodes| && g in h(nodes[i]))
    ensures forall g :: g in r ==> forall s, t :: 0 <= s < t < |r[g]| ==> r[g][s] <= r[g][t]
  {
    map g | g in GroupsOf(nodes, h) :: IndicesIn(nodes, h, g)
  }

  /** When no hierarchy names a group twice, each group lists every node at
      most once, so its indices are strictly ascending. */
  lemma {:induction false} IndicesInStrict<N>(nodes: seq<N>, h: N -> seq<N>, g: N)
    requires forall i :: 0 <= i < |nodes| ==> Distinct(h(nodes[i]))
    ensures forall s, t :: 0 <= s < t < |IndicesIn(nodes, h, g)| ==> IndicesIn(nodes, h, g)[s] < IndicesIn(nodes, h, g)[t]
  {
    if |nodes| > 0 {
      var last := |nodes| - 1;
      var init := nodes[..last];
      assert forall i :: 0 <= i < last ==> init[i] == nodes[i];
      IndicesInStrict(init, h, g);
      CountWhereAtMostOne(h(nodes[last]), g);
    }
  }

  lemma {:induction false} CountWhereAtMostOne<T>(s: seq<T>, x: T)
    requires Distinct(s)
    ensures CountWhere(s, (y: T) => y == x) <= 1
    ensures x !in s ==> CountWhere(s, (y: T) => y == x) == 0
  {
    if |s| > 0 {
      var init := s[..|s| - 1];
      assert Distinct(init);
      CountWhereAtMostOne(init, x);
      if s[|s| - 1] == x {
        assert x !in init;
      } else {
        assert x in s ==> x in init;
      }
    }
  }

  /** Without a hierarchy function every node is grouped under its own label:
      the groups are the labels, group g holds exactly the indices labelled g,
      strictly ascending. */
  lemma DefaultGrouping<N(!new)>(nodes: seq<N>)
    ensures var r := GetNodesGroupedByType(nodes, (x: N) => [x]);
      && (forall g :: g in r <==> g in nodes)
      && (forall g, i :: g in r ==> (i in r[g] <==> 0 <= i < |nodes| && nodes[i] == g))
      && (forall g :: g in r ==> forall s, t :: 0 <= s < t < |r[g]| ==> r[g][s] < r[g][t])
  {
    var h := (x: N) => [x];
    var r := GetNodesGroupedByType(nodes, h);
    forall g | g in nodes
      ensures g in r
    {
      var i :| 0 <= i < |nodes| && nodes[i] == g;
      assert g in h(nodes[i]);
    }
    forall g | g in r
      ensures forall s, t :: 0 <= s < t < |r[g]| ==> r[g][s] < r[g][t]
    {
      IndicesInStrict(nodes, h, g);
    }
  }

  // ---------------------------------------------------------------------
  // Deleting listed positions; renumbering
  // ---------------------------------------------------------------------

  /** How many of the positions 0 .. e-1 are listed in idx; a position listed
      twice counts once. */
  function CountListed(idx: seq<int>, e: nat): (c: nat)
    ensures c <= e
  {
    if e == 0 then 0 else CountListed(idx, e - 1) + (if e - 1 in idx then 1 else 0)
  }

  /** The elements of s at positions not listed in idx, in their original
      order: the reference definition of "delete these positions". */
  function Without<T>(s: seq<T>, idx: seq<int>): (r: seq<T>)
    ensures |r| == |s| - CountListed(idx, |s|)
  {
    if |s| == 0 then []
    else Without(s[..|s| - 1], idx) + (if |s| - 1 in idx then [] else [s[|s| - 1]])
  }

  /** The new index of old node v once the listed positions below
      min(v, bound) have been deleted. */
  function Renumber(v: nat, idx: seq<int>, bound: nat): nat {
    v - CountListed(idx, if v < bound then v else bound)
  }

  function RenumberEdge<E>(e: Edge<E>, idx: seq<int>, bound: nat): Edge<E> {
    Edge(Renumber(e.from, idx, bound), e.rel, Renumber(e.to, idx, bound))
  }

  function RenumberEdges<E>(es: seq<Edge<E>>, idx: seq<int>, bound: nat): (r: seq<Edge<E>>)
    ensures |r| == |es|
    ensures forall j :: 0 <= j < |es| ==> r[j] == RenumberEdge(es[j], idx, bound)
  {
    seq(|es|, j requires 0 <= j < |es| => RenumberEdge(es[j], idx, bound))
  }

  lemma {:induction false} CountListedMono(idx: seq<int>, p: nat, q: nat)
    requires p <= q
    ensures CountListed(idx, p) <= CountListed(idx, q) <= CountListed(idx, p) + (q - p)
    decreases q - p
  {
    if p < q {
      CountListedMono(idx, p, q - 1);
    }
  }

  /** Between an unlisted position p and a later q at most q-p-1 positions are
      listed, so renumbering keeps unlisted positions strictly ordered. */
  lemma CountListedGap(idx: seq<int>, p: nat, q: nat)
    requires p < q && p !in idx
    ensures CountListed(idx, q) <= CountListed(idx, p) + (q - p) - 1
  {
    CountListedMono(idx, p + 1, q);
  }

  /** Deleting listed positions moves an unlisted element from position p to
      position p minus the listed positions below it. */
  lemma {:induction false} WithoutIndex<T>(s: seq<T>, idx: seq<int>, p: nat)
    requires p < |s| && p !in idx
    ensures p - CountListed(idx, p) < |Without(s, idx)|
    ensures Without(s, idx)[p - CountListed(idx, p)] == s[p]
  {
    var last := |s| - 1;
    if p == last {
    } else {
      WithoutIndex(s[..last], idx, p);
    }
  }

  lemma {:induction false} WithoutPrefix<T>(s: seq<T>, idx: seq<int>, p: nat)
    requires p < |s|
    ensures Without(s[..p + 1], idx) == Without(s[..p], idx) + (if p in idx then [] else [s[p]])
  {
    assert s[..p + 1][..p] == s[..p];
  }

  /** Listing nothing below |s| keeps s. */
  lemma {:induction false} WithoutNothing<T>(s: seq<T>, idx: seq<int>)
    requires forall t :: 0 <= t < |idx| ==> idx[t] < 0 || idx[t] >= |s|
    ensures Without(s, idx) == s
  {
    if |s| > 0 {
      WithoutNothing(s[..|s| - 1], idx);
    }
  }

  /** Listing exactly the positions |s| .. |s|+|t|-1 removes t from s + t. */
  lemma {:induction false} WithoutSuffix<T>(s: seq<T>, t: seq<T>, idx: seq<int>)
    requires forall v :: |s| <= v < |s| + |t| ==> v in idx
    requires forall k :: 0 <= k < |idx| ==> idx[k] >= |s|
    ensures Without(s + t, idx) == s
    decreases |t|
  {
    if |t| == 0 {
      assert s + t == s;
      WithoutNothing(s, idx);
    } else {
      var u := s + t;
      assert u[..|u| - 1] == s + t[..|t| - 1];
      assert |u| - 1 in idx;
      WithoutSuffix(s, t[..|t| - 1], idx);
    }
  }

  // ---------------------------------------------------------------------
  // Removing edges
  // ---------------------------------------------------------------------

  /** The `Where((_, i) => !edgeIndices.Contains(i))` pass: keeps the elements
      of s whose position (counted from `start`) is not listed. */
  function KeepUnlisted<T>(s: seq<T>, idx: seq<int>, start: nat): (r: seq<T>)
    decreases |s|
  {
    if |s| == 0 then []
    else (if start in idx then [] else [s[0]]) + KeepUnlisted(s[1..], idx, start + 1)
  }

  lemma {:induction false} KeepUnlistedIsWithout<T>(a: seq<T>, t: seq<T>, idx: seq<int>)
    ensures Without(a, idx) + KeepUnlisted(t, idx, |a|) == Without(a + t, idx)
    decreases |t|
  {
    if |t| == 0 {
      assert a + t == a;
    } else {
      var a' := a + [t[0]];
      var x := if |a| in idx then [] else [t[0]];
      var rest := KeepUnlisted(t[1..], idx, |a| + 1);
      WithoutSnoc(a, t[0], idx);
      KeepUnlistedIsWithout(a', t[1..], idx);
      assert a' + t[1..] == a + t;
      AppendAssoc(Without(a, idx), x, rest);
    }
  }

  /** Appending an element to s appends it to the result unless its position
      is listed. */
  lemma WithoutSnoc<T>(s: seq<T>, y: T, idx: seq<int>)
    ensures Without(s + [y], idx) == Without(s, idx) + (if |s| in idx then [] else [y])
  {
    assert (s + [y])[..|s|] == s;
  }

  lemma AppendAssoc<T>(a: seq<T>, b: seq<T>, c: seq<T>)
    ensures a + (b + c) == (a + b) + c
  {
  }

  /** Removing edges keeps the node labels and keeps, in original order,
      exactly the edges whose position is not listed. */
  function GraphByRemovingEdges<N, E>(g: Graph<N, E>, edgeIndices: seq<nat>): (r: Graph<N, E>)
    ensures r.nodes == g.nodes
    ensures r.edges == Without(g.edges, edgeIndices)
    ensures |r.edges| == |g.edges| - CountListed(edgeIndices, |g.edges|)
  {
    KeepUnlistedIsWithout([], g.edges, edgeIndices);
    assert [] + g.edges == g.edges;
    Graph(g.nodes, KeepUnlisted(g.edges, edgeIndices, 0))
  }

  // ---------------------------------------------------------------------
  // Removing nodes: the loop as written, then its characterisation
  // ---------------------------------------------------------------------

  predicate Touches<E>(e: Edge<E>, v: int) {
    e.from == v || e.to == v
  }

  function ShiftEdge<E>(e: Edge<E>, i: nat): Edge<E> {
    Edge(if e.from > i then e.from - 1 else e.from, e.rel, if e.to > i then e.to - 1 else e.to)
  }

  function ShiftEdges<E>(es: seq<Edge<E>>, i: nat): (r: seq<Edge<E>>)
    ensures |r| == |es|
    ensures forall j :: 0 <= j < |es| ==> r[j] == ShiftEdge(es[j], i)
  {
    seq(|es|, j requires 0 <= j < |es| => ShiftEdge(es[j], i))
  }

  function Decrement(idx: seq<int>): (r: seq<int>)
    ensures |r| == |idx|
    ensures forall t :: 0 <= t < |idx| ==> r[t] == idx[t] - 1
  {
    seq(|idx|, t requires 0 <= t < |idx| => idx[t] - 1)
  }

  /** One run of the removal loop from index i: `n0` is the ORIGINAL node
      count that bounds the loop, `nodes` the shrinking list, `idx` the listed
      indices after the decrements so far. A listed i removes node i (a crash
      if i is past the end of the shrinking list), throws if an edge still
      touches it, and otherwise shifts the higher endpoints and every listed
      index down by one without advancing i. */
  function RemoveNodesLoop<N, E>(n0: nat, i: nat, nodes: seq<N>, edges: seq<Edge<E>>, idx: seq<int>)
    : Result<Graph<N, E>, RemovalError>
    decreases n0 - i + |nodes|
  {
    if i >= n0 then Success(Graph(nodes, edges))
    else if i in idx then
      if i >= |nodes| then Failure(RemoveAtOutOfRange)
      else if exists j :: 0 <= j < |edges| && Touches(edges[j], i) then Failure(ContactConditionViolated)
      else RemoveNodesLoop(n0, i, nodes[..i] + nodes[i + 1..], ShiftEdges(edges, i), Decrement(idx))
    else RemoveNodesLoop(n0, i + 1, nodes, edges, idx)
  }

  /** The loop passes over an unlisted index. */
  lemma LoopSkipStep<N, E>(n0: nat, i: nat, nodes: seq<N>, edges: seq<Edge<E>>, idx: seq<int>)
    requires i < n0 && i !in idx
    ensures RemoveNodesLoop(n0, i, nodes, edges, idx) == RemoveNodesLoop(n0, i + 1, nodes, edges, idx)
  {
  }

  /** At a listed index past the end of the shrunken list the loop crashes. */
  lemma LoopPastStep<N, E>(n0: nat, i: nat, nodes: seq<N>, edges: seq<Edge<E>>, idx: seq<int>)
    requires i < n0 && i in idx && i >= |nodes|
    ensures RemoveNodesLoop(n0, i, nodes, edges, idx) == Failure(RemoveAtOutOfRange)
  {
  }

  /** At a listed index some edge touches, the loop throws. */
  lemma LoopContactStep<N, E>(n0: nat, i: nat, nodes: seq<N>, edges: seq<Edge<E>>, idx: seq<int>, j: nat)
    requires i < n0 && i in idx && i < |nodes|
    requires j < |edges| && Touches(edges[j], i)
    ensures RemoveNodesLoop(n0, i, nodes, edges, idx) == Failure(ContactConditionViolated)
  {
  }

  /** At a listed index no edge touches, the loop removes the node. */
  lemma LoopRemoveStep<N, E>(n0: nat, i: nat, nodes: seq<N>, edges: seq<Edge<E>>, idx: seq<int>)
    requires i < n0 && i in idx && i < |nodes|
    requires forall j :: 0 <= j < |edges| ==> !Touches(edges[j], i)
    ensures RemoveNodesLoop(n0, i, nodes, edges, idx)
      == RemoveNodesLoop(n0, i, nodes[..i] + nodes[i + 1..], ShiftEdges(edges, i), Decrement(idx))
  {
  }

  /** Some edge touches a listed position in [lo, hi). */
  predicate ContactIn<E>(es: seq<Edge<E>>, idx: seq<int>, lo: int, hi: int) {
    exists j :: 0 <= j < |es| && (
      (lo <= es[j].from < hi && es[j].from in idx) || (lo <= es[j].to < hi && es[j].to in idx))
  }

  /** Some listed value lies in [lo, hi). */
  predicate ListedIn(idx: seq<int>, lo: int, hi: int) {
    exists t :: 0 <= t < |idx| && lo <= idx[t] < hi
  }

  /** What the loop produces, reached at original position p. */
  function RemovalOutcome<N, E>(nodes: seq<N>, es: seq<Edge<E>>, idx: seq<int>, p: nat)
    : Result<Graph<N, E>, RemovalError>
  {
    var n0 := |nodes|;
    if ContactIn(es, idx, p, n0) then Failure(ContactConditionViolated)
    else if ListedIn(idx, Max(p, n0), n0 + CountListed(idx, n0)) then Failure(RemoveAtOutOfRange)
    else Success(Graph(Without(nodes, idx), RenumberEdges(es, idx, n0)))
  }

  function Min(a: nat, b: nat): nat { if a < b then a else b }

  function Max(a: nat, b: nat): nat { if a < b then b else a }

  function Shifted(idx: seq<int>, k: nat): (r: seq<int>)
    ensures |r| == |idx|
    ensures forall t :: 0 <= t < |idx| ==> r[t] == idx[t] - k
  {
    seq(|idx|, t requires 0 <= t < |idx| => idx[t] - k)
  }

  /** The loop's state once it has passed the original positions below p:
      loop index p - k (k listed positions removed so far), the node list with
      the listed positions below p deleted, endpoints renumbered, and the
      listed indices shifted down by k. */
  function LoopFrom<N, E>(nodes: seq<N>, es: seq<Edge<E>>, idx: seq<int>, p: nat)
    : Result<Graph<N, E>, RemovalError>
  {
    var k := CountListed(idx, p);
    var m := Min(p, |nodes|);
    RemoveNodesLoop(|nodes|, p - k, Without(nodes[..m], idx) + nodes[m..], RenumberEdges(es, idx, p), Shifted(idx, k))
  }

  /** LoopFrom unfolded over named parts of the loop's state. */
  lemma LoopFromIs<N, E>(nodes: seq<N>, es: seq<Edge<E>>, idx: seq<int>, p: nat, k: nat,
                         cur: seq<N>, curE: seq<Edge<E>>, curI: seq<int>)
    requires k == CountListed(idx, p)
    requires cur == Without(nodes[..Min(p, |nodes|)], idx) + nodes[Min(p, |nodes|)..]
    requires curE == RenumberEdges(es, idx, p) && curI == Shifted(idx, k)
    ensures LoopFrom(nodes, es, idx, p) == RemoveNodesLoop(|nodes|, p - k, cur, curE, curI)
  {
  }

  lemma ShiftedMember(idx: seq<int>, k: nat, v: int)
    ensures v in Shifted(idx, k) <==> v + k in idx
  {
    if v + k in idx {
      var t :| 0 <= t < |idx| && idx[t] == v + k;
      assert Shifted(idx, k)[t] == v;
    }
  }

  lemma CountListedStep(idx: seq<int>, p: nat)
    ensures CountListed(idx, p + 1) == CountListed(idx, p) + (if p in idx then 1 else 0)
  {
  }

  lemma {:induction false} CountListedAbove(idx: seq<int>, n0: nat, p: nat)
    requires n0 <= p
    requires !ListedIn(idx, n0, p)
    ensures CountListed(idx, p) == CountListed(idx, n0)
    decreases p - n0
  {
    if p > n0 {
      assert !ListedIn(idx, n0, p - 1);
      CountListedAbove(idx, n0, p - 1);
      assert p - 1 !in idx;
    }
  }

  /** The current endpoint of an original endpoint v is below, at, or above
      the current index p - k exactly as v is below, at or above p, provided
      v is not a listed position below p. */
  lemma RenumberOrder(v: nat, idx: seq<int>, p: nat)
    requires !(v < p && v in idx)
    ensures v < p ==> Renumber(v, idx, p) < p - CountListed(idx, p)
    ensures v < p ==> Renumber(v, idx, p) == Renumber(v, idx, p + 1)
    ensures v == p ==> Renumber(v, idx, p) == p - CountListed(idx, p)
    ensures v > p ==> Renumber(v, idx, p) == v - CountListed(idx, p) > p - CountListed(idx, p)
  {
    if v < p {
      CountListedGap(idx, v, p);
    }
  }

  /** Renumbering is unaffected by moving the bound over unlisted positions. */
  lemma RenumberEdgesStable<E>(es: seq<Edge<E>>, idx: seq<int>, p: nat, q: nat)
    requires p <= q
    requires !ListedIn(idx, p, q)
    ensures RenumberEdges(es, idx, p) == RenumberEdges(es, idx, q)
  {
    forall v: nat
      ensures Renumber(v, idx, p) == Renumber(v, idx, q)
    {
      if v > p {
        var m := Min(v, q);
        assert !ListedIn(idx, p, m);
        CountListedAbove(idx, p, m);
      }
    }
  }

  /** An unlisted position below the original node count is skipped. */
  lemma LoopFromSkip<N, E>(nodes: seq<N>, es: seq<Edge<E>>, idx: seq<int>, p: nat)
    requires p < |nodes| && p !in idx
    ensures LoopFrom(nodes, es, idx, p) == LoopFrom(nodes, es, idx, p + 1)
  {
    var n0 := |nodes|;
    var k := CountListed(idx, p);
    var cur := Without(nodes[..p], idx) + nodes[p..];
    var curE := RenumberEdges(es, idx, p);
    var curI := Shifted(idx, k);
    ShiftedMember(idx, k, p - k);
    CountListedStep(idx, p);
    WithoutPrefix(nodes, idx, p);
    assert nodes[p..] == [nodes[p]] + nodes[p + 1..];
    assert cur == Without(nodes[..p + 1], idx) + nodes[p + 1..];
    assert !ListedIn(idx, p, p + 1);
    RenumberEdgesStable(es, idx, p, p + 1);
    LoopSkipStep(n0, p - k, cur, curE, curI);
    LoopFromIs(nodes, es, idx, p, k, cur, curE, curI);
    LoopFromIs(nodes, es, idx, p + 1, k, cur, curE, curI);
  }

  /** A listed position below the original node count is removed, unless an
      edge touches it. */
  lemma LoopFromRemove<N, E>(nodes: seq<N>, es: seq<Edge<E>>, idx: seq<int>, p: nat)
    requires p < |nodes| && p in idx
    requires !ContactIn(es, idx, 0, p)
    ensures LoopFrom(nodes, es, idx, p) ==
      if exists j :: 0 <= j < |es| && Touches(es[j], p) then Failure(ContactConditionViolated)
      else LoopFrom(nodes, es, idx, p + 1)
  {
    if exists j :: 0 <= j < |es| && Touches(es[j], p) {
      var j :| 0 <= j < |es| && Touches(es[j], p);
      LoopFromContact(nodes, es, idx, p, j);
    } else {
      LoopFromRemoved(nodes, es, idx, p);
    }
  }

  /** A listed position an edge touches stops the loop. */
  lemma LoopFromContact<N, E>(nodes: seq<N>, es: seq<Edge<E>>, idx: seq<int>, p: nat, j: nat)
    requires p < |nodes| && p in idx
    requires !ContactIn(es, idx, 0, p)
    requires j < |es| && Touches(es[j], p)
    ensures LoopFrom(nodes, es, idx, p) == Failure(ContactConditionViolated)
  {
    var n0 := |nodes|;
    var k := CountListed(idx, p);
    var i := p - k;
    var cur := Without(nodes[..p], idx) + nodes[p..];
    var curE := RenumberEdges(es, idx, p);
    var curI := Shifted(idx, k);
    ShiftedMember(idx, k, i);
    assert |Without(nodes[..p], idx)| == i;
    LoopFromIs(nodes, es, idx, p, k, cur, curE, curI);
    TouchesRenumbered(es, idx, p);
    LoopContactStep(n0, i, cur, curE, curI, j);
  }

  /** A listed position no edge touches is removed. */
  lemma LoopFromRemoved<N, E>(nodes: seq<N>, es: seq<Edge<E>>, idx: seq<int>, p: nat)
    requires p < |nodes| && p in idx
    requires !ContactIn(es, idx, 0, p)
    requires forall j :: 0 <= j < |es| ==> !Touches(es[j], p)
    ensures LoopFrom(nodes, es, idx, p) == LoopFrom(nodes, es, idx, p + 1)
  {
    var n0 := |nodes|;
    var k := CountListed(idx, p);
    var i := p - k;
    var cur := Without(nodes[..p], idx) + nodes[p..];
    var curE := RenumberEdges(es, idx, p);
    var curI := Shifted(idx, k);
    ShiftedMember(idx, k, i);
    assert |Without(nodes[..p], idx)| == i;
    LoopFromIs(nodes, es, idx, p, k, cur, curE, curI);
    TouchesRenumbered(es, idx, p);
    LoopRemoveStep(n0, i, cur, curE, curI);
    RemovedState(nodes, es, idx, p);
    CountListedStep(idx, p);
    LoopFromIs(nodes, es, idx, p + 1, k + 1, cur[..i] + cur[i + 1..], ShiftEdges(curE, i), Decrement(curI));
  }

  /** After removing listed position p the loop's state is the state at
      p + 1. */
  lemma RemovedState<N, E>(nodes: seq<N>, es: seq<Edge<E>>, idx: seq<int>, p: nat)
    requires p < |nodes| && p in idx
    requires !ContactIn(es, idx, 0, p)
    requires forall j :: 0 <= j < |es| ==> !Touches(es[j], p)
    ensures var k := CountListed(idx, p);
      var i := p - k;
      var cur := Without(nodes[..p], idx) + nodes[p..];
      && i < |cur|
      && cur[..i] + cur[i + 1..] == Without(nodes[..p + 1], idx) + nodes[p + 1..]
      && ShiftEdges(RenumberEdges(es, idx, p), i) == RenumberEdges(es, idx, p + 1)
      && Decrement(Shifted(idx, k)) == Shifted(idx, CountListed(idx, p + 1))
  {
    var k := CountListed(idx, p);
    var i := p - k;
    var pre := Without(nodes[..p], idx);
    var cur := pre + nodes[p..];
    CountListedStep(idx, p);
    assert |pre| == i;
    WithoutPrefix(nodes, idx, p);
    assert cur[..i] == pre;
    assert cur[i + 1..] == nodes[p + 1..];
    ShiftRenumbered(es, idx, p);
  }

  /** Before any contact, a renumbered edge touches the current index exactly
      when the original edge touches the original position. */
  lemma TouchesRenumbered<E>(es: seq<Edge<E>>, idx: seq<int>, p: nat)
    requires !ContactIn(es, idx, 0, p)
    ensures forall j :: 0 <= j < |es| ==>
      (Touches(RenumberEdges(es, idx, p)[j], p - CountListed(idx, p)) <==> Touches(es[j], p))
  {
    forall j | 0 <= j < |es|
      ensures Touches(RenumberEdges(es, idx, p)[j], p - CountListed(idx, p)) <==> Touches(es[j], p)
    {
      RenumberOrder(es[j].from, idx, p);
      RenumberOrder(es[j].to, idx, p);
    }
  }

  /** Removing listed position p shifts the renumbered edges exactly as
      moving the renumbering bound past p does. */
  lemma ShiftRenumbered<E>(es: seq<Edge<E>>, idx: seq<int>, p: nat)
    requires p in idx
    requires !ContactIn(es, idx, 0, p)
    requires forall j :: 0 <= j < |es| ==> !Touches(es[j], p)
    ensures ShiftEdges(RenumberEdges(es, idx, p), p - CountListed(idx, p)) == RenumberEdges(es, idx, p + 1)
  {
    CountListedStep(idx, p);
    forall j | 0 <= j < |es|
      ensures ShiftEdge(RenumberEdges(es, idx, p)[j], p - CountListed(idx, p)) == RenumberEdge(es[j], idx, p + 1)
    {
      RenumberOrder(es[j].from, idx, p);
      RenumberOrder(es[j].to, idx, p);
    }
  }

  /** Past the original nodes the loop index is beyond the shrunken list, so
      meeting a listed index crashes `RemoveAt`. */
  lemma LoopFromPast<N, E>(nodes: seq<N>, es: seq<Edge<E>>, idx: seq<int>, p: nat)
    requires |nodes| <= p < |nodes| + CountListed(idx, |nodes|)
    requires !ListedIn(idx, |nodes|, p)
    ensures LoopFrom(nodes, es, idx, p) ==
      if p in idx then Failure(RemoveAtOutOfRange) else LoopFrom(nodes, es, idx, p + 1)
  {
    if p in idx {
      LoopFromPastListed(nodes, es, idx, p);
    } else {
      LoopFromPastSkip(nodes, es, idx, p);
    }
  }

  lemma LoopFromPastListed<N, E>(nodes: seq<N>, es: seq<Edge<E>>, idx: seq<int>, p: nat)
    requires |nodes| <= p < |nodes| + CountListed(idx, |nodes|) && p in idx
    requires !ListedIn(idx, |nodes|, p)
    ensures LoopFrom(nodes, es, idx, p) == Failure(RemoveAtOutOfRange)
  {
    var n0 := |nodes|;
    var k := CountListed(idx, p);
    CountListedAbove(idx, n0, p);
    var cur := Without(nodes[..n0], idx) + nodes[n0..];
    ShiftedMember(idx, k, p - k);
    assert |cur| == n0 - k;
    LoopPastStep(n0, p - k, cur, RenumberEdges(es, idx, p), Shifted(idx, k));
  }

  lemma LoopFromPastSkip<N, E>(nodes: seq<N>, es: seq<Edge<E>>, idx: seq<int>, p: nat)
    requires |nodes| <= p < |nodes| + CountListed(idx, |nodes|) && p !in idx
    requires !ListedIn(idx, |nodes|, p)
    ensures LoopFrom(nodes, es, idx, p) == LoopFrom(nodes, es, idx, p + 1)
  {
    var n0 := |nodes|;
    var k := CountListed(idx, p);
    var cur := Without(nodes[..n0], idx) + nodes[n0..];
    var curE := RenumberEdges(es, idx, p);
    var curI := Shifted(idx, k);
    PastSkipState(nodes, es, idx, p);
    LoopSkipStep(n0, p - k, cur, curE, curI);
    LoopFromIs(nodes, es, idx, p, k, cur, curE, curI);
    LoopFromIs(nodes, es, idx, p + 1, k, cur, curE, curI);
  }

  /** Passing an unlisted position beyond the original nodes changes none of
      the loop's state but its index. */
  lemma PastSkipState<N, E>(nodes: seq<N>, es: seq<Edge<E>>, idx: seq<int>, p: nat)
    requires |nodes| <= p < |nodes| + CountListed(idx, |nodes|) && p !in idx
    requires !ListedIn(idx, |nodes|, p)
    ensures var k := CountListed(idx, p);
      && p - k < |nodes| && p - k !in Shifted(idx, k)
      && CountListed(idx, p + 1) == k
      && Min(p, |nodes|) == |nodes| && Min(p + 1, |nodes|) == |nodes|
      && RenumberEdges(es, idx, p) == RenumberEdges(es, idx, p + 1)
  {
    var k := CountListed(idx, p);
    CountListedAbove(idx, |nodes|, p);
    ShiftedMember(idx, k, p - k);
    CountListedStep(idx, p);
    assert !ListedIn(idx, p, p + 1);
    RenumberEdgesStable(es, idx, p, p + 1);
  }

  /** The loop ends once the index reaches the original node count. */
  lemma LoopFromEnd<N, E>(nodes: seq<N>, es: seq<Edge<E>>, idx: seq<int>)
    requires !ListedIn(idx, |nodes|, |nodes| + CountListed(idx, |nodes|))
    ensures LoopFrom(nodes, es, idx, |nodes| + CountListed(idx, |nodes|))
      == Success(Graph(Without(nodes, idx), RenumberEdges(es, idx, |nodes|)))
  {
    var n0 := |nodes|;
    var p := n0 + CountListed(idx, n0);
    CountListedAbove(idx, n0, p);
    RenumberEdgesStable(es, idx, n0, p);
    assert nodes[..n0] == nodes;
    assert nodes[n0..] == [];
    assert Without(nodes[..n0], idx) + nodes[n0..] == Without(nodes, idx);
    assert LoopFrom(nodes, es, idx, p)
      == RemoveNodesLoop(n0, n0, Without(nodes, idx), RenumberEdges(es, idx, p), Shifted(idx, CountListed(idx, p)));
  }

  /** The predicted outcome does not change when position p is passed over
      without a removal that could throw. */
  lemma OutcomeAdvance<N, E>(nodes: seq<N>, es: seq<Edge<E>>, idx: seq<int>, p: nat)
    requires p in idx ==> p < |nodes| && forall j :: 0 <= j < |es| ==> !Touches(es[j], p)
    ensures RemovalOutcome(nodes, es, idx, p) == RemovalOutcome(nodes, es, idx, p + 1)
  {
    var n0 := |nodes|;
    var bound := n0 + CountListed(idx, n0);
    assert ContactIn(es, idx, p, n0) ==> ContactIn(es, idx, p + 1, n0);
    assert ListedIn(idx, Max(p, n0), bound) ==> ListedIn(idx, Max(p + 1, n0), bound);
  }

  /** Every run of the loop from original position p agrees with the
      predicted outcome, as long as nothing has gone wrong before p. Over the
      original positions each is skipped, removed, or stops the loop with the
      contact-condition error. */
  lemma {:induction false} LoopInvariantBelow<N, E>(nodes: seq<N>, es: seq<Edge<E>>, idx: seq<int>, p: nat)
    requires p <= |nodes|
    requires !ContactIn(es, idx, 0, p)
    ensures LoopFrom(nodes, es, idx, p) == RemovalOutcome(nodes, es, idx, p)
    decreases |nodes| - p
  {
    if p == |nodes| {
      LoopInvariantPast(nodes, es, idx, p);
    } else if p !in idx {
      LoopFromSkip(nodes, es, idx, p);
      ContactFreeStep(es, idx, p);
      LoopInvariantBelow(nodes, es, idx, p + 1);
      OutcomeAdvance(nodes, es, idx, p);
    } else {
      LoopFromRemove(nodes, es, idx, p);
      if exists j :: 0 <= j < |es| && Touches(es[j], p) {
        OutcomeContact(nodes, es, idx, p);
      } else {
        ContactFreeStep(es, idx, p);
        LoopInvariantBelow(nodes, es, idx, p + 1);
        OutcomeAdvance(nodes, es, idx, p);
      }
    }
  }

  /** The invariant past the original positions, where the loop only runs
      because of the decrements: an index listed there crashes `RemoveAt`. */
  lemma {:induction false} LoopInvariantPast<N, E>(nodes: seq<N>, es: seq<Edge<E>>, idx: seq<int>, p: nat)
    requires |nodes| <= p <= |nodes| + CountListed(idx, |nodes|)
    requires !ListedIn(idx, |nodes|, p)
    ensures LoopFrom(nodes, es, idx, p) == RemovalOutcome(nodes, es, idx, p)
    decreases |nodes| + CountListed(idx, |nodes|) - p
  {
    var n0 := |nodes|;
    if p == n0 + CountListed(idx, n0) {
      LoopFromEnd(nodes, es, idx);
      OutcomeAtEnd(nodes, es, idx);
    } else {
      LoopFromPast(nodes, es, idx, p);
      if p in idx {
        OutcomePastListed(nodes, es, idx, p);
      } else {
        assert !ListedIn(idx, n0, p + 1);
        LoopInvariantPast(nodes, es, idx, p + 1);
        OutcomeAdvance(nodes, es, idx, p);
      }
    }
  }

  lemma OutcomeAtEnd<N, E>(nodes: seq<N>, es: seq<Edge<E>>, idx: seq<int>)
    requires !ListedIn(idx, |nodes|, |nodes| + CountListed(idx, |nodes|))
    ensures RemovalOutcome(nodes, es, idx, |nodes| + CountListed(idx, |nodes|))
      == Success(Graph(Without(nodes, idx), RenumberEdges(es, idx, |nodes|)))
  {
    var n0 := |nodes|;
    var p := n0 + CountListed(idx, n0);
    assert !ContactIn(es, idx, p, n0);
    assert Max(p, n0) == p;
  }

  lemma OutcomePastListed<N, E>(nodes: seq<N>, es: seq<Edge<E>>, idx: seq<int>, p: nat)
    requires |nodes| <= p < |nodes| + CountListed(idx, |nodes|) && p in idx
    ensures RemovalOutcome(nodes, es, idx, p) == Failure(RemoveAtOutOfRange)
  {
    var n0 := |nodes|;
    assert !ContactIn(es, idx, p, n0);
    var t :| 0 <= t < |idx| && idx[t] == p;
    assert ListedIn(idx, Max(p, n0), n0 + CountListed(idx, n0));
  }

  lemma OutcomeContact<N, E>(nodes: seq<N>, es: seq<Edge<E>>, idx: seq<int>, p: nat)
    requires p < |nodes| && p in idx
    requires exists j :: 0 <= j < |es| && Touches(es[j], p)
    ensures RemovalOutcome(nodes, es, idx, p) == Failure(ContactConditionViolated)
  {
    var j :| 0 <= j < |es| && Touches(es[j], p);
    assert ContactIn(es, idx, p, |nodes|);
  }

  /** No contact below p, and none at p, means none below p + 1. */
  lemma ContactFreeStep<E>(es: seq<Edge<E>>, idx: seq<int>, p: nat)
    requires !ContactIn(es, idx, 0, p)
    requires p in idx ==> forall j :: 0 <= j < |es| ==> !Touches(es[j], p)
    ensures !ContactIn(es, idx, 0, p + 1)
  {
  }

  /** `GraphByRemovingNodes`. It throws the contact-condition error exactly
      when some edge touches a listed node; otherwise it crashes exactly when a
      listed index beyond the nodes lies in [n0, n0 + K), K being the number of
      distinct listed in-range positions (the decrements shift such an index
      into the loop's range); otherwise the labels at listed positions are
      deleted, in order, and every endpoint drops by the number of listed
      positions below it. */
  function GraphByRemovingNodes<N, E>(g: Graph<N, E>, nodeIndices: seq<nat>): (r: Result<Graph<N, E>, RemovalError>)
    ensures r == Failure(ContactConditionViolated) <==> ContactIn(g.edges, nodeIndices, 0, |g.nodes|)
    ensures r == Failure(RemoveAtOutOfRange) <==>
      !ContactIn(g.edges, nodeIndices, 0, |g.nodes|)
      && ListedIn(nodeIndices, |g.nodes|, |g.nodes| + CountListed(nodeIndices, |g.nodes|))
    ensures r.Success? <==>
      !ContactIn(g.edges, nodeIndices, 0, |g.nodes|)
      && !ListedIn(nodeIndices, |g.nodes|, |g.nodes| + CountListed(nodeIndices, |g.nodes|))
    ensures r.Success? ==>
      r.value == Graph(Without(g.nodes, nodeIndices), RenumberEdges(g.edges, nodeIndices, |g.nodes|))
  {
    var n0 := |g.nodes|;
    assert !ContactIn(g.edges, nodeIndices, 0, 0);
    assert !ListedIn(nodeIndices, n0, 0);
    LoopInvariantBelow(g.nodes, g.edges, nodeIndices, 0);
    assert g.nodes[..0] == [] && g.nodes[0..] == g.nodes;
    assert Without(g.nodes[..0], nodeIndices) == [];
    assert CountListed(nodeIndices, 0) == 0;
    assert Min(0, n0) == 0;
    assert Without(g.nodes[..0], nodeIndices) + g.nodes[0..] == g.nodes;
    assert Shifted(nodeIndices, 0) == nodeIndices;
    assert RenumberEdges(g.edges, nodeIndices, 0) == g.edges;
    assert LoopFrom(g.nodes, g.edges, nodeIndices, 0) == RemoveNodesLoop(n0, 0, g.nodes, g.edges, nodeIndices);
    assert Max(0, n0) == n0;
    RemoveNodesLoop(n0, 0, g.nodes, g.edges, nodeIndices)
  }

  // ---------------------------------------------------------------------
  // Properties of node removal
  // ---------------------------------------------------------------------

  /** Renumbering keeps unlisted positions strictly ordered. */
  lemma RenumberStrictlyMonotone(idx: seq<int>, bound: nat, u: nat, v: nat)
    requires u < v <= bound && u !in idx
    ensures Renumber(u, idx, bound) < Renumber(v, idx, bound)
  {
    CountListedGap(idx, u, v);
  }

  /** A successful removal keeps the label of every surviving node at its
      renumbered position, and every edge is the original edge with both
      endpoints renumbered. */
  lemma RemoveNodesKeepsLabels<N, E>(g: Graph<N, E>, nodeIndices: seq<nat>, v: nat)
    requires GraphByRemovingNodes(g, nodeIndices).Success?
    requires v < |g.nodes| && v !in nodeIndices
    ensures var r := GraphByRemovingNodes(g, nodeIndices).value;
      Renumber(v, nodeIndices, |g.nodes|) < |r.nodes| && r.nodes[Renumber(v, nodeIndices, |g.nodes|)] == g.nodes[v]
  {
    WithoutIndex(g.nodes, nodeIndices, v);
  }

  /** Removing nodes from a well-formed graph yields a well-formed graph. */
  lemma RemoveNodesWellFormed<N, E>(g: Graph<N, E>, nodeIndices: seq<nat>)
    requires WellFormed(g)
    requires GraphByRemovingNodes(g, nodeIndices).Success?
    ensures WellFormed(GraphByRemovingNodes(g, nodeIndices).value)
  {
    var n0 := |g.nodes|;
    var r := GraphByRemovingNodes(g, nodeIndices).value;
    assert !ContactIn(g.edges, nodeIndices, 0, n0);
    forall j | 0 <= j < |r.edges|
      ensures EdgeInRange(r.edges[j], |r.nodes|)
    {
      var e := g.edges[j];
      assert EdgeInRange(e, n0);
      CountListedGap(nodeIndices, e.from, n0);
      CountListedGap(nodeIndices, e.to, n0);
    }
    forall s, t | 0 <= s < t < |r.edges|
      ensures r.edges[s] != r.edges[t]
    {
      var a, b := g.edges[s], g.edges[t];
      assert EdgeInRange(a, n0) && EdgeInRange(b, n0);
      assert a != b;
      if a.from != b.from {
        if a.from < b.from { RenumberStrictlyMonotone(nodeIndices, n0, a.from, b.from); }
        else { RenumberStrictlyMonotone(nodeIndices, n0, b.from, a.from); }
      } else if a.to != b.to {
        if a.to < b.to { RenumberStrictlyMonotone(nodeIndices, n0, a.to, b.to); }
        else { RenumberStrictlyMonotone(nodeIndices, n0, b.to, a.to); }
      }
    }
  }

  /** Removing edges keeps the nodes, and keeps a well-formed graph
      well-formed. */
  lemma RemoveEdgesWellFormed<N, E>(g: Graph<N, E>, edgeIndices: seq<nat>)
    requires WellFormed(g)
    ensures WellFormed(GraphByRemovingEdges(g, edgeIndices))
  {
    WithoutSubsequence(g.edges, edgeIndices);
  }

  /** Deleting positions keeps a subsequence: its elements keep their
      relative order, so a sequence without repeats stays without repeats. */
  lemma {:induction false} WithoutSubsequence<T>(s: seq<T>, idx: seq<int>)
    ensures forall k :: 0 <= k < |Without(s, idx)| ==> Without(s, idx)[k] in s
    ensures Distinct(s) ==> Distinct(Without(s, idx))
  {
    if |s| > 0 {
      var init := s[..|s| - 1];
      WithoutSubsequence(init, idx);
      assert forall k :: 0 <= k < |init| ==> init[k] == s[k];
      if Distinct(s) {
        assert Distinct(init);
        assert s[|s| - 1] !in init;
      }
    }
  }

  /** Every element of Without(s, idx) comes from an unlisted position. */
  lemma {:induction false} WithoutOrigin<T>(s: seq<T>, idx: seq<int>, t: nat)
    requires t < |Without(s, idx)|
    ensures exists j :: 0 <= j < |s| && j !in idx && s[j] == Without(s, idx)[t]
  {
    var init := s[..|s| - 1];
    if t < |Without(init, idx)| {
      WithoutOrigin(init, idx, t);
      var j :| 0 <= j < |init| && j !in idx && init[j] == Without(init, idx)[t];
      assert s[j] == init[j];
    } else {
      assert s[|s| - 1] == Without(s, idx)[t];
    }
  }

  // ---------------------------------------------------------------------
  // Removing nodes together with their incident edges; adding
  // ---------------------------------------------------------------------

  /** The edges that touch none of the listed nodes. */
  function NonIncident<E>(es: seq<Edge<E>>, nodeIndices: seq<nat>): (r: seq<Edge<E>>)
  {
    Filter(es, (e: Edge<E>) => e.from !in nodeIndices && e.to !in nodeIndices)
  }

  /** `GraphByRemovingNodesAndConnectingEdges`: dropping the incident edges
      first means the contact condition can never fail; the result keeps
      exactly the edges touching no listed node, renumbered. */
  function GraphByRemovingNodesAndIncidentEdges<N, E>(g: Graph<N, E>, nodeIndices: seq<nat>)
    : (r: Result<Graph<N, E>, RemovalError>)
    ensures r != Failure(ContactConditionViolated)
    ensures r == Failure(RemoveAtOutOfRange) <==>
      ListedIn(nodeIndices, |g.nodes|, |g.nodes| + CountListed(nodeIndices, |g.nodes|))
    ensures r.Success? ==> r.value.nodes == Without(g.nodes, nodeIndices)
    ensures r.Success? ==> r.value.edges == RenumberEdges(NonIncident(g.edges, nodeIndices), nodeIndices, |g.nodes|)
  {
    var kept := NonIncident(g.edges, nodeIndices);
    assert !ContactIn(kept, nodeIndices, 0, |g.nodes|) by {
      forall j | 0 <= j < |kept|
        ensures kept[j].from !in nodeIndices && kept[j].to !in nodeIndices
      {
        var e := kept[j];
        assert (e.from !in nodeIndices && e.to !in nodeIndices) == (
          (e2: Edge<E>) => e2.from !in nodeIndices && e2.to !in nodeIndices)(e);
      }
    }
    GraphByRemovingNodes(Graph(g.nodes, kept), nodeIndices)
  }

  /** `GraphByAddingNodes`: the new labels go at the end, edges unchanged. */
  function GraphByAddingNodes<N, E>(g: Graph<N, E>, ns: seq<N>): (r: Graph<N, E>)
    ensures |r.nodes| == |g.nodes| + |ns|
    ensures r.nodes[..|g.nodes|] == g.nodes && r.nodes[|g.nodes|..] == ns
    ensures r.edges == g.edges
  {
    Graph(g.nodes + ns, g.edges)
  }

  /** `GraphByAddingEdges`: the new edges go at the end, nodes unchanged. */
  function GraphByAddingEdges<N, E>(g: Graph<N, E>, es: seq<Edge<E>>): (r: Graph<N, E>)
    ensures |r.edges| == |g.edges| + |es|
    ensures r.edges[..|g.edges|] == g.edges && r.edges[|g.edges|..] == es
    ensures r.nodes == g.nodes
  {
    Graph(g.nodes, g.edges + es)
  }

  lemma {:induction false} CountListedNone(idx: seq<int>, e: nat, lo: nat)
    requires e <= lo
    requires forall t :: 0 <= t < |idx| ==> idx[t] >= lo
    ensures CountListed(idx, e) == 0
  {
    if e > 0 {
      CountListedNone(idx, e - 1, lo);
    }
  }

  /** Removing the nodes just added undoes the addition: idx lists every
      added position and nothing else. */
  lemma AddThenRemoveNodes<N, E>(g: Graph<N, E>, ns: seq<N>, idx: seq<nat>)
    requires EndpointsInRange(g)
    requires forall v :: |g.nodes| <= v < |g.nodes| + |ns| ==> v in idx
    requires forall k :: 0 <= k < |idx| ==> |g.nodes| <= idx[k] < |g.nodes| + |ns|
    ensures GraphByRemovingNodes(GraphByAddingNodes(g, ns), idx) == Success(g)
  {
    var a := GraphByAddingNodes(g, ns);
    var n0 := |a.nodes|;
    assert !ContactIn(a.edges, idx, 0, n0) by {
      forall j | 0 <= j < |a.edges|
        ensures a.edges[j].from !in idx && a.edges[j].to !in idx
      {
        assert EdgeInRange(g.edges[j], |g.nodes|);
      }
    }
    assert !ListedIn(idx, n0, n0 + CountListed(idx, n0));
    WithoutSuffix(g.nodes, ns, idx);
    assert a.nodes == g.nodes + ns;
    forall j | 0 <= j < |g.edges|
      ensures RenumberEdge(g.edges[j], idx, n0) == g.edges[j]
    {
      assert EdgeInRange(g.edges[j], |g.nodes|);
      CountListedNone(idx, g.edges[j].from, |g.nodes|);
      CountListedNone(idx, g.edges[j].to, |g.nodes|);
    }
    assert RenumberEdges(g.edges, idx, n0) == g.edges;
    var r := GraphByRemovingNodes(a, idx);
    assert r.value == Graph(Without(a.nodes, idx), RenumberEdges(a.edges, idx, n0));
  }

  /** Removing the edges just added undoes the addition: idx lists every
      added position and only positions past the original edges. */
  lemma AddThenRemoveEdges<N, E>(g: Graph<N, E>, es: seq<Edge<E>>, idx: seq<nat>)
    requires forall v :: |g.edges| <= v < |g.edges| + |es| ==> v in idx
    requires forall k :: 0 <= k < |idx| ==> idx[k] >= |g.edges|
    ensures GraphByRemovingEdges(GraphByAddingEdges(g, es), idx) == g
  {
    WithoutSuffix(g.edges, es, idx);
  }

  /** Appending x to the listed indices adds one to the count below e
      exactly when x is a new position below e. */
  lemma {:induction false} CountListedSnoc(idx: seq<int>, x: int, e: nat)
    ensures CountListed(idx + [x], e) == CountListed(idx, e) + (if 0 <= x < e && x !in idx then 1 else 0)
  {
    if e > 0 {
      CountListedSnoc(idx, x, e - 1);
      assert (e - 1 in idx + [x]) <==> (e - 1 in idx || e - 1 == x);
    }
  }

  /** Listing distinct positions, all below e, counts each of them. */
  lemma {:induction false} CountListedDistinct(idx: seq<int>, e: nat)
    requires Distinct(idx)
    requires forall t :: 0 <= t < |idx| ==> 0 <= idx[t] < e
    ensures CountListed(idx, e) == |idx|
  {
    if |idx| > 0 {
      var init := idx[..|idx| - 1];
      var x := idx[|idx| - 1];
      assert idx == init + [x];
      assert x !in init;
      assert Distinct(init);
      CountListedDistinct(init, e);
      CountListedSnoc(init, x, e);
    } else {
      CountListedNone(idx, e, e);
    }
  }

  lemma RangeMembers(lo: nat, hi: nat)
    requires lo <= hi
    ensures forall v :: lo <= v < hi ==> v in Range(lo, hi)
    ensures forall t :: 0 <= t < |Range(lo, hi)| ==> Range(lo, hi)[t] >= lo
    ensures forall t :: 0 <= t < |Range(lo, hi)| ==> Range(lo, hi)[t] < hi
  {
    var r := Range(lo, hi);
    forall v | lo <= v < hi
      ensures v in r
    {
      assert r[v - lo] == v;
    }
  }
}
