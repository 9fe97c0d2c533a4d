/** A graph grammar rule: a pattern fragment, a replacement fragment, and a
    shared prefix of `sharedNodes` nodes and `sharedEdges` edges that both
    fragments start with. Applying the rule at a morphism deletes the images
    of the pattern-only nodes and edges from the host and appends the
    replacement-only part, translating its edge endpoints. */
module Rules {
  import opened Wrappers
  import opened Seqs
  import opened Graphs
  import opened Morphisms

  /** `Propability` is a double; it only ever enters a sum and a comparison,
      so it is modelled as a real. */
  datatype Rule<N, E> = Rule(
    name: string,
    weight: real,
    pattern: Graph<N, E>,
    sharedNodes: nat,
    sharedEdges: nat,
    replacement: Graph<N, E>,
    firstNodeCap: Option<nat>)

  /** The exceptions `CheckValidRule` throws, in the order it checks. */
  datatype RuleError =
    | PatternInvalid(cause: StructuralError)
    | ReplacementInvalid(cause: StructuralError)
    | PatternTooSmall
    | ReplacementTooSmall
    | SharedNodesDiffer
    | SharedEdgesDiffer

  /** Both fragments are well formed, both are long enough for the shared
      prefix, and they agree on it. */
  predicate ValidRule<N(==), E(==)>(r: Rule<N, E>) {
    && WellFormed(r.pattern) && WellFormed(r.replacement)
    && r.sharedNodes <= |r.pattern.nodes| && r.sharedEdges <= |r.pattern.edges|
    && r.sharedNodes <= |r.replacement.nodes| && r.sharedEdges <= |r.replacement.edges|
    && r.pattern.nodes[..r.sharedNodes] == r.replacement.nodes[..r.sharedNodes]
    && r.pattern.edges[..r.sharedEdges] == r.replacement.edges[..r.sharedEdges]
  }

  /** `CheckValidRule`: passes exactly for valid rules; otherwise it reports
      the first check that fails. */
  function CheckValidRule<N(==), E(==)>(r: Rule<N, E>): (res: Result<(), RuleError>)
    ensures res.Success? <==> ValidRule(r)
    ensures res.Failure? && res.error.PatternInvalid? ==> Validate(r.pattern) == Failure(res.error.cause)
    ensures res.Failure? && res.error.ReplacementInvalid? ==>
      WellFormed(r.pattern) && Validate(r.replacement) == Failure(res.error.cause)
    ensures res == Failure(PatternTooSmall) ==>
      WellFormed(r.pattern) && WellFormed(r.replacement)
      && (|r.pattern.nodes| < r.sharedNodes || |r.pattern.edges| < r.sharedEdges)
    ensures res == Failure(ReplacementTooSmall) ==>
      WellFormed(r.pattern) && WellFormed(r.replacement)
      && r.sharedNodes <= |r.pattern.nodes| && r.sharedEdges <= |r.pattern.edges|
      && (|r.replacement.nodes| < r.sharedNodes || |r.replacement.edges| < r.sharedEdges)
    ensures res == Failure(SharedNodesDiffer) ==>
      WellFormed(r.pattern) && WellFormed(r.replacement)
      && r.sharedNodes <= |r.pattern.nodes| && r.sharedEdges <= |r.pattern.edges|
      && r.sharedNodes <= |r.replacement.nodes| && r.sharedEdges <= |r.replacement.edges|
      && r.pattern.nodes[..r.sharedNodes] != r.replacement.nodes[..r.sharedNodes]
    ensures res == Failure(SharedEdgesDiffer) ==>
      WellFormed(r.pattern) && WellFormed(r.replacement)
      && r.sharedNodes <= |r.pattern.nodes| && r.sharedEdges <= |r.pattern.edges|
      && r.sharedNodes <= |r.replacement.nodes| && r.sharedEdges <= |r.replacement.edges|
      && r.pattern.nodes[..r.sharedNodes] == r.replacement.nodes[..r.sharedNodes]
      && r.pattern.edges[..r.sharedEdges] != r.replacement.edges[..r.sharedEdges]
  {
    var p, q := r.pattern, r.replacement;
    match Validate(p)
    case Failure(e) => Failure(PatternInvalid(e))
    case Success(_) =>
      match Validate(q)
      case Failure(e) => Failure(ReplacementInvalid(e))
      case Success(_) =>
        if |p.nodes| < r.sharedNodes || |p.edges| < r.sharedEdges then Failure(PatternTooSmall)
        else if |q.nodes| < r.sharedNodes || |q.edges| < r.sharedEdges then Failure(ReplacementTooSmall)
        else if p.nodes[..r.sharedNodes] != q.nodes[..r.sharedNodes] then Failure(SharedNodesDiffer)
        else if p.edges[..r.sharedEdges] != q.edges[..r.sharedEdges] then Failure(SharedEdgesDiffer)
        else Success(())
  }

  /** The constructor: the rule with the given parts, or the exception its
      validity check throws. */
  function MakeRule<N(==), E(==)>(name: string, weight: real, pattern: Graph<N, E>, sharedNodes: nat,
                                  sharedEdges: nat, replacement: Graph<N, E>, firstNodeCap: Option<nat>)
    : (r: Result<Rule<N, E>, RuleError>)
    ensures r.Success? <==> ValidRule(Rule(name, weight, pattern, sharedNodes, sharedEdges, replacement, firstNodeCap))
    ensures r.Success? ==> r.value == Rule(name, weight, pattern, sharedNodes, sharedEdges, replacement, firstNodeCap)
  {
    var rule := Rule(name, weight, pattern, sharedNodes, sharedEdges, replacement, firstNodeCap);
    match CheckValidRule(rule)
    case Failure(e) => Failure(e)
    case Success(_) => Success(rule)
  }

  /** LINQ `Take`: the first n elements, or all of them. */
  function Take<T>(s: seq<T>, n: nat): (r: seq<T>)
    ensures |r| == if n <= |s| then n else |s|
    ensures forall t :: 0 <= t < |r| ==> r[t] == s[t]
  {
    if n <= |s| then s[..n] else s
  }

  /** `GetSharedSubgraph`: the pattern's shared prefix. */
  function SharedSubgraph<N, E>(r: Rule<N, E>): Graph<N, E> {
    Graph(Take(r.pattern.nodes, r.sharedNodes), Take(r.pattern.edges, r.sharedEdges))
  }

  /** In a valid rule the shared subgraph is a prefix of both fragments, and
      it is itself well formed exactly when the shared edges only connect
      shared nodes. */
  lemma SharedSubgraphOfBoth<N, E>(r: Rule<N, E>)
    requires ValidRule(r)
    ensures SharedSubgraph(r) == Graph(r.pattern.nodes[..r.sharedNodes], r.pattern.edges[..r.sharedEdges])
    ensures SharedSubgraph(r) == Graph(r.replacement.nodes[..r.sharedNodes], r.replacement.edges[..r.sharedEdges])
    ensures WellFormed(SharedSubgraph(r)) <==>
      forall j :: 0 <= j < r.sharedEdges ==> EdgeInRange(r.pattern.edges[j], r.sharedNodes)
  {
    var s := SharedSubgraph(r);
    assert Distinct(s.edges) by {
      forall a, b | 0 <= a < b < |s.edges|
        ensures s.edges[a] != s.edges[b]
      {
        assert s.edges[a] == r.pattern.edges[a] && s.edges[b] == r.pattern.edges[b];
      }
    }
  }

  // ---------------------------------------------------------------------
  // Applying a rule at a morphism
  // ---------------------------------------------------------------------

  /** How applying a rule can throw: the contact condition (re-raised under
      the rule's name), a node index past the end during removal, or no
      morphism at all when the rule picks the first one itself. */
  datatype ApplyError = RuleContactViolated(ruleName: string) | NodeIndexOutOfRange | NoMorphism

  /** C# `uint` subtraction, which wraps around below zero. */
  function UintSub(a: nat, b: nat): nat {
    if a >= b then a - b else (a - b) % 0x1_0000_0000
  }

  /** The test `j <= v` of the node-map shift. */
  function AtMost(v: nat): nat -> bool {
    (j: nat) => j <= v
  }

  /** The intermediate node map: each image minus the number of removed
      images at or below it. */
  function ShiftedNodeMap(nodeMap: seq<nat>, removed: seq<nat>): (r: seq<nat>)
    ensures |r| == |nodeMap|
    ensures forall i :: 0 <= i < |r| ==> r[i] == UintSub(nodeMap[i], CountWhere(removed, AtMost(nodeMap[i])))
  {
    seq(|nodeMap|, i requires 0 <= i < |nodeMap| => UintSub(nodeMap[i], CountWhere(removed, AtMost(nodeMap[i]))))
  }

  /** A replacement endpoint in the result: a shared node through the
      intermediate node map, a new node after the n intermediate nodes. */
  function Translate(a: nat, k: nat, newMap: seq<nat>, n: nat): nat
    requires k <= |newMap|
  {
    if a < k then newMap[a] else a - k + n
  }

  function TranslateEdge<E>(e: Edge<E>, k: nat, newMap: seq<nat>, n: nat): Edge<E>
    requires k <= |newMap|
  {
    Edge(Translate(e.from, k, newMap, n), e.rel, Translate(e.to, k, newMap, n))
  }

  function TranslateEdges<E>(es: seq<Edge<E>>, k: nat, newMap: seq<nat>, n: nat): (r: seq<Edge<E>>)
    requires k <= |newMap|
    ensures |r| == |es|
    ensures forall j :: 0 <= j < |es| ==> r[j] == TranslateEdge(es[j], k, newMap, n)
  {
    seq(|es|, j requires 0 <= j < |es| => TranslateEdge(es[j], k, newMap, n))
  }

  /** The morphism fits the rule's pattern (every morphism the search
      yields does). */
  predicate Fits<N(==), E(==)>(rule: Rule<N, E>, m: Morphism) {
    ValidRule(rule) && |m.nodeMap| == |rule.pattern.nodes| && |m.edgeMap| == |rule.pattern.edges|
  }

  /** The host images of the pattern-only nodes. */
  function RemovedNodes<N(==), E(==)>(rule: Rule<N, E>, m: Morphism): seq<nat>
    requires Fits(rule, m)
  {
    m.nodeMap[rule.sharedNodes..]
  }

  /** The host images of the pattern-only edges. */
  function RemovedEdges<N(==), E(==)>(rule: Rule<N, E>, m: Morphism): seq<nat>
    requires Fits(rule, m)
  {
    m.edgeMap[rule.sharedEdges..]
  }

  /** Some host edge that survives the edge removal touches a removed node:
      the contact condition fails. */
  predicate Dangling<N(==), E(==)>(rule: Rule<N, E>, host: Graph<N, E>, m: Morphism)
    requires Fits(rule, m)
  {
    ContactIn(Without(host.edges, RemovedEdges(rule, m)), RemovedNodes(rule, m), 0, |host.nodes|)
  }

  /** A removed index beyond the host's nodes is shifted into the removal
      loop's range, where `RemoveAt` fails. */
  predicate Overrun<N(==), E(==)>(rule: Rule<N, E>, host: Graph<N, E>, m: Morphism)
    requires Fits(rule, m)
  {
    var idx, n0 := RemovedNodes(rule, m), |host.nodes|;
    ListedIn(idx, n0, n0 + CountListed(idx, n0))
  }

  /** The host without the removed edges and nodes, endpoints renumbered. */
  function Intermediate<N(==), E(==)>(rule: Rule<N, E>, host: Graph<N, E>, m: Morphism): Graph<N, E>
    requires Fits(rule, m)
  {
    var idx := RemovedNodes(rule, m);
    Graph(Without(host.nodes, idx), RenumberEdges(Without(host.edges, RemovedEdges(rule, m)), idx, |host.nodes|))
  }

  /** The intermediate graph with the replacement-only nodes appended and
      the replacement-only edges translated and appended. */
  function Glued<N(==), E(==)>(rule: Rule<N, E>, m: Morphism, inter: Graph<N, E>, newMap: seq<nat>): Graph<N, E>
    requires Fits(rule, m) && |newMap| == |m.nodeMap|
  {
    Graph(inter.nodes + rule.replacement.nodes[rule.sharedNodes..],
          inter.edges + TranslateEdges(rule.replacement.edges[rule.sharedEdges..], rule.sharedNodes, newMap, |inter.nodes|))
  }

  /** `ApplyTo(GraphMorphism)`: remove the images of the pattern-only edges,
      then of the pattern-only nodes (renumbering the rest), then append the
      replacement-only nodes and the replacement-only edges with translated
      endpoints. A contact-condition failure is re-raised under the rule's
      name; a `RemoveAt` failure is not caught. */
  function ApplyTo<N(==), E(==)>(rule: Rule<N, E>, host: Graph<N, E>, m: Morphism): (r: Result<Graph<N, E>, ApplyError>)
    requires Fits(rule, m)
    ensures r == Failure(RuleContactViolated(rule.name)) <==> Dangling(rule, host, m)
    ensures r == Failure(NodeIndexOutOfRange) <==> !Dangling(rule, host, m) && Overrun(rule, host, m)
    ensures r.Success? ==>
      r.value == Glued(rule, m, Intermediate(rule, host, m), ShiftedNodeMap(m.nodeMap, RemovedNodes(rule, m)))
  {
    var removedNodes := RemovedNodes(rule, m);
    var removedEdges := RemovedEdges(rule, m);
    var newMap := ShiftedNodeMap(m.nodeMap, removedNodes);
    var edgesRemoved := GraphByRemovingEdges(host, removedEdges);
    assert edgesRemoved == Graph(host.nodes, Without(host.edges, removedEdges));
    match GraphByRemovingNodes(edgesRemoved, removedNodes)
    case Failure(ContactConditionViolated) => Failure(RuleContactViolated(rule.name))
    case Failure(RemoveAtOutOfRange) => Failure(NodeIndexOutOfRange)
    case Success(inter) =>
      var added := TranslateEdges(rule.replacement.edges[rule.sharedEdges..], rule.sharedNodes, newMap, |inter.nodes|);
      Success(GraphByAddingEdges(GraphByAddingNodes(inter, rule.replacement.nodes[rule.sharedNodes..]), added))
  }

  // ---------------------------------------------------------------------
  // What applying a rule at a morphism does
  // ---------------------------------------------------------------------

  /** m embeds the pattern in the host: injective on nodes, and every
      pattern edge is mapped to a host edge equal to its image. */
  predicate IsMorphism<N, E(==)>(pattern: Graph<N, E>, host: Graph<N, E>, m: Morphism) {
    && EndpointsInRange(pattern)
    && |m.nodeMap| == |pattern.nodes| && |m.edgeMap| == |pattern.edges|
    && Distinct(m.nodeMap)
    && (forall i :: 0 <= i < |m.nodeMap| ==> m.nodeMap[i] < |host.nodes|)
    && (forall j :: 0 <= j < |pattern.edges| ==>
          m.edgeMap[j] < |host.edges| && host.edges[m.edgeMap[j]] == ImageEdge(pattern.edges[j], m.nodeMap))
  }

  /** Every match the search yields is a morphism. */
  lemma MatchIsMorphism<N, E>(pattern: Graph<N, E>, host: Graph<N, E>, w: N, h: N -> seq<N>, m: Morphism)
    requires IsMatch(pattern, host, w, h, m)
    ensures IsMorphism(pattern, host, m)
  {
    forall j | 0 <= j < |pattern.edges|
      ensures m.edgeMap[j] < |host.edges| && host.edges[m.edgeMap[j]] == ImageEdge(pattern.edges[j], m.nodeMap)
    {
      assert EdgeInRange(pattern.edges[j], |pattern.nodes|);
      assert IndexOf(host.edges, ImageEdge(pattern.edges[j], m.nodeMap)) == Some(m.edgeMap[j]);
    }
  }

  /** A morphism of a pattern without repeated edges maps distinct edges to
      distinct host edges. */
  lemma EdgeMapDistinct<N, E>(pattern: Graph<N, E>, host: Graph<N, E>, m: Morphism)
    requires IsMorphism(pattern, host, m) && Distinct(pattern.edges)
    ensures Distinct(m.edgeMap)
  {
    forall a, b | 0 <= a < b < |m.edgeMap|
      ensures m.edgeMap[a] != m.edgeMap[b]
    {
      var ea, eb := pattern.edges[a], pattern.edges[b];
      assert EdgeInRange(ea, |pattern.nodes|) && EdgeInRange(eb, |pattern.nodes|);
      if ImageEdge(ea, m.nodeMap) == ImageEdge(eb, m.nodeMap) {
        assert false;
      }
    }
  }

  /** The removed node images are distinct host positions. */
  lemma RemovedNodesDistinct<N, E>(rule: Rule<N, E>, host: Graph<N, E>, m: Morphism)
    requires Fits(rule, m) && IsMorphism(rule.pattern, host, m)
    ensures Distinct(RemovedNodes(rule, m))
    ensures forall t :: 0 <= t < |RemovedNodes(rule, m)| ==> RemovedNodes(rule, m)[t] < |host.nodes|
    ensures CountListed(RemovedNodes(rule, m), |host.nodes|) == |rule.pattern.nodes| - rule.sharedNodes
  {
    var idx := RemovedNodes(rule, m);
    assert forall t :: 0 <= t < |idx| ==> idx[t] == m.nodeMap[rule.sharedNodes + t];
    CountListedDistinct(idx, |host.nodes|);
  }

  /** The removed edge images are distinct host positions. */
  lemma RemovedEdgesDistinct<N, E>(rule: Rule<N, E>, host: Graph<N, E>, m: Morphism)
    requires Fits(rule, m) && IsMorphism(rule.pattern, host, m)
    ensures CountListed(RemovedEdges(rule, m), |host.edges|) == |rule.pattern.edges| - rule.sharedEdges
  {
    EdgeMapDistinct(rule.pattern, host, m);
    var idx := RemovedEdges(rule, m);
    assert forall t :: 0 <= t < |idx| ==> idx[t] == m.edgeMap[rule.sharedEdges + t];
    CountListedDistinct(idx, |host.edges|);
  }

  /** At a morphism the only exception `ApplyTo` can raise is the contact
      condition, re-raised under the rule's name. */
  lemma ApplyNeverOutOfRange<N, E>(rule: Rule<N, E>, host: Graph<N, E>, m: Morphism)
    requires Fits(rule, m) && IsMorphism(rule.pattern, host, m)
    ensures ApplyTo(rule, host, m).Failure? ==> ApplyTo(rule, host, m) == Failure(RuleContactViolated(rule.name))
  {
    var idx, n0 := RemovedNodes(rule, m), |host.nodes|;
    RemovedNodesDistinct(rule, host, m);
    assert !ListedIn(idx, n0, n0 + CountListed(idx, n0));
  }

  /** After a successful application the node count is the host's, minus
      the pattern-only nodes, plus the replacement-only nodes. */
  lemma ApplyNodeCount<N, E>(rule: Rule<N, E>, host: Graph<N, E>, m: Morphism)
    requires Fits(rule, m) && IsMorphism(rule.pattern, host, m)
    requires ApplyTo(rule, host, m).Success?
    ensures |ApplyTo(rule, host, m).value.nodes|
      == |host.nodes| - (|rule.pattern.nodes| - rule.sharedNodes) + (|rule.replacement.nodes| - rule.sharedNodes)
  {
    RemovedNodesDistinct(rule, host, m);
  }

  /** After a successful application the edge count is the host's, minus
      the pattern-only edges, plus the replacement-only edges. */
  lemma ApplyEdgeCount<N, E>(rule: Rule<N, E>, host: Graph<N, E>, m: Morphism)
    requires Fits(rule, m) && IsMorphism(rule.pattern, host, m)
    requires ApplyTo(rule, host, m).Success?
    ensures |ApplyTo(rule, host, m).value.edges|
      == |host.edges| - (|rule.pattern.edges| - rule.sharedEdges) + (|rule.replacement.edges| - rule.sharedEdges)
  {
    RemovedEdgesDistinct(rule, host, m);
  }

  /** For distinct removed positions not including v, the source's count of
      removed positions at or below v is the number listed below v. */
  lemma {:induction false} CountAtMostIsListed(removed: seq<nat>, v: nat)
    requires Distinct(removed) && v !in removed
    ensures CountWhere(removed, AtMost(v)) == CountListed(removed, v)
  {
    if |removed| > 0 {
      var init := removed[..|removed| - 1];
      var x := removed[|removed| - 1];
      assert removed == init + [x];
      assert Distinct(init) && x !in init && x != v;
      CountAtMostIsListed(init, v);
      CountListedSnoc(init, x, v);
    } else {
      CountListedNone(removed, v, v);
    }
  }

  /** A shared pattern node's image survives, and the intermediate node map
      sends it to its renumbered position. */
  lemma SharedImage<N, E>(rule: Rule<N, E>, host: Graph<N, E>, m: Morphism, a: nat)
    requires Fits(rule, m) && IsMorphism(rule.pattern, host, m)
    requires a < rule.sharedNodes
    ensures m.nodeMap[a] !in RemovedNodes(rule, m)
    ensures ShiftedNodeMap(m.nodeMap, RemovedNodes(rule, m))[a]
      == Renumber(m.nodeMap[a], RemovedNodes(rule, m), |host.nodes|)
      == m.nodeMap[a] - CountListed(RemovedNodes(rule, m), m.nodeMap[a])
  {
    var idx := RemovedNodes(rule, m);
    var v := m.nodeMap[a];
    RemovedNodesDistinct(rule, host, m);
    if v in idx {
      assert false;
    }
    CountAtMostIsListed(idx, v);
  }

  /** After a successful application every host node matched by a shared
      pattern node keeps its label, at its image minus the number of removed
      nodes below it. */
  lemma ApplyKeepsShared<N, E>(rule: Rule<N, E>, host: Graph<N, E>, m: Morphism, a: nat)
    requires Fits(rule, m) && IsMorphism(rule.pattern, host, m)
    requires ApplyTo(rule, host, m).Success? && a < rule.sharedNodes
    ensures var v := m.nodeMap[a];
      var at := v - CountListed(RemovedNodes(rule, m), v);
      && ShiftedNodeMap(m.nodeMap, RemovedNodes(rule, m))[a] == at
      && at < |ApplyTo(rule, host, m).value.nodes|
      && ApplyTo(rule, host, m).value.nodes[at] == host.nodes[v]
  {
    var idx := RemovedNodes(rule, m);
    SharedImage(rule, host, m, a);
    WithoutIndex(host.nodes, idx, m.nodeMap[a]);
  }

  /** Some host edge outside the removed edges touches a removed node. */
  predicate TouchedRemoved<N(==), E(==)>(rule: Rule<N, E>, host: Graph<N, E>, m: Morphism)
    requires Fits(rule, m)
  {
    exists j, t :: 0 <= j < |host.edges| && j !in RemovedEdges(rule, m)
      && 0 <= t < |RemovedNodes(rule, m)| && Touches(host.edges[j], RemovedNodes(rule, m)[t])
  }

  /** The contact condition of the rewrite: applying fails exactly when some
      host edge that is not the image of a pattern-only edge touches the
      image of a pattern-only node. */
  lemma DanglingIff<N, E>(rule: Rule<N, E>, host: Graph<N, E>, m: Morphism)
    requires Fits(rule, m) && IsMorphism(rule.pattern, host, m)
    ensures Dangling(rule, host, m) <==> TouchedRemoved(rule, host, m)
  {
    if Dangling(rule, host, m) {
      DanglingTouches(rule, host, m);
    }
    if TouchedRemoved(rule, host, m) {
      var idx, es := RemovedNodes(rule, m), RemovedEdges(rule, m);
      var j, t :| 0 <= j < |host.edges| && j !in es && 0 <= t < |idx| && Touches(host.edges[j], idx[t]);
      TouchesDangling(rule, host, m, j, t);
    }
  }

  lemma DanglingTouches<N, E>(rule: Rule<N, E>, host: Graph<N, E>, m: Morphism)
    requires Fits(rule, m) && Dangling(rule, host, m)
    ensures TouchedRemoved(rule, host, m)
  {
    var idx, es := RemovedNodes(rule, m), RemovedEdges(rule, m);
    var kept := Without(host.edges, es);
    var q :| 0 <= q < |kept| && (
      (0 <= kept[q].from < |host.nodes| && kept[q].from in idx) || (0 <= kept[q].to < |host.nodes| && kept[q].to in idx));
    WithoutOrigin(host.edges, es, q);
    var j :| 0 <= j < |host.edges| && j !in es && host.edges[j] == kept[q];
    var v := if kept[q].from in idx then kept[q].from else kept[q].to;
    var t :| 0 <= t < |idx| && idx[t] == v;
    assert Touches(host.edges[j], idx[t]);
  }

  lemma TouchesDangling<N, E>(rule: Rule<N, E>, host: Graph<N, E>, m: Morphism, j: nat, t: nat)
    requires Fits(rule, m) && IsMorphism(rule.pattern, host, m)
    requires j < |host.edges| && j !in RemovedEdges(rule, m)
    requires t < |RemovedNodes(rule, m)| && Touches(host.edges[j], RemovedNodes(rule, m)[t])
    ensures Dangling(rule, host, m)
  {
    var idx, es := RemovedNodes(rule, m), RemovedEdges(rule, m);
    WithoutIndex(host.edges, es, j);
    var q := j - CountListed(es, j);
    assert Without(host.edges, es)[q] == host.edges[j];
    assert idx[t] == m.nodeMap[rule.sharedNodes + t] < |host.nodes|;
  }

  /** A shared edge's host image is not removed, and both its endpoints
      are shared nodes (otherwise the contact condition fails). */
  lemma SharedEdgeImage<N, E>(rule: Rule<N, E>, host: Graph<N, E>, m: Morphism, j: nat)
    requires Fits(rule, m) && IsMorphism(rule.pattern, host, m)
    requires !Dangling(rule, host, m) && j < rule.sharedEdges
    ensures rule.replacement.edges[j] == rule.pattern.edges[j]
    ensures m.edgeMap[j] !in RemovedEdges(rule, m)
    ensures rule.pattern.edges[j].from < rule.sharedNodes && rule.pattern.edges[j].to < rule.sharedNodes
  {
    var k, me := rule.sharedNodes, rule.sharedEdges;
    var idx, es := RemovedNodes(rule, m), RemovedEdges(rule, m);
    var e := rule.pattern.edges[j];
    assert rule.pattern.edges[..me][j] == rule.replacement.edges[..me][j];
    var h := m.edgeMap[j];
    EdgeMapDistinct(rule.pattern, host, m);
    if h in es {
      assert false;
    }
    assert EdgeInRange(e, |rule.pattern.nodes|);
    var v := if e.from >= k then e.from else e.to;
    if v >= k {
      assert Touches(host.edges[h], idx[v - k]);
      TouchesDangling(rule, host, m, h, v - k);
      assert false;
    }
  }

  /** A shared replacement edge is the pattern edge it shares; its host image
      survives the rewrite and ends up between the translated endpoints. */
  lemma SharedEdgeKept<N, E>(rule: Rule<N, E>, host: Graph<N, E>, m: Morphism, j: nat)
    requires Fits(rule, m) && IsMorphism(rule.pattern, host, m)
    requires ApplyTo(rule, host, m).Success? && j < rule.sharedEdges
    ensures TranslateEdge(rule.replacement.edges[j], rule.sharedNodes,
      ShiftedNodeMap(m.nodeMap, RemovedNodes(rule, m)), |Intermediate(rule, host, m).nodes|)
      in ApplyTo(rule, host, m).value.edges
  {
    var idx, es := RemovedNodes(rule, m), RemovedEdges(rule, m);
    var e, h := rule.pattern.edges[j], m.edgeMap[j];
    SharedEdgeImage(rule, host, m, j);
    SharedImage(rule, host, m, e.from);
    SharedImage(rule, host, m, e.to);
    WithoutIndex(host.edges, es, h);
    var q := h - CountListed(es, h);
    var inter := Intermediate(rule, host, m);
    assert inter.edges[q] == RenumberEdge(host.edges[h], idx, |host.nodes|);
    assert ApplyTo(rule, host, m).value.edges[q] == inter.edges[q];
  }

  /** The replacement is embedded in the result: every replacement node
      sits at its translated position (a new node with its own label, a
      shared node with its host image's label) and every replacement edge
      connects the translated endpoints. */
  lemma ReplacementEmbedded<N, E>(rule: Rule<N, E>, host: Graph<N, E>, m: Morphism)
    requires Fits(rule, m) && IsMorphism(rule.pattern, host, m)
    requires ApplyTo(rule, host, m).Success?
    ensures var r, k := ApplyTo(rule, host, m).value, rule.sharedNodes;
      var newMap, n := ShiftedNodeMap(m.nodeMap, RemovedNodes(rule, m)), |Intermediate(rule, host, m).nodes|;
      && (forall a :: 0 <= a < |rule.replacement.nodes| ==>
            && Translate(a, k, newMap, n) < |r.nodes|
            && r.nodes[Translate(a, k, newMap, n)]
               == if a < k then host.nodes[m.nodeMap[a]] else rule.replacement.nodes[a])
      && (forall j :: 0 <= j < |rule.replacement.edges| ==>
            TranslateEdge(rule.replacement.edges[j], k, newMap, n) in r.edges)
  {
    var r, k, me := ApplyTo(rule, host, m).value, rule.sharedNodes, rule.sharedEdges;
    var newMap, n := ShiftedNodeMap(m.nodeMap, RemovedNodes(rule, m)), |Intermediate(rule, host, m).nodes|;
    forall a | 0 <= a < |rule.replacement.nodes|
      ensures Translate(a, k, newMap, n) < |r.nodes|
      ensures r.nodes[Translate(a, k, newMap, n)]
        == if a < k then host.nodes[m.nodeMap[a]] else rule.replacement.nodes[a]
    {
      if a < k {
        ApplyKeepsShared(rule, host, m, a);
      }
    }
    forall j | 0 <= j < |rule.replacement.edges|
      ensures TranslateEdge(rule.replacement.edges[j], k, newMap, n) in r.edges
    {
      if j < me {
        SharedEdgeKept(rule, host, m, j);
      } else {
        assert r.edges[|Intermediate(rule, host, m).edges| + (j - me)]
          == TranslateEdge(rule.replacement.edges[j], k, newMap, n);
      }
    }
  }

  /** A replacement node's translated position lies within the result:
      shared nodes among the intermediate nodes, new ones after them. */
  lemma TranslateInRange<N, E>(rule: Rule<N, E>, host: Graph<N, E>, m: Morphism, a: nat)
    requires Fits(rule, m) && IsMorphism(rule.pattern, host, m)
    requires a < |rule.replacement.nodes|
    ensures var n := |Intermediate(rule, host, m).nodes|;
      Translate(a, rule.sharedNodes, ShiftedNodeMap(m.nodeMap, RemovedNodes(rule, m)), n)
        < n + (|rule.replacement.nodes| - rule.sharedNodes)
  {
    if a < rule.sharedNodes {
      SharedImage(rule, host, m, a);
      WithoutIndex(host.nodes, RemovedNodes(rule, m), m.nodeMap[a]);
    }
  }

  /** Every translated replacement-only edge lies within the result. */
  lemma AddedEdgeInRange<N, E>(rule: Rule<N, E>, host: Graph<N, E>, m: Morphism, j: nat)
    requires Fits(rule, m) && IsMorphism(rule.pattern, host, m)
    requires rule.sharedEdges <= j < |rule.replacement.edges|
    ensures var n := |Intermediate(rule, host, m).nodes|;
      EdgeInRange(TranslateEdge(rule.replacement.edges[j], rule.sharedNodes,
                                ShiftedNodeMap(m.nodeMap, RemovedNodes(rule, m)), n),
                  n + (|rule.replacement.nodes| - rule.sharedNodes))
  {
    var e := rule.replacement.edges[j];
    assert EdgeInRange(e, |rule.replacement.nodes|);
    TranslateInRange(rule, host, m, e.from);
    TranslateInRange(rule, host, m, e.to);
  }

  /** Applying a rule to a well-formed host keeps every edge endpoint in
      range. (Duplicate edges are not excluded: a replacement edge may
      repeat a host edge between shared nodes.) */
  lemma ApplyKeepsEndpointsInRange<N, E>(rule: Rule<N, E>, host: Graph<N, E>, m: Morphism)
    requires Fits(rule, m) && IsMorphism(rule.pattern, host, m) && WellFormed(host)
    requires ApplyTo(rule, host, m).Success?
    ensures EndpointsInRange(ApplyTo(rule, host, m).value)
  {
    IntermediateWellFormed(rule, host, m);
    GluedInRange(rule, host, m);
  }

  lemma GluedInRange<N, E>(rule: Rule<N, E>, host: Graph<N, E>, m: Morphism)
    requires Fits(rule, m) && IsMorphism(rule.pattern, host, m)
    requires EndpointsInRange(Intermediate(rule, host, m))
    ensures EndpointsInRange(Glued(rule, m, Intermediate(rule, host, m), ShiftedNodeMap(m.nodeMap, RemovedNodes(rule, m))))
  {
    var k, me := rule.sharedNodes, rule.sharedEdges;
    var inter := Intermediate(rule, host, m);
    var newMap := ShiftedNodeMap(m.nodeMap, RemovedNodes(rule, m));
    var r := Glued(rule, m, inter, newMap);
    var added := TranslateEdges(rule.replacement.edges[me..], k, newMap, |inter.nodes|);
    assert r.edges == inter.edges + added;
    assert |r.nodes| == |inter.nodes| + (|rule.replacement.nodes| - k);
    forall j | 0 <= j < |r.edges|
      ensures EdgeInRange(r.edges[j], |r.nodes|)
    {
      if j < |inter.edges| {
        assert r.edges[j] == inter.edges[j] && EdgeInRange(inter.edges[j], |inter.nodes|);
      } else {
        var t := j - |inter.edges|;
        AddedEdgeInRange(rule, host, m, me + t);
        assert r.edges[j] == added[t] == TranslateEdge(rule.replacement.edges[me + t], k, newMap, |inter.nodes|);
      }
    }
  }

  /** The intermediate graph of a successful application to a well-formed
      host is well-formed. */
  lemma IntermediateWellFormed<N, E>(rule: Rule<N, E>, host: Graph<N, E>, m: Morphism)
    requires Fits(rule, m) && WellFormed(host)
    requires ApplyTo(rule, host, m).Success?
    ensures WellFormed(Intermediate(rule, host, m))
  {
    var idx, es := RemovedNodes(rule, m), RemovedEdges(rule, m);
    var stripped := GraphByRemovingEdges(host, es);
    RemoveEdgesWellFormed(host, es);
    RemoveNodesWellFormed(stripped, idx);
    assert GraphByRemovingNodes(stripped, idx).value == Intermediate(rule, host, m);
  }

  /** `ApplyTo(graph, ...)`: search for morphisms with the finder as the
      code writes it, and apply the rule at the first one; LINQ's `First`
      throws when there is none. */
  function ApplyToFirst<N(==,!new), E(==)>(rule: Rule<N, E>, host: Graph<N, E>, w: N, h: N -> seq<N>)
    : (r: Result<Graph<N, E>, ApplyError>)
    requires ValidRule(rule) && LabelsReflexive(rule.pattern.nodes, h)
    ensures r == Failure(NoMorphism) <==> |FindMorphismsAsWritten(rule.pattern, host, w, h)| == 0
    ensures r != Failure(NodeIndexOutOfRange)
    ensures r.Success? ==>
      exists m :: IsMatch(rule.pattern, host, w, h, m) && Fits(rule, m) && ApplyTo(rule, host, m) == r
    ensures r != Failure(NoMorphism) ==>
      r == ApplyTo(rule, host, FindMorphismsAsWritten(rule.pattern, host, w, h)[0])
  {
    var ms := FindMorphismsAsWritten(rule.pattern, host, w, h);
    if |ms| == 0 then Failure(NoMorphism)
    else
      MatchIsMorphism(rule.pattern, host, w, h, ms[0]);
      ApplyNeverOutOfRange(rule, host, ms[0]);
      ApplyTo(rule, host, ms[0])
  }

  /** Under the hierarchy laws, the first-morphism application reports
      `NoMorphism` exactly when the sizing check as written rejects the
      host or the pattern has no match in it. */
  lemma ApplyToFirstNoMatch<N(!new), E>(rule: Rule<N, E>, host: Graph<N, E>, w: N, h: N -> seq<N>)
    requires ValidRule(rule) && HierarchyLaws(h, w)
    ensures LabelsReflexive(rule.pattern.nodes, h)
    ensures ApplyToFirst(rule, host, w, h) == Failure(NoMorphism) <==>
      || !SizingAsWritten(GetNodesGroupedByType(rule.pattern.nodes, h),
                          BuildCandidates(rule.pattern.nodes, host.nodes, w, h), w)
      || forall m :: !IsMatch(rule.pattern, host, w, h, m)
  {
    var ms := FindMorphismsAsWritten(rule.pattern, host, w, h);
    var sized := SizingAsWritten(GetNodesGroupedByType(rule.pattern.nodes, h),
                                 BuildCandidates(rule.pattern.nodes, host.nodes, w, h), w);
    if sized {
      forall m | IsMatch(rule.pattern, host, w, h, m)
        ensures m in ms
      {
        FindMorphismsAsWrittenComplete(rule.pattern, host, w, h, m);
      }
    }
    if |ms| > 0 {
      assert IsMatch(rule.pattern, host, w, h, ms[0]);
    }
  }

  /** The application as the code's comment intends it: the same, with the
      corrected finder of `FindMorphisms`. */
  function ApplyToFirstCorrected<N(==,!new), E(==)>(rule: Rule<N, E>, host: Graph<N, E>, w: N, h: N -> seq<N>)
    : (r: Result<Graph<N, E>, ApplyError>)
    requires ValidRule(rule) && LabelsReflexive(rule.pattern.nodes, h)
    ensures r == Failure(NoMorphism) <==> |FindMorphisms(rule.pattern, host, w, h)| == 0
    ensures r != Failure(NodeIndexOutOfRange)
    ensures r.Success? ==>
      exists m :: IsMatch(rule.pattern, host, w, h, m) && Fits(rule, m) && ApplyTo(rule, host, m) == r
  {
    var ms := FindMorphisms(rule.pattern, host, w, h);
    if |ms| == 0 then Failure(NoMorphism)
    else
      MatchIsMorphism(rule.pattern, host, w, h, ms[0]);
      ApplyNeverOutOfRange(rule, host, ms[0]);
      ApplyTo(rule, host, ms[0])
  }

  /** Under the hierarchy laws, the corrected application reports
      `NoMorphism` exactly when the pattern has no match in the host. */
  lemma ApplyToFirstCorrectedNoMatch<N(!new), E>(rule: Rule<N, E>, host: Graph<N, E>, w: N, h: N -> seq<N>)
    requires ValidRule(rule) && HierarchyLaws(h, w)
    ensures LabelsReflexive(rule.pattern.nodes, h)
    ensures ApplyToFirstCorrected(rule, host, w, h) == Failure(NoMorphism) <==>
      forall m :: !IsMatch(rule.pattern, host, w, h, m)
  {
    var ms := FindMorphisms(rule.pattern, host, w, h);
    forall m | IsMatch(rule.pattern, host, w, h, m)
      ensures m in ms
    {
      FindMorphismsComplete(rule.pattern, host, w, h, m);
    }
    if |ms| > 0 {
      assert IsMatch(rule.pattern, host, w, h, ms[0]);
    }
  }

  /** For a pattern with no node in the wildcard group, the two
      applications agree. */
  lemma ApplicationsAgree<N(!new), E>(rule: Rule<N, E>, host: Graph<N, E>, w: N, h: N -> seq<N>)
    requires ValidRule(rule) && LabelsReflexive(rule.pattern.nodes, h)
    requires w !in GetNodesGroupedByType(rule.pattern.nodes, h)
    ensures ApplyToFirst(rule, host, w, h) == ApplyToFirstCorrected(rule, host, w, h)
  {
    NoWildcardSearchesAgree(rule.pattern, host, w, h);
  }
}
