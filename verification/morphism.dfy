/** Graph morphisms from a rule's pattern into a host graph, and the search
    that enumerates them: candidate lists per node group (the wildcard group
    matching every host node, host wildcard nodes matching every group), a
    sizing check that prunes hopeless searches, and an odometer over one
    candidate counter per pattern node. */
module Morphisms {
  import opened Wrappers
  import opened Seqs
  import opened Graphs
  import opened Odometer

  /** Pattern node i goes to host node nodeMap[i]; pattern edge j to host edge
      edgeMap[j]. */
  datatype Morphism = Morphism(nodeMap: seq<nat>, edgeMap: seq<nat>)

  /** The image of a pattern edge under a node map. */
  function ImageEdge<E>(e: Edge<E>, nodeMap: seq<nat>): Edge<E>
    requires e.from < |nodeMap| && e.to < |nodeMap|
  {
    Edge(nodeMap[e.from], e.rel, nodeMap[e.to])
  }

  /** The edge map of `FromNodeMap` from pattern edge `from` on: the first
      host index of every image edge, or None as soon as one is missing. */
  function EdgeMapFrom<N, E(==)>(pattern: Graph<N, E>, host: Graph<N, E>, nodeMap: seq<nat>, from: nat)
    : (r: Option<seq<nat>>)
    requires EndpointsInRange(pattern) && |nodeMap| == |pattern.nodes|
    requires from <= |pattern.edges|
    ensures r.Some? <==> forall j :: from <= j < |pattern.edges| ==> ImageEdge(pattern.edges[j], nodeMap) in host.edges
    ensures r.Some? ==> |r.value| == |pattern.edges| - from
    ensures r.Some? ==> forall j :: from <= j < |pattern.edges| ==>
      IndexOf(host.edges, ImageEdge(pattern.edges[j], nodeMap)) == Some(r.value[j - from])
    decreases |pattern.edges| - from
  {
    if from == |pattern.edges| then Some([])
    else
      assert EdgeInRange(pattern.edges[from], |pattern.nodes|);
      match IndexOf(host.edges, ImageEdge(pattern.edges[from], nodeMap))
      case None => None
      case Some(index) =>
        match EdgeMapFrom(pattern, host, nodeMap, from + 1)
        case None => None
        case Some(rest) =>
          var r := [index] + rest;
          assert forall t :: 1 <= t < |r| ==> r[t] == rest[t - 1];
          Some(r)
  }

  /** `FromNodeMap`: a morphism exactly when every pattern edge has an image
      among the host edges; each edge goes to the first such host edge. */
  function FromNodeMap<N, E(==)>(pattern: Graph<N, E>, host: Graph<N, E>, nodeMap: seq<nat>): (r: Option<Morphism>)
    requires EndpointsInRange(pattern) && |nodeMap| == |pattern.nodes|
    ensures r.Some? <==> forall j :: 0 <= j < |pattern.edges| ==> ImageEdge(pattern.edges[j], nodeMap) in host.edges
    ensures r.Some? ==> r.value.nodeMap == nodeMap && |r.value.edgeMap| == |pattern.edges|
    ensures r.Some? ==> forall j :: 0 <= j < |pattern.edges| ==>
      IndexOf(host.edges, ImageEdge(pattern.edges[j], nodeMap)) == Some(r.value.edgeMap[j])
  {
    match EdgeMapFrom(pattern, host, nodeMap, 0)
    case None => None
    case Some(edgeMap) => Some(Morphism(nodeMap, edgeMap))
  }

  // ---------------------------------------------------------------------
  // What a match is
  // ---------------------------------------------------------------------

  /** Pattern label p may be matched by a host node labelled q: p is the
      wildcard, or q's hierarchy names p, or q's hierarchy names the
      wildcard (host wildcard nodes match every group). */
  predicate Compatible<N(==)>(p: N, q: N, w: N, h: N -> seq<N>) {
    p == w || p in h(q) || w in h(q)
  }

  /** m is a match of pattern in host: an injective, label-compatible node
      map under which every pattern edge has an image, each pattern edge
      mapped to the first host edge equal to its image. */
  predicate IsMatch<N(==), E(==)>(pattern: Graph<N, E>, host: Graph<N, E>, w: N, h: N -> seq<N>, m: Morphism) {
    && EndpointsInRange(pattern)
    && |m.nodeMap| == |pattern.nodes|
    && Distinct(m.nodeMap)
    && (forall i :: 0 <= i < |m.nodeMap| ==>
          m.nodeMap[i] < |host.nodes| && Compatible(pattern.nodes[i], host.nodes[m.nodeMap[i]], w, h))
    && |m.edgeMap| == |pattern.edges|
    && (forall j :: 0 <= j < |pattern.edges| ==>
          IndexOf(host.edges, ImageEdge(pattern.edges[j], m.nodeMap)) == Some(m.edgeMap[j]))
  }

  /** The laws the scene vocabulary's grouping hierarchy obeys: the wildcard
      is only itself, every label is in its own hierarchy, a hierarchy names
      nothing twice, and it is closed under "a group of a group". */
  ghost predicate HierarchyLaws<N(!new)>(h: N -> seq<N>, w: N) {
    && h(w) == [w]
    && (forall x :: x in h(x))
    && (forall x :: Distinct(h(x)))
    && (forall x, y, z :: y in h(x) && z in h(y) ==> z in h(x))
  }

  // ---------------------------------------------------------------------
  // Candidate lists
  // ---------------------------------------------------------------------

  /** All group names of the nodes' hierarchies, in order, with repeats. */
  function Flatten<N>(nodes: seq<N>, h: N -> seq<N>): (r: seq<N>)
  {
    if |nodes| == 0 then [] else Flatten(nodes[..|nodes| - 1], h) + h(nodes[|nodes| - 1])
  }

  lemma {:induction false} FlattenMembers<N(!new)>(nodes: seq<N>, h: N -> seq<N>)
    ensures forall g :: g in Flatten(nodes, h) <==> exists i :: 0 <= i < |nodes| && g in h(nodes[i])
  {
    if |nodes| > 0 {
      var init := nodes[..|nodes| - 1];
      FlattenMembers(init, h);
      assert forall i :: 0 <= i < |init| ==> init[i] == nodes[i];
    }
  }

  /** The host's candidate lists per group (keys in `keys`), and the host
      wildcard nodes. */
  datatype Candidates<N> = Candidates(keys: seq<N>, groups: map<N, seq<nat>>, wildcards: seq<nat>)

  /** The candidate lists of the search. When the host has wildcard nodes,
      every group of either graph gets its host nodes followed by the host
      wildcard nodes, and the wildcard group gets every host node. Otherwise
      the host groups are kept and the wildcard group gets every host node.
      The key sequence lists the wildcard last; in the first case the
      wildcard is a host group already, so the key set is the source's. */
  function BuildCandidates<N(==,!new)>(patternNodes: seq<N>, hostNodes: seq<N>, w: N, h: N -> seq<N>)
    : (c: Candidates<N>)
    ensures forall k :: k in c.groups <==> k in c.keys
    ensures forall k :: k in c.groups <==> (k == w || k in Flatten(hostNodes, h)
      || (w in GetNodesGroupedByType(hostNodes, h) && k in Flatten(patternNodes, h)))
    ensures Distinct(c.keys)
    ensures w in c.groups && c.groups[w] == Range(0, |hostNodes|)
  {
    var to := GetNodesGroupedByType(hostNodes, h);
    var named := Flatten(hostNodes, h) + (if w in to then Flatten(patternNodes, h) else []);
    var keys := WithLast(named, w);
    Candidates(keys, ListsFor(keys, to, w, |hostNodes|), HostWildcards(to, w))
  }

  /** One candidate list per key: every host node for the wildcard, the
      host nodes of the group followed by the host wildcard nodes for any
      other key. */
  function ListsFor<N(==,!new)>(keys: seq<N>, to: map<N, seq<nat>>, w: N, n: nat): (groups: map<N, seq<nat>>)
    requires w in keys
    ensures forall k :: k in groups <==> k in keys
    ensures groups[w] == Range(0, n)
  {
    map k | k in keys :: if k == w then Range(0, n) else HostIn(to, k) + HostWildcards(to, w)
  }

  /** The host nodes of group k, none when the host has no such group. */
  function HostIn<N>(to: map<N, seq<nat>>, k: N): seq<nat> {
    if k in to then to[k] else []
  }

  /** The host wildcard nodes, none when the host has no wildcard group. */
  function HostWildcards<N>(to: map<N, seq<nat>>, w: N): seq<nat> {
    if w in to then to[w] else []
  }

  /** The candidate list of a non-wildcard group: its host nodes followed by
      the host wildcard nodes. */
  lemma CandidateListOf<N(!new)>(patternNodes: seq<N>, hostNodes: seq<N>, w: N, h: N -> seq<N>, k: N)
    requires k in BuildCandidates(patternNodes, hostNodes, w, h).groups && k != w
    ensures var to := GetNodesGroupedByType(hostNodes, h);
      BuildCandidates(patternNodes, hostNodes, w, h).groups[k] == HostIn(to, k) + HostWildcards(to, w)
  {
  }

  /** The distinct elements of s followed by x. */
  function WithLast<N(==,!new)>(s: seq<N>, x: N): (r: seq<N>)
    ensures Distinct(r)
    ensures forall k :: k in r <==> k == x || k in s
  {
    Dedup(s + [x])
  }

  /** Some host node's hierarchy names the wildcard. */
  predicate HostHasWildcards<N(==)>(hostNodes: seq<N>, w: N, h: N -> seq<N>) {
    exists i :: 0 <= i < |hostNodes| && w in h(hostNodes[i])
  }

  /** The candidate list of group k holds exactly the host nodes compatible
      with k. */
  lemma CandidatesExact<N(!new)>(patternNodes: seq<N>, hostNodes: seq<N>, w: N, h: N -> seq<N>, k: N, j: int)
    requires k in BuildCandidates(patternNodes, hostNodes, w, h).groups
    ensures j in BuildCandidates(patternNodes, hostNodes, w, h).groups[k] <==>
      0 <= j < |hostNodes| && Compatible(k, hostNodes[j], w, h)
  {
    if k == w {
      RangeMembers(0, |hostNodes|);
    } else {
      CandidateListOf(patternNodes, hostNodes, w, h, k);
      HostListsExact(hostNodes, h, k, w, j);
    }
  }

  /** A host node is listed under group k or among the wildcards exactly
      when its hierarchy names k or the wildcard. */
  lemma HostListsExact<N(!new)>(hostNodes: seq<N>, h: N -> seq<N>, k: N, w: N, j: int)
    ensures var to := GetNodesGroupedByType(hostNodes, h);
      j in HostIn(to, k) + HostWildcards(to, w) <==>
        0 <= j < |hostNodes| && (k in h(hostNodes[j]) || w in h(hostNodes[j]))
  {
    var to := GetNodesGroupedByType(hostNodes, h);
    assert j in HostIn(to, k) <==> 0 <= j < |hostNodes| && k in h(hostNodes[j]);
    assert j in HostWildcards(to, w) <==> 0 <= j < |hostNodes| && w in h(hostNodes[j]);
  }

  /** The groups are the host's, the wildcard, and, when the host has
      wildcard nodes, the pattern's. */
  lemma CandidateKeys<N(!new)>(patternNodes: seq<N>, hostNodes: seq<N>, w: N, h: N -> seq<N>, k: N)
    ensures k in BuildCandidates(patternNodes, hostNodes, w, h).groups <==>
      k == w
      || (exists i :: 0 <= i < |hostNodes| && k in h(hostNodes[i]))
      || (HostHasWildcards(hostNodes, w, h) && exists i :: 0 <= i < |patternNodes| && k in h(patternNodes[i]))
  {
    FlattenMembers(hostNodes, h);
    FlattenMembers(patternNodes, h);
    assert w in GetNodesGroupedByType(hostNodes, h) <==> HostHasWildcards(hostNodes, w, h);
  }

  /** The wildcard list is empty exactly when the host has no wildcard
      nodes. */
  lemma CandidateWildcards<N(!new)>(patternNodes: seq<N>, hostNodes: seq<N>, w: N, h: N -> seq<N>)
    ensures BuildCandidates(patternNodes, hostNodes, w, h).wildcards == [] <==> !HostHasWildcards(hostNodes, w, h)
  {
    var to := GetNodesGroupedByType(hostNodes, h);
    if HostHasWildcards(hostNodes, w, h) {
      var i :| 0 <= i < |hostNodes| && w in h(hostNodes[i]);
      assert i in to[w];
    }
  }

  lemma RangeMembers(lo: nat, hi: nat)
    ensures forall v :: v in Range(lo, hi) <==> lo <= v < hi
  {
    var r := Range(lo, hi);
    forall v | lo <= v < hi
      ensures v in r
    {
      assert r[v - lo] == v;
    }
  }

  // ---------------------------------------------------------------------
  // The sizing check
  // ---------------------------------------------------------------------

  /** The sum of the candidate list lengths over the given keys. */
  function Total<N(==)>(groups: map<N, seq<nat>>, keys: seq<N>): nat {
    if |keys| == 0 then 0
    else
      var k := keys[|keys| - 1];
      Total(groups, keys[..|keys| - 1]) + (if k in groups then |groups[k]| else 0)
  }

  /** The number of host nodes a non-wildcard pattern group is compared
      with: its candidate list, or the host wildcard nodes when the group has
      no list. */
  function Available<N(==)>(c: Candidates<N>, k: N): nat {
    if k in c.groups then |c.groups[k]| else |c.wildcards|
  }

  /** The sizing check as written: every non-wildcard pattern group needs as
      many candidates as it has pattern nodes; the wildcard group needs the
      sum of all candidate list lengths, less its own pattern node count, to
      be at least that count. */
  predicate SizingAsWritten<N(==)>(from: map<N, seq<nat>>, c: Candidates<N>, w: N) {
    && (forall k | k in from && k != w :: Available(c, k) >= |from[k]|)
    && (w in from ==> WildcardSizedAsWritten(from[w], c))
  }

  /** The wildcard clause of the sizing check as written, for the pattern's
      wildcard group. */
  predicate WildcardSizedAsWritten<N(==)>(group: seq<nat>, c: Candidates<N>) {
    (Total(c.groups, c.keys) as int) - |group| >= |group|
  }

  /** The sizing check as its own comment states it: every pattern group,
      the wildcard group included, needs at least as many candidates as it
      has pattern nodes. */
  predicate Sizing<N(==)>(from: map<N, seq<nat>>, c: Candidates<N>) {
    forall k | k in from :: Available(c, k) >= |from[k]|
  }

  // ---------------------------------------------------------------------
  // The enumeration
  // ---------------------------------------------------------------------

  /** Every pattern node's label has a candidate list. */
  predicate LabelsListed<N(==)>(patternNodes: seq<N>, c: Candidates<N>) {
    forall i :: 0 <= i < |patternNodes| ==> patternNodes[i] in c.groups
  }

  /** Every candidate of a pattern node is a compatible host node. */
  predicate CandidatesFit<N(==)>(patternNodes: seq<N>, hostNodes: seq<N>, w: N, h: N -> seq<N>, c: Candidates<N>)
    requires LabelsListed(patternNodes, c)
  {
    forall i, t :: 0 <= i < |patternNodes| && 0 <= t < |c.groups[patternNodes[i]]| ==>
      c.groups[patternNodes[i]][t] < |hostNodes|
      && Compatible(patternNodes[i], hostNodes[c.groups[patternNodes[i]][t]], w, h)
  }

  /** The counter bounds: the length of every pattern node's candidate list. */
  function Sizes<N(==)>(patternNodes: seq<N>, c: Candidates<N>): (s: seq<nat>)
    requires LabelsListed(patternNodes, c)
    ensures |s| == |patternNodes|
    ensures forall i :: 0 <= i < |s| ==> s[i] == |c.groups[patternNodes[i]]|
  {
    seq(|patternNodes|, i requires 0 <= i < |patternNodes| => |c.groups[patternNodes[i]]|)
  }

  /** The node map a counter tuple selects. */
  function NodeMapOf<N(==)>(patternNodes: seq<N>, c: Candidates<N>, tuple: seq<nat>): (r: seq<nat>)
    requires LabelsListed(patternNodes, c) && InBounds(tuple, Sizes(patternNodes, c))
    ensures |r| == |patternNodes|
    ensures forall i :: 0 <= i < |r| ==> r[i] == c.groups[patternNodes[i]][tuple[i]]
  {
    seq(|patternNodes|, i requires 0 <= i < |patternNodes| => c.groups[patternNodes[i]][tuple[i]])
  }

  /** One iteration of the search: the selected node map, if it is injective
      and every pattern edge has an image. */
  function Attempt<N(==), E(==)>(pattern: Graph<N, E>, host: Graph<N, E>, c: Candidates<N>, tuple: seq<nat>)
    : (r: seq<Morphism>)
    requires EndpointsInRange(pattern)
    requires LabelsListed(pattern.nodes, c) && InBounds(tuple, Sizes(pattern.nodes, c))
  {
    var nodeMap := NodeMapOf(pattern.nodes, c, tuple);
    if !Distinct(nodeMap) then []
    else
      match FromNodeMap(pattern, host, nodeMap)
      case None => []
      case Some(m) => [m]
  }

  /** The morphisms found along a sequence of counter tuples, in order. */
  function Collect<N(==), E(==)>(pattern: Graph<N, E>, host: Graph<N, E>, w: N, h: N -> seq<N>,
                                 c: Candidates<N>, tuples: seq<seq<nat>>): (r: seq<Morphism>)
    requires EndpointsInRange(pattern) && LabelsListed(pattern.nodes, c)
    requires CandidatesFit(pattern.nodes, host.nodes, w, h, c)
    requires forall t :: 0 <= t < |tuples| ==> InBounds(tuples[t], Sizes(pattern.nodes, c))
    ensures forall t :: 0 <= t < |r| ==> IsMatch(pattern, host, w, h, r[t])
  {
    if |tuples| == 0 then []
    else
      var here := Attempt(pattern, host, c, tuples[0]);
      assert forall t :: 0 <= t < |here| ==> IsMatch(pattern, host, w, h, here[t]) by {
        if |here| > 0 {
          var nodeMap := NodeMapOf(pattern.nodes, c, tuples[0]);
          assert here[0].nodeMap == nodeMap;
        }
      }
      here + Collect(pattern, host, w, h, c, tuples[1..])
  }

  lemma {:induction false} CollectContains<N, E>(pattern: Graph<N, E>, host: Graph<N, E>, w: N, h: N -> seq<N>,
                                                        c: Candidates<N>, tuples: seq<seq<nat>>, k: nat, m: Morphism)
    requires EndpointsInRange(pattern) && LabelsListed(pattern.nodes, c)
    requires CandidatesFit(pattern.nodes, host.nodes, w, h, c)
    requires forall t :: 0 <= t < |tuples| ==> InBounds(tuples[t], Sizes(pattern.nodes, c))
    requires k < |tuples| && Attempt(pattern, host, c, tuples[k]) == [m]
    ensures m in Collect(pattern, host, w, h, c, tuples)
  {
    if k > 0 {
      assert tuples[1..][k - 1] == tuples[k];
      CollectContains(pattern, host, w, h, c, tuples[1..], k - 1, m);
    }
  }

  /** The do/while over all counter tuples, starting from all zeros. */
  function Enumerate<N(==), E(==)>(pattern: Graph<N, E>, host: Graph<N, E>, w: N, h: N -> seq<N>, c: Candidates<N>)
    : (r: seq<Morphism>)
    requires EndpointsInRange(pattern) && LabelsListed(pattern.nodes, c)
    requires CandidatesFit(pattern.nodes, host.nodes, w, h, c)
    requires forall i :: 0 <= i < |pattern.nodes| ==> |c.groups[pattern.nodes[i]]| > 0
    ensures forall t :: 0 <= t < |r| ==> IsMatch(pattern, host, w, h, r[t])
  {
    var sizes := Sizes(pattern.nodes, c);
    RankZeros(sizes);
    var tuples := Walk(Zeros(|sizes|), sizes);
    WalkRanks(Zeros(|sizes|), sizes);
    Collect(pattern, host, w, h, c, tuples)
  }

  // ---------------------------------------------------------------------
  // The search
  // ---------------------------------------------------------------------

  /** Every pattern label is among its own groups (the grouping hierarchies
      the program passes always list the label itself). */
  predicate LabelsReflexive<N(==)>(patternNodes: seq<N>, h: N -> seq<N>) {
    forall i :: 0 <= i < |patternNodes| ==> patternNodes[i] in h(patternNodes[i])
  }

  /** Candidate lists only hold compatible host nodes. */
  lemma CandidatesFitAlways<N(!new)>(patternNodes: seq<N>, hostNodes: seq<N>, w: N, h: N -> seq<N>)
    requires LabelsListed(patternNodes, BuildCandidates(patternNodes, hostNodes, w, h))
    ensures CandidatesFit(patternNodes, hostNodes, w, h, BuildCandidates(patternNodes, hostNodes, w, h))
  {
    var c := BuildCandidates(patternNodes, hostNodes, w, h);
    forall i, t | 0 <= i < |patternNodes| && 0 <= t < |c.groups[patternNodes[i]]|
      ensures c.groups[patternNodes[i]][t] < |hostNodes|
      ensures Compatible(patternNodes[i], hostNodes[c.groups[patternNodes[i]][t]], w, h)
    {
      CandidatesExact(patternNodes, hostNodes, w, h, patternNodes[i], c.groups[patternNodes[i]][t]);
    }
  }

  /** A pattern label k with a pattern node under it and some available
      candidate has a candidate list. */
  lemma LabelListedWhenAvailable<N(!new)>(patternNodes: seq<N>, hostNodes: seq<N>, w: N, h: N -> seq<N>, i: nat)
    requires i < |patternNodes| && patternNodes[i] in h(patternNodes[i])
    requires Available(BuildCandidates(patternNodes, hostNodes, w, h), patternNodes[i]) > 0
    ensures patternNodes[i] in BuildCandidates(patternNodes, hostNodes, w, h).groups
  {
    CandidateWildcards(patternNodes, hostNodes, w, h);
    CandidateKeys(patternNodes, hostNodes, w, h, patternNodes[i]);
  }

  /** Empty candidate lists add up to nothing. */
  lemma {:induction false} TotalOfEmpty<N>(groups: map<N, seq<nat>>, keys: seq<N>)
    requires forall t :: 0 <= t < |keys| ==> keys[t] in groups && groups[keys[t]] == []
    ensures Total(groups, keys) == 0
  {
    if |keys| > 0 {
      TotalOfEmpty(groups, keys[..|keys| - 1]);
    }
  }

  /** With no host nodes every candidate list is empty. */
  lemma EmptyHostLists<N(!new)>(patternNodes: seq<N>, w: N, h: N -> seq<N>, k: N)
    requires k in BuildCandidates(patternNodes, [], w, h).groups
    ensures BuildCandidates(patternNodes, [], w, h).groups[k] == []
  {
    var l := BuildCandidates(patternNodes, [], w, h).groups[k];
    if |l| > 0 {
      CandidatesExact(patternNodes, [], w, h, k, l[0]);
    }
  }

  /** With no host nodes the candidate lists add up to nothing. */
  lemma EmptyHostTotal<N(!new)>(pattern: seq<N>, w: N, h: N -> seq<N>)
    ensures var c := BuildCandidates(pattern, [], w, h); Total(c.groups, c.keys) == 0
  {
    var c := BuildCandidates(pattern, [], w, h);
    forall t | 0 <= t < |c.keys|
      ensures c.keys[t] in c.groups && c.groups[c.keys[t]] == []
    {
      EmptyHostLists(pattern, w, h, c.keys[t]);
    }
    TotalOfEmpty(c.groups, c.keys);
  }

  /** The sizing check as written only passes a pattern with wildcard nodes
      when the host has nodes. */
  lemma WildcardNeedsHost<N(!new)>(pattern: seq<N>, hostNodes: seq<N>, w: N, h: N -> seq<N>)
    requires w in GetNodesGroupedByType(pattern, h) && |GetNodesGroupedByType(pattern, h)[w]| > 0
    requires SizingAsWritten(GetNodesGroupedByType(pattern, h), BuildCandidates(pattern, hostNodes, w, h), w)
    ensures |hostNodes| > 0
  {
    if |hostNodes| == 0 {
      assert hostNodes == [];
      EmptyHostTotal(pattern, w, h);
      assert false;
    }
  }

  /** After the sizing check as written passes, every pattern node has a
      non-empty candidate list. */
  lemma ReadyAfterSizingAsWritten<N(!new)>(pattern: seq<N>, hostNodes: seq<N>, w: N, h: N -> seq<N>)
    requires LabelsReflexive(pattern, h)
    requires SizingAsWritten(GetNodesGroupedByType(pattern, h), BuildCandidates(pattern, hostNodes, w, h), w)
    ensures LabelsListed(pattern, BuildCandidates(pattern, hostNodes, w, h))
    ensures forall i :: 0 <= i < |pattern| ==> |BuildCandidates(pattern, hostNodes, w, h).groups[pattern[i]]| > 0
  {
    var from := GetNodesGroupedByType(pattern, h);
    var c := BuildCandidates(pattern, hostNodes, w, h);
    forall i | 0 <= i < |pattern|
      ensures pattern[i] in c.groups && |c.groups[pattern[i]]| > 0
    {
      var p := pattern[i];
      assert p in from && i in from[p];
      if p != w {
        LabelListedWhenAvailable(pattern, hostNodes, w, h, i);
      } else {
        WildcardNeedsHost(pattern, hostNodes, w, h);
      }
    }
  }

  /** After the stated sizing check passes, every pattern node has a
      non-empty candidate list. */
  lemma ReadyAfterSizing<N(!new)>(pattern: seq<N>, hostNodes: seq<N>, w: N, h: N -> seq<N>)
    requires LabelsReflexive(pattern, h)
    requires Sizing(GetNodesGroupedByType(pattern, h), BuildCandidates(pattern, hostNodes, w, h))
    ensures LabelsListed(pattern, BuildCandidates(pattern, hostNodes, w, h))
    ensures forall i :: 0 <= i < |pattern| ==> |BuildCandidates(pattern, hostNodes, w, h).groups[pattern[i]]| > 0
  {
    var from := GetNodesGroupedByType(pattern, h);
    var c := BuildCandidates(pattern, hostNodes, w, h);
    forall i | 0 <= i < |pattern|
      ensures pattern[i] in c.groups && |c.groups[pattern[i]]| > 0
    {
      var p := pattern[i];
      assert p in from && i in from[p];
      LabelListedWhenAvailable(pattern, hostNodes, w, h, i);
    }
  }

  /** `FindMorphisms` as written: nothing when the sizing check as written
      fails, otherwise every injective, compatible, edge-preserving node map
      the odometer reaches. Every result is a match. */
  function FindMorphismsAsWritten<N(==,!new), E(==)>(pattern: Graph<N, E>, host: Graph<N, E>, w: N, h: N -> seq<N>)
    : (r: seq<Morphism>)
    requires EndpointsInRange(pattern) && LabelsReflexive(pattern.nodes, h)
    ensures forall t :: 0 <= t < |r| ==> IsMatch(pattern, host, w, h, r[t])
  {
    var from := GetNodesGroupedByType(pattern.nodes, h);
    var c := BuildCandidates(pattern.nodes, host.nodes, w, h);
    if !SizingAsWritten(from, c, w) then []
    else
      ReadyAfterSizingAsWritten(pattern.nodes, host.nodes, w, h);
      CandidatesFitAlways(pattern.nodes, host.nodes, w, h);
      Enumerate(pattern, host, w, h, c)
  }

  /** `FindMorphisms` with the sizing check applied uniformly to every
      group. Every result is a match (and, under the hierarchy laws, every
      match is a result: see `FindMorphismsComplete`). */
  function FindMorphisms<N(==,!new), E(==)>(pattern: Graph<N, E>, host: Graph<N, E>, w: N, h: N -> seq<N>)
    : (r: seq<Morphism>)
    requires EndpointsInRange(pattern) && LabelsReflexive(pattern.nodes, h)
    ensures forall t :: 0 <= t < |r| ==> IsMatch(pattern, host, w, h, r[t])
  {
    var from := GetNodesGroupedByType(pattern.nodes, h);
    var c := BuildCandidates(pattern.nodes, host.nodes, w, h);
    if !Sizing(from, c) then []
    else
      ReadyAfterSizing(pattern.nodes, host.nodes, w, h);
      CandidatesFitAlways(pattern.nodes, host.nodes, w, h);
      Enumerate(pattern, host, w, h, c)
  }

  /** When the sizing check as written fails, the search as written yields
      nothing. */
  lemma SizingAsWrittenFails<N(!new), E>(pattern: Graph<N, E>, host: Graph<N, E>, w: N, h: N -> seq<N>)
    requires EndpointsInRange(pattern) && LabelsReflexive(pattern.nodes, h)
    requires !SizingAsWritten(GetNodesGroupedByType(pattern.nodes, h), BuildCandidates(pattern.nodes, host.nodes, w, h), w)
    ensures FindMorphismsAsWritten(pattern, host, w, h) == []
  {
  }

  /** A non-wildcard pattern group with more pattern nodes than host
      candidates stops both searches before the enumeration: nothing is
      yielded. */
  lemma TooFewCandidates<N(!new), E>(pattern: Graph<N, E>, host: Graph<N, E>, w: N, h: N -> seq<N>, k: N)
    requires EndpointsInRange(pattern) && LabelsReflexive(pattern.nodes, h)
    requires k != w && k in GetNodesGroupedByType(pattern.nodes, h)
    requires Available(BuildCandidates(pattern.nodes, host.nodes, w, h), k)
      < |GetNodesGroupedByType(pattern.nodes, h)[k]|
    ensures FindMorphismsAsWritten(pattern, host, w, h) == []
    ensures FindMorphisms(pattern, host, w, h) == []
  {
    var from := GetNodesGroupedByType(pattern.nodes, h);
    var c := BuildCandidates(pattern.nodes, host.nodes, w, h);
    assert !Sizing(from, c);
    assert !SizingAsWritten(from, c, w);
  }

  // ---------------------------------------------------------------------
  // Completeness of the corrected search
  // ---------------------------------------------------------------------

  /** Under the hierarchy laws, the image of pattern node i is a candidate
      of every group that node's hierarchy names. */
  lemma MatchImageIsCandidate<N(!new), E>(pattern: Graph<N, E>, host: Graph<N, E>, w: N, h: N -> seq<N>,
                                          m: Morphism, i: nat, k: N)
    requires HierarchyLaws(h, w) && IsMatch(pattern, host, w, h, m)
    requires i < |pattern.nodes| && k in h(pattern.nodes[i])
    ensures k in BuildCandidates(pattern.nodes, host.nodes, w, h).groups
    ensures m.nodeMap[i] in BuildCandidates(pattern.nodes, host.nodes, w, h).groups[k]
  {
    var p, j := pattern.nodes[i], m.nodeMap[i];
    var q := host.nodes[j];
    assert Compatible(p, q, w, h);
    if p == w {
      assert k == w;
    } else if p in h(q) {
      assert k in h(q);
    } else {
      assert w in h(q) && HostHasWildcards(host.nodes, w, h);
    }
    CandidateKeys(pattern.nodes, host.nodes, w, h, k);
    CandidatesExact(pattern.nodes, host.nodes, w, h, k, j);
  }

  /** Every group named by pattern node i's hierarchy has a candidate list,
      and nodeMap[i] is on it. */
  ghost predicate ImagesIn<N>(nodes: seq<N>, h: N -> seq<N>, nodeMap: seq<nat>, groups: map<N, seq<nat>>)
    requires |nodeMap| == |nodes|
  {
    forall i, t :: 0 <= i < |nodes| && 0 <= t < |h(nodes[i])| ==>
      h(nodes[i])[t] in groups && nodeMap[i] in groups[h(nodes[i])[t]]
  }

  /** The images of the pattern nodes are candidates of every group their
      hierarchies name. */
  ghost predicate ImagesAreCandidates<N(!new), E>(pattern: Graph<N, E>, host: Graph<N, E>, w: N, h: N -> seq<N>, m: Morphism)
    requires |m.nodeMap| == |pattern.nodes|
  {
    ImagesIn(pattern.nodes, h, m.nodeMap, BuildCandidates(pattern.nodes, host.nodes, w, h).groups)
  }

  lemma MatchImagesAreCandidates<N(!new), E>(pattern: Graph<N, E>, host: Graph<N, E>, w: N, h: N -> seq<N>, m: Morphism)
    requires HierarchyLaws(h, w) && IsMatch(pattern, host, w, h, m)
    ensures ImagesAreCandidates(pattern, host, w, h, m)
    ensures forall i :: 0 <= i < |pattern.nodes| ==> Distinct(h(pattern.nodes[i]))
  {
    var c := BuildCandidates(pattern.nodes, host.nodes, w, h);
    forall i, t | 0 <= i < |pattern.nodes| && 0 <= t < |h(pattern.nodes[i])|
      ensures h(pattern.nodes[i])[t] in c.groups && m.nodeMap[i] in c.groups[h(pattern.nodes[i])[t]]
    {
      MatchImageIsCandidate(pattern, host, w, h, m, i, h(pattern.nodes[i])[t]);
    }
  }

  /** One group of the stated sizing check, for an injective node map: if
      the images of the group's pattern nodes all lie in l, the group has
      no more pattern nodes than l has entries. */
  lemma GroupFitsMatch<N(!new)>(nodes: seq<N>, h: N -> seq<N>, nodeMap: seq<nat>, k: N, l: seq<nat>)
    requires |nodeMap| == |nodes| && Distinct(nodeMap)
    requires forall i :: 0 <= i < |nodes| ==> Distinct(h(nodes[i]))
    requires forall i :: 0 <= i < |nodes| && k in h(nodes[i]) ==> nodeMap[i] in l
    requires k in GetNodesGroupedByType(nodes, h)
    ensures |GetNodesGroupedByType(nodes, h)[k]| <= |l|
  {
    var idx := IndicesIn(nodes, h, k);
    assert GetNodesGroupedByType(nodes, h)[k] == idx;
    IndicesInStrict(nodes, h, k);
    ImagesWithin(nodeMap, idx, l);
  }

  /** Distinct positions of an injective map whose images all lie in l are
      no more than l is long. */
  lemma ImagesWithin(nodeMap: seq<nat>, idx: seq<nat>, l: seq<nat>)
    requires Distinct(nodeMap)
    requires forall s, t :: 0 <= s < t < |idx| ==> idx[s] < idx[t]
    requires forall t :: 0 <= t < |idx| ==> idx[t] < |nodeMap| && nodeMap[idx[t]] in l
    ensures |idx| <= |l|
  {
    var images := seq(|idx|, t requires 0 <= t < |idx| => nodeMap[idx[t]]);
    assert Distinct(images) by {
      forall s, t | 0 <= s < t < |idx|
        ensures images[s] != images[t]
      {
        assert idx[s] < idx[t];
      }
    }
    DistinctWithinLength(images, l);
  }

  /** An injective node map whose images are candidates passes the stated
      sizing check. */
  lemma SizingOfMatch<N(!new), E>(pattern: Graph<N, E>, host: Graph<N, E>, w: N, h: N -> seq<N>, m: Morphism)
    requires |m.nodeMap| == |pattern.nodes| && Distinct(m.nodeMap)
    requires forall i :: 0 <= i < |pattern.nodes| ==> Distinct(h(pattern.nodes[i]))
    requires ImagesAreCandidates(pattern, host, w, h, m)
    ensures Sizing(GetNodesGroupedByType(pattern.nodes, h), BuildCandidates(pattern.nodes, host.nodes, w, h))
  {
    SizingFromImages(pattern.nodes, h, m.nodeMap, BuildCandidates(pattern.nodes, host.nodes, w, h));
  }

  lemma SizingFromImages<N(!new)>(nodes: seq<N>, h: N -> seq<N>, nodeMap: seq<nat>, c: Candidates<N>)
    requires |nodeMap| == |nodes| && Distinct(nodeMap)
    requires forall i :: 0 <= i < |nodes| ==> Distinct(h(nodes[i]))
    requires ImagesIn(nodes, h, nodeMap, c.groups)
    ensures Sizing(GetNodesGroupedByType(nodes, h), c)
  {
    var from := GetNodesGroupedByType(nodes, h);
    forall k | k in from
      ensures k in c.groups && |c.groups[k]| >= |from[k]|
    {
      var i0 :| 0 <= i0 < |nodes| && k in h(nodes[i0]);
      var t0 :| 0 <= t0 < |h(nodes[i0])| && h(nodes[i0])[t0] == k;
      forall i | 0 <= i < |nodes| && k in h(nodes[i])
        ensures nodeMap[i] in c.groups[k]
      {
        var t :| 0 <= t < |h(nodes[i])| && h(nodes[i])[t] == k;
      }
      GroupFitsMatch(nodes, h, nodeMap, k, c.groups[k]);
    }
  }

  /** Every pattern node's own label has a candidate list holding the
      node's image. */
  predicate OwnListed<N(==)>(nodes: seq<N>, nodeMap: seq<nat>, c: Candidates<N>)
    requires |nodeMap| == |nodes|
  {
    forall i :: 0 <= i < |nodes| ==> nodes[i] in c.groups && nodeMap[i] in c.groups[nodes[i]]
  }

  lemma OwnListedOfMatch<N(!new), E>(pattern: Graph<N, E>, host: Graph<N, E>, w: N, h: N -> seq<N>, m: Morphism)
    requires |m.nodeMap| == |pattern.nodes| && LabelsReflexive(pattern.nodes, h)
    requires ImagesAreCandidates(pattern, host, w, h, m)
    ensures OwnListed(pattern.nodes, m.nodeMap, BuildCandidates(pattern.nodes, host.nodes, w, h))
  {
    var nodes := pattern.nodes;
    forall i | 0 <= i < |nodes|
      ensures nodes[i] in BuildCandidates(nodes, host.nodes, w, h).groups
      ensures m.nodeMap[i] in BuildCandidates(nodes, host.nodes, w, h).groups[nodes[i]]
    {
      var t :| 0 <= t < |h(nodes[i])| && h(nodes[i])[t] == nodes[i];
    }
  }

  /** The counter tuple that selects a given node map: each counter at the
      first position of the image in its node's candidate list. */
  function TupleOf<N(==)>(nodes: seq<N>, c: Candidates<N>, nodeMap: seq<nat>): (tuple: seq<nat>)
    requires |nodeMap| == |nodes| && OwnListed(nodes, nodeMap, c)
    ensures LabelsListed(nodes, c)
    ensures InBounds(tuple, Sizes(nodes, c))
    ensures NodeMapOf(nodes, c, tuple) == nodeMap
  {
    var tuple := seq(|nodes|, i requires 0 <= i < |nodes| => IndexOf(c.groups[nodes[i]], nodeMap[i]).value);
    assert NodeMapOf(nodes, c, tuple) == nodeMap;
    tuple
  }

  /** The search attempt at a match's tuple yields exactly that match. */
  lemma AttemptOfMatch<N, E>(pattern: Graph<N, E>, host: Graph<N, E>, w: N, h: N -> seq<N>, c: Candidates<N>, m: Morphism)
    requires IsMatch(pattern, host, w, h, m) && OwnListed(pattern.nodes, m.nodeMap, c)
    ensures Attempt(pattern, host, c, TupleOf(pattern.nodes, c, m.nodeMap)) == [m]
  {
    var r := FromNodeMap(pattern, host, m.nodeMap);
    assert r.Some?;
    assert r.value.edgeMap == m.edgeMap;
  }

  /** Under the hierarchy laws the corrected search finds every match. */
  lemma FindMorphismsComplete<N(!new), E>(pattern: Graph<N, E>, host: Graph<N, E>, w: N, h: N -> seq<N>, m: Morphism)
    requires HierarchyLaws(h, w) && IsMatch(pattern, host, w, h, m)
    ensures LabelsReflexive(pattern.nodes, h)
    ensures m in FindMorphisms(pattern, host, w, h)
  {
    var c := BuildCandidates(pattern.nodes, host.nodes, w, h);
    MatchImagesAreCandidates(pattern, host, w, h, m);
    SizingOfMatch(pattern, host, w, h, m);
    ReadyAfterSizing(pattern.nodes, host.nodes, w, h);
    CandidatesFitAlways(pattern.nodes, host.nodes, w, h);
    OwnListedOfMatch(pattern, host, w, h, m);
    EnumerateContains(pattern, host, w, h, c, m);
    assert FindMorphisms(pattern, host, w, h) == Enumerate(pattern, host, w, h, c);
  }

  /** Under the hierarchy laws the search as written finds every match
      whenever its sizing check passes: the sizing check is its only
      source of missed matches. */
  lemma FindMorphismsAsWrittenComplete<N(!new), E>(pattern: Graph<N, E>, host: Graph<N, E>, w: N, h: N -> seq<N>, m: Morphism)
    requires HierarchyLaws(h, w) && IsMatch(pattern, host, w, h, m)
    requires SizingAsWritten(GetNodesGroupedByType(pattern.nodes, h), BuildCandidates(pattern.nodes, host.nodes, w, h), w)
    ensures LabelsReflexive(pattern.nodes, h)
    ensures m in FindMorphismsAsWritten(pattern, host, w, h)
  {
    var c := BuildCandidates(pattern.nodes, host.nodes, w, h);
    MatchImagesAreCandidates(pattern, host, w, h, m);
    ReadyAfterSizingAsWritten(pattern.nodes, host.nodes, w, h);
    CandidatesFitAlways(pattern.nodes, host.nodes, w, h);
    OwnListedOfMatch(pattern, host, w, h, m);
    EnumerateContains(pattern, host, w, h, c, m);
    assert FindMorphismsAsWritten(pattern, host, w, h) == Enumerate(pattern, host, w, h, c);
  }

  /** The two sizing checks differ only on the wildcard group: for a
      pattern none of whose nodes falls in the wildcard group, the search as
      written and the corrected search yield the same morphisms. */
  lemma NoWildcardSearchesAgree<N(!new), E>(pattern: Graph<N, E>, host: Graph<N, E>, w: N, h: N -> seq<N>)
    requires EndpointsInRange(pattern) && LabelsReflexive(pattern.nodes, h)
    requires w !in GetNodesGroupedByType(pattern.nodes, h)
    ensures FindMorphismsAsWritten(pattern, host, w, h) == FindMorphisms(pattern, host, w, h)
  {
    var from := GetNodesGroupedByType(pattern.nodes, h);
    var c := BuildCandidates(pattern.nodes, host.nodes, w, h);
    assert SizingAsWritten(from, c, w) <==> Sizing(from, c);
  }

  /** The enumeration over any candidate lists finds every match whose
      images are listed under the pattern nodes' own labels. */
  lemma EnumerateContains<N, E>(pattern: Graph<N, E>, host: Graph<N, E>, w: N, h: N -> seq<N>, c: Candidates<N>, m: Morphism)
    requires EndpointsInRange(pattern) && LabelsListed(pattern.nodes, c)
    requires CandidatesFit(pattern.nodes, host.nodes, w, h, c)
    requires forall i :: 0 <= i < |pattern.nodes| ==> |c.groups[pattern.nodes[i]]| > 0
    requires IsMatch(pattern, host, w, h, m) && OwnListed(pattern.nodes, m.nodeMap, c)
    ensures m in Enumerate(pattern, host, w, h, c)
  {
    var tuple := TupleOf(pattern.nodes, c, m.nodeMap);
    var sizes := Sizes(pattern.nodes, c);
    WalkFromZerosComplete(sizes, tuple);
    var tuples := Walk(Zeros(|sizes|), sizes);
    WalkRanks(Zeros(|sizes|), sizes);
    var k :| 0 <= k < |tuples| && tuples[k] == tuple;
    AttemptOfMatch(pattern, host, w, h, c, m);
    CollectContains(pattern, host, w, h, c, tuples, k, m);
  }

  // ---------------------------------------------------------------------
  // The wildcard sizing rule as written misses matches
  // ---------------------------------------------------------------------

  /** One node, labelled w (given as a variable rather than a literal, so
      that the solver does not unfold every definition on it eagerly). */
  predicate Lone<N(==)>(nodes: seq<N>, w: N) {
    |nodes| == 1 && nodes[0] == w
  }

  lemma LoneGroup<N(!new)>(nodes: seq<N>, w: N, h: N -> seq<N>)
    requires Lone(nodes, w) && h(w) == [w]
    ensures w in GetNodesGroupedByType(nodes, h) && GetNodesGroupedByType(nodes, h)[w] == [0]
  {
    var from := GetNodesGroupedByType(nodes, h);
    assert w in h(nodes[0]);
    assert from[w] == IndicesIn(nodes, h, w);
    assert nodes[..0] == [];
    assert CountWhere(h(w), (x: N) => x == w) == 1 by {
      assert h(w)[..0] == [];
    }
  }

  lemma LoneKeysAreWildcard<N(!new)>(nodes: seq<N>, w: N, h: N -> seq<N>, k: N)
    requires Lone(nodes, w) && h(w) == [w]
    requires k in BuildCandidates(nodes, nodes, w, h).keys
    ensures k == w
  {
    CandidateKeys(nodes, nodes, w, h, k);
  }

  lemma LoneKeys<N(!new)>(nodes: seq<N>, w: N, h: N -> seq<N>)
    requires Lone(nodes, w) && h(w) == [w]
    ensures BuildCandidates(nodes, nodes, w, h).keys == [w]
  {
    var keys := BuildCandidates(nodes, nodes, w, h).keys;
    forall t | 0 <= t < |keys|
      ensures keys[t] == w
    {
      LoneKeysAreWildcard(nodes, w, h, keys[t]);
    }
    OnlyElement(keys, w);
  }

  /** A sequence without repeats that holds x and nothing else is [x]. */
  lemma OnlyElement<N>(s: seq<N>, x: N)
    requires Distinct(s) && x in s
    requires forall t :: 0 <= t < |s| ==> s[t] == x
    ensures s == [x]
  {
    if |s| > 1 {
      DistinctHeads(s);
      assert false;
    }
  }

  lemma DistinctHeads<N>(s: seq<N>)
    requires Distinct(s) && |s| > 1
    ensures s[0] != s[1]
  {
  }

  lemma LoneCandidates<N(!new)>(nodes: seq<N>, w: N, h: N -> seq<N>)
    requires Lone(nodes, w)
    ensures BuildCandidates(nodes, nodes, w, h).groups[w] == [0]
  {
    var all := Range(0, |nodes|);
    assert |all| == 1 && all[0] == 0;
  }

  /** With one wildcard node on either side, the sizing check as written
      fails: one host node, less one pattern wildcard node, is fewer than
      one. */
  lemma LoneWildcardSizing<N(!new)>(nodes: seq<N>, w: N, h: N -> seq<N>)
    requires Lone(nodes, w) && h(w) == [w]
    ensures !SizingAsWritten(GetNodesGroupedByType(nodes, h), BuildCandidates(nodes, nodes, w, h), w)
  {
    var c := BuildCandidates(nodes, nodes, w, h);
    LoneGroup(nodes, w, h);
    LoneKeys(nodes, w, h);
    LoneCandidates(nodes, w, h);
    assert Total(c.groups, c.keys) == 1 by {
      assert c.keys[..0] == [];
    }
  }

  /** A pattern of one wildcard node, matched against a host of one wildcard
      node: the identity is a match and the corrected search finds it, but
      the sizing check as written subtracts the pattern's own wildcard count
      from the one available host node and gives up. */
  lemma LoneWildcardMissed<N(!new)>(w: N, h: N -> seq<N>)
    requires HierarchyLaws(h, w)
    ensures var g: Graph<N, nat> := Graph([w], []);
      && IsMatch(g, g, w, h, Morphism([0], []))
      && LabelsReflexive(g.nodes, h)
      && FindMorphismsAsWritten(g, g, w, h) == []
      && Morphism([0], []) in FindMorphisms(g, g, w, h)
  {
    var g: Graph<N, nat> := Graph([w], []);
    var m := Morphism([0], []);
    assert IsMatch(g, g, w, h, m);
    FindMorphismsComplete(g, g, w, h, m);
    LoneWildcardSizing(g.nodes, w, h);
  }
}
