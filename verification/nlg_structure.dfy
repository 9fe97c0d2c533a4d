/** Sentence planning (`StructureTextContent`): the scene consists of its
    root objects, most important first; each root then consists of its
    cluster, followed by the relations that touch the cluster; the rest of
    the relations come last. */
module TextStructures {
  import opened Wrappers
  import opened Seqs
  import opened Graphs
  import opened Relationships
  import opened NodeInfo
  import opened SceneGraphs
  import opened TextContents

  type Rel = Edge<RelationshipType>

  /** `TextEntityReference`: entities mentioned together, each with its
      `PrefersIndefiniteForm` flag; entities are positions in the
      structure's entity table. */
  datatype Reference = Reference(entities: seq<nat>, indefinite: seq<bool>)

  /** The constructor from entities alone: every flag starts false. */
  function Ref(es: seq<nat>): (r: Reference)
    ensures r.entities == es && |r.indefinite| == |es|
    ensures forall i :: 0 <= i < |es| ==> !r.indefinite[i]
  {
    Reference(es, seq(|es|, _ => false))
  }

  /** `RelatesToSentenceSkeleton`: subject, relation, object, and whether
      it is realised object first (`RealizeInverted`). */
  datatype Clause = Clause(subject: Reference, rel: RelationshipType, obj: Reference, inverted: bool)

  datatype Sentence =
    | ConsistsOf(container: Reference, content: Reference, integrated: Option<Clause>)
    | RelatesTo(clause: Clause)

  /** `TextStructure`: the entity table (content entities, then the
      scene), the order in which entities are introduced, and the
      sentences. */
  datatype TextStructure = TextStructure(table: seq<TextEntity>, entities: seq<nat>, sentences: seq<Sentence>)

  /** The info of the extra "scene" entity: one word, default importance. */
  const SceneInfo: NodeInfoProvider := NodeInfoProvider(["scene"], "", 0.0)

  /** The relates-to sentence of one relationship. */
  function RelSentence(r: Rel): Sentence {
    RelatesTo(Clause(Ref([r.from]), r.rel, Ref([r.to]), false))
  }

  /** One relates-to sentence per relationship, in order; a sentence
      occurs as often as its relationship. */
  function Relates(rs: seq<Rel>): (r: seq<Sentence>)
    ensures |r| == |rs|
    ensures forall k :: 0 <= k < |r| ==> r[k] == RelSentence(rs[k])
  {
    if |rs| == 0 then [] else Relates(rs[..|rs| - 1]) + [RelSentence(rs[|rs| - 1])]
  }

  lemma RelSentenceInjective(x: Rel, y: Rel)
    ensures RelSentence(x) == RelSentence(y) ==> x == y
  {
    if RelSentence(x) == RelSentence(y) {
      assert [x.from][0] == [y.from][0];
      assert [x.to][0] == [y.to][0];
    }
  }

  /** A relationship's sentence occurs as often as the relationship. */
  lemma {:induction false} RelatesCount(rs: seq<Rel>, x: Rel)
    ensures multiset(Relates(rs))[RelSentence(x)] == multiset(rs)[x]
  {
    if |rs| > 0 {
      var init := rs[..|rs| - 1];
      var y := rs[|rs| - 1];
      assert rs == init + [y];
      RelatesCount(init, x);
      RelSentenceInjective(x, y);
    }
  }

  // ---------------------------------------------------------------------
  // Roots, clusters, and the order of the roots
  // ---------------------------------------------------------------------

  /** An entity of the content that belongs to no cluster. */
  predicate IsRootEntity(c: TextContent, e: nat) {
    e < |c.entities| && c.entities[e].parent.None?
  }

  /** The roots below m, in table order. */
  function RootsBelow(c: TextContent, m: nat): (r: seq<nat>)
    requires m <= |c.entities|
    ensures forall e: nat :: e in r <==> e < m && IsRootEntity(c, e)
    ensures Distinct(r)
  {
    if m == 0 then []
    else
      var init := RootsBelow(c, m - 1);
      assert m - 1 !in init;
      init + (if c.entities[m - 1].parent.None? then [m - 1] else [])
  }

  /** The entities below m whose parent is p, in table order. */
  function ChildrenOf(c: TextContent, p: nat, m: nat): (r: seq<nat>)
    requires m <= |c.entities|
    ensures forall e: nat :: e in r <==> e < m && c.entities[e].parent == Some(p)
    ensures Distinct(r)
  {
    if m == 0 then []
    else
      var init := ChildrenOf(c, p, m - 1);
      assert m - 1 !in init;
      init + (if c.entities[m - 1].parent == Some(p) then [m - 1] else [])
  }

  predicate InTable(c: TextContent, s: seq<nat>) {
    forall k :: 0 <= k < |s| ==> s[k] < |c.entities|
  }

  function Importance(c: TextContent, e: nat): real
    requires e < |c.entities|
  {
    c.entities[e].info.importance
  }

  /** Entities of the table, from the most important to the least. */
  predicate Descending(c: TextContent, s: seq<nat>) {
    InTable(c, s) && forall i, j :: 0 <= i < j < |s| ==> Importance(c, s[i]) >= Importance(c, s[j])
  }

  /** Inserts x after every entity at least as important, so that entities
      of equal importance keep their order. */
  function Insert(c: TextContent, x: nat, s: seq<nat>): (r: seq<nat>)
    requires x < |c.entities| && Descending(c, s)
    ensures multiset(r) == multiset(s) + multiset{x}
    ensures forall y :: y in r <==> y == x || y in s
    ensures Descending(c, r)
  {
    if |s| == 0 then [x]
    else
      var init := s[..|s| - 1];
      var last := s[|s| - 1];
      assert s == init + [last];
      DescendingBelow(c, s);
      if Importance(c, last) >= Importance(c, x) then
        DescendingSnoc(c, s, x);
        s + [x]
      else
        var r := Insert(c, x, init);
        DescendingSnoc(c, r, last);
        r + [last]
  }

  /** Every entity of a descending list is at least as important as its
      last entity. */
  lemma DescendingBelow(c: TextContent, s: seq<nat>)
    requires Descending(c, s) && |s| > 0
    ensures forall y :: y in s ==> y < |c.entities| && Importance(c, y) >= Importance(c, s[|s| - 1])
  {
  }

  /** A descending list stays descending when an entity no more
      important than all of it is appended. */
  lemma DescendingSnoc(c: TextContent, s: seq<nat>, y: nat)
    requires Descending(c, s) && y < |c.entities|
    requires forall z :: z in s ==> Importance(c, z) >= Importance(c, y)
    ensures Descending(c, s + [y])
  {
    assert forall k :: 0 <= k < |s| ==> s[k] in s;
  }

  /** `OrderByDescending(ObjectImportance)`, as a stable insertion sort. */
  function SortByImportance(c: TextContent, s: seq<nat>): (r: seq<nat>)
    requires InTable(c, s)
    ensures multiset(r) == multiset(s)
    ensures Descending(c, r)
  {
    if |s| == 0 then []
    else
      assert s == s[..|s| - 1] + [s[|s| - 1]];
      Insert(c, s[|s| - 1], SortByImportance(c, s[..|s| - 1]))
  }

  /** `parents`: the roots, most important first. */
  function SortedRoots(c: TextContent): (r: seq<nat>)
    ensures multiset(r) == multiset(RootsBelow(c, |c.entities|))
    ensures Descending(c, r)
  {
    var roots := RootsBelow(c, |c.entities|);
    assert forall k :: 0 <= k < |roots| ==> roots[k] in roots;
    SortByImportance(c, roots)
  }

  // ---------------------------------------------------------------------
  // Relationship filters
  // ---------------------------------------------------------------------

  /** Both ends of the relationship are roots (`parentRelationships`). */
  predicate BetweenRoots(c: TextContent, x: Rel) {
    IsRootEntity(c, x.from) && IsRootEntity(c, x.to)
  }

  function BetweenRootsOf(c: TextContent, rs: seq<Rel>): (r: seq<Rel>)
    ensures forall x :: multiset(r)[x] == if BetweenRoots(c, x) then multiset(rs)[x] else 0
  {
    var keep := (x: Rel) => BetweenRoots(c, x);
    FilterMultiset(rs, keep);
    Filter(rs, keep)
  }

  /** A part-of relationship whose object is p: dropped when p's cluster
      is described. */
  predicate DroppedBy(x: Rel, p: nat) {
    IsTypePartOf(x.rel) && x.to == p
  }

  function DropPartOfTo(rs: seq<Rel>, p: nat): (r: seq<Rel>)
    ensures forall x :: multiset(r)[x] == if DroppedBy(x, p) then 0 else multiset(rs)[x]
  {
    var keep := (x: Rel) => !DroppedBy(x, p);
    FilterMultiset(rs, keep);
    Filter(rs, keep)
  }

  /** The relationships with an end in the family (`relevantRelationships`). */
  function Touching(rs: seq<Rel>, family: seq<nat>): (r: seq<Rel>)
    ensures forall x :: multiset(r)[x] == if x.from in family || x.to in family then multiset(rs)[x] else 0
  {
    var keep := (x: Rel) => x.from in family || x.to in family;
    FilterMultiset(rs, keep);
    Filter(rs, keep)
  }

  // ---------------------------------------------------------------------
  // The plan
  // ---------------------------------------------------------------------

  /** Sentences and introduced entities so far, and the relationships
      still to be described. */
  datatype Planned = Planned(sentences: seq<Sentence>, entities: seq<nat>, remaining: seq<Rel>)

  /** e is the root p or one of its children. */
  predicate InFamily(c: TextContent, e: nat, p: nat) {
    e == p || (e < |c.entities| && c.entities[e].parent == Some(p))
  }

  predicate TouchesFamily(c: TextContent, x: Rel, p: nat) {
    InFamily(c, x.from, p) || InFamily(c, x.to, p)
  }

  /** The root p followed by its children (`parentAndChildren`). */
  function Family(c: TextContent, p: nat): (r: seq<nat>)
    ensures forall e: nat :: e in r <==> InFamily(c, e, p)
  {
    [p] + ChildrenOf(c, p, |c.entities|)
  }

  /** The relationships the round for p describes: those left after
      dropping the part-of relationships into p that touch p's family. */
  function Relevant(c: TextContent, p: nat, remaining: seq<Rel>): seq<Rel> {
    Touching(DropPartOfTo(remaining, p), Family(c, p))
  }

  /** One round of the loop over the roots: the root consists of its
      children (when it has any); the part-of relationships into the root
      are dropped; then the relationships touching the root or a child are
      described and removed. */
  function Block(c: TextContent, p: nat, remaining: seq<Rel>): Planned {
    var children := ChildrenOf(c, p, |c.entities|);
    var head := if |children| > 0 then [ConsistsOf(Ref([p]), Ref(children), None)] else [];
    var relevant := Relevant(c, p, remaining);
    Planned(head + Relates(relevant), children, Except(DropPartOfTo(remaining, p), relevant))
  }

  /** The loop over the roots, in order. */
  function Blocks(c: TextContent, parents: seq<nat>, remaining: seq<Rel>): Planned {
    if |parents| == 0 then Planned([], [], remaining)
    else
      var before := Blocks(c, parents[..|parents| - 1], remaining);
      var b := Block(c, parents[|parents| - 1], before.remaining);
      Planned(before.sentences + b.sentences, before.entities + b.entities, b.remaining)
  }

  /** `StructureTextContent`. The scene entity is added at the end of the
      table, at position |c.entities|. */
  function StructureTextContent(c: TextContent): TextStructure {
    Assemble(c.entities, SortedRoots(c), BetweenRootsOf(c, c.relationships), Rounds(c))
  }

  /** The relationships left for the rounds: all but those between roots,
      without repeats (`remainingRelationships.Except(parentRelationships)`). */
  function RoundsInput(c: TextContent): seq<Rel> {
    Except(c.relationships, BetweenRootsOf(c, c.relationships))
  }

  /** The loop over the roots, most important first. */
  function Rounds(c: TextContent): Planned {
    Blocks(c, SortedRoots(c), RoundsInput(c))
  }

  /** The structure of a plan: the scene consists of the roots; then the
      relationships between roots, the rounds, and the rest. */
  function Assemble(entities: seq<TextEntity>, parents: seq<nat>, parentRelationships: seq<Rel>, blocks: Planned)
    : TextStructure
  {
    var scene := |entities|;
    TextStructure(
      entities + [TextEntity(SceneInfo, None)],
      [scene] + parents + blocks.entities,
      [ConsistsOf(Ref([scene]), Ref(parents), None)] + Relates(parentRelationships)
        + blocks.sentences + Relates(blocks.remaining))
  }

  lemma AssembleCount(entities: seq<TextEntity>, parents: seq<nat>, parentRelationships: seq<Rel>, blocks: Planned, x: Rel)
    ensures multiset(Assemble(entities, parents, parentRelationships, blocks).sentences)[RelSentence(x)]
      == multiset(parentRelationships)[x] + multiset(blocks.sentences)[RelSentence(x)] + multiset(blocks.remaining)[x]
  {
    var a := [ConsistsOf(Ref([|entities|]), Ref(parents), None)];
    assert multiset(a)[RelSentence(x)] == 0;
    RelatesCount(parentRelationships, x);
    RelatesCount(blocks.remaining, x);
  }
  // ---------------------------------------------------------------------
  // The first sentence
  // ---------------------------------------------------------------------

  /** The plan opens with the scene: the scene entity is added to the
      table and introduced first, and the first sentence says that the
      scene consists of every root entity exactly once, most important
      first; the roots are introduced right after the scene. */
  lemma StructureOpens(c: TextContent)
    ensures var s := StructureTextContent(c);
      && s.table == c.entities + [TextEntity(SceneInfo, None)]
      && |s.entities| > 0 && s.entities[0] == |c.entities|
      && |s.sentences| > 0 && s.sentences[0].ConsistsOf?
      && s.sentences[0].container.entities == [|c.entities|]
      && s.sentences[0].integrated.None?
    ensures var s := StructureTextContent(c);
      var roots := s.sentences[0].content.entities;
      && Distinct(roots)
      && (forall e: nat :: e in roots <==> IsRootEntity(c, e))
      && Descending(c, roots)
      && |s.entities| > |roots| && s.entities[1..|roots| + 1] == roots
  {
    var roots := RootsBelow(c, |c.entities|);
    var sorted := SortedRoots(c);
    DistinctByMultiset(roots, sorted);
    forall e: nat
      ensures e in sorted <==> IsRootEntity(c, e)
    {
      assert e in sorted <==> e in multiset(sorted);
      assert e in roots <==> e in multiset(roots);
    }
  }

  // ---------------------------------------------------------------------
  // Every relationship is described once, unless it is dropped
  // ---------------------------------------------------------------------

  /** Some root of the list, or one of its children, is an end of x. */
  predicate TouchedBy(c: TextContent, x: Rel, parents: seq<nat>) {
    |parents| > 0 && (TouchedBy(c, x, parents[..|parents| - 1]) || TouchesFamily(c, x, parents[|parents| - 1]))
  }

  /** The cluster agrees with a part-of relationship: its subject's parent
      is its object. */
  predicate PartOfParent(c: TextContent, x: Rel) {
    IsTypePartOf(x.rel) ==> x.from < |c.entities| && c.entities[x.from].parent == Some(x.to)
  }

  predicate AllRoots(c: TextContent, parents: seq<nat>) {
    forall k :: 0 <= k < |parents| ==> IsRootEntity(c, parents[k])
  }

  lemma {:induction false} TouchedByMember(c: TextContent, x: Rel, parents: seq<nat>, p: nat)
    requires p in parents && TouchesFamily(c, x, p)
    ensures TouchedBy(c, x, parents)
  {
    var init := parents[..|parents| - 1];
    if p != parents[|parents| - 1] {
      assert p in init by {
        var k :| 0 <= k < |parents| && parents[k] == p;
        assert init[k] == p;
      }
      TouchedByMember(c, x, init, p);
    }
  }

  /** A part-of relationship that agrees with the clusters is only touched
      through its object's family: by its object, when that is a root. */
  lemma {:induction false} TouchedPartOf(c: TextContent, x: Rel, parents: seq<nat>)
    requires AllRoots(c, parents) && PartOfParent(c, x) && IsTypePartOf(x.rel)
    requires TouchedBy(c, x, parents)
    ensures x.to in parents || !IsRootEntity(c, x.to)
  {
    var init := parents[..|parents| - 1];
    if TouchedBy(c, x, init) {
      TouchedPartOf(c, x, init);
    }
  }

  /** A relationship is described in p's round once if it is still to be
      described, touches p's family and is not a part-of relationship
      into p; otherwise not at all. */
  lemma RelevantCount(c: TextContent, p: nat, rem: seq<Rel>, x: Rel)
    requires Distinct(rem)
    ensures multiset(Relevant(c, p, rem))[x] ==
      if x in rem && TouchesFamily(c, x, p) && !DroppedBy(x, p) then 1 else 0
  {
    DistinctOnce(rem, x);
    assert x.from in Family(c, p) <==> InFamily(c, x.from, p);
    assert x.to in Family(c, p) <==> InFamily(c, x.to, p);
  }

  /** After p's round, what remains is what no part of p's family
      touches. */
  lemma BlockRemaining(c: TextContent, p: nat, rem: seq<Rel>)
    requires Distinct(rem)
    ensures var b := Block(c, p, rem);
      && Distinct(b.remaining)
      && forall x :: x in b.remaining <==> x in rem && !TouchesFamily(c, x, p)
  {
    var kept := DropPartOfTo(rem, p);
    var relevant := Relevant(c, p, rem);
    forall x
      ensures x in Except(kept, relevant) <==> x in rem && !TouchesFamily(c, x, p)
    {
      RelevantCount(c, p, rem, x);
      assert x in kept <==> x in multiset(kept);
      assert x in rem <==> x in multiset(rem);
      assert x in relevant <==> x in multiset(relevant);
    }
  }

  /** How often p's round describes a relationship. */
  lemma BlockCount(c: TextContent, p: nat, rem: seq<Rel>, x: Rel)
    requires Distinct(rem)
    ensures multiset(Block(c, p, rem).sentences)[RelSentence(x)] ==
      if x in rem && TouchesFamily(c, x, p) && !DroppedBy(x, p) then 1 else 0
  {
    var children := ChildrenOf(c, p, |c.entities|);
    var head := if |children| > 0 then [ConsistsOf(Ref([p]), Ref(children), None)] else [];
    assert Block(c, p, rem).sentences == head + Relates(Relevant(c, p, rem));
    RelevantCount(c, p, rem, x);
    RelatesCount(Relevant(c, p, rem), x);
    assert multiset(head)[RelSentence(x)] == 0;
  }

  /** The case analysis of one round of the loop, on the predicates
      alone. */
  lemma CountStep(c: TextContent, init: seq<nat>, p: nat, x: Rel, inRem0: bool)
    requires AllRoots(c, init + [p]) && p !in init
    requires inRem0 ==> PartOfParent(c, x)
    ensures (if inRem0 && TouchedBy(c, x, init) && !(IsTypePartOf(x.rel) && x.to in init) then 1 else 0)
          + (if inRem0 && !TouchedBy(c, x, init) && TouchesFamily(c, x, p) && !DroppedBy(x, p) then 1 else 0)
          == (if inRem0 && TouchedBy(c, x, init + [p]) && !(IsTypePartOf(x.rel) && x.to in init + [p]) then 1 else 0)
  {
    var parents := init + [p];
    assert parents[..|parents| - 1] == init;
    assert AllRoots(c, init) by {
      forall k | 0 <= k < |init|
        ensures IsRootEntity(c, init[k])
      {
        assert parents[k] == init[k];
      }
    }
    assert IsRootEntity(c, p) by {
      assert parents[|init|] == p;
    }
    if inRem0 {
      if TouchedBy(c, x, init) {
        if IsTypePartOf(x.rel) {
          TouchedPartOf(c, x, init);
        }
      } else if IsTypePartOf(x.rel) && x.to in init {
        TouchedByMember(c, x, init, x.to);
      }
    }
  }

  /** What remains after the loop over the roots is what no processed
      family touches. */
  lemma {:induction false} BlocksRemaining(c: TextContent, parents: seq<nat>, rem0: seq<Rel>)
    requires Distinct(rem0)
    ensures var b := Blocks(c, parents, rem0);
      && Distinct(b.remaining)
      && forall x :: x in b.remaining <==> x in rem0 && !TouchedBy(c, x, parents)
  {
    if |parents| > 0 {
      var init := parents[..|parents| - 1];
      BlocksRemaining(c, init, rem0);
      BlockRemaining(c, parents[|parents| - 1], Blocks(c, init, rem0).remaining);
    }
  }

  /** The loop over distinct roots describes a relationship that agrees
      with the clusters once if some processed family touches it, unless
      it is a part-of relationship into a processed root; otherwise not
      at all. */
  lemma {:induction false} BlocksCount(c: TextContent, parents: seq<nat>, rem0: seq<Rel>, x: Rel)
    requires Distinct(rem0) && Distinct(parents) && AllRoots(c, parents)
    requires x in rem0 ==> PartOfParent(c, x)
    ensures multiset(Blocks(c, parents, rem0).sentences)[RelSentence(x)] ==
      if x in rem0 && TouchedBy(c, x, parents) && !(IsTypePartOf(x.rel) && x.to in parents) then 1 else 0
  {
    if |parents| > 0 {
      var init := parents[..|parents| - 1];
      var p := parents[|parents| - 1];
      assert parents == init + [p];
      assert p !in init;
      var before := Blocks(c, init, rem0);
      BlocksCount(c, init, rem0, x);
      BlocksRemaining(c, init, rem0);
      BlockCount(c, p, before.remaining, x);
      CountStep(c, init, p, x, x in rem0);
    }
  }
  /** A sentence as planning writes it: a relates-to sentence of a single
      relationship, or a consists-of sentence of fresh references without
      an integrated relation. */
  predicate PlainSentence(s: Sentence) {
    if s.RelatesTo? then
      && |s.clause.subject.entities| == 1 && |s.clause.obj.entities| == 1
      && s == RelSentence(Edge(s.clause.subject.entities[0], s.clause.rel, s.clause.obj.entities[0]))
    else
      s.integrated.None? && s.container == Ref(s.container.entities) && s.content == Ref(s.content.entities)
  }

  predicate AllPlain(ss: seq<Sentence>) {
    forall k :: 0 <= k < |ss| ==> PlainSentence(ss[k])
  }

  lemma RelatesShaped(rs: seq<Rel>)
    ensures AllPlain(Relates(rs))
  {
  }

  lemma ShapedAppend(a: seq<Sentence>, b: seq<Sentence>)
    requires AllPlain(a) && AllPlain(b)
    ensures AllPlain(a + b)
  {
    forall k | 0 <= k < |a + b|
      ensures PlainSentence((a + b)[k])
    {
      if k < |a| {
        assert (a + b)[k] == a[k];
      } else {
        assert (a + b)[k] == b[k - |a|];
      }
    }
  }

  lemma BlockShaped(c: TextContent, p: nat, rem: seq<Rel>)
    ensures AllPlain(Block(c, p, rem).sentences)
  {
    var children := ChildrenOf(c, p, |c.entities|);
    var head := if |children| > 0 then [ConsistsOf(Ref([p]), Ref(children), None)] else [];
    var relevant := Relevant(c, p, rem);
    RelatesShaped(relevant);
    assert AllPlain(head);
    ShapedAppend(head, Relates(relevant));
  }

  lemma {:induction false} BlocksShaped(c: TextContent, parents: seq<nat>, rem0: seq<Rel>)
    ensures AllPlain(Blocks(c, parents, rem0).sentences)
  {
    if |parents| > 0 {
      var init := parents[..|parents| - 1];
      var before := Blocks(c, init, rem0);
      var b := Block(c, parents[|parents| - 1], before.remaining);
      BlocksShaped(c, init, rem0);
      BlockShaped(c, parents[|parents| - 1], before.remaining);
      ShapedAppend(before.sentences, b.sentences);
    }
  }

  /** The roots in planning order have no repeats and are all roots. */
  lemma SortedRootsAreRoots(c: TextContent)
    ensures Distinct(SortedRoots(c)) && AllRoots(c, SortedRoots(c))
    ensures forall e: nat :: e in SortedRoots(c) <==> IsRootEntity(c, e)
  {
    var roots := RootsBelow(c, |c.entities|);
    var sorted := SortedRoots(c);
    DistinctByMultiset(roots, sorted);
    forall e: nat
      ensures e in sorted <==> IsRootEntity(c, e)
    {
      assert e in sorted <==> e in multiset(sorted);
      assert e in roots <==> e in multiset(roots);
    }
    assert forall k :: 0 <= k < |sorted| ==> sorted[k] in sorted;
  }

  /** The parents settle every relationship, so part-of relationships
      agree with the clusters. */
  lemma ClusteredPartOf(c: TextContent, x: Rel)
    requires Clustered(c) && x in c.relationships
    ensures PartOfParent(c, x)
  {
    assert Settled(ParentsOf(c.entities), x);
  }

  lemma RoundsInputMembers(c: TextContent, x: Rel)
    ensures Distinct(RoundsInput(c))
    ensures x in RoundsInput(c) <==> x in c.relationships && !BetweenRoots(c, x)
  {
    var pr := BetweenRootsOf(c, c.relationships);
    assert x in pr <==> x in multiset(pr);
    assert x in c.relationships <==> x in multiset(c.relationships);
  }

  /** The plan's count of a relationship: once between roots, once per
      round that describes it, once at the end if no round touched it. */
  lemma StructureCountParts(c: TextContent, x: Rel)
    requires Distinct(c.relationships) && Clustered(c)
    ensures multiset(StructureTextContent(c).sentences)[RelSentence(x)] ==
      (if x in c.relationships && BetweenRoots(c, x) then 1 else 0)
      + (if x in RoundsInput(c) && TouchedBy(c, x, SortedRoots(c))
           && !(IsTypePartOf(x.rel) && x.to in SortedRoots(c)) then 1 else 0)
      + (if x in RoundsInput(c) && !TouchedBy(c, x, SortedRoots(c)) then 1 else 0)
  {
    var parents := SortedRoots(c);
    var rem0 := RoundsInput(c);
    AssembleCount(c.entities, parents, BetweenRootsOf(c, c.relationships), Rounds(c), x);
    SortedRootsAreRoots(c);
    RoundsInputMembers(c, x);
    if x in rem0 {
      ClusteredPartOf(c, x);
    }
    BlocksCount(c, parents, rem0, x);
    BlocksRemaining(c, parents, rem0);
    DistinctOnce(Rounds(c).remaining, x);
    DistinctOnce(c.relationships, x);
  }

  /** How often the plan describes one relationship. */
  lemma StructureCount(c: TextContent, x: Rel)
    requires Distinct(c.relationships) && Clustered(c)
    ensures multiset(StructureTextContent(c).sentences)[RelSentence(x)] ==
      if x in c.relationships && !(IsTypePartOf(x.rel) && IsRootEntity(c, x.to)) then 1 else 0
  {
    var parents := SortedRoots(c);
    StructureCountParts(c, x);
    RoundsInputMembers(c, x);
    SortedRootsAreRoots(c);
    if x in c.relationships && IsTypePartOf(x.rel) {
      ClusteredPartOf(c, x);
      if IsRootEntity(c, x.to) && !TouchedBy(c, x, parents) {
        TouchedByMember(c, x, parents, x.to);
      }
    }
  }

  /** Planning describes every relationship in exactly one relates-to
      sentence, except the part-of relationships into a root, which are
      described in none; no other relationship is described, and every
      relates-to sentence is the sentence of one relationship. This holds
      for content without repeated relationships whose clusters agree with
      its relationships, as content selection produces. */
  lemma StructureDescribesOnce(c: TextContent)
    requires Distinct(c.relationships) && Clustered(c)
    ensures forall x ::
              multiset(StructureTextContent(c).sentences)[RelSentence(x)] ==
              (if x in c.relationships && !(IsTypePartOf(x.rel) && IsRootEntity(c, x.to)) then 1 else 0)
    ensures AllPlain(StructureTextContent(c).sentences)
  {
    forall x {
      StructureCount(c, x);
    }
    StructureShaped(c);
  }

  /** Every sentence of a plan is plain. */
  lemma StructureShaped(c: TextContent)
    ensures AllPlain(StructureTextContent(c).sentences)
  {
    BlocksShaped(c, SortedRoots(c), RoundsInput(c));
    AssembleShaped(c.entities, SortedRoots(c), BetweenRootsOf(c, c.relationships), Rounds(c));
  }

  lemma AssembleShaped(entities: seq<TextEntity>, parents: seq<nat>, parentRelationships: seq<Rel>, blocks: Planned)
    requires AllPlain(blocks.sentences)
    ensures AllPlain(Assemble(entities, parents, parentRelationships, blocks).sentences)
  {
    var first := ConsistsOf(Ref([|entities|]), Ref(parents), None);
    RelatesShaped(parentRelationships);
    RelatesShaped(blocks.remaining);
    assert AllPlain([first]);
    ShapedAppend([first], Relates(parentRelationships));
    ShapedAppend([first] + Relates(parentRelationships), blocks.sentences);
    ShapedAppend([first] + Relates(parentRelationships) + blocks.sentences, Relates(blocks.remaining));
  }
}
