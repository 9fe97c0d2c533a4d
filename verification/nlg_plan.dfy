/** The text-planning pipeline of `Describe` up to realisation: content
    selection, sentence planning, optional aggregation, optional delayed
    introduction, and first-mention marking. The facts the planned text
    states are exactly the selected relationships, less the part-of
    relationships into a root object. */
module TextPlanning {
  import opened Wrappers
  import opened Seqs
  import opened Graphs
  import opened Relationships
  import opened NodeInfo
  import opened SceneGraphs
  import opened TextContents
  import opened TextStructures
  import opened Aggregation
  import opened DelayedIntroduction
  import opened Indefiniteness

  /** The facts of the relationships planning describes. */
  function Described(c: TextContent): set<Fact> {
    set x | x in c.relationships && !(IsTypePartOf(x.rel) && IsRootEntity(c, x.to)) :: (x.from, x.rel, x.to)
  }

  // ---------------------------------------------------------------------
  // Facts, sentence by sentence
  // ---------------------------------------------------------------------

  lemma {:induction false} FactsMember(ss: seq<Sentence>, f: Fact)
    ensures f in Facts(ss) <==> exists k :: 0 <= k < |ss| && f in SentenceFacts(ss[k])
  {
    if |ss| > 0 {
      var init := ss[..|ss| - 1];
      FactsMember(init, f);
      if f in Facts(init) {
        var k :| 0 <= k < |init| && f in SentenceFacts(init[k]);
        assert ss[k] == init[k];
      }
      if exists k :: 0 <= k < |ss| && f in SentenceFacts(ss[k]) {
        var k :| 0 <= k < |ss| && f in SentenceFacts(ss[k]);
        if k < |init| {
          assert ss[k] == init[k];
        }
      }
    }
  }

  /** Sentences that state the same facts position by position state the
      same facts altogether. */
  lemma SameFacts(a: seq<Sentence>, b: seq<Sentence>)
    requires |a| == |b|
    requires forall k :: 0 <= k < |a| ==> SentenceFacts(a[k]) == SentenceFacts(b[k])
    ensures Facts(a) == Facts(b)
  {
    forall f
      ensures f in Facts(a) <==> f in Facts(b)
    {
      FactsMember(a, f);
      FactsMember(b, f);
    }
  }

  lemma RelSentenceFacts(x: Rel)
    ensures SentenceFacts(RelSentence(x)) == {(x.from, x.rel, x.to)}
  {
  }

  /** Every fact plain sentences state is that of the one relationship of
      one of them. */
  lemma PlainFactSource(ss: seq<Sentence>, f: Fact) returns (x: Rel)
    requires AllPlain(ss) && f in Facts(ss)
    ensures RelSentence(x) in ss && f == (x.from, x.rel, x.to)
  {
    FactsMember(ss, f);
    var k :| 0 <= k < |ss| && f in SentenceFacts(ss[k]);
    assert PlainSentence(ss[k]);
    x := Edge(ss[k].clause.subject.entities[0], ss[k].clause.rel, ss[k].clause.obj.entities[0]);
    RelSentenceFacts(x);
  }

  /** Every fact a plan states is that of a described relationship. */
  lemma PlanFactDescribed(c: TextContent, f: Fact)
    requires Distinct(c.relationships) && Clustered(c)
    requires f in Facts(StructureTextContent(c).sentences)
    ensures f in Described(c)
  {
    var ss := StructureTextContent(c).sentences;
    StructureDescribesOnce(c);
    var x := PlainFactSource(ss, f);
    assert RelSentence(x) in multiset(ss);
  }

  /** A plan states the fact of every described relationship. */
  lemma PlanFactStated(c: TextContent, f: Fact)
    requires Distinct(c.relationships) && Clustered(c)
    requires f in Described(c)
    ensures f in Facts(StructureTextContent(c).sentences)
  {
    var ss := StructureTextContent(c).sentences;
    var x := Edge(f.0, f.1, f.2);
    StructureDescribesOnce(c);
    assert multiset(ss)[RelSentence(x)] == 1;
    assert RelSentence(x) in ss;
    var k :| 0 <= k < |ss| && ss[k] == RelSentence(x);
    RelSentenceFacts(x);
    FactsMember(ss, f);
  }

  /** A plan states exactly the facts of the described relationships. */
  lemma PlanFacts(c: TextContent)
    requires Distinct(c.relationships) && Clustered(c)
    ensures Facts(StructureTextContent(c).sentences) == Described(c)
  {
    forall f
      ensures f in Facts(StructureTextContent(c).sentences) <==> f in Described(c)
    {
      if f in Described(c) {
        PlanFactStated(c, f);
      }
      if f in Facts(StructureTextContent(c).sentences) {
        PlanFactDescribed(c, f);
      }
    }
  }

  // ---------------------------------------------------------------------
  // The later stages keep the facts and the one-flag-per-entity shape
  // ---------------------------------------------------------------------

  lemma SkipFacts(t: TextStructure, threshold: real)
    ensures Facts(SkipContainsSentenceForSomeEntities(t, threshold).sentences) == Facts(t.sentences)
  {
    var r := SkipContainsSentenceForSomeEntities(t, threshold);
    forall k | 0 <= k < |t.sentences|
      ensures SentenceFacts(r.sentences[k]) == SentenceFacts(t.sentences[k])
    {
      SkipShape(t, threshold, k);
    }
    SameFacts(r.sentences, t.sentences);
  }

  lemma MarkedFacts(r: Sentence, s: Sentence)
    requires Unflagged(r, s)
    ensures SentenceFacts(r) == SentenceFacts(s)
  {
    if s.RelatesTo? {
      assert RefsOf(r)[0].entities == RefsOf(s)[0].entities;
      assert RefsOf(r)[1].entities == RefsOf(s)[1].entities;
    }
  }

  lemma RefConsistent(es: seq<nat>)
    ensures Consistent(Ref(es))
  {
  }

  /** A plain sentence has one flag per entity in every reference. */
  lemma PlainConsistent(ss: seq<Sentence>)
    requires AllPlain(ss)
    ensures SentencesConsistent(ss)
  {
  }

  lemma AggregateStepConsistent(acc: seq<Sentence>, s: Sentence)
    requires SentencesConsistent(acc) && AllConsistent(RefsOf(s))
    ensures SentencesConsistent(AggregateStep(acc, s))
  {
    match s
    case ConsistsOf(container, content, _) =>
      assert RefsOf(s)[0] == container && RefsOf(s)[|RefsOf(s)| - 1] == content;
      AppendConsistent(acc, ConsistsOf(container, content, None));
    case RelatesTo(cl) =>
      match FindSimilar(acc, cl, false, 0)
      case Some(k) =>
        ClauseConsistent(acc[k]);
        ClauseConsistent(s);
        ReplaceConsistent(acc, k, AggregateStep(acc, s)[k]);
      case None =>
        match FindSimilar(acc, cl, true, 0)
        case Some(k) =>
          ClauseConsistent(acc[k]);
          ClauseConsistent(s);
          ReplaceConsistent(acc, k, AggregateStep(acc, s)[k]);
        case None =>
          AppendConsistent(acc, s);
  }

  lemma ClauseConsistent(s: Sentence)
    requires s.RelatesTo? && AllConsistent(RefsOf(s))
    ensures Consistent(s.clause.subject) && Consistent(s.clause.obj)
  {
    assert RefsOf(s)[0] in RefsOf(s) && RefsOf(s)[1] in RefsOf(s);
  }

  lemma AppendConsistent(acc: seq<Sentence>, s: Sentence)
    requires SentencesConsistent(acc) && AllConsistent(RefsOf(s))
    ensures SentencesConsistent(acc + [s])
  {
    assert forall k :: 0 <= k < |acc| ==> (acc + [s])[k] == acc[k];
  }

  lemma ReplaceConsistent(acc: seq<Sentence>, k: nat, s: Sentence)
    requires k < |acc| && SentencesConsistent(acc) && AllConsistent(RefsOf(s))
    ensures SentencesConsistent(acc[k := s])
  {
  }

  lemma {:induction false} AggregateConsistent(ss: seq<Sentence>)
    requires SentencesConsistent(ss)
    ensures SentencesConsistent(AggregateSentences(ss))
  {
    if |ss| > 0 {
      var init := ss[..|ss| - 1];
      AggregateConsistent(init);
      AggregateStepConsistent(AggregateSentences(init), ss[|ss| - 1]);
    }
  }

  lemma SkipConsistent(t: TextStructure, threshold: real)
    requires SentencesConsistent(t.sentences)
    ensures SentencesConsistent(SkipContainsSentenceForSomeEntities(t, threshold).sentences)
  {
  }

  lemma IndefiniteFacts(t: TextStructure)
    requires SentencesConsistent(t.sentences) && |t.entities| > 0
    ensures Facts(MakeSomeReferencesIndefinite(t).value.sentences) == Facts(t.sentences)
  {
    var r := MakeSomeReferencesIndefinite(t).value;
    MarkSentencesSpec(t.sentences, [t.entities[0]]);
    forall k | 0 <= k < |t.sentences|
      ensures SentenceFacts(r.sentences[k]) == SentenceFacts(t.sentences[k])
    {
      MarkedFacts(r.sentences[k], t.sentences[k]);
    }
    SameFacts(r.sentences, t.sentences);
  }

  // ---------------------------------------------------------------------
  // The pipeline
  // ---------------------------------------------------------------------

  /** Planning, then aggregation when it is switched on, then delayed
      introduction when its threshold is positive. */
  function Staged(c: TextContent, aggregate: bool, threshold: real): (t: TextStructure)
    ensures t.entities == StructureTextContent(c).entities
  {
    var planned := StructureTextContent(c);
    var aggregated := if aggregate then AggregateTextStructure(planned) else planned;
    if threshold > 0.0 then SkipContainsSentenceForSomeEntities(aggregated, threshold) else aggregated
  }

  lemma StagedConsistent(c: TextContent, aggregate: bool, threshold: real)
    ensures SentencesConsistent(Staged(c, aggregate, threshold).sentences)
  {
    var planned := StructureTextContent(c);
    StructureShaped(c);
    PlainConsistent(planned.sentences);
    var aggregated := if aggregate then AggregateTextStructure(planned) else planned;
    if aggregate {
      AggregateConsistent(planned.sentences);
    }
    if threshold > 0.0 {
      SkipConsistent(aggregated, threshold);
    }
  }

  lemma StagedFacts(c: TextContent, aggregate: bool, threshold: real)
    requires Distinct(c.relationships) && Clustered(c)
    ensures Facts(Staged(c, aggregate, threshold).sentences) == Described(c)
  {
    var planned := StructureTextContent(c);
    PlanFacts(c);
    var aggregated := if aggregate then AggregateTextStructure(planned) else planned;
    if aggregate {
      AggregateSpec(planned.sentences);
    }
    if threshold > 0.0 {
      SkipFacts(aggregated, threshold);
    }
  }

  datatype PlanError =
    | Content(content: ContentError)
    | Indefinite(indefinite: IndefiniteError)

  /** `Describe` up to realisation: content selection, planning, the
      optional stages, and first-mention marking. */
  function PlanText(g: SceneGraph, infos: seq<NodeInfoProvider>, aggregate: bool, threshold: real)
    : (r: Result<TextStructure, PlanError>)
    ensures r.Failure? && r.error.Content? <==> DetermineTextContent(g, infos).Failure?
  {
    match DetermineTextContent(g, infos)
    case Failure(e) => Failure(Content(e))
    case Success(c) =>
      var t := Staged(c, aggregate, threshold);
      StagedConsistent(c, aggregate, threshold);
      match MakeSomeReferencesIndefinite(t)
      case Failure(e) => Failure(Indefinite(e))
      case Success(r) => Success(r)
  }

  /** Planning fails only where content selection fails, and on a
      well-formed graph the planned text states exactly the facts of the
      selected relationships, less the part-of relationships into a root
      object, whichever optional stages run. */
  lemma PlanTextStates(g: SceneGraph, infos: seq<NodeInfoProvider>, aggregate: bool, threshold: real)
    requires WellFormed(g)
    ensures PlanText(g, infos, aggregate, threshold).Failure? <==> DetermineTextContent(g, infos).Failure?
    ensures PlanText(g, infos, aggregate, threshold).Success? ==>
      Facts(PlanText(g, infos, aggregate, threshold).value.sentences) == Described(DetermineTextContent(g, infos).value)
  {
    if DetermineTextContent(g, infos).Success? {
      var c := DetermineTextContent(g, infos).value;
      ContentClean(g, infos);
      ContentDistinct(g, infos);
      StructureOpens(c);
      var t := Staged(c, aggregate, threshold);
      StagedConsistent(c, aggregate, threshold);
      StagedFacts(c, aggregate, threshold);
      IndefiniteFacts(t);
    }
  }
}
