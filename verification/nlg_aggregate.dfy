/** Aggregation (`AggregateTextStructure`): a relates-to sentence is merged
    into an earlier one with the same relation and the same objects (the
    subjects are joined), else into one with the same relation and the
    same subjects (the objects are joined), else kept. */
module Aggregation {
  import opened Wrappers
  import opened Relationships
  import opened TextStructures

  /** Where a clause can merge: the first relates-to sentence with the
      same relation and the same objects (`bySubject` false) or the same
      subjects (`bySubject` true), searched from position k on. */
  function FindSimilar(acc: seq<Sentence>, cl: Clause, bySubject: bool, k: nat): (r: Option<nat>)
    ensures r.Some? ==> k <= r.value < |acc| && Similar(acc[r.value], cl, bySubject)
    ensures r.None? ==> forall j :: k <= j < |acc| ==> !Similar(acc[j], cl, bySubject)
    ensures r.Some? ==> forall j :: k <= j < r.value ==> !Similar(acc[j], cl, bySubject)
    decreases |acc| - k
  {
    if k >= |acc| then None
    else if Similar(acc[k], cl, bySubject) then Some(k)
    else FindSimilar(acc, cl, bySubject, k + 1)
  }

  predicate Similar(s: Sentence, cl: Clause, bySubject: bool) {
    s.RelatesTo? && s.clause.rel == cl.rel
    && (if bySubject then s.clause.subject.entities == cl.subject.entities
        else s.clause.obj.entities == cl.obj.entities)
  }

  /** One sentence of the loop. */
  function AggregateStep(acc: seq<Sentence>, s: Sentence): seq<Sentence> {
    match s
    case ConsistsOf(container, content, _) => acc + [ConsistsOf(container, content, None)]
    case RelatesTo(cl) =>
      match FindSimilar(acc, cl, false, 0)
      case Some(k) =>
        var prev := acc[k].clause;
        acc[k := RelatesTo(Clause(Ref(prev.subject.entities + cl.subject.entities), prev.rel, prev.obj, false))]
      case None =>
        match FindSimilar(acc, cl, true, 0)
        case Some(k) =>
          var prev := acc[k].clause;
          acc[k := RelatesTo(Clause(prev.subject, prev.rel, Ref(prev.obj.entities + cl.obj.entities), false))]
        case None => acc + [s]
  }

  function AggregateSentences(ss: seq<Sentence>): seq<Sentence> {
    if |ss| == 0 then [] else AggregateStep(AggregateSentences(ss[..|ss| - 1]), ss[|ss| - 1])
  }

  /** `AggregateTextStructure`: entities unchanged, sentences aggregated. */
  function AggregateTextStructure(t: TextStructure): (r: TextStructure)
    ensures r.table == t.table && r.entities == t.entities
  {
    TextStructure(t.table, t.entities, AggregateSentences(t.sentences))
  }

  // ---------------------------------------------------------------------
  // Reference definitions: the consists-of sentences and the facts stated
  // ---------------------------------------------------------------------

  /** The consists-of sentences, in order, without integrated relations. */
  function ConsistsOfSentences(ss: seq<Sentence>): seq<Sentence> {
    if |ss| == 0 then []
    else
      var s := ss[|ss| - 1];
      ConsistsOfSentences(ss[..|ss| - 1]) + (if s.ConsistsOf? then [ConsistsOf(s.container, s.content, None)] else [])
  }

  type Fact = (nat, RelationshipType, nat)

  /** The facts a sentence states: each subject entity stands in the
      relation to each object entity. */
  function SentenceFacts(s: Sentence): set<Fact> {
    if s.ConsistsOf? then {}
    else
      var cl := s.clause;
      set a, b | a in cl.subject.entities && b in cl.obj.entities :: (a, cl.rel, b)
  }

  function Facts(ss: seq<Sentence>): set<Fact> {
    if |ss| == 0 then {} else Facts(ss[..|ss| - 1]) + SentenceFacts(ss[|ss| - 1])
  }

  // ---------------------------------------------------------------------
  // Lemmas
  // ---------------------------------------------------------------------

  /** Replacing a relates-to sentence by another keeps the consists-of
      sentences. */
  lemma {:induction false} ReplaceKeepsConsistsOf(acc: seq<Sentence>, k: nat, s: Sentence)
    requires k < |acc| && acc[k].RelatesTo? && s.RelatesTo?
    ensures ConsistsOfSentences(acc[k := s]) == ConsistsOfSentences(acc)
  {
    var init := acc[..|acc| - 1];
    if k == |acc| - 1 {
      assert acc[k := s][..|acc| - 1] == init;
    } else {
      assert acc[k := s][..|acc| - 1] == init[k := s];
      ReplaceKeepsConsistsOf(init, k, s);
    }
  }

  /** Replacing a sentence by one that states its facts and more adds
      just those facts. */
  lemma {:induction false} ReplaceAddsFacts(acc: seq<Sentence>, k: nat, s: Sentence, more: set<Fact>)
    requires k < |acc| && SentenceFacts(s) == SentenceFacts(acc[k]) + more
    ensures Facts(acc[k := s]) == Facts(acc) + more
  {
    var init := acc[..|acc| - 1];
    if k == |acc| - 1 {
      assert acc[k := s][..|acc| - 1] == init;
    } else {
      assert acc[k := s][..|acc| - 1] == init[k := s];
      ReplaceAddsFacts(init, k, s, more);
    }
  }

  lemma AppendFacts(acc: seq<Sentence>, s: Sentence)
    ensures Facts(acc + [s]) == Facts(acc) + SentenceFacts(s)
  {
    assert (acc + [s])[..|acc|] == acc;
  }

  lemma AppendConsistsOf(acc: seq<Sentence>, s: Sentence)
    ensures ConsistsOfSentences(acc + [s]) ==
      ConsistsOfSentences(acc) + (if s.ConsistsOf? then [ConsistsOf(s.container, s.content, None)] else [])
  {
    assert (acc + [s])[..|acc|] == acc;
  }

  /** One step of aggregation keeps the consists-of sentences in order,
      adds exactly the facts of the new sentence, and adds at most one
      sentence. */
  lemma AggregateStepSpec(acc: seq<Sentence>, s: Sentence)
    ensures ConsistsOfSentences(AggregateStep(acc, s)) ==
      ConsistsOfSentences(acc) + (if s.ConsistsOf? then [ConsistsOf(s.container, s.content, None)] else [])
    ensures Facts(AggregateStep(acc, s)) == Facts(acc) + SentenceFacts(s)
    ensures |AggregateStep(acc, s)| <= |acc| + 1
  {
    match s
    case ConsistsOf(container, content, _) =>
      AppendConsistsOf(acc, ConsistsOf(container, content, None));
      AppendFacts(acc, ConsistsOf(container, content, None));
    case RelatesTo(cl) =>
      match FindSimilar(acc, cl, false, 0)
      case Some(k) =>
        var prev := acc[k].clause;
        var merged := RelatesTo(Clause(Ref(prev.subject.entities + cl.subject.entities), prev.rel, prev.obj, false));
        ReplaceKeepsConsistsOf(acc, k, merged);
        ReplaceAddsFacts(acc, k, merged, SentenceFacts(s));
      case None =>
        match FindSimilar(acc, cl, true, 0)
        case Some(k) =>
          var prev := acc[k].clause;
          var merged := RelatesTo(Clause(prev.subject, prev.rel, Ref(prev.obj.entities + cl.obj.entities), false));
          ReplaceKeepsConsistsOf(acc, k, merged);
          ReplaceAddsFacts(acc, k, merged, SentenceFacts(s));
        case None =>
          AppendConsistsOf(acc, s);
          AppendFacts(acc, s);
  }

  /** Aggregation keeps the consists-of sentences (without integrated
      relations) in their order, states exactly the facts the original
      sentences state, and never adds sentences. */
  lemma {:induction false} AggregateSpec(ss: seq<Sentence>)
    ensures ConsistsOfSentences(AggregateSentences(ss)) == ConsistsOfSentences(ss)
    ensures Facts(AggregateSentences(ss)) == Facts(ss)
    ensures |AggregateSentences(ss)| <= |ss|
  {
    if |ss| > 0 {
      AggregateSpec(ss[..|ss| - 1]);
      AggregateStepSpec(AggregateSentences(ss[..|ss| - 1]), ss[|ss| - 1]);
    }
  }
}
