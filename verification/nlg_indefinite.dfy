/** First mentions (`MakeSomeReferencesIndefinite`): walking the sentences,
    their references and the entities of each reference in order, an
    entity not introduced before is marked as preferring the indefinite
    form ("a table") and counts as introduced from then on. The first
    entity of the structure, the scene, counts as introduced from the
    start. */
module Indefiniteness {
  import opened Wrappers
  import opened TextStructures

  /** A reference carries one flag per entity (the constructor that takes
      flags throws otherwise). */
  predicate Consistent(r: Reference) {
    |r.indefinite| == |r.entities|
  }

  predicate AllConsistent(rs: seq<Reference>) {
    forall i :: 0 <= i < |rs| ==> Consistent(rs[i])
  }

  /** `TextEntityReferences`: the references of a sentence in the order they
      are realised. A consists-of sentence names its container, the
      subject and object of an integrated relation, then its content; a
      relates-to sentence names its subject and object, swapped when it is
      realised inverted. */
  function RefsOf(s: Sentence): seq<Reference> {
    match s
    case ConsistsOf(container, content, integrated) =>
      [container] + (if integrated.Some? then [integrated.value.subject, integrated.value.obj] else []) + [content]
    case RelatesTo(cl) => if cl.inverted then [cl.obj, cl.subject] else [cl.subject, cl.obj]
  }

  /** The sentence with its references replaced, in the order of RefsOf. */
  function WithRefs(s: Sentence, rs: seq<Reference>): (r: Sentence)
    requires |rs| == |RefsOf(s)|
    ensures RefsOf(r) == rs
    ensures r.ConsistsOf? == s.ConsistsOf?
  {
    match s
    case ConsistsOf(_, _, integrated) =>
      if integrated.Some? then
        ConsistsOf(rs[0], rs[3], Some(integrated.value.(subject := rs[1], obj := rs[2])))
      else ConsistsOf(rs[0], rs[1], None)
    case RelatesTo(cl) =>
      if cl.inverted then RelatesTo(cl.(subject := rs[1], obj := rs[0]))
      else RelatesTo(cl.(subject := rs[0], obj := rs[1]))
  }

  predicate SentencesConsistent(ss: seq<Sentence>) {
    forall k :: 0 <= k < |ss| ==> AllConsistent(RefsOf(ss[k]))
  }

  // ---------------------------------------------------------------------
  // Mentions, flags and first mentions
  // ---------------------------------------------------------------------

  /** The entities of references, one after the other. */
  function Flat(rs: seq<Reference>): seq<nat> {
    if |rs| == 0 then [] else rs[0].entities + Flat(rs[1..])
  }

  function FlatFlags(rs: seq<Reference>): (r: seq<bool>)
    ensures AllConsistent(rs) ==> |r| == |Flat(rs)|
  {
    if |rs| == 0 then [] else rs[0].indefinite + FlatFlags(rs[1..])
  }

  /** Every entity mention of the sentences, in realisation order. */
  function Mentions(ss: seq<Sentence>): seq<nat> {
    if |ss| == 0 then [] else Flat(RefsOf(ss[0])) + Mentions(ss[1..])
  }

  /** The indefinite flag of every mention, in the same order. */
  function FlagsOf(ss: seq<Sentence>): (r: seq<bool>)
    ensures SentencesConsistent(ss) ==> |r| == |Mentions(ss)|
  {
    if |ss| == 0 then [] else FlatFlags(RefsOf(ss[0])) + FlagsOf(ss[1..])
  }

  /** Which mentions are first mentions: neither introduced already nor
      mentioned earlier in es. */
  function Fresh(es: seq<nat>, seen: seq<nat>): (r: seq<bool>)
    ensures |r| == |es|
  {
    seq(|es|, p requires 0 <= p < |es| => es[p] !in seen && es[p] !in es[..p])
  }

  /** Flags set in either of two sequences. */
  function Or(a: seq<bool>, b: seq<bool>): (r: seq<bool>)
    requires |a| == |b|
    ensures |r| == |a|
  {
    seq(|a|, i requires 0 <= i < |a| => a[i] || b[i])
  }

  // ---------------------------------------------------------------------
  // The loop, level by level
  // ---------------------------------------------------------------------

  /** A marking result with the introduced entities after it. */
  datatype Marked<T> = Marked(result: T, seen: seq<nat>)

  /** The innermost loop over the entities of one reference. */
  function MarkEntities(es: seq<nat>, flags: seq<bool>, seen: seq<nat>): (r: Marked<seq<bool>>)
    requires |flags| == |es|
    ensures |r.result| == |es|
  {
    if |es| == 0 then Marked([], seen)
    else
      var isNew := es[0] !in seen;
      var rest := MarkEntities(es[1..], flags[1..], if isNew then seen + [es[0]] else seen);
      Marked([flags[0] || isNew] + rest.result, rest.seen)
  }

  /** The loop over the references of one sentence. */
  function MarkReferences(rs: seq<Reference>, seen: seq<nat>): (r: Marked<seq<Reference>>)
    requires AllConsistent(rs)
    ensures |r.result| == |rs|
  {
    if |rs| == 0 then Marked([], seen)
    else
      var head := MarkEntities(rs[0].entities, rs[0].indefinite, seen);
      var rest := MarkReferences(rs[1..], head.seen);
      Marked([Reference(rs[0].entities, head.result)] + rest.result, rest.seen)
  }

  /** The outer loop over the sentences. */
  function MarkSentences(ss: seq<Sentence>, seen: seq<nat>): (r: Marked<seq<Sentence>>)
    requires SentencesConsistent(ss)
    ensures |r.result| == |ss|
  {
    if |ss| == 0 then Marked([], seen)
    else
      var head := MarkReferences(RefsOf(ss[0]), seen);
      var rest := MarkSentences(ss[1..], head.seen);
      Marked([WithRefs(ss[0], head.result)] + rest.result, rest.seen)
  }

  datatype IndefiniteError = NoEntities

  /** `MakeSomeReferencesIndefinite`; `First()` of an empty entity list
      throws. */
  function MakeSomeReferencesIndefinite(t: TextStructure): (r: Result<TextStructure, IndefiniteError>)
    requires SentencesConsistent(t.sentences)
    ensures r.Failure? <==> |t.entities| == 0
    ensures r.Success? ==>
      r.value.table == t.table && r.value.entities == t.entities && |r.value.sentences| == |t.sentences|
  {
    if |t.entities| == 0 then Failure(NoEntities)
    else Success(t.(sentences := MarkSentences(t.sentences, [t.entities[0]]).result))
  }

  // ---------------------------------------------------------------------
  // First mentions compose
  // ---------------------------------------------------------------------

  lemma FreshSameMembers(es: seq<nat>, s1: seq<nat>, s2: seq<nat>)
    requires forall x :: x in s1 <==> x in s2
    ensures Fresh(es, s1) == Fresh(es, s2)
  {
  }

  /** The first mentions of a + b: those of a, then those of b once a
      has been introduced. */
  lemma FreshAppend(a: seq<nat>, b: seq<nat>, seen: seq<nat>)
    ensures Fresh(a + b, seen) == Fresh(a, seen) + Fresh(b, seen + a)
  {
    var l := Fresh(a + b, seen);
    var r := Fresh(a, seen) + Fresh(b, seen + a);
    forall p | 0 <= p < |a + b|
      ensures l[p] == r[p]
    {
      if p < |a| {
        assert (a + b)[..p] == a[..p];
      } else {
        assert (a + b)[..p] == a + b[..p - |a|];
      }
    }
  }

  lemma OrAppend(a1: seq<bool>, a2: seq<bool>, b1: seq<bool>, b2: seq<bool>)
    requires |a1| == |b1| && |a2| == |b2|
    ensures Or(a1 + a2, b1 + b2) == Or(a1, b1) + Or(a2, b2)
  {
  }

  /** The entity loop introduces exactly the entities of the reference. */
  lemma {:induction false} MarkEntitiesSeen(es: seq<nat>, flags: seq<bool>, seen: seq<nat>, x: nat)
    requires |flags| == |es|
    ensures x in MarkEntities(es, flags, seen).seen <==> x in seen || x in es
  {
    if |es| > 0 {
      var next := if es[0] !in seen then seen + [es[0]] else seen;
      MarkEntitiesSeen(es[1..], flags[1..], next, x);
      assert es == [es[0]] + es[1..];
    }
  }

  /** The entity loop sets exactly the flags of first mentions. */
  lemma {:induction false} MarkEntitiesSpec(es: seq<nat>, flags: seq<bool>, seen: seq<nat>)
    requires |flags| == |es|
    ensures MarkEntities(es, flags, seen).result == Or(flags, Fresh(es, seen))
  {
    if |es| > 0 {
      var e := es[0];
      var next := if e !in seen then seen + [e] else seen;
      MarkEntitiesSpec(es[1..], flags[1..], next);
      FreshSameMembers(es[1..], next, seen + [e]);
      FreshCons(es, seen);
      OrCons(flags, Fresh(es, seen));
    }
  }

  lemma FreshCons(es: seq<nat>, seen: seq<nat>)
    requires |es| > 0
    ensures Fresh(es, seen) == [es[0] !in seen] + Fresh(es[1..], seen + [es[0]])
  {
    assert es == [es[0]] + es[1..];
    FreshAppend([es[0]], es[1..], seen);
  }

  lemma OrCons(a: seq<bool>, b: seq<bool>)
    requires |a| == |b| > 0
    ensures Or(a, b) == [a[0] || b[0]] + Or(a[1..], b[1..])
  {
  }

  /** The reference loop keeps the entities of every reference and sets
      exactly the flags of first mentions across the references. */
  lemma {:induction false} MarkReferencesSpec(rs: seq<Reference>, seen: seq<nat>)
    requires AllConsistent(rs)
    ensures var r := MarkReferences(rs, seen);
      && AllConsistent(r.result)
      && (forall i :: 0 <= i < |rs| ==> r.result[i].entities == rs[i].entities)
      && Flat(r.result) == Flat(rs)
      && FlatFlags(r.result) == Or(FlatFlags(rs), Fresh(Flat(rs), seen))
      && (forall x :: x in r.seen <==> x in seen || x in Flat(rs))
  {
    if |rs| > 0 {
      var head := MarkEntities(rs[0].entities, rs[0].indefinite, seen);
      MarkEntitiesSpec(rs[0].entities, rs[0].indefinite, seen);
      forall x {
        MarkEntitiesSeen(rs[0].entities, rs[0].indefinite, seen, x);
      }
      MarkReferencesSpec(rs[1..], head.seen);
      var r := MarkReferences(rs, seen);
      assert r.result[1..] == MarkReferences(rs[1..], head.seen).result;
      FreshAppend(rs[0].entities, Flat(rs[1..]), seen);
      FreshSameMembers(Flat(rs[1..]), head.seen, seen + rs[0].entities);
      OrAppend(rs[0].indefinite, FlatFlags(rs[1..]), Fresh(rs[0].entities, seen), Fresh(Flat(rs[1..]), seen + rs[0].entities));
    }
  }

  /** The sentence loop keeps every sentence but for its flags and sets
      exactly the flags of first mentions across the sentences. */
  lemma {:induction false} MarkSentencesSpec(ss: seq<Sentence>, seen: seq<nat>)
    requires SentencesConsistent(ss)
    ensures var r := MarkSentences(ss, seen);
      && SentencesConsistent(r.result)
      && (forall k :: 0 <= k < |ss| ==> Unflagged(r.result[k], ss[k]))
      && Mentions(r.result) == Mentions(ss)
      && FlagsOf(r.result) == Or(FlagsOf(ss), Fresh(Mentions(ss), seen))
  {
    if |ss| > 0 {
      var head := MarkReferences(RefsOf(ss[0]), seen);
      MarkReferencesSpec(RefsOf(ss[0]), seen);
      MarkSentencesSpec(ss[1..], head.seen);
      var r := MarkSentences(ss, seen);
      assert r.result[1..] == MarkSentences(ss[1..], head.seen).result;
      assert r.result[0] == WithRefs(ss[0], head.result);
      forall k | 0 <= k < |ss|
        ensures Unflagged(r.result[k], ss[k])
      {
        if k > 0 {
          assert r.result[k] == r.result[1..][k - 1] && ss[k] == ss[1..][k - 1];
        }
      }
      FreshAppend(Flat(RefsOf(ss[0])), Mentions(ss[1..]), seen);
      FreshSameMembers(Mentions(ss[1..]), head.seen, seen + Flat(RefsOf(ss[0])));
      OrAppend(FlatFlags(RefsOf(ss[0])), FlagsOf(ss[1..]),
        Fresh(Flat(RefsOf(ss[0])), seen), Fresh(Mentions(ss[1..]), seen + Flat(RefsOf(ss[0]))));
    }
  }

  /** r is s with only the flags of its references changed. */
  predicate Unflagged(r: Sentence, s: Sentence) {
    |RefsOf(r)| == |RefsOf(s)|
    && r == WithRefs(s, RefsOf(r))
    && forall i :: 0 <= i < |RefsOf(s)| ==> RefsOf(r)[i].entities == RefsOf(s)[i].entities
  }

  /** Marking changes nothing but flags, and a flag ends up set exactly
      when it was set already or its mention is the first mention of an
      entity other than the first entity of the structure. */
  lemma IndefiniteFirstMention(t: TextStructure, p: nat)
    requires SentencesConsistent(t.sentences)
    requires |t.entities| > 0
    requires p < |Mentions(t.sentences)|
    ensures var r := MakeSomeReferencesIndefinite(t).value;
      var ms := Mentions(t.sentences);
      && Mentions(r.sentences) == ms
      && (forall k :: 0 <= k < |t.sentences| ==> Unflagged(r.sentences[k], t.sentences[k]))
      && |FlagsOf(r.sentences)| == |ms| == |FlagsOf(t.sentences)|
      && (FlagsOf(r.sentences)[p] <==>
            FlagsOf(t.sentences)[p] || (ms[p] != t.entities[0] && ms[p] !in ms[..p]))
  {
    MarkSentencesSpec(t.sentences, [t.entities[0]]);
  }
}
