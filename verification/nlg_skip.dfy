/** Delayed introduction (`SkipContainsSentenceForSomeEntities`): an
    unimportant object that is the only one of its kind in a consists-of
    sentence, and that a relates-to sentence later names as subject next
    to an object of its own cluster, is left out of the consists-of
    sentence; that relates-to sentence introduces it instead. */
module DelayedIntroduction {
  import opened Wrappers
  import opened Seqs
  import opened NodeInfo
  import opened TextContents
  import opened TextStructures

  /** `EnableDelayedIntroductionForSingleObjectsWithImportanceLessThan`. */
  const DefaultThreshold: real := 1.1

  /** The default expression of an entity of the table. */
  function DefaultOf(table: seq<TextEntity>, e: nat): string
    requires e < |table|
  {
    DefaultExpression(table[e].info.hierarchy)
  }

  /** Whether an entity of the table has default expression w. */
  function HasDefault(table: seq<TextEntity>, w: string): nat -> bool {
    (e: nat) => e < |table| && DefaultOf(table, e) == w
  }

  /** Some relates-to sentence has e among its subjects and, among its
      objects, an entity with the same parent as e. */
  predicate RelatedInCluster(t: TextStructure, e: nat)
    requires e < |t.table|
  {
    exists k, j :: 0 <= k < |t.sentences| && t.sentences[k].RelatesTo?
      && e in t.sentences[k].clause.subject.entities
      && 0 <= j < |t.sentences[k].clause.obj.entities|
      && t.sentences[k].clause.obj.entities[j] < |t.table|
      && t.table[t.sentences[k].clause.obj.entities[j]].parent == t.table[e].parent
  }

  /** The three conditions under which a content entity is left out of its
      consists-of sentence. Entities are table positions, which always
      resolve in a structure built by the planner; an unresolved one is
      never left out. */
  predicate Delayable(t: TextStructure, threshold: real, content: seq<nat>, e: nat) {
    e < |t.table|
    && t.table[e].info.importance < threshold
    && CountWhere(content, HasDefault(t.table, DefaultOf(t.table, e))) == 1
    && RelatedInCluster(t, e)
  }

  /** The entities of a content that stay. */
  function Stays(t: TextStructure, threshold: real, content: seq<nat>): nat -> bool {
    (e: nat) => !Delayable(t, threshold, content, e)
  }

  /** One sentence: a consists-of sentence is rebuilt with fresh
      references (every flag false) and without its integrated relation;
      a relates-to sentence is kept. */
  function SkipSentence(t: TextStructure, threshold: real, s: Sentence): Sentence {
    match s
    case ConsistsOf(container, content, _) =>
      ConsistsOf(Ref(container.entities), Ref(Filter(content.entities, Stays(t, threshold, content.entities))), None)
    case RelatesTo(_) => s
  }

  function SkipContainsSentenceForSomeEntities(t: TextStructure, threshold: real): (r: TextStructure)
    ensures r.table == t.table && r.entities == t.entities
    ensures |r.sentences| == |t.sentences|
  {
    TextStructure(t.table, t.entities,
      seq(|t.sentences|, k requires 0 <= k < |t.sentences| => SkipSentence(t, threshold, t.sentences[k])))
  }

  /** Delayed introduction keeps the number and the kind of every
      sentence and every relates-to sentence; a consists-of sentence keeps
      its container and loses from its content, order kept, exactly the
      delayable entities. */
  lemma SkipShape(t: TextStructure, threshold: real, k: nat)
    requires k < |t.sentences|
    ensures var s := t.sentences[k];
      var r := SkipContainsSentenceForSomeEntities(t, threshold).sentences[k];
      && r.ConsistsOf? == s.ConsistsOf?
      && (s.RelatesTo? ==> r == s)
      && (s.ConsistsOf? ==>
            && r.container.entities == s.container.entities
            && r.integrated.None?
            && Subsequence(r.content.entities, s.content.entities)
            && (forall e :: e in r.content.entities <==>
                  e in s.content.entities && !Delayable(t, threshold, s.content.entities, e)))
  {
    var s := t.sentences[k];
    if s.ConsistsOf? {
      var p := Stays(t, threshold, s.content.entities);
      FilterSubsequence(s.content.entities, p);
      forall e
        ensures e in Filter(s.content.entities, p) <==> e in s.content.entities && p(e)
      {
        FilterMembers(s.content.entities, p, e);
      }
    }
  }

  /** With a threshold no importance falls below, nothing is delayed: every
      content stays as it is. */
  lemma SkipBelowAllImportances(t: TextStructure, threshold: real, k: nat)
    requires k < |t.sentences| && t.sentences[k].ConsistsOf?
    requires forall e :: 0 <= e < |t.table| ==> threshold <= t.table[e].info.importance
    ensures SkipContainsSentenceForSomeEntities(t, threshold).sentences[k].content.entities
      == t.sentences[k].content.entities
  {
    var es := t.sentences[k].content.entities;
    FilterAll(es, Stays(t, threshold, es));
  }

  /** An entity that occurs twice in a content, or alongside another
      entity of the same kind, is never delayed. */
  lemma SkipKeepsRepeatedKinds(t: TextStructure, threshold: real, k: nat, i: nat, j: nat)
    requires k < |t.sentences| && t.sentences[k].ConsistsOf?
    requires var es := t.sentences[k].content.entities;
      i < j < |es| && es[i] < |t.table| && es[j] < |t.table|
      && DefaultOf(t.table, es[i]) == DefaultOf(t.table, es[j])
    ensures var es := t.sentences[k].content.entities;
      var kept := SkipContainsSentenceForSomeEntities(t, threshold).sentences[k].content.entities;
      es[i] in kept && es[j] in kept
  {
    var es := t.sentences[k].content.entities;
    var p := HasDefault(t.table, DefaultOf(t.table, es[i]));
    CountAtLeastTwo(es, p, i, j);
    FilterMembers(es, Stays(t, threshold, es), es[i]);
    FilterMembers(es, Stays(t, threshold, es), es[j]);
  }

  lemma {:induction false} CountAtLeastTwo<T>(s: seq<T>, p: T -> bool, i: nat, j: nat)
    requires i < j < |s| && p(s[i]) && p(s[j])
    ensures CountWhere(s, p) >= 2
  {
    var init := s[..|s| - 1];
    if j < |s| - 1 {
      CountAtLeastTwo(init, p, i, j);
    } else {
      CountAtLeastOne(init, p, i);
    }
  }

  lemma {:induction false} CountAtLeastOne<T>(s: seq<T>, p: T -> bool, i: nat)
    requires i < |s| && p(s[i])
    ensures CountWhere(s, p) >= 1
  {
    if i < |s| - 1 {
      CountAtLeastOne(s[..|s| - 1], p, i);
    }
  }
}
