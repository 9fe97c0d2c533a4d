/** Referring expressions (`GenerateReferringExpressionsEntity`): an
    entity is called by its default word when no other entity shares it,
    else by the word and its cluster, else by its most specific word
    (alone or with its cluster), else by a number within its cluster or
    within all entities sharing the word. */
module ReferringExpressions {
  import opened Wrappers
  import opened Seqs
  import opened NodeInfo
  import opened NumberWords
  import opened TextContents

  /** The entities grouped by a word, each group in the order used for
      numbering. Grouping and ordering happen before this step and are
      parameters here. */
  type Groups = map<string, seq<nat>>

  /** Every grouped entity is an entity of the table. */
  predicate GroupsResolved(table: seq<TextEntity>, groups: Groups) {
    forall w :: w in groups ==> forall i :: 0 <= i < |groups[w]| ==> groups[w][i] < |table|
  }

  datatype ReferringError =
    | EmptyHierarchy
    | MissingGroup(key: string)

  /** Some entity of the group other than node has the parent `parent`. */
  predicate SiblingIn(table: seq<TextEntity>, group: seq<nat>, node: nat, parent: Option<nat>)
    requires forall i :: 0 <= i < |group| ==> group[i] < |table|
  {
    exists i :: 0 <= i < |group| && table[group[i]].parent == parent && group[i] != node
  }

  /** The entities of the group with the given parent, in order. */
  function InCluster(table: seq<TextEntity>, group: seq<nat>, parent: Option<nat>): (r: seq<nat>)
    requires forall i :: 0 <= i < |group| ==> group[i] < |table|
    ensures forall e :: e in r <==> e in group && table[e].parent == parent
  {
    if |group| == 0 then []
    else
      var init := group[..|group| - 1];
      var last := group[|group| - 1];
      assert forall e :: e in group <==> e in init || e == last;
      InCluster(table, init, parent) + (if table[last].parent == parent then [last] else [])
  }

  /** `Array.IndexOf(...) + 1`: the 1-based position, or 0 when absent. */
  function Position(s: seq<nat>, x: nat): (r: nat)
    ensures r == 0 <==> x !in s
    ensures r > 0 ==> r <= |s| && s[r - 1] == x
  {
    match IndexOf(s, x)
    case None => 0
    case Some(i) => i + 1
  }

  /** The expression of an entity, given the default-word groups, the
      most-specific-word groups and the expression already chosen for its
      parent. `Last()` of an empty hierarchy and a missing dictionary key
      throw. */
  function Referring(table: seq<TextEntity>, node: nat, grouped: Groups, specialized: Groups, parentExpression: string)
    : (r: Result<string, ReferringError>)
    requires node < |table|
    requires GroupsResolved(table, grouped) && GroupsResolved(table, specialized)
    ensures r.Failure? <==>
      |table[node].info.hierarchy| == 0
      || DefaultOf(table, node) !in grouped
      || (|grouped[DefaultOf(table, node)]| > 1
          && MissingSpecialized(table, node, grouped, specialized))
  {
    var h := table[node].info.hierarchy;
    var d := DefaultOf(table, node);
    var parent := table[node].parent;
    if |h| == 0 then Failure(EmptyHierarchy)
    else if d !in grouped then Failure(MissingGroup(d))
    else
      var specific := h[|h| - 1];
      var similar := grouped[d];
      if |similar| <= 1 then Success(d)
      else if parent.Some? && !SiblingIn(table, similar, node, parent) then
        Success(d + " of the " + parentExpression)
      else if d != specific && specific !in specialized then Failure(MissingGroup(specific))
      else if d != specific && |specialized[specific]| <= 1 then Success(specific)
      else if d != specific && parent.Some? && !SiblingIn(table, specialized[specific], node, parent) then
        Success(specific + " of the " + parentExpression)
      else Success(Numbered(table, node, similar, parentExpression))
  }

  /** The default word of an entity. */
  function DefaultOf(table: seq<TextEntity>, node: nat): string
    requires node < |table|
  {
    DefaultExpression(table[node].info.hierarchy)
  }

  /** Steps 3 and 4 would look up a most specific word that has no group. */
  predicate MissingSpecialized(table: seq<TextEntity>, node: nat, grouped: Groups, specialized: Groups)
    requires node < |table|
    requires GroupsResolved(table, grouped)
  {
    var h := table[node].info.hierarchy;
    var d := DefaultOf(table, node);
    var parent := table[node].parent;
    |h| > 0 && d in grouped
    && !(parent.Some? && !SiblingIn(table, grouped[d], node, parent))
    && d != h[|h| - 1] && h[|h| - 1] !in specialized
  }

  /** The entities an entity is numbered among: those of its cluster
      when it has one, else all similar entities. */
  function NumberingGroup(table: seq<TextEntity>, node: nat, similar: seq<nat>): seq<nat>
    requires node < |table|
    requires forall i :: 0 <= i < |similar| ==> similar[i] < |table|
  {
    var parent := table[node].parent;
    if parent.Some? then InCluster(table, similar, parent) else similar
  }

  /** What follows the ordinal: the default word, and the cluster unless
      every similar entity is in it. */
  function NumberedNoun(table: seq<TextEntity>, node: nat, similar: seq<nat>, parentExpression: string): string
    requires node < |table|
    requires forall i :: 0 <= i < |similar| ==> similar[i] < |table|
  {
    var d := DefaultOf(table, node);
    var parent := table[node].parent;
    if parent.Some? && exists i :: 0 <= i < |similar| && table[similar[i]].parent != parent then
      " " + d + " of the " + parentExpression
    else " " + d
  }

  /** Steps 5 to 7: the entity's ordinal within its cluster (with the
      cluster named unless every similar entity is in it), or within all
      similar entities when it has no cluster. */
  function Numbered(table: seq<TextEntity>, node: nat, similar: seq<nat>, parentExpression: string): string
    requires node < |table|
    requires forall i :: 0 <= i < |similar| ==> similar[i] < |table|
  {
    var group := NumberingGroup(table, node, similar);
    OrdinalWord(Position(group, node), |group|) + NumberedNoun(table, node, similar, parentExpression)
  }

  // ---------------------------------------------------------------------
  // Lemmas
  // ---------------------------------------------------------------------

  /** An entity alone in its default-word group is called by the default
      word. */
  lemma ReferringAlone(table: seq<TextEntity>, node: nat, grouped: Groups, specialized: Groups, parentExpression: string)
    requires node < |table|
    requires GroupsResolved(table, grouped) && GroupsResolved(table, specialized)
    requires |table[node].info.hierarchy| > 0
    requires DefaultOf(table, node) in grouped && |grouped[DefaultOf(table, node)]| <= 1
    ensures Referring(table, node, grouped, specialized, parentExpression) == Success(DefaultOf(table, node))
  {
  }

  /** An entity whose cluster holds no other entity of its default word is
      called by the word and its cluster. */
  lemma ReferringByCluster(table: seq<TextEntity>, node: nat, grouped: Groups, specialized: Groups, parentExpression: string)
    requires node < |table|
    requires GroupsResolved(table, grouped) && GroupsResolved(table, specialized)
    requires |table[node].info.hierarchy| > 0
    requires DefaultOf(table, node) in grouped && |grouped[DefaultOf(table, node)]| > 1
    requires table[node].parent.Some?
    requires forall e :: e in grouped[DefaultOf(table, node)] && e != node ==> table[e].parent != table[node].parent
    ensures Referring(table, node, grouped, specialized, parentExpression)
      == Success(DefaultOf(table, node) + " of the " + parentExpression)
  {
  }

  /** An entity without a cluster that shares its default word, and whose
      most specific word is that word or is shared too, is numbered among
      all entities sharing the default word. */
  lemma ReferringNumberedOverall(table: seq<TextEntity>, node: nat, grouped: Groups, specialized: Groups, parentExpression: string)
    requires node < |table|
    requires GroupsResolved(table, grouped) && GroupsResolved(table, specialized)
    requires var h := table[node].info.hierarchy;
      && |h| > 0
      && (h[|h| - 1] == DefaultOf(table, node) || (h[|h| - 1] in specialized && |specialized[h[|h| - 1]]| > 1))
    requires DefaultOf(table, node) in grouped && |grouped[DefaultOf(table, node)]| > 1
    requires table[node].parent.None?
    ensures var similar := grouped[DefaultOf(table, node)];
      Referring(table, node, grouped, specialized, parentExpression)
        == Success(OrdinalWord(Position(similar, node), |similar|) + " " + DefaultOf(table, node))
  {
    var similar := grouped[DefaultOf(table, node)];
    var w := OrdinalWord(Position(similar, node), |similar|);
    assert w + " " + DefaultOf(table, node) == w + (" " + DefaultOf(table, node));
  }

  lemma SameSuffix(a: string, b: string, s: string)
    requires a + s == b + s
    ensures a == b
  {
    assert |a| == |b|;
    assert (a + s)[..|a|] == a && (b + s)[..|b|] == b;
  }

  /** Two different entities of one group and one cluster (or both
      without a cluster), among the first twelve they are numbered among,
      are numbered apart. */
  lemma NumberedApart(table: seq<TextEntity>, a: nat, b: nat, similar: seq<nat>, parentExpression: string)
    requires a < |table| && b < |table| && a != b
    requires forall i :: 0 <= i < |similar| ==> similar[i] < |table|
    requires table[a].parent == table[b].parent
    requires DefaultOf(table, a) == DefaultOf(table, b)
    requires a in similar && b in similar
    requires Position(NumberingGroup(table, a, similar), a) <= 12
    requires Position(NumberingGroup(table, b, similar), b) <= 12
    ensures Numbered(table, a, similar, parentExpression) != Numbered(table, b, similar, parentExpression)
  {
    SharedNumbering(table, a, b, similar, parentExpression);
    var group := NumberingGroup(table, a, similar);
    var pa := Position(group, a);
    var pb := Position(group, b);
    assert group[pa - 1] == a && group[pb - 1] == b;
    OrdinalWordsDistinct(pa, pb, |group|);
    var noun := NumberedNoun(table, a, similar, parentExpression);
    if Numbered(table, a, similar, parentExpression) == Numbered(table, b, similar, parentExpression) {
      SameSuffix(OrdinalWord(pa, |group|), OrdinalWord(pb, |group|), noun);
      assert false;
    }
  }

  /** Entities of one cluster and one group are numbered among the same
      entities and share what follows the ordinal. */
  lemma SharedNumbering(table: seq<TextEntity>, a: nat, b: nat, similar: seq<nat>, parentExpression: string)
    requires a < |table| && b < |table|
    requires forall i :: 0 <= i < |similar| ==> similar[i] < |table|
    requires table[a].parent == table[b].parent
    requires DefaultOf(table, a) == DefaultOf(table, b)
    requires a in similar && b in similar
    ensures NumberingGroup(table, a, similar) == NumberingGroup(table, b, similar)
    ensures a in NumberingGroup(table, a, similar) && b in NumberingGroup(table, a, similar)
    ensures NumberedNoun(table, a, similar, parentExpression) == NumberedNoun(table, b, similar, parentExpression)
  {
  }
}
