/** A graph grammar: start symbols and weighted rules. One derivation step
    collects the rules that have a match (honouring each rule's cap on the
    in-degree of the first matched node), picks one by cumulative weight
    and applies it at a drawn match. The random draws are parameters: `u`
    stands for `NextDouble()` (in [0, 1)) and `pick` for the index draw,
    which is reduced modulo the number of matches. */
module Grammars {
  import opened Wrappers
  import opened Seqs
  import opened Graphs
  import opened Morphisms
  import opened Rules

  datatype Grammar<N, E> = Grammar(startSymbols: seq<Graph<N, E>>, rules: seq<Rule<N, E>>)

  /** How a derivation step can throw: a rule application fails, or a rule
      with a cap on the first node has a pattern without nodes, so reading
      the first node of a morphism is out of range. */
  datatype DeriveError = ApplyFailed(cause: ApplyError) | NoFirstNode(ruleName: string)

  /** Every rule passed construction, and the grouping hierarchy lists each
      pattern label in its own hierarchy (the morphism search needs this). */
  predicate Searchable<N(==), E(==)>(rules: seq<Rule<N, E>>, h: N -> seq<N>) {
    forall i :: 0 <= i < |rules| ==> ValidRule(rules[i]) && LabelsReflexive(rules[i].pattern.nodes, h)
  }

  /** Number of edges whose target is node v. */
  function InDegree<N, E>(host: Graph<N, E>, v: nat): nat {
    CountWhere(host.edges, (e: Edge<E>) => e.to == v)
  }

  /** The morphisms of a rule that respect its cap: fewer than `cap` edges
      end at the image of the first pattern node. */
  predicate UnderCap<N(==), E(==)>(rule: Rule<N, E>, host: Graph<N, E>, m: Morphism) {
    rule.firstNodeCap.Some? ==> |m.nodeMap| > 0 && InDegree(host, m.nodeMap[0]) < rule.firstNodeCap.value
  }

  /** The morphisms with fewer than `cap` edges ending at the first node's
      image, in order. */
  function UnderCapOnly<N, E>(ms: seq<Morphism>, host: Graph<N, E>, cap: nat): (r: seq<Morphism>)
    ensures forall m :: m in r <==> m in ms && |m.nodeMap| > 0 && InDegree(host, m.nodeMap[0]) < cap
  {
    var keep := (m: Morphism) => |m.nodeMap| > 0 && InDegree(host, m.nodeMap[0]) < cap;
    var r := Filter(ms, keep);
    assert forall m :: m in r <==> m in ms && keep(m) by {
      forall m { FilterMembers(ms, keep, m); }
    }
    r
  }

  /** `FindMorphismsForRule`: the morphisms that the finder as written
      yields for the rule's pattern, filtered by the rule's cap when it has
      one. */
  function FindMorphismsForRule<N(==,!new), E(==)>(rule: Rule<N, E>, host: Graph<N, E>, w: N, h: N -> seq<N>)
    : (r: Result<seq<Morphism>, DeriveError>)
    requires ValidRule(rule) && LabelsReflexive(rule.pattern.nodes, h)
    ensures var ms := FindMorphismsAsWritten(rule.pattern, host, w, h);
      && (r.Failure? <==> rule.firstNodeCap.Some? && |rule.pattern.nodes| == 0 && |ms| > 0)
      && (r.Failure? ==> r.error == NoFirstNode(rule.name))
      && (r.Success? ==> forall m :: m in r.value <==> m in ms && UnderCap(rule, host, m))
  {
    var ms := FindMorphismsAsWritten(rule.pattern, host, w, h);
    match rule.firstNodeCap
    case None => Success(ms)
    case Some(cap) =>
      if |rule.pattern.nodes| == 0 && |ms| > 0 then Failure(NoFirstNode(rule.name))
      else Success(UnderCapOnly(ms, host, cap))
  }

  /** Every morphism a rule's search yields is a match of its pattern that
      respects the cap. */
  lemma FoundAreMatches<N(!new), E>(rule: Rule<N, E>, host: Graph<N, E>, w: N, h: N -> seq<N>, m: Morphism)
    requires ValidRule(rule) && LabelsReflexive(rule.pattern.nodes, h)
    requires FindMorphismsForRule(rule, host, w, h).Success? && m in FindMorphismsForRule(rule, host, w, h).value
    ensures IsMatch(rule.pattern, host, w, h, m) && UnderCap(rule, host, m) && Fits(rule, m)
  {
    MatchIsMorphism(rule.pattern, host, w, h, m);
  }

  /** The search of every rule, in rule order. */
  function Searches<N(==,!new), E(==)>(rules: seq<Rule<N, E>>, host: Graph<N, E>, w: N, h: N -> seq<N>)
    : (r: seq<Result<seq<Morphism>, DeriveError>>)
    requires Searchable(rules, h)
    ensures |r| == |rules|
    ensures forall i :: 0 <= i < |rules| ==> r[i] == FindMorphismsForRule(rules[i], host, w, h)
  {
    seq(|rules|, i requires 0 <= i < |rules| => FindMorphismsForRule(rules[i], host, w, h))
  }

  /** A rule that has at least one usable morphism, with its position in
      the grammar and those morphisms. */
  datatype Application<N, E> = Application(index: nat, rule: Rule<N, E>, morphisms: seq<Morphism>)

  /** apps lists, in rule order, exactly the rules from position `from` on
      whose search found morphisms, each with those morphisms. */
  ghost predicate ApplicationsOf<N, E>(rules: seq<Rule<N, E>>, found: seq<Result<seq<Morphism>, DeriveError>>,
                                 from: nat, apps: seq<Application<N, E>>)
    requires |found| == |rules|
  {
    && (forall t :: 0 <= t < |apps| ==>
          && from <= apps[t].index < |rules| && apps[t].rule == rules[apps[t].index]
          && found[apps[t].index] == Success(apps[t].morphisms) && |apps[t].morphisms| > 0)
    && (forall s, t :: 0 <= s < t < |apps| ==> apps[s].index < apps[t].index)
    && (forall i :: from <= i < |rules| && found[i].Success? && |found[i].value| > 0 ==>
          exists t :: 0 <= t < |apps| && apps[t].index == i)
  }

  /** The first search from position `from` on that throws. */
  predicate FirstFailure<T, X>(found: seq<Result<T, X>>, from: nat, i: nat) {
    from <= i < |found| && found[i].Failure? && forall q :: from <= q < i ==> found[q].Success?
  }

  /** The `Select`/`Where(Any)` pipeline of `DeriveOneStep`, evaluated in
      rule order over the searches' outcomes; the first search that throws
      aborts it. */
  function Gather<N, E>(rules: seq<Rule<N, E>>, found: seq<Result<seq<Morphism>, DeriveError>>, from: nat)
    : (r: Result<seq<Application<N, E>>, DeriveError>)
    requires |found| == |rules| && from <= |rules|
    decreases |rules| - from
  {
    if from == |rules| then Success([])
    else
      match found[from]
      case Failure(e) => Failure(e)
      case Success(ms) =>
        match Gather(rules, found, from + 1)
        case Failure(e) => Failure(e)
        case Success(rest) => Success(if |ms| > 0 then [Application(from, rules[from], ms)] + rest else rest)
  }

  /** The pipeline succeeds exactly when no search throws. */
  lemma {:induction false} GatherSucceeds<N, E>(rules: seq<Rule<N, E>>, found: seq<Result<seq<Morphism>, DeriveError>>, from: nat)
    requires |found| == |rules| && from <= |rules|
    ensures Gather(rules, found, from).Success? <==> forall i :: from <= i < |found| ==> found[i].Success?
    decreases |rules| - from
  {
    if from < |rules| {
      GatherSucceeds(rules, found, from + 1);
    }
  }

  /** When it fails, it reports the exception of the first search that
      throws. */
  lemma {:induction false} GatherFails<N, E>(rules: seq<Rule<N, E>>, found: seq<Result<seq<Morphism>, DeriveError>>, from: nat)
    requires |found| == |rules| && from <= |rules|
    requires Gather(rules, found, from).Failure?
    ensures exists i: nat :: FirstFailure(found, from, i) && Gather(rules, found, from).error == found[i].error
    decreases |rules| - from
  {
    if found[from].Failure? {
      assert FirstFailure(found, from, from);
    } else {
      GatherFails(rules, found, from + 1);
      var i: nat :| FirstFailure(found, from + 1, i) && Gather(rules, found, from + 1).error == found[i].error;
      assert FirstFailure(found, from, i);
    }
  }

  /** When it succeeds, it lists exactly the rules that have morphisms, in
      order. */
  lemma {:induction false} GatherLists<N, E>(rules: seq<Rule<N, E>>, found: seq<Result<seq<Morphism>, DeriveError>>, from: nat)
    requires |found| == |rules| && from <= |rules|
    requires Gather(rules, found, from).Success?
    ensures ApplicationsOf(rules, found, from, Gather(rules, found, from).value)
    decreases |rules| - from
  {
    if from < |rules| {
      GatherLists(rules, found, from + 1);
      ApplicationsCons(rules, found, from, Gather(rules, found, from + 1).value);
    }
  }

  /** The three facts above together. */
  lemma GatherSpec<N, E>(rules: seq<Rule<N, E>>, found: seq<Result<seq<Morphism>, DeriveError>>, from: nat)
    requires |found| == |rules| && from <= |rules|
    ensures var r := Gather(rules, found, from);
      && (r.Success? <==> forall i :: from <= i < |found| ==> found[i].Success?)
      && (r.Failure? ==> exists i: nat :: FirstFailure(found, from, i) && r.error == found[i].error)
      && (r.Success? ==> ApplicationsOf(rules, found, from, r.value))
  {
    GatherSucceeds(rules, found, from);
    if Gather(rules, found, from).Failure? {
      GatherFails(rules, found, from);
    } else {
      GatherLists(rules, found, from);
    }
  }

  /** Putting an application of rule `from` in front of the applications
      from `from + 1` on keeps them sound and ordered. */
  lemma ConsSoundOrdered<N, E>(rules: seq<Rule<N, E>>, found: seq<Result<seq<Morphism>, DeriveError>>,
                               from: nat, rest: seq<Application<N, E>>)
    requires |found| == |rules| && from < |rules| && found[from].Success? && |found[from].value| > 0
    requires ApplicationsOf(rules, found, from + 1, rest)
    ensures var r := [Application(from, rules[from], found[from].value)] + rest;
      && (forall t :: 0 <= t < |r| ==>
            && from <= r[t].index < |rules| && r[t].rule == rules[r[t].index]
            && found[r[t].index] == Success(r[t].morphisms) && |r[t].morphisms| > 0)
      && (forall s, t :: 0 <= s < t < |r| ==> r[s].index < r[t].index)
  {
    var r := [Application(from, rules[from], found[from].value)] + rest;
    assert forall t :: 1 <= t < |r| ==> r[t] == rest[t - 1];
  }

  /** ... and complete. */
  lemma ConsComplete<N, E>(rules: seq<Rule<N, E>>, found: seq<Result<seq<Morphism>, DeriveError>>,
                           from: nat, rest: seq<Application<N, E>>, i: nat)
    requires |found| == |rules| && from < |rules| && found[from].Success? && |found[from].value| > 0
    requires ApplicationsOf(rules, found, from + 1, rest)
    requires from <= i < |rules| && found[i].Success? && |found[i].value| > 0
    ensures var r := [Application(from, rules[from], found[from].value)] + rest;
      exists t :: 0 <= t < |r| && r[t].index == i
  {
    var r := [Application(from, rules[from], found[from].value)] + rest;
    if i == from {
      assert r[0].index == i;
    } else {
      var t :| 0 <= t < |rest| && rest[t].index == i;
      assert r[t + 1].index == i;
    }
  }

  lemma ApplicationsCons<N, E>(rules: seq<Rule<N, E>>, found: seq<Result<seq<Morphism>, DeriveError>>,
                               from: nat, rest: seq<Application<N, E>>)
    requires |found| == |rules| && from < |rules| && found[from].Success?
    requires ApplicationsOf(rules, found, from + 1, rest)
    ensures var ms := found[from].value;
      ApplicationsOf(rules, found, from, if |ms| > 0 then [Application(from, rules[from], ms)] + rest else rest)
  {
    if |found[from].value| > 0 {
      ConsSoundOrdered(rules, found, from, rest);
      forall i | from <= i < |rules| && found[i].Success? && |found[i].value| > 0
        ensures exists t :: 0 <= t < |rest| + 1 && ([Application(from, rules[from], found[from].value)] + rest)[t].index == i
      {
        ConsComplete(rules, found, from, rest, i);
      }
    }
  }

  /** Sum of the weights of the first i applications (LINQ `Sum` adds in
      order). */
  function Prefix<N, E>(apps: seq<Application<N, E>>, i: nat): real
    requires i <= |apps|
  {
    if i == 0 then 0.0 else Prefix(apps, i - 1) + apps[i - 1].rule.weight
  }

  /** The `foreach` of `DeriveOneStep` from application i on, with p the
      draw minus the weights already subtracted: the first application that
      drives p below zero is chosen; none is when the loop runs out. */
  function SelectFrom<N, E>(apps: seq<Application<N, E>>, i: nat, p: real): (r: Option<nat>)
    requires i <= |apps|
    ensures r.Some? ==> i <= r.value < |apps|
    decreases |apps| - i
  {
    if i == |apps| then None
    else if p - apps[i].rule.weight < 0.0 then Some(i)
    else SelectFrom(apps, i + 1, p - apps[i].rule.weight)
  }

  predicate NonNegativeWeights<N, E>(rules: seq<Rule<N, E>>) {
    forall i :: 0 <= i < |rules| ==> rules[i].weight >= 0.0
  }

  predicate AppWeightsNonNegative<N, E>(apps: seq<Application<N, E>>) {
    forall t :: 0 <= t < |apps| ==> apps[t].rule.weight >= 0.0
  }

  /** Cumulative selection: with non-negative weights and a draw p >= 0,
      application j is chosen exactly when p lies in [Prefix(j), Prefix(j+1)),
      and nothing is chosen exactly when p reaches the total. */
  lemma {:induction false} SelectInterval<N, E>(apps: seq<Application<N, E>>, i: nat, p: real, j: nat)
    requires AppWeightsNonNegative(apps) && i <= |apps| && Prefix(apps, i) <= p
    ensures SelectFrom(apps, i, p - Prefix(apps, i)) == Some(j) <==>
      (i <= j < |apps| && Prefix(apps, j) <= p < Prefix(apps, j + 1))
    ensures SelectFrom(apps, i, p - Prefix(apps, i)) == None <==> Prefix(apps, |apps|) <= p
    decreases |apps| - i
  {
    if i < |apps| {
      var q := p - Prefix(apps, i);
      assert Prefix(apps, i + 1) == Prefix(apps, i) + apps[i].rule.weight;
      if q - apps[i].rule.weight < 0.0 {
        PrefixMono(apps, i + 1, j);
        PrefixMono(apps, i + 1, |apps|);
      } else {
        assert q - apps[i].rule.weight == p - Prefix(apps, i + 1);
        SelectInterval(apps, i + 1, p, j);
        if j == i {
          assert !(p < Prefix(apps, j + 1));
        }
      }
    }
  }

  lemma {:induction false} PrefixMono<N, E>(apps: seq<Application<N, E>>, i: nat, j: nat)
    requires AppWeightsNonNegative(apps) && i <= |apps|
    ensures i <= j <= |apps| ==> Prefix(apps, i) <= Prefix(apps, j)
    decreases j
  {
    if i < j <= |apps| {
      PrefixMono(apps, i, j - 1);
    }
  }

  /** Every morphism a search found fits its rule. */
  predicate FoundFit<N(==), E(==)>(rules: seq<Rule<N, E>>, found: seq<Result<seq<Morphism>, DeriveError>>) {
    |found| == |rules| &&
    forall i, m :: 0 <= i < |rules| && found[i].Success? && m in found[i].value ==> Fits(rules[i], m)
  }

  /** `random.NextDouble() * summedPropabilityValues`. */
  function Scaled(u: real, total: real): real {
    u * total
  }

  /** The rule choice of `DeriveOneStep`: the applicable rules, then the
      first whose weight drives the scaled draw below zero; the result is
      the chosen rule's position. */
  function Choose<N, E>(rules: seq<Rule<N, E>>, found: seq<Result<seq<Morphism>, DeriveError>>, u: real)
    : (r: Result<Option<nat>, DeriveError>)
    requires |found| == |rules|
    ensures r.Failure? ==> exists i: nat :: FirstFailure(found, 0, i) && r.error == found[i].error
    ensures r.Success? && r.value.Some? ==>
      r.value.value < |rules| && found[r.value.value].Success? && |found[r.value.value].value| > 0
  {
    GatherSpec(rules, found, 0);
    match Gather(rules, found, 0)
    case Failure(e) => Failure(e)
    case Success(apps) =>
      match SelectFrom(apps, 0, Scaled(u, Prefix(apps, |apps|)))
      case None => Success(None)
      case Some(t) => Success(Some(apps[t].index))
  }

  /** The body of `DeriveOneStep` once the searches have run: choose a rule
      and apply it at the drawn morphism. */
  function DeriveWith<N(==), E(==)>(rules: seq<Rule<N, E>>, host: Graph<N, E>,
                                    found: seq<Result<seq<Morphism>, DeriveError>>, u: real, pick: nat)
    : (r: Result<Option<Graph<N, E>>, DeriveError>)
    requires FoundFit(rules, found)
    ensures r.Success? && r.value.None? <==> Choose(rules, found, u) == Success(None)
    ensures r.Failure? ==>
      || (Choose(rules, found, u).Failure? && r.error == Choose(rules, found, u).error)
      || (r.error.ApplyFailed? && exists i, m :: (0 <= i < |rules| && found[i].Success? && m in found[i].value
            && ApplyTo(rules[i], host, m) == Failure(r.error.cause)))
    ensures r.Success? && r.value.Some? ==>
      && Choose(rules, found, u).Success? && Choose(rules, found, u).value.Some?
      && var i := Choose(rules, found, u).value.value;
         exists m :: m in found[i].value && ApplyTo(rules[i], host, m) == Success(r.value.value)
  {
    match Choose(rules, found, u)
    case Failure(e) => Failure(e)
    case Success(None) => Success(None)
    case Success(Some(i)) =>
      var ms := found[i].value;
      var m := ms[pick % |ms|];
      match ApplyTo(rules[i], host, m)
      case Failure(e) => Failure(ApplyFailed(e))
      case Success(g) => Success(Some(g))
  }

  lemma SearchesFit<N(!new), E>(rules: seq<Rule<N, E>>, host: Graph<N, E>, w: N, h: N -> seq<N>)
    requires Searchable(rules, h)
    ensures FoundFit(rules, Searches(rules, host, w, h))
  {
    var found := Searches(rules, host, w, h);
    forall i, m | 0 <= i < |rules| && found[i].Success? && m in found[i].value
      ensures Fits(rules[i], m)
    {
      FoundAreMatches(rules[i], host, w, h, m);
    }
  }

  /** A derivation step throws only for a capped rule without pattern nodes
      or for the contact condition of the chosen rule. */
  lemma StepErrors<N(!new), E>(rules: seq<Rule<N, E>>, host: Graph<N, E>, w: N, h: N -> seq<N>, u: real, pick: nat)
    requires Searchable(rules, h)
    ensures FoundFit(rules, Searches(rules, host, w, h))
    ensures var r := DeriveWith(rules, host, Searches(rules, host, w, h), u, pick);
      r.Failure? ==> r.error.NoFirstNode? || exists i :: 0 <= i < |rules| && r.error == ApplyFailed(RuleContactViolated(rules[i].name))
  {
    SearchesFit(rules, host, w, h);
    var found := Searches(rules, host, w, h);
    var r := DeriveWith(rules, host, found, u, pick);
    if r.Failure? {
      if Choose(rules, found, u).Failure? && r.error == Choose(rules, found, u).error {
        var i: nat :| FirstFailure(found, 0, i) && r.error == found[i].error;
        SearchError(rules, host, w, h, i);
      } else {
        var i, m :| 0 <= i < |rules| && found[i].Success? && m in found[i].value
          && ApplyTo(rules[i], host, m) == Failure(r.error.cause);
        FoundApplyError(rules, host, w, h, i, m);
      }
    }
  }

  lemma SearchError<N(!new), E>(rules: seq<Rule<N, E>>, host: Graph<N, E>, w: N, h: N -> seq<N>, i: nat)
    requires Searchable(rules, h) && i < |rules|
    requires Searches(rules, host, w, h)[i].Failure?
    ensures Searches(rules, host, w, h)[i].error.NoFirstNode?
  {
    assert Searches(rules, host, w, h)[i] == FindMorphismsForRule(rules[i], host, w, h);
  }

  lemma FoundApplyError<N(!new), E>(rules: seq<Rule<N, E>>, host: Graph<N, E>, w: N, h: N -> seq<N>, i: nat, m: Morphism)
    requires Searchable(rules, h) && i < |rules|
    requires Searches(rules, host, w, h)[i].Success? && m in Searches(rules, host, w, h)[i].value
    ensures Fits(rules[i], m)
    ensures ApplyTo(rules[i], host, m).Failure? ==> ApplyTo(rules[i], host, m).error == RuleContactViolated(rules[i].name)
  {
    assert Searches(rules, host, w, h)[i] == FindMorphismsForRule(rules[i], host, w, h);
    FoundAreMatches(rules[i], host, w, h, m);
    ApplyNeverOutOfRange(rules[i], host, m);
  }

  /** `DeriveOneStep`: `Success(None)` is the source's `null`. */
  function DeriveOneStep<N(==,!new), E(==)>(rules: seq<Rule<N, E>>, host: Graph<N, E>, w: N, h: N -> seq<N>,
                                            u: real, pick: nat)
    : (r: Result<Option<Graph<N, E>>, DeriveError>)
    requires Searchable(rules, h)
    ensures r.Failure? ==> r.error.NoFirstNode? || exists i :: 0 <= i < |rules| && r.error == ApplyFailed(RuleContactViolated(rules[i].name))
  {
    SearchesFit(rules, host, w, h);
    StepErrors(rules, host, w, h, u, pick);
    DeriveWith(rules, host, Searches(rules, host, w, h), u, pick)
  }

  // ---------------------------------------------------------------------
  // What the weighted choice guarantees
  // ---------------------------------------------------------------------

  /** Every rule whose search found a morphism has weight zero. */
  predicate OnlyZeroWeightsApply<N, E>(rules: seq<Rule<N, E>>, found: seq<Result<seq<Morphism>, DeriveError>>)
    requires |found| == |rules|
  {
    forall i :: 0 <= i < |rules| && found[i].Success? && |found[i].value| > 0 ==> rules[i].weight == 0.0
  }

  lemma {:induction false} PrefixZero<N, E>(apps: seq<Application<N, E>>, n: nat)
    requires AppWeightsNonNegative(apps) && n <= |apps|
    ensures Prefix(apps, n) >= 0.0
    ensures Prefix(apps, n) == 0.0 <==> forall t :: 0 <= t < n ==> apps[t].rule.weight == 0.0
  {
    if n > 0 {
      PrefixZero(apps, n - 1);
    }
  }

  /** The applications carry the weights of their rules. */
  lemma AppsWeights<N, E>(rules: seq<Rule<N, E>>, found: seq<Result<seq<Morphism>, DeriveError>>, apps: seq<Application<N, E>>)
    requires |found| == |rules| && ApplicationsOf(rules, found, 0, apps)
    ensures NonNegativeWeights(rules) ==> AppWeightsNonNegative(apps)
    ensures (forall t :: 0 <= t < |apps| ==> apps[t].rule.weight == 0.0) <==> OnlyZeroWeightsApply(rules, found)
  {
    if OnlyZeroWeightsApply(rules, found) {
      forall t | 0 <= t < |apps|
        ensures apps[t].rule.weight == 0.0
      {
        assert found[apps[t].index].Success? && |found[apps[t].index].value| > 0;
      }
    }
    if forall t :: 0 <= t < |apps| ==> apps[t].rule.weight == 0.0 {
      forall i | 0 <= i < |rules| && found[i].Success? && |found[i].value| > 0
        ensures rules[i].weight == 0.0
      {
        var t :| 0 <= t < |apps| && apps[t].index == i;
      }
    }
  }

  /** The selection loop never stops at an application of weight zero. */
  lemma SelectedPositive<N, E>(apps: seq<Application<N, E>>, p: real)
    requires AppWeightsNonNegative(apps) && 0.0 <= p
    ensures SelectFrom(apps, 0, p).Some? ==> apps[SelectFrom(apps, 0, p).value].rule.weight > 0.0
  {
    if SelectFrom(apps, 0, p).Some? {
      var t := SelectFrom(apps, 0, p).value;
      assert p - Prefix(apps, 0) == p;
      SelectInterval(apps, 0, p, t);
      assert Prefix(apps, t + 1) == Prefix(apps, t) + apps[t].rule.weight;
    }
  }

  /** With a draw below the total, the selection loop always stops. */
  lemma SelectedSome<N, E>(apps: seq<Application<N, E>>, p: real)
    requires AppWeightsNonNegative(apps) && 0.0 <= p
    ensures SelectFrom(apps, 0, p).None? <==> Prefix(apps, |apps|) <= p
  {
    assert p - Prefix(apps, 0) == p;
    SelectInterval(apps, 0, p, 0);
  }

  /** Once every search succeeded, the choice is the selection loop over
      the applications with the draw scaled by their total weight. */
  lemma ChooseSelects<N, E>(rules: seq<Rule<N, E>>, found: seq<Result<seq<Morphism>, DeriveError>>, u: real)
    requires |found| == |rules| && Gather(rules, found, 0).Success?
    ensures var apps := Gather(rules, found, 0).value;
      var sel := SelectFrom(apps, 0, Scaled(u, Prefix(apps, |apps|)));
      Choose(rules, found, u) == if sel.None? then Success(None) else Success(Some(apps[sel.value].index))
  {
    GatherSpec(rules, found, 0);
  }

  /** The chosen rule always has positive weight: a rule of weight zero is
      never applied. */
  lemma ChosenWeightPositive<N, E>(rules: seq<Rule<N, E>>, found: seq<Result<seq<Morphism>, DeriveError>>, u: real)
    requires |found| == |rules| && NonNegativeWeights(rules) && 0.0 <= u
    ensures var r := Choose(rules, found, u);
      r.Success? && r.value.Some? ==> r.value.value < |rules| && rules[r.value.value].weight > 0.0
  {
    GatherSpec(rules, found, 0);
    var g := Gather(rules, found, 0);
    if g.Success? {
      var apps := g.value;
      AppsWeights(rules, found, apps);
      PrefixZero(apps, |apps|);
      var total := Prefix(apps, |apps|);
      ProductNonNegative(u, total);
      SelectedPositive(apps, Scaled(u, total));
      ChooseSelects(rules, found, u);
    }
  }

  /** With non-negative weights and a draw in [0, 1), no rule is chosen
      exactly when every search succeeded and only rules of weight zero
      have morphisms. */
  lemma NoneIffZeroWeights<N, E>(rules: seq<Rule<N, E>>, found: seq<Result<seq<Morphism>, DeriveError>>, u: real)
    requires |found| == |rules| && NonNegativeWeights(rules) && 0.0 <= u < 1.0
    ensures Choose(rules, found, u) == Success(None) <==>
      (forall i :: 0 <= i < |found| ==> found[i].Success?) && OnlyZeroWeightsApply(rules, found)
  {
    GatherSpec(rules, found, 0);
    var g := Gather(rules, found, 0);
    if g.Success? {
      var apps := g.value;
      AppsWeights(rules, found, apps);
      PrefixZero(apps, |apps|);
      var total := Prefix(apps, |apps|);
      ProductNonNegative(u, total);
      ChooseSelects(rules, found, u);
      if total > 0.0 {
        ProductBelow(u, total);
      } else {
        ProductZero(u, total);
      }
      SelectedSome(apps, Scaled(u, total));
    }
  }

  lemma ProductNonNegative(u: real, total: real)
    requires 0.0 <= u && 0.0 <= total
    ensures 0.0 <= Scaled(u, total)
  {
  }

  lemma ProductZero(u: real, total: real)
    requires total == 0.0
    ensures Scaled(u, total) == 0.0
  {
  }

  lemma ProductBelow(u: real, total: real)
    requires 0.0 <= u < 1.0 && total > 0.0
    ensures 0.0 <= Scaled(u, total) < total
  {
    assert total - u * total == (1.0 - u) * total;
  }

  // ---------------------------------------------------------------------
  // One derivation step, in the grammar's terms
  // ---------------------------------------------------------------------

  /** One rewrite of the grammar: a rule of positive weight applied at one
      of its capped matches. */
  ghost predicate Rewrites<N(!new), E>(rules: seq<Rule<N, E>>, w: N, h: N -> seq<N>, g: Graph<N, E>, g': Graph<N, E>) {
    exists i, m :: 0 <= i < |rules| && rules[i].weight > 0.0
      && IsMatch(rules[i].pattern, g, w, h, m) && UnderCap(rules[i], g, m) && Fits(rules[i], m)
      && ApplyTo(rules[i], g, m) == Success(g')
  }

  /** A step that rewrites applies a rule of positive weight at one of its
      capped matches. */
  lemma StepAppliesPositiveRule<N(!new), E>(rules: seq<Rule<N, E>>, host: Graph<N, E>, w: N, h: N -> seq<N>,
                                            u: real, pick: nat)
    requires Searchable(rules, h) && NonNegativeWeights(rules) && 0.0 <= u
    ensures var r := DeriveOneStep(rules, host, w, h, u, pick);
      r.Success? && r.value.Some? ==> Rewrites(rules, w, h, host, r.value.value)
  {
    SearchesFit(rules, host, w, h);
    StepErrors(rules, host, w, h, u, pick);
    var found := Searches(rules, host, w, h);
    var r := DeriveWith(rules, host, found, u, pick);
    if r.Success? && r.value.Some? {
      ChosenWeightPositive(rules, found, u);
      var i := Choose(rules, found, u).value.value;
      var m :| m in found[i].value && ApplyTo(rules[i], host, m) == Success(r.value.value);
      FoundApplyError(rules, host, w, h, i, m);
      assert found[i] == FindMorphismsForRule(rules[i], host, w, h);
      FoundAreMatches(rules[i], host, w, h, m);
    }
  }

  /** With non-negative weights and a draw in [0, 1), the step returns
      `null` exactly when no search throws and every rule with a capped
      match has weight zero. */
  lemma StepNullIff<N(!new), E>(rules: seq<Rule<N, E>>, host: Graph<N, E>, w: N, h: N -> seq<N>, u: real, pick: nat)
    requires Searchable(rules, h) && NonNegativeWeights(rules) && 0.0 <= u < 1.0
    ensures var r := DeriveOneStep(rules, host, w, h, u, pick);
      r.Success? && r.value.None? <==>
        && (forall i :: 0 <= i < |rules| ==> FindMorphismsForRule(rules[i], host, w, h).Success?)
        && (forall i :: 0 <= i < |rules| && |FindMorphismsForRule(rules[i], host, w, h).value| > 0 ==> rules[i].weight == 0.0)
  {
    var found := Searches(rules, host, w, h);
    SearchesFit(rules, host, w, h);
    assert DeriveOneStep(rules, host, w, h, u, pick) == DeriveWith(rules, host, found, u, pick);
    NoneIffZeroWeights(rules, found, u);
  }

  /** A rule whose pattern is one wildcard node and no edge, applied to a
      host equal to that pattern: the identity is a match and the corrected
      search finds it, but the search as written finds nothing, so the step
      returns `null` and a derivation stops there. */
  lemma LoneWildcardStepIsNull<N(!new), E>(rule: Rule<N, E>, w: N, h: N -> seq<N>, u: real, pick: nat)
    requires ValidRule(rule) && HierarchyLaws(h, w)
    requires Lone(rule.pattern.nodes, w) && rule.pattern.edges == []
    requires 0.0 <= rule.weight && 0.0 <= u < 1.0
    ensures Searchable([rule], h) && NonNegativeWeights([rule])
    ensures IsMatch(rule.pattern, rule.pattern, w, h, Morphism([0], []))
    ensures Morphism([0], []) in FindMorphisms(rule.pattern, rule.pattern, w, h)
    ensures DeriveOneStep([rule], rule.pattern, w, h, u, pick) == Success(None)
  {
    var g := rule.pattern;
    LoneIdentityMatch(g, w, h);
    FindMorphismsComplete(g, g, w, h, Morphism([0], []));
    LoneWildcardSizing(g.nodes, w, h);
    SizingAsWrittenFails(g, g, w, h);
    NothingFoundStepIsNull(rule, g, w, h, u, pick);
  }

  lemma LoneIdentityMatch<N, E>(g: Graph<N, E>, w: N, h: N -> seq<N>)
    requires Lone(g.nodes, w) && g.edges == []
    ensures IsMatch(g, g, w, h, Morphism([0], []))
  {
  }

  /** A single rule whose search as written finds nothing leaves the step
      with nothing to apply. */
  lemma NothingFoundStepIsNull<N(!new), E>(rule: Rule<N, E>, host: Graph<N, E>, w: N, h: N -> seq<N>, u: real, pick: nat)
    requires ValidRule(rule) && LabelsReflexive(rule.pattern.nodes, h)
    requires 0.0 <= rule.weight && 0.0 <= u < 1.0
    requires FindMorphismsAsWritten(rule.pattern, host, w, h) == []
    ensures Searchable([rule], h) && NonNegativeWeights([rule])
    ensures DeriveOneStep([rule], host, w, h, u, pick) == Success(None)
  {
    var rules := [rule];
    var found := FindMorphismsForRule(rule, host, w, h);
    assert found.Success? && found.value == [];
    assert forall i :: 0 <= i < |rules| ==> rules[i] == rule;
    StepNullIff(rules, host, w, h, u, pick);
  }

  // ---------------------------------------------------------------------
  // Many steps
  // ---------------------------------------------------------------------

  /** `DeriveManySteps`: up to maxSteps derivation steps, returning the
      current graph at the first step that yields `null`; draws[s] holds the
      random draws of step s + 1. */
  function DeriveManySteps<N(==,!new), E(==)>(rules: seq<Rule<N, E>>, maxSteps: int, host: Graph<N, E>, w: N,
                                              h: N -> seq<N>, draws: seq<(real, nat)>)
    : (r: Result<Graph<N, E>, DeriveError>)
    requires Searchable(rules, h) && |draws| >= maxSteps
    ensures maxSteps <= 0 ==> r == Success(host)
    decreases maxSteps
  {
    if maxSteps <= 0 then Success(host)
    else
      match DeriveOneStep(rules, host, w, h, draws[0].0, draws[0].1)
      case Failure(e) => Failure(e)
      case Success(None) => Success(host)
      case Success(Some(g)) => DeriveManySteps(rules, maxSteps - 1, g, w, h, draws[1..])
  }

  /** No rule of positive weight has a capped match in g (and no search
      throws). */
  predicate Stuck<N(==,!new), E(==)>(rules: seq<Rule<N, E>>, w: N, h: N -> seq<N>, g: Graph<N, E>)
    requires Searchable(rules, h)
  {
    && (forall i :: 0 <= i < |rules| ==> FindMorphismsForRule(rules[i], g, w, h).Success?)
    && (forall i :: 0 <= i < |rules| && |FindMorphismsForRule(rules[i], g, w, h).value| > 0 ==> rules[i].weight == 0.0)
  }

  predicate UnitDraws(draws: seq<(real, nat)>) {
    forall s :: 0 <= s < |draws| ==> 0.0 <= draws[s].0 < 1.0
  }

  /** chain runs from host to last by rewrites, takes at most maxSteps of
      them, and ends at a stuck graph when it takes fewer. */
  ghost predicate IsChain<N(!new), E>(rules: seq<Rule<N, E>>, w: N, h: N -> seq<N>, maxSteps: int,
                                      chain: seq<Graph<N, E>>, host: Graph<N, E>, last: Graph<N, E>)
  {
    && |chain| >= 1 && chain[0] == host && chain[|chain| - 1] == last
    && |chain| - 1 <= (if maxSteps < 0 then 0 else maxSteps)
    && (forall t :: 0 <= t < |chain| - 1 ==> Rewrites(rules, w, h, chain[t], chain[t + 1]))
    && (|chain| - 1 < maxSteps ==> Searchable(rules, h) && Stuck(rules, w, h, last))
  }

  /** last is reachable from host by such a chain. */
  ghost predicate Derives<N(!new), E(!new)>(rules: seq<Rule<N, E>>, w: N, h: N -> seq<N>, maxSteps: int,
                                      host: Graph<N, E>, last: Graph<N, E>)
  {
    exists chain :: IsChain(rules, w, h, maxSteps, chain, host, last)
  }

  lemma ChainCons<N(!new), E>(rules: seq<Rule<N, E>>, w: N, h: N -> seq<N>, maxSteps: int,
                              rest: seq<Graph<N, E>>, host: Graph<N, E>, g: Graph<N, E>, last: Graph<N, E>)
    requires Searchable(rules, h) && maxSteps > 0
    requires Rewrites(rules, w, h, host, g) && IsChain(rules, w, h, maxSteps - 1, rest, g, last)
    ensures IsChain(rules, w, h, maxSteps, [host] + rest, host, last)
  {
    var chain := [host] + rest;
    assert chain[0] == host && chain[1] == g && chain[|chain| - 1] == last;
    forall t | 0 <= t < |chain| - 1
      ensures Rewrites(rules, w, h, chain[t], chain[t + 1])
    {
      if t > 0 {
        assert chain[t] == rest[t - 1] && chain[t + 1] == rest[t];
      }
    }
  }

  /** The loop body of `DeriveManySteps` once more than zero steps remain. */
  lemma ManyStepsUnfold<N(!new), E>(rules: seq<Rule<N, E>>, maxSteps: int, host: Graph<N, E>, w: N,
                                    h: N -> seq<N>, draws: seq<(real, nat)>)
    requires Searchable(rules, h) && |draws| >= maxSteps > 0
    ensures var step := DeriveOneStep(rules, host, w, h, draws[0].0, draws[0].1);
      var r := DeriveManySteps(rules, maxSteps, host, w, h, draws);
      && (step.Failure? ==> r.Failure?)
      && (step.Success? && step.value.None? ==> r == Success(host))
      && (step.Success? && step.value.Some? ==> r == DeriveManySteps(rules, maxSteps - 1, step.value.value, w, h, draws[1..]))
  {
  }

  /** A successful derivation is a chain of at most maxSteps rewrites from
      the host; when it is shorter, the last graph is stuck. */
  lemma DerivationChain<N(!new), E(!new)>(rules: seq<Rule<N, E>>, maxSteps: int, host: Graph<N, E>, w: N,
                                          h: N -> seq<N>, draws: seq<(real, nat)>)
    requires Searchable(rules, h) && NonNegativeWeights(rules) && |draws| >= maxSteps && UnitDraws(draws)
    ensures var r := DeriveManySteps(rules, maxSteps, host, w, h, draws);
      r.Success? ==> Derives(rules, w, h, maxSteps, host, r.value)
  {
    var chain := BuildChain(rules, maxSteps, host, w, h, draws);
  }

  /** The chain of a derivation, built step by step. */
  lemma {:induction false} BuildChain<N(!new), E(!new)>(rules: seq<Rule<N, E>>, maxSteps: int, host: Graph<N, E>, w: N,
                                                        h: N -> seq<N>, draws: seq<(real, nat)>)
    returns (chain: seq<Graph<N, E>>)
    requires Searchable(rules, h) && NonNegativeWeights(rules) && |draws| >= maxSteps && UnitDraws(draws)
    ensures var r := DeriveManySteps(rules, maxSteps, host, w, h, draws);
      r.Success? ==> IsChain(rules, w, h, maxSteps, chain, host, r.value)
    decreases maxSteps
  {
    chain := [host];
    if maxSteps > 0 {
      var step := DeriveOneStep(rules, host, w, h, draws[0].0, draws[0].1);
      if step.Success? && step.value.Some? {
        var g := step.value.value;
        UnitDrawsTail(draws);
        var rest := BuildChain(rules, maxSteps - 1, g, w, h, draws[1..]);
        ChainStep(rules, maxSteps, host, g, w, h, draws, rest);
        chain := [host] + rest;
      } else {
        ChainUnlessRewrite(rules, maxSteps, host, w, h, draws);
      }
    }
  }

  /** A step that does not rewrite either throws or ends the derivation at
      a stuck host. */
  lemma ChainUnlessRewrite<N(!new), E(!new)>(rules: seq<Rule<N, E>>, maxSteps: int, host: Graph<N, E>, w: N,
                                             h: N -> seq<N>, draws: seq<(real, nat)>)
    requires Searchable(rules, h) && NonNegativeWeights(rules) && |draws| >= maxSteps > 0 && 0.0 <= draws[0].0 < 1.0
    requires var step := DeriveOneStep(rules, host, w, h, draws[0].0, draws[0].1);
      !(step.Success? && step.value.Some?)
    ensures var r := DeriveManySteps(rules, maxSteps, host, w, h, draws);
      r.Success? ==> IsChain(rules, w, h, maxSteps, [host], host, r.value)
  {
    ManyStepsUnfold(rules, maxSteps, host, w, h, draws);
    if DeriveOneStep(rules, host, w, h, draws[0].0, draws[0].1).Success? {
      ChainWhenNull(rules, host, w, h, draws[0].0, draws[0].1, maxSteps);
    }
  }

  /** The inductive step: a rewrite to g in front of the chain of the
      remaining steps from g. */
  lemma ChainStep<N(!new), E(!new)>(rules: seq<Rule<N, E>>, maxSteps: int, host: Graph<N, E>, g: Graph<N, E>, w: N,
                                    h: N -> seq<N>, draws: seq<(real, nat)>, rest: seq<Graph<N, E>>)
    requires Searchable(rules, h) && NonNegativeWeights(rules) && |draws| >= maxSteps > 0 && 0.0 <= draws[0].0
    requires DeriveOneStep(rules, host, w, h, draws[0].0, draws[0].1) == Success(Some(g))
    requires var r := DeriveManySteps(rules, maxSteps - 1, g, w, h, draws[1..]);
      r.Success? ==> IsChain(rules, w, h, maxSteps - 1, rest, g, r.value)
    ensures var r := DeriveManySteps(rules, maxSteps, host, w, h, draws);
      r.Success? ==> IsChain(rules, w, h, maxSteps, [host] + rest, host, r.value)
  {
    ManyStepsUnfold(rules, maxSteps, host, w, h, draws);
    StepAppliesPositiveRule(rules, host, w, h, draws[0].0, draws[0].1);
    var r := DeriveManySteps(rules, maxSteps - 1, g, w, h, draws[1..]);
    if r.Success? {
      ChainCons(rules, w, h, maxSteps, rest, host, g, r.value);
    }
  }

  lemma UnitDrawsTail(draws: seq<(real, nat)>)
    requires UnitDraws(draws) && |draws| > 0
    ensures UnitDraws(draws[1..])
  {
    assert forall s :: 0 <= s < |draws| - 1 ==> draws[1..][s] == draws[s + 1];
  }

  lemma ChainWhenNull<N(!new), E>(rules: seq<Rule<N, E>>, host: Graph<N, E>, w: N, h: N -> seq<N>,
                                  u: real, pick: nat, maxSteps: int)
    requires Searchable(rules, h) && NonNegativeWeights(rules) && 0.0 <= u < 1.0
    requires DeriveOneStep(rules, host, w, h, u, pick).Success? && DeriveOneStep(rules, host, w, h, u, pick).value.None?
    ensures IsChain(rules, w, h, maxSteps, [host], host, host)
  {
    StepNullIff(rules, host, w, h, u, pick);
  }
}
