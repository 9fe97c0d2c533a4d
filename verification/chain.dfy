/** One Markov chain of the layout sampler: a current layout with its
    log-evaluation (an energy, lower is better, possibly infinite for an
    invalid layout), a Metropolis step over the proposal moves, and the
    replica exchange of two chains. The evaluation and the outcome of the
    acceptance test `exp(...) > Random.value` are parameters. */
module Chains {
  import opened Wrappers
  import opened Layouts
  import opened Moves

  /** A double log-evaluation: finite, or one of the two infinities. */
  datatype Energy = Finite(v: real) | PositiveInfinity | NegativeInfinity

  predicate IsInfinity(e: Energy) {
    e.PositiveInfinity? || e.NegativeInfinity?
  }

  /** What `CalculateEvaluationFunction(...).Value` does: give a value,
      find no value (`null`), or raise an `ArithmeticException`. */
  datatype Evaluation = Value(energy: Energy) | NoValue | ArithmeticFault

  /** The state of one chain. */
  datatype ChainState = ChainState(layout: SceneLayout, energy: Energy, inverseTemperature: real)

  /** `StepStatistics` without the scene object's name. */
  datatype StepStatistics = StepStatistics(logEvaluation: Energy, isStepAccepted: bool)

  /** A failing proposal, or `.Value` of a missing evaluation (an
      `InvalidOperationException`, which the step does not catch). */
  datatype StepError = Proposal(moveError: MoveError) | MissingEvaluation

  /** The energy a step works with: an arithmetic fault counts as 0.0. */
  function NewEnergy(e: Evaluation): (r: Result<Energy, StepError>)
    ensures e.ArithmeticFault? ==> r == Success(Finite(0.0))
    ensures e.Value? ==> r == Success(e.energy)
    ensures r.Failure? <==> e.NoValue?
  {
    match e
    case Value(x) => Success(x)
    case ArithmeticFault => Success(Finite(0.0))
    case NoValue => Failure(MissingEvaluation)
  }

  /** `Step`: draw a proposal, evaluate it, and accept it when the current
      energy is infinite or the Metropolis test (`metropolis`) passes. */
  function Step(c: ChainState, ctx: MoveContext, moves: seq<Move>, d: Draws, normalized: Vec3 -> Vec3,
                evaluate: SceneLayout -> Evaluation, metropolis: bool)
    : (r: Result<(ChainState, StepStatistics), StepError>)
    ensures r.Success? ==> r.value.0.inverseTemperature == c.inverseTemperature
    ensures r.Success? ==> (r.value.1.isStepAccepted <==> IsInfinity(c.energy) || metropolis)
    ensures r.Success? && !r.value.1.isStepAccepted ==> r.value.0 == c && r.value.1.logEvaluation == c.energy
    ensures r.Success? && r.value.1.isStepAccepted ==> r.value.1.logEvaluation == r.value.0.energy
  {
    match SampleJump(c.layout, ctx, moves, d, normalized)
    case Failure(e) => Failure(Proposal(e))
    case Success(proposal) =>
      var energy :- NewEnergy(evaluate(proposal));
      if IsInfinity(c.energy) || metropolis then
        Success((c.(layout := proposal, energy := energy), StepStatistics(energy, true)))
      else
        Success((c, StepStatistics(c.energy, false)))
  }

  /** An accepted step moves the chain to the proposal with its evaluated
      energy (0.0 after an arithmetic fault); the new layout differs from
      the old one by one move of the move set. */
  lemma StepMovesByOneMove(c: ChainState, ctx: MoveContext, moves: seq<Move>, d: Draws, normalized: Vec3 -> Vec3,
                           evaluate: SceneLayout -> Evaluation, metropolis: bool)
    requires Step(c, ctx, moves, d, normalized, evaluate, metropolis).Success?
    ensures var (c2, stats) := Step(c, ctx, moves, d, normalized, evaluate, metropolis).value;
      && |moves| > 0
      && (stats.isStepAccepted ==>
           && SampleJump(c.layout, ctx, moves, d, normalized) == Success(c2.layout)
           && (evaluate(c2.layout).ArithmeticFault? ==> c2.energy == Finite(0.0))
           && exists m :: m in moves && OnlyTouches(c.layout, c2.layout, m))
  {
    SampleJumpSpec(c.layout, ctx, moves, d, normalized);
  }

  /** Steps keep the path links a forest. */
  lemma StepKeepsAcyclic(c: ChainState, ctx: MoveContext, moves: seq<Move>, d: Draws, normalized: Vec3 -> Vec3,
                         evaluate: SceneLayout -> Evaluation, metropolis: bool)
    requires Acyclic(c.layout.paths)
    requires Step(c, ctx, moves, d, normalized, evaluate, metropolis).Success?
    ensures Acyclic(Step(c, ctx, moves, d, normalized, evaluate, metropolis).value.0.layout.paths)
  {
    var m := moves[d.movePick % |moves|];
    CopyIsIdentity(c.layout);
    if m.PathMove? {
      var r := ApplyPathMove(c.layout, ctx.paths, m.index, ctx.parentSwapProbability, d.path, normalized);
      if r.Success? {
        PathMoveKeepsAcyclic(c.layout, ctx.paths, m.index, ctx.parentSwapProbability, d.path, normalized);
      }
    }
  }

  /** `SwapStep`: when the exchange test passes, the two chains trade
      their layouts and energies (each keeps its temperature). */
  function SwapStep(first: ChainState, second: ChainState, metropolis: bool)
    : (r: (ChainState, ChainState, bool))
    ensures r.2 == metropolis
    ensures r.0.inverseTemperature == first.inverseTemperature && r.1.inverseTemperature == second.inverseTemperature
    ensures !r.2 ==> r.0 == first && r.1 == second
    ensures r.2 ==> (r.0.layout == second.layout && r.0.energy == second.energy
      && r.1.layout == first.layout && r.1.energy == first.energy)
  {
    if metropolis then
      (first.(layout := second.layout, energy := second.energy),
       second.(layout := first.layout, energy := first.energy), true)
    else (first, second, false)
  }

  /** Two accepted exchanges in a row restore both chains, and an exchange
      keeps the pair of (layout, energy) states as a whole. */
  lemma SwapStepInvolution(first: ChainState, second: ChainState, metropolis: bool)
    ensures var (a, b, _) := SwapStep(first, second, metropolis);
      && SwapStep(a, b, metropolis).0 == first && SwapStep(a, b, metropolis).1 == second
      && multiset{(a.layout, a.energy), (b.layout, b.energy)}
         == multiset{(first.layout, first.energy), (second.layout, second.energy)}
  {
  }
}
