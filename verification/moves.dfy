/** The proposal moves of the Markov chain: which moves a scene offers,
    and how each one changes a copy of the current layout. Every random
    draw (Gaussian samples, uniform picks) is a parameter; a uniform pick
    from [0, n) is any natural number taken modulo n. */
module Moves {
  import opened Wrappers
  import opened Seqs
  import opened Layouts

  /** The move flags of a `GraphNodeBehaviour`. */
  datatype Behaviour = Behaviour(allowPosition: bool, allowRotation: bool, allowSwap: bool)

  /** The settings of a live `Path` the moves consult. */
  datatype PathSettings = PathSettings(isRootPath: bool, fixStartX: bool, fixStartZ: bool, fixEndX: bool, fixEndZ: bool)

  /** One entry of `possibleMoves`: a move kind and the object or path it
      transforms. */
  datatype Move =
    | PositionMove(index: nat)
    | RotationMove(index: nat)
    | SwapMove(index: nat)
    | PathMove(index: nat)

  /** An array index outside its array, an empty move set, or a failing
      parent test. */
  datatype MoveError =
    | BadIndex
    | NoMoves
    | Walk(walkError: WalkError)

  // ---------------------------------------------------------------------
  // GetPossibleMoves
  // ---------------------------------------------------------------------

  /** Behaviour b exists and allows the kind of object move m. */
  predicate Allows(b: Option<Behaviour>, m: Move) {
    match b
    case None => false
    case Some(f) =>
      match m
      case PositionMove(_) => f.allowPosition
      case RotationMove(_) => f.allowRotation
      case SwapMove(_) => f.allowSwap
      case PathMove(_) => false
  }

  /** Object move m is switched on: its behaviour exists and allows it. */
  predicate Enabled(behaviours: seq<Option<Behaviour>>, m: Move) {
    m.index < |behaviours| && Allows(behaviours[m.index], m)
  }

  /** The moves one behaviour contributes, in the order position,
      rotation, swap. */
  function MovesOf(b: Option<Behaviour>, i: nat): (r: seq<Move>)
    ensures forall m :: m in r <==> m.index == i && Allows(b, m)
    ensures Distinct(r)
  {
    match b
    case None => []
    case Some(f) =>
      (if f.allowPosition then [PositionMove(i)] else [])
      + (if f.allowRotation then [RotationMove(i)] else [])
      + (if f.allowSwap then [SwapMove(i)] else [])
  }

  /** The first loop of `GetPossibleMoves` from object `from` on: every
      enabled object move once, by ascending object index. */
  function ObjectMovesFrom(behaviours: seq<Option<Behaviour>>, from: nat): (r: seq<Move>)
    ensures forall m :: m in r <==> from <= m.index && Enabled(behaviours, m)
    ensures Distinct(r)
    ensures forall a, b :: 0 <= a < b < |r| ==> r[a].index <= r[b].index
    decreases |behaviours| - from
  {
    if from >= |behaviours| then []
    else
      var head := MovesOf(behaviours[from], from);
      var tail := ObjectMovesFrom(behaviours, from + 1);
      assert forall k :: 0 <= k < |head| ==> head[k] in head;
      assert forall k :: 0 <= k < |tail| ==> tail[k] in tail;
      head + tail
  }

  function ObjectMoves(behaviours: seq<Option<Behaviour>>): seq<Move> {
    ObjectMovesFrom(behaviours, 0)
  }

  /** The second loop: one path move per path. */
  function PathMoves(pathCount: nat): (r: seq<Move>)
    ensures |r| == pathCount && forall k :: 0 <= k < pathCount ==> r[k] == PathMove(k)
  {
    seq(pathCount, k requires 0 <= k < pathCount => PathMove(k))
  }

  /** `GetPossibleMoves`. */
  function PossibleMoves(behaviours: seq<Option<Behaviour>>, pathCount: nat): seq<Move> {
    ObjectMoves(behaviours) + PathMoves(pathCount)
  }

  /** The move set holds each enabled object move and each path move
      exactly once; object moves come by ascending index and the path
      moves, in path order, close the list. */
  lemma PossibleMovesSpec(behaviours: seq<Option<Behaviour>>, pathCount: nat)
    ensures var r := PossibleMoves(behaviours, pathCount);
      && (forall m :: m in r <==> if m.PathMove? then m.index < pathCount else Enabled(behaviours, m))
      && Distinct(r)
      && |r| >= pathCount
      && (forall k :: 0 <= k < pathCount ==> r[|r| - pathCount + k] == PathMove(k))
  {
    var obj := ObjectMoves(behaviours);
    var r := PossibleMoves(behaviours, pathCount);
    forall a, b | 0 <= a < b < |r| ensures r[a] != r[b] {
      if b >= |obj| && a < |obj| {
        assert r[a] in obj && r[b] == PathMove(b - |obj|);
      }
    }
    forall m ensures m in r <==> if m.PathMove? then m.index < pathCount else Enabled(behaviours, m) {
      if m.PathMove? && m.index < pathCount {
        assert r[|obj| + m.index] == m;
      }
    }
  }

  // ---------------------------------------------------------------------
  // Vectors
  // ---------------------------------------------------------------------

  function Add(a: Vec3, b: Vec3): Vec3 { Vec3(a.x + b.x, a.y + b.y, a.z + b.z) }
  function Sub(a: Vec3, b: Vec3): Vec3 { Vec3(a.x - b.x, a.y - b.y, a.z - b.z) }
  function Scale(s: real, a: Vec3): Vec3 { Vec3(s * a.x, s * a.y, s * a.z) }
  function Abs(v: real): real { if v < 0.0 then -v else v }

  /** The squared magnitude; comparing it compares magnitudes. */
  function SqMagnitude(a: Vec3): real { a.x * a.x + a.y * a.y + a.z * a.z }

  /** `Mathf.Clamp(v, -30, 30)`. */
  function Clamp(v: real): (r: real)
    ensures -30.0 <= r <= 30.0
    ensures -30.0 <= v <= 30.0 ==> r == v
  {
    if v < -30.0 then -30.0 else if v > 30.0 then 30.0 else v
  }

  function ClampVec(a: Vec3): Vec3 { Vec3(Clamp(a.x), Clamp(a.y), Clamp(a.z)) }

  // ---------------------------------------------------------------------
  // Diffusion moves
  // ---------------------------------------------------------------------

  /** `DiffusionMovePosition` with the Gaussian sample drawn around the
      old position. */
  function ApplyPosition(l: SceneLayout, i: nat, sample: Vec3): (r: Result<SceneLayout, MoveError>)
    ensures r.Success? <==> i < |l.objects|
    ensures r.Success? ==> r.value == l.(objects := l.objects[i := l.objects[i].(position := sample)])
  {
    if i >= |l.objects| then Failure(BadIndex)
    else Success(l.(objects := l.objects[i := l.objects[i].(position := sample)]))
  }

  /** `DiffusionMoveRotation` with the Gaussian sample drawn around the
      old angle. */
  function ApplyRotation(l: SceneLayout, i: nat, sample: real): (r: Result<SceneLayout, MoveError>)
    ensures r.Success? <==> i < |l.objects|
    ensures r.Success? ==> r.value == l.(objects := l.objects[i := l.objects[i].(rotationY := sample)])
  {
    if i >= |l.objects| then Failure(BadIndex)
    else Success(l.(objects := l.objects[i := l.objects[i].(rotationY := sample)]))
  }

  // ---------------------------------------------------------------------
  // SwapMove
  // ---------------------------------------------------------------------

  /** `possibleSelections` from object `from` on: the other objects that
      exist and allow swapping, by ascending index. */
  function SwapPartnersFrom(behaviours: seq<Option<Behaviour>>, i: nat, from: nat): (r: seq<nat>)
    ensures forall j :: j in r <==> from <= j && j != i && Enabled(behaviours, SwapMove(j))
    ensures Distinct(r)
    ensures forall k :: 0 <= k < |r| ==> from <= r[k]
    decreases |behaviours| - from
  {
    if from >= |behaviours| then []
    else
      var tail := SwapPartnersFrom(behaviours, i, from + 1);
      if from != i && Enabled(behaviours, SwapMove(from)) then [from] + tail else tail
  }

  function SwapPartners(behaviours: seq<Option<Behaviour>>, i: nat): seq<nat> {
    SwapPartnersFrom(behaviours, i, 0)
  }

  /** Objects i and j trade rotations and positions; with a zero vertical
      step size each keeps its own height. */
  function Exchange(objects: seq<ObjectInfo>, i: nat, j: nat, keepHeight: bool): (r: seq<ObjectInfo>)
    requires i < |objects| && j < |objects|
    ensures |r| == |objects|
  {
    var a, b := objects[i], objects[j];
    var pa := if keepHeight then Vec3(b.position.x, a.position.y, b.position.z) else b.position;
    var pb := if keepHeight then Vec3(a.position.x, b.position.y, a.position.z) else a.position;
    objects[i := a.(position := pa, rotationY := b.rotationY)][j := b.(position := pb, rotationY := a.rotationY)]
  }

  /** Two distinct objects exchange rotation; the horizontal position
      components are exchanged, heights too unless keepHeight; every
      other object is untouched. Exchanging again restores the objects,
      and the exchange is symmetric. */
  lemma ExchangeSpec(objects: seq<ObjectInfo>, i: nat, j: nat, keepHeight: bool)
    requires i < |objects| && j < |objects| && i != j
    ensures var r := Exchange(objects, i, j, keepHeight);
      && r[i].rotationY == objects[j].rotationY && r[j].rotationY == objects[i].rotationY
      && r[i].position.x == objects[j].position.x && r[i].position.z == objects[j].position.z
      && r[j].position.x == objects[i].position.x && r[j].position.z == objects[i].position.z
      && r[i].position.y == (if keepHeight then objects[i] else objects[j]).position.y
      && r[j].position.y == (if keepHeight then objects[j] else objects[i]).position.y
      && r[i].nodeType == objects[i].nodeType && r[j].nodeType == objects[j].nodeType
      && (forall k :: 0 <= k < |objects| && k != i && k != j ==> r[k] == objects[k])
      && Exchange(r, i, j, keepHeight) == objects
      && Exchange(objects, j, i, keepHeight) == r
  {
  }

  /** `SwapMove`: the object trades places and rotation with a partner
      picked among `SwapPartners`; without a partner nothing changes. */
  function ApplySwap(l: SceneLayout, behaviours: seq<Option<Behaviour>>, i: nat, stepY: real, pick: nat)
    : (r: Result<SceneLayout, MoveError>)
    ensures r.Success? ==> r.value.paths == l.paths && |r.value.objects| == |l.objects|
    ensures r.Success? && |SwapPartners(behaviours, i)| == 0 ==> r.value == l
    ensures r.Failure? <==> (i >= |l.objects|
      || (|SwapPartners(behaviours, i)| > 0 && SwapPartners(behaviours, i)[pick % |SwapPartners(behaviours, i)|] >= |l.objects|))
  {
    if i >= |l.objects| then Failure(BadIndex)
    else
      var partners := SwapPartners(behaviours, i);
      if |partners| == 0 then Success(l)
      else
        var j := partners[pick % |partners|];
        if j >= |l.objects| then Failure(BadIndex)
        else Success(l.(objects := Exchange(l.objects, i, j, stepY == 0.0)))
  }

  /** A successful swap with a partner exchanges the object with a
      different, swap-eligible object and leaves all others alone. */
  lemma ApplySwapPartner(l: SceneLayout, behaviours: seq<Option<Behaviour>>, i: nat, stepY: real, pick: nat)
    requires ApplySwap(l, behaviours, i, stepY, pick).Success? && |SwapPartners(behaviours, i)| > 0
    ensures exists j :: (j in SwapPartners(behaviours, i) && j != i && j < |l.objects|
      && Enabled(behaviours, SwapMove(j))
      && ApplySwap(l, behaviours, i, stepY, pick).value.objects == Exchange(l.objects, i, j, stepY == 0.0))
  {
    var partners := SwapPartners(behaviours, i);
    var j := partners[pick % |partners|];
    assert j in partners;
  }

  // ---------------------------------------------------------------------
  // PathMove
  // ---------------------------------------------------------------------

  /** `canidatePaths`: paths 0..n-1 other than the current parent that
      `CouldBeParentPathIndex` accepts as parent of c; the first failing
      test aborts. */
  function Candidates(paths: seq<PathInfo>, parent: int, c: nat, n: nat): (r: Result<seq<nat>, WalkError>)
    ensures r.Success? ==> (Distinct(r.value)
      && forall j :: j in r.value <==> j < n && j != parent && CouldBeParent(paths, j, c) == Success(true))
  {
    if n == 0 then Success([])
    else
      var head :- Candidates(paths, parent, c, n - 1);
      if n - 1 == parent then Success(head)
      else
        var ok :- CouldBeParent(paths, n - 1, c);
        Success(if ok then head + [n - 1] else head)
  }

  /** The draws of one path move: the uniform draw compared with the
      re-parenting probability, the candidate pick, the vertex pick, the
      Gaussian sample around the vertex and the Gaussian push length. */
  datatype PathDraws = PathDraws(u: real, parentPick: nat, vertexPick: nat, sample: Vec3, push: real)

  /** The new position of an inner vertex: the clamped sample pushed along
      the direction from the previous to the next vertex, towards the
      nearer neighbour's side when the vertex is closer to one of them. */
  function PushInner(clamped: Vec3, pos: Vec3, prev: Vec3, next: Vec3, push: real, normalized: Vec3 -> Vec3): Vec3 {
    var dir := normalized(Sub(next, prev));
    var fromPrevious, fromNext := SqMagnitude(Sub(pos, prev)), SqMagnitude(Sub(pos, next));
    if fromPrevious > fromNext then Add(clamped, Scale(Abs(push), Scale(-1.0, dir)))
    else if fromPrevious < fromNext then Add(clamped, Scale(Abs(push), dir))
    else clamped
  }

  /** The new position of an end vertex: the clamped sample, with fixed
      axes kept at their old values. */
  function FixEnd(clamped: Vec3, pos: Vec3, fixX: bool, fixZ: bool): Vec3 {
    Vec3(if fixX then pos.x else clamped.x, clamped.y, if fixZ then pos.z else clamped.z)
  }

  /** The vertex branch of `PathMove`. */
  function MoveVertex(l: SceneLayout, s: PathSettings, i: nat, d: PathDraws, normalized: Vec3 -> Vec3)
    : (r: Result<SceneLayout, MoveError>)
    requires i < |l.paths|
  {
    var nodes := l.paths[i].nodePositions;
    var m := |nodes|;
    if m == 0 then Failure(BadIndex)
    else
      var k := d.vertexPick % m;
      var pos := nodes[k];
      var isFirst, isLast := k == 0, k == m - 1;
      var clamped := ClampVec(d.sample);
      var v :=
        if !isLast && !isFirst then PushInner(clamped, pos, nodes[k - 1], nodes[k + 1], d.push, normalized)
        else FixEnd(clamped, pos, (isFirst && s.fixStartX) || (isLast && s.fixEndX), (isFirst && s.fixStartZ) || (isLast && s.fixEndZ));
      Success(l.(paths := l.paths[i := l.paths[i].(nodePositions := nodes[k := v])]))
  }

  /** `PathMove` on path i: with probability `parentSwap`, a non-root path
      that has a parent gets a new parent among the candidates; otherwise
      one vertex moves. */
  function ApplyPathMove(l: SceneLayout, settings: seq<PathSettings>, i: nat, parentSwap: real, d: PathDraws,
                         normalized: Vec3 -> Vec3): (r: Result<SceneLayout, MoveError>)
  {
    if i >= |settings| || i >= |l.paths| then Failure(BadIndex)
    else
      var parent := l.paths[i].parentIndex;
      match Candidates(l.paths, parent, i, |settings|)
      case Failure(e) => Failure(Walk(e))
      case Success(candidates) =>
        if d.u < parentSwap && !settings[i].isRootPath && parent != -1 && |candidates| > 0 then
          Success(l.(paths := SetParent(l.paths, i, candidates[d.parentPick % |candidates|])))
        else MoveVertex(l, settings[i], i, d, normalized)
  }

  /** l2 is l with path i re-parented under c, a path other than the old
      parent that `CouldBeParentPathIndex` accepts. */
  predicate Reparented(l: SceneLayout, l2: SceneLayout, i: nat, c: nat)
    requires i < |l.paths|
  {
    && c != l.paths[i].parentIndex
    && CouldBeParent(l.paths, c, i) == Success(true)
    && l2 == l.(paths := SetParent(l.paths, i, c))
  }

  /** l2 is l with vertex k of path i moved; an end vertex keeps its old
      value on each fixed axis and has its other coordinates in
      [-30, 30]. */
  predicate VertexMoved(l: SceneLayout, l2: SceneLayout, s: PathSettings, i: nat, k: nat)
    requires i < |l.paths|
  {
    var nodes := l.paths[i].nodePositions;
    && k < |nodes|
    && l2.objects == l.objects && |l2.paths| == |l.paths|
    && (forall j :: 0 <= j < |l.paths| && j != i ==> l2.paths[j] == l.paths[j])
    && l2.paths[i].parentIndex == l.paths[i].parentIndex
    && |l2.paths[i].nodePositions| == |nodes|
    && (forall t :: 0 <= t < |nodes| && t != k ==> l2.paths[i].nodePositions[t] == nodes[t])
    && (k == 0 || k == |nodes| - 1 ==>
         var v, fixX, fixZ := l2.paths[i].nodePositions[k],
           (k == 0 && s.fixStartX) || (k == |nodes| - 1 && s.fixEndX),
           (k == 0 && s.fixStartZ) || (k == |nodes| - 1 && s.fixEndZ);
         && (if fixX then v.x == nodes[k].x else -30.0 <= v.x <= 30.0)
         && (if fixZ then v.z == nodes[k].z else -30.0 <= v.z <= 30.0)
         && -30.0 <= v.y <= 30.0)
  }

  /** A successful path move either re-parents the path (only a non-root
      path that has a parent, and only under an accepted candidate) or
      moves exactly one of its vertices. */
  lemma PathMoveSpec(l: SceneLayout, settings: seq<PathSettings>, i: nat, parentSwap: real, d: PathDraws,
                     normalized: Vec3 -> Vec3)
    requires ApplyPathMove(l, settings, i, parentSwap, d, normalized).Success?
    ensures i < |l.paths| && i < |settings|
    ensures var r := ApplyPathMove(l, settings, i, parentSwap, d, normalized).value;
      || (&& !settings[i].isRootPath && l.paths[i].parentIndex != -1
          && exists c :: Reparented(l, r, i, c))
      || (exists k :: VertexMoved(l, r, settings[i], i, k))
  {
    var r := ApplyPathMove(l, settings, i, parentSwap, d, normalized).value;
    var parent := l.paths[i].parentIndex;
    var candidates := Candidates(l.paths, parent, i, |settings|).value;
    if d.u < parentSwap && !settings[i].isRootPath && parent != -1 && |candidates| > 0 {
      var c := candidates[d.parentPick % |candidates|];
      assert c in candidates;
      assert Reparented(l, r, i, c);
    } else {
      var k := d.vertexPick % |l.paths[i].nodePositions|;
      assert VertexMoved(l, r, settings[i], i, k);
    }
  }

  /** Path moves keep the path links a forest. */
  lemma PathMoveKeepsAcyclic(l: SceneLayout, settings: seq<PathSettings>, i: nat, parentSwap: real, d: PathDraws,
                             normalized: Vec3 -> Vec3)
    requires Acyclic(l.paths)
    requires ApplyPathMove(l, settings, i, parentSwap, d, normalized).Success?
    ensures Acyclic(ApplyPathMove(l, settings, i, parentSwap, d, normalized).value.paths)
  {
    var r := ApplyPathMove(l, settings, i, parentSwap, d, normalized).value;
    PathMoveSpec(l, settings, i, parentSwap, d, normalized);
    if c: nat :| Reparented(l, r, i, c) {
      ReparentKeepsAcyclic(l.paths, i, c);
    } else {
      var k: nat :| VertexMoved(l, r, settings[i], i, k);
      assert forall j :: 0 <= j < |l.paths| ==> r.paths[j].parentIndex == l.paths[j].parentIndex;
      AcyclicLinksOnly(l.paths, r.paths);
    }
  }

  // ---------------------------------------------------------------------
  // SampleJumpDistribution
  // ---------------------------------------------------------------------

  /** All draws of one proposal. */
  datatype Draws = Draws(movePick: nat, position: Vec3, rotation: real, partnerPick: nat, path: PathDraws)

  /** The fixed parameters of a chain the moves consult. */
  datatype MoveContext = MoveContext(
    behaviours: seq<Option<Behaviour>>,
    paths: seq<PathSettings>,
    stepPositionChange: Vec3,
    parentSwapProbability: real)

  function ApplyMove(l: SceneLayout, ctx: MoveContext, m: Move, d: Draws, normalized: Vec3 -> Vec3)
    : Result<SceneLayout, MoveError>
  {
    match m
    case PositionMove(i) => ApplyPosition(l, i, d.position)
    case RotationMove(i) => ApplyRotation(l, i, d.rotation)
    case SwapMove(i) => ApplySwap(l, ctx.behaviours, i, ctx.stepPositionChange.y, d.partnerPick)
    case PathMove(i) => ApplyPathMove(l, ctx.paths, i, ctx.parentSwapProbability, d.path, normalized)
  }

  /** `SampleJumpDistribution`: a copy of the current layout with one move,
      picked uniformly from the move set, applied. */
  function SampleJump(current: SceneLayout, ctx: MoveContext, moves: seq<Move>, d: Draws, normalized: Vec3 -> Vec3)
    : (r: Result<SceneLayout, MoveError>)
    ensures |moves| == 0 ==> r == Failure(NoMoves)
  {
    if |moves| == 0 then Failure(NoMoves)
    else ApplyMove(Copy(current), ctx, moves[d.movePick % |moves|], d, normalized)
  }

  /** l2 differs from l at most in the object or path move m names, and,
      for a swap, its partner. */
  predicate OnlyTouches(l: SceneLayout, l2: SceneLayout, m: Move) {
    && |l2.objects| == |l.objects| && |l2.paths| == |l.paths|
    && (m.PathMove? ==> l2.objects == l.objects)
    && (!m.PathMove? ==> l2.paths == l.paths)
    && (forall j :: 0 <= j < |l.paths| && !(m.PathMove? && j == m.index) ==> l2.paths[j] == l.paths[j])
    && (!m.SwapMove? ==> forall j :: 0 <= j < |l.objects| && !(!m.PathMove? && j == m.index) ==> l2.objects[j] == l.objects[j])
  }

  /** A proposal is the current layout changed by exactly the one move
      drawn from the move set. */
  lemma SampleJumpSpec(current: SceneLayout, ctx: MoveContext, moves: seq<Move>, d: Draws, normalized: Vec3 -> Vec3)
    requires SampleJump(current, ctx, moves, d, normalized).Success?
    ensures |moves| > 0
    ensures exists m :: m in moves && OnlyTouches(current, SampleJump(current, ctx, moves, d, normalized).value, m)
  {
    var m := moves[d.movePick % |moves|];
    var r := SampleJump(current, ctx, moves, d, normalized).value;
    CopyIsIdentity(current);
    if m.PathMove? {
      PathMoveSpec(current, ctx.paths, m.index, ctx.parentSwapProbability, d.path, normalized);
    }
    assert OnlyTouches(current, r, m);
  }
}
