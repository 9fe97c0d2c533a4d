# Scene generation from graph grammars: a Dafny model of its core

The system generates 3D scenes in three phases, and this project models the
sequential logic of each phase.

1. A graph grammar derives a scene graph. Nodes are object types such as
   `"Table/Round"`. Edges are spatial relationships such as `OnTopOf` or
   `IsPartOf`.
2. A Markov chain Monte Carlo sampler arranges the objects and paths. It
   repeatedly proposes a layout that differs from the current one by one
   move, and it swaps layouts between chains that run at different
   temperatures.
3. A natural-language generator plans an English description of the scene
   graph. It selects content, structures sentences, aggregates them,
   delays introductions, marks first mentions indefinite and chooses
   referring expressions. A realiser library then turns the plan into text.

Every module below is one source file (or one concern of a file). It uses
immutable datatypes and pure functions, and it proves the promises that file
makes.

| module | file | models |
|---|---|---|
| `Wrappers`, `Seqs` | wrappers.dfy, seqs.dfy | `Option`/`Result`, sequence helpers (filter, distinctness, index lookup, subsequence) |
| `Graphs` | graph.dfy | `Graph<N, E>`: validation, grouping by label hierarchy, removing and adding nodes and edges |
| `Odometer`, `Morphisms` | odometer.dfy, morphism.dfy | the counter odometer and the morphism finder |
| `Rules` | rule.dfy | grammar rules: validation, shared subgraph, application to a match |
| `Grammars` | grammar.dfy | weighted choice of a rule and a match; one and many derivation steps |
| `Relationships` | relationship.dfy | the relationship enum, its phrases and classifications |
| `SceneGraphs` | scene_graph.dfy | hierarchical node groups, `MatchesNodeType`, part-of clustering |
| `NodeInfo` | node_info.dfy | the default expression of an expression hierarchy |
| `SaveFiles` | save_file.dfy | the in-memory save-file record and its conversion to and from a scene graph |
| `Layouts` | layout.dfy | object and path records, `Copy`, the path re-parenting check |
| `Moves`, `Chains` | moves.dfy, chain.dfy | the move set, the four moves, the jump proposal, `Step`, `SwapStep` |
| `NumberWords` | nlg_words.dfy | number and ordinal words |
| `TextContents` | nlg_content.dfy | content selection |
| `TextStructures` | nlg_structure.dfy | sentence structuring |
| `Aggregation` | nlg_aggregate.dfy | sentence aggregation |
| `DelayedIntroduction` | nlg_skip.dfy | delayed introduction of unimportant objects |
| `Indefiniteness` | nlg_indefinite.dfy | first-mention indefiniteness |
| `ReferringExpressions` | nlg_referring.dfy | the referring expression of one entity |
| `TextPlanning` | nlg_plan.dfy | the planning pipeline of `Describe`, up to the realiser |

Conventions used throughout:
- Unsigned node and edge indices are `nat`.
- Floats are `real`.
- A `null` result or a thrown exception becomes `None` or a `Failure` whose
  error names the case.
- Text entities are positions in an entity table, not object references.
- Every random draw is an explicit parameter. An integer draw from
  `[0, n)` is any `nat` taken modulo `n`.
- The energy of a layout is an oracle that gives a value, no value, or an
  arithmetic fault.

Where the code and its documentation disagree, the model follows the code.
The morphism finder's wildcard sizing check is one example, listed under Findings below.
Rule application, the derivation step and the derivation chain all search
with the finder as written. The corrected finder appears only as the
finding's intended half, in `FindMorphisms` and `ApplyToFirstCorrected`.
`DeriveOneStep` returns `null`, not the unchanged graph, when no rule
applies. `DeriveManySteps` then stops at the first `null`. The model does
the same, with `Success(None)`.

## Model

| member | source | states |
|---|---|---|
| Graphs.Validate | Assets/Scripts/Generator/Graph/GraphGrammar/Graph.cs:19-37 | Validation succeeds iff every edge endpoint is below the node count and no edge triple occurs twice. On failure it names the first bad edge, every earlier edge is valid, and the error kind says which check failed. |
| Graphs.AllEdgesValidIffWellFormed | Assets/Scripts/Generator/Graph/GraphGrammar/Graph.cs:19-37 | The edge-by-edge check agrees with the whole-graph well-formedness predicate. |
| Graphs.GetNodesGroupedByType | Assets/Scripts/Generator/Graph/GraphGrammar/Graph.cs:68-75 | A group key exists iff some node's hierarchy contains it. Index i is in group g iff g is in the hierarchy of node i. Each group lists indices in ascending order. |
| Graphs.IndicesInStrict | Assets/Scripts/Generator/Graph/GraphGrammar/Graph.cs:68-75 | With duplicate-free hierarchies, each group is strictly ascending, so no index repeats. |
| Graphs.DefaultGrouping | Assets/Scripts/Generator/Graph/GraphGrammar/Graph.cs:68-75 | Under the default hierarchy (the label itself), the groups are exactly the labels, and each group holds, strictly ascending, the nodes carrying that label. |
| Graphs.GraphByRemovingEdges | Assets/Scripts/Generator/Graph/GraphGrammar/Graph.cs:77-80 | Node labels are unchanged. The edges kept, in order, are exactly those whose index is not listed, and their number drops by the number of distinct listed in-range indices. |
| Graphs.RemoveEdgesWellFormed | Assets/Scripts/Generator/Graph/GraphGrammar/Graph.cs:77-80 | Removing edges from a valid graph gives a valid graph. |
| Graphs.GraphByRemovingNodes | Assets/Scripts/Generator/Graph/GraphGrammar/Graph.cs:82-113 | The contact error occurs iff an edge touches a listed in-range node. A `RemoveAt` crash occurs iff, with no contact error, a listed value lies in the window that shifts into range. Otherwise the result is the labels with the listed positions deleted in order (a repeat counts once), with each endpoint lowered by the number of removed nodes below it. |
| Graphs.RemoveNodesKeepsLabels | Assets/Scripts/Generator/Graph/GraphGrammar/Graph.cs:82-113 | A node that survives keeps its label at its renumbered position. |
| Graphs.RemoveNodesWellFormed | Assets/Scripts/Generator/Graph/GraphGrammar/Graph.cs:82-113 | If the input validates and node removal succeeds, the output validates. |
| Graphs.GraphByRemovingNodesAndIncidentEdges | Assets/Scripts/Generator/Graph/GraphGrammar/Graph.cs:115-120 | This never raises the contact error. It crashes exactly in the shifted-index case. Otherwise it keeps the non-incident edges, renumbered, and deletes the listed nodes. |
| Graphs.GraphByAddingNodes | Assets/Scripts/Generator/Graph/GraphGrammar/Graph.cs:123-126 | The old labels come first and the new labels are appended after them. Edges are untouched. |
| Graphs.GraphByAddingEdges | Assets/Scripts/Generator/Graph/GraphGrammar/Graph.cs:128-131 | The old edges come first and the new edges are appended after them. Nodes are untouched. |
| Graphs.AddThenRemoveNodes | Assets/Scripts/Generator/Graph/GraphGrammar/Graph.cs:82-126 | Removing exactly the appended positions undoes adding nodes. |
| Graphs.AddThenRemoveEdges | Assets/Scripts/Generator/Graph/GraphGrammar/Graph.cs:77-131 | Removing exactly the appended positions undoes adding edges. |
| Odometer.Increment | Assets/Scripts/Generator/Graph/GraphGrammar/GraphMorphism.cs:73-91 | Incrementing keeps one counter per group. |
| Odometer.IncrementRank | Assets/Scripts/Generator/Graph/GraphGrammar/GraphMorphism.cs:73-91 | Treat the counters as a mixed-radix number with the rightmost counter fastest. Then `IncrementIterationCounters` adds one to that number. It returns false, with all counters reset to 0, exactly when the counters were at their last tuple. |
| Odometer.RankInjective | Assets/Scripts/Generator/Graph/GraphGrammar/GraphMorphism.cs:73-91 | Distinct in-bounds counter tuples have distinct ranks. |
| Odometer.WalkFromZerosComplete | Assets/Scripts/Generator/Graph/GraphGrammar/GraphMorphism.cs:146-167 | The `do … while` loop starting from all zeros visits every counter tuple. |
| Odometer.WalkDistinct | Assets/Scripts/Generator/Graph/GraphGrammar/GraphMorphism.cs:146-167 | The loop visits no counter tuple twice. |
| Morphisms.FromNodeMap | Assets/Scripts/Generator/Graph/GraphGrammar/GraphMorphism.cs:25-47 | A morphism is returned iff every pattern edge (a,r,b) has a host edge (map[a],r,map[b]). Its node map is the given one. The edge map has one entry per pattern edge, and entry k is the first host index of that image edge. |
| Morphisms.BuildCandidates | Assets/Scripts/Generator/Graph/GraphGrammar/GraphMorphism.cs:96-117 | The candidate table has a key for the wildcard and for every host group. It also has a key for every pattern group when the host has wildcard nodes. The wildcard key lists every host node. |
| Morphisms.CandidatesExact | Assets/Scripts/Generator/Graph/GraphGrammar/GraphMorphism.cs:99-117 | A host node is a candidate for key k iff it is compatible with k. A non-wildcard key matches a host node whose hierarchy contains it, or a host wildcard node. A wildcard key matches any host node. |
| Morphisms.Enumerate | Assets/Scripts/Generator/Graph/GraphGrammar/GraphMorphism.cs:146-167 | Every morphism the loop yields is a match: injective, compatible with labels, and edge-preserving. |
| Morphisms.EnumerateContains | Assets/Scripts/Generator/Graph/GraphGrammar/GraphMorphism.cs:146-167 | Every match whose node images come from the candidate table is yielded. |
| Morphisms.FindMorphismsAsWritten | Assets/Scripts/Generator/Graph/GraphGrammar/GraphMorphism.cs:93-168 | `FindMorphisms` as written, including its wildcard sizing check, yields only matches. |
| Morphisms.LoneWildcardMissed | Assets/Scripts/Generator/Graph/GraphGrammar/GraphMorphism.cs:133-141 | For a one-node wildcard graph matched against itself, the identity is a match. The as-written finder yields nothing, while the corrected finder yields the identity. |
| Morphisms.ReadyAfterSizing | Assets/Scripts/Generator/Graph/GraphGrammar/GraphMorphism.cs:120-141 | When the sizing check passes, as the comment at 120-121 states it, every pattern node has a non-empty candidate list. |
| Morphisms.TooFewCandidates | Assets/Scripts/Generator/Graph/GraphGrammar/GraphMorphism.cs:120-132 | A non-wildcard pattern group with more pattern nodes than host candidates makes the search yield nothing, both as written and corrected. |
| Morphisms.FindMorphisms | Assets/Scripts/Generator/Graph/GraphGrammar/GraphMorphism.cs:93-168 | The corrected finder yields only matches. |
| Morphisms.FindMorphismsComplete | Assets/Scripts/Generator/Graph/GraphGrammar/GraphMorphism.cs:93-168 | Under the hierarchy laws of the scene vocabulary, the corrected finder yields every match. |
| Morphisms.FindMorphismsAsWrittenComplete | Assets/Scripts/Generator/Graph/GraphGrammar/GraphMorphism.cs:120-168 | Under the hierarchy laws, the finder as written yields every match whenever its sizing check passes. |
| Morphisms.NoWildcardSearchesAgree | Assets/Scripts/Generator/Graph/GraphGrammar/GraphMorphism.cs:120-141 | For a pattern with no node in the wildcard group, the finder as written and the corrected finder yield the same morphisms. |
| Morphisms.SizingAsWrittenFails | Assets/Scripts/Generator/Graph/GraphGrammar/GraphMorphism.cs:120-141 | When the sizing check as written fails, the finder as written yields nothing. |
| Rules.CheckValidRule | Assets/Scripts/Generator/Graph/GraphGrammar/GraphGrammarRule.cs:42-67 | A rule is accepted iff both graphs validate, the shared counts fit both graphs, and the first k labels and first m edges of pattern and replacement agree. Each error names the first check that failed. |
| Rules.MakeRule | Assets/Scripts/Generator/Graph/GraphGrammar/GraphGrammarRule.cs:19-40 | The constructor succeeds iff the rule is valid, and it then stores exactly its arguments. |
| Rules.SharedSubgraphOfBoth | Assets/Scripts/Generator/Graph/GraphGrammar/GraphGrammarRule.cs:175-179 | For a valid rule, the shared subgraph is the common prefix of both the pattern and the replacement. |
| Rules.ApplyTo | Assets/Scripts/Generator/Graph/GraphGrammar/GraphGrammarRule.cs:110-173 | The rule-named contact error occurs iff a removed node image is touched by a host edge that is not removed. The out-of-range error occurs iff, without contact, an image overruns. Otherwise the result is the glued graph. |
| Rules.ApplyNeverOutOfRange | Assets/Scripts/Generator/Graph/GraphGrammar/GraphGrammarRule.cs:124-135 | For a true morphism, the only way application can fail is the contact error naming the rule. |
| Rules.ApplyNodeCount | Assets/Scripts/Generator/Graph/GraphGrammar/GraphGrammarRule.cs:119-139 | The node count after application is \|host\| − (\|pattern\| − k) + (\|replacement\| − k). |
| Rules.ApplyEdgeCount | Assets/Scripts/Generator/Graph/GraphGrammar/GraphGrammarRule.cs:121-140 | The edge count after application is \|hostE\| − (\|patE\| − m) + (\|repE\| − m). |
| Rules.ApplyKeepsShared | Assets/Scripts/Generator/Graph/GraphGrammar/GraphGrammarRule.cs:124-136 | A host node matched by shared pattern node a keeps its label. Its new index is its old index minus the number of removed nodes below it. |
| Rules.DanglingIff | Assets/Scripts/Generator/Graph/GraphGrammar/GraphGrammarRule.cs:124-135 | The contact failure happens exactly when a surviving host edge touches a deleted node image. |
| Rules.SharedEdgeKept | Assets/Scripts/Generator/Graph/GraphGrammar/GraphGrammarRule.cs:121-171 | Every shared edge appears in the result, with translated endpoints. |
| Rules.ReplacementEmbedded | Assets/Scripts/Generator/Graph/GraphGrammar/GraphGrammarRule.cs:139-171 | Each replacement node sits at its translated index. A shared node keeps the host label, and a replacement-only node has its own label. Every replacement edge appears with endpoints translated: one below k goes through the intermediate map, and any other e becomes e − k + \|intermediate\|. |
| Rules.ApplyKeepsEndpointsInRange | Assets/Scripts/Generator/Graph/GraphGrammar/GraphGrammarRule.cs:110-173 | Applying a rule to a valid host leaves every edge endpoint in range. |
| Rules.ApplyToFirst | Assets/Scripts/Generator/Graph/GraphGrammar/GraphGrammarRule.cs:103-108 | It searches with the finder as written. It fails with "no morphism" iff that finder yields nothing, and it never fails out of range. Otherwise it is the application at the first morphism that finder yields, as `First()` picks, which is a match. |
| Rules.ApplyToFirstNoMatch | Assets/Scripts/Generator/Graph/GraphGrammar/GraphGrammarRule.cs:103-108 | Under the scene hierarchy laws, "no morphism" occurs iff the sizing check as written rejects the host or the host has no match at all. |
| Rules.ApplyToFirstCorrected | Assets/Scripts/Generator/Graph/GraphGrammar/GraphMorphism.cs:120-121 | The finding's intended half: the same application with the corrected finder. It fails with "no morphism" iff that finder yields nothing. On success it is the application to some match. |
| Rules.ApplyToFirstCorrectedNoMatch | Assets/Scripts/Generator/Graph/GraphGrammar/GraphMorphism.cs:120-121 | Under the scene hierarchy laws, the corrected application reports "no morphism" iff the host has no match at all. |
| Rules.ApplicationsAgree | Assets/Scripts/Generator/Graph/GraphGrammar/GraphMorphism.cs:120-141 | For a pattern with no node in the wildcard group, the application as written equals the corrected one. |
| Grammars.FindMorphismsForRule | Assets/Scripts/Generator/Graph/GraphGrammar/GraphGrammar.cs:38-46 | It starts from what the finder as written yields. With a first-node cap c, exactly the matches whose image of pattern node 0 has fewer than c incoming edges are kept. If a capped rule has an empty pattern and a match, the result is the error for the missing first node. |
| Grammars.FoundAreMatches | Assets/Scripts/Generator/Graph/GraphGrammar/GraphGrammar.cs:38-46 | Every kept morphism is a match, respects the cap and fits the rule. |
| Grammars.SelectInterval | Assets/Scripts/Generator/Graph/GraphGrammar/GraphGrammar.cs:54-61 | The cumulative-weight scan picks j iff the scaled draw lies in [prefix(j), prefix(j+1)). It picks nothing iff the draw is at least the total. |
| Grammars.Choose | Assets/Scripts/Generator/Graph/GraphGrammar/GraphGrammar.cs:50-61 | An error is the first rule's search error. A chosen rule has at least one match. |
| Grammars.ChosenWeightPositive | Assets/Scripts/Generator/Graph/GraphGrammar/GraphGrammar.cs:57-60 | A rule of weight 0 is never chosen. |
| Grammars.NoneIffZeroWeights | Assets/Scripts/Generator/Graph/GraphGrammar/GraphGrammar.cs:50-61 | For a draw u in [0,1), nothing is chosen iff every search succeeded and only zero-weight rules have matches. |
| Grammars.DeriveOneStep | Assets/Scripts/Generator/Graph/GraphGrammar/GraphGrammar.cs:48-67 | A step fails only with a missing-first-node error or a contact error naming one of the rules. |
| Grammars.StepAppliesPositiveRule | Assets/Scripts/Generator/Graph/GraphGrammar/GraphGrammar.cs:62-63 | A produced graph is a rewrite of the host by some positive-weight rule at one of its matches. |
| Grammars.StepNullIff | Assets/Scripts/Generator/Graph/GraphGrammar/GraphGrammar.cs:50-66 | The step returns `null` iff every search succeeds and no positive-weight rule has a match among those the finder as written yields. |
| Grammars.NothingFoundStepIsNull | Assets/Scripts/Generator/Graph/GraphGrammar/GraphGrammar.cs:38-66 | With a single rule whose search as written yields nothing, the step returns `null`. |
| Grammars.LoneWildcardStepIsNull | Assets/Scripts/Generator/Graph/GraphGrammar/GraphGrammar.cs:38-66 | For a rule whose pattern is one wildcard node, applied to that pattern, the identity is a match and the corrected finder yields it. The step still returns `null`, as the code does. |
| Grammars.DeriveManySteps | Assets/Scripts/Generator/Graph/GraphGrammar/GraphGrammar.cs:69-79 | With `maxSteps` ≤ 0, the input graph is returned. |
| Grammars.DerivationChain | Assets/Scripts/Generator/Graph/GraphGrammar/GraphGrammar.cs:69-79 | A result is reached from the input by at most `maxSteps` rewrites. The chain stops early only where a step returned `null`. |
| Relationships.Expression | Assets/Scripts/Generator/Graph/RelationshipType.cs:41-98 | The phrase is null exactly for the four implicit facing relations, and it is "part of" for every part-of relation. |
| Relationships.IsTypePartOf | Assets/Scripts/Generator/Graph/RelationshipType.cs:105-117 | This holds exactly for IsPartOf, IsPartOfMiddle, IsPartOfEdge and IsPartOfFrontEdge. |
| Relationships.IsTypePartOfOrOnTopOf | Assets/Scripts/Generator/Graph/RelationshipType.cs:119-135 | This holds exactly for the four part-of and the four on-top-of relations. |
| Relationships.ClassificationsNested | Assets/Scripts/Generator/Graph/RelationshipType.cs:100-135 | Part-of implies part-of-or-on-top-of. No implicit relation is either. |
| Relationships.SharedPhrases | Assets/Scripts/Generator/Graph/RelationshipType.cs:54-82 | "part of" is the phrase of exactly the part-of relations. "next to" is the phrase of exactly NextTo and NextToChooseDirection. |
| Relationships.Parse | Assets/Scripts/Generator/Graph/SceneRelationshipGraphSaveFile.cs:25 | Exact-name parsing, the case-sensitive core of `Enum.Parse`, returns only a relation whose name is the input. |
| Relationships.ParseName | Assets/Scripts/Generator/Graph/SceneRelationshipGraphSaveFile.cs:19-25 | Parsing a relation's name gives the relation back. Parsing fails exactly on strings that are no relation's name. |
| Relationships.NameInjective | Assets/Scripts/Generator/Graph/SceneRelationshipGraphSaveFile.cs:19 | Distinct relations have distinct names. |
| SceneGraphs.FirstSegment | Assets/Scripts/Generator/GraphNodeBehaviour.cs:42 | `Split('/')[0]` is the prefix before the first '/', or the whole string when there is no '/'. |
| SceneGraphs.HierarchicalNodeGroups | Assets/Scripts/Generator/Graph/SceneRelationshipGraph.cs:24-36 | A label without '/' groups as [label]. A label with '/' groups as [label, text before the first '/']. The label is always first, and the groups are distinct. |
| SceneGraphs.MatchesIffInGroups | Assets/Scripts/Generator/GraphNodeBehaviour.cs:40-43 | `MatchesNodeType(t)` iff t is one of the type's hierarchical groups. A type matches itself, and a type without '/' matches only itself. |
| SceneGraphs.SceneHierarchyLaws | Assets/Scripts/Generator/Graph/SceneRelationshipGraph.cs:22-36 | The grouping function and the empty-string wildcard satisfy the hierarchy laws the morphism finder relies on. |
| SceneGraphs.ClusteringSettled | Assets/Scripts/Generator/Graph/SceneRelationshipGraph.cs:38-68 | The clustering has one entry per node. On success every part-of edge (a,_,b) has parent[a] = b. Every part-of-or-on-top-of edge (a,_,b) with a parent on b has parent[a] = parent[b]. |
| SceneGraphs.DanglingEdgeFails | Assets/Scripts/Generator/Graph/SceneRelationshipGraph.cs:48-62 | A clustering edge with an endpoint outside the node range makes clustering throw. |
| SceneGraphs.NestedPartOfFails | Assets/Scripts/Generator/Graph/SceneRelationshipGraph.cs:48-62 | A nested part-of chain a→b→c makes clustering throw, because a would get two parents. |
| SceneGraphs.ClusteringParentsAreTargets | Assets/Scripts/Generator/Graph/SceneRelationshipGraph.cs:38-68 | Every parent is the target of some part-of edge. |
| SceneGraphs.SettledIsFixedPoint | Assets/Scripts/Generator/Graph/SceneRelationshipGraph.cs:42-65 | The `while (changedThisStep)` loop returns its start unchanged iff every edge is already settled. |
| SceneGraphs.PassBound | Assets/Scripts/Generator/Graph/SceneRelationshipGraph.cs:42-65 | Each pass that changes something fills an empty entry. So the loop makes at most one pass more than there are entries without a parent, and it fails exactly when the clustering fails. |
| SceneGraphs.ClusteringPasses | Assets/Scripts/Generator/Graph/SceneRelationshipGraph.cs:38-68 | Starting from one null entry per node, the fixed-point loop terminates within n + 1 passes. |
| SceneGraphs.ClusteringIdempotent | Assets/Scripts/Generator/Graph/SceneRelationshipGraph.cs:38-68 | Running the loop again from a successful clustering returns the same clustering. |
| NodeInfo.DefaultExpression | Assets/Scripts/Generator/Graph/NodeInfoProvider.cs:14-22 | An empty hierarchy gives "IGNORED". A non-empty hierarchy gives one of its own elements. |
| NodeInfo.DefaultAfterRefinement | Assets/Scripts/Generator/Graph/NodeInfoProvider.cs:16-21 | A one-element hierarchy gives its element. A hierarchy of length ≥ 2 gives its second-to-last element. |
| SaveFiles.LoadEdge | Assets/Scripts/Generator/Graph/SceneRelationshipGraphSaveFile.cs:23-26 | `ToEdge` keeps `from` and `to`, and the relation's name is the stored name. An unknown name is the parse error. |
| SaveFiles.EdgeRoundTrip | Assets/Scripts/Generator/Graph/SceneRelationshipGraphSaveFile.cs:15-26 | Saving then loading an edge gives it back. Loading then saving a loadable record gives it back. Loading fails iff the name is no relation's name. |
| SaveFiles.FromGraph | Assets/Scripts/Generator/Graph/SceneRelationshipGraphSaveFile.cs:37-41 | Nodes are copied verbatim. Edges are saved one by one, in order. |
| SaveFiles.LoadEdges | Assets/Scripts/Generator/Graph/SceneRelationshipGraphSaveFile.cs:48-51 | Edges are loaded one by one, in order. A failure is the failure of some record. |
| SaveFiles.SaveThenLoad | Assets/Scripts/Generator/Graph/SceneRelationshipGraphSaveFile.cs:37-51 | `ToGraph(SaveFile(g))` equals g. |
| SaveFiles.LoadThenSave | Assets/Scripts/Generator/Graph/SceneRelationshipGraphSaveFile.cs:37-51 | A loadable save file converts back to itself. Loading fails iff some edge names no relation. |
| Layouts.Copy | Assets/Scripts/Generator/SceneLayout.cs:107-112 | The copy has the same object and path counts and every field equal, element by element. |
| Layouts.CopyIsIdentity | Assets/Scripts/Generator/SceneLayout.cs:107-112 | As a value, the copy equals the original. |
| Layouts.ParentWalkSound | Assets/Scripts/Generator/SceneLayout.cs:87-105 | When the walk up the parent chain returns, it says true iff c is not on the chain from p. |
| Layouts.CouldBeParentSpec | Assets/Scripts/Generator/SceneLayout.cs:87-105 | `CouldBeParentPathIndex(p, p)` is false. With acyclic parent links, `CouldBeParentPathIndex(p, c)` is true iff c is not on the parent chain from p up to a root. |
| Layouts.UnboundedNeverReturns | Assets/Scripts/Generator/SceneLayout.cs:87-105 | When the walk runs out of fuel, the recursion never reaches a root or c. |
| Layouts.ReparentKeepsAcyclic | Assets/Scripts/Generator/MCMCChain.cs:153-158 | Setting the parent of path c to p, when `CouldBeParentPathIndex(p, c)` allows it, keeps the parent links acyclic. |
| Moves.PossibleMovesSpec | Assets/Scripts/Generator/MCMCChain.cs:208-240 | The move set holds an object move iff its behaviour exists and has that flag enabled, plus exactly one path move per path, last. No move repeats. |
| Moves.Clamp | Assets/Scripts/Generator/MCMCChain.cs:169-171 | `Mathf.Clamp(v, -30, 30)` lies in [−30, 30] and leaves values already in range unchanged. |
| Moves.ApplyPosition | Assets/Scripts/Generator/MCMCChain.cs:102-109 | The diffusion move replaces exactly one object's position. It fails iff the index is out of range. |
| Moves.ApplyRotation | Assets/Scripts/Generator/MCMCChain.cs:111-115 | The diffusion move replaces exactly one object's rotation. It fails iff the index is out of range. |
| Moves.ExchangeSpec | Assets/Scripts/Generator/MCMCChain.cs:122-145 | The swap exchanges the two rotations. With zero vertical step it exchanges only x and z, and each object keeps its own y. Otherwise whole positions are exchanged. Types and all other objects stay unchanged. Exchanging again restores the original. |
| Moves.ApplySwap | Assets/Scripts/Generator/MCMCChain.cs:117-146 | Paths and the object count are unchanged. With no partner the swap does nothing. It fails iff an index is out of range. |
| Moves.ApplySwapPartner | Assets/Scripts/Generator/MCMCChain.cs:117-146 | With a partner, the result is the exchange with a different, swap-enabled, in-range object. |
| Moves.PathMoveSpec | Assets/Scripts/Generator/MCMCChain.cs:148-204 | A path move either re-parents a non-root path that has a parent to a different candidate that `CouldBeParentPathIndex` allows, or moves exactly one vertex. A moved end vertex keeps its fixed axes, and its other coordinates lie in [−30, 30]. |
| Moves.PathMoveKeepsAcyclic | Assets/Scripts/Generator/MCMCChain.cs:148-204 | A path move keeps the parent links acyclic. |
| Moves.SampleJump | Assets/Scripts/Generator/MCMCChain.cs:242-257 | An empty move set is an error. |
| Moves.SampleJumpSpec | Assets/Scripts/Generator/MCMCChain.cs:242-257 | A proposal differs from the current layout by exactly one of the moves in the set. |
| Chains.NewEnergy | Assets/Scripts/Generator/MCMCChain.cs:70-75 | An `ArithmeticException` during evaluation leaves the new energy at 0.0. Otherwise the energy is the evaluated value. |
| Chains.Step | Assets/Scripts/Generator/MCMCChain.cs:66-90 | The step is accepted iff the current energy is infinite or the Metropolis test accepts. On reject, the state is unchanged and the reported evaluation is the current one. On accept, the reported evaluation is the new one. The temperature never changes. |
| Chains.StepMovesByOneMove | Assets/Scripts/Generator/MCMCChain.cs:66-90 | An accepted step moves to the jump proposal, which differs from the old layout by one move. |
| Chains.StepKeepsAcyclic | Assets/Scripts/Generator/MCMCChain.cs:66-90 | A step keeps the path parent links acyclic. |
| Chains.SwapStep | Assets/Scripts/Generator/MCMCChain.cs:270-290 | On accept the two chains exchange layout and evaluation. On reject neither changes. The result reports which happened, and the temperatures stay put. |
| Chains.SwapStepInvolution | Assets/Scripts/Generator/MCMCChain.cs:270-290 | Swapping twice with the same decision restores both chains. A swap permutes the pair of (layout, energy) states. |
| NumberWords.NumberValue | Assets/Scripts/Generator/Graph/GraphNLG.cs:785-804 | A word decodes only to a number in 0..12 whose word it is. |
| NumberWords.NumberWordRoundTrip | Assets/Scripts/Generator/Graph/GraphNLG.cs:785-804 | 0..12 map to their own words, and the word decodes back to the number. The word is "many" exactly for other numbers. |
| NumberWords.NumberWordsDistinct | Assets/Scripts/Generator/Graph/GraphNLG.cs:785-804 | Distinct numbers in 0..12 get distinct words. |
| NumberWords.OrdinalValue | Assets/Scripts/Generator/Graph/GraphNLG.cs:806-825 | An ordinal word decodes only to a position in 0..12 whose word it is. |
| NumberWords.OrdinalWordRoundTrip | Assets/Scripts/Generator/Graph/GraphNLG.cs:806-825 | The ordinal decodes back. Position 2 is "other" iff the group has two members. The word is "some" exactly outside 0..12. |
| NumberWords.OrdinalWordsDistinct | Assets/Scripts/Generator/Graph/GraphNLG.cs:806-825 | Distinct positions in 0..12 get distinct ordinals. |
| TextContents.DetermineTextContent | Assets/Scripts/Generator/Graph/GraphNLG.cs:154-181 | Content selection never adds entities. |
| TextContents.ContentErrors | Assets/Scripts/Generator/Graph/GraphNLG.cs:154-181 | It fails with a missing node info iff there are fewer infos than nodes. Removing the wordless nodes never fails. For a valid graph, the only other failure is an unclusterable graph. |
| TextContents.ContentSelected | Assets/Scripts/Generator/Graph/GraphNLG.cs:156-172 | The entities are exactly the nodes with a non-empty hierarchy, in order. The relationships are the explicit ones among the edges not touching a removed node, renumbered. |
| TextContents.KeptInfos | Assets/Scripts/Generator/Graph/GraphNLG.cs:161-170 | The pruned graph has as many nodes as there are infos with words, so `nodeInfos[i]` is always in range. |
| TextContents.ContentExplicit | Assets/Scripts/Generator/Graph/GraphNLG.cs:154-172 | No entity with an empty expression hierarchy and no implicit relationship remains. |
| TextContents.ContentClean | Assets/Scripts/Generator/Graph/GraphNLG.cs:172-180 | Relationships and parents refer to existing entities. Every relationship is settled by the entities' parents, as the clustering promises. |
| TextContents.ContentDistinct | Assets/Scripts/Generator/Graph/GraphNLG.cs:161-172 | For a valid graph, no relationship appears twice. |
| TextStructures.SortedRoots | Assets/Scripts/Generator/Graph/GraphNLG.cs:185 | The root entities are reordered, not changed, into descending importance. |
| TextStructures.StructureOpens | Assets/Scripts/Generator/Graph/GraphNLG.cs:185-194 | The scene entity is appended to the table. The first sentence is "scene consists of" all root entities, each once and in descending importance. The entity list is the scene, then the roots. |
| TextStructures.RelatesCount | Assets/Scripts/Generator/Graph/GraphNLG.cs:195 | Turning relationships into sentences keeps each one's multiplicity. |
| TextStructures.BlocksCount | Assets/Scripts/Generator/Graph/GraphNLG.cs:199-212 | The per-parent loop states a remaining relationship once if it touches a parent or child and is not part-of into a parent. Otherwise it does not state it. |
| TextStructures.StructureDescribesOnce | Assets/Scripts/Generator/Graph/GraphNLG.cs:187-213 | Every relationship appears in exactly one relates-to sentence, except part-of relationships whose object is a root entity, which are dropped. No other relates-to sentence appears. |
| TextStructures.StructureShaped | Assets/Scripts/Generator/Graph/GraphNLG.cs:183-216 | Every planned sentence is plain. A relates-to has one subject and one object, and a consists-of has no integrated relationship. |
| Aggregation.FindSimilar | Assets/Scripts/Generator/Graph/GraphNLG.cs:233-248 | The `FirstOrDefault` search finds the first relates-to sentence with the same relation and the same object (or subject) entities, and none before it. |
| Aggregation.AggregateTextStructure | Assets/Scripts/Generator/Graph/GraphNLG.cs:218-268 | The entity table and entity list are unchanged. |
| Aggregation.AggregateSpec | Assets/Scripts/Generator/Graph/GraphNLG.cs:218-268 | Consists-of sentences are kept in order. The set of (subject, relation, object) facts covered is unchanged. The sentence count never grows. |
| DelayedIntroduction.SkipContainsSentenceForSomeEntities | Assets/Scripts/Generator/Graph/GraphNLG.cs:380-419 | The table, the entities and the sentence count are kept. |
| DelayedIntroduction.SkipShape | Assets/Scripts/Generator/Graph/GraphNLG.cs:380-419 | Each sentence keeps its kind, and relates-to sentences are unchanged. A consists-of keeps its container, and its content is an order-preserving subsequence of the original. The content keeps exactly the entities that are not below the threshold, alone in their default group, and related inside the cluster. |
| DelayedIntroduction.SkipBelowAllImportances | Assets/Scripts/Generator/Graph/GraphNLG.cs:380-419 | When every importance reaches the threshold (the default threshold 1.1 is the field at line 9), every content list is unchanged. |
| DelayedIntroduction.SkipKeepsRepeatedKinds | Assets/Scripts/Generator/Graph/GraphNLG.cs:380-419 | Two content entities with the same default expression are never delayed. |
| Indefiniteness.MakeSomeReferencesIndefinite | Assets/Scripts/Generator/Graph/GraphNLG.cs:472-490 | It fails (the missing first entity) iff the structure has no entities. Otherwise it keeps the table, the entities and the sentence count. |
| Indefiniteness.IndefiniteFirstMention | Assets/Scripts/Generator/Graph/GraphNLG.cs:472-490 | Only indefinite flags change. A flag is set exactly where it was set before or where an entity is mentioned for the first time, in sentence and reference order. The first entity (the scene) never gains a flag. |
| ReferringExpressions.InCluster | Assets/Scripts/Generator/Graph/GraphNLG.cs:305 | The in-cluster group holds exactly the similar entities with the node's parent. |
| ReferringExpressions.Referring | Assets/Scripts/Generator/Graph/GraphNLG.cs:270-325 | Choosing an expression fails iff the hierarchy is empty, the default group is missing from the dictionary, or, with several similar entities and no cluster-unique name, the specialized word differs from the default and has no group. |
| ReferringExpressions.ReferringAlone | Assets/Scripts/Generator/Graph/GraphNLG.cs:277-280 | An entity alone in its default-expression group is referred to by its bare default expression. |
| ReferringExpressions.ReferringByCluster | Assets/Scripts/Generator/Graph/GraphNLG.cs:281-285 | An entity that is unique within its cluster is named "default of the parent". |
| ReferringExpressions.ReferringNumberedOverall | Assets/Scripts/Generator/Graph/GraphNLG.cs:287-323 | An unparented entity whose specialized steps do not apply is numbered by its 1-based position among all similar entities. |
| ReferringExpressions.NumberedApart | Assets/Scripts/Generator/Graph/GraphNLG.cs:303-323 | Two similar entities with the same parent get different numbered expressions. |
| TextPlanning.PlanFacts | Assets/Scripts/Generator/Graph/GraphNLG.cs:183-216 | The structured sentences state exactly the selected relationships, minus the part-of ones into roots. |
| TextPlanning.StagedFacts | Assets/Scripts/Generator/Graph/GraphNLG.cs:753-763 | After aggregation and delayed introduction, whichever of them are enabled, the stated facts are still exactly those. |
| TextPlanning.StagedConsistent | Assets/Scripts/Generator/Graph/GraphNLG.cs:753-767 | Every reference reaching first-mention marking has one flag per entity. |
| TextPlanning.PlanText | Assets/Scripts/Generator/Graph/GraphNLG.cs:753-767 | Planning fails with a content error iff content selection fails. |
| TextPlanning.PlanTextStates | Assets/Scripts/Generator/Graph/GraphNLG.cs:753-767 | For a valid graph, planning fails iff content selection fails. A planned text states exactly the selected relationships, except the part-of ones whose object is a root. |

## Left out

- `ToDotFormat`, `ToJson` and the JSON constructors are text export and library calls. The save file is modelled as an in-memory record.
- `GraphMorphism` stores its edge map as an array. The lazy `IEnumerable` of `FindMorphisms` is a sequence computed eagerly, in the same order.
- `Enum.Parse(typeof(RelationshipType), type)` is case-sensitive, as the model is. It also accepts surrounding whitespace, numeric strings (including values outside the enum), and comma-separated lists of names, whose values it combines. The model accepts exact names only, because a relation outside the enum's named values has no counterpart in the datatype.
- Relationships.Parse: it does not accept the whitespace-padded, numeric or comma-list strings that `Enum.Parse` accepts.
- Relationships.ParseName: "parsing fails exactly on non-names" holds only for exact-name parsing. `Enum.Parse` also succeeds on padded names, on numeric strings and on comma lists.
- SaveFiles.LoadEdge: an unknown name is the parse error only under exact-name parsing. A numeric, padded or comma-list type string loads in the source.
- SaveFiles.EdgeRoundTrip: loading then saving is the identity, and loading fails iff the name is no relation's name, only under exact-name parsing. In the source a padded name such as " OnTopOf", or the number of a named value, loads and saves back as the bare name, which is a different string.
- SaveFiles.LoadThenSave: the round trip, and the failure iff some edge names no relation, hold only under exact-name parsing, for the same reason as EdgeRoundTrip.
- Random draws are parameters. A `Random.Next(n)` pick is any `nat` taken modulo n. `SampleGaussian` (Box–Muller) and the `Math.Exp` acceptance are not modelled: the sample and the accept decision are parameters.
- The energy (`GraphScene` and its relationship evaluations) is an oracle. `normalized` is a function parameter. NaN and float rounding are not modelled.
- `ApplySceneLayout`, the constructor's transform walk and everything else in Unity are not part of this model.
- Layouts.Copy: the fresh-vertex-array (no aliasing) promise has no counterpart, because model values are immutable.
- Layouts.CouldBeParentSpec: the C# recursion overflows the stack on a parent cycle. The model uses fuel \|paths\| and an `Unbounded` error, and UnboundedNeverReturns shows the error arises only where the recursion would not return.
- Moves.PathMoveSpec: the clamp bound is stated only for end vertices. An interior vertex gets the clamped sample plus, unless the vertex's current position is equally far from both neighbours, a push along the previous-to-next direction whose length the model leaves as a free parameter (in the source, at most about 3.72·|stepPositionChange.x|, since the Gaussian sampler's uniform draw is at least 0.001; MCMCChain.cs:95, 176-191), so its final coordinates can leave [−30, 30]. The contract does not describe that result.
- Morphisms.FindMorphismsAsWritten, Morphisms.FindMorphisms, Grammars.FindMorphismsForRule and Rules.ApplyToFirst require every pattern label to be among its own groups (LabelsReflexive). The KeyNotFoundException the finder throws otherwise (GraphMorphism.cs:151) is not modelled; the only caller passes the scene hierarchy, which always meets the requirement (SceneGraphs.SceneHierarchyLaws proves it reflexive).
- Odometer.Increment: its own contract gives only the counter count. The carry behaviour is stated by Odometer.IncrementRank.
- Grammars.Choose: its own contract gives the error and the chosen rule's match. The weight interval is stated by Grammars.SelectInterval, and the zero-weight cases by ChosenWeightPositive and NoneIffZeroWeights.
- Moves.SampleJump: its own contract gives only the empty move set error. The one-move proposal is stated by Moves.SampleJumpSpec.
- TextContents.DetermineTextContent: its own contract gives only the entity bound. Selection is stated by ContentSelected, ContentExplicit, ContentClean and ContentErrors.
- Aggregation.AggregateTextStructure: its own contract gives only the unchanged entities. The sentences are stated by Aggregation.AggregateSpec.
- DelayedIntroduction.SkipContainsSentenceForSomeEntities: its own contract gives only the unchanged entities and count. Each sentence is stated by DelayedIntroduction.SkipShape.
- Grammars.DeriveOneStep: its own contract lists only the errors. The rewrite and `null` cases are stated by StepAppliesPositiveRule and StepNullIff.
- Grammars.DeriveManySteps: its own contract covers only `maxSteps` ≤ 0. The general case is DerivationChain.
- `GraphMorphism.ToDotFormat`, `GraphGrammar.ToDotFormat` and the rule tables are not modelled: they are text export or data.
- `MoveSomeRelatesToIntoConsistsOfSentences` is not modelled. TextPlanning runs `Describe` as if `EnableConsistsOfSentencesIntegratingRelationships` were off.
- `SortEntitiesByFirstDefiniteMention` and `GenerateReferringExpressionsEntities` are not modelled. Their group dictionaries and the parent's expression are parameters of ReferringExpressions.Referring.
- Realisation is not modelled: SimpleNLG, `CoordinatedPhraseFromElements`, `GenerateReferringExpressionsSentences`, `GenerateRefferingExpressionsSentencesBasic` and `RealizeText`.
- `ObjectImportance` is a `real`. Object identity of text entities is modelled as table positions, and the shared flag arrays of aliased references are modelled as values.
- TextStructures.StructureOpens: the stability of `OrderByDescending` among equal importances is not stated, only the descending order and the membership.
- TextStructures.StructureDescribesOnce requires distinct relationships and a content whose parents agree with its part-of edges. Both hold for selected content (TextContents.ContentDistinct, TextContents.ContentClean).
- ReferringExpressions.Referring: success is characterised, but not every string is. Steps 3 to 6 are covered only by the shape of the definition, not by separate lemmas.
- ReferringExpressions.NumberedApart is limited to positions up to 12, beyond which both ordinals are "some".
- Aggregation.AggregateSpec: it states the facts as a set. When a fact is stated twice, its multiplicity is not tracked.

## Findings

| source | as written | input that shows it | evidently intended | confidence | as-written member | corrected member |
|---|---|---|---|---|---|---|
| Assets/Scripts/Generator/Graph/GraphGrammar/GraphMorphism.cs:133-141 | For the wildcard group, the sizing check sums every host group's size and subtracts the pattern's own wildcard count from the host wildcard group, then compares the total with the pattern's wildcard count. | Pattern and host are both the one-node graph whose label is the wildcard: the host wildcard group has 1 node, 1 − 1 = 0 < 1, so nothing is yielded, although the identity is a match. | As the comment at 120-121 says: enough host candidates for each pattern group, so that every match is found. | not executed | Morphisms.FindMorphismsAsWritten, Morphisms.LoneWildcardMissed, Grammars.LoneWildcardStepIsNull | Morphisms.FindMorphisms, Morphisms.FindMorphismsComplete, Rules.ApplyToFirstCorrected, Rules.ApplyToFirstCorrectedNoMatch |
