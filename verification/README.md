# Routing engine: a verified model

The project models the routing engine of a swap aggregator: the graph of
liquidity pools and its compiled snapshot, the bidirectional route search over a
recycled arena, the evaluation of routes over super edges, the numeric splitters,
the price-impact arithmetic, and the caches for quotes and market data.

Code that changes state is written as classes and loops over fields and arrays,
and each such method is proved to compute a function of its inputs or of the old
state. The theorems are lemmas about those functions.

| files | content |
|---|---|
| Domain, Network | pools, keys, networks of token ids and walks |
| Search, RouteLengths, Arena | the search as a function, the lengths of its routes, and the search in place on the recycled arena |
| AdjSlice, TokenRegistry, GraphState, SuperEdge, Snapshot, Ranking, Graph, Routes | the mutable graph, the three compiled views and their ranking, the lookups and `FindPaths` |
| SuperEdgeQuote, EdgeChoice, PathEvaluator, PathFlow, HopQuote, QuotedRoute | quotes over super edges and paths, in big integers and in uint64, the alternatives of an edge, what flows between hops and what they claim |
| Simplex, MinAlloc, FixedPoint, AdmmSolver, Proposal, GoldenSection, GoldenPeak, GoldenExamples | the splitters, over exact reals |
| CacheKey, ClockShard, QuoteCache, LruCache | the caches |
| PriceImpact | price impact in both widths |

Conventions. Integers are unbounded; where the width matters the wrap-around is
written out (`Fit`, `% U64`, `Mul256`). The computation of a pool's swap
is an abstract function with stated hypotheses (`Monotone`, `Agree`, `Echoes`).
Clock readings are parameters. The golden ratio is any real with g*g = g + 1.

Findings. For each the condition under which the code meets the expectation is
proved for all inputs, and a lemma gives an input on which it does not; for the
LRU capacity the condition itself names every such input:

- Routes are not sorted by hop count, although the comment on `FindPaths` (internal/services/router/pathfinder.go:192-193) says so: `UnsortedExample`. Only the first is a shortest in every case (`SearchIsComplete`). All are shortest, and the list is then sorted, if no token within the search depth of both ends lies off the shortest walks; unless ten routes were found, all are shortest only then (`AllShortestIffNoDetours`).
- An odd hop limit admits routes one hop longer, even beside shorter ones: `OddBoundRevisits`, `OddBoundExample`. It takes a missing direct edge and a token half of that many hops from both ends, and unless ten routes were found it always happens then (`OddBoundOvershoots`).
- Re-adding a known pool leaves the old pool in the adjacency lists: `ReAddExample`. The lists stay current exactly when the pool is unchanged (`ReAddIsStale`).
- An exact-out quote may deliver less than asked, because a split in which a pool refuses costs less: `ExactOutFallsShort`. A quote meets its amount exactly when no split is chosen, or every pool of the split quotes its part and no share is rounded (`QuoteDelivers`); a path does exactly when every hop meets what is carried into it (`ExactOutDelivers`).
- A hop claims the amounts of its whole quote but names one pool: `HopClaimsMore`. Its amounts are the named pool's own quote exactly when no split is chosen (`PathNamesItsPools`).
- An exact-out proposal of the splitter may be a share that its path refuses, beside shares it quotes, once these cost a billion units or more: `DearIsRefused`. A refused share scores minus a billion, more than a dearer quote. The condition is in `ProposalCostsLeastIff`; exact-in the proposal always pays most (`ProposalPaysMost`).
- The exact-out golden-section search has no answer when the first right-hand point is refused, whatever it finds later: `RightRefused`, with the condition in `ExactOutPicksLeastIff` and `ExactOutAnswersIff`.
- The golden-section search can lose the peak on a plateau: `PlateauLosesPeak`. The peak is in the bracket exactly until two golden points tie to its right (`PeakKeptIffNoTie`), so in every round when no plateau is as wide as the least distance of two golden points, a quarter of a percent (`PeakKept`, `GapIsSmall`).
- The minimum allocation can be missed from twenty-one paths on: `TwentyOneFallShort`. It is reached exactly when the active paths can all have it beside the inactive rest (`FloorReachedIffFeasible`), which holds for up to twenty; the router splits over at most three. Beyond twenty a ratio can even become negative: `EightyGoNegative`, with the condition in `NonNegativeIffBearable`.
- A non-positive LRU capacity makes `Set` evict forever: `EvictionEnds`, for every such capacity and for no other.
- For B-to-A trades below a price of 2^32 one price-impact form divides by zero where the other answers zero: `LowPriceExample`, with the condition in `FormsAgreeIff`. From 2^128 on the 256-bit form wraps around (`WrapExample`); prices decoded from chain data have 128 bits (internal/services/market/vortex_service.go:98 and 132), and the store keeps them as decimal strings (internal/adapters/persistence/boltdb.go:280 and 358), so only a damaged store can hold such a price.

`dafny verify dfyconfig.toml` checks the whole project.

## Model

| member | source | states |
|---|---|---|
| `Network.SpliceIsWalk` | internal/services/router/pathfinder.go:155-190 | A walk to the meeting token, joined with the reverse of a walk from the other end, is a walk between the two ends. |
| `Search.VisitAllFollows` | internal/services/router/pathfinder.go:282-303 | Visiting neighbours only adds: marked tokens keep the walks recorded for them, stored routes stay a prefix of the later ones, and every token queued is marked. |
| `Search.VisitKeepsSweep` | internal/services/router/pathfinder.go:282-343 | One visit keeps the invariant of a sweep: distances are exact so far, and a route is stored exactly when the two sides have met. |
| `Search.ForwardKeeps` | internal/services/router/pathfinder.go:273-312 | After a forward layer the forward side holds exactly the tokens one hop further out, each with a shortest walk. |
| `Search.BackwardKeeps` | internal/services/router/pathfinder.go:315-351 | The same for the backward side. |
| `Search.WalkIsMet` | internal/services/router/pathfinder.go:290-301 | If the two sides cover their depths, every walk no longer than both depths together passes a token both sides know. |
| `Search.RoundKeeps` | internal/services/router/pathfinder.go:270-357 | A round either fills up with ten sound routes or ends one hop deeper on both sides, with nothing missed. |
| `Search.RoundsVerdict` | internal/services/router/pathfinder.go:268-358 | From any state of the invariant, the remaining rounds end with sound routes, a shortest first route, and no route only when none is short enough. |
| `Search.SearchIsComplete` | internal/services/router/pathfinder.go:242-359 | On a symmetric network: every result is a walk from input to output of at most 2*ceil(maxHops/2) hops, at most ten; some result exists exactly when such a walk does; the first is a shortest walk. |
| `Search.EvenBoundIsExact` | internal/services/router/pathfinder.go:268-270 | For an even limit, as the router uses, a result exists exactly when input and output are at most maxHops apart. |
| `Search.FirstRouteOvershoots` | internal/services/router/pathfinder.go:268-270 | For an odd limit the first route exceeds it, by one hop, exactly when the shortest walk has maxHops + 1 hops. |
| `RouteLengths.EveryMeetingHasItsRoute` | internal/services/router/pathfinder.go:268-358 | Without a direct edge, every route passes some token within the search depth of both ends at its shortest distance from each; unless ten routes stopped the search, every such token, at distances a and b, is at position a of its own route of a + b + 1 tokens. |
| `RouteLengths.RouteLengthsAreExact` | internal/services/router/pathfinder.go:268-358 | Every route length is the sum of the two distances of some token, each at most the depth per side; and unless ten routes stopped the search, every such sum is the length of some route. |
| `RouteLengths.OddBoundOvershoots` | internal/services/router/pathfinder.go:268-358 | For an odd limit some route exceeds it only without a direct edge and with a token (maxHops+1)/2 hops from both ends; with fewer than ten routes, exactly then, however short the shortest walk is. |
| `RouteLengths.OddBoundRevisits` | internal/services/router/pathfinder.go:268-358 | A symmetric four-token network with a two-hop walk on which a limit of three returns a four-hop route. |
| `RouteLengths.UnsortedExample` | internal/services/router/pathfinder.go:192-193 | A symmetric four-token network whose routes come with two, three and two hops. |
| `RouteLengths.AllShortestIffNoDetours` | internal/services/router/pathfinder.go:192-193 | If every token within the search depth of both ends lies on a shortest walk, all routes are shortest and the list is sorted; with fewer than ten routes, all are shortest exactly then. |
| `RouteLengths.FarthestIsSorted` | internal/services/router/pathfinder.go:192-193 | When the ends are as far apart as the search reaches, there are routes and all are equally long. |
| `Search.OddBoundExample` | internal/services/router/pathfinder.go:268-270 | A concrete network on which a one-hop search returns a two-hop route. |
| `Arenas.Marks.MarkVisited` | internal/services/router/pathfinder.go:122-137 | Marking a token records the walk to its parent extended by it, and disturbs no other recorded walk. |
| `Arenas.Marks.Parent` | internal/services/router/pathfinder.go:140-153 | The parent of a visited token is the token before it on its recorded walk, or negative at the root. |
| `Arenas.Marks.Chain` | internal/services/router/pathfinder.go:166-175 | Following parents ends and spells the recorded walk backwards, although stale parents remain in the array. |
| `Arenas.Arena.constructor` | internal/services/router/pathfinder.go:67-84 | A new arena is clean. |
| `Arenas.Arena.Reset` | internal/services/router/pathfinder.go:87-103 | Whatever was left behind, after a reset no token carries the current stamp; also when the 32-bit counter wraps around. |
| `Arenas.Arena.AppendToken` | internal/services/router/pathfinder.go:162-187 | Appending to a slice of row i writes row i only, and moves to the heap beyond sixteen tokens. |
| `Arenas.Arena.AppendBackwardChain` | internal/services/router/pathfinder.go:182-187 | The backward parents are appended nearest first and the loop ends at the output token. |
| `Arenas.Arena.ReconstructPath` | internal/services/router/pathfinder.go:157-190 | The slice spells the forward walk joined with the backward walk, and no other storage row changes. |
| `Arenas.Arena.IsPathDuplicate` | internal/services/router/pathfinder.go:363-384 | True exactly when the path is among those already stored. |
| `Arenas.Arena.AddRoute` | internal/services/router/pathfinder.go:328-342 | Stores the route through a meeting token, or drops it as a duplicate on the backward side; stored routes are never overwritten, also after a rejected duplicate. |
| `Arenas.Arena.VisitNeighbor` | internal/services/router/pathfinder.go:283-301 | In-place visit of one neighbour computes the visit of module Search. |
| `Arenas.Arena.ExpandToken` | internal/services/router/pathfinder.go:279-302 | The neighbour loop computes visiting all neighbours, stopping at ten routes. |
| `Arenas.Arena.ForwardLayer` | internal/services/router/pathfinder.go:273-312 | The forward half of a round, in place. |
| `Arenas.Arena.BackwardLayer` | internal/services/router/pathfinder.go:315-351 | The backward half of a round, in place. |
| `Arenas.Arena.Run` | internal/services/router/pathfinder.go:267-358 | The rounds loop computes the rounds of module Search and ends. |
| `Arenas.Arena.Search` | internal/services/router/pathfinder.go:242-359 | From any clean arena, with whatever stale entries, the stored slices denote exactly the routes of the pure search: reuse is invisible. |
| `AdjSlices.AdjSlice.constructor` | internal/services/router/adj_slice.go:20-32 | A new table has no entries and at least the minimum capacity. |
| `AdjSlices.AdjSlice.EnsureCapacity` | internal/services/router/adj_slice.go:35-62 | Growing keeps every entry and adds none. |
| `AdjSlices.AdjSlice.Set` | internal/services/router/adj_slice.go:65-69 | Changes exactly one entry. |
| `AdjSlices.AdjSlice.Get` | internal/services/router/adj_slice.go:72-77 | Reads the entry; nothing outside the capacity. |
| `AdjSlices.AdjSlice.Append` | internal/services/router/adj_slice.go:80-84 | Adds the pool at the end of exactly one entry. |
| `AdjSlices.AdjSlice.Remove` | internal/services/router/adj_slice.go:87-100 | Takes the first pool with the address out of exactly one entry, by swapping with the last. |
| `AdjSlices.SwapRemoveTakesOne` | internal/services/router/adj_slice.go:92-98 | Swap removal takes exactly one occurrence out of the list, as a multiset, or nothing if the address is absent. |
| `AdjSlices.AdjSlice.GetNeighborsInto` | internal/services/router/adj_slice.go:148-158 | Appends exactly the ids with a non-empty entry, in ascending order. |
| `AdjSlices.AdjSlice.NetEdges` | internal/services/router/adj_slice.go:148-158 | The network of the table has an edge exactly where an entry is non-empty. |
| `TokenRegistries.TokenRegistry.GetOrCreate` | internal/services/router/token_registry.go:33-55 | Numbers a new mint with the next id and never renumbers a known one. |
| `TokenRegistries.TokenRegistry.GetID` | internal/services/router/token_registry.go:58-63 | An id answered is the position of the mint in the id table; none is answered only for a mint that the table does not hold. |
| `TokenRegistries.TokenRegistry.RoundTrip` | internal/services/router/token_registry.go:58-73 | Ids and mints translate into each other and back, in both directions. |
| `GraphStates.AddKeepsLinked` | internal/services/router/graph.go:462-483 | Adding keeps the invariant: each address of the pool table occurs exactly once in each of its two directed lists, no other address occurs, both directions mirror each other, no list or row is empty. |
| `GraphStates.AddLinkedIffAdmissible` | internal/services/router/graph.go:462-483 | Adding keeps that invariant exactly when a new pool has two different mints and a known address keeps its mints. |
| `GraphStates.RemoveKeepsLinked` | internal/services/router/graph.go:500-535 | Removing keeps the invariant and the address is gone. |
| `GraphStates.AddThenRemove` | internal/services/router/graph.go:448-535 | Removing a pool that was just added restores the state exactly, rows and all. |
| `GraphStates.RunLinked` | internal/services/router/graph.go:448-535 | Over every run of adds, batches and removals that respects the mint conditions, the invariant holds. |
| `GraphStates.ReAddIsStale` | internal/services/router/graph.go:462-466 | Re-adding a known address updates the table but not the lists, so the lists are current exactly when the pool is unchanged. |
| `GraphStates.ReAddExample` | internal/services/router/graph.go:462-466 | Any pool with two mints, added to an empty graph and added again with other contents, leaves stale lists. |
| `SuperEdges.SortByOutputReserve` | internal/services/router/graph.go:414-441 | A descending permutation by output reserve. |
| `SuperEdges.Rank` | internal/services/router/graph.go:343-349 | The at most five pools of greatest output reserve, in descending order. |
| `SuperEdges.BestPoolIsDeepest` | internal/services/router/super_edge.go:117-131 | The cached best pool has the greatest output reserve of all pools ranked. |
| `Rankings.CompiledByReserve` | internal/services/router/graph.go:332-369 | In fields only, on a snapshot of a linked state: the list from a to b holds ready pools of the pair, at most five, by falling reserve of b (the reserve B of a pool whose mint B is b, else its reserve A); a ready pool left out holds no more of b than any listed one, and none is left out while there is room. |
| `SuperEdges.SuperEdgeMatrix.Set` | internal/services/router/super_edge.go:86-94 | Changes exactly one entry of the matrix. |
| `SuperEdges.SuperEdgeMatrix.Get` | internal/services/router/super_edge.go:97-102 | Reads the entry. |
| `Snapshots.FilterReady` | internal/services/router/graph.go:337-342 | Keeps exactly the ready pools, in order. |
| `Snapshots.Register` | internal/services/router/graph.go:334-352 | Numbering a mint leaves the agreement of the views undisturbed. |
| `Snapshots.StorePair` | internal/services/router/graph.go:349-358 | Storing a list changes the same single pair in all three views. |
| `Snapshots.Compile` | internal/services/router/graph.go:332-369 | After compiling, the map, the id table and the super-edge matrix hold the same list for every pair: the top five ready pools of the mutable adjacency, and nothing where no pool is ready. |
| `Routes.WalkToMints` | internal/services/router/pathfinder.go:226-237 | A walk of ids translates to a walk of mints over non-empty lists. |
| `Routes.MintsToWalk` | internal/services/router/pathfinder.go:226-237 | And every walk of mints has a walk of ids of the same length. |
| `Routes.SearchAnswers` | internal/services/router/pathfinder.go:195-238 | The guarantees of the search carry over to mints and compiled lists. |
| `Routes.CompiledSymmetric` | internal/services/router/graph.go:332-369 | The non-empty-edge relation of a compiled snapshot is symmetric, although each direction ranks by its own reserves. |
| `Graphs.Graph.AddPoolLocked` | internal/services/router/graph.go:462-483 | Computes the addition and reports whether the address was known. |
| `Graphs.Graph.AddPool` | internal/services/router/graph.go:448-459 | Adds the pool, queues it as added or updated, and marks the snapshot dirty. |
| `Graphs.Graph.AddPoolsBatch` | internal/services/router/graph.go:486-497 | Adds all pools, clears the queue, and leaves a snapshot compiled from the new state. |
| `Graphs.Graph.RemoveEdgeFrom` | internal/services/router/graph.go:516-535 | Removes the address from one directed list, dropping an empty list or row. |
| `Graphs.Graph.RemovePool` | internal/services/router/graph.go:500-514 | Removes a known pool and queues it; does nothing for an unknown address. |
| `Graphs.Graph.CountReady` | internal/services/router/graph.go:311-318 | The number of ready pools in the table. |
| `Graphs.Graph.RebuildSnapshot` | internal/services/router/graph.go:307-389 | The three views of the new snapshot agree and are compiled from the current state. |
| `Graphs.Graph.RefreshSnapshot` | internal/services/router/graph.go:538-545 | The same, with the queue cleared and the state unchanged. |
| `Graphs.Graph.GetDirectRoutesForPair` | internal/services/router/graph.go:597-619 | Returns the compiled list of the pair, nothing exactly when it is empty. |
| `Graphs.Graph.GetPrecomputedSuperEdge` | internal/services/router/graph.go:702-713 | Returns a super edge exactly when the compiled list is non-empty, holding that list. |
| `Graphs.Graph.UpToDateRanks` | internal/services/router/super_edge.go:117-131 | On an up-to-date snapshot of a linked state a pair has a precomputed edge exactly when some pool of it is ready; its pools are ranked as above, and its best pool is ready and holds at least as much of the mint bought as any ready pool of the pair. |
| `Graphs.Graph.FindPaths` | internal/services/router/pathfinder.go:195-238 | With any clean arena the result is a function of snapshot, registry and arguments only, and the arena is clean again. |
| `Graphs.Graph.ServedAnswers` | internal/services/router/pathfinder.go:195-238 | On a symmetric snapshot the results are mint walks within the hop bound, some exactly when one exists, the first a shortest. |
| `Graphs.Graph.UpToDateAnswers` | internal/services/router/pathfinder.go:195-238 | On a snapshot of a linked state no symmetry has to be assumed. |
| `Graphs.Graph.RoutesAreQuotable` | internal/services/router/graph.go:702-713 | Every hop of every route found has a precomputed super edge with pools. |
| `SuperEdgeQuotes.QuoteSplitPools` | internal/services/router/super_edge.go:362-467 | The split loop computes the tally over the top three pools, in big integers and in wrapping uint64 (also super_edge.go:553-622). |
| `SuperEdgeQuotes.WeightedFits` | internal/services/router/super_edge.go:418-447 | The weighted impact never overflows its uint32 and its average never overflows a uint16. |
| `SuperEdgeQuotes.GetQuote` | internal/services/router/super_edge.go:294-334 | Single pool or split, the strictly better of the two, with every fallback (also super_edge.go:490-526). |
| `SuperEdgeQuotes.QuoteOutcome` | internal/services/router/super_edge.go:294-334 | A quote names at least one and at most three pools; an edge with pools fails only with the reason its deepest pool gives for the full amount. |
| `EdgeChoices.CheaperIsAnswered` | internal/services/router/super_edge.go:294-334 | In amounts only: an edge answers when its deepest pool or the split does, and pays no less (exact-out: takes no more) than either. It is the split only if that is strictly better or the pool refuses, and else the pool's own quote of the whole amount (also super_edge.go:490-526). |
| `EdgeChoices.HalvesAddUp` | internal/services/router/super_edge.go:362-467 | Two pools are asked for half the amount each; the split is quoted exactly when they pay something, its amounts and fee are the sums over the pools that quote, its impact the mean, and it lists those pools in order. |
| `EdgeChoices.ThirdsAddUp` | internal/services/router/super_edge.go:362-467 | The same for three pools and 34, 33 and 33 percent, whatever follows them in the list. |
| `SuperEdgeQuotes.QuoteMonotone` | internal/services/router/super_edge.go:294-334 | If pool quotes are monotone and keep succeeding below a limit, such as 2^64, so does the edge quote below it: across the 1,000,000 threshold and across split or single pool. |
| `SuperEdgeQuotes.SplitRefines` | internal/services/router/super_edge.go:553-622 | Where products and sums fit 64 bits the uint64 split equals the unbounded split. |
| `SuperEdgeQuotes.QuoteRefines` | internal/services/router/super_edge.go:490-526 | The same for the whole edge quote, with errors and hop data. |
| `SuperEdgeQuotes.QuoteDelivers` | internal/services/router/super_edge.go:294-467 | The side the caller fixed is never exceeded. It is met exactly when the split is not chosen, or each of its two or three pools quotes its part and the shares of the amount are whole. |
| `SuperEdgeQuotes.DirectionsIff` | internal/services/router/super_edge.go:294-334 | Every pool is asked in the direction of the deepest; so all are asked in their own exactly when the pools named order their mints as the deepest does. |
| `PathEvaluator.EvaluatePathExactIn` | internal/services/router/path_evaluator.go:128-190 | The forward loop computes the hop-by-hop evaluation (also path_evaluator.go:366-419). |
| `PathEvaluator.EvaluatePathExactOut` | internal/services/router/path_evaluator.go:194-256 | The backward loop fills the hops in place and computes the hop-by-hop evaluation from the end (also path_evaluator.go:422-474). |
| `PathEvaluator.EvaluateSinglePath` | internal/services/router/path_evaluator.go:354-363 | Too short paths have no route; otherwise the direction decides. |
| `PathEvaluator.EvaluatePaths` | internal/services/router/path_evaluator.go:322-351 | The first of the best among the first ten candidates, or no route when all fail. |
| `PathEvaluator.BestIsUnique` | internal/services/router/path_evaluator.go:265-351 | That route is unique, so the sequential and the parallel evaluation choose the same one. |
| `PathEvaluator.BestIsCheapest` | internal/services/router/path_evaluator.go:322-351 | In amounts only: a route is found exactly when some path can be quoted; it pays no less (exact-out: takes no more) than any of them, and those before it are strictly worse. |
| `PathEvaluator.PathMonotone` | internal/services/router/path_evaluator.go:366-419 | With pools that are monotone below a limit, a larger input that carries no amount beyond it into a hop never turns success into failure and never lowers the output, for paths of any length. |
| `PathEvaluator.FastPathMonotone` | internal/services/router/path_evaluator.go:366-419 | The same for the uint64 evaluator where nothing overflows, with pools monotone on words. |
| `PathEvaluator.BestMonotone` | internal/services/router/path_evaluator.go:322-351 | The same for the best of any candidates. |
| `PathEvaluator.PathRefines` | internal/services/router/path_evaluator.go:366-474 | With quoters that agree and amounts and sums that fit 64 bits, both forms give the same success or failure, hops, amounts, fees and impact, in both directions. |
| `PathEvaluator.BestRefines` | internal/services/router/path_evaluator.go:265-319 | Both forms choose the same route. |
| `PathFlows.ExactInConserves` | internal/services/router/path_evaluator.go:128-190 | Exact-in: no hop spends more than the hop before pays out, the output is that of the last hop, and the fee total is the sum of the fees. Every hop spends all that arrives exactly when each meets the amount carried into it. |
| `PathFlows.ExactOutDelivers` | internal/services/router/path_evaluator.go:194-256 | Exact-out: no hop pays out more than the next takes, and the fees add up. Every hop pays out just that, and the last one the amount claimed, exactly when each meets the amount carried back to it. |
| `PathFlows.ExactOutFallsShort` | internal/services/router/path_evaluator.go:194-256 | A concrete exact-out market on which a split with a failed pool looks cheaper: the route claims 1,000,000 out while its hop delivers 500,000. |
| `HopQuotes.PathNamesItsPools` | internal/services/router/path_evaluator.go:155-170 | Every hop of an evaluated path, in both directions, has as its amounts the named pool's own quote for the amount carried in, exactly when no split is chosen there. |
| `HopQuotes.HopsAreListed` | internal/services/router/path_evaluator.go:128-256 | In both directions the route is the path, and hop j trades in a pool listed from mint j to mint j + 1, in the direction of the deepest one. |
| `HopQuotes.PathImpactIsSum` | internal/services/router/path_evaluator.go:180-180 | On up to 65,537 hops, where the uint32 total cannot wrap, the impact of a path is the sum over its hops, capped at 10000 (also path_evaluator.go:246). |
| `HopQuotes.HopClaimsMore` | internal/services/router/path_evaluator.go:155-170 | Two pools share a million and pay all of it; the hop names the first, which alone would pay 600,000 (the builder uses only that pool, internal/services/builder/service.go:378-383). |
| `QuotedRoutes.RouteFailsOnlyIfRefused` | internal/services/router/path_evaluator.go:128-256 | On a route the search can return, evaluation fails only because the deepest pool of some hop refuses, with that error, the very amount carried into the hop; a super edge is never missing. |
| `Simplex.SortDescending` | internal/services/router/admm_solver.go:423-432 | The insertion sort yields a descending permutation. |
| `Simplex.FindRho` | internal/services/router/admm_solver.go:434-442 | Finds one more than the last index whose entry stays positive. |
| `Simplex.ThetaSeparates` | internal/services/router/admm_solver.go:434-449 | Exactly the first rho sorted entries lie above the threshold. |
| `Simplex.ProjectionInSimplex` | internal/services/router/admm_solver.go:414-459 | The output is non-negative and sums to exactly one. |
| `Simplex.ProjectionIsNearest` | internal/services/router/admm_solver.go:410-413 | Of all points of the simplex the output is the Euclidean-nearest to the input, and the only nearest. |
| `Simplex.ProjectionFixesSimplex` | internal/services/router/admm_solver.go:410-413 | A vector already in the simplex is unchanged. |
| `Simplex.ProjectOntoSimplexInto` | internal/services/router/admm_solver.go:414-459 | The procedure writes that projection. |
| `MinAlloc.EnforceMinimumAllocationInPlace` | internal/services/router/admm_solver.go:463-516 | The procedure computes the enforcement function, in place. |
| `MinAlloc.EnforcedConserves` | internal/services/router/admm_solver.go:461-516 | The total stays one, for any ratios of any length and any minimum. |
| `MinAlloc.FeasibleTotal` | internal/services/router/admm_solver.go:506-515 | When feasible, redistribution already totals one, so the final normalisation changes nothing. |
| `MinAlloc.FeasibleRespectsFloor` | internal/services/router/admm_solver.go:461-516 | When feasible, every entry is an unchanged inactive one or at least the minimum, and relative order is kept. |
| `MinAlloc.FloorReachedIffFeasible` | internal/services/router/admm_solver.go:461-462 | Every active entry reaches the minimum exactly when k times the minimum plus the inactive rest is at most one. |
| `MinAlloc.EnforcedTwice` | internal/services/router/admm_solver.go:463-516 | When feasible, a second application is the identity. |
| `MinAlloc.TwentyPathsAreFeasible` | internal/services/router/admm_solver.go:15-15 | With the configured 5% every vector of up to twenty ratios is feasible. |
| `MinAlloc.TwentyOneFallShort` | internal/services/router/admm_solver.go:461-516 | Twenty active ratios of 4.995% and an inactive one of 0.1%: some active entry ends below 5%. |
| `MinAlloc.NonNegativeIffBearable` | internal/services/router/admm_solver.go:461-516 | No entry becomes negative exactly when none above the floor bears more of the deficit than it has; feasible ratios meet this. |
| `MinAlloc.EightyGoNegative` | internal/services/router/admm_solver.go:461-516 | Sixty inactive ratios of 0.1% beside twenty active ones: the largest, 18%, ends below zero. |
| `FixedPoint.MulRatioU64` | internal/services/router/golden_section.go:199-220 | The 128-bit multiply and divide never traps and computes the scaled amount. |
| `FixedPoint.MulRatioBounds` | internal/services/router/golden_section.go:196-220 | Scaling is never above the exact product and at most amount/10^6 + 1 below it. |
| `FixedPoint.MulRatioMonotone` | internal/services/router/golden_section.go:199-220 | A larger ratio never scales to less. |
| `AdmmSolver.OptimizeSingleAllocation` | internal/services/router/admm_solver.go:599-635 | The first of the best-scoring candidates. |
| `AdmmSolver.ProposalIsNearAndNoWorse` | internal/services/router/admm_solver.go:599-635 | The proposal lies in [0, 1], within 0.05 of the clamped target, and scores no worse than any candidate. |
| `Proposals.ProposalPaysMost` | internal/services/router/admm_solver.go:599-663 | Exact-in, in the path's own quotes: if the target or a neighbour 0.05 away is at least 0.01 and is quoted, the ratio proposed is quoted and pays no less than any of the three. |
| `Proposals.TargetOnTies` | internal/services/router/admm_solver.go:660-663 | A neighbour is proposed only if it pays more, or costs less, than the target: on a tie the target stays. |
| `Proposals.ProposalCostsLeastIff` | internal/services/router/admm_solver.go:599-663 | Exact-out, if a candidate is quoted at all: the ratio proposed is quoted at the least cost exactly when no candidate is refused, or one costs less than a billion, or the target costs just that and the candidate below it is quoted. |
| `Proposals.DearIsRefused` | internal/services/router/admm_solver.go:638-658 | A path that takes two billion for up to half a million: the target 0.5 and 0.45 are quoted, but the refused 0.55 is proposed. |
| `Proposals.RunProposesBest` | internal/services/router/admm_solver.go:546-557 | Both over every run: at each step the ratio a path proposes for its target, consensus less dual, pays most, or costs least exactly under that condition. |
| `AdmmSolver.Workspace.Iterate` | internal/services/router/admm_solver.go:547-567 | The three in-place updates are one iteration: proposals, projection with minimum allocation, duals. |
| `AdmmSolver.Workspace.CheckConvergence` | internal/services/router/admm_solver.go:569-591 | The squared residual and the objective stall decide stopping, as stated. |
| `AdmmSolver.Workspace.Solve` | internal/services/router/admm_solver.go:520-595 | From any workspace contents, the states are a run of iterations that goes on while it may and ends at a stopping state or the cap; the allocations are those of its last consensus. |
| `AdmmSolver.BuildAllocations` | internal/services/router/admm_solver.go:693-723 | Drops shares below 8%, empty amounts and failing paths, and keeps the rest in order. |
| `AdmmSolver.AllocatesKept` | internal/services/router/admm_solver.go:693-723 | Exactly the paths with a share of at least 8% that is quoted are allocated, once each and in order, each with its own share and its own quote of it. |
| `AdmmSolver.ObjectiveIsTotal` | internal/services/router/admm_solver.go:666-690 | When no share lies between 1% and 8%, the objective is what the allocations pay out, or, exact-out, what they take, negated. |
| `AdmmSolver.RunIsBalanced` | internal/services/router/admm_solver.go:546-592 | For any quoter, at every state of every run the consensus sums to one, lies in the simplex for up to twenty paths, and all proposals lie in [0, 1]. |
| `AdmmSolver.StepIsNearest` | internal/services/router/admm_solver.go:553-562 | At each iteration the consensus is the point of the simplex nearest to proposals plus duals, then raised to 5%. |
| `AdmmSolver.DualsAccumulate` | internal/services/router/admm_solver.go:564-567 | Over every run the dual of a path is the sum of the differences between its proposals and the consensus so far. |
| `AdmmSolver.NeverOverspends` | internal/services/router/admm_solver.go:693-723 | Exact-in: the inputs of the allocations never sum to more than the amount. |
| `AdmmSolver.SpendsNearlyAll` | internal/services/router/admm_solver.go:693-723 | When the shares asked are quoted, at least (1 - 0.08*k)*amount - n*(amount/10^6 + 1) is allocated, with k of n shares pruned; of up to twelve at most n - 1 are. |
| `AdmmSolver.RunSpends` | internal/services/router/admm_solver.go:520-595 | Both bounds for every run of the solver on up to twenty paths. |
| `AdmmSolver.RouterRunSpends` | internal/services/router/admm_solver.go:520-595 | The same for the paths the router passes, in either width over any super edges: the upper bound whatever they answer, the lower one when they quote the shares asked. |
| `GoldenSection.DivisionIsGolden` | internal/services/router/golden_section.go:12-16 | Division by a ratio with g*g = g + 1 reuses points, keeps them apart, and passes the tolerance 0.01 at the tenth round, not before. |
| `GoldenSection.PointsReused` | internal/services/router/golden_section.go:308-331 | After narrowing, the kept point is the other golden point of the new bracket. |
| `GoldenPeak.PeakKeptIffNoTie` | internal/services/router/golden_section.go:308-332 | For unimodal integer totals the peak is still in the bracket of the search exactly when no earlier round had a tie with the peak to the left of both points. |
| `GoldenPeak.PeakKept` | internal/services/router/golden_section.go:308-332 | If besides no plateau is as wide as the least distance of two golden points in ten rounds, the peak is in the bracket at every round. |
| `GoldenPeak.ChosenIsNearPeak` | internal/services/router/golden_section.go:243-332 | Then, in both directions, the ratio the search settles on is within the tolerance and one such distance of the peak. |
| `GoldenPeak.GapIsSmall` | internal/services/router/golden_section.go:12-16 | With the golden ratio that distance lies between 0.0024 and 0.0025. |
| `GoldenExamples.TentIsFound` | internal/services/router/golden_section.go:243-332 | Two paths under these hypotheses, with an amount of a million: the ratio chosen is within 0.013 of the best. |
| `GoldenExamples.PlateauLosesPeak` | internal/services/router/golden_section.go:308-332 | Two paths with unimodal totals on which the search settles on a ratio that pays nothing, although another pays. |
| `GoldenSection.Search` | internal/services/router/golden_section.go:294-332 | The loop ends after exactly ten rounds, never at the cap of fifteen, with the point that the updates pick among the twelve evaluated. |
| `GoldenSection.ExactInChoosesBest` | internal/services/router/golden_section.go:287-332 | Exact-in: no evaluated division pays more than the chosen one. |
| `GoldenSection.ExactOutPicksLeastIff` | internal/services/router/golden_section.go:287-332 | Exact-out: the least positive evaluated total is chosen exactly when the first right-hand point could be quoted. |
| `GoldenSection.ExactOutAnswersIff` | internal/services/router/golden_section.go:334-336 | Exact-out: there is an answer exactly when both paths quote at the first right-hand point. |
| `GoldenExamples.RightRefused` | internal/services/router/golden_section.go:287-336 | Two paths that quote at the first left-hand point but not at the right-hand one: no answer. |
| `GoldenSection.GoldenSectionSplitFast` | internal/services/router/golden_section.go:243-366 | The answer is assembled from the chosen division. |
| `GoldenSection.AnswerAddsUp` | internal/services/router/golden_section.go:334-366 | For any ratio: there is an answer exactly when both paths quote their parts, which make up the amount. Totals and fee are the sums of both quotes in uint64, the hops theirs, the percentages make 100 with the first the ratio rounded down, and the impact is the mean by them. |
| `CacheKeys.StepIsBijective` | internal/services/router/cache.go:71-74 | A step of the hash can be undone on every 64-bit state, because the prime is odd. |
| `CacheKeys.OneByteSeparates` | internal/services/router/cache.go:67-105 | Changing exactly one byte of the hashed text changes the hash. |
| `CacheKeys.MakeKey` | internal/services/router/cache.go:67-105 | The loops hash both mints, the amount (eight bytes, or big-endian bytes when it is no uint64, or nothing) and the flag, in that order. |
| `CacheKeys.LowBytesWeigh` | internal/services/router/cache.go:83-88 | The eight bytes hashed for a uint64, weighted by the powers of 256 in order, add up to it: none of it is lost. |
| `CacheKeys.BytesDetermine` | internal/services/router/cache.go:67-105 | The bytes hashed determine the request, for keys of 32 bytes and amounts that are absent or not negative: requests share a key only through the hash itself. |
| `CacheKeys.NearRequestsSeparate` | internal/services/router/cache.go:66-105 | Requests that differ only in the flag, in exactly one byte of a mint, or in exactly one base-256 digit of the amount never share a key. |
| `ClockShards.CacheShard.Get` | internal/services/router/cache.go:112-133 | Answers with the live entry of the key and sets its used bit, else changes nothing. |
| `ClockShards.CacheShard.Evict` | internal/services/router/cache.go:168-185 | The hand stops within n + 1 attempts for any clock readings, so the fallback below the loop is never reached. |
| `ClockShards.CacheShard.Set` | internal/services/router/cache.go:135-194 | Updates the key in place, else fills a free slot, else evicts. |
| `ClockShards.CacheShard.EvictExpired` | internal/services/router/cache.go:204-210 | Clears the used bit of exactly the expired entries. |
| `ClockShards.EvictionIsExact` | internal/services/router/cache.go:168-193 | With one clock reading the victim is the first entry from the hand that is unused or expired, or the starting position if none is; only the entries passed lose their used bit, and nothing else changes. |
| `QuoteCaches.SetWrites` | internal/services/router/cache.go:143-194 | A Set writes its own key and leaves key, quote and expiry of every other surviving entry. |
| `QuoteCaches.RunRemembers` | internal/services/router/cache.go:112-214 | Over every run, each entry holds the latest quote set for its key. |
| `QuoteCaches.HitIsLatest` | internal/services/router/cache.go:112-214 | Over every run, a hit returns the quote of the latest Set of that key, made at most the time-to-live earlier. |
| `QuoteCaches.SetThenGet` | internal/services/router/cache.go:112-194 | A quote just set is found exactly until it expires, in a free slot or by eviction. |
| `QuoteCaches.SetKeepsOthers` | internal/services/router/cache.go:135-194 | A Set changes the answer for another key exactly by displacing it: the answer is none when the shard is full, the key is new and the victim of the clock holds the other key, and otherwise what it was. |
| `QuoteCaches.NearRequestsKeepTheirQuotes` | internal/services/router/cache.go:66-194 | After caching one request, one that differs from it only in the flag, a byte of a mint or a base-256 digit of the amount is answered as before, except that it may be displaced when both share a shard. |
| `QuoteCaches.QuoteCache.constructor` | internal/services/router/cache.go:48-59 | Sixteen empty shards of sixty-four slots, which share nothing. |
| `QuoteCaches.QuoteCache.Get` | internal/services/router/cache.go:112-133 | Hashes the request and looks in its shard only; distinct keys, shard membership, size and hand bounds are kept. |
| `QuoteCaches.QuoteCache.Set` | internal/services/router/cache.go:135-194 | Hashes the request and sets in its shard only; the same invariant is kept. |
| `QuoteCaches.QuoteCache.EvictExpired` | internal/services/router/cache.go:197-214 | Marks the expired entries of all shards at one time. |
| `LruCaches.BoundedLRUCache.Get` | internal/services/market/lru_cache.go:32-53 | Finds the value and moves the entry to the front; map and list stay equal. |
| `LruCaches.BoundedLRUCache.GetWithoutPromote` | internal/services/market/lru_cache.go:56-66 | Finds the value without touching the order. |
| `LruCaches.BoundedLRUCache.Set` | internal/services/market/lru_cache.go:69-90 | Updates and promotes a known key, else evicts to make room and adds to the front. |
| `LruCaches.BoundedLRUCache.EvictLRU` | internal/services/market/lru_cache.go:94-102 | Removes exactly the last entry from list and map; nothing on an empty cache. |
| `LruCaches.BoundedLRUCache.MakeRoom` | internal/services/market/lru_cache.go:81-84 | The eviction loop ends below the capacity, with exactly the front entries left. |
| `LruCaches.BoundedLRUCache.Clear` | internal/services/market/lru_cache.go:120-125 | Empties map and list. |
| `LruCaches.RunKeeps` | internal/services/market/lru_cache.go:32-125 | Over every run keys are distinct and the capacity is never exceeded. |
| `LruCaches.RunByRecency` | internal/services/market/lru_cache.go:32-125 | Over every run the list is ordered by last use, most recent first, and every value is the one last set. |
| `LruCaches.EvictsLeastRecent` | internal/services/market/lru_cache.go:81-102 | A new key in a full cache drops exactly the key used least recently. |
| `LruCaches.Inclusion` | internal/services/market/lru_cache.go:32-125 | Over any common run, what a cache of size n holds a cache of size m >= n holds with the same value. |
| `LruCaches.EvictionEnds` | internal/services/market/lru_cache.go:81-84 | The eviction loop of Set ends exactly for a positive capacity. |
| `PriceImpact.CalculatePriceImpactU256` | internal/services/router/uint256_math.go:132-220 | The procedure with its reused temporaries computes the 256-bit form. |
| `PriceImpact.FormsAgreeIff` | internal/services/router/uint256_math.go:132-220 | For prices below 2^128 the 256-bit form equals the big-integer form exactly when the trade is A to B, or the price is at least 2^32, or an early zero applies. |
| `PriceImpact.LowPriceExample` | internal/services/router/uint256_math.go:132-220 | A B-to-A trade at the smallest price: the big-integer form divides by zero, the 256-bit form answers zero. |
| `PriceImpact.WrapExample` | internal/services/router/uint256_math.go:167-169 | At 2^128, beyond what 128-bit prices can hold, the squared price wraps to zero and the 256-bit form reports no impact where the big-integer form reports 9999. |
| `PriceImpact.KnownImpacts` | internal/services/router/price_impact.go:46-140 | Known trades: at price one a fee of 3000 millionths explains 0.3% of the output and one percent more is 100 basis points; at price four, 390 for 100 is 250 basis points and, the other way, 95 for 400 is 500. |
| `PriceImpact.ImpactMonotone` | internal/services/router/price_impact.go:46-140 | With a fee below 100% the impact is at most 10000, never falls with a larger input and never rises with a larger output. |
| `PriceImpact.U256ImpactMonotone` | internal/services/router/uint256_math.go:132-220 | The same for the 256-bit form where the price neither wraps nor vanishes under a division. |

## Left out

- Concurrency: each locked section is one atomic step; parallel path evaluation is modelled by its result, which `BestIsUnique` shows is the sequential one; `sync.Pool` recycling of snapshots and temporaries is not modelled.
- `applyIncrementalUpdate` (internal/services/router/graph.go:149-298): it does not re-rank, applies removals first and stores no id table or super edges, so it is not equal to a full rebuild. Only full rebuilds are modelled.
- Pools are values: a pool object mutated in place after it was added, and slices shared between the snapshot views, are not modelled.
- `sort.Slice` is modelled by a sort whose order among equal reserves is unspecified for callers (`IsTop` allows either choice).
- Graphs.Graph.FindPaths: requires the registered tokens to fit the arena; the source silently ignores ids beyond 8192.
- Graphs.Graph.RebuildSnapshot: requires room in the 32-bit id space for all listed mints.
- Arenas.Arena.Search: requires both ends and all neighbours to lie below the arena's capacity; the source neither marks nor finds ids beyond it.
- Arenas: the source's forward and backward array pairs are two `Marks` objects, and the storage rows are sequences in a field, so a stored slice is a row and a length instead of a pointer.
- IEEE rounding in the splitters is not modelled: ratios, scores and objectives are exact reals, and `MulRatio` cuts an exact product.
- `mulRatio` and `mulRatioInto` (internal/services/router/golden_section.go:168-240), whose uint64 branch can wrap, and the big-integer splitters built on them; the uint64 splitters are modelled.
- The workspace of the solver holds arrays of exactly one entry to a path; the source takes prefixes of longer buffers and grows them when needed.
- AdmmSolver.Workspace.Solve: nothing is claimed about reaching an optimum; three candidate points per iteration give no such guarantee.
- AdmmSolver.SpendsNearlyAll: from thirteen paths on every share may be pruned, so only the bound that counts the pruned shares is given; the router uses three.
- Exact-out splits over several paths, and the conversion of allocations to percentages (internal/services/router/admm_solver.go:726-864), make no conservation claim here.
- PathEvaluator: a super edge is its list of pools with the source mint; that list is what `GetPrecomputedSuperEdge` is proved to return. The evaluators call the edge quoter as a function.
- SuperEdgeQuotes.QuoteSplitPools: a pool that cannot quote leaves no entry at once, where the source leaves a blank one and filters at the end.
- ClockShards.CacheShard.Evict: the fallback after the loop is unreachable and therefore absent.
- LruCaches.BoundedLRUCache.Set: requires a positive capacity, because the source does not end otherwise; see `EvictionEnds`.
- LruCaches.BoundedLRUCache.MakeRoom: requires a positive capacity for the same reason.
- PriceImpact.FormsAgreeIff: for prices from 2^128 on only a differing example is given.
- GoldenSection.GoldenSectionSplitFast: the golden ratio is a parameter with its defining equation, since the exact number is irrational.
- Mutable super edges (`AddPool`, `RemovePool`), `clear`, `clearAll` and `iterate` of the adjacency table, getters, sharded maps, severity labels, type conversions: too easy to add value.
- The swap computation of a pool, HTTP handlers, configuration, logging, RPC, subscriptions and transaction building.
