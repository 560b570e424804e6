# Delivery route optimiser — a verified model

This project models the route engine of a delivery planner. A courier starts
at an origin (location 0) and must visit `n - 1` delivery stops, each carrying
a perishable or a non-perishable item. Every stop is visited once. Given a
distance matrix, the engine proceeds as follows:

- It ranks candidate routes by a score: total distance plus a lateness
  penalty of 5 per position of delay for each perishable stop.
- For up to eight locations, it searches all orderings.
- For more locations, it builds three seed routes and keeps the best scoring
  one:
  - a priority-aware greedy route;
  - a "perishables first, each group by distance from the origin" route;
  - a plain nearest-neighbour route refined by 2-opt.
- For more than three locations, it applies a final first-improvement 2-opt
  pass. That pass judges raw distance only, so the route returned can score
  worse than the route the search chose (`Optimizer.FinalPassCanRaiseScore`).
- A separate analyser reports diagnostics of a finished route.

Modules, one per concern:

- `Routes` (routes.dfy): item kinds, the distance matrix, index ranges, and
  what a route is. A route is a permutation of `0..n-1` (stated as multiset
  equality) that starts at 0.
- `Scoring` (scoring.dfy): route distance and the priority score.
- `TwoOpt` (two_opt.dfy): the 2-opt refiner. `Refine` specifies it: a
  first-improvement scan with a full restart after each adopted reversal. The
  imperative double loop is proved equal to `Refine`.
- `Seeds` (seeds.dfy): both nearest-neighbour greedies, as imperative loops
  over a set of unvisited stops, and the grouped seed.
- `Exhaustive` (exhaustive.dfy): orderings in `itertools.permutations` order,
  with soundness, completeness and count, and the exhaustive search.
- `Optimizer` (optimizer.dfy): strategy dispatch, best of seeds, and the
  final refinement.
- `Analysis` (analysis.dfy): the route-quality diagnostics.

Distances are non-negative integers in one common unit. The constants 5, 10
and 15 are in that unit.

## Model

| member | source | states |
|---|---|---|
| Scoring.RouteDistance | app.py:22-27 | the loop's total is the sum of the matrix entries between consecutive stops (`Distance`) |
| Scoring.DistanceAppend | app.py:25-26 | extending a route by one stop adds exactly the one new leg |
| Scoring.RouteScore | app.py:29-41 | the score is the distance plus `(i - 1) * 5` for each perishable stop at position `i >= 1`; it is never below the distance |
| Scoring.PenaltyIgnoresOrigin | app.py:35-39 | the penalty depends only on the kinds at positions 1 onward; the origin never contributes |
| Scoring.NoPerishableScoreIsDistance | app.py:35-41 | without perishable stops after the origin, the score equals the distance |
| Scoring.PriorityPressure | app.py:35-39 | moving a perishable stop forward from position `b` to `a`, exchanged with a non-perishable one, lowers the penalty by exactly `5 * (b - a)`; at equal distance the swapped route scores strictly lower |
| TwoOpt.Rev | app.py:55 | reversal keeps the length and the multiset of stops |
| TwoOpt.RevAt | app.py:55 | element `k` of the reversal is element `len - 1 - k` of the original |
| TwoOpt.ReverseSegment | app.py:54-55 | positions `i..j` hold the segment reversed and every other position is unchanged |
| TwoOpt.ReverseSegmentPermutes | app.py:54-55 | reversing a segment neither adds nor loses stops |
| TwoOpt.ReverseSegmentInBounds | app.py:54-55 | reversing a segment keeps every index inside the matrix |
| TwoOpt.ScanFromSome | app.py:51-63 | a pair reported by the scan improves the distance, has `1 <= i < j < len`, and lies at or after the scan's start in `(i, j)` order |
| TwoOpt.ScanFromNone | app.py:51-65 | a scan that reports nothing passed over no improving reversal |
| TwoOpt.RefineCorrect | app.py:43-68 | refinement keeps length, stops and the origin, never lengthens the route, ends at a 2-opt local optimum, and leaves a local optimum unchanged |
| TwoOpt.RefineIdempotent | app.py:43-68 | refining a refined route changes nothing |
| TwoOpt.RefineKeepsRoute | app.py:43-68 | the refinement of a route is a route |
| TwoOpt.FirstImprovingReversal | app.py:51-65 | one pass of the double loop: it reports improvement exactly when an improving pair exists; it then returns the first such pair's reversal in `(i, j)` scan order, with its strictly smaller distance; otherwise the route is unchanged |
| TwoOpt.TwoOptImprovement | app.py:43-68 | the result is `Refine(route)`: no longer than the input and locally optimal |
| Seeds.StepKeepsStops | app.py:109-110 | appending the chosen stop and removing it from the unvisited set keeps route plus unvisited equal to all stops |
| Seeds.StartState | app.py:77-79 | the start state (route `[0]`, unvisited `1..n-1`) accounts for every stop exactly once |
| Seeds.PickByPriority | app.py:85-107 | the stop picked is unvisited and minimises the adjusted cost: `-10` times the pending perishables for a perishable stop, `+15` for a non-perishable one while perishables are pending |
| Seeds.ExtendPriorityGreedy | app.py:109-111 | appending a least-cost stop keeps every earlier choice a least-cost choice |
| Seeds.NearestNeighborWithPriority | app.py:70-113 | `n <= 1` gives `range(n)`; otherwise the result is a route in which every stop had the least adjusted cost among the stops unvisited when it was chosen |
| Seeds.Nearest | app.py:189 | the stop picked is unvisited and nearest to the current one |
| Seeds.ExtendNearestGreedy | app.py:189-192 | appending a nearest stop keeps every earlier choice a nearest choice |
| Seeds.NearestNeighborBasic | app.py:178-194 | `n <= 1` gives `range(n)`; otherwise the result is a route in which every stop was nearest to its predecessor among the stops still unvisited |
| Seeds.OfKind | app.py:147-148 | the filter holds exactly the stops of the given kind |
| Seeds.OfKindIncreasing | app.py:147-148 | filtering an ascending list keeps it ascending |
| Seeds.SplitByKind | app.py:147-148 | when no stop has the origin kind, the perishable and non-perishable lists together are all the stops |
| Seeds.InsertByOrigin | app.py:151-153 | insertion adds exactly the one stop |
| Seeds.SortByOrigin | app.py:151-153 | sorting keeps the multiset of stops |
| Seeds.InsertKeepsOrder | app.py:151-153 | inserting a stop smaller than all others into a list ordered by (distance from origin, index) keeps it ordered |
| Seeds.SortOrders | app.py:151-153 | the stable sort of an ascending list orders it by distance from the origin, ties by index |
| Seeds.GroupFacts | app.py:147-153 | each group holds exactly the stops of its kind, ordered by (distance from origin, index) |
| Seeds.GroupedSeedIsRoute | app.py:147-155 | when every stop after the origin is perishable or non-perishable, the grouped seed is a route |
| Seeds.GroupedSeedOrder | app.py:147-155 | the grouped seed starts at 0 and lists exactly the non-origin-kind stops; every perishable comes before every non-perishable, and each group is ordered by (distance from origin, index) |
| Exhaustive.RemoveMultiset | app.py:127 | removing the element at `k` removes exactly one occurrence of it |
| Exhaustive.PermsSound | app.py:127 | every enumerated ordering holds exactly the input's elements |
| Exhaustive.PermsFromSound | app.py:127 | the same, for the orderings whose first element comes from position `k` or later |
| Exhaustive.PermsFromReaches | app.py:127 | an ordering beginning with `s[k]` is enumerated from every earlier position on |
| Exhaustive.PermsComplete | app.py:127 | every rearrangement of the input is enumerated |
| Exhaustive.PermsCount | app.py:127 | a list of length `k` has `k!` orderings |
| Exhaustive.PermsFromCount | app.py:127 | `(len - k) * (len - 1)!` orderings start from position `k` or later |
| Exhaustive.PermsOfThree | app.py:127 | three elements are enumerated in `itertools.permutations` order: `abc, acb, bac, bca, cab, cba` |
| Exhaustive.CandidateIsRoute | app.py:127-128 | `[0] + perm` is a route for every enumerated `perm` |
| Exhaustive.RouteIsCandidate | app.py:127-128 | every route is `[0] + perm` for some enumerated `perm` |
| Exhaustive.BestOverAllRoutes | app.py:125-132 | a score no candidate beats is a score no route beats |
| Exhaustive.ExhaustiveSearch | app.py:125-132 | the result is a route whose score no route beats; it is the first candidate in enumeration order with that score |
| Optimizer.BestOfSeeds | app.py:136-169 | the seeds are a priority-greedy route, the grouped seed, and the 2-opt refinement of a nearest-neighbour route; the first seed with the strictly lowest score is kept; it is a route when every non-origin stop is perishable or non-perishable |
| Optimizer.OptimizeDeliveryRoute | app.py:115-176 | `n <= 1` gives `range(n)` and `n == 2` gives `[0, 1]`; for `2 <= n <= 8` the strategy's route has the least score over all routes and is the first such ordering in `itertools.permutations` order, so ties are broken as the strict `<` breaks them; for `n > 8` it is the first best seed; for `n > 3` the result is its 2-opt refinement, no longer and locally optimal; the result is a route, for `n > 8` provided every stop after the origin is perishable or non-perishable |
| Optimizer.SplitLeastScore | app.py:125-132 | in a four-location instance (origin near stop 3 only, stops 1-2-3 one apart, stop 1 perishable), `[0, 1, 2, 3]` is the one route of least score, 12, so the exhaustive branch must choose it |
| Optimizer.SplitRefine | app.py:172-173 | in that instance the final 2-opt pass turns `[0, 1, 2, 3]` into `[0, 3, 2, 1]` |
| Optimizer.FinalPassCanRaiseScore | app.py:172-173 | the strategy ranks by score and the final pass by distance: in that instance the chosen route (distance 12, score 12) is refined into one of distance 3 but score 13 |
| Routes.Iota | app.py:74 | `range(lo, hi)` has `hi - lo` elements, element `k` being `lo + k` |
| Routes.IotaCount | app.py:78 | `range(lo, hi)` holds each of `lo..hi-1` exactly once and nothing else |
| Routes.IotaMember | app.py:78 | membership in `range(lo, hi)` |
| Routes.IotaAsSet | app.py:78 | `set(range(lo, hi))` loses no element of the list |
| Routes.PermutationInBounds | app.py:115-176 | a permutation of `0..n-1` has length `n` and only indices below `n` |
| Routes.RouteSplit | app.py:128 | a sequence starting at 0 is a route exactly when its tail is a permutation of `1..n-1` |
| Routes.TwoStopRoute | app.py:125-132 | the only route over two locations is `[0, 1]` |
| Analysis.PositionsFromFacts | app.py:201-204 | the positions listed from `i` on are exactly the perishable, non-origin positions at or after `i`, in increasing order |
| Analysis.PerishablePositionsFacts | app.py:201-204 | the listed positions are exactly the positions holding a perishable stop other than index 0, strictly increasing |
| Analysis.CountAtMost | app.py:213 | the early count never exceeds the number of positions |
| Analysis.CountAtMostIsPrefix | app.py:213 | the early positions are exactly the first `count` listed positions |
| Analysis.AverageInRange | app.py:207 | on a route starting at 0 with a perishable stop, the average position lies in `[1, len - 1]` |
| Analysis.PenaltyFromPositions | app.py:35-39 | from position `i >= 1`, the penalty plus 5 per listed position equals 5 times their sum |
| Analysis.DistinctInRoute | app.py:203 | a route visits index 0 only at position 0 |
| Analysis.ScoreFromPositions | app.py:29-41 | a route's score plus 5 per perishable position equals its total distance plus 5 times the sum of those positions, i.e. each position `p` adds `5 * (p - 1)` |
| Analysis.AnalyzeRouteQuality | app.py:196-214 | the analyser returns the route's distance and its perishable positions (one enumerating pass); the average is their mean, or 0 if there are none; the early count is the number of positions at most `len // 2` |

## Left out

- The web layer is not modelled: the Flask request handler, geocoding, the
  OpenRouteService matrix request, the folium map and all `print` output.
  The model starts from the number of locations, the item kinds and the
  distance matrix.
- `coords` reaches the core only through its length, so the operations take
  `n`.
- Floating point is not modelled. Distances are non-negative integers in one
  unit, and the constants 5.0, 10.0 and 15.0 are the integers 5, 10 and 15.
  The analyser's mean is an exact `real`.
- An item `type` is one of three kinds. A type string other than
  `'perishable'`, `'non-perishable'` or the origin's `'current'` behaves like
  `Current`, and the model has no separate value for it.
- The initial infinite best score becomes a "nothing chosen yet" flag. The
  first candidate always replaces it.
- Seeds.PickByPriority: the contract names some stop of least adjusted cost,
  not which one. Python breaks ties by set iteration order, which the model
  leaves open.
- Seeds.Nearest: the contract names some nearest stop, not which one, for the
  same reason (`min` over a set).
- Seeds.SortByOrigin is an insertion sort, not Timsort. The results are equal
  because a stable sort of an ascending list has one possible result, the one
  `SortOrders` states.
- Optimizer.OptimizeDeliveryRoute: for more than eight locations, the result
  is proved a route only when every stop after the origin is perishable or
  non-perishable. Otherwise the grouped seed omits those stops and can still
  be chosen.
