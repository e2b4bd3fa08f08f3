# Route planner: route optimisation engine

A trip is a list of milestones, i.e. places to visit. Each milestone has coordinates and a planned stay in minutes. The route optimisation engine puts the milestones into a visiting order and reports that order as an `OptimizedRoute`. The route holds:

- the renumbered milestones;
- one segment (leg) per consecutive pair, with its great-circle distance and travel time;
- the total distance;
- the estimated total time: travel time plus all stays;
- the starting milestone;
- a validation result with human-readable reasons.

The engine plans a route in these steps:

1. It resolves the start:
   - a given start id picks the first milestone with that id, or index 0 when none has it;
   - otherwise it picks the milestone nearest to the user, or index 0.
2. It fills an n×n distance matrix.
3. It builds a greedy nearest-neighbour order from the start.
4. When asked, it refines that order with path 2-opt, which:
   - reverses an inner stretch whenever that shortens the path by more than 1e-9 km;
   - never moves the first or last stop.

Around the engine sit four helpers:

- the timeline, which computes the arrival minute at each milestone;
- the in-memory list of recent trips, newest first and capped at twenty;
- the trip-name generator;
- the two duration formatters of the timeline view.

The engine exists in two copies. The library copy drives at a fixed 40 km/h and only checks coordinates. The model has one engine, `Route.OptimizeRoute`, which takes the transport mode as an option. `Route.OptimizeRouteLib` is that engine run in driving mode, and its contract states what the library copy returns.

How JavaScript behaviour is modelled:

- **Numbers.** A JavaScript number that can be NaN is a `Number`: either `Finite(real)` or `NaN`. NaN absorbs addition, and every comparison with NaN is false.
- **Distance.** The haversine distance is a parameter `dist`. The model assumes only three things about it (`Types.IsGreatCircleDistance`):
  - it is NaN exactly when an endpoint has a NaN coordinate;
  - it is never negative;
  - it is symmetric.

  The first of these is an idealisation: `atan2(√h, √(1−h))` (lib/utils/geo.ts:29) can return NaN for two finite, nearly antipodal points when rounding pushes h just above 1. The result that no leg of a planned route touches NaN rests on this assumption.

**Coordinates with NaN.** The validator's coordinate check suggests that a milestone with a NaN coordinate should yield a route flagged invalid. The model follows what the code does instead. In the code, every distance to such a milestone is NaN, so nearest neighbour never picks it. If the order reaches such a milestone at all, it is the start, and the defensive `bestIdx === -1` break then ends the order there. So no leg of a planned route touches a NaN coordinate. The "Invalid coordinates detected in route." reason therefore never reaches `optimizeRoute`'s result: the milestone is silently dropped instead. `Route.OptimizeRoute` proves exactly this. A dropped milestone's stay still counts in `estimatedTotalTime`, because that total adds the stays of the input list (app/utils/routeOptimization.ts:177). The timeline drawn from the reported milestones then ends before `estimatedTotalTime`. The two agree only when the order visits every milestone (`Schedule.PlannedTimelineEndsAtTotalTime`).

## Model

| member | source | states |
|---|---|---|
| Tour.ComputeDistanceMatrixKm | app/utils/routeOptimization.ts:4-15 | The result is n×n with zeros on the diagonal and symmetric. Above the diagonal each entry is the distance between the two points. It is the same matrix the specification function `MatrixOf` describes. |
| Tour.NearestNeighborOrder | app/utils/routeOptimization.ts:17-37 | The order starts at the start index and holds at most n indices. Each next index is unvisited and at the least finite distance from the previous one; on a tie the lowest index wins. The order is shorter than n only when no unvisited index is at a finite distance (the defensive break). |
| Tour.NearestNeighborOrderDistinct | app/utils/routeOptimization.ts:19-34 | No index appears twice in a nearest-neighbour order. |
| Tour.NearestNeighborVisitsAll | app/utils/routeOptimization.ts:22-35 | When every off-diagonal distance is finite, the break never fires: the order has n entries and contains every index, so it is a permutation of 0..n-1. |
| Tour.NearestChoiceUnique | app/utils/routeOptimization.ts:26-31 | The strict `<` scan leaves exactly one possible next index. |
| Tour.NearestNeighborOrderUnique | app/utils/routeOptimization.ts:17-37 | The matrix and the start index fully determine the order. |
| TwoOpt.Reverse | app/utils/routeOptimization.ts:63 | The result has the same length, and position j holds element n-1-j of the input. |
| TwoOpt.ReverseMultiset | app/utils/routeOptimization.ts:62-64 | Reversing a stretch keeps the same elements. |
| TwoOpt.TwoOptMoveShape | app/utils/routeOptimization.ts:62-64 | An exchange keeps the length, the multiset of stops, and the first and last stop. |
| TwoOpt.TwoOptMoveLegs | app/utils/routeOptimization.ts:55-64 | With a symmetric matrix, an exchange at (i, k) changes only the legs (a,b) and (c,d), which become (a,c) and (b,d). The path's sum changes by exactly the difference `swapped - current` that the code compares. |
| TwoOpt.AcceptedExchange | app/utils/routeOptimization.ts:59-66 | An accepted exchange (`swapped + 1e-9 < current`) keeps the stops. It shortens the finite length of the path by more than epsilon, and the length stays non-negative. |
| TwoOpt.PotentialDrops | app/utils/routeOptimization.ts:61 | A decrease of more than epsilon lowers the termination measure, floor(length / 1e-9). |
| TwoOpt.PathLengthParts | app/utils/routeOptimization.ts:40-46 | The path length (the commented-out `orderDistance`) is NaN exactly when some leg is NaN; otherwise it is the sum of the finite legs. |
| TwoOpt.NoNaNLegs | app/utils/routeOptimization.ts:40-46 | A path has no NaN leg exactly when every consecutive pair has a finite distance. |
| TwoOpt.CostNonNegative | app/utils/routeOptimization.ts:40-46 | With non-negative distances, the finite length of a path is non-negative. |
| TwoOpt.TwoOptMoveJoin | app/utils/routeOptimization.ts:62-64 | The exchange at (i, k) is `best.slice(0, i)`, then `best.slice(i, k + 1).reverse()`, then `best.slice(k + 1)`. |
| TwoOpt.ExchangePair | app/utils/routeOptimization.ts:55-67 | One pair (i, k): the tour becomes `Step(t, i, k)`, the exchanged tour exactly when `swapped + 1e-9 < current` (`Improves`) and the same tour otherwise; `improved` is set exactly on an accepted exchange and otherwise kept. |
| TwoOpt.RowAdvance | app/utils/routeOptimization.ts:54-68 | The rest of the row from pair k goes on from pair k + 1 with the tour pair k left. |
| TwoOpt.RowDone | app/utils/routeOptimization.ts:53-69 | After row i the pass still heads for the same result, and `improved` records whether the pass has met an improving pair; until it has, the tour is still the one the pass started from. |
| TwoOpt.RowFacts | app/utils/routeOptimization.ts:54-68 | The rest of a row keeps the stops and never lengthens the tour; when some pair of it is accepted, it shortens the tour by more than epsilon. |
| TwoOpt.RowUnchanged | app/utils/routeOptimization.ts:54-68 | A row in which no pair is accepted leaves the tour as it is. |
| TwoOpt.PassFacts | app/utils/routeOptimization.ts:53-69 | The rest of a pass keeps the stops and never lengthens the tour; when some pair of it is accepted, it shortens the tour by more than epsilon. |
| TwoOpt.PassKeeps | app/utils/routeOptimization.ts:53-69 | The rest of a pass keeps the stops and never lengthens the tour. |
| TwoOpt.PassShortens | app/utils/routeOptimization.ts:53-69 | The rest of a pass that accepts some pair shortens the tour by more than epsilon. |
| TwoOpt.FirstImprovingRow | app/utils/routeOptimization.ts:53-69 | A pass that accepts something has a first row that does, and the rows before it leave the tour as it is. |
| TwoOpt.PassSkipsRow | app/utils/routeOptimization.ts:53-69 | A row that accepts nothing leaves both the rest of the pass and whether it accepts anything as they are. |
| TwoOpt.ImprovingRowShortensPass | app/utils/routeOptimization.ts:53-69 | A pass whose first row accepts a pair shortens the tour by more than epsilon. |
| TwoOpt.ImprovingRowShortens | app/utils/routeOptimization.ts:54-68 | A row that accepts a pair shortens the tour by more than epsilon. |
| TwoOpt.PassAfterRow | app/utils/routeOptimization.ts:53-69 | The pass from row i ends no longer than the tour row i leaves. |
| TwoOpt.PassNoLonger | app/utils/routeOptimization.ts:53-69 | The rest of a pass never lengthens the tour. |
| TwoOpt.PassSummary | app/utils/routeOptimization.ts:52-69 | A whole pass keeps the stops and never lengthens the tour; on a tour that is not 2-opt optimal it lowers the termination measure, so the `while (improved)` loop ends. |
| TwoOpt.OptimalWhenNoPassImproves | app/utils/routeOptimization.ts:51-70 | A pass accepts some pair exactly when the tour it starts from is not 2-opt optimal, so `improved` stays false exactly on an optimal tour. |
| TwoOpt.RowFindsPair | app/utils/routeOptimization.ts:54-68 | An accepted pair (i, k') makes every row scan that reaches k' accept something. |
| TwoOpt.PassFindsRow | app/utils/routeOptimization.ts:53-69 | A row that accepts something makes every pass that reaches it accept something. |
| TwoOpt.RowImprovingPair | app/utils/routeOptimization.ts:54-68 | A row that accepts something contains a pair whose exchange is accepted on the tour the row started from. |
| TwoOpt.PassImprovingRow | app/utils/routeOptimization.ts:53-69 | A pass that accepts something contains a row that does. |
| TwoOpt.RunFacts | app/utils/routeOptimization.ts:48-72 | The tour 2-opt returns keeps the stops, is no longer than the input, and is 2-opt optimal. |
| TwoOpt.TwoOptRunRefines | app/utils/routeOptimization.ts:48-72 | The tour 2-opt returns is a refinement of its input (`IsTwoOptRefinement`): a reordering with the same ends, no longer, with as many NaN legs, and with no ε-improving pair left. |
| TwoOpt.ExchangeRow | app/utils/routeOptimization.ts:54-68 | One run of the k loop for row i gives exactly `TwoOptRow(t, i, i + 1)`: each pair (i, k) in turn, each accepted exchange applied at once and the scan going on with the changed tour. `improved` becomes true exactly when some pair of the row is accepted (`RowImproves`, the first-improvement order). A row that accepts nothing leaves the tour as it is. |
| TwoOpt.ExchangePass | app/utils/routeOptimization.ts:52-69 | One pass gives exactly `TwoOptPass(t, 1)`: row after row, each on the tour the earlier rows left. It reports an improvement exactly when the tour it started from is not 2-opt optimal, and when it reports none the tour is unchanged. |
| TwoOpt.TwoOpt | app/utils/routeOptimization.ts:48-72 | The loop terminates, and the result is exactly `TwoOptRun(order)`: passes until one accepts nothing, so the tour is fully determined by the input and the matrix. Through `TwoOptRunRefines` the result has the same length and stops, the same first and last stop, no greater finite length, as many NaN legs, and no ε-improving pair left. Tours shorter than 4, and tours already optimal, come back unchanged. A finite path length does not grow. |
| Segments.SpeedKmPerHour | app/utils/routeOptimization.ts:74-85 | The speed is 5 km/h walking, 15 cycling and 40 driving, and always positive. |
| Segments.TravelTimeMinutes | app/utils/routeOptimization.ts:94 | The time is finite exactly when the distance is, and then time × speed = distance × 60. |
| Segments.BuildSegmentsFromOrder | app/utils/routeOptimization.ts:87-98 | The result has order.length - 1 segments (0 for an empty order). Segment i goes from `points[order[i]]` to `points[order[i+1]]`, and consecutive segments link up. It equals the specification function `SegmentsOf`. |
| Segments.SegmentsOfTravelTimes | app/utils/routeOptimization.ts:90-95 | Every segment built carries the travel time of its own distance at the mode's speed. |
| Segments.TravelTimeFromDistance | app/utils/routeOptimization.ts:175-176 | The summed travel time is finite exactly when the summed distance is, and then it is distance / speed × 60. |
| Segments.TotalDistance | app/utils/routeOptimization.ts:175 | The summed distance is finite exactly when every leg's distance is. When every leg is finite and non-negative, so is the sum. |
| Segments.TotalTravelTime | app/utils/routeOptimization.ts:176 | The summed travel time is finite exactly when every leg's time is. When every leg is finite and non-negative, so is the sum. |
| Segments.TotalVisitTime | app/utils/routeOptimization.ts:155 | With no negative stay, the summed stays are non-negative and at least each single stay. |
| Segments.TooLongReason | app/utils/routeOptimization.ts:122 | The walking message is `Segment from "` and the leg's start name, then `" to "` with the leg's end name and `" is too long for walking (`, then the distance as `toFixed(1)` prints it, then ` km).`; its length is the sum of those parts. It is never the coordinate message. |
| Text.ToFixed1 | app/utils/routeOptimization.ts:122 | `toFixed(1)` gives digits, a point and exactly one digit after it. |
| Text.ToFixed1Value | app/utils/routeOptimization.ts:122 | The text of `toFixed(1)` reads back as the nearest tenth: its digits make a whole number of tenths within half a tenth of the value. |
| Segments.TooLongReasons | app/utils/routeOptimization.ts:118-125 | There is at most one message per segment. There are none exactly when no segment is over 10 km. None of them is the coordinate message. |
| Segments.ValidationMeaning | app/utils/routeOptimization.ts:115-139 | `valid` holds exactly when `reasons` is empty, and exactly when (in walking mode) no leg exceeds 10 km and no leg touches a NaN coordinate. The coordinate message appears exactly when such a leg exists, and at most once. Outside walking mode there is at most one reason. |
| Segments.ValidateRouteWalkable | app/utils/routeOptimization.ts:115-139 | The loops return the walking messages, in segment order and in walking mode only, followed by at most one coordinate message; this equals `ValidationOf`. |
| Segments.ValidateRouteAccessible | lib/utils/routeOptimization.ts:101-118 | The library validator returns what the app validator returns in driving mode. It is valid exactly when no segment touches a NaN coordinate. |
| Route.FindIndex | app/utils/routeOptimization.ts:163 | The result is -1 exactly when no milestone has the id. Otherwise it is the first index with that id. |
| Route.SuggestStartingPointIndex | app/utils/routeOptimization.ts:100-113 | The result is 0 without milestones, without a location, or when no distance is finite. Otherwise it is the first index at the least finite distance from the user. |
| Route.SuggestedStartUnique | app/utils/routeOptimization.ts:100-113 | The suggestion is determined: two indices meeting it are equal. |
| Route.ModeOf | app/utils/routeOptimization.ts:161 | A given mode is used as is; an absent mode is driving. |
| Route.ResolvedStartFacts | app/utils/routeOptimization.ts:162-164 | The resolved start (`IsResolvedStart`) is a milestone. With a non-empty id (`HasStartId`) it is the first milestone carrying that id, or index 0 when none does. An absent or empty id falls back to the suggestion from the user's location. |
| Route.ShortRoute | app/utils/routeOptimization.ts:150-158 | The milestones come back unchanged, with no segments. Distance and time agree with the sums over those (no) segments, the time being all the stays. The validation is valid with no reasons, as the validator would give for no segments in any mode. |
| Route.Coordinates | app/utils/routeOptimization.ts:166 | The coordinates come out one per milestone, in order. |
| Route.MatrixFacts | app/utils/routeOptimization.ts:166-167 | For a great-circle distance, the milestones' matrix is square, symmetric and non-negative. Off the diagonal it equals the distance between the milestones. |
| Route.FiniteLeg | app/utils/routeOptimization.ts:87-98 | A finite matrix entry between two different milestones gives a leg that touches no NaN coordinate and has that entry as its distance. |
| Route.LegsOfFinitePath | app/utils/routeOptimization.ts:169-174 | A repeat-free path with finite legs touches no NaN coordinate. Its segment distances are the matrix entries along the path. |
| Route.TotalDistanceIsPathLength | app/utils/routeOptimization.ts:175 | The reported total distance (the `reduce` over segments) is the path length of the order. |
| Route.DistinctByMultiset | app/utils/routeOptimization.ts:170-172 | A reordering of a repeat-free order is repeat-free, so 2-opt output visits each milestone at most once. |
| Route.PlannedOrderLegs | app/utils/routeOptimization.ts:169-172 | The planned order is repeat-free and its legs are finite, with or without 2-opt. With 2-opt, its length is at most the nearest-neighbour length. |
| Route.PlannedOrderVisitsAll | app/utils/routeOptimization.ts:169-172 | Without NaN coordinates, the planned order visits every milestone exactly once. |
| Route.TotalVisitTimeReordered | app/utils/routeOptimization.ts:177-179 | When the order visits every milestone exactly once, the renumbered milestones have the same total stay as the input list. |
| Route.PlannedRouteFacts | app/utils/routeOptimization.ts:174-190 | The reported route of a planned order has these properties. Its distance is the path length, which is finite and non-negative. Its time is finite. No leg touches a NaN coordinate, so the coordinate message is absent. It is valid exactly when, in walking mode, no leg exceeds 10 km. |
| Route.PlanOrder | app/utils/routeOptimization.ts:161-172 | With two or more milestones, the order is planned as described: the resolved start, the matrix, the nearest-neighbour order from the start, and then, when asked, exactly the tour 2-opt makes of it (`TwoOptRun`). |
| Route.ReportRoute | app/utils/routeOptimization.ts:174-190 | The result is `RouteFor` the order: milestone i is the order's i-th milestone renumbered i, and the start is the first of them. Its distance and travel time are the sums over the segments, its time adds all stays, and its validation is that of its segments. |
| Route.OptimizeRoute | app/utils/routeOptimization.ts:141-191 | Fewer than two milestones come back unchanged, with no segments, distance 0, the stays as time, and a valid result. Otherwise the result is `RouteFor` the planned order: the resolved start, nearest neighbour from it and, with `useTwoOpt`, exactly `TwoOptRun` of that order; mode defaults to driving. Start, nearest-neighbour order and 2-opt tour are each determined, so the route is too. In both cases: the distance is the path length, finite and non-negative; with 2-opt it is no longer than nearest neighbour alone; without NaN coordinates every milestone is visited once; the time is finite; no leg touches NaN; validity reduces to the walking limit. |
| Route.OptimizeRouteLib | lib/utils/routeOptimization.ts:120-168 | Same as the app engine in driving mode: fewer than two milestones come back unchanged, otherwise the result is `RouteFor` the planned order (with `useTwoOpt`, exactly the 2-opt tour of the nearest-neighbour order). Every leg is timed at 40 km/h, and the distance is the path length. The validation is always valid with no reasons. |
| Route.DrivingRouteFacts | lib/utils/routeOptimization.ts:73-84 | A driving route whose legs touch no NaN coordinate has every leg timed at 40 km/h, and it passes the coordinate-only validation with no reasons. |
| Schedule.BuildTimeline | app/utils/schedule.ts:8-24 | There is one entry per milestone, in order. Entry i carries milestone i and the arrival `ArrivalAt(i)`: 0 first, then each stay plus the leg after it, if there is one. |
| Schedule.ArrivalClosedForm | app/utils/schedule.ts:14-22 | The arrival at i is the stays before i plus the first min(i, segments) legs. Surplus segments are ignored. |
| Schedule.ArrivalsNonDecreasing | app/utils/schedule.ts:14-22 | With non-negative stays and finite, non-negative legs, arrivals are finite and never decrease. |
| Schedule.TimelineEndsAtTotalTime | app/utils/schedule.ts:14-22 | With one leg fewer than milestones, the last arrival plus the last stay is the travel time of those legs plus the stays of those milestones. |
| Schedule.PlannedTimelineEndsAtTotalTime | app/utils/schedule.ts:14-22 | For a planned order that visits every milestone, the timeline over the reported milestones and segments ends, after the last stay, at the route's `estimatedTotalTime` (app/utils/routeOptimization.ts:187). |
| Schedule.StaysBeforeAll | app/utils/schedule.ts:17 | The stays before the end add up to the engine's visit time. |
| Schedule.LegsBeforeAll | app/utils/schedule.ts:20 | The legs before the end add up to the engine's travel time. |
| RecentTrips.StartName | app/contexts/RecentTripsContext.tsx:58 | The start name is never empty: the starting point's name if non-empty, else the first milestone's, else "Unknown". |
| RecentTrips.GenerateTripName | app/contexts/RecentTripsContext.tsx:55-69 | The name is never empty. A single milestone gives "Trip to " followed by the start name. Two or more milestones give a name that begins with the start name. |
| RecentTrips.EmptyRouteName | app/contexts/RecentTripsContext.tsx:56 | The name is "Empty Route" exactly when the route has no milestones. |
| RecentTrips.TripNameCountsStops | app/contexts/RecentTripsContext.tsx:66-67 | For three or more milestones and the same start, equal names mean equal milestone counts: the count is printed faithfully. |
| RecentTrips.NewTrip | app/contexts/RecentTripsContext.tsx:30-40 | A non-empty given name is kept, otherwise the name is generated and non-empty. The route, its total distance, its estimated total time and its milestone count are copied. |
| RecentTrips.PrependCapped | app/contexts/RecentTripsContext.tsx:42 | The result has one more trip than before, or exactly 20 once the cap is reached. It is the new trip followed by the newest earlier trips in their order. |
| RecentTrips.PrependCappedShape | app/contexts/RecentTripsContext.tsx:42 | The new trip is first, and the list has one trip more than before or exactly 20. The rest are the newest earlier trips in their order. No trip is dropped below the cap; at the cap exactly the oldest trips beyond the nineteen newest are dropped, so a full list loses exactly its last trip. |
| RecentTrips.WithoutId | app/contexts/RecentTripsContext.tsx:47 | No kept trip has the id, every kept trip was in the list, and every trip with another id is kept. |
| RecentTrips.WithoutIdConcat | app/contexts/RecentTripsContext.tsx:47 | Filtering distributes over concatenation, so the kept trips keep their relative order. |
| RecentTrips.WithoutIdUnchanged | app/contexts/RecentTripsContext.tsx:47 | A list without the id comes back unchanged. |
| RecentTrips.WithoutIdIdempotent | app/contexts/RecentTripsContext.tsx:46-49 | Removing an id twice is the same as removing it once. |
| RecentTrips.RecentTripsStore.constructor | app/contexts/RecentTripsContext.tsx:27 | The list starts empty. |
| RecentTrips.RecentTripsStore.AddRecentTrip | app/contexts/RecentTripsContext.tsx:30-44 | The new list is the new trip prepended to the old list and capped at 20. The new trip is first, with a non-empty name. The list never exceeds 20 and grows by at most one. |
| RecentTrips.RecentTripsStore.RemoveRecentTrip | app/contexts/RecentTripsContext.tsx:46-49 | The new list is the old one without the trips that have the id. It is never longer, so the cap is kept. |
| RecentTrips.RecentTripsStore.ClearAllTrips | app/contexts/RecentTripsContext.tsx:51-53 | The list becomes empty. |
| TimelineFormat.FormatStay | app/components/Timeline.tsx:53-57 | The text ends in "h" exactly for 60 and 120 minutes. Otherwise it is the minutes followed by "m". |
| TimelineFormat.FormatStayInjective | app/components/Timeline.tsx:53-57 | Different stays never print the same text. |
| TimelineFormat.Render | app/components/Timeline.tsx:49-50 | The text ends in "m" and contains "h" exactly when the hour figure is positive. |
| TimelineFormat.JsRound | app/components/Timeline.tsx:48 | `Math.round` returns the integer within half of x, rounding halves up. |
| TimelineFormat.JsRemainder60 | app/components/Timeline.tsx:48 | `% 60` lies in [0, 60) for non-negative x and in (-60, 0] for negative x. |
| TimelineFormat.FormatMinutesAsWritten | app/components/Timeline.tsx:46-51 | The text always ends in "m". It shows hours exactly when the total is NaN or at least 60 minutes. |
| TimelineFormat.WholeMinutesAsWritten | app/components/Timeline.tsx:47-50 | For a whole, non-negative number of minutes the written minute figure is below 60, and the written text equals the corrected one. |
| TimelineFormat.ClockAsWrittenOverflows | app/components/Timeline.tsx:46-51 | As written, 119.5 minutes prints "1h 60m" and 59.5 prints "60m". |
| TimelineFormat.ClockAsWrittenOnlyOverflowDiffers | app/components/Timeline.tsx:46-51 | For a non-negative total, the written minute figure is in [0, 60]. Below 60 it agrees with the corrected formatter. At 60 the corrected one carries the hour instead. |
| TimelineFormat.ClockOfSound | app/components/Timeline.tsx:46-51 | Corrected: for a non-negative total the minutes lie in [0, 60) and hours × 60 + minutes is the total rounded to the nearest minute. |
| TimelineFormat.ClockOfRoundsFirst | app/components/Timeline.tsx:46-51 | Corrected: 119.5 minutes prints "2h 0m". |

## Left out

- The haversine formula itself (lib/utils/geo.ts:19-32). The distance is a parameter, constrained only by `Types.IsGreatCircleDistance`. The app's geo module is not part of this model.
- Floating-point rounding. Arithmetic is exact over the reals. Infinite coordinates, and sums large enough to overflow to Infinity, are not modelled; only NaN is.
- The random or clock inputs: `Date.now()` and `new Date()` become one `now` parameter in milliseconds. The source reads the clock twice, so its id and timestamp may differ by a millisecond.
- The React provider: `createContext`, `useState` and `isLoading`, which is constantly false.
- `useTwoOpt` left undefined is modelled as `false`. A `null` or empty `startId` counts as absent.
- `startingPoint` for an empty list is the placeholder `{}` in the source; the model has `None`.
- A stay (`estimatedDuration`) is a whole number of minutes; fractional stays are not modelled.
- Text.ToFixed1: models `toFixed(1)` only for values below 10^21, where JavaScript switches to exponent notation, and for exact reals.
- Route.OptimizeRouteLib: proved by running the app engine in driving mode instead of as a second copy of the code. The library's own `nearestNeighborOrder`, `twoOpt` and `buildSegmentsFromOrder` (lib/utils/routeOptimization.ts:18-84) are identical to the app's apart from the fixed speed.
- Segments.SpeedKmPerHour: the `default: return 5` branch is unreachable, because the mode type has only three values.
- TwoOpt.TwoOpt: requires a symmetric matrix with no negative entry; every distance matrix the engine builds is one (`Route.MatrixFacts`), and the termination proof rests on it.
- TwoOpt.TwoOpt: states that the path length does not grow only when it is finite. When some leg is NaN, it instead states that the finite part does not grow and the NaN-leg count is kept.
- TimelineFormat.JsRemainder60 and TimelineFormat.ClockAsWritten: negative totals keep JavaScript's sign-of-dividend remainder. The corrected `ClockOf` keeps that behaviour for them, since a timeline never produces a negative total.

## Findings

| source | as written | input that shows it | evidently intended | confidence | as-written member | corrected member |
|---|---|---|---|---|---|---|
| app/components/Timeline.tsx:46-51 | Hours are split off before the remaining minutes are rounded, so a remainder from 59.5 up to 60 prints as 60 minutes | 119.5 prints "1h 60m"; 59.5 prints "60m" | Round the total first: "2h 0m" and "1h 0m" | not executed | TimelineFormat.ClockAsWrittenOverflows | TimelineFormat.ClockOfSound |
