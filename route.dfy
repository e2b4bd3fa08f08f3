/**
 * `optimizeRoute`: pick a starting milestone, order the milestones by nearest
 * neighbour (optionally refined by 2-opt), and report the legs, the totals and the
 * validation of the resulting path.
 */
module Route {
  import opened Numbers
  import opened Wrappers
  import opened Types
  import opened Tour
  import opened TwoOpt
  import opened Segments

  /** `milestones.findIndex(m => m.id === id)` */
  function FindIndex(milestones: seq<Milestone>, id: string): (r: int)
    ensures -1 <= r < |milestones|
    ensures r == -1 <==> forall i | 0 <= i < |milestones| :: milestones[i].id != id
    ensures r >= 0 ==> milestones[r].id == id && forall i | 0 <= i < r :: milestones[i].id != id
  {
    if milestones == [] then -1
    else if milestones[0].id == id then 0
    else
      var rest := FindIndex(milestones[1..], id);
      if rest == -1 then -1 else rest + 1
  }

  /** The distance from the user to milestone i. */
  function DistanceTo(milestones: seq<Milestone>, location: Coordinate, dist: Distance, i: nat): Number
    requires i < |milestones|
  {
    dist(location, milestones[i].coordinates)
  }

  /** The index `suggestStartingPointIndex` settles on: 0 without milestones or without a
      location, otherwise the first milestone at the least finite distance from the user,
      or 0 again when no distance is finite (every `d < bestDist` is false for NaN). */
  ghost predicate IsSuggestedStart(milestones: seq<Milestone>, userLocation: Option<Coordinate>, dist: Distance, idx: nat)
  {
    if |milestones| == 0 || userLocation.None? then idx == 0
    else
      var loc := userLocation.value;
      && idx < |milestones|
      && ((forall i | 0 <= i < |milestones| :: !DistanceTo(milestones, loc, dist, i).Finite?) ==> idx == 0)
      && ((exists i | 0 <= i < |milestones| :: DistanceTo(milestones, loc, dist, i).Finite?) ==>
            && DistanceTo(milestones, loc, dist, idx).Finite?
            && (forall i | 0 <= i < |milestones| && DistanceTo(milestones, loc, dist, i).Finite? ::
                  DistanceTo(milestones, loc, dist, idx).value <= DistanceTo(milestones, loc, dist, i).value)
            && (forall i | 0 <= i < idx && DistanceTo(milestones, loc, dist, i).Finite? ::
                  DistanceTo(milestones, loc, dist, idx).value < DistanceTo(milestones, loc, dist, i).value))
  }

  method SuggestStartingPointIndex(milestones: seq<Milestone>, userLocation: Option<Coordinate>, dist: Distance)
    returns (idx: nat)
    ensures IsSuggestedStart(milestones, userLocation, dist, idx)
  {
    if |milestones| == 0 {
      return 0;
    }
    if userLocation.None? {
      return 0;
    }
    var loc := userLocation.value;
    idx := 0;
    var found := false;
    var bestDist := 0.0;  // stands for +Infinity while nothing is found
    for i := 0 to |milestones|
      invariant idx < |milestones| && (!found ==> idx == 0)
      invariant !found ==> forall p | 0 <= p < i :: !DistanceTo(milestones, loc, dist, p).Finite?
      invariant found ==>
        && idx < i
        && DistanceTo(milestones, loc, dist, idx) == Finite(bestDist)
        && (forall p | 0 <= p < i && DistanceTo(milestones, loc, dist, p).Finite? ::
              bestDist <= DistanceTo(milestones, loc, dist, p).value)
        && (forall p | 0 <= p < idx && DistanceTo(milestones, loc, dist, p).Finite? ::
              bestDist < DistanceTo(milestones, loc, dist, p).value)
    {
      var d := dist(loc, milestones[i].coordinates);
      if d.Finite? && (!found || d.value < bestDist) {
        bestDist := d.value;
        idx := i;
        found := true;
      }
    }
  }

  /** Two indices that both satisfy the suggestion are the same: the choice is determined. */
  lemma SuggestedStartUnique(milestones: seq<Milestone>, userLocation: Option<Coordinate>, dist: Distance, i1: nat, i2: nat)
    requires IsSuggestedStart(milestones, userLocation, dist, i1)
    requires IsSuggestedStart(milestones, userLocation, dist, i2)
    ensures i1 == i2
  {
    if |milestones| > 0 && userLocation.Some? {
      var loc := userLocation.value;
      if exists i | 0 <= i < |milestones| :: DistanceTo(milestones, loc, dist, i).Finite? {
      }
    }
  }

  /** The options `optimizeRoute` accepts; an absent `useTwoOpt` is false. */
  datatype RouteOptions = RouteOptions(
    startId: Option<string>,
    userLocation: Option<Coordinate>,
    useTwoOpt: bool,
    mode: Option<TransportMode>)

  /** `options.mode ?? 'driving'` */
  function ModeOf(options: RouteOptions): (r: TransportMode)
    ensures options.mode.Some? ==> r == options.mode.value
    ensures options.mode.None? ==> r == Driving
  {
    options.mode.GetOr(Driving)
  }

  /** `options.startId` is truthy: present and not the empty string. */
  predicate HasStartId(options: RouteOptions)
  {
    options.startId.Some? && options.startId.value != ""
  }

  /** `Math.max(0, milestones.findIndex(...))` for a given start id, the suggestion otherwise. */
  ghost predicate IsResolvedStart(milestones: seq<Milestone>, options: RouteOptions, dist: Distance, start: nat)
  {
    if HasStartId(options) then
      var found := FindIndex(milestones, options.startId.value);
      start == if found < 0 then 0 else found
    else
      IsSuggestedStart(milestones, options.userLocation, dist, start)
  }

  /** The resolved start is a milestone. A given id picks the first milestone carrying
      it, or the first milestone when none does; an absent or empty id falls back to the
      suggestion from the user's location. */
  lemma ResolvedStartFacts(milestones: seq<Milestone>, options: RouteOptions, dist: Distance, start: nat)
    requires |milestones| >= 1 && IsResolvedStart(milestones, options, dist, start)
    ensures start < |milestones|
    ensures HasStartId(options) && (exists i | 0 <= i < |milestones| :: milestones[i].id == options.startId.value) ==>
      milestones[start].id == options.startId.value &&
      forall i | 0 <= i < start :: milestones[i].id != options.startId.value
    ensures HasStartId(options) && (forall i | 0 <= i < |milestones| :: milestones[i].id != options.startId.value) ==>
      start == 0
    ensures options.startId.None? || options.startId == Some("") ==>
      IsSuggestedStart(milestones, options.userLocation, dist, start)
  {
  }

  /** The route returned for fewer than two milestones: them unchanged, no legs, only
      their stays as time, valid; the start is the `{}` placeholder when there is none. */
  function ShortRoute(milestones: seq<Milestone>): (r: OptimizedRoute)
    requires |milestones| < 2
    ensures r.milestones == milestones && r.routeSegments == []
    ensures r.totalDistance == TotalDistance(r.routeSegments)
    ensures r.estimatedTotalTime == Plus(TotalTravelTime(r.routeSegments), Finite(TotalVisitTime(milestones) as real))
    ensures forall mode :: r.validation == ValidationOf(r.routeSegments, mode)
    ensures r.validation.valid && r.validation.reasons == []
  {
    OptimizedRoute(
      milestones,
      Finite(0.0),
      Finite(TotalVisitTime(milestones) as real),
      if |milestones| == 0 then None else Some(milestones[0]),
      [],
      RouteValidationResult(true, []))
  }

  function Coordinates(milestones: seq<Milestone>): (r: seq<Coordinate>)
    ensures |r| == |milestones|
    ensures forall i | 0 <= i < |r| :: r[i] == milestones[i].coordinates
  {
    seq(|milestones|, i requires 0 <= i < |milestones| => milestones[i].coordinates)
  }

  /** The milestones in route order, each renumbered with its position. */
  ghost function Ordered(milestones: seq<Milestone>, order: seq<nat>): (r: seq<Milestone>)
    requires IndicesIn(order, milestones)
  {
    seq(|order|, i requires 0 <= i < |order| => milestones[order[i]].(order := i))
  }

  /** What `optimizeRoute` reports for a chosen visiting order of at least one index. */
  ghost function RouteFor(milestones: seq<Milestone>, order: seq<nat>, mode: TransportMode, dist: Distance): OptimizedRoute
    requires IndicesIn(order, milestones) && |order| >= 1
  {
    var segments := SegmentsOf(order, milestones, mode, dist);
    var ordered := Ordered(milestones, order);
    OptimizedRoute(
      ordered,
      TotalDistance(segments),
      Plus(TotalTravelTime(segments), Finite(TotalVisitTime(milestones) as real)),
      Some(ordered[0]),
      segments,
      ValidationOf(segments, mode))
  }

  /** How the visiting order comes about: the distance matrix of the milestones, the
      start, the nearest-neighbour order from it, and (when asked) its 2-opt refinement. */
  ghost predicate IsPlannedOrder(milestones: seq<Milestone>, options: RouteOptions, dist: Distance,
                                 m: Matrix, start: nat, nn: seq<nat>, order: seq<nat>)
  {
    && m == MatrixOf(Coordinates(milestones), dist) && IsSquare(m) && |m| == |milestones|
    && IsResolvedStart(milestones, options, dist, start) && start < |milestones|
    && IsNearestNeighborOrder(m, start, nn)
    && InRange(m, nn)
    && (if options.useTwoOpt then SymmetricMatrix(m) && NonNegativeMatrix(m) && order == TwoOptRun(m, nn)
        else order == nn)
  }

  predicate Distinct(s: seq<nat>)
  {
    forall p, q | 0 <= p < q < |s| :: s[p] != s[q]
  }

  lemma {:induction false} DistinctCount(s: seq<nat>, x: nat)
    requires Distinct(s)
    ensures multiset(s)[x] <= 1
  {
    if s != [] {
      DistinctCount(s[1..], x);
      assert s == [s[0]] + s[1..];
      assert s[0] !in s[1..];
    }
  }

  /** A reordering of a sequence without repeats has no repeats. */
  lemma DistinctByMultiset(s: seq<nat>, u: seq<nat>)
    requires multiset(s) == multiset(u) && Distinct(u)
    ensures Distinct(s)
  {
    forall p, q | 0 <= p < q < |s|
      ensures s[p] != s[q]
    {
      if s[p] == s[q] {
        assert s == s[..q] + [s[q]] + s[q + 1..];
        assert s[p] in s[..q];
        assert multiset(s)[s[q]] >= 2;
        DistinctCount(u, s[q]);
        assert false;
      }
    }
  }

  /** What the model needs from the matrix of a great-circle distance: symmetric,
      non-negative, and off the diagonal it is the distance itself. */
  lemma MatrixFacts(milestones: seq<Milestone>, dist: Distance, m: Matrix)
    requires IsGreatCircleDistance(dist) && m == MatrixOf(Coordinates(milestones), dist)
    ensures IsSquare(m) && |m| == |milestones|
    ensures SymmetricMatrix(m) && NonNegativeMatrix(m)
    ensures forall a, b | 0 <= a < |m| && 0 <= b < |m| && a != b ::
      m[a][b] == dist(milestones[a].coordinates, milestones[b].coordinates)
  {
    var p := Coordinates(milestones);
    assert forall a, b | 0 <= a < |m| && 0 <= b < |m| :: m[a][b] == Entry(p, dist, a, b);
    assert forall x, y :: dist(x, y) == dist(y, x);
    assert forall x, y :: dist(x, y).Finite? ==> dist(x, y).value >= 0.0;
  }

  /** A finite off-diagonal matrix entry belongs to a leg between two milestones
      without a NaN coordinate, and that leg's distance is the entry. */
  lemma FiniteLeg(milestones: seq<Milestone>, mode: TransportMode, dist: Distance, m: Matrix, a: nat, b: nat)
    requires IsGreatCircleDistance(dist) && m == MatrixOf(Coordinates(milestones), dist)
    requires a < |milestones| && b < |milestones| && a != b && m[a][b].Finite?
    ensures var seg := SegmentBetween(milestones[a], milestones[b], mode, dist);
      !TouchesNaN(seg) && seg.distanceKm == m[a][b]
  {
    var p := Coordinates(milestones);
    assert m[a][b] == Entry(p, dist, a, b);
    assert dist(p[a], p[b]) == dist(p[b], p[a]);
  }

  /** A path whose legs are all finite passes through no milestone with a NaN coordinate,
      and its legs are the path's segments. */
  lemma LegsOfFinitePath(milestones: seq<Milestone>, mode: TransportMode, dist: Distance, m: Matrix, order: seq<nat>)
    requires IsGreatCircleDistance(dist) && m == MatrixOf(Coordinates(milestones), dist)
    requires InRange(m, order) && Distinct(order)
    requires forall p | 0 <= p < |order| - 1 :: m[order[p]][order[p + 1]].Finite?
    ensures IndicesIn(order, milestones)
    ensures var s := SegmentsOf(order, milestones, mode, dist);
      && (forall i | 0 <= i < |s| :: !TouchesNaN(s[i]))
      && (forall i | 0 <= i < |s| :: s[i].distanceKm == m[order[i]][order[i + 1]])
      && (forall i | 0 <= i < |s| :: s[i].travelTimeMinutes == TravelTimeMinutes(s[i].distanceKm, SpeedKmPerHour(mode)))
  {
    assert |m| == |milestones|;
    var s := SegmentsOf(order, milestones, mode, dist);
    forall i | 0 <= i < |s|
      ensures !TouchesNaN(s[i]) && s[i].distanceKm == m[order[i]][order[i + 1]]
    {
      FiniteLeg(milestones, mode, dist, m, order[i], order[i + 1]);
    }
    SegmentsOfTravelTimes(order, milestones, mode, dist);
  }

  /** The reported total distance is the path length of the order, leg by leg. */
  lemma {:induction false} TotalDistanceIsPathLength(m: Matrix, order: seq<nat>, segments: seq<RouteSegment>)
    requires IsSquare(m) && InRange(m, order)
    requires |segments| == if |order| == 0 then 0 else |order| - 1
    requires forall i | 0 <= i < |segments| :: segments[i].distanceKm == m[order[i]][order[i + 1]]
    ensures TotalDistance(segments) == PathLength(m, order)
  {
    if |order| >= 2 {
      var front := order[..|order| - 1];
      assert forall i | 0 <= i < |front| :: front[i] == order[i];
      TotalDistanceIsPathLength(m, front, segments[..|segments| - 1]);
    }
  }

  /** Every leg of the planned order is finite and the order has no repeats, whether or
      not 2-opt ran. */
  lemma PlannedOrderLegs(milestones: seq<Milestone>, options: RouteOptions, dist: Distance,
                         m: Matrix, start: nat, nn: seq<nat>, order: seq<nat>)
    requires IsGreatCircleDistance(dist)
    requires IsPlannedOrder(milestones, options, dist, m, start, nn, order)
    ensures InRange(m, order) && IndicesIn(order, milestones) && |order| >= 1 && Distinct(order)
    ensures forall p | 0 <= p < |order| - 1 :: m[order[p]][order[p + 1]].Finite?
    ensures PathLength(m, order).Finite?
    ensures options.useTwoOpt ==> PathLength(m, nn).Finite? && PathLength(m, order).value <= PathLength(m, nn).value
  {
    NearestNeighborOrderDistinct(m, start, nn);
    assert forall t | 1 <= t < |nn| :: NearestChoice(m, nn[t - 1], nn[..t], nn[t]);
    assert forall p | 0 <= p < |nn| - 1 :: m[nn[p]][nn[p + 1]].Finite?;
    NoNaNLegs(m, nn);
    PathLengthParts(m, nn);
    if options.useTwoOpt {
      TwoOptRunRefines(m, nn);
      DistinctByMultiset(order, nn);
      NoNaNLegs(m, order);
    }
    PathLengthParts(m, order);
  }

  /** With no NaN coordinate among the milestones the order visits every milestone
      exactly once. */
  lemma PlannedOrderVisitsAll(milestones: seq<Milestone>, options: RouteOptions, dist: Distance,
                              m: Matrix, start: nat, nn: seq<nat>, order: seq<nat>)
    requires IsGreatCircleDistance(dist)
    requires IsPlannedOrder(milestones, options, dist, m, start, nn, order)
    requires forall i | 0 <= i < |milestones| :: !HasNaN(milestones[i].coordinates)
    ensures |order| == |milestones|
    ensures forall k | 0 <= k < |milestones| :: k in order
  {
    MatrixFacts(milestones, dist, m);
    NearestNeighborVisitsAll(m, start, nn);
    if options.useTwoOpt {
      TwoOptRunRefines(m, nn);
      forall k | 0 <= k < |milestones|
        ensures k in order
      {
        assert k in nn;
        assert k in multiset(order);
      }
    }
  }

  /** The stays of the milestones an index sequence picks, added up from the front. */
  ghost function StaysAt(milestones: seq<Milestone>, idx: seq<nat>): int
    requires IndicesIn(idx, milestones)
  {
    if idx == [] then 0 else StaysAt(milestones, idx[..|idx| - 1]) + milestones[idx[|idx| - 1]].estimatedDuration
  }

  /** The indices 0 .. k-1 in increasing order. */
  function Identity(k: nat): (r: seq<nat>)
    ensures |r| == k && forall i | 0 <= i < k :: r[i] == i
  {
    if k == 0 then [] else Identity(k - 1) + [k - 1]
  }

  /** The renumbered milestones of an order have the stays that the order picks. */
  lemma {:induction false} OrderedStays(milestones: seq<Milestone>, order: seq<nat>)
    requires IndicesIn(order, milestones)
    ensures TotalVisitTime(Ordered(milestones, order)) == StaysAt(milestones, order)
  {
    if order != [] {
      var front := order[..|order| - 1];
      OrderedStays(milestones, front);
      assert Ordered(milestones, order)[..|front|] == Ordered(milestones, front);
    }
  }

  /** Picking the first k indices in order adds up the first k stays. */
  lemma {:induction false} PrefixStays(milestones: seq<Milestone>, k: nat)
    requires k <= |milestones|
    ensures IndicesIn(Identity(k), milestones)
    ensures TotalVisitTime(milestones[..k]) == StaysAt(milestones, Identity(k))
  {
    if k > 0 {
      PrefixStays(milestones, k - 1);
      assert milestones[..k][..k - 1] == milestones[..k - 1];
      assert Identity(k)[..k - 1] == Identity(k - 1);
    }
  }

  /** Taking one index out of the sequence takes its stay out of the sum. */
  lemma {:induction false} StaysAtRemove(milestones: seq<Milestone>, b: seq<nat>, j: nat)
    requires IndicesIn(b, milestones) && j < |b|
    ensures IndicesIn(b[..j] + b[j + 1..], milestones)
    ensures StaysAt(milestones, b) == StaysAt(milestones, b[..j] + b[j + 1..]) + milestones[b[j]].estimatedDuration
  {
    var rest := b[..j] + b[j + 1..];
    if j == |b| - 1 {
      assert rest == b[..|b| - 1];
    } else {
      var front := b[..|b| - 1];
      StaysAtRemove(milestones, front, j);
      var frontRest := front[..j] + front[j + 1..];
      assert rest[..|rest| - 1] == frontRest;
      assert rest[|rest| - 1] == b[|b| - 1];
    }
  }

  /** Taking position j out of a repeat-free sequence leaves a repeat-free sequence
      holding every other element. */
  lemma RemoveAt(b: seq<nat>, j: nat)
    requires Distinct(b) && j < |b|
    ensures Distinct(b[..j] + b[j + 1..])
    ensures forall y :: y in b[..j] + b[j + 1..] <==> y in b && y != b[j]
  {
    var rest := b[..j] + b[j + 1..];
    assert forall p | 0 <= p < |rest| :: rest[p] == if p < j then b[p] else b[p + 1];
    forall y | y in b && y != b[j]
      ensures y in rest
    {
      var p :| 0 <= p < |b| && b[p] == y;
      assert rest[if p < j then p else p - 1] == y;
    }
  }

  /** Two repeat-free index sequences with the same elements pick the same stays. */
  lemma {:induction false} StaysAtSameElements(milestones: seq<Milestone>, a: seq<nat>, b: seq<nat>)
    requires IndicesIn(a, milestones) && IndicesIn(b, milestones)
    requires Distinct(a) && Distinct(b) && |a| == |b|
    requires forall x :: x in a <==> x in b
    ensures StaysAt(milestones, a) == StaysAt(milestones, b)
  {
    if a != [] {
      var x := a[|a| - 1];
      var front := a[..|a| - 1];
      assert x in b;
      var j :| 0 <= j < |b| && b[j] == x;
      var rest := b[..j] + b[j + 1..];
      StaysAtRemove(milestones, b, j);
      RemoveAt(b, j);
      RemoveAt(a, |a| - 1);
      assert a[..|a| - 1] + a[|a|..] == front;
      forall y: nat
        ensures y in front <==> y in rest
      {
        assert y in front <==> y in a && y != x;
        assert y in rest <==> y in b && y != x;
      }
      StaysAtSameElements(milestones, front, rest);
    }
  }

  /** A repeat-free order with one entry per milestone visits every milestone. */
  lemma FullOrderVisitsAll(milestones: seq<Milestone>, order: seq<nat>)
    requires IndicesIn(order, milestones) && Distinct(order) && |order| == |milestones|
    ensures forall k | 0 <= k < |milestones| :: k in order
  {
    DistinctElementsSize(order);
    var elems := Elements(order);
    var range := Range(|milestones|);
    assert elems <= range;
    SubsetSize(elems, range);
    assert range - elems == {};
    forall k | 0 <= k < |milestones|
      ensures k in order
    {
      assert k in range;
      assert k in elems;
    }
  }

  /** The identity order holds exactly the indices below k, once each. */
  lemma IdentityElements(k: nat)
    ensures Distinct(Identity(k))
    ensures forall x: nat :: x in Identity(k) <==> x < k
  {
    var id := Identity(k);
    forall x: nat | x < k
      ensures x in id
    {
      assert id[x] == x;
    }
  }

  /** Reordering every milestone keeps the total of the stays. */
  lemma TotalVisitTimeReordered(milestones: seq<Milestone>, order: seq<nat>)
    requires IndicesIn(order, milestones) && Distinct(order) && |order| == |milestones|
    ensures TotalVisitTime(Ordered(milestones, order)) == TotalVisitTime(milestones)
  {
    var n := |milestones|;
    var id := Identity(n);
    FullOrderVisitsAll(milestones, order);
    IdentityElements(n);
    assert forall x :: x in order <==> x in id;
    PrefixStays(milestones, n);
    assert milestones[..n] == milestones;
    OrderedStays(milestones, order);
    StaysAtSameElements(milestones, order, id);
  }

  /** What the reported route of a planned order satisfies: its legs touch no NaN
      coordinate, so the coordinate message never appears and validity is decided by
      the walking limit alone; its distance is the path length of the order, finite and
      not negative (and no longer than the nearest-neighbour path when 2-opt ran); its
      time is finite. */
  lemma PlannedRouteFacts(milestones: seq<Milestone>, options: RouteOptions, dist: Distance,
                          m: Matrix, start: nat, nn: seq<nat>, order: seq<nat>)
    requires IsGreatCircleDistance(dist)
    requires IsPlannedOrder(milestones, options, dist, m, start, nn, order)
    ensures IndicesIn(order, milestones) && |order| >= 1 && Distinct(order) && InRange(m, order)
    ensures var r := RouteFor(milestones, order, ModeOf(options), dist);
      && r.totalDistance == PathLength(m, order)
      && r.totalDistance.Finite? && r.totalDistance.value >= 0.0
      && (options.useTwoOpt ==> PathLength(m, nn).Finite? && r.totalDistance.value <= PathLength(m, nn).value)
      && r.estimatedTotalTime.Finite?
      && (forall i | 0 <= i < |r.routeSegments| :: !TouchesNaN(r.routeSegments[i]))
      && InvalidCoordinatesReason !in r.validation.reasons
      && (r.validation.valid <==>
            ModeOf(options) == Walking ==>
              forall i | 0 <= i < |r.routeSegments| :: !TooLongForWalking(r.routeSegments[i]))
  {
    var mode := ModeOf(options);
    MatrixFacts(milestones, dist, m);
    PlannedOrderLegs(milestones, options, dist, m, start, nn, order);
    LegsOfFinitePath(milestones, mode, dist, m, order);
    var segments := SegmentsOf(order, milestones, mode, dist);
    TotalDistanceIsPathLength(m, order, segments);
    TravelTimeFromDistance(segments, mode);
    CostNonNegative(m, order);
    PathLengthParts(m, order);
    ValidationMeaning(segments, mode);
  }

  method OptimizeRoute(milestones: seq<Milestone>, options: RouteOptions, dist: Distance)
    returns (r: OptimizedRoute, ghost m: Matrix, ghost start: nat, ghost nn: seq<nat>, ghost order: seq<nat>)
    requires IsGreatCircleDistance(dist)
    ensures r.totalDistance.Finite? && r.totalDistance.value >= 0.0
    ensures |milestones| < 2 ==> r == ShortRoute(milestones)
    ensures |milestones| >= 2 ==>
      && IsPlannedOrder(milestones, options, dist, m, start, nn, order)
      && IndicesIn(order, milestones) && |order| >= 1
      && r == RouteFor(milestones, order, ModeOf(options), dist)
    ensures |milestones| >= 2 ==> Distinct(order) && r.totalDistance == PathLength(m, order)
    ensures |milestones| >= 2 && options.useTwoOpt ==>
      PathLength(m, nn).Finite? && r.totalDistance.value <= PathLength(m, nn).value
    ensures |milestones| >= 2 && (forall i | 0 <= i < |milestones| :: !HasNaN(milestones[i].coordinates)) ==>
      |order| == |milestones| && forall k | 0 <= k < |milestones| :: k in order
    ensures r.estimatedTotalTime.Finite?
    ensures forall i | 0 <= i < |r.routeSegments| :: !TouchesNaN(r.routeSegments[i])
    ensures InvalidCoordinatesReason !in r.validation.reasons
    ensures r.validation.valid <==>
      ModeOf(options) == Walking ==> forall i | 0 <= i < |r.routeSegments| :: !TooLongForWalking(r.routeSegments[i])
  {
    if |milestones| < 2 {
      r := ShortRoute(milestones);
      m, start, nn, order := [], 0, [], [];
      return;
    }
    var mode := ModeOf(options);
    var chosen: seq<nat>;
    chosen, m, start, nn := PlanOrder(milestones, options, dist);
    order := chosen;
    PlannedRouteFacts(milestones, options, dist, m, start, nn, order);
    if forall i | 0 <= i < |milestones| :: !HasNaN(milestones[i].coordinates) {
      PlannedOrderVisitsAll(milestones, options, dist, m, start, nn, order);
    }

    r := ReportRoute(milestones, chosen, mode, dist);
  }

  /** The second half of `optimizeRoute`: the legs, the totals, the renumbered
      milestones and the validation of a chosen order. */
  method ReportRoute(milestones: seq<Milestone>, order: seq<nat>, mode: TransportMode, dist: Distance)
    returns (r: OptimizedRoute)
    requires IndicesIn(order, milestones) && |order| >= 1
    ensures r == RouteFor(milestones, order, mode, dist)
  {
    var segments := BuildSegmentsFromOrder(order, milestones, mode, dist);
    var totalDistance := TotalDistance(segments);
    var travelTimeMinutes := TotalTravelTime(segments);
    var visitTimeMinutes := TotalVisitTime(milestones);
    var orderedMilestones := seq(|order|, i requires 0 <= i < |order| => milestones[order[i]].(order := i));
    var validation := ValidateRouteWalkable(segments, mode);
    r := OptimizedRoute(
      orderedMilestones,
      totalDistance,
      Plus(travelTimeMinutes, Finite(visitTimeMinutes as real)),
      Some(orderedMilestones[0]),
      segments,
      validation);
  }

  /** The first half of `optimizeRoute` for two or more milestones: resolve the start,
      build the distance matrix, order by nearest neighbour and refine by 2-opt if asked. */
  method PlanOrder(milestones: seq<Milestone>, options: RouteOptions, dist: Distance)
    returns (order: seq<nat>, ghost m: Matrix, ghost start: nat, ghost nn: seq<nat>)
    requires IsGreatCircleDistance(dist) && |milestones| >= 2
    ensures IsPlannedOrder(milestones, options, dist, m, start, nn, order)
  {
    var startIndex: nat;
    if HasStartId(options) {
      var found := FindIndex(milestones, options.startId.value);
      startIndex := if found < 0 then 0 else found;
    } else {
      startIndex := SuggestStartingPointIndex(milestones, options.userLocation, dist);
    }
    start := startIndex;
    var coords := Coordinates(milestones);
    var distMatrix := ComputeDistanceMatrixKm(coords, dist);
    m := distMatrix;
    MatrixFacts(milestones, dist, m);
    order := NearestNeighborOrder(distMatrix, startIndex);
    nn := order;
    if options.useTwoOpt {
      order := TwoOpt.TwoOpt(order, distMatrix);
    }
  }

  /** A driving route whose legs touch no NaN coordinate times every leg at 40 km/h and
      passes the library's coordinate-only validation. */
  lemma DrivingRouteFacts(milestones: seq<Milestone>, order: seq<nat>, dist: Distance)
    requires IndicesIn(order, milestones) && |order| >= 1
    requires var r := RouteFor(milestones, order, Driving, dist);
      forall i | 0 <= i < |r.routeSegments| :: !TouchesNaN(r.routeSegments[i])
    ensures var r := RouteFor(milestones, order, Driving, dist);
      && r.validation == RouteValidationResult(true, [])
      && forall i | 0 <= i < |r.routeSegments| ::
           r.routeSegments[i].travelTimeMinutes == TravelTimeMinutes(r.routeSegments[i].distanceKm, 40.0)
  {
    SegmentsOfTravelTimes(order, milestones, Driving, dist);
    ValidationMeaning(SegmentsOf(order, milestones, Driving, dist), Driving);
  }

  /** The library's `optimizeRoute`: the same engine with the driving speed and the
      coordinate-only validator, which is what the app engine does in driving mode. */
  method OptimizeRouteLib(milestones: seq<Milestone>, startId: Option<string>, userLocation: Option<Coordinate>,
                          useTwoOpt: bool, dist: Distance)
    returns (r: OptimizedRoute, ghost m: Matrix, ghost start: nat, ghost nn: seq<nat>, ghost order: seq<nat>)
    requires IsGreatCircleDistance(dist)
    ensures r.totalDistance.Finite? && r.totalDistance.value >= 0.0
    ensures |milestones| < 2 ==> r == ShortRoute(milestones)
    ensures |milestones| >= 2 ==>
      && IsPlannedOrder(milestones, RouteOptions(startId, userLocation, useTwoOpt, Some(Driving)), dist, m, start, nn, order)
      && IndicesIn(order, milestones) && |order| >= 1
      && r == RouteFor(milestones, order, Driving, dist)
      && r.totalDistance == PathLength(m, order)
    ensures forall i | 0 <= i < |r.routeSegments| ::
      r.routeSegments[i].travelTimeMinutes == TravelTimeMinutes(r.routeSegments[i].distanceKm, 40.0)
    ensures r.estimatedTotalTime.Finite?
    ensures r.validation == RouteValidationResult(true, [])
  {
    var options := RouteOptions(startId, userLocation, useTwoOpt, Some(Driving));
    r, m, start, nn, order := OptimizeRoute(milestones, options, dist);
    if |milestones| >= 2 {
      DrivingRouteFacts(milestones, order, dist);
    }
  }
}
