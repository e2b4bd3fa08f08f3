/**
 * The in-memory list of recently planned trips: newest first, at most twenty,
 * each named by the caller or after its milestones.
 */
module RecentTrips {
  import opened Numbers
  import opened Wrappers
  import opened Types
  import opened Text

  const MaxRecentTrips: nat := 20

  /** A saved trip; `createdAt` is the creation instant in milliseconds. */
  datatype RecentTrip = RecentTrip(
    id: string,
    name: string,
    createdAt: int,
    route: OptimizedRoute,
    totalDistance: Number,
    estimatedTotalTime: Number,
    milestoneCount: nat)

  /** `route.startingPoint?.name || route.milestones[0]?.name || 'Unknown'` */
  function StartName(route: OptimizedRoute): (r: string)
    ensures r != ""
    ensures route.startingPoint.Some? && route.startingPoint.value.name != "" ==> r == route.startingPoint.value.name
  {
    if route.startingPoint.Some? && route.startingPoint.value.name != "" then route.startingPoint.value.name
    else if |route.milestones| > 0 && route.milestones[0].name != "" then route.milestones[0].name
    else "Unknown"
  }

  /** `generateTripName`: a name from the first (and, for two stops, the second)
      milestone and the number of further stops. */
  function GenerateTripName(route: OptimizedRoute): (r: string)
    ensures r != ""
    ensures |route.milestones| == 1 ==> |r| > 8 && r[..8] == "Trip to " && r[8..] == StartName(route)
    ensures |route.milestones| >= 2 ==> |StartName(route)| < |r| && r[..|StartName(route)|] == StartName(route)
  {
    var count := |route.milestones|;
    if count == 0 then "Empty Route"
    else
      var startName := StartName(route);
      if count == 1 then "Trip to " + startName
      else if count == 2 then
        var endName := if route.milestones[1].name != "" then route.milestones[1].name else "Unknown";
        startName + " \U{2192} " + endName
      else startName + " + " + NatToString(count - 1) + " stops"
  }

  /** The generated name says "Empty Route" exactly for a route without milestones. */
  lemma EmptyRouteName(route: OptimizedRoute)
    ensures GenerateTripName(route) == "Empty Route" <==> |route.milestones| == 0
  {
    var r := GenerateTripName(route);
    var count := |route.milestones|;
    if count == 1 {
      assert r[0] == 'T';
    } else if count == 2 {
      var startName := StartName(route);
      assert r[|startName| + 1] == '\U{2192}';
    } else if count >= 3 {
      assert r[|r| - 1] == 's';
    }
  }

  /** Two routes with the same start and at least three milestones get the same
      generated name only when they have as many milestones. */
  lemma TripNameCountsStops(r1: OptimizedRoute, r2: OptimizedRoute)
    requires |r1.milestones| >= 3 && |r2.milestones| >= 3
    requires StartName(r1) == StartName(r2)
    requires GenerateTripName(r1) == GenerateTripName(r2)
    ensures |r1.milestones| == |r2.milestones|
  {
    var prefix := StartName(r1) + " + ";
    var n1 := NatToString(|r1.milestones| - 1);
    var n2 := NatToString(|r2.milestones| - 1);
    var s := GenerateTripName(r1);
    assert s == prefix + n1 + " stops" == prefix + n2 + " stops";
    assert |n1| == |n2|;
    assert n1 == s[|prefix|..|prefix| + |n1|] == n2;
    NatToStringInjective(|r1.milestones| - 1, |r2.milestones| - 1);
  }

  /** The trip `addRecentTrip` records at instant `now` (ms): the given name unless it is
      absent or empty, the generated one otherwise; the id is the instant in decimal. */
  function NewTrip(route: OptimizedRoute, name: Option<string>, now: int): (t: RecentTrip)
    ensures t.name != ""
    ensures name.Some? && name.value != "" ==> t.name == name.value
    ensures t.route == route && t.milestoneCount == |route.milestones|
    ensures t.totalDistance == route.totalDistance && t.estimatedTotalTime == route.estimatedTotalTime
  {
    var tripName := if name.Some? && name.value != "" then name.value else GenerateTripName(route);
    RecentTrip(IntToString(now), tripName, now, route, route.totalDistance, route.estimatedTotalTime, |route.milestones|)
  }

  /** `[trip, ...trips].slice(0, MAX_RECENT_TRIPS)`: the new trip, then the newest of
      the earlier ones, as many as fit under the cap. */
  function PrependCapped(trip: RecentTrip, trips: seq<RecentTrip>): (r: seq<RecentTrip>)
    ensures |r| == if |trips| < MaxRecentTrips then |trips| + 1 else MaxRecentTrips
    ensures r == [trip] + trips[..|r| - 1]
  {
    ([trip] + trips)[..if |trips| + 1 < MaxRecentTrips then |trips| + 1 else MaxRecentTrips]
  }

  /** The new trip comes first and the list never holds more than twenty. No earlier trip
      is lost until twenty are reached; from then on exactly the oldest ones beyond the
      nineteen newest are dropped, so a full list loses exactly its last trip. */
  lemma PrependCappedShape(trip: RecentTrip, trips: seq<RecentTrip>)
    ensures var r := PrependCapped(trip, trips);
      && |r| == (if |trips| < MaxRecentTrips then |trips| + 1 else MaxRecentTrips)
      && |r| <= MaxRecentTrips
      && |r| >= 1 && r[0] == trip
      && r[1..] == trips[..|r| - 1]
      && (|trips| < MaxRecentTrips ==> r == [trip] + trips)
      && (|trips| >= MaxRecentTrips ==> r + trips[MaxRecentTrips - 1..] == [trip] + trips)
      && (|trips| == MaxRecentTrips ==> r + [trips[MaxRecentTrips - 1]] == [trip] + trips)
  {
    var r := PrependCapped(trip, trips);
    assert r[1..] == trips[..|r| - 1];
    if |trips| >= MaxRecentTrips {
      assert trips == trips[..MaxRecentTrips - 1] + trips[MaxRecentTrips - 1..];
    }
  }

  /** `trips.filter(trip => trip.id !== id)` */
  function WithoutId(trips: seq<RecentTrip>, id: string): (r: seq<RecentTrip>)
    ensures |r| <= |trips|
    ensures forall i | 0 <= i < |r| :: r[i].id != id && r[i] in trips
    ensures forall t | t in trips && t.id != id :: t in r
  {
    if trips == [] then []
    else if trips[0].id == id then WithoutId(trips[1..], id)
    else [trips[0]] + WithoutId(trips[1..], id)
  }

  /** Filtering distributes over concatenation, so it keeps the order of the trips. */
  lemma {:induction false} WithoutIdConcat(a: seq<RecentTrip>, b: seq<RecentTrip>, id: string)
    ensures WithoutId(a + b, id) == WithoutId(a, id) + WithoutId(b, id)
  {
    if a == [] {
      assert a + b == b;
    } else {
      assert (a + b)[0] == a[0] && (a + b)[1..] == a[1..] + b;
      WithoutIdConcat(a[1..], b, id);
    }
  }

  /** A list without the id is left alone. */
  lemma {:induction false} WithoutIdUnchanged(trips: seq<RecentTrip>, id: string)
    requires forall i | 0 <= i < |trips| :: trips[i].id != id
    ensures WithoutId(trips, id) == trips
  {
    if trips != [] {
      WithoutIdUnchanged(trips[1..], id);
    }
  }

  /** Removing an id twice is removing it once. */
  lemma WithoutIdIdempotent(trips: seq<RecentTrip>, id: string)
    ensures WithoutId(WithoutId(trips, id), id) == WithoutId(trips, id)
  {
    WithoutIdUnchanged(WithoutId(trips, id), id);
  }

  /** The provider's state: the list of recent trips. */
  class RecentTripsStore {
    var trips: seq<RecentTrip>

    constructor()
      ensures trips == []
    {
      trips := [];
    }

    method AddRecentTrip(route: OptimizedRoute, name: Option<string>, now: int)
      modifies this
      ensures trips == PrependCapped(NewTrip(route, name, now), old(trips))
      ensures |trips| <= MaxRecentTrips && |trips| <= |old(trips)| + 1
      ensures trips[0] == NewTrip(route, name, now) && trips[0].name != ""
    {
      var newTrip := NewTrip(route, name, now);
      var updatedTrips := ([newTrip] + trips)[..if |trips| + 1 < MaxRecentTrips then |trips| + 1 else MaxRecentTrips];
      PrependCappedShape(newTrip, trips);
      trips := updatedTrips;
    }

    method RemoveRecentTrip(id: string)
      modifies this
      ensures trips == WithoutId(old(trips), id)
      ensures |trips| <= |old(trips)|
    {
      trips := WithoutId(trips, id);
    }

    method ClearAllTrips()
      modifies this
      ensures trips == []
    {
      trips := [];
    }
  }
}
