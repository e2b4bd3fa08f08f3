/**
 * `buildTimeline`: the minute, counted from the start of the trip, at which each
 * milestone of a planned route is reached.
 */
module Schedule {
  import opened Numbers
  import opened Types
  import opened Segments
  import opened Tour
  import opened Route

  datatype TimelineEntry = TimelineEntry(milestone: Milestone, arrivalMinutes: Number)

  /** The running total after milestone i: its stay, then the leg that leaves it if there is one. */
  function AfterStop(cumulative: Number, milestones: seq<Milestone>, segments: seq<RouteSegment>, i: nat): Number
    requires i < |milestones|
  {
    var stayed := Plus(cumulative, Finite(milestones[i].estimatedDuration as real));
    if i < |segments| then Plus(stayed, segments[i].travelTimeMinutes) else stayed
  }

  /** The arrival minute at milestone i: all stays and legs before it. */
  function ArrivalAt(milestones: seq<Milestone>, segments: seq<RouteSegment>, i: nat): Number
    requires i <= |milestones|
  {
    if i == 0 then Finite(0.0) else AfterStop(ArrivalAt(milestones, segments, i - 1), milestones, segments, i - 1)
  }

  method BuildTimeline(milestones: seq<Milestone>, segments: seq<RouteSegment>) returns (entries: seq<TimelineEntry>)
    ensures |entries| == |milestones|
    ensures forall i | 0 <= i < |entries| ::
      entries[i] == TimelineEntry(milestones[i], ArrivalAt(milestones, segments, i))
  {
    entries := [];
    var cumulative := Finite(0.0);
    for i := 0 to |milestones|
      invariant |entries| == i
      invariant cumulative == ArrivalAt(milestones, segments, i)
      invariant forall p | 0 <= p < i :: entries[p] == TimelineEntry(milestones[p], ArrivalAt(milestones, segments, p))
    {
      entries := entries + [TimelineEntry(milestones[i], cumulative)];
      cumulative := Plus(cumulative, Finite(milestones[i].estimatedDuration as real));
      if i < |segments| {
        cumulative := Plus(cumulative, segments[i].travelTimeMinutes);
      }
    }
  }

  function Min(a: nat, b: nat): nat
  {
    if a < b then a else b
  }

  /** The stays of the first i milestones. */
  function StaysBefore(milestones: seq<Milestone>, i: nat): real
    requires i <= |milestones|
  {
    if i == 0 then 0.0 else StaysBefore(milestones, i - 1) + milestones[i - 1].estimatedDuration as real
  }

  /** The travel times of the first k legs, added up from the front. */
  function LegsBefore(segments: seq<RouteSegment>, k: nat): Number
    requires k <= |segments|
  {
    if k == 0 then Finite(0.0) else Plus(LegsBefore(segments, k - 1), segments[k - 1].travelTimeMinutes)
  }

  lemma {:induction false} StaysBeforeAll(milestones: seq<Milestone>)
    ensures StaysBefore(milestones, |milestones|) == TotalVisitTime(milestones) as real
  {
    if milestones != [] {
      var front := milestones[..|milestones| - 1];
      StaysBeforeAll(front);
      StaysBeforePrefix(milestones, front, |front|);
    }
  }

  lemma {:induction false} StaysBeforePrefix(milestones: seq<Milestone>, front: seq<Milestone>, i: nat)
    requires i <= |front| <= |milestones| && front == milestones[..|front|]
    ensures StaysBefore(front, i) == StaysBefore(milestones, i)
  {
    if i > 0 {
      StaysBeforePrefix(milestones, front, i - 1);
    }
  }

  lemma {:induction false} LegsBeforeAll(segments: seq<RouteSegment>)
    ensures LegsBefore(segments, |segments|) == TotalTravelTime(segments)
  {
    if segments != [] {
      var front := segments[..|segments| - 1];
      LegsBeforeAll(front);
      LegsBeforePrefix(segments, front, |front|);
    }
  }

  lemma {:induction false} LegsBeforePrefix(segments: seq<RouteSegment>, front: seq<RouteSegment>, k: nat)
    requires k <= |front| <= |segments| && front == segments[..|front|]
    ensures LegsBefore(front, k) == LegsBefore(segments, k)
  {
    if k > 0 {
      LegsBeforePrefix(segments, front, k - 1);
    }
  }

  /** The arrival at milestone i is the stays of the milestones before it plus the legs
      before it: NaN as soon as one of those legs is. */
  lemma {:induction false} ArrivalClosedForm(milestones: seq<Milestone>, segments: seq<RouteSegment>, i: nat)
    requires i <= |milestones|
    ensures ArrivalAt(milestones, segments, i) ==
      Plus(Finite(StaysBefore(milestones, i)), LegsBefore(segments, Min(i, |segments|)))
  {
    if i == 0 {
      assert LegsBefore(segments, Min(i, |segments|)) == Finite(0.0);
    } else {
      var k := i - 1;
      ArrivalClosedForm(milestones, segments, k);
      ClosedFormStep(milestones, segments, k);
    }
  }

  /** One milestone further: its stay, and the leg that leaves it if there is one, join
      the closed form. */
  lemma ClosedFormStep(milestones: seq<Milestone>, segments: seq<RouteSegment>, k: nat)
    requires k < |milestones|
    requires ArrivalAt(milestones, segments, k) ==
      Plus(Finite(StaysBefore(milestones, k)), LegsBefore(segments, Min(k, |segments|)))
    ensures ArrivalAt(milestones, segments, k + 1) ==
      Plus(Finite(StaysBefore(milestones, k + 1)), LegsBefore(segments, Min(k + 1, |segments|)))
  {
    var stays := StaysBefore(milestones, k);
    var legs := LegsBefore(segments, Min(k, |segments|));
    var stay := milestones[k].estimatedDuration as real;
    PlusShift(stays, legs, stay);
    if k < |segments| {
      PlusRegroup(stays + stay, legs, segments[k].travelTimeMinutes);
    }
  }

  /** With no negative stay and no negative or NaN leg, arrivals never go backwards. */
  lemma {:induction false} ArrivalsNonDecreasing(milestones: seq<Milestone>, segments: seq<RouteSegment>, i: nat, j: nat)
    requires i <= j <= |milestones|
    requires forall p | 0 <= p < |milestones| :: milestones[p].estimatedDuration >= 0
    requires forall p | 0 <= p < |segments| ::
      segments[p].travelTimeMinutes.Finite? && segments[p].travelTimeMinutes.value >= 0.0
    ensures ArrivalAt(milestones, segments, i).Finite? && ArrivalAt(milestones, segments, j).Finite?
    ensures ArrivalAt(milestones, segments, i).value <= ArrivalAt(milestones, segments, j).value
  {
    if i < j {
      ArrivalsNonDecreasing(milestones, segments, i, j - 1);
    } else if j > 0 {
      ArrivalsNonDecreasing(milestones, segments, 0, j - 1);
    }
  }

  /** For a route with one leg fewer than milestones, the last arrival plus the last stay
      is the route's estimated total time (all legs plus all stays). */
  lemma TimelineEndsAtTotalTime(milestones: seq<Milestone>, segments: seq<RouteSegment>)
    requires |milestones| >= 1 && |segments| == |milestones| - 1
    ensures var last := |milestones| - 1;
      Plus(ArrivalAt(milestones, segments, last), Finite(milestones[last].estimatedDuration as real))
        == Plus(TotalTravelTime(segments), Finite(TotalVisitTime(milestones) as real))
  {
    ArrivalClosedForm(milestones, segments, |milestones|);
    StaysBeforeAll(milestones);
    LegsBeforeAll(segments);
  }

  /** The timeline the app draws from a reported route (its renumbered milestones and its
      legs) ends, after the last stay, at the route's `estimatedTotalTime`, provided the
      order visits every milestone. A milestone that nearest neighbour dropped still adds
      its stay to `estimatedTotalTime`, but not to the timeline. */
  lemma PlannedTimelineEndsAtTotalTime(milestones: seq<Milestone>, options: RouteOptions, dist: Distance,
                                       m: Matrix, start: nat, nn: seq<nat>, order: seq<nat>)
    requires IsGreatCircleDistance(dist)
    requires IsPlannedOrder(milestones, options, dist, m, start, nn, order)
    requires |order| == |milestones|
    ensures IndicesIn(order, milestones) && |order| >= 1
    ensures var r := RouteFor(milestones, order, ModeOf(options), dist);
      && |r.milestones| == |milestones| && |r.routeSegments| == |r.milestones| - 1
      && var last := |r.milestones| - 1;
      Plus(ArrivalAt(r.milestones, r.routeSegments, last), Finite(r.milestones[last].estimatedDuration as real))
        == r.estimatedTotalTime
  {
    PlannedOrderLegs(milestones, options, dist, m, start, nn, order);
    var r := RouteFor(milestones, order, ModeOf(options), dist);
    TimelineEndsAtTotalTime(r.milestones, r.routeSegments);
    TotalVisitTimeReordered(milestones, order);
  }
}
