/**
 * The legs of a planned route, their totals, and the validation the app runs over
 * them (too-long walking legs, legs touching a NaN coordinate).
 */
module Segments {
  import opened Numbers
  import opened Text
  import opened Types

  /** Average speed in km/h assumed for each transport mode. */
  function SpeedKmPerHour(mode: TransportMode): (r: real)
    ensures r > 0.0
    ensures mode == Walking ==> r == 5.0
    ensures mode == Cycling ==> r == 15.0
    ensures mode == Driving ==> r == 40.0
  {
    match mode
    case Walking => 5.0
    case Cycling => 15.0
    case Driving => 40.0
  }

  /** `(distanceKm / speedKmPerHour) * 60` */
  function TravelTimeMinutes(distanceKm: Number, speed: real): (r: Number)
    requires speed > 0.0
    ensures r.Finite? <==> distanceKm.Finite?
    ensures r.Finite? ==> r.value * speed == distanceKm.value * 60.0
  {
    if distanceKm.Finite? then Finite(distanceKm.value / speed * 60.0) else NaN
  }

  /** The leg from one milestone to the next as the route builder records it. */
  function SegmentBetween(from: Milestone, to: Milestone, mode: TransportMode, dist: Distance): RouteSegment
  {
    var d := dist(from.coordinates, to.coordinates);
    RouteSegment(from, to, d, TravelTimeMinutes(d, SpeedKmPerHour(mode)))
  }

  ghost predicate IndicesIn(order: seq<nat>, points: seq<Milestone>)
  {
    forall p | 0 <= p < |order| :: order[p] < |points|
  }

  /** One leg per pair of consecutive indices of `order`. */
  ghost function SegmentsOf(order: seq<nat>, points: seq<Milestone>, mode: TransportMode, dist: Distance): seq<RouteSegment>
    requires IndicesIn(order, points)
  {
    if |order| < 2 then
      []
    else
      seq(|order| - 1, i requires 0 <= i < |order| - 1 =>
        SegmentBetween(points[order[i]], points[order[i + 1]], mode, dist))
  }

  method BuildSegmentsFromOrder(order: seq<nat>, points: seq<Milestone>, mode: TransportMode, dist: Distance)
    returns (segments: seq<RouteSegment>)
    requires IndicesIn(order, points)
    ensures segments == SegmentsOf(order, points, mode, dist)
    ensures |segments| == if |order| == 0 then 0 else |order| - 1
    ensures forall i | 0 <= i < |segments| ::
      segments[i].from == points[order[i]] && segments[i].to == points[order[i + 1]]
    ensures forall i | 0 <= i < |segments| - 1 :: segments[i].to == segments[i + 1].from
  {
    segments := [];
    var speed := SpeedKmPerHour(mode);
    var i := 0;
    while i < |order| - 1
      invariant 0 <= i <= if |order| == 0 then 0 else |order| - 1
      invariant |segments| == i
      invariant forall p | 0 <= p < i ::
        segments[p] == SegmentBetween(points[order[p]], points[order[p + 1]], mode, dist)
    {
      var from := points[order[i]];
      var to := points[order[i + 1]];
      var distanceKm := dist(from.coordinates, to.coordinates);
      var travelTimeMinutes := TravelTimeMinutes(distanceKm, speed);
      segments := segments + [RouteSegment(from, to, distanceKm, travelTimeMinutes)];
      i := i + 1;
    }
  }

  /** `segments.reduce((acc, s) => acc + s.distanceKm, 0)` */
  function TotalDistance(segments: seq<RouteSegment>): (r: Number)
    ensures r.Finite? <==> forall i | 0 <= i < |segments| :: segments[i].distanceKm.Finite?
    ensures (forall i | 0 <= i < |segments| :: segments[i].distanceKm.Finite? && segments[i].distanceKm.value >= 0.0)
      ==> r.value >= 0.0
  {
    if segments == [] then Finite(0.0)
    else Plus(TotalDistance(segments[..|segments| - 1]), segments[|segments| - 1].distanceKm)
  }

  /** `segments.reduce((acc, s) => acc + s.travelTimeMinutes, 0)` */
  function TotalTravelTime(segments: seq<RouteSegment>): (r: Number)
    ensures r.Finite? <==> forall i | 0 <= i < |segments| :: segments[i].travelTimeMinutes.Finite?
    ensures (forall i | 0 <= i < |segments| ::
      segments[i].travelTimeMinutes.Finite? && segments[i].travelTimeMinutes.value >= 0.0) ==> r.value >= 0.0
  {
    if segments == [] then Finite(0.0)
    else Plus(TotalTravelTime(segments[..|segments| - 1]), segments[|segments| - 1].travelTimeMinutes)
  }

  /** `milestones.reduce((acc, m) => acc + m.estimatedDuration, 0)` */
  function TotalVisitTime(milestones: seq<Milestone>): (r: int)
    ensures (forall i | 0 <= i < |milestones| :: milestones[i].estimatedDuration >= 0) ==>
      r >= 0 && forall i | 0 <= i < |milestones| :: milestones[i].estimatedDuration <= r
  {
    if milestones == [] then 0
    else TotalVisitTime(milestones[..|milestones| - 1]) + milestones[|milestones| - 1].estimatedDuration
  }

  /** The travel time of a route is its length driven at the mode's speed: finite exactly
      when the length is, and then length / speed * 60 minutes. */
  lemma {:induction false} TravelTimeFromDistance(segments: seq<RouteSegment>, mode: TransportMode)
    requires forall i | 0 <= i < |segments| ::
      segments[i].travelTimeMinutes == TravelTimeMinutes(segments[i].distanceKm, SpeedKmPerHour(mode))
    ensures TotalTravelTime(segments).Finite? <==> TotalDistance(segments).Finite?
    ensures TotalTravelTime(segments).Finite? ==>
      TotalTravelTime(segments).value * SpeedKmPerHour(mode) == TotalDistance(segments).value * 60.0
  {
    if segments != [] {
      TravelTimeFromDistance(segments[..|segments| - 1], mode);
    }
  }

  /** Every leg of the route really has the mode's travel time. */
  lemma SegmentsOfTravelTimes(order: seq<nat>, points: seq<Milestone>, mode: TransportMode, dist: Distance)
    requires IndicesIn(order, points)
    ensures var s := SegmentsOf(order, points, mode, dist);
      forall i | 0 <= i < |s| :: s[i].travelTimeMinutes == TravelTimeMinutes(s[i].distanceKm, SpeedKmPerHour(mode))
  {
  }

  /** The walking limit of one leg, in km. */
  const MaxWalkingLegKm: real := 10.0

  predicate TooLongForWalking(seg: RouteSegment)
  {
    Above(seg.distanceKm, MaxWalkingLegKm)
  }

  /** The message for one leg over the walking limit. */
  function TooLongReason(seg: RouteSegment): (r: string)
    requires TooLongForWalking(seg)
    ensures |r| > 14 + |seg.from.name| && r[..14 + |seg.from.name|] == "Segment from \"" + seg.from.name
    ensures var mid := "\" to \"" + seg.to.name + "\" is too long for walking (";
      |r| >= 14 + |seg.from.name| + |mid| && r[14 + |seg.from.name|..14 + |seg.from.name| + |mid|] == mid
    ensures var d := ToFixed1(seg.distanceKm.value);
      |r| == 14 + |seg.from.name| + 33 + |seg.to.name| + |d| + 5 && r[|r| - 5 - |d|..|r| - 5] == d
    ensures r[|r| - 5..] == " km)."
    ensures r != InvalidCoordinatesReason
  {
    "Segment from \"" + seg.from.name + "\" to \"" + seg.to.name + "\" is too long for walking ("
      + ToFixed1(seg.distanceKm.value) + " km)."
  }

  const InvalidCoordinatesReason: string := "Invalid coordinates detected in route."

  /** A leg with a NaN latitude or longitude at either end. */
  predicate TouchesNaN(seg: RouteSegment)
  {
    HasNaN(seg.from.coordinates) || HasNaN(seg.to.coordinates)
  }

  /** One message per leg over the walking limit, in route order. */
  function TooLongReasons(segments: seq<RouteSegment>): (r: seq<string>)
    ensures |r| <= |segments|
    ensures r == [] <==> forall i | 0 <= i < |segments| :: !TooLongForWalking(segments[i])
    ensures forall p | 0 <= p < |r| :: r[p] != InvalidCoordinatesReason
  {
    if segments == [] then []
    else
      var last := segments[|segments| - 1];
      TooLongReasons(segments[..|segments| - 1])
        + if TooLongForWalking(last) then [TooLongReason(last)] else []
  }

  /** What `validateRouteWalkable` returns: the walking messages (walking mode only),
      then a single coordinate message if any leg touches a NaN coordinate. */
  function ValidationOf(segments: seq<RouteSegment>, mode: TransportMode): RouteValidationResult
  {
    var walking := if mode == Walking then TooLongReasons(segments) else [];
    var coordinates := if exists i | 0 <= i < |segments| :: TouchesNaN(segments[i])
      then [InvalidCoordinatesReason] else [];
    RouteValidationResult(walking + coordinates == [], walking + coordinates)
  }

  /** A route is valid exactly when it has no reasons, exactly when (in walking mode) no
      leg is over the limit and no leg touches a NaN coordinate; the coordinate message
      appears at most once and exactly when such a leg exists. */
  lemma ValidationMeaning(segments: seq<RouteSegment>, mode: TransportMode)
    ensures var r := ValidationOf(segments, mode);
      && (r.valid <==> r.reasons == [])
      && (r.valid <==>
            (mode == Walking ==> forall i | 0 <= i < |segments| :: !TooLongForWalking(segments[i]))
            && (forall i | 0 <= i < |segments| :: !TouchesNaN(segments[i])))
      && (InvalidCoordinatesReason in r.reasons <==> exists i | 0 <= i < |segments| :: TouchesNaN(segments[i]))
      && multiset(r.reasons)[InvalidCoordinatesReason] <= 1
      && (mode != Walking ==> |r.reasons| <= 1)
  {
    var walking := if mode == Walking then TooLongReasons(segments) else [];
    assert InvalidCoordinatesReason !in walking;
    assert multiset(walking)[InvalidCoordinatesReason] == 0;
  }

  method ValidateRouteWalkable(segments: seq<RouteSegment>, mode: TransportMode) returns (r: RouteValidationResult)
    ensures r == ValidationOf(segments, mode)
  {
    var reasons: seq<string> := [];
    var valid := true;
    if mode == Walking {
      var i := 0;
      while i < |segments|
        invariant 0 <= i <= |segments|
        invariant reasons == TooLongReasons(segments[..i])
        invariant valid <==> reasons == []
      {
        var seg := segments[i];
        if Above(seg.distanceKm, MaxWalkingLegKm) {
          valid := false;
          reasons := reasons + [TooLongReason(seg)];
        }
        assert segments[..i + 1][..i] == segments[..i];
        i := i + 1;
      }
      assert segments[..i] == segments;
    }
    var walking := reasons;
    var j := 0;
    while j < |segments|
      invariant 0 <= j <= |segments|
      invariant forall p | 0 <= p < j :: !TouchesNaN(segments[p])
      invariant reasons == walking && (valid <==> reasons == [])
    {
      var seg := segments[j];
      if IsNaN(seg.from.coordinates.latitude) || IsNaN(seg.from.coordinates.longitude)
        || IsNaN(seg.to.coordinates.latitude) || IsNaN(seg.to.coordinates.longitude)
      {
        valid := false;
        reasons := reasons + [InvalidCoordinatesReason];
        break;
      }
      j := j + 1;
    }
    r := RouteValidationResult(valid, reasons);
  }

  /** The library's `validateRouteAccesible`: only the coordinate check. It gives what the
      app's validator gives in driving mode. */
  method ValidateRouteAccessible(segments: seq<RouteSegment>) returns (r: RouteValidationResult)
    ensures r == ValidationOf(segments, Driving)
    ensures r.valid <==> forall i | 0 <= i < |segments| :: !TouchesNaN(segments[i])
  {
    var reasons: seq<string> := [];
    var valid := true;
    var j := 0;
    while j < |segments|
      invariant 0 <= j <= |segments|
      invariant forall p | 0 <= p < j :: !TouchesNaN(segments[p])
    {
      var seg := segments[j];
      if IsNaN(seg.from.coordinates.latitude) || IsNaN(seg.from.coordinates.longitude)
        || IsNaN(seg.to.coordinates.latitude) || IsNaN(seg.to.coordinates.longitude)
      {
        valid := false;
        reasons := reasons + [InvalidCoordinatesReason];
        break;
      }
      j := j + 1;
    }
    r := RouteValidationResult(valid, reasons);
    ValidationMeaning(segments, Driving);
  }
}
