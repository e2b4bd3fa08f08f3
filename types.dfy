/**
 * The records the route engine consumes and produces (Milestone, RouteSegment,
 * TransportMode, RouteValidationResult, OptimizedRoute), and the great-circle
 * distance, which the model takes as a parameter instead of computing it.
 */
module Types {
  import opened Numbers
  import opened Wrappers

  datatype Coordinate = Coordinate(latitude: Number, longitude: Number)

  /** `Number.isNaN(latitude) || Number.isNaN(longitude)` */
  predicate HasNaN(c: Coordinate)
  {
    IsNaN(c.latitude) || IsNaN(c.longitude)
  }

  /** A stop of the trip; `estimatedDuration` is the planned stay in whole minutes. */
  datatype Milestone = Milestone(
    id: string,
    name: string,
    address: string,
    coordinates: Coordinate,
    estimatedDuration: int,
    order: int,
    completed: bool)

  /** One leg of the path, from one milestone to the next. */
  datatype RouteSegment = RouteSegment(
    from: Milestone,
    to: Milestone,
    distanceKm: Number,
    travelTimeMinutes: Number)

  datatype TransportMode = Walking | Cycling | Driving

  datatype RouteValidationResult = RouteValidationResult(valid: bool, reasons: seq<string>)

  /** `startingPoint` is None where the source returns the empty placeholder `{}`. */
  datatype OptimizedRoute = OptimizedRoute(
    milestones: seq<Milestone>,
    totalDistance: Number,
    estimatedTotalTime: Number,
    startingPoint: Option<Milestone>,
    routeSegments: seq<RouteSegment>,
    validation: RouteValidationResult)

  /** The great-circle distance in km between two coordinates. */
  type Distance = (Coordinate, Coordinate) -> Number

  /** What the model relies on from the haversine formula: NaN comes out exactly
      when a NaN coordinate goes in, ... */
  ghost predicate NaNExactlyFromNaN(dist: Distance)
  {
    forall a, b :: dist(a, b).NaN? <==> HasNaN(a) || HasNaN(b)
  }

  /** ... a finite distance is never negative, ... */
  ghost predicate NonNegative(dist: Distance)
  {
    forall a, b :: dist(a, b).Finite? ==> dist(a, b).value >= 0.0
  }

  /** ... and the distance does not depend on the direction. */
  ghost predicate Symmetric(dist: Distance)
  {
    forall a, b :: dist(a, b) == dist(b, a)
  }

  ghost predicate IsGreatCircleDistance(dist: Distance)
  {
    NaNExactlyFromNaN(dist) && NonNegative(dist) && Symmetric(dist)
  }
}
