/**
 * The records the matcher reads and writes: a trip as stored by the
 * persistence layer (with its route already decoded from the polyline) and
 * one match result.
 */
module Records {
  import opened Geo

  datatype Option<T> = None | Some(value: T)

  /**
   * A stored trip. `route` is the decoded `routePolyline` (empty when the
   * polyline does not decode); `departureMs` is the departure time in
   * milliseconds; `totalDistanceM` is the routed distance, when known.
   */
  datatype Trip = Trip(
    id: string,
    pickup: Point,
    drop: Point,
    departureMs: int,
    route: seq<Point>,
    totalDistanceM: Option<real>)

  /** One entry of the returned match list, with its display roundings applied. */
  datatype MatchResult = MatchResult(
    matchedTripId: string,
    overlapPercentage: real,
    additionalDistanceM: int,
    additionalTimeS: int,
    deviationPercentage: real,
    timeDeltaMinutes: int,
    matchScore: int)
}
