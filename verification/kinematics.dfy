/**
  The recorded route and the speed derived between two consecutive samples.

  A sample's ISO-8601 timestamp is taken already converted to milliseconds
  since the epoch, and the haversine great-circle distance is left abstract:
  any function that never returns a negative number of kilometres.
*/
module Kinematics {

  /** One recorded sample of the vehicle's position. */
  datatype RoutePoint = RoutePoint(latitude: real, longitude: real, timestamp: int)

  /** The route in playback order; the tracker never re-sorts it. */
  type Route = seq<RoutePoint>

  /** Distance in kilometres between two samples, abstracted to its sign. */
  type Distance = f: (RoutePoint, RoutePoint) -> real | forall p, q :: f(p, q) >= 0.0
    witness (p: RoutePoint, q: RoutePoint) => 0.0

  const MillisPerSecond: real := 1000.0
  const SecondsPerHour: real := 3600.0

  /** Hours from `previous` to `current`; negative when the samples are out of order. */
  function HoursBetween(previous: RoutePoint, current: RoutePoint): (hours: real)
    ensures hours * MillisPerSecond * SecondsPerHour == (current.timestamp - previous.timestamp) as real
    ensures hours > 0.0 <==> previous.timestamp < current.timestamp
  {
    (current.timestamp - previous.timestamp) as real / MillisPerSecond / SecondsPerHour
  }

  /** Index `i` names a sample that has a predecessor in the route. */
  predicate HasLeg(route: Route, i: int)
  {
    0 < i < |route|
  }

  /** The leg ending at `i` exists and moves strictly forward in time. */
  predicate SpeedDefined(route: Route, i: int)
  {
    HasLeg(route, i) && route[i - 1].timestamp < route[i].timestamp
  }

  /**
    Speed in km/h over the leg that ends at sample `i`. Zero at the first
    sample, for an index outside the route, and for a leg whose time
    difference is not positive.
  */
  function CalculateSpeed(route: Route, distance: Distance, i: int): (speed: real)
    ensures speed >= 0.0
    ensures !SpeedDefined(route, i) ==> speed == 0.0
    ensures SpeedDefined(route, i) ==>
      speed * HoursBetween(route[i - 1], route[i]) == distance(route[i - 1], route[i])
  {
    if i == 0 || !(0 <= i < |route|) || !(0 <= i - 1 < |route|) then 0.0
    else
      var current := route[i];
      var previous := route[i - 1];
      var d := distance(previous, current);
      var timeDiff := HoursBetween(previous, current);
      if timeDiff > 0.0 then d / timeDiff else 0.0
  }

  /** The speed is zero exactly when there is no forward leg or the vehicle did not move. */
  lemma SpeedZeroIff(route: Route, distance: Distance, i: int)
    ensures CalculateSpeed(route, distance, i) == 0.0 <==>
      !SpeedDefined(route, i) || distance(route[i - 1], route[i]) == 0.0
  {
  }

  /** Two samples with the same timestamp give speed zero instead of a division by zero. */
  lemma ZeroDeltaSpeed(route: Route, distance: Distance, i: int)
    requires HasLeg(route, i)
    requires route[i - 1].timestamp >= route[i].timestamp
    ensures CalculateSpeed(route, distance, i) == 0.0
  {
  }

  /** Speed of a leg depends only on the two samples that bound it. */
  lemma SpeedIsLocal(route: Route, other: Route, distance: Distance, i: int)
    requires HasLeg(route, i) && HasLeg(other, i)
    requires route[i - 1] == other[i - 1] && route[i] == other[i]
    ensures CalculateSpeed(route, distance, i) == CalculateSpeed(other, distance, i)
  {
  }
}
