/** What each bus's map marker receives: its colour, its position and the
    heading computed from its current point and a reference point. The
    bearing arithmetic itself is a parameter `heading` of the renderer. */
module Rendering {
  import opened Buses

  datatype Point = Point(lat: real, lon: real)

  /** The props of one marker; a colour of `None` is `undefined`. */
  datatype Marker = Marker(key: nat, color: Option<nat>, lat: real, lng: real, heading: real)

  /** JavaScript truthiness of a coordinate field: a missing field and the
      number 0 are both falsy. */
  predicate Truthy(c: Option<real>)
  {
    c.Some? && c.value != 0.0
  }

  /** One coordinate of the reference point: the previous value when it is
      truthy, the current one otherwise. */
  function ReferenceCoordinate(previous: Option<real>, current: real): real
  {
    if Truthy(previous) then previous.value else current
  }

  /** The fallback an explicit "absent" variant would give, where a present
      zero is a coordinate like any other. */
  function ExplicitReferenceCoordinate(previous: Option<real>, current: real): real
  {
    match previous
    case None => current
    case Some(v) => v
  }

  function CurrentPoint(b: Bus): Point
  {
    Point(b.lastLatitude, b.lastLongitude)
  }

  /** The point handed to the heading function as the bus's earlier
      position; latitude and longitude fall back independently. */
  function ReferencePoint(b: Bus): Point
  {
    Point(ReferenceCoordinate(b.previousLatitude, b.lastLatitude),
          ReferenceCoordinate(b.previousLongitude, b.lastLongitude))
  }

  /** The truthiness test departs from an explicit-absence test exactly when
      a previous coordinate is present and zero while the current one is not. */
  lemma ReferenceDiffersOnlyOnZero(previous: Option<real>, current: real)
    ensures ReferenceCoordinate(previous, current) != ExplicitReferenceCoordinate(previous, current)
        <==> previous == Some(0.0) && current != 0.0
  {
  }

  /** With no usable previous coordinates the reference is the current point. */
  lemma ReferenceWithoutHistory(b: Bus)
    requires !Truthy(b.previousLatitude) && !Truthy(b.previousLongitude)
    ensures ReferencePoint(b) == CurrentPoint(b)
  {
  }

  /** Each reference coordinate depends only on its own pair of fields. */
  lemma ReferenceCoordinatesIndependent(b: Bus, b': Bus)
    ensures b.previousLatitude == b'.previousLatitude && b.lastLatitude == b'.lastLatitude
        ==> ReferencePoint(b).lat == ReferencePoint(b').lat
    ensures b.previousLongitude == b'.previousLongitude && b.lastLongitude == b'.lastLongitude
        ==> ReferencePoint(b).lon == ReferencePoint(b').lon
  {
  }

  /** `busColors.current[bus.route]`: the route's colour, or undefined. */
  function ColorOf(colors: map<Route, nat>, route: Route): Option<nat>
  {
    if route in colors then Some(colors[route]) else None
  }

  /** The markers rendered for the stored snapshot, keyed by array index. */
  function Markers(bs: seq<Bus>, colors: map<Route, nat>, heading: (Point, Point) -> real): seq<Marker>
  {
    seq(|bs|, i requires 0 <= i < |bs| =>
      Marker(i, ColorOf(colors, bs[i].route), bs[i].lastLatitude, bs[i].lastLongitude,
             heading(CurrentPoint(bs[i]), ReferencePoint(bs[i]))))
  }

  /** One marker per bus, placed at the bus's current point, coloured with
      its route's colour exactly when the route has one, and turned by the
      heading from the reference point. */
  lemma MarkerOfBus(bs: seq<Bus>, colors: map<Route, nat>, heading: (Point, Point) -> real, i: nat)
    requires i < |bs|
    ensures |Markers(bs, colors, heading)| == |bs|
    ensures Markers(bs, colors, heading)[i].color.Some? <==> bs[i].route in colors
    ensures bs[i].route in colors ==> Markers(bs, colors, heading)[i].color == Some(colors[bs[i].route])
    ensures Markers(bs, colors, heading)[i].lat == bs[i].lastLatitude
    ensures Markers(bs, colors, heading)[i].lng == bs[i].lastLongitude
    ensures Markers(bs, colors, heading)[i].heading == heading(CurrentPoint(bs[i]), ReferencePoint(bs[i]))
  {
    var m := Markers(bs, colors, heading)[i];
    assert m.color == ColorOf(colors, bs[i].route);
  }

  /** A bus with no usable previous coordinates is turned by the heading from
      its own current point to itself. */
  lemma FreshBusHeading(bs: seq<Bus>, colors: map<Route, nat>, heading: (Point, Point) -> real, i: nat)
    requires i < |bs|
    requires !Truthy(bs[i].previousLatitude) && !Truthy(bs[i].previousLongitude)
    ensures Markers(bs, colors, heading)[i].heading == heading(CurrentPoint(bs[i]), CurrentPoint(bs[i]))
  {
    ReferenceWithoutHistory(bs[i]);
  }
}
