/** The records the position feed delivers, and the vocabulary the other
    modules share. */
module Buses {

  datatype Option<T> = None | Some(value: T)

  /** A route name. Route names are assumed never to be canonical integer
      strings ("0", "17"): a JavaScript object lists such keys first, in
      numeric order, instead of in insertion order. They are also assumed
      never to name a property every object inherits ("constructor",
      "toString", "__proto__", ...): a lookup of such a name is never
      undefined, so the route would never be given a colour. */
  type Route = string

  /** A bus id. Ids are assumed never to name a property every object
      inherits: looked up in the captured `{}` or in any stored array, such
      an id finds a function, so the bus would always be skipped. Ids are
      also assumed never to be the name of an array method ("map", "push",
      "find", ...): such an id finds a function in any stored array, empty
      or not, so under a stored snapshot the bus would always be skipped,
      though it finds nothing in the `{}` captured at mount. The array's own
      key "length" is part of the model (`CapturedKeys`). */
  type BusId = string

  /** One vehicle of a snapshot. A previous coordinate is `None` when the
      field is missing (undefined or null) in the feed's record. */
  datatype Bus = Bus(
    id: BusId,
    route: Route,
    lastLatitude: real,
    lastLongitude: real,
    previousLatitude: Option<real>,
    previousLongitude: Option<real>)

  /** The routes of a snapshot, in snapshot order. */
  function RoutesOf(bs: seq<Bus>): seq<Route>
  {
    seq(|bs|, i requires 0 <= i < |bs| => bs[i].route)
  }

  lemma RoutesOfAppend(bs: seq<Bus>, b: Bus)
    ensures RoutesOf(bs + [b]) == RoutesOf(bs) + [b.route]
  {
  }
}
