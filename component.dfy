/** The map component's allocation state and its two passes over a
    snapshot: the initial load, which sorts the snapshot by route first, and
    the periodic refresh, which allocates only for buses whose id does not
    look up a truthy value in the collection the refresh closure captured. */
module Component {
  import opened Buses
  import opened RouteOrder
  import opened Allocation
  import opened Legends
  import opened Rendering

  /** The buses of a snapshot that pass the refresh guard, in order. The
      guard looks the bus's id up in the collection the refresh closure
      captured; `truthyKeys` is the set of keys at which that collection holds
      a truthy value, and a bus passes when its id is not one of them. */
  function PassGuard(bs: seq<Bus>, truthyKeys: set<string>): (r: seq<Bus>)
    ensures |r| <= |bs|
    ensures forall k :: 0 <= k < |r| ==> r[k] in bs && r[k].id !in truthyKeys
    ensures forall k :: 0 <= k < |bs| && bs[k].id !in truthyKeys ==> bs[k] in r
    decreases |bs|
  {
    if bs == [] then []
    else
      var last := bs[|bs| - 1];
      PassGuard(bs[..|bs| - 1], truthyKeys) + (if last.id in truthyKeys then [] else [last])
  }

  /** The routes the refresh walks: those of the buses that pass the guard,
      in snapshot order. */
  function GuardedRoutes(bs: seq<Bus>, truthyKeys: set<string>): seq<Route>
    decreases |bs|
  {
    if bs == [] then []
    else
      var last := bs[|bs| - 1];
      GuardedRoutes(bs[..|bs| - 1], truthyKeys) + (if last.id in truthyKeys then [] else [last.route])
  }

  /** Each bus adds its route to the walk exactly when it passes the guard. */
  lemma GuardedRoutesStep(bs: seq<Bus>, truthyKeys: set<string>, i: nat)
    requires i < |bs|
    ensures bs[i].id in truthyKeys ==> GuardedRoutes(bs[..i + 1], truthyKeys) == GuardedRoutes(bs[..i], truthyKeys)
    ensures bs[i].id !in truthyKeys ==>
      GuardedRoutes(bs[..i + 1], truthyKeys) == GuardedRoutes(bs[..i], truthyKeys) + [bs[i].route]
  {
    assert bs[..i + 1][..i] == bs[..i];
    assert GuardedRoutes(bs[..i], truthyKeys) + [] == GuardedRoutes(bs[..i], truthyKeys);
  }

  /** The walked routes are the routes of the buses that pass the guard. */
  lemma {:induction false} GuardedRoutesOfPassGuard(bs: seq<Bus>, truthyKeys: set<string>)
    ensures GuardedRoutes(bs, truthyKeys) == RoutesOf(PassGuard(bs, truthyKeys))
    decreases |bs|
  {
    if bs != [] {
      var init, last := bs[..|bs| - 1], bs[|bs| - 1];
      GuardedRoutesOfPassGuard(init, truthyKeys);
      if last.id !in truthyKeys {
        RoutesOfAppend(PassGuard(init, truthyKeys), last);
      } else {
        assert PassGuard(bs, truthyKeys) == PassGuard(init, truthyKeys) + [];
      }
    }
  }

  /** Every bus that passes the guard contributes its route to the walk. */
  lemma GuardedRoutesCover(bs: seq<Bus>, truthyKeys: set<string>)
    ensures forall k :: 0 <= k < |bs| && bs[k].id !in truthyKeys ==> bs[k].route in GuardedRoutes(bs, truthyKeys)
  {
    GuardedRoutesOfPassGuard(bs, truthyKeys);
    var u := PassGuard(bs, truthyKeys);
    forall k | 0 <= k < |bs| && bs[k].id !in truthyKeys
      ensures bs[k].route in RoutesOf(u)
    {
      var m :| 0 <= m < |u| && u[m] == bs[k];
      assert RoutesOf(u)[m] == bs[k].route;
    }
  }

  /** What the markers show after a refresh: every bus that passed the guard
      gets its route's colour, and a bus on a route coloured before gets the
      same colour as before. The requires are what `Refresh` ensures about
      the state before and after. */
  lemma RefreshedMarkersColored(
    colors0: map<Route, nat>, keys0: seq<Route>, next0: nat,
    colors: map<Route, nat>, keys: seq<Route>, next: nat,
    busses: seq<Bus>, truthyKeys: set<string>, heading: (Point, Point) -> real)
    requires Consistent(colors0, keys0, next0) && Consistent(colors, keys, next)
    requires keys == Learn(keys0, GuardedRoutes(busses, truthyKeys))
    ensures |Markers(busses, colors, heading)| == |busses|
    ensures forall k :: 0 <= k < |busses| && busses[k].id !in truthyKeys ==>
      busses[k].route in colors && Markers(busses, colors, heading)[k].color == Some(colors[busses[k].route])
    ensures forall k :: 0 <= k < |busses| && busses[k].route in colors0 ==>
      Markers(busses, colors, heading)[k].color == Some(colors0[busses[k].route])
  {
    WalkColors(colors0, keys0, next0, colors, keys, next, GuardedRoutes(busses, truthyKeys));
    GuardedRoutesCover(busses, truthyKeys);
    forall k | 0 <= k < |busses|
      ensures busses[k].route in colors ==> Markers(busses, colors, heading)[k].color == Some(colors[busses[k].route])
    {
      MarkerOfBus(busses, colors, heading, k);
    }
  }

  class MapComponent {
    /** The next colour to hand out. */
    var currentFreeColor: nat
    /** Route to colour. */
    var busColors: map<Route, nat>
    /** The key order of `busColors`: routes in the order they were added. */
    var routeKeys: seq<Route>
    /** The legend last handed to the Legend component. */
    var legendItems: seq<LegendEntry>
    /** The snapshot last stored for rendering. */
    var buses: seq<Bus>

    ghost predicate Valid()
      reads this
    {
      Consistent(busColors, routeKeys, currentFreeColor)
    }

    /** The counter starts at 1, the colour map, legend and snapshot empty. */
    constructor ()
      ensures Valid()
      ensures currentFreeColor == 1 && busColors == map[] && routeKeys == []
      ensures legendItems == [] && buses == []
    {
      currentFreeColor := 1;
      busColors := map[];
      routeKeys := [];
      legendItems := [];
      buses := [];
    }

    /** Gives `route` the next free colour unless it has one already;
        reports whether it did. */
    method Allocate(route: Route) returns (added: bool)
      requires Valid()
      modifies this`currentFreeColor, this`busColors, this`routeKeys
      ensures Valid()
      ensures added <==> route !in old(busColors)
      ensures routeKeys == Step(old(routeKeys), route)
      ensures added ==>
        busColors == old(busColors)[route := old(currentFreeColor)] && currentFreeColor == old(currentFreeColor) + 1
      ensures !added ==> busColors == old(busColors) && currentFreeColor == old(currentFreeColor)
    {
      added := route !in busColors;
      if added {
        ConsistentAllocate(busColors, routeKeys, currentFreeColor, route);
        busColors := busColors[route := currentFreeColor];
        routeKeys := routeKeys + [route];
        currentFreeColor := currentFreeColor + 1;
      }
    }

    /** The initial load: sorts the snapshot by route in place, gives every
        new route the next free colour in that order, rebuilds the legend and
        stores the snapshot. */
    method InitialLoad(busses: array<Bus>)
      requires Valid()
      modifies this, busses
      ensures Valid()
      ensures multiset(busses[..]) == old(multiset(busses[..]))
      ensures Ascending(RoutesOf(busses[..]))
      ensures routeKeys == Learn(old(routeKeys), RoutesOf(busses[..]))
      ensures forall r :: r in old(busColors) ==> r in busColors && busColors[r] == old(busColors)[r]
      ensures forall i :: 0 <= i < busses.Length ==> busses[i].route in busColors
      ensures forall r1, r2 ::
        r1 in busColors && r2 in busColors && r1 !in old(busColors) && r2 !in old(busColors) && Less(r1, r2)
        ==> busColors[r1] < busColors[r2]
      ensures legendItems == Legend(routeKeys, busColors)
      ensures buses == busses[..]
    {
      SortByRoute(busses);
      ghost var keys0, colors0, next0 := routeKeys, busColors, currentFreeColor;
      ghost var sorted := busses[..];
      ghost var routes := RoutesOf(sorted);
      var i := 0;
      while i < busses.Length
        modifies this
        invariant 0 <= i <= busses.Length
        invariant Valid()
        invariant routeKeys == Learn(keys0, routes[..i])
        invariant busses[..] == sorted
      {
        LearnPrefixStep(keys0, routes, i);
        var _ := Allocate(busses[i].route);
        i := i + 1;
      }
      assert routes[..i] == routes;
      WalkColors(colors0, keys0, next0, busColors, routeKeys, currentFreeColor, routes);
      AscendingWalkColors(colors0, keys0, next0, busColors, routeKeys, currentFreeColor, routes);
      forall k | 0 <= k < busses.Length
        ensures busses[k].route in busColors
      {
        assert routes[k] == busses[k].route;
      }
      legendItems := Legend(routeKeys, busColors);
      buses := busses[..];
    }

    /** The refresh callback for one bus: when its id does not look up a
        truthy value in the collection the refresh closure captured
        (`truthyKeys`) and its route has no colour, gives the route the next
        free colour and rebuilds the legend. */
    method RefreshBus(bus: Bus, truthyKeys: set<string>)
      requires Valid()
      modifies this`currentFreeColor, this`busColors, this`routeKeys, this`legendItems
      ensures Valid()
      ensures routeKeys == if bus.id in truthyKeys then old(routeKeys) else Step(old(routeKeys), bus.route)
      ensures |routeKeys| == |old(routeKeys)| ==> busColors == old(busColors)
      ensures legendItems == if |routeKeys| == |old(routeKeys)| then old(legendItems)
                             else Legend(routeKeys, busColors)
    {
      if bus.id !in truthyKeys {
        var added := Allocate(bus.route);
        if added {
          legendItems := Legend(routeKeys, busColors);
        }
      }
    }

    /** The callback of one periodic refresh applied to every bus of the
        snapshot in order. */
    method AllocateGuarded(busses: seq<Bus>, truthyKeys: set<string>)
      requires Valid()
      modifies this`currentFreeColor, this`busColors, this`routeKeys, this`legendItems
      ensures Valid()
      ensures routeKeys == Learn(old(routeKeys), GuardedRoutes(busses, truthyKeys))
      ensures legendItems == if |routeKeys| == |old(routeKeys)| then old(legendItems)
                             else Legend(routeKeys, busColors)
    {
      ghost var keys0 := routeKeys;
      assert busses[..0] == [];
      var i := 0;
      while i < |busses|
        invariant 0 <= i <= |busses|
        invariant Valid()
        invariant routeKeys == Learn(keys0, GuardedRoutes(busses[..i], truthyKeys))
        invariant |keys0| <= |routeKeys|
        invariant legendItems == if |routeKeys| == |keys0| then old(legendItems)
                                 else Legend(routeKeys, busColors)
      {
        var bus := busses[i];
        GuardedRoutesStep(busses, truthyKeys, i);
        if bus.id !in truthyKeys {
          LearnAppend(keys0, GuardedRoutes(busses[..i], truthyKeys), bus.route);
        }
        RefreshBus(bus, truthyKeys);
        i := i + 1;
      }
      assert busses[..i] == busses;
    }

    /** One periodic refresh: runs the callback over the snapshot in order
        and stores the snapshot. `truthyKeys` is the set of keys at which the
        collection captured by the refresh closure holds a truthy value:
        empty for the `{}` captured at mount, `CapturedKeys` of a stored
        snapshot otherwise. */
    method Refresh(busses: seq<Bus>, truthyKeys: set<string>)
      requires Valid()
      modifies this
      ensures Valid()
      ensures routeKeys == Learn(old(routeKeys), GuardedRoutes(busses, truthyKeys))
      ensures forall r :: r in old(busColors) ==> r in busColors && busColors[r] == old(busColors)[r]
      ensures forall k :: 0 <= k < |busses| && busses[k].id !in truthyKeys ==> busses[k].route in busColors
      ensures legendItems == if |routeKeys| == |old(routeKeys)| then old(legendItems)
                             else Legend(routeKeys, busColors)
      ensures buses == busses
    {
      ghost var keys0, colors0, next0 := routeKeys, busColors, currentFreeColor;
      AllocateGuarded(busses, truthyKeys);
      WalkColors(colors0, keys0, next0, busColors, routeKeys, currentFreeColor, GuardedRoutes(busses, truthyKeys));
      GuardedRoutesCover(busses, truthyKeys);
      buses := busses;
    }
  }
}
