/** What the refresh guard sees, and concrete runs of the component: the
    legends of two refreshes and the colour a moved bus receives under each
    kind of captured collection. */
module Scenarios {
  import opened Buses
  import opened Allocation
  import opened Legends
  import opened Rendering
  import opened Component

  /** Icon names of the first three colours. */
  lemma FirstIcons()
    ensures Icon(1) == "1.ico" && Icon(2) == "2.ico" && Icon(3) == "3.ico"
  {
    assert DigitChar(1) == '1' && DigitChar(2) == '2' && DigitChar(3) == '3';
  }

  /** Entry i of a legend names the i-th key with its colour's icon. */
  lemma LegendEntryAt(keys: seq<Route>, colors: map<Route, nat>, i: nat)
    requires forall r :: r in keys ==> r in colors
    requires i < |keys|
    ensures |Legend(keys, colors)| == |keys|
    ensures Legend(keys, colors)[i] == LegendEntry(keys[i], Icon(colors[keys[i]]))
  {
  }

  lemma LegendOfTwo(colors: map<Route, nat>, keys: seq<Route>, next: nat)
    requires Consistent(colors, keys, next) && keys == ["A", "B"]
    ensures Legend(keys, colors) == [LegendEntry("A", "1.ico"), LegendEntry("B", "2.ico")]
  {
    FirstIcons();
    assert colors[keys[0]] == 1 && colors[keys[1]] == 2;
    LegendEntryAt(keys, colors, 0);
    LegendEntryAt(keys, colors, 1);
  }

  lemma LegendOfThree(colors: map<Route, nat>, keys: seq<Route>, next: nat)
    requires Consistent(colors, keys, next) && keys == ["A", "B", "C"]
    ensures Legend(keys, colors) == [LegendEntry("A", "1.ico"), LegendEntry("B", "2.ico")] + [LegendEntry("C", "3.ico")]
  {
    FirstIcons();
    assert colors[keys[0]] == 1 && colors[keys[1]] == 2 && colors[keys[2]] == 3;
    LegendEntryAt(keys, colors, 0);
    LegendEntryAt(keys, colors, 1);
    LegendEntryAt(keys, colors, 2);
  }

  /** The key orders the two snapshots of the scenario produce; the guard
      set is the `{}` the refresh closure captures at mount. */
  lemma FirstSnapshotWalk(a: Bus, b: Bus)
    requires a.route == "A" && b.route == "B"
    ensures Learn([], GuardedRoutes([a, b], {})) == ["A", "B"]
  {
    assert [a, b][..1] == [a] && [a][..0] == [];
    assert GuardedRoutes([a], {}) == ["A"];
    assert GuardedRoutes([a, b], {}) == ["A", "B"];
    assert ["A", "B"][..1] == ["A"] && ["A"][..0] == [];
    assert Learn([], ["A"]) == ["A"];
    assert "B" !in ["A"];
  }

  lemma SecondSnapshotWalk(a: Bus, b: Bus, d: Bus)
    requires a.route == "A" && b.route == "B" && d.route == "C"
    ensures Learn(["A", "B"], GuardedRoutes([a, b, d], {})) == ["A", "B", "C"]
  {
    assert [a, b, d][..2] == [a, b] && [a, b][..1] == [a] && [a][..0] == [];
    assert GuardedRoutes([a], {}) == ["A"];
    assert GuardedRoutes([a, b], {}) == ["A", "B"];
    assert GuardedRoutes([a, b, d], {}) == ["A", "B"] + ["C"];
    LearnKnown(["A", "B"], ["A", "B"]);
    LearnAppend(["A", "B"], ["A", "B"], "C");
    assert "C" !in ["A", "B"];
  }

  /** The two-snapshot scenario: routes "A" and "B" first, then a bus on "C"
      joins; the first legend is A, B with icons 1 and 2, the second adds C
      with icon 3 and keeps the first two. */
  method TwoSnapshotLegends() returns (first: seq<LegendEntry>, second: seq<LegendEntry>)
    ensures first == [LegendEntry("A", "1.ico"), LegendEntry("B", "2.ico")]
    ensures second == first + [LegendEntry("C", "3.ico")]
  {
    var a := Bus("1", "A", 36.99, -122.06, None, None);
    var b := Bus("2", "B", 36.98, -122.05, None, None);
    var d := Bus("3", "C", 36.97, -122.04, None, None);
    FirstSnapshotWalk(a, b);
    SecondSnapshotWalk(a, b, d);
    var c := new MapComponent();
    c.Refresh([a, b], {});
    assert c.routeKeys == ["A", "B"];
    first := c.legendItems;
    assert first == Legend(c.routeKeys, c.busColors);
    LegendOfTwo(c.busColors, c.routeKeys, c.currentFreeColor);
    c.Refresh([a, b, d], {});
    assert c.routeKeys == ["A", "B", "C"];
    second := c.legendItems;
    assert second == Legend(c.routeKeys, c.busColors);
    LegendOfThree(c.busColors, c.routeKeys, c.currentFreeColor);
  }

  /** The keys of a stored snapshot as the guard sees them. The snapshot is
      an array, so its own truthy keys are the positions "0", "1", ... and,
      when it is not empty, "length"; never the buses' ids. The names of
      array methods, which are truthy in every stored array, empty or not,
      are excluded by the id assumption on `BusId`. */
  function CapturedKeys(stored: seq<Bus>): (keys: set<string>)
    ensures forall i :: 0 <= i < |stored| ==> Decimal(i) in keys
    ensures "length" in keys <==> |stored| > 0
    ensures forall k :: k in keys ==> AllDigits(k) || k == "length"
  {
    (set i | 0 <= i < |stored| :: Decimal(i)) + (if |stored| > 0 then {"length"} else {})
  }

  /** Under the id assumption, a bus whose id is neither a digit string nor
      "length" is never skipped by a guard over a stored snapshot, however
      often it was shown before. */
  lemma OrdinaryIdPassesGuard(bs: seq<Bus>, stored: seq<Bus>)
    ensures forall k :: 0 <= k < |bs| && !AllDigits(bs[k].id) && bs[k].id != "length" ==>
      bs[k] in PassGuard(bs, CapturedKeys(stored))
  {
  }

  /** A bus with id "length" is always skipped once a non-empty snapshot is
      stored, whatever its route. */
  lemma LengthIdSkipped(b: Bus, stored: seq<Bus>)
    requires b.id == "length" && |stored| > 0
    ensures PassGuard([b], CapturedKeys(stored)) == []
  {
    assert [b][..0] == [];
  }

  /** A snapshot of one bus that passes the guard on a route not yet known
      appends that route to the key order. */
  lemma OneBusWalk(keys: seq<Route>, b: Bus)
    requires b.route !in keys
    ensures Learn(keys, GuardedRoutes([b], {})) == keys + [b.route]
  {
    assert [b][..0] == [];
    assert GuardedRoutes([b], {}) == [b.route];
    assert [b.route][..0] == [];
  }

  /** The second route learned holds colour 2. */
  lemma SecondRouteColor(colors: map<Route, nat>, keys: seq<Route>, next: nat)
    requires Consistent(colors, keys, next) && keys == ["A", "B"]
    ensures "B" in colors && colors["B"] == 2
  {
    assert keys[1] == "B";
  }

  /** The key orders of the moved-bus scenario: nothing is captured, so the
      moved bus is walked again and its new route learned. */
  lemma MovedBusWalks(first: Bus, moved: Bus)
    requires first.route == "A" && moved.route == "B"
    ensures Learn([], GuardedRoutes([first], {})) == ["A"]
    ensures Learn(["A"], GuardedRoutes([moved], {})) == ["A", "B"]
  {
    OneBusWalk([], first);
    OneBusWalk(["A"], moved);
  }

  /** With the `{}` captured at mount, a bus shown before that moves to a
      route never seen gets that route a colour, and its marker shows it. */
  method MovedBusIsColored() returns (markers: seq<Marker>)
    ensures |markers| == 1 && markers[0].color == Some(2)
  {
    var first := Bus("7", "A", 36.99, -122.06, None, None);
    var moved := Bus("7", "B", 36.98, -122.05, Some(36.99), Some(-122.06));
    MovedBusWalks(first, moved);
    var c := new MapComponent();
    c.Refresh([first], {});
    assert c.routeKeys == ["A"];
    c.Refresh([moved], {});
    assert c.routeKeys == ["A", "B"];
    SecondRouteColor(c.busColors, c.routeKeys, c.currentFreeColor);
    var stored, colors := c.buses, c.busColors;
    assert stored == [moved] && colors["B"] == 2;
    var noHeading := (p: Point, q: Point) => 0.0;
    MarkerOfBus(stored, colors, noHeading, 0);
    markers := Markers(stored, colors, noHeading);
  }

  /** The key orders of the position-keyed scenario: the stored snapshot
      holds one bus, so the guard's keys are "0" and "length", and a bus
      never shown before whose id is "0" is skipped. */
  lemma PositionKeyWalks(first: Bus, other: Bus)
    requires first.id == "5" && first.route == "A" && other.id == "0"
    ensures CapturedKeys([first]) == {"0", "length"}
    ensures Learn([], GuardedRoutes([first], {})) == ["A"]
    ensures Learn(["A"], GuardedRoutes([other], {"0", "length"})) == ["A"]
  {
    assert Decimal(0) == "0";
    assert forall k :: k in CapturedKeys([first]) ==> k == "0" || k == "length";
    assert [first][..0] == [] && [other][..0] == [];
    assert GuardedRoutes([first], {}) == ["A"];
    assert GuardedRoutes([other], {"0", "length"}) == [];
    assert ["A"][..0] == [];
  }

  /** With a stored one-bus snapshot captured, a bus never shown before whose
      id happens to be "0" is skipped, so its new route gets no colour and
      its marker none. */
  method PositionKeyedGuardSkipsBus() returns (markers: seq<Marker>)
    ensures |markers| == 1 && markers[0].color == None
  {
    var first := Bus("5", "A", 36.99, -122.06, None, None);
    var other := Bus("0", "B", 36.98, -122.05, None, None);
    PositionKeyWalks(first, other);
    var c := new MapComponent();
    c.Refresh([first], {});
    assert c.routeKeys == ["A"] && c.buses == [first];
    var captured := CapturedKeys(c.buses);
    c.Refresh([other], captured);
    assert c.routeKeys == ["A"];
    var stored, colors := c.buses, c.busColors;
    assert stored == [other] && "B" !in colors;
    var noHeading := (p: Point, q: Point) => 0.0;
    MarkerOfBus(stored, colors, noHeading, 0);
    markers := Markers(stored, colors, noHeading);
  }
}
