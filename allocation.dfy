/** The route colour allocator as values. `busColors` is an object whose
    keys keep their insertion order; here the order is a sequence of routes
    (`keys`), the colours a map, and the next free colour a number. Walking a
    snapshot extends the key order by every route not seen before, in the
    order met (`Learn`); `Consistent` is the invariant that ties the three
    parts together. */
module Allocation {
  import opened Buses
  import opened RouteOrder

  predicate Distinct(s: seq<Route>)
  {
    forall i, j :: 0 <= i < j < |s| ==> s[i] != s[j]
  }

  /** One allocate-if-absent step, seen on the key order. */
  function Step(keys: seq<Route>, route: Route): seq<Route>
  {
    if route in keys then keys else keys + [route]
  }

  /** The key order after walking `routes` in order from `keys`. */
  function Learn(keys: seq<Route>, routes: seq<Route>): seq<Route>
    decreases |routes|
  {
    if routes == [] then keys
    else Step(Learn(keys, routes[..|routes| - 1]), routes[|routes| - 1])
  }

  /** The first index of `r` in `s`. */
  function Position(s: seq<Route>, r: Route): (p: nat)
    requires r in s
    ensures p < |s| && s[p] == r && r !in s[..p]
  {
    if s[0] == r then 0 else 1 + Position(s[1..], r)
  }

  /** The allocator's invariant: keys are distinct, the route at key position
      i has colour i + 1, nothing else has a colour, and the next free colour
      follows the last one handed out. The counter starts at 1 and the map
      empty, which satisfies it. */
  ghost predicate Consistent(colors: map<Route, nat>, keys: seq<Route>, next: nat)
  {
    && Distinct(keys)
    && next == |keys| + 1
    && (forall r :: r in colors <==> r in keys)
    && (forall i :: 0 <= i < |keys| ==> colors[keys[i]] == i + 1)
  }

  lemma InitialStateConsistent()
    ensures Consistent(map[], [], 1)
  {
  }

  /** Allocating a new route keeps the invariant. */
  lemma ConsistentAllocate(colors: map<Route, nat>, keys: seq<Route>, next: nat, route: Route)
    requires Consistent(colors, keys, next) && route !in colors
    ensures Consistent(colors[route := next], keys + [route], next + 1)
  {
    var keys', colors' := keys + [route], colors[route := next];
    forall i | 0 <= i < |keys'|
      ensures colors'[keys'[i]] == i + 1
    {
      if i < |keys| {
        assert keys'[i] == keys[i] && keys[i] != route;
      }
    }
  }

  lemma LearnAppend(keys: seq<Route>, routes: seq<Route>, route: Route)
    ensures Learn(keys, routes + [route]) == Step(Learn(keys, routes), route)
  {
    assert (routes + [route])[..|routes|] == routes;
  }

  lemma LearnPrefixStep(keys: seq<Route>, routes: seq<Route>, i: nat)
    requires i < |routes|
    ensures Learn(keys, routes[..i + 1]) == Step(Learn(keys, routes[..i]), routes[i])
  {
    assert routes[..i + 1][..i] == routes[..i];
  }

  /** Walking a snapshot only appends to the key order, and what it appends
      comes from the snapshot. */
  lemma {:induction false} LearnExtends(keys: seq<Route>, routes: seq<Route>)
    ensures |keys| <= |Learn(keys, routes)|
    ensures Learn(keys, routes)[..|keys|] == keys
    ensures forall i :: |keys| <= i < |Learn(keys, routes)| ==> Learn(keys, routes)[i] in routes
    decreases |routes|
  {
    if routes != [] {
      var init := routes[..|routes| - 1];
      LearnExtends(keys, init);
      assert forall r :: r in init ==> r in routes;
    }
  }

  /** After a walk, the keys are exactly the old keys and the routes seen. */
  lemma {:induction false} LearnMembers(keys: seq<Route>, routes: seq<Route>)
    ensures forall r :: r in Learn(keys, routes) <==> r in keys || r in routes
    decreases |routes|
  {
    if routes != [] {
      var init := routes[..|routes| - 1];
      LearnMembers(keys, init);
      assert routes == init + [routes[|routes| - 1]];
    }
  }

  lemma {:induction false} LearnDistinct(keys: seq<Route>, routes: seq<Route>)
    requires Distinct(keys)
    ensures Distinct(Learn(keys, routes))
    decreases |routes|
  {
    if routes != [] {
      LearnDistinct(keys, routes[..|routes| - 1]);
    }
  }

  /** A snapshot whose routes are all known changes nothing. */
  lemma {:induction false} LearnKnown(keys: seq<Route>, routes: seq<Route>)
    requires forall r :: r in routes ==> r in keys
    ensures Learn(keys, routes) == keys
    decreases |routes|
  {
    if routes != [] {
      var init := routes[..|routes| - 1];
      assert forall r :: r in init ==> r in routes;
      LearnKnown(keys, init);
    }
  }

  /** Walking the same snapshot twice is the same as walking it once. */
  lemma LearnIdempotent(keys: seq<Route>, routes: seq<Route>)
    ensures Learn(Learn(keys, routes), routes) == Learn(keys, routes)
  {
    LearnMembers(keys, routes);
    LearnKnown(Learn(keys, routes), routes);
  }

  /** Walking two snapshots in turn is walking their concatenation. */
  lemma {:induction false} LearnConcat(keys: seq<Route>, a: seq<Route>, b: seq<Route>)
    ensures Learn(keys, a + b) == Learn(Learn(keys, a), b)
    decreases |b|
  {
    if b == [] {
      assert a + b == a;
    } else {
      LearnConcat(keys, a, b[..|b| - 1]);
      assert (a + b)[..|a + b| - 1] == a + b[..|b| - 1];
    }
  }

  lemma {:induction false} DistinctCardinality(s: seq<Route>)
    requires Distinct(s)
    ensures |set r | r in s| == |s|
    decreases |s|
  {
    if s != [] {
      var init := s[..|s| - 1];
      DistinctCardinality(init);
      assert (set r | r in s) == (set r | r in init) + {s[|s| - 1]};
    }
  }

  /** From distinct keys, the walk ends with one key per distinct route
      among the old keys and the snapshot. */
  lemma LearnCount(keys: seq<Route>, routes: seq<Route>)
    requires Distinct(keys)
    ensures |Learn(keys, routes)| == |(set r | r in keys) + (set r | r in routes)|
  {
    var l := Learn(keys, routes);
    LearnDistinct(keys, routes);
    LearnMembers(keys, routes);
    DistinctCardinality(l);
    assert (set r | r in l) == (set r | r in keys) + (set r | r in routes);
  }

  /** When the snapshot ascends, the routes it adds to the key order ascend
      strictly. */
  lemma {:induction false} LearnAscending(keys: seq<Route>, routes: seq<Route>)
    requires Ascending(routes)
    ensures forall i, j :: |keys| <= i < j < |Learn(keys, routes)| ==> Less(Learn(keys, routes)[i], Learn(keys, routes)[j])
    decreases |routes|
  {
    if routes != [] {
      var init, r := routes[..|routes| - 1], routes[|routes| - 1];
      LearnAscending(keys, init);
      var l := Learn(keys, init);
      if r !in l {
        LearnExtends(keys, init);
        forall i | |keys| <= i < |l|
          ensures Less(l[i], r)
        {
          var k :| 0 <= k < |init| && init[k] == l[i];
          assert !Less(routes[|routes| - 1], routes[k]);
          LessTrichotomy(l[i], r);
        }
      }
    }
  }

  /** A route first met at position j of a snapshot and unknown before gets
      a later key position than every route met before it. */
  lemma LearnFirstSeen(keys: seq<Route>, routes: seq<Route>, i: nat, j: nat)
    requires i < j < |routes|
    requires routes[j] !in keys && routes[j] !in routes[..j]
    ensures routes[i] in Learn(keys, routes) && routes[j] in Learn(keys, routes)
    ensures Position(Learn(keys, routes), routes[i]) < Position(Learn(keys, routes), routes[j])
  {
    var before, rest := routes[..j], routes[j + 1..];
    assert routes == before + [routes[j]] + rest;
    assert routes[..j + 1] == before + [routes[j]];
    var p := Learn(keys, before);
    LearnMembers(keys, before);
    assert routes[i] == before[i];
    assert Learn(keys, before + [routes[j]]) == p + [routes[j]];
    LearnConcat(keys, before + [routes[j]], rest);
    var l := Learn(keys, routes);
    LearnExtends(p + [routes[j]], rest);
    assert l[..|p| + 1] == p + [routes[j]];
    PositionInPrefix(l, |p| + 1, routes[i]);
    PositionInPrefix(l, |p| + 1, routes[j]);
    assert Position(p + [routes[j]], routes[j]) == |p|;
  }

  lemma PositionInPrefix(s: seq<Route>, n: nat, r: Route)
    requires n <= |s| && r in s[..n]
    ensures r in s && Position(s, r) == Position(s[..n], r)
  {
    var p, q := Position(s, r), Position(s[..n], r);
    assert s[..n][..q] == s[..q];
  }

  /** Under the invariant, the colours handed out are exactly 1 up to the
      counter minus one, no two routes share one, and there is one colour per
      mapped route. */
  lemma ConsistentGapless(colors: map<Route, nat>, keys: seq<Route>, next: nat)
    requires Consistent(colors, keys, next)
    ensures forall c :: c in colors.Values <==> 1 <= c < next
    ensures forall r1, r2 :: r1 in colors && r2 in colors && colors[r1] == colors[r2] ==> r1 == r2
    ensures |colors| == next - 1
  {
    forall c | c in colors.Values
      ensures 1 <= c < next
    {
      var r :| r in colors && colors[r] == c;
      var i :| 0 <= i < |keys| && keys[i] == r;
    }
    forall c | 1 <= c < next
      ensures c in colors.Values
    {
      assert colors[keys[c - 1]] == c;
    }
    forall r1, r2 | r1 in colors && r2 in colors && colors[r1] == colors[r2]
      ensures r1 == r2
    {
      var i :| 0 <= i < |keys| && keys[i] == r1;
      var j :| 0 <= j < |keys| && keys[j] == r2;
    }
    DistinctCardinality(keys);
    assert colors.Keys == set r | r in keys;
  }

  /** Under the invariant a route's colour is one more than its key position. */
  lemma ConsistentColorIsPosition(colors: map<Route, nat>, keys: seq<Route>, next: nat, r: Route)
    requires Consistent(colors, keys, next) && r in colors
    ensures colors[r] == Position(keys, r) + 1
  {
  }

  /** Colours are permanent: a state whose key order extends another keeps
      every colour the other handed out. */
  lemma ConsistentExtensionKeepsColors(
    colors: map<Route, nat>, keys: seq<Route>, next: nat,
    colors': map<Route, nat>, keys': seq<Route>, next': nat)
    requires Consistent(colors, keys, next) && Consistent(colors', keys', next')
    requires |keys| <= |keys'| && keys'[..|keys|] == keys
    ensures forall r :: r in colors ==> r in colors' && colors'[r] == colors[r]
  {
    forall r | r in colors
      ensures r in colors' && colors'[r] == colors[r]
    {
      var i :| 0 <= i < |keys| && keys[i] == r;
      assert keys'[i] == r;
    }
  }

  /** A walk between two states that keep the invariant keeps every colour
      already handed out, and afterwards exactly the old routes and the
      routes walked have one. */
  lemma WalkColors(
    colors0: map<Route, nat>, keys0: seq<Route>, next0: nat,
    colors: map<Route, nat>, keys: seq<Route>, next: nat, routes: seq<Route>)
    requires Consistent(colors0, keys0, next0) && Consistent(colors, keys, next)
    requires keys == Learn(keys0, routes)
    ensures forall r :: r in colors0 ==> r in colors && colors[r] == colors0[r]
    ensures forall r :: r in colors <==> r in colors0 || r in routes
  {
    LearnExtends(keys0, routes);
    LearnMembers(keys0, routes);
    ConsistentExtensionKeepsColors(colors0, keys0, next0, colors, keys, next);
  }

  /** A walk over an ascending snapshot hands the routes it adds ascending
      colours: of two new routes the smaller gets the smaller colour. */
  lemma AscendingWalkColors(
    colors0: map<Route, nat>, keys0: seq<Route>, next0: nat,
    colors: map<Route, nat>, keys: seq<Route>, next: nat, routes: seq<Route>)
    requires Consistent(colors0, keys0, next0) && Consistent(colors, keys, next)
    requires keys == Learn(keys0, routes) && Ascending(routes)
    ensures forall r1, r2 ::
      r1 in colors && r2 in colors && r1 !in colors0 && r2 !in colors0 && Less(r1, r2)
      ==> colors[r1] < colors[r2]
  {
    LearnExtends(keys0, routes);
    LearnAscending(keys0, routes);
    forall r1, r2 | r1 in colors && r2 in colors && r1 !in colors0 && r2 !in colors0 && Less(r1, r2)
      ensures colors[r1] < colors[r2]
    {
      var p1, p2 := Position(keys, r1), Position(keys, r2);
      assert keys[..|keys0|] == keys0;
      assert p1 >= |keys0| && p2 >= |keys0|;
      LessIrreflexive(r1);
      if p2 < p1 {
        assert Less(r2, r1);
        LessAsymmetric(r1, r2);
      }
    }
  }
}
