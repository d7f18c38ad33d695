/** The order in which the initial load sorts a snapshot: JavaScript's `<`
    on route strings, the three-way comparator built from it, and the
    in-place sort that uses the comparator. */
module RouteOrder {
  import opened Buses

  /** `a < b` on two JavaScript strings: the first differing character
      decides, and a proper prefix comes first. */
  predicate Less(a: string, b: string)
    decreases |a|
  {
    if |a| == 0 then |b| != 0
    else if |b| == 0 then false
    else if a[0] != b[0] then a[0] < b[0]
    else Less(a[1..], b[1..])
  }

  /** The comparator handed to `busses.sort` on the initial load. */
  function CompareRoutes(a: Route, b: Route): int
  {
    if Less(a, b) then -1
    else if Less(b, a) then 1
    else 0
  }

  /** Every later route is not smaller than any earlier one. */
  predicate Ascending(rs: seq<Route>)
  {
    forall i, j :: 0 <= i < j < |rs| ==> !Less(rs[j], rs[i])
  }

  lemma {:induction false} LessIrreflexive(a: string)
    ensures !Less(a, a)
  {
    if |a| > 0 {
      LessIrreflexive(a[1..]);
    }
  }

  lemma {:induction false} LessTransitive(a: string, b: string, c: string)
    requires Less(a, b) && Less(b, c)
    ensures Less(a, c)
    decreases |a|
  {
    if |a| > 0 && a[0] == b[0] && b[0] == c[0] {
      LessTransitive(a[1..], b[1..], c[1..]);
    }
  }

  lemma LessAsymmetric(a: string, b: string)
    requires Less(a, b)
    ensures !Less(b, a)
  {
    if Less(b, a) {
      LessTransitive(a, b, a);
      LessIrreflexive(a);
    }
  }

  lemma {:induction false} LessTrichotomy(a: string, b: string)
    ensures a == b || Less(a, b) || Less(b, a)
    decreases |a|
  {
    if |a| > 0 && |b| > 0 && a[0] == b[0] {
      LessTrichotomy(a[1..], b[1..]);
      assert a == [a[0]] + a[1..];
      assert b == [b[0]] + b[1..];
    }
  }

  /** "Not after" is transitive: the relation `sort` relies on. */
  lemma NotAfterTransitive(a: string, b: string, c: string)
    requires !Less(b, a) && !Less(c, b)
    ensures !Less(c, a)
  {
    if Less(c, a) {
      LessTrichotomy(a, b);
      if Less(a, b) {
        LessTransitive(c, a, b);
      }
    }
  }

  /** The comparator is consistent, as `Array.prototype.sort` requires:
      zero exactly on equal routes, antisymmetric, and transitive. */
  lemma CompareRoutesConsistent(a: Route, b: Route, c: Route)
    ensures CompareRoutes(a, b) == 0 <==> a == b
    ensures CompareRoutes(a, b) == -CompareRoutes(b, a)
    ensures CompareRoutes(a, b) <= 0 && CompareRoutes(b, c) <= 0 ==> CompareRoutes(a, c) <= 0
  {
    LessIrreflexive(a);
    LessTrichotomy(a, b);
    if Less(a, b) {
      LessAsymmetric(a, b);
    }
    if CompareRoutes(a, b) <= 0 && CompareRoutes(b, c) <= 0 {
      if Less(a, b) { LessAsymmetric(a, b); }
      if Less(b, c) { LessAsymmetric(b, c); }
      NotAfterTransitive(a, b, c);
      if Less(c, a) { LessAsymmetric(c, a); }
    }
  }

  /** The buses a[..n] ascend by route. */
  ghost predicate SortedPrefix(a: array<Bus>, n: int)
    reads a
    requires 0 <= n <= a.Length
  {
    forall k, l :: 0 <= k < l < n ==> !Less(a[l].route, a[k].route)
  }

  /** `busses.sort(...)`: rearranges the snapshot in place so that its routes
      ascend, keeping exactly the same buses. */
  method SortByRoute(a: array<Bus>)
    modifies a
    ensures Ascending(RoutesOf(a[..]))
    ensures multiset(a[..]) == old(multiset(a[..]))
  {
    var i := 0;
    while i < a.Length
      invariant 0 <= i <= a.Length
      invariant SortedPrefix(a, i)
      invariant multiset(a[..]) == old(multiset(a[..]))
    {
      InsertLast(a, i);
      i := i + 1;
    }
  }

  /** One insertion step: moves a[i] left past every bus with a larger route,
      so that a[..i + 1] ascends. */
  method InsertLast(a: array<Bus>, i: int)
    requires 0 <= i < a.Length && SortedPrefix(a, i)
    modifies a
    ensures SortedPrefix(a, i + 1)
    ensures multiset(a[..]) == old(multiset(a[..]))
  {
    var j := i;
    while j > 0 && CompareRoutes(a[j - 1].route, a[j].route) > 0
      invariant 0 <= j <= i
      invariant forall k, l :: 0 <= k < l <= i && k != j && l != j ==> !Less(a[l].route, a[k].route)
      invariant forall l :: j < l <= i ==> !Less(a[l].route, a[j].route)
      invariant multiset(a[..]) == old(multiset(a[..]))
    {
      SwapAdjacent(a, j);
      j := j - 1;
    }
    if j > 0 {
      if Less(a[j - 1].route, a[j].route) {
        LessAsymmetric(a[j - 1].route, a[j].route);
      }
      forall k | 0 <= k < j
        ensures !Less(a[j].route, a[k].route)
      {
        if k < j - 1 {
          NotAfterTransitive(a[k].route, a[j - 1].route, a[j].route);
        }
      }
    }
  }

  /** Exchanges a[j - 1] and a[j]. */
  method SwapAdjacent(a: array<Bus>, j: int)
    requires 0 < j < a.Length
    modifies a
    ensures a[j - 1] == old(a[j]) && a[j] == old(a[j - 1])
    ensures forall k :: 0 <= k < a.Length && k != j - 1 && k != j ==> a[k] == old(a[k])
    ensures multiset(a[..]) == old(multiset(a[..]))
  {
    a[j - 1], a[j] := a[j], a[j - 1];
  }
}
