# Route colour allocation of the bus map

This project models how the map component of the bus tracker gives each bus
route a colour and a legend icon. It is written in Dafny and its properties
are proved.

The component keeps three pieces of state: a counter of the next free colour,
starting at 1; a dictionary from route name to colour; and the legend shown
beside the map. It also keeps the snapshot of buses it last rendered.

The component fills that state in two ways:

- **Initial load.** The snapshot is sorted by route name. The component then
  walks the snapshot and gives every route without a colour the counter's
  value, raising the counter by one each time. Finally it rebuilds the legend
  from the dictionary's keys in insertion order. Each entry has the route's
  name and the icon `<colour>.ico`.
- **Refresh.** This runs every five seconds. The snapshot is not sorted. A bus
  takes part only when its id, used as a key, looks up nothing truthy in the
  `buses` collection the refresh closure captured. Such a bus's route gets a
  colour if it has none. Each time a route is added, the legend is rebuilt.

Each marker on the map receives the colour of its bus's route. It also
receives a heading, computed from the bus's current point and a reference
point. Each coordinate of the reference point is the previous coordinate when
that is truthy in JavaScript, and the current coordinate otherwise.

Modules:

- `Buses` (`buses.dfy`): the bus record and the routes of a snapshot.
- `RouteOrder` (`route_order.dfy`):
  - JavaScript's `<` on route strings, as a lexicographic order on
    characters;
  - the sort comparator and its consistency;
  - an in-place insertion sort on an `array<Bus>`, which stands in for
    `Array.prototype.sort`.
- `Allocation` (`allocation.dfy`):
  - the dictionary's key order as a sequence of routes;
  - `Learn`, the allocate-if-absent walk, as a pure function;
  - `Consistent`, the invariant that links the colour map, the key order and
    the counter;
  - the lemmas about these.
- `Legends` (`legend.dfy`): the decimal icon name and its parse-back, and the
  legend built from the key order.
- `Rendering` (`markers.dfy`):
  - the reference-point fallback;
  - the colour lookup for each marker;
  - the marker props.
- `Component` (`component.dfy`):
  - class `MapComponent`, whose fields are the state above;
  - its methods `Allocate`, `InitialLoad`, `RefreshBus`, `AllocateGuarded`
    and `Refresh`, each proved against the pure functions;
  - the refresh guard: `PassGuard`, the buses that pass it, and
    `GuardedRoutes`, their routes.
- `Scenarios` (`scenarios.dfy`):
  - `CapturedKeys`, the keys a stored snapshot offers the guard;
  - concrete runs of the component.

The guard is modelled by the `truthyKeys` parameter of `Refresh`: the set of
keys at which the captured collection holds a truthy value. The closure is
created when the component mounts and again whenever `center` changes, so
that collection is either the initial `{}` (no keys) or a snapshot stored
earlier. A stored snapshot is an array, so its truthy keys are the
positions "0", "1", ..., "length" when it is not empty, and the names of
array methods whether it is empty or not (`Scenarios.CapturedKeys`, under the id assumption of
`Buses.BusId`), never bus ids. Two scenarios show what
this means. With `{}`, a bus shown before is walked again: if it moved to a
new route, that route gets a colour. With a stored snapshot, a bus never
shown before is skipped when its id happens to equal a position, so its new
route gets no colour.

## Model

| member | source | states |
|---|---|---|
| RouteOrder.LessIrreflexive | client/src/Components/MapComponent.js:41 | No route name is less than itself. |
| RouteOrder.LessTransitive | client/src/Components/MapComponent.js:41-46 | String order on route names is transitive. |
| RouteOrder.LessTrichotomy | client/src/Components/MapComponent.js:41-47 | Two route names are equal, or one of them is less than the other. |
| RouteOrder.LessAsymmetric | client/src/Components/MapComponent.js:41-46 | If a is less than b, b is not less than a. |
| RouteOrder.NotAfterTransitive | client/src/Components/MapComponent.js:40-48 | The "not after" relation the sort relies on is transitive. |
| RouteOrder.CompareRoutesConsistent | client/src/Components/MapComponent.js:40-48 | The comparator returns 0 exactly on equal routes. It is antisymmetric and transitive, so it is a consistent comparator. |
| RouteOrder.SortByRoute | client/src/Components/MapComponent.js:40-48 | After the sort the snapshot's routes ascend, and the array holds the same buses as before (a permutation). |
| RouteOrder.InsertLast | client/src/Components/MapComponent.js:40-48 | One insertion step extends the sorted prefix by one element and keeps the multiset of buses. |
| RouteOrder.SwapAdjacent | client/src/Components/MapComponent.js:40-48 | Exchanges two neighbouring buses. Nothing else in the array changes, and the multiset is kept. |
| Buses.RoutesOfAppend | client/src/Components/MapComponent.js:49 | The routes of a snapshot with one more bus are the old routes followed by that bus's route. |
| Allocation.Position | client/src/Components/MapComponent.js:64 | The index a route has in the key order is its first occurrence. |
| Allocation.InitialStateConsistent | client/src/Components/MapComponent.js:9-10 | An empty colour map with the counter at 1 satisfies the allocation invariant. |
| Allocation.ConsistentAllocate | client/src/Components/MapComponent.js:52-58 | Giving an uncoloured route the counter's value, appending it to the key order and raising the counter by 1 keeps the invariant. |
| Allocation.LearnAppend | client/src/Components/MapComponent.js:49-61 | The walk over a snapshot with one more route is the walk so far plus one allocate-if-absent step. |
| Allocation.LearnPrefixStep | client/src/Components/MapComponent.js:49-61 | The walk over the first i+1 routes is one step after the walk over the first i. |
| Allocation.LearnExtends | client/src/Components/MapComponent.js:54-57 | The walk only appends to the key order, and everything it appends comes from the snapshot. |
| Allocation.LearnMembers | client/src/Components/MapComponent.js:52-57 | After the walk, a route is known exactly when it was known before or appears in the snapshot. |
| Allocation.LearnDistinct | client/src/Components/MapComponent.js:52 | The walk never adds a route twice. |
| Allocation.LearnKnown | client/src/Components/MapComponent.js:52 | A walk over routes that are all known changes nothing. |
| Allocation.LearnIdempotent | client/src/Components/MapComponent.js:78-98 | Walking the same snapshot a second time changes nothing. |
| Allocation.LearnConcat | client/src/Components/MapComponent.js:49-61 | Walking two snapshots in turn equals walking their concatenation. |
| Allocation.DistinctCardinality | client/src/Components/MapComponent.js:9-10 | Counting helper for `ConsistentGapless` and `LearnCount`: a key order without repeats has as many entries as distinct routes. |
| Allocation.LearnCount | client/src/Components/MapComponent.js:58 | The number of keys after the walk is the number of distinct routes known before or seen in the snapshot. |
| Allocation.LearnAscending | client/src/Components/MapComponent.js:40-61 | When the routes ascend, the routes the walk appends are in strictly ascending order. |
| Allocation.LearnFirstSeen | client/src/Components/MapComponent.js:49-61 | A route met earlier in the snapshot comes before a new route met later in the key order. |
| Allocation.PositionInPrefix | client/src/Components/MapComponent.js:64 | Appending keys does not move the position of a route already present. |
| Allocation.ConsistentGapless | client/src/Components/MapComponent.js:9-10 | The colours in use are exactly 1 to counter-1, each is used by one route only, and the map has counter-1 entries. |
| Allocation.ConsistentColorIsPosition | client/src/Components/MapComponent.js:54-58 | A route's colour is its position in the key order plus one. |
| Allocation.ConsistentExtensionKeepsColors | client/src/Components/MapComponent.js:54-57 | When the key order only grows, every colour already assigned stays the same. |
| Allocation.WalkColors | client/src/Components/MapComponent.js:49-61 | After a walk, old colours are unchanged, and a route has a colour exactly when it had one before or appears in the snapshot. |
| Allocation.AscendingWalkColors | client/src/Components/MapComponent.js:40-61 | After a walk over sorted routes, of two newly coloured routes the smaller name has the smaller colour. |
| Legends.DigitChar | client/src/Components/MapComponent.js:66 | Range helper for `Decimal`: the character of a digit value below 10 is a decimal digit. |
| Legends.DigitValue | client/src/Components/MapComponent.js:66 | Range helper for `ParseDecimal`: the value of a decimal digit character is below 10. |
| Legends.Decimal | client/src/Components/MapComponent.js:66 | A colour prints as a non-empty string of digits with no leading zero. |
| Legends.DecimalRoundTrip | client/src/Components/MapComponent.js:66 | Parsing a colour's decimal text gives the colour back. |
| Legends.IconRoundTrip | client/src/Components/MapComponent.js:66 | The colour can be read back from the icon name `<colour>.ico`. |
| Legends.IconInjective | client/src/Components/MapComponent.js:66 | Different colours have different icon names. |
| Legends.Legend | client/src/Components/MapComponent.js:64-67 | The legend has one entry per key, in key order. Each entry names its route and carries an icon that reads back as that route's colour. |
| Legends.LegendOfConsistent | client/src/Components/MapComponent.js:64-67 | Under the invariant, entry i is the i-th route with icon `(i+1).ico`. There are as many entries as coloured routes, and names and icons are pairwise distinct. |
| Rendering.ReferenceDiffersOnlyOnZero | client/src/Components/MapComponent.js:127-134 | The truthiness fallback differs from an explicit "absent" test exactly when the previous coordinate is a present 0 and the current one is not 0. |
| Rendering.ReferenceWithoutHistory | client/src/Components/MapComponent.js:127-134 | With no truthy previous coordinates, the reference point is the current point. |
| Rendering.ReferenceCoordinatesIndependent | client/src/Components/MapComponent.js:127-134 | Latitude and longitude each fall back on their own pair of fields only. |
| Rendering.MarkerOfBus | client/src/Components/MapComponent.js:121-148 | There is one marker per bus. Its colour is the route's colour when the route has one and undefined otherwise. It sits at the bus's current position, with the heading from the current point to the reference point. |
| Rendering.FreshBusHeading | client/src/Components/MapComponent.js:127-139 | A bus with no truthy previous coordinates gets the heading from its current point to itself. |
| Component.PassGuard | client/src/Components/MapComponent.js:80 | Exactly the snapshot's buses whose id is not a key at which the captured collection holds a truthy value pass the guard, and no others. |
| Component.GuardedRoutesStep | client/src/Components/MapComponent.js:78-81 | Each bus adds its route to the refresh walk exactly when it passes the guard. |
| Component.GuardedRoutesOfPassGuard | client/src/Components/MapComponent.js:78-81 | The routes the refresh walks are the routes of the buses that pass the guard, in snapshot order. |
| Component.GuardedRoutesCover | client/src/Components/MapComponent.js:80-81 | Every bus that passes the guard has its route walked. |
| Component.RefreshedMarkersColored | client/src/Components/MapComponent.js:77-148 | Given the states before and after a refresh, every bus that passed the guard has a coloured route and its marker shows that colour. A bus on a route coloured before shows the same colour as before. |
| Component.MapComponent.constructor | client/src/Components/MapComponent.js:9-14 | The counter starts at 1. The colour map, key order, legend and snapshot start empty, and the invariant holds. |
| Component.MapComponent.Allocate | client/src/Components/MapComponent.js:52-58 | Reports a new route exactly when the route had no colour. A new route gets the counter's value and the counter rises by 1. A known route changes nothing. The invariant is kept. |
| Component.MapComponent.InitialLoad | client/src/Components/MapComponent.js:38-70 | The snapshot is sorted in place and is a permutation of the input. The key order is the walk over the sorted routes. Old colours are kept and every bus's route is coloured. New routes get ascending colours in name order. The legend is rebuilt and the snapshot stored. |
| Component.MapComponent.RefreshBus | client/src/Components/MapComponent.js:80-96 | A bus whose id is a key at which the captured collection holds a truthy value changes nothing. Otherwise its route is learned. The legend is rebuilt exactly when a route was added, and colours are unchanged when none was. |
| Component.MapComponent.AllocateGuarded | client/src/Components/MapComponent.js:78-98 | The callback over the whole snapshot learns exactly the walk over the routes that pass the guard. The legend is unchanged if no route was added and rebuilt otherwise. |
| Component.MapComponent.Refresh | client/src/Components/MapComponent.js:77-100 | The key order is the walk over the routes of the buses that pass the guard. Old colours are kept, and every such bus's route is coloured. The legend is unchanged if no route was added and rebuilt otherwise. The snapshot is stored. |
| Scenarios.CapturedKeys | client/src/Components/MapComponent.js:70 | Under the id assumption, the truthy keys a stored snapshot offers the guard: every position "0", "1", ... is a key, "length" is a key exactly when the snapshot is not empty, and every key is a digit string or "length". |
| Scenarios.OrdinaryIdPassesGuard | client/src/Components/MapComponent.js:80 | Under the id assumption, with a stored snapshot captured, a bus whose id is neither a digit string nor "length" always passes the guard, however often it was shown before. |
| Scenarios.LengthIdSkipped | client/src/Components/MapComponent.js:80 | A bus with id "length" is always skipped once a non-empty snapshot is stored. |
| Scenarios.LegendOfTwo | client/src/Components/MapComponent.js:64-67 | With keys A, B under the invariant, the legend is A with `1.ico` then B with `2.ico`. |
| Scenarios.LegendOfThree | client/src/Components/MapComponent.js:90-95 | With keys A, B, C under the invariant, the legend adds C with `3.ico` after the first two. |
| Scenarios.FirstSnapshotWalk | client/src/Components/MapComponent.js:78-81 | A first snapshot with routes A and B and the `{}` captured at mount learns A then B. |
| Scenarios.SecondSnapshotWalk | client/src/Components/MapComponent.js:78-81 | A second snapshot with routes A, B and C and the `{}` captured at mount learns C after A and B. |
| Scenarios.TwoSnapshotLegends | client/src/Components/MapComponent.js:77-100 | Two refreshes with the mount closure give legend A `1.ico`, B `2.ico`, then the same plus C `3.ico`. Earlier entries are unchanged. |
| Scenarios.OneBusWalk | client/src/Components/MapComponent.js:80-87 | A one-bus snapshot whose bus passes the guard on an unknown route appends that route to the key order. |
| Scenarios.MovedBusWalks | client/src/Components/MapComponent.js:80-87 | With the `{}` captured at mount, a bus moved from route A to route B is walked again, so B is learned after A. |
| Scenarios.MovedBusIsColored | client/src/Components/MapComponent.js:77-100 | With the mount closure, a bus shown before that moves to a never-seen route gets that route coloured 2, and its marker shows colour 2. |
| Scenarios.PositionKeyWalks | client/src/Components/MapComponent.js:80 | A stored one-bus snapshot offers the keys "0" and "length", so a new bus with id "0" is skipped and nothing is learned. |
| Scenarios.PositionKeyedGuardSkipsBus | client/src/Components/MapComponent.js:77-100 | With a stored one-bus snapshot captured, a bus never shown before whose id is "0" is skipped, so its new route and its marker get no colour. |

## Left out

- The bearing formula `headingBetweenPoints` (client/src/Components/MapComponent.js:16-34) is floating-point trigonometry. The renderer takes it as a parameter `heading`, and only which points it receives is modelled.
- Fetching the snapshot from the database (`getAllBusses`) is I/O. Each snapshot is an input.
- The five-second timer, effect re-registration on `center`/`zoom` changes, interval clean-up, and two fetches overlapping are left out. Each load or refresh is one call that runs to completion.
- React state and rendering are modelled as plain fields: `useRef`, `useState`, re-rendering, JSX and the `Legend`/`MapMarker` components.
- Component.MapComponent.Refresh: the caller supplies `truthyKeys`, the keys at which the captured collection is truthy. As written, this set is empty (the `{}` captured at mount) or the truthy keys of the array stored when the effect last ran: the positions "0".."n-1", "length" when n > 0, and the array method names for every stored array. It is never the set of bus ids. Which of the two a given refresh sees depends on React's effect timing, which is not modelled.
- Route names and bus ids are assumed not to name properties that every object inherits ("constructor", "toString", "__proto__", ...). For such a route the lookup at line 52 or 81 is never undefined, so the route is never coloured or listed, and its marker receives an inherited function. Such an id finds a function in the captured `{}` and in any stored array, so that bus is always skipped.
- Scenarios.CapturedKeys: bus ids are assumed not to be the name of an array method ("map", "push", "find", "at", ...). Every stored array, empty or not, is truthy at those names, so once a snapshot is stored such a bus would always be skipped; the set does not list them. The `{}` captured at mount is not truthy at those names, so under it such a bus passes the guard.
- Colours are JavaScript numbers. The model's unbounded counter and `Legends.Decimal` agree with the source only below 2^53, where `+ 1` stops increasing, and below 10^21, where `${n}` switches to exponent form. Neither is reachable by counting routes.
- Every record is assumed to carry a string `route` and numeric current coordinates. In the source, a missing route is allocated under the key "undefined", and the comparator at lines 41-47 returns 0 against every other route for it. Malformed records are not modelled.
- `legendItems` and `buses` start as `{}` in the component. The model starts them as empty sequences.
- JavaScript objects list integer-like keys (for example the route name "10") before other keys in ascending numeric order. The model keeps pure insertion order, so it assumes route names are not canonical integer strings.
- SortByRoute is an insertion sort standing in for the engine's `Array.prototype.sort`. Its ensures state ascending order and a permutation, which any conforming sort gives. The order among buses on the same route is not modelled.
- JavaScript compares strings by UTF-16 code units. The model compares characters by their Dafny `char` values, which agree for text in the Basic Multilingual Plane.
- Rendering.Truthy: the coordinate fields are reals, so a NaN coordinate, which is also falsy in JavaScript, is not modelled.
- Rendering.Marker: the React `key` is modelled as the bus's index in the stored snapshot.
