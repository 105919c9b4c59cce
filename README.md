# Trains: route state machine and network generation

This project models the core of a browser toy in which trains ride a randomly generated railway network:

- **`Train`** (`src/trains/train.ts`) is a train riding a route, one edge path after another.
  - `currentRouteIndex` says which path it is on.
  - `currentPosition` counts ticks along that path.
  - `halt`/`resume` switch the velocity off and back to the top speed.
  - There is an infection flag.
  - `Freight` fixes the top speed at 0.2 and the type at `"freight"`.
- **The generator in `src/trains/renderer.ts`** builds the network in four steps:
  1. `placeVertex` places each station at random inside a padded area, optionally snapped to a grid.
  2. `computeDistances` keeps the k nearest other stations of each station, for a drawn k.
  3. `addEdges` links each station to those neighbours, weighting each link by a tenth of the distance, rounded.
  4. `disconnectCollisions` drops every link of a station that runs through another of its neighbours.

  `render` repeats those four steps, counting the retries, until the graph check passes. It then gives every train its first route and ticks the trains each animation frame.

Modules, one file each:

- `Types` (types.dfy): `Option`, graph vertices, edge paths.
- `EdgeNames` (edge_names.dfy): JavaScript's `split('-')`, and the `"A-B"` edge names.
- `Trains` (train.dfy): a `RouteState` value with the route getters and steps, and the class `Train`, whose methods update its fields.
- `RailRoad` (railroad.dfy): the graph operations the generator calls.
- `Placement` (placement.dfy): `placeVertex`.
- `Proximity` (proximity.dfy): `computeDistances`, `addEdges`, `disconnectCollisions`.
- `Network` (network.dfy): one build attempt.
- `Render` (render.dfy): the retry loop, the initial routes and the tick.

How the model treats the parts it does not interpret:

- **Randomness is input.** The coordinates `randBetween` would draw are passed in as sequences, the drawn k as a function of the name's index, and the route ends as parameters.
- **Unseen helpers are parameters.** Euclidean distance (`pointDistance`), `canFitStation`, `doesLineIntersectCircle`, `generateRoute` and `isDisconnected` are functions passed in.
- **Path geometry is an oracle.** The floating-point test "the point at `velocity * position` rounds to the path's end" is the oracle `atEnd(path, velocity, position)`.
- **`railroad.ts` is not part of this model.** Its constructor, `addEdge` and `disconnectEdges` have explicit bodies in `RailRoad`, as follows:
  - an adjacency map from station name to a list of vertices;
  - `new RailRoadGraph(names)` starts with one empty list per name and no other entry;
  - `addEdge(u, v)` appends `v` to `u`'s list and `u` to `v`'s list, each only when no vertex of that name is listed yet;
  - `disconnectEdges(a, b)` removes every vertex named `b` from `a`'s list and every vertex named `a` from `b`'s list.

  These are the assumptions the graph properties below rest on.

The module-level variables of renderer.ts (`stations`, `distances`, `graphBuildAttempts`) are threaded through the methods as values and results.

## Model

| member | source | states |
|---|---|---|
| Trains.Fresh | src/trains/train.ts:52-59 | `init`: the given route and end are installed, the cached length is the route's length, index and position are 0, and the route is over at once exactly when it is empty |
| Trains.Train.constructor | src/trains/train.ts:33-50 | a new train is healthy, its velocity is its top speed, speed modifier, name and type are as given, and its route state is `Fresh(route, end)` |
| Trains.Train.Freight | src/trains/train.ts:157-195 | a freight train has top speed and velocity 0.2, type `"freight"`, is healthy, and starts its route fresh |
| Trains.Train.Init | src/trains/train.ts:52-59 | the fields hold `Fresh(route, end)`: route, end, length = route length, index 0, position 0 |
| Trains.Train.UpdateRoute | src/trains/train.ts:133-135 | replacing the route leaves the fields at `Fresh(route, end)`; nothing else changes |
| Trains.RouteState.PathAt | src/trains/train.ts:69-79 | `route[i]` is defined exactly for the indices inside the route, and is then that path (`currentPath`, `prevPath` and `lastPath` read it at index, index - 1 and length - 1) |
| Trains.RouteState.NextStation | src/trains/train.ts:137-147 | route, length and end unchanged; index one more; the new previous path is the old current path; the route is over afterwards exactly when the train was on its last path (`isPenultimateRoute`); the position is reset to 0 unless the route is over, and then keeps its value |
| Trains.Train.NextStation | src/trains/train.ts:137-147 | the fields end in `old(State()).NextStation()`; velocity and infection flag are untouched |
| Trains.RouteState.MoveForward | src/trains/train.ts:127-131 | the position goes up by exactly one and nothing else changes |
| Trains.Train.MoveForward | src/trains/train.ts:127-131 | with a current path the position goes up by one and nothing else changes; without one the source throws when it asks that path for a point, and the state is left as it was |
| Trains.RideAlongRoute | src/trains/train.ts:69-87 | on a fresh route, after any mix of ticks and k `nextStation` calls (k at most the route length): the index is k, the current path is `route[k]` while k is inside the route, the previous path is `route[k-1]`, the route is over exactly at k = length, and `lastPath` is always the final path |
| Trains.RouteState.StopTime | src/trains/train.ts:149-153 | the dwell is 2000 at the end of the route and 300 otherwise |
| Trains.Train.StationStop | src/trains/train.ts:149-154 | the train is halted (not moving) and the dwell is 2000 at the end of the route, 300 otherwise |
| Trains.Train.Halt | src/trains/train.ts:109-111 | velocity 0, so the train is not moving and its actual velocity is 0 |
| Trains.Train.Resume | src/trains/train.ts:113-115 | velocity back to the top speed; actual velocity is top speed times speed modifier |
| Trains.Train.Infect | src/trains/train.ts:117-120 | the infection flag is set; nothing else changes |
| Trains.Train.Disinfect | src/trains/train.ts:122-125 | the infection flag is cleared; nothing else changes |
| Trains.VisitedStations | src/trains/train.ts:95-107 | on the edge named `A-B` (built as at renderer.ts:173), with no dash in either name, the previous station is A and the current one is B; both are unknown exactly when there is no current path |
| EdgeNames.Split | src/trains/train.ts:98 | `split` always yields at least one piece |
| EdgeNames.SplitPiecesLackSeparator | src/trains/train.ts:98 | no piece of a split contains the separator |
| EdgeNames.JoinSplit | src/trains/train.ts:98 | joining the pieces of a split with the separator gives the string back |
| EdgeNames.SplitJoin | src/trains/train.ts:98 | splitting a join of separator-free pieces gives the pieces back |
| EdgeNames.SplitWithoutSeparator | src/trains/train.ts:98 | a string without the separator splits into itself alone |
| EdgeNames.SplitAtSeparator | src/trains/train.ts:98 | splitting `a + sep + b` yields the pieces of `a` followed by the pieces of `b` |
| EdgeNames.EdgeNameEndpoints | src/trains/train.ts:95-107 | `shift()` of the split edge name is the first piece of the origin and `pop()` the last piece of the destination, so exactly the two stations when neither contains a dash. The name is `EdgeName(from, to)`, and `shift()` and `pop()` are `FirstPiece` and `LastPiece` |
| RailRoad.NewGraph | src/trains/renderer.ts:202 | one empty neighbour list per selected name, and nothing else |
| RailRoad.AddEdge | src/trains/renderer.ts:111 | same stations; every list only grows; afterwards each endpoint lists the other; the only vertices added are `v` at `u` and `u` at `v` |
| RailRoad.Link | src/trains/renderer.ts:111 | the assumed one-sided link inside `addEdge`: the list only grows, lists the station afterwards, and gains no vertex but `v` |
| RailRoad.AddEdgeKeepsSymmetric | src/trains/renderer.ts:111 | linking two stations with one weight keeps every edge listed at both ends with the same weight |
| RailRoad.DisconnectEdges | src/trains/renderer.ts:135 | same stations; a vertex stays listed exactly when it is not the link between the two stations, in either direction |
| RailRoad.AddEdgeKeepsDistinct | src/trains/renderer.ts:111 | linking never lists a station twice on any list |
| RailRoad.DisconnectTwice | src/trains/renderer.ts:135 | unlinking the same two stations a second time leaves the graph as it was after the first |
| RailRoad.DisconnectKeepsSymmetric | src/trains/renderer.ts:135 | unlinking keeps every edge listed at both ends |
| RailRoad.Without | src/trains/renderer.ts:130 | the `hay` filter keeps exactly the neighbours of other names, and is no longer than the list |
| Placement.Stations.Put | src/trains/renderer.ts:84 | `stations[name] = …` changes only that entry; a new key goes last in key order, an existing key keeps its place |
| Placement.FittedPut | src/trains/renderer.ts:70-84 | storing a new station that `canFitStation` accepted against all stored stations keeps every station accepted against the stations stored before it |
| Placement.DrawnPut | src/trains/renderer.ts:46-88 | storing a new station at the point its own draws gave on top of every stored station keeps each station the point its draws gave on top of the ones stored before it |
| Placement.NoStations | src/trains/renderer.ts:206 | each build starts from an empty `stations` object |
| Placement.Snap | src/trains/renderer.ts:64-67 | `x - x % r` with JavaScript's sign-following `%`: for x ≥ 0 a multiple of r at most x and within one cell below it; for x < 0 a multiple of r at least x and within one cell above it. `JsRemainder` is that sign-following `%` |
| Placement.PlaceVertex | src/trains/renderer.ts:46-88 | on success the stored point is a candidate made from one draw; it lies in the padded area and `canFitStation` held; `stations` gains exactly that entry, with no edges; no earlier draw was accepted; fewer than `abortPlacementAttempts` in-area rejections came first. It throws once the in-area rejections, with no draw accepted, reach the cap; out-of-area draws are not counted. The candidate is `Candidate(p, draw)`, the draw snapped when `shouldSnapToGrid` is set; the padded area is `InBounds` |
| Proximity.Others | src/trains/renderer.ts:96 | the filtered keys are exactly the other stations |
| Proximity.OthersLength | src/trains/renderer.ts:96 | with distinct keys, one fewer key than there are stations when `name` is a station |
| Proximity.Measured | src/trains/renderer.ts:96-103 | the list pushed before sorting has one entry per other station |
| Proximity.MeasuredListsEveryOther | src/trains/renderer.ts:96-103 | every other station appears in that list at its `pointDistance` from `name` |
| Proximity.SortByDistance | src/trains/renderer.ts:104 | the sort yields an ascending permutation of its input |
| Proximity.Insert | src/trains/renderer.ts:104 | inserting into a sorted list keeps it sorted and adds exactly that entry |
| Proximity.InsertIsStable | src/trains/renderer.ts:104 | inserting puts the entry before the entries of equal distance |
| Proximity.SortIsStable | src/trains/renderer.ts:104 | entries at equal distance keep their relative order through the sort |
| Proximity.Nearest | src/trains/renderer.ts:104 | `sort(…).slice(0, k)` keeps at most k entries, each one of the measured entries |
| Proximity.NearestIsSortedPrefix | src/trains/renderer.ts:104 | `sort(…).slice(0, k)` has min(k, n) entries, is ascending, and is a sub-multiset of the input |
| Proximity.NearestIsClosest | src/trains/renderer.ts:104 | no dropped entry is closer than a kept one |
| Proximity.NearestKeepsTieOrder | src/trains/renderer.ts:104 | among entries at equal distance, the kept ones are the first ones, in their order |
| Proximity.ComputeDistances | src/trains/renderer.ts:94-105 | the result is the sorted prefix of the measured list. It has min(k, stations - 1) entries and never names `name`. Each entry is another station at its measured distance. It is ascending. No station left out is nearer than a kept one. Ties keep key order |
| Proximity.NearestAreOthers | src/trains/renderer.ts:94-105 | every kept entry is another station at its measured distance |
| Proximity.NearestAreClosestOthers | src/trains/renderer.ts:94-105 | no station left out is nearer than a kept one; a station's distance is `DistanceBetween`, `pointDistance` between the two placed stations |
| Proximity.Weight | src/trains/renderer.ts:110 | `+(d / 10).toFixed(0)` is the whole number nearest to d/10, halves away from zero: 10w - 5 ≤ d < 10w + 5 for d ≥ 0 |
| Proximity.AddEdgeStep | src/trains/renderer.ts:109-112 | one more `addEdge(name, entry.station)` with the entry's weight extends what the calls so far have done by that entry |
| Proximity.AddAllAdds | src/trains/renderer.ts:108-113 | the `addEdge` calls for the entries, in order, keep the same stations and symmetry, only grow lists, link `name` and each entry's station both ways, add only vertices some entry put there, and never list a station twice |
| Proximity.AddEdges | src/trains/renderer.ts:108-113 | same stations; symmetry kept; lists only grow; `name` and each entry's station list each other afterwards; every vertex added is put there by one entry's call, at `name` or at the entry's station, carrying that entry's weight; lists without repeated stations stay so. The result is `AddAll(g, name, entries)`: the `addEdge` calls one per entry, in order |
| Proximity.DisconnectRemovesOnlyBlocked | src/trains/renderer.ts:133-136 | removing a blocked edge of `name` removes nothing but blocked edges of `name` |
| Proximity.PruneStep | src/trains/renderer.ts:133-136 | removing the edge name–B because C is hit keeps the pruning contract |
| Proximity.PruneToward | src/trains/renderer.ts:130-137 | the inner loop for neighbour B leaves exactly the graph with name–B removed when some vertex of `hay` lies on the segment, and the graph unchanged otherwise |
| Proximity.HayHitsAtTurn | src/trains/renderer.ts:128-133 | at B's turn, `hay` re-read from the current list holds a vertex on the way exactly when another neighbour still listed at that turn (its own turn later, or kept) lies on the way |
| Proximity.TurnDecided | src/trains/renderer.ts:128-137 | one more turn of the outer loop decides that entry's edge and leaves the decisions of the earlier turns as they were |
| Proximity.DisconnectCollisions | src/trains/renderer.ts:125-139 | same stations; symmetry kept; no edge added; edges not incident to `name` untouched; every removed edge is name–B for a B that some other neighbour C of `name` blocks (segment name→B hits C within 2·stationRadius); afterwards no remaining neighbour blocks another. For a list without repeated stations, the edge to the entry B is kept exactly when no other entry still listed at B's turn lies on the way: one whose turn comes after B's, or one that was kept |
| Network.PlaceAll | src/trains/renderer.ts:219 | placing the selected names one by one stores exactly those names, each inside the area with no edges; otherwise it stops at index `at`, with `names[..at]` placed and the placement of `names[at]` ended by the rejection cap or by running out of draws. For distinct names the keys are in name order, and each station was accepted by `canFitStation` against the stations placed before it and is the point `placeVertex` took from that name's own draws |
| Network.MeasureAll | src/trains/renderer.ts:220 | `distances` holds exactly the selected names. Each list names other stations at their measured distances, ascending. For a name not repeated later in the list, the list is the nearest selection for that name's drawn k. `NearestLists` is the ghost list of those per-call results, one per selected name, used only to state this |
| Network.LinkAllLinks | src/trains/renderer.ts:202-221 | after the fresh graph and the `addEdges` calls for a prefix of the names, the graph is symmetric over all names, every edge is justified by `distances`, each name of the prefix is linked both ways with each of its entries, and no list repeats a station |
| Network.ConnectAll | src/trains/renderer.ts:221 | from the fresh graph, the `addEdges` calls give a symmetric graph over the selected names. Each selected name and each of its neighbours in `distances` list each other. Every listed vertex is justified by an entry of `distances` with that entry's weight. No list names a station twice. The result is `LinkAll(names, names, d)`: the fresh graph, then the `addEdges` calls in list order |
| Network.RemovedStaysBlocked | src/trains/renderer.ts:222 | after one more `disconnectCollisions` call, every edge removed so far is blocked, at one of its ends, in the graph before pruning |
| Network.PruneAll | src/trains/renderer.ts:222 | the `disconnectCollisions` calls keep the graph symmetric over the same stations and only remove edges. Every removed edge is blocked at one of its ends, a selected station, by another of that station's neighbours in the linked graph. Afterwards no station's edge runs through another of its neighbours |
| Network.KeptOrCut | src/trains/renderer.ts:221-222 | a measured neighbour stays linked after pruning unless a station that `distances` puts next to one end lies on the way |
| Network.LinkAndPrune | src/trains/renderer.ts:221-222 | linking and pruning the measured distances of placed stations yields a complete network over those stations and distances |
| Network.BuildAttempt | src/trains/renderer.ts:206-222 | an attempt from empty `stations` either yields a complete network or stops while placing. A complete network has all stations placed in the area (for distinct names, each accepted by `canFitStation` against the ones before it and taken from its own name's draws), and each name not selected again holds the nearest selection for its drawn k. Its graph is symmetric and justified by the distances, links every measured neighbour unless the link was cut, and is untangled everywhere. A stop gives the index `at`, the stations placed before it, and how placing `names[at]` ended |
| Render.BuildRound | src/trains/renderer.ts:206-222 | one round's build is a complete network whose stations (for distinct names) come from that round's draws and whose lists are the nearest selections of that round's k; or it stops at a name whose predecessors were placed and whose placement from that round's draws hit the rejection cap or ran out of draws |
| Render.BuildNetwork | src/trains/renderer.ts:199-229 | `history` holds what each round built. Every round before the last built a complete network from its own draws for which `isDisconnected()` was false, and raised the counter by one. Success is the last round's complete network, with `isDisconnected()` true, and resets the counter to 0. "Can't build graph" is thrown exactly when the counter reaches `abortGraphBuildAttempts`, after that many rounds from the entry value, every one of them a complete network that failed the check. A placing failure ends the last round: the names before the failing one were placed, and that round's draws for it hit the rejection cap or ran out |
| Render.AssignInitialRoute | src/trains/renderer.ts:259-266 | `generateRoute` is called once, or twice when the first result is null or empty; the second result is installed even when empty, with its length and the drawn end; a null result throws, and the model then leaves the route fields as they were (see "## Left out") |
| Render.AssignInitialRoutes | src/trains/renderer.ts:258-270 | the trains get their routes in list order up to the first train whose route stays null; later trains keep their fields; only `route`, `routeLength` and `endVertex` may change, so index, position, velocity, speeds, infection flag, name and type stay as they were |
| Render.TickStep | src/trains/renderer.ts:274-296 | a tick that completes always counts at least one tick on the path; an arrived train rides the new route towards the new end, and a train on its way keeps its route and end |
| Render.TickKeepsIndexInRange | src/trains/renderer.ts:273-297 | a tick that completes leaves a consistent route state whose index does not run past the route, with a position of at least 1 |
| Render.TickThrowsOnlyOnMissingRoute | src/trains/renderer.ts:275-287 | for a consistent train, the tick throws in `updateRoute` (on `route.length` in `init`) exactly when it has arrived and the route is null, and at the missing current path exactly when it has arrived and the route is empty |
| Render.TickAlongRoute | src/trains/renderer.ts:284-296 | a train on its way keeps its route and end; it moves to the next path exactly when the point reaches the path's end, the counter restarting there except on the last path, and otherwise just counts one tick |
| Render.TickRenewsRoute | src/trains/renderer.ts:275-282 | an arrived train given a non-empty route rides it from its first path towards the new end |
| Render.Renewed | src/trains/train.ts:52-59 | handing an arrived train its next route stores the new end; a non-null route is started from index 0 and position 0 with its length cached; for a null route, length, index and position stay as they were; a train on its way is left alone |
| Render.TickTrain | src/trains/renderer.ts:274-296 | one train's tick through the `Train` methods ends in the state `TickStep` describes. A throwing tick leaves the state `Renewed` describes: the new end stored when the route is null, the empty route installed when it is empty, and the state unchanged for a train on its way without a current path |
| Render.Tick | src/trains/renderer.ts:273-297 | trains tick in list order; each one before a throw ends as `TickStep` says; the throwing train is the first whose tick does not complete, and it is left as `Renewed` says; later trains are untouched; only the route fields may change, so no velocity, speed, infection flag, name or type changes |

## Left out

- Drawing: Konva shapes, stage and layers, `drawStations`, `drawEdges`, `shape.position`/`shape.fill`, and the colours are not modelled. The `Train` class has no shape field.
- Path geometry (`getPointAtLength`, `getLength`, `round`) in `isEndOfPath` and in the tick is floating-point work through a library; it is the oracle `atEnd(path, velocity, position)`. `isEndOfPath` is not modelled as a member.
- Coordinates are integers. `randBetween` is taken to draw whole numbers; distances are an oracle returning reals.
- Randomness (`randBetween`, `randColor`, `anyVertex`, `randomStartEnd`, `randomEnd`) is passed in. `placeVertex` gets a finite sequence of draws, and running out of it is a separate outcome; the source would keep drawing. The k of `randBetween(1, 3)` is any natural number supplied by the caller.
- `RailRoadGraph`, `canFitStation`, `doesLineIntersectCircle`, `pointDistance`, `generateRoute` and `isDisconnected` are not part of this model: they are parameters or have the assumed bodies stated above. No connectivity or acyclicity of the graph is claimed.
- Proximity.DisconnectCollisions: the outer loop runs over the neighbour list as it was on entry. This assumes `disconnectEdges` replaces the list rather than splicing the array being iterated; the source's behaviour under splicing is not modelled.
- Proximity.DisconnectCollisions: the turn-by-turn characterisation is stated for neighbour lists without repeated stations. The assumed `addEdge` never makes repeats (Network.ConnectAll); lists with repeats get only the other clauses.
- Network.MeasureAll: for a name selected twice, only its last list is described.
- Render.BuildNetwork: the recursion of `render` is a loop. It requires the entry counter to be at most `abortGraphBuildAttempts`. Above the cap the source never throws `can't build graph`; it retries with no limit until the graph check passes or a placement throws.
- renderer.ts uses `Train` members that train.ts does not define. The tick and the initial routes are modelled through the `Train` API instead:
  - `hasArrived` is read as `isEndOfRoute`;
  - `currentRoute` is read as `currentPath`;
  - `incrementPos` is read as `currentPosition + 1`;
  - `pathLength` is read as `routeLength`.

  The object-argument constructors `new Freight({…}, 0, 0)`, and the `Passanger` and `Bullet` classes, are not part of this model.
- Render.AssignInitialRoute: when the second route is null, the source writes `train.route = null` before throwing on `route.length`. The model leaves the route unchanged.
- Render.AssignInitialRoutes: the train whose route stays null keeps its old route in the model, where the source holds `null` in `route` when it throws (as for Render.AssignInitialRoute).
- Render.TickTrain: a null route cannot be held in the `route` field of the model. When an arrived train gets a null route, `init` writes `route = null` and the new end, then throws on `route.length`; the model stores the new end and keeps the old route.
- Render.Tick: the train at which the frame stops with a null route keeps its old route in the model, where the source holds `null` (as for Render.TickTrain).
- Station names are assumed not to be array-index strings such as `"0"` or `"12"`. `Object.keys` lists those first, in numeric order, so for them "a new key goes last" (Placement.Stations.Put) and the tie order of Proximity.ComputeDistances would not hold.
- The timer in `stationStop` (`setTimeout(resume)`) and the `Konva.Animation` frame loop are not modelled; only the dwell choice and a single frame remain.
- Logging and UI (`info`, `console.*`, `insertTrainSchedule`, `updateTrainSchedule`, `bindPlayBtn`) are not modelled.
- No contagion rule exists in the code; only the infection flag setters are modelled.
- Numbers: velocities are reals and counters are unbounded naturals. JavaScript's double-precision rounding in `toFixed` is not modelled.
- The retry fires when `isDisconnected()` returns false, as the code does. The removed edge in `disconnectCollisions` is name–B, where B is the segment's target and C the vertex hit; this follows the code.
