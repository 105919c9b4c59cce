/** The driver in renderer.ts `render`: the retried network build, the initial route of every
    train, and one animation tick over the trains. */
module Render {
  import opened Types
  import opened RailRoad
  import opened Placement
  import opened Proximity
  import opened Network
  import opened Trains

  /** How `render` ends: with a network whose `isDisconnected()` check passed, by throwing "can't
      build graph", or by an attempt that stopped while placing a station. */
  datatype Build = Ready(network: Attempt) | CantBuildGraph | Failed(reason: Attempt)

  /** The draws of round `r`: `draws(r, i)` for the `i`th name. */
  function RoundDraws(draws: (nat, nat) -> seq<(int, int)>, r: nat): nat -> seq<(int, int)>
  {
    (i: nat) => draws(r, i)
  }

  /** Round `r` built a complete network from its own draws: for distinct names every station is the
      point `placeVertex` took from that round's draws for it, and every name not selected again later
      keeps the nearest selection that round's `ks` asked for. */
  ghost predicate BuiltRound(names: seq<string>, p: Params, canFit: (int, int, map<string, Station>) -> bool,
                             draws: (nat, nat) -> seq<(int, int)>, ks: (nat, nat) -> nat, dist: (int, int, int, int) -> real,
                             intersects: (int, int, int, int, int, int, int) -> bool, r: nat, a: Attempt)
    requires p.vertexExclusionRadius > 0
  {
    && a.Built? && Complete(names, p, canFit, dist, intersects, a)
    && (NoRepeats(names) ==> DrawnInOrder(p, a.stations, canFit, RoundDraws(draws, r)))
    && forall i :: 0 <= i < |names| && names[i] !in names[i + 1..] ==>
         && names[i] in a.distances && names[i] in a.stations.byName && a.stations.Valid()
         && a.distances[names[i]] == Nearest(Measured(a.stations, names[i], dist), ks(r, i))
  }

  /** Round `r` stopped while placing `names[a.at]`: the names before it were placed, and that round's
      draws for it gave no point, either because the refusals reached the cap or because they ran
      out. */
  ghost predicate StoppedRound(names: seq<string>, p: Params, canFit: (int, int, map<string, Station>) -> bool,
                               draws: (nat, nat) -> seq<(int, int)>, r: nat, a: Attempt)
    requires p.vertexExclusionRadius > 0
  {
    && !a.Built? && a.at < |names|
    && exists placed :: PlacedAll(p, placed, names[..a.at]) && StoppedAt(p, canFit, placed, draws(r, a.at), a)
  }

  /** The build of round `r`, from that round's draws. */
  method BuildRound(names: seq<string>, p: Params, canFit: (int, int, map<string, Station>) -> bool,
                    draws: (nat, nat) -> seq<(int, int)>, ks: (nat, nat) -> nat, dist: (int, int, int, int) -> real,
                    intersects: (int, int, int, int, int, int, int) -> bool, r: nat)
    returns (a: Attempt)
    requires p.vertexExclusionRadius > 0
    ensures a.Built? ==> BuiltRound(names, p, canFit, draws, ks, dist, intersects, r, a)
    ensures !a.Built? ==> StoppedRound(names, p, canFit, draws, r, a)
  {
    ghost var placed;
    a, placed := BuildAttempt(names, p, canFit, RoundDraws(draws, r), (i: nat) => ks(r, i), dist, intersects);
  }

  /** `render`'s build and retry: the counter `graphBuildAttempts` is `attempts` on entry and on exit.
      Each round checks the counter, then builds from scratch; a network for which
      `isDisconnected()` is false makes the counter go up and the build start over, and one for which
      it is true resets the counter. `draws(r, i)` and `ks(r, i)` are the random draws of round `r` for
      the `i`th name, and `history[r]` is what round `r` built. */
  method BuildNetwork(names: seq<string>, p: Params, canFit: (int, int, map<string, Station>) -> bool,
                      draws: (nat, nat) -> seq<(int, int)>, ks: (nat, nat) -> nat, dist: (int, int, int, int) -> real,
                      intersects: (int, int, int, int, int, int, int) -> bool, isDisconnected: Graph -> bool,
                      attempts0: nat)
    returns (result: Build, attempts: nat, rounds: nat, ghost history: seq<Attempt>)
    requires p.vertexExclusionRadius > 0 && attempts0 <= p.abortGraphBuildAttempts
    ensures |history| == rounds
    ensures result.CantBuildGraph? ==> Every(history, Rejected(names, p, canFit, draws, ks, dist, intersects, isDisconnected))
    ensures !result.CantBuildGraph? ==>
      1 <= rounds && Every(history[..rounds - 1], Rejected(names, p, canFit, draws, ks, dist, intersects, isDisconnected))
    ensures result.Ready? ==>
      && 1 <= rounds && result.network == history[rounds - 1]
      && BuiltRound(names, p, canFit, draws, ks, dist, intersects, rounds - 1, result.network)
      && isDisconnected(result.network.graph)
      && attempts == 0 && attempts0 + rounds <= p.abortGraphBuildAttempts
    ensures result.CantBuildGraph? ==>
      attempts == p.abortGraphBuildAttempts && rounds == p.abortGraphBuildAttempts - attempts0
    ensures result.Failed? ==>
      && 1 <= rounds && result.reason == history[rounds - 1]
      && StoppedRound(names, p, canFit, draws, rounds - 1, result.reason)
      && attempts == attempts0 + rounds - 1 < p.abortGraphBuildAttempts
  {
    attempts, rounds, history := attempts0, 0, [];
    while true
      invariant attempts == attempts0 + rounds <= p.abortGraphBuildAttempts
      invariant |history| == rounds
      invariant Every(history, Rejected(names, p, canFit, draws, ks, dist, intersects, isDisconnected))
      decreases p.abortGraphBuildAttempts - attempts
    {
      if attempts == p.abortGraphBuildAttempts {
        return CantBuildGraph, attempts, rounds, history;
      }
      var a := BuildRound(names, p, canFit, draws, ks, dist, intersects, rounds);
      ghost var before := history;
      rounds := rounds + 1;
      history := history + [a];
      assert history[..rounds - 1] == before;
      if !a.Built? {
        return Failed(a), attempts, rounds, history;
      }
      if isDisconnected(a.graph) {
        return Ready(a), 0, rounds, history;
      }
      EveryOneMore(before, Rejected(names, p, canFit, draws, ks, dist, intersects, isDisconnected), a);
      attempts := attempts + 1;
    }
  }

  /** Round `r` built a complete network from its own draws, and `isDisconnected()` was false for it. */
  ghost function Rejected(names: seq<string>, p: Params, canFit: (int, int, map<string, Station>) -> bool,
                          draws: (nat, nat) -> seq<(int, int)>, ks: (nat, nat) -> nat, dist: (int, int, int, int) -> real,
                          intersects: (int, int, int, int, int, int, int) -> bool, isDisconnected: Graph -> bool): (nat, Attempt) -> bool
  {
    (r: nat, a: Attempt) =>
      p.vertexExclusionRadius > 0 && BuiltRound(names, p, canFit, draws, ks, dist, intersects, r, a) && !isDisconnected(a.graph)
  }

  /** `ok(r, history[r])` holds for every round `r` of the history. */
  predicate Every(history: seq<Attempt>, ok: (nat, Attempt) -> bool)
  {
    forall r :: 0 <= r < |history| ==> ok(r, history[r])
  }

  /** A round that satisfies `ok` extends a history whose every round does. */
  lemma EveryOneMore(history: seq<Attempt>, ok: (nat, Attempt) -> bool, a: Attempt)
    requires Every(history, ok) && ok(|history|, a)
    ensures Every(history + [a], ok)
  {
    var h := history + [a];
    forall r | 0 <= r < |h|
      ensures ok(r, h[r])
    {
      if r < |history| {
        assert h[r] == history[r];
      }
    }
  }

  /** A `generateRoute` result that needs no second call: not null and not empty. */
  predicate Usable(route: Option<seq<Path>>)
  {
    route.Some? && route.value != []
  }

  /** The initial route of one train: `generate(0)` and `generate(1)` are what the first and the
      second `generateRoute(start, end, …)` call would return. The second call is made only when the
      first result is null or empty, and its result is installed even when it is empty. A null
      result makes the source throw on `route.length`; `installed` is false then and the route
      fields are left as they were. */
  method AssignInitialRoute(t: Train, generate: nat -> Option<seq<Path>>, end: Vertex) returns (calls: nat, installed: bool)
    modifies t`route, t`routeLength, t`endVertex
    ensures calls == if Usable(generate(0)) then 1 else 2
    ensures installed <==> generate(calls - 1).Some?
    ensures installed ==> t.route == generate(calls - 1).value && t.routeLength == |t.route| && t.endVertex == end
    ensures !installed ==> t.route == old(t.route) && t.routeLength == old(t.routeLength) && t.endVertex == old(t.endVertex)
  {
    var route := generate(0);
    calls := 1;
    if !Usable(route) {
      route := generate(1);
      calls := 2;
    }
    if route.None? {
      return calls, false;
    }
    t.route := route.value;
    t.routeLength := |route.value|;
    t.endVertex := end;
    installed := true;
  }

  /** The trains of the list are distinct objects. */
  predicate Distinct(trains: seq<Train>)
  {
    forall i, j :: 0 <= i < j < |trains| ==> trains[i] != trains[j]
  }

  /** `for (const train of trains)`: the initial routes in list order, stopping at the first train
      whose route is null. `generate(i, c)` is the result of the `c`th call for the `i`th train, and
      `ends[i]` its drawn end. */
  method AssignInitialRoutes(trains: seq<Train>, generate: (nat, nat) -> Option<seq<Path>>, ends: seq<Vertex>)
    returns (stoppedAt: Option<nat>)
    requires |ends| == |trains| && Distinct(trains)
    modifies (set t | t in trains)`route, (set t | t in trains)`routeLength, (set t | t in trains)`endVertex
    ensures stoppedAt.Some? ==> stoppedAt.value < |trains|
    ensures forall i :: 0 <= i < |trains| && (stoppedAt.None? || i < stoppedAt.value) ==>
      var c := if Usable(generate(i, 0)) then 0 else 1;
      && generate(i, c).Some?
      && trains[i].route == generate(i, c).value && trains[i].routeLength == |trains[i].route|
      && trains[i].endVertex == ends[i]
    ensures stoppedAt.Some? ==>
      var i := stoppedAt.value;
      !Usable(generate(i, 0)) && generate(i, 1).None?
    ensures forall i :: 0 <= i < |trains| && stoppedAt.Some? && stoppedAt.value <= i ==>
      && trains[i].route == old(trains[i].route) && trains[i].routeLength == old(trains[i].routeLength)
      && trains[i].endVertex == old(trains[i].endVertex)
    ensures forall i :: 0 <= i < |trains| ==>
      trains[i].currentRouteIndex == old(trains[i].currentRouteIndex) && trains[i].currentPosition == old(trains[i].currentPosition)
  {
    for i := 0 to |trains|
      invariant forall j :: 0 <= j < i ==>
        var c := if Usable(generate(j, 0)) then 0 else 1;
        && generate(j, c).Some?
        && trains[j].route == generate(j, c).value && trains[j].routeLength == |trains[j].route|
        && trains[j].endVertex == ends[j]
      invariant forall j :: i <= j < |trains| ==>
        && trains[j].route == old(trains[j].route) && trains[j].routeLength == old(trains[j].routeLength)
        && trains[j].endVertex == old(trains[j].endVertex)
      invariant forall j :: 0 <= j < |trains| ==>
        trains[j].currentRouteIndex == old(trains[j].currentRouteIndex) && trains[j].currentPosition == old(trains[j].currentPosition)
    {
      var calls, installed := AssignInitialRoute(trains[i], (c: nat) => generate(i, c), ends[i]);
      if !installed {
        return Some(i);
      }
    }
    return None;
  }

  /** How one train's tick ends: with its new route state, or by throwing because an arrived train got
      a null route (`updateRoute(null, end)` reaches `init`, which throws on `route.length`), or because
      the train has no current path. */
  datatype TickResult = Ticked(state: RouteState) | NoRouteGenerated | NoCurrentPath

  /** The route state once an arrived train has been handed its next route: `init` stores the new end
      and, for a route that is not null, starts that route; a null route throws in `init` after the end
      is stored, before the length and counters are written. A train still on its way is left alone. */
  function Renewed(s: RouteState, newEnd: Vertex, generated: Option<seq<Path>>): (r: RouteState)
    ensures !s.IsEndOfRoute() ==> r == s
    ensures s.IsEndOfRoute() ==> r.endVertex == newEnd
    ensures s.IsEndOfRoute() && generated.Some? ==> r.route == generated.value && r.Valid() && r.index == 0 && r.position == 0
    ensures s.IsEndOfRoute() && generated.None? ==>
      r.routeLength == s.routeLength && r.index == s.index && r.position == s.position
  {
    if !s.IsEndOfRoute() then s
    else if generated.None? then s.(endVertex := newEnd)
    else Fresh(generated.value, newEnd)
  }

  /** One train's part of an animation frame. An arrived train first takes the route `generated`
      towards `newEnd`; then the train needs a current path; `atEnd(path, velocity, position)` stands for the
      point at `velocity * position` along `path` rounding to the path's end point, and when it does the train
      moves on to its next station; finally the tick counter goes up. */
  function TickStep(s: RouteState, velocity: real, newEnd: Vertex, generated: Option<seq<Path>>, atEnd: (Path, real, nat) -> bool): (r: TickResult)
    ensures r.Ticked? && s.IsEndOfRoute() ==> generated.Some? && r.state.route == generated.value && r.state.endVertex == newEnd
    ensures r.Ticked? && !s.IsEndOfRoute() ==> r.state.route == s.route && r.state.endVertex == s.endVertex
    ensures r.Ticked? ==> 1 <= r.state.position
  {
    if s.IsEndOfRoute() && generated.None? then NoRouteGenerated
    else
      var renewed := Renewed(s, newEnd, generated);
      if renewed.CurrentPath().None? then NoCurrentPath
      else
        var moved := if atEnd(renewed.CurrentPath().value, velocity, renewed.position) then renewed.NextStation() else renewed;
        Ticked(moved.MoveForward())
  }

  /** A tick keeps the route state consistent: the cached length agrees with the route and the index
      does not run past it. */
  lemma TickKeepsIndexInRange(s: RouteState, velocity: real, newEnd: Vertex, generated: Option<seq<Path>>, atEnd: (Path, real, nat) -> bool)
    requires s.Valid() && s.index <= s.routeLength
    ensures TickStep(s, velocity, newEnd, generated, atEnd).Ticked? ==>
      var r := TickStep(s, velocity, newEnd, generated, atEnd).state;
      r.Valid() && r.index <= r.routeLength && 1 <= r.position
  {
    var renewed := if s.IsEndOfRoute() && generated.Some? then Fresh(generated.value, newEnd) else s;
    if renewed.CurrentPath().Some? {
      assert renewed.index < renewed.routeLength;
    }
  }

  /** A consistent train throws in a tick exactly when it has arrived and the new route is null or
      empty. */
  lemma TickThrowsOnlyOnMissingRoute(s: RouteState, velocity: real, newEnd: Vertex, generated: Option<seq<Path>>, atEnd: (Path, real, nat) -> bool)
    requires s.Valid() && s.index <= s.routeLength
    ensures TickStep(s, velocity, newEnd, generated, atEnd).NoRouteGenerated? <==> s.IsEndOfRoute() && generated.None?
    ensures TickStep(s, velocity, newEnd, generated, atEnd).NoCurrentPath? <==> s.IsEndOfRoute() && generated == Some([])
  {
    if !s.IsEndOfRoute() {
      assert s.CurrentPath().Some?;
    }
  }

  /** On its way, a train stays on its route; it moves to the next path exactly when `atEnd` says so,
      and the counter restarts then, except on the last path. */
  lemma TickAlongRoute(s: RouteState, velocity: real, newEnd: Vertex, generated: Option<seq<Path>>, atEnd: (Path, real, nat) -> bool)
    requires s.Valid() && s.index < s.routeLength
    ensures TickStep(s, velocity, newEnd, generated, atEnd).Ticked?
    ensures var r := TickStep(s, velocity, newEnd, generated, atEnd).state;
      && r.route == s.route && r.endVertex == s.endVertex
      && (atEnd(s.route[s.index], velocity, s.position) ==>
            r.index == s.index + 1 && r.position == (if s.IsPenultimateRoute() then s.position + 1 else 1))
      && (!atEnd(s.route[s.index], velocity, s.position) ==>
            r.index == s.index && r.position == s.position + 1)
  {
    assert !s.IsEndOfRoute() && s.CurrentPath() == Some(s.route[s.index]);
    var moved := if atEnd(s.route[s.index], velocity, s.position) then s.NextStation() else s;
    assert TickStep(s, velocity, newEnd, generated, atEnd) == Ticked(moved.MoveForward());
  }

  /** An arrived train that gets a non-empty route rides it from its start towards `newEnd`. */
  lemma TickRenewsRoute(s: RouteState, velocity: real, newEnd: Vertex, route: seq<Path>, atEnd: (Path, real, nat) -> bool)
    requires s.IsEndOfRoute() && route != []
    ensures TickStep(s, velocity, newEnd, Some(route), atEnd).Ticked?
    ensures var r := TickStep(s, velocity, newEnd, Some(route), atEnd).state;
      && r.route == route && r.routeLength == |route| && r.endVertex == newEnd
      && r.index == (if atEnd(route[0], velocity, 0) then 1 else 0) && r.position == 1
  {
    assert Fresh(route, newEnd).CurrentPath() == Some(route[0]);
  }

  /** One train's tick on the `Train` object, through its own methods. */
  method TickTrain(t: Train, newEnd: Vertex, generated: Option<seq<Path>>, atEnd: (Path, real, nat) -> bool) returns (result: TickResult)
    modifies t`route, t`endVertex, t`routeLength, t`currentRouteIndex, t`currentPosition
    ensures result == TickStep(old(t.State()), t.velocity, newEnd, generated, atEnd)
    ensures result.Ticked? ==> t.State() == result.state
    ensures !result.Ticked? ==> t.State() == Renewed(old(t.State()), newEnd, generated)
  {
    if t.State().IsEndOfRoute() {
      if generated.None? {
        t.endVertex := newEnd;
        return NoRouteGenerated;
      }
      t.UpdateRoute(generated.value, newEnd);
    }
    ghost var renewed := t.State();
    assert renewed == Renewed(old(t.State()), newEnd, generated);
    var current := t.State().CurrentPath();
    if current.None? {
      return NoCurrentPath;
    }
    if atEnd(current.value, t.velocity, t.currentPosition) {
      t.NextStation();
    }
    ghost var moved := t.State();
    t.currentPosition := t.currentPosition + 1;
    result := Ticked(t.State());
    assert t.State() == moved.MoveForward();
  }

  /** One animation frame: the trains tick in list order, and a throw ends the frame at that train.
      `ends[i]` and `generated[i]` are the `randomEnd` draw and the `generateRoute` result the `i`th
      train would get if it has arrived. */
  method Tick(trains: seq<Train>, ends: seq<Vertex>, generated: seq<Option<seq<Path>>>, atEnd: (Path, real, nat) -> bool)
    returns (stoppedAt: Option<nat>)
    requires |ends| == |trains| && |generated| == |trains| && Distinct(trains)
    modifies (set t | t in trains)`route, (set t | t in trains)`endVertex, (set t | t in trains)`routeLength,
             (set t | t in trains)`currentRouteIndex, (set t | t in trains)`currentPosition
    ensures forall i :: 0 <= i < |trains| ==> trains[i].velocity == old(trains[i].velocity)
    ensures stoppedAt.Some? ==> stoppedAt.value < |trains|
    ensures forall i :: 0 <= i < |trains| && (stoppedAt.None? || i < stoppedAt.value) ==>
      TickStep(old(trains[i].State()), trains[i].velocity, ends[i], generated[i], atEnd) == Ticked(trains[i].State())
    ensures stoppedAt.Some? ==>
      var i := stoppedAt.value;
      && !TickStep(old(trains[i].State()), trains[i].velocity, ends[i], generated[i], atEnd).Ticked?
      && trains[i].State() == Renewed(old(trains[i].State()), ends[i], generated[i])
    ensures forall i :: 0 <= i < |trains| && stoppedAt.Some? && stoppedAt.value < i ==>
      trains[i].State() == old(trains[i].State())
  {
    for i := 0 to |trains|
      invariant forall j :: 0 <= j < |trains| ==> trains[j].velocity == old(trains[j].velocity)
      invariant forall j :: 0 <= j < i ==>
        TickStep(old(trains[j].State()), trains[j].velocity, ends[j], generated[j], atEnd) == Ticked(trains[j].State())
      invariant forall j :: i <= j < |trains| ==> trains[j].State() == old(trains[j].State())
    {
      var r := TickTrain(trains[i], ends[i], generated[i], atEnd);
      if !r.Ticked? {
        return Some(i);
      }
    }
    return None;
  }
}
