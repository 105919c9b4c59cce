/** One attempt of `render` at building the railway network: place every station, measure each
    station's nearest neighbours, link them, and prune the links that run through a neighbour. */
module Network {
  import opened Types
  import opened RailRoad
  import opened Placement
  import opened Proximity

  /** The `distances` object: each station's nearest neighbours, nearest first. */
  type Distances = map<string, seq<Distance>>

  /** How one attempt ends: a complete network, or the source throws while placing the station at
      index `at` (`CouldNotFit`), or the supplied draws for that station ran out. */
  datatype Attempt =
    | Built(stations: Stations, distances: Distances, graph: Graph)
    | PlacementFailed(at: nat)
    | DrawsRanOut(at: nat)

  /** Every selected name has a station inside the padded area, with no edges drawn yet, and nothing
      else is stored. */
  ghost predicate PlacedAll(p: Params, s: Stations, names: seq<string>)
  {
    && s.Valid()
    && (forall n :: n in s.byName <==> n in names)
    && (forall n :: n in s.byName ==>
          && s.byName[n].name == n
          && s.byName[n].edges == []
          && InBounds(p, s.byName[n].x, s.byName[n].y))
  }

  /** `ds` is what `computeDistances(name)` may leave: other stations only, each at its measured
      distance, nearest first. */
  ghost predicate Measures(s: Stations, name: string, dist: (int, int, int, int) -> real, ds: seq<Distance>)
    requires name in s.byName
  {
    && SortedByDistance(ds)
    && (forall e :: e in ds ==>
          e.station in s.byName && e.station != name && e.distance == DistanceBetween(s, name, e.station, dist))
  }

  /** The vertex `x` on `k`'s list comes from an entry of `distances`: from `k`'s own entry for
      `x.name`, or from `x.name`'s entry for `k`, and it carries that entry's weight. */
  ghost predicate Justified(d: Distances, k: string, x: Vertex)
  {
    || (k in d && exists e :: e in d[k] && x == Vertex(e.station, Weight(e.distance)))
    || (x.name in d && exists e :: e in d[x.name] && e.station == k && x.weight == Weight(e.distance))
  }

  /** The graph has one list per station and lists each edge at both ends. */
  ghost predicate WellFormed(g: Graph, s: Stations)
  {
    g.Keys == s.byName.Keys && Symmetric(g)
  }

  /** No edge of `n` runs within `radius` of another of `n`'s neighbours. */
  ghost predicate Untangled(g: Graph, s: Stations, intersects: (int, int, int, int, int, int, int) -> bool, radius: int, n: string)
    requires WellFormed(g, s) && n in g
  {
    forall b, c :: b in g[n] && c in g[n] && c.name != b.name ==> !Hits(s, intersects, radius, n, b.name, c.name)
  }

  /** `distances` puts `a` and `c` next to each other, from either side. */
  ghost predicate Adjacent(d: Distances, a: string, c: string)
  {
    || (a in d && exists e :: e in d[a] && e.station == c)
    || (c in d && exists e :: e in d[c] && e.station == a)
  }

  /** The link from `a` to `b` runs through another station that `distances` puts next to `a`: the
      reason `disconnectCollisions(a)` drops it. */
  ghost predicate CutBy(d: Distances, s: Stations, intersects: (int, int, int, int, int, int, int) -> bool, radius: int, a: string, b: string)
  {
    && a in s.byName && b in s.byName
    && exists c :: c in s.byName && c != b && Adjacent(d, a, c) && Hits(s, intersects, radius, a, b, c)
  }

  /** What a completed attempt promises about its network: every station placed in the area (for
      distinct names, in order, each accepted by `canFitStation` against the ones before it); the
      distances measured; a symmetric graph whose edges come from the distances; every measured
      neighbour linked unless the link was cut by a neighbour on the way; and no station's edge
      running through another of its neighbours. */
  ghost predicate Complete(names: seq<string>, p: Params, canFit: (int, int, map<string, Station>) -> bool,
                           dist: (int, int, int, int) -> real, intersects: (int, int, int, int, int, int, int) -> bool, a: Attempt)
    requires a.Built?
  {
    && PlacedAll(p, a.stations, names)
    && (NoRepeats(names) ==> a.stations.keys == names && FittedInOrder(a.stations, canFit))
    && (forall n :: n in a.distances <==> n in names)
    && (forall n :: n in a.distances && n in a.stations.byName ==> Measures(a.stations, n, dist, a.distances[n]))
    && WellFormed(a.graph, a.stations)
    && (forall k, x :: k in a.graph && x in a.graph[k] ==> Justified(a.distances, k, x))
    && (forall n, e :: n in a.distances && e in a.distances[n] ==>
          || (n in a.graph && Lists(a.graph[n], e.station))
          || CutBy(a.distances, a.stations, intersects, 2 * p.stationRadius, n, e.station)
          || CutBy(a.distances, a.stations, intersects, 2 * p.stationRadius, e.station, n))
    && (forall n :: n in a.graph ==> Untangled(a.graph, a.stations, intersects, 2 * p.stationRadius, n))
  }

  /** The outcome of placing every station: all placed, or the attempt stops. */
  datatype Placing = AllPlaced(stations: Stations) | NotPlaced(failure: Attempt)

  /** Placing the station `names[a.at]` on top of the stations `s` ended without a point: the
      in-area rejections reached `abortPlacementAttempts` (`PlacementFailed`), or the draws ran out
      first. */
  ghost predicate StoppedAt(p: Params, canFit: (int, int, map<string, Station>) -> bool, s: Stations, draws: seq<(int, int)>, a: Attempt)
    requires p.vertexExclusionRadius > 0
  {
    || (a.PlacementFailed? &&
        exists n :: 0 <= n <= |draws| && NoneAccepted(p, s, canFit, draws[..n])
          && Rejections(p, s, canFit, draws[..n]) == p.abortPlacementAttempts)
    || (a.DrawsRanOut? && NoneAccepted(p, s, canFit, draws) && Rejections(p, s, canFit, draws) < p.abortPlacementAttempts)
  }

  /** `selectedNames.forEach(name => placeVertex({ name }))` on an empty `stations`; `draws(i)` are the
      random draws for the `i`th name. `placed` is the `stations` object at the end: all of them, or
      the ones before the station that could not be placed. */
  method PlaceAll(names: seq<string>, p: Params, canFit: (int, int, map<string, Station>) -> bool, draws: nat -> seq<(int, int)>)
    returns (r: Placing, ghost placed: Stations)
    requires p.vertexExclusionRadius > 0
    ensures r.AllPlaced? ==> r.stations == placed && PlacedAll(p, placed, names)
    ensures r.NotPlaced? ==>
      && !r.failure.Built? && r.failure.at < |names| && PlacedAll(p, placed, names[..r.failure.at])
      && StoppedAt(p, canFit, placed, draws(r.failure.at), r.failure)
    ensures NoRepeats(names) ==> placed.Valid() && FittedInOrder(placed, canFit)
    ensures NoRepeats(names) ==> placed.keys == if r.AllPlaced? then names else names[..r.failure.at]
    ensures NoRepeats(names) ==> DrawnInOrder(p, placed, canFit, draws)
  {
    var s := NoStations();
    for i := 0 to |names|
      invariant PlacedAll(p, s, names[..i])
      invariant NoRepeats(names) ==> s.keys == names[..i] && FittedInOrder(s, canFit) && DrawnInOrder(p, s, canFit, draws)
    {
      var result := PlaceVertex(s, names[i], p, canFit, draws(i));
      if result.CouldNotFit? {
        return NotPlaced(PlacementFailed(i)), s;
      } else if result.OutOfDraws? {
        return NotPlaced(DrawsRanOut(i)), s;
      }
      PlacedOneMore(p, s, names[..i], names[i], result.x, result.y);
      PrefixGrows(names, i);
      if NoRepeats(names) {
        PlacedInOrder(p, s, names, i, canFit, draws, result.x, result.y);
      }
      s := result.stations;
    }
    assert names[..|names|] == names;
    return AllPlaced(s), s;
  }

  /** For distinct names, storing the next name at the point its own draws gave keeps the keys in name
      order and every station accepted and drawn in order. */
  lemma PlacedInOrder(p: Params, s: Stations, names: seq<string>, i: nat, canFit: (int, int, map<string, Station>) -> bool,
                      draws: nat -> seq<(int, int)>, x: int, y: int)
    requires p.vertexExclusionRadius > 0 && NoRepeats(names) && i < |names|
    requires s.Valid() && s.keys == names[..i] && FittedInOrder(s, canFit) && DrawnInOrder(p, s, canFit, draws)
    requires canFit(x, y, s.byName) && FirstAccepted(p, s, canFit, draws(i), x, y)
    ensures var s' := s.Put(names[i], Station(names[i], x, y, []));
      s'.keys == names[..i + 1] && FittedInOrder(s', canFit) && DrawnInOrder(p, s', canFit, draws)
  {
    assert names[i] !in s.keys;
    PrefixGrows(names, i);
    FittedPut(s, names[i], Station(names[i], x, y, []), canFit);
    DrawnPut(p, s, names[i], Station(names[i], x, y, []), canFit, draws);
  }

  /** Storing one more station inside the area keeps `PlacedAll`. */
  lemma PlacedOneMore(p: Params, s: Stations, names: seq<string>, name: string, x: int, y: int)
    requires PlacedAll(p, s, names) && InBounds(p, x, y)
    ensures PlacedAll(p, s.Put(name, Station(name, x, y, [])), names + [name])
  {
  }

  /** No name after position `j` and before `n` repeats `names[j]`. */
  predicate LastBefore(names: seq<string>, j: nat, n: nat)
    requires j < n <= |names|
  {
    forall m :: j < m < n ==> names[m] != names[j]
  }

  /** Each of the first `|lists|` names that does not come again among them keeps the list of its
      own call. */
  ghost predicate KeptLast(names: seq<string>, lists: seq<seq<Distance>>, d: Distances)
    requires |lists| <= |names|
  {
    forall j :: 0 <= j < |lists| && LastBefore(names, j, |lists|) ==> names[j] in d && d[names[j]] == lists[j]
  }

  /** Storing the next name's list keeps `KeptLast` for one more name. */
  lemma KeptLastOneMore(names: seq<string>, lists: seq<seq<Distance>>, d: Distances, list: seq<Distance>)
    requires |lists| < |names| && KeptLast(names, lists, d)
    ensures KeptLast(names, lists + [list], d[names[|lists|] := list])
  {
    var i := |lists|;
    forall j | 0 <= j < i && LastBefore(names, j, i + 1)
      ensures LastBefore(names, j, i) && names[j] != names[i]
    {
    }
  }

  /** A name that does not occur after position `j` is the last of its kind. */
  lemma NotAfterIsLast(names: seq<string>, j: nat)
    requires j < |names| && names[j] !in names[j + 1..]
    ensures LastBefore(names, j, |names|)
  {
    forall m | j < m < |names|
      ensures names[m] != names[j]
    {
      assert names[m] == names[j + 1..][m - j - 1];
    }
  }

  /** Storing a measured list keeps every stored list measured. */
  lemma StoreMeasured(s: Stations, dist: (int, int, int, int) -> real, d: Distances, n: string, list: seq<Distance>)
    requires forall m :: m in d ==> m in s.byName && Measures(s, m, dist, d[m])
    requires n in s.byName && Measures(s, n, dist, list)
    ensures forall m :: m in d[n := list] ==> m in s.byName && Measures(s, m, dist, d[n := list][m])
  {
  }

  /** `computeDistances(name)` as the build loop sees it: the nearest list, which is a measured
      list. */
  method MeasureOne(s: Stations, name: string, dist: (int, int, int, int) -> real, k: nat) returns (nearest: seq<Distance>)
    requires s.Valid() && name in s.byName
    ensures nearest == Nearest(Measured(s, name, dist), k)
    ensures Measures(s, name, dist, nearest)
  {
    nearest := ComputeDistances(s, name, dist, k);
  }

  /** The lists the `computeDistances` calls for `ns` produce, call by call. */
  ghost function NearestLists(s: Stations, ns: seq<string>, dist: (int, int, int, int) -> real, ks: nat -> nat): (r: seq<seq<Distance>>)
    requires s.Valid() && forall n :: n in ns ==> n in s.byName
    ensures |r| == |ns|
    decreases |ns|
  {
    if ns == [] then []
    else NearestLists(s, ns[..|ns| - 1], dist, ks) + [Nearest(Measured(s, ns[|ns| - 1], dist), ks(|ns| - 1))]
  }

  lemma {:induction false} NearestListsAt(s: Stations, ns: seq<string>, dist: (int, int, int, int) -> real, ks: nat -> nat, j: nat)
    requires s.Valid() && forall n :: n in ns ==> n in s.byName
    requires j < |ns|
    ensures NearestLists(s, ns, dist, ks)[j] == Nearest(Measured(s, ns[j], dist), ks(j))
    decreases |ns|
  {
    if j < |ns| - 1 {
      NearestListsAt(s, ns[..|ns| - 1], dist, ks, j);
    }
  }

  /** After the first `i` calls: the stored names are those `i` names, each stored list is
      measured, and each name keeps the list of its last call among them. */
  ghost predicate MeasuredSoFar(s: Stations, names: seq<string>, dist: (int, int, int, int) -> real,
                                i: nat, lists: seq<seq<Distance>>, d: Distances)
    requires i <= |names| && |lists| == i
  {
    && (forall n :: n in d <==> n in names[..i])
    && (forall n :: n in d ==> n in s.byName && Measures(s, n, dist, d[n]))
    && KeptLast(names, lists, d)
  }

  /** Storing the `i`th call's measured list keeps `MeasuredSoFar` for one more call. */
  lemma MeasuredOneMore(s: Stations, names: seq<string>, dist: (int, int, int, int) -> real,
                        i: nat, lists: seq<seq<Distance>>, d: Distances, nearest: seq<Distance>)
    requires i < |names| && |lists| == i && MeasuredSoFar(s, names, dist, i, lists, d)
    requires names[i] in s.byName && Measures(s, names[i], dist, nearest)
    ensures MeasuredSoFar(s, names, dist, i + 1, lists + [nearest], d[names[i] := nearest])
  {
    KeptLastOneMore(names, lists, d, nearest);
    StoreMeasured(s, dist, d, names[i], nearest);
    PrefixGrows(names, i);
  }

  /** The `i`th `computeDistances` call as the build loop sees it: the list `NearestLists`
      records for that call, which is a measured list. */
  method MeasureCall(s: Stations, names: seq<string>, dist: (int, int, int, int) -> real, ks: nat -> nat,
                     i: nat, ghost want: seq<seq<Distance>>)
    returns (nearest: seq<Distance>)
    requires s.Valid() && forall n :: n in names ==> n in s.byName
    requires i < |names| && want == NearestLists(s, names, dist, ks)
    ensures nearest == want[i] && Measures(s, names[i], dist, nearest)
  {
    nearest := MeasureOne(s, names[i], dist, ks(i));
    NearestListsAt(s, names, dist, ks, i);
  }

  /** Once every call is made, each name keeps the list of its last call. */
  lemma MeasuredAll(s: Stations, names: seq<string>, dist: (int, int, int, int) -> real, ks: nat -> nat,
                    lists: seq<seq<Distance>>, d: Distances)
    requires s.Valid() && forall n :: n in names ==> n in s.byName
    requires lists == NearestLists(s, names, dist, ks) && MeasuredSoFar(s, names, dist, |names|, lists, d)
    ensures forall n :: n in d <==> n in names
    ensures forall i :: 0 <= i < |names| && names[i] !in names[i + 1..] ==>
      d[names[i]] == Nearest(Measured(s, names[i], dist), ks(i))
  {
    assert names[..|names|] == names;
    forall i | 0 <= i < |names| && names[i] !in names[i + 1..]
      ensures d[names[i]] == Nearest(Measured(s, names[i], dist), ks(i))
    {
      NotAfterIsLast(names, i);
      assert d[names[i]] == lists[i];
      NearestListsAt(s, names, dist, ks, i);
    }
  }

  /** `selectedNames.forEach(computeDistances)`: `ks(i)` is the number drawn for the `i`th name. A
      name listed twice is measured twice and keeps its second list. */
  method MeasureAll(s: Stations, names: seq<string>, dist: (int, int, int, int) -> real, ks: nat -> nat)
    returns (d: Distances)
    requires s.Valid() && forall n :: n in names ==> n in s.byName
    ensures forall n :: n in d <==> n in names
    ensures forall n :: n in d ==> n in s.byName && Measures(s, n, dist, d[n])
    ensures forall i :: 0 <= i < |names| && names[i] !in names[i + 1..] ==>
      d[names[i]] == Nearest(Measured(s, names[i], dist), ks(i))
  {
    ghost var want := NearestLists(s, names, dist, ks);
    d := map[];
    ghost var lists: seq<seq<Distance>> := [];
    for i := 0 to |names|
      invariant lists == want[..i]
      invariant MeasuredSoFar(s, names, dist, i, lists, d)
    {
      var nearest := MeasureCall(s, names, dist, ks, i, want);
      MeasuredOneMore(s, names, dist, i, lists, d, nearest);
      PrefixGrows(want, i);
      d := d[names[i] := nearest];
      lists := lists + [nearest];
    }
    assert lists == want;
    MeasuredAll(s, names, dist, ks, lists, d);
  }

  /** The prefix one longer ends in the next element. */
  lemma PrefixGrows<T>(xs: seq<T>, i: nat)
    requires i < |xs|
    ensures xs[..i + 1] == xs[..i] + [xs[i]]
  {
  }

  /** `x` put on `k`'s list by `addEdges(name)` comes from `name`'s entries. */
  lemma AddedIsJustified(d: Distances, name: string, k: string, x: Vertex)
    requires name in d && AddedFor(name, d[name], k, x)
    ensures Justified(d, k, x)
  {
    var j :| 0 <= j < |d[name]| && AddedAt(name, d[name], j, k, x);
    var e := d[name][j];
    if k == name && x == Vertex(e.station, Weight(e.distance)) {
      assert e in d[k];
    } else {
      assert x.name == name && e in d[x.name] && e.station == k;
    }
  }

  /** The graph after `addEdges` has run for the names in `done`: one list per name of `all`, each
      edge listed at both ends and justified by `distances`, and every entry of a name in `done`
      linked both ways. */
  ghost predicate LinkedSoFar(all: seq<string>, done: seq<string>, d: Distances, g: Graph)
  {
    && (forall n :: n in g <==> n in all)
    && (forall n :: n in done ==> n in all)
    && (forall n, e :: n in d && e in d[n] ==> e.station in all)
    && Symmetric(g)
    && (forall k, x :: k in g && x in g[k] ==> Justified(d, k, x))
    && (forall n, e :: n in done && n in d && e in d[n] ==> Lists(g[n], e.station) && Lists(g[e.station], n))
  }

  /** One more `addEdges(name)` call, as its contract describes it, extends `LinkedSoFar` by `name`. */
  lemma LinkedOneMore(all: seq<string>, done: seq<string>, d: Distances, g: Graph, name: string, r: Graph)
    requires LinkedSoFar(all, done, d, g) && name in d && name in all
    requires r.Keys == g.Keys && Symmetric(r)
    requires forall k :: k in g ==> g[k] <= r[k]
    requires forall e :: e in d[name] ==> Lists(r[name], e.station) && Lists(r[e.station], name)
    requires forall k, x :: k in g && x in r[k] && x !in g[k] ==> AddedFor(name, d[name], k, x)
    ensures LinkedSoFar(all, done + [name], d, r)
  {
    forall k, x | k in r && x in r[k]
      ensures Justified(d, k, x)
    {
      if x !in g[k] {
        AddedIsJustified(d, name, k, x);
      }
    }
    forall n, e | n in done + [name] && n in d && e in d[n]
      ensures Lists(r[n], e.station) && Lists(r[e.station], n)
    {
      if n != name {
        ListedStaysListed(g[n], r[n], e.station);
        ListedStaysListed(g[e.station], r[e.station], n);
      }
    }
  }

  /** The graph after `new RailRoadGraph(all)` and the `addEdges` calls for the names in `done`, in
      that order. */
  ghost function LinkAll(all: seq<string>, done: seq<string>, d: Distances): (g: Graph)
    requires forall n :: n in done ==> n in d && n in all
    requires forall n, e :: n in d && e in d[n] ==> e.station in all
    ensures forall n :: n in g <==> n in all
    decreases |done|, 1
  {
    if done == [] then NewGraph(all) else LinkLast(all, done, d)
  }

  /** The `addEdges` call for the last name of `done`, on the graph the calls before it left. */
  ghost function LinkLast(all: seq<string>, done: seq<string>, d: Distances): (g: Graph)
    requires done != []
    requires forall n :: n in done ==> n in d && n in all
    requires forall n, e :: n in d && e in d[n] ==> e.station in all
    ensures forall n :: n in g <==> n in all
    decreases |done|, 0
  {
    var name := done[|done| - 1];
    AddAll(LinkAll(all, done[..|done| - 1], d), name, d[name])
  }

  /** The `addEdges` calls for `done` leave the graph as `LinkedSoFar` describes, with no station
      listed twice on any list. */
  lemma {:induction false} LinkAllLinks(all: seq<string>, done: seq<string>, d: Distances)
    requires forall n :: n in done ==> n in d && n in all
    requires forall n, e :: n in d && e in d[n] ==> e.station in all
    ensures LinkedSoFar(all, done, d, LinkAll(all, done, d))
    ensures forall n :: n in LinkAll(all, done, d) ==> DistinctNames(LinkAll(all, done, d)[n])
    decreases |done|
  {
    if done != [] {
      var i := |done| - 1;
      var name := done[i];
      assert done[..i] + [name] == done;
      var before := LinkAll(all, done[..i], d);
      assert LinkAll(all, done, d) == AddAll(before, name, d[name]);
      LinkAllLinks(all, done[..i], d);
      AddAllAdds(before, name, d[name]);
      LinkedOneMore(all, done[..i], d, before, name, AddAll(before, name, d[name]));
    }
  }

  /** `new RailRoadGraph(selectedNames)` followed by `selectedNames.forEach(name => addEdges(name, rr))`. */
  method ConnectAll(names: seq<string>, d: Distances) returns (g: Graph)
    requires forall n :: n in names ==> n in d
    requires forall n, e :: n in d && e in d[n] ==> e.station in names
    ensures g == LinkAll(names, names, d)
    ensures forall n :: n in g <==> n in names
    ensures Symmetric(g)
    ensures forall k, x :: k in g && x in g[k] ==> Justified(d, k, x)
    ensures forall n, e :: n in names && e in d[n] ==> Lists(g[n], e.station) && Lists(g[e.station], n)
    ensures forall n :: n in g ==> DistinctNames(g[n])
  {
    g := NewGraph(names);
    for i := 0 to |names|
      invariant g == LinkAll(names, names[..i], d)
    {
      PrefixGrows(names, i);
      assert names[..i + 1][..i] == names[..i];
      g := AddEdges(g, names[i], d[names[i]]);
      assert g == LinkLast(names, names[..i + 1], d);
    }
    assert names[..|names|] == names;
    LinkAllLinks(names, names, d);
  }

  /** Dropping edges keeps every station untangled. */
  lemma UntangledShrinks(g: Graph, r: Graph, s: Stations, intersects: (int, int, int, int, int, int, int) -> bool, radius: int, n: string)
    requires WellFormed(g, s) && WellFormed(r, s) && n in g
    requires forall x :: x in r[n] ==> x in g[n]
    requires Untangled(g, s, intersects, radius, n)
    ensures Untangled(r, s, intersects, radius, n)
  {
    forall b, c | b in r[n] && c in r[n] && c.name != b.name
      ensures !Hits(s, intersects, radius, n, b.name, c.name)
    {
      assert b in g[n] && c in g[n];
    }
  }

  /** The edge from `a` to `b` runs through another neighbour of `a` in `g`. */
  ghost predicate BlockedIn(g: Graph, s: Stations, intersects: (int, int, int, int, int, int, int) -> bool, radius: int, a: string, b: string)
  {
    && a in g && a in s.byName && (forall x :: x in g[a] ==> x.name in s.byName)
    && Blocked(g, s, intersects, radius, a, b)
  }

  /** The edge from `k` to `x` of `g` is blocked at one of its ends, at a station of `names`. */
  ghost predicate RemovedAsBlocked(g: Graph, s: Stations, intersects: (int, int, int, int, int, int, int) -> bool, radius: int,
                                   names: seq<string>, k: string, x: Vertex)
  {
    || (k in names && BlockedIn(g, s, intersects, radius, k, x.name))
    || (x.name in names && BlockedIn(g, s, intersects, radius, x.name, k))
  }

  /** An edge blocked in a graph is blocked in any graph whose list at its origin holds more. */
  lemma BlockedInLarger(h: Graph, g: Graph, s: Stations, intersects: (int, int, int, int, int, int, int) -> bool, radius: int, a: string, b: string)
    requires a in g && forall x :: x in g[a] ==> x.name in s.byName
    requires BlockedIn(h, s, intersects, radius, a, b)
    requires forall x :: x in h[a] ==> x in g[a]
    ensures BlockedIn(g, s, intersects, radius, a, b)
  {
    var x :| x in h[a] && x.name == b;
    var c :| c in h[a] && c.name != b && Hits(s, intersects, radius, a, b, c.name);
    assert x in g[a] && c in g[a];
  }

  /** One more `disconnectCollisions(name)` call keeps every edge removed so far blocked in the
      graph before pruning. */
  lemma RemovedStaysBlocked(g: Graph, before: Graph, r: Graph, s: Stations, intersects: (int, int, int, int, int, int, int) -> bool,
                            radius: int, names: seq<string>, name: string)
    requires WellFormed(g, s) && WellFormed(before, s) && name in names && name in before
    requires forall k, x :: k in before && x in before[k] ==> x in g[k]
    requires forall k, x :: k in g && x in g[k] && x !in before[k] ==> RemovedAsBlocked(g, s, intersects, radius, names, k, x)
    requires r.Keys == before.Keys && OnlyBlockedRemoved(before, r, s, intersects, radius, name)
    ensures forall k, x :: k in g && x in g[k] && x !in r[k] ==> RemovedAsBlocked(g, s, intersects, radius, names, k, x)
  {
    forall k, x | k in g && x in g[k] && x !in r[k]
      ensures RemovedAsBlocked(g, s, intersects, radius, names, k, x)
    {
      if x in before[k] {
        assert forall y :: y in g[name] ==> y.name in s.byName;
        assert BlockedEdge(before, s, intersects, radius, name, k, x);
        if k == name && Blocked(before, s, intersects, radius, name, x.name) {
          BlockedInLarger(before, g, s, intersects, radius, name, x.name);
        } else {
          BlockedInLarger(before, g, s, intersects, radius, name, k);
        }
      }
    }
  }

  /** `selectedNames.forEach(name => disconnectCollisions(name, rr))`. */
  method PruneAll(g: Graph, s: Stations, names: seq<string>, p: Params, intersects: (int, int, int, int, int, int, int) -> bool)
    returns (r: Graph)
    requires WellFormed(g, s) && forall n :: n in names ==> n in g
    ensures WellFormed(r, s)
    ensures forall k, x :: k in r && x in r[k] ==> x in g[k]
    ensures forall k, x :: k in g && x in g[k] && x !in r[k] ==> RemovedAsBlocked(g, s, intersects, 2 * p.stationRadius, names, k, x)
    ensures forall n :: n in names ==> Untangled(r, s, intersects, 2 * p.stationRadius, n)
  {
    var radius := 2 * p.stationRadius;
    r := g;
    for i := 0 to |names|
      invariant WellFormed(r, s)
      invariant forall k, x :: k in r && x in r[k] ==> x in g[k]
      invariant forall k, x :: k in g && x in g[k] && x !in r[k] ==> RemovedAsBlocked(g, s, intersects, radius, names, k, x)
      invariant forall n :: n in names[..i] ==> Untangled(r, s, intersects, radius, n)
    {
      var name := names[i];
      ghost var before := r;
      r := DisconnectCollisions(r, s, name, p, intersects);
      assert OnlyNameTouched(before, r, name);
      RemovedStaysBlocked(g, before, r, s, intersects, radius, names, name);
      forall n | n in names[..i + 1]
        ensures Untangled(r, s, intersects, radius, n)
      {
        if n != name {
          assert n in names[..i] by {
            PrefixGrows(names, i);
          }
          UntangledShrinks(before, r, s, intersects, radius, n);
        }
      }
    }
    assert names[..|names|] == names;
  }

  /** A vertex justified by the distances is a station they put next to its list's owner. */
  lemma JustifiedAdjacent(d: Distances, k: string, x: Vertex)
    requires Justified(d, k, x)
    ensures Adjacent(d, k, x.name)
  {
    if k in d && exists e :: e in d[k] && x == Vertex(e.station, Weight(e.distance)) {
      var e :| e in d[k] && x == Vertex(e.station, Weight(e.distance));
      assert e.station == x.name;
    }
  }

  /** An edge blocked in a graph whose edges all come from the distances was cut by a station the
      distances put next to its origin. */
  lemma CutFromBlocked(d: Distances, linked: Graph, s: Stations, intersects: (int, int, int, int, int, int, int) -> bool,
                       radius: int, a: string, b: string)
    requires BlockedIn(linked, s, intersects, radius, a, b) && b in s.byName
    requires forall x :: x in linked[a] ==> Justified(d, a, x)
    ensures CutBy(d, s, intersects, radius, a, b)
  {
    var c :| c in linked[a] && c.name != b && Hits(s, intersects, radius, a, b, c.name);
    JustifiedAdjacent(d, a, c);
  }

  /** A measured neighbour that was linked is still linked after pruning, unless a station next to
      one of its ends lies on the way. */
  lemma KeptOrCut(d: Distances, linked: Graph, g: Graph, s: Stations, intersects: (int, int, int, int, int, int, int) -> bool,
                  radius: int, names: seq<string>, n: string, b: string)
    requires n in linked && b in linked && n in s.byName && b in s.byName && Lists(linked[n], b)
    requires g.Keys == linked.Keys
    requires forall x :: x in linked[n] ==> Justified(d, n, x)
    requires forall x :: x in linked[b] ==> Justified(d, b, x)
    requires forall x :: x in linked[n] && x !in g[n] ==> RemovedAsBlocked(linked, s, intersects, radius, names, n, x)
    ensures Lists(g[n], b) || CutBy(d, s, intersects, radius, n, b) || CutBy(d, s, intersects, radius, b, n)
  {
    var x :| x in linked[n] && x.name == b;
    if x !in g[n] {
      if n in names && BlockedIn(linked, s, intersects, radius, n, b) {
        CutFromBlocked(d, linked, s, intersects, radius, n, b);
      } else {
        CutFromBlocked(d, linked, s, intersects, radius, b, n);
      }
    }
  }

  /** One pass of `render` from `stations = {}` to the pruned graph. `placed` is the `stations`
      object when placing stops. */
  method BuildAttempt(names: seq<string>, p: Params, canFit: (int, int, map<string, Station>) -> bool,
                      draws: nat -> seq<(int, int)>, ks: nat -> nat, dist: (int, int, int, int) -> real,
                      intersects: (int, int, int, int, int, int, int) -> bool)
    returns (a: Attempt, ghost placed: Stations)
    requires p.vertexExclusionRadius > 0
    ensures a.Built? ==> Complete(names, p, canFit, dist, intersects, a)
    ensures a.Built? ==> forall i :: 0 <= i < |names| && names[i] !in names[i + 1..] ==>
      && names[i] in a.distances && names[i] in a.stations.byName && a.stations.Valid()
      && a.distances[names[i]] == Nearest(Measured(a.stations, names[i], dist), ks(i))
    ensures a.Built? && NoRepeats(names) ==> DrawnInOrder(p, a.stations, canFit, draws)
    ensures !a.Built? ==>
      && a.at < |names| && PlacedAll(p, placed, names[..a.at])
      && StoppedAt(p, canFit, placed, draws(a.at), a)
  {
    var placing;
    placing, placed := PlaceAll(names, p, canFit, draws);
    if placing.NotPlaced? {
      return placing.failure, placed;
    }
    var d := MeasureAll(placing.stations, names, dist, ks);
    a := LinkAndPrune(names, p, canFit, placing.stations, d, dist, intersects);
  }

  /** The linking and pruning passes over measured distances. */
  method LinkAndPrune(names: seq<string>, p: Params, canFit: (int, int, map<string, Station>) -> bool, s: Stations, d: Distances,
                      dist: (int, int, int, int) -> real, intersects: (int, int, int, int, int, int, int) -> bool)
    returns (a: Attempt)
    requires PlacedAll(p, s, names)
    requires NoRepeats(names) ==> s.keys == names && FittedInOrder(s, canFit)
    requires forall n :: n in d <==> n in names
    requires forall n :: n in d ==> n in s.byName && Measures(s, n, dist, d[n])
    ensures a.Built? && a.stations == s && a.distances == d && Complete(names, p, canFit, dist, intersects, a)
  {
    var linked := ConnectAll(names, d);
    var g := PruneAll(linked, s, names, p, intersects);
    a := Built(s, d, g);
    Assembled(names, p, canFit, dist, intersects, s, d, linked, g);
  }

  /** The four passes together give a complete network. */
  lemma Assembled(names: seq<string>, p: Params, canFit: (int, int, map<string, Station>) -> bool,
                  dist: (int, int, int, int) -> real, intersects: (int, int, int, int, int, int, int) -> bool,
                  s: Stations, d: Distances, linked: Graph, g: Graph)
    requires PlacedAll(p, s, names)
    requires NoRepeats(names) ==> s.keys == names && FittedInOrder(s, canFit)
    requires forall n :: n in d <==> n in names
    requires forall n :: n in d ==> n in s.byName && Measures(s, n, dist, d[n])
    requires forall n :: n in linked <==> n in names
    requires Symmetric(linked)
    requires forall k, x :: k in linked && x in linked[k] ==> Justified(d, k, x)
    requires forall n, e :: n in names && e in d[n] ==> Lists(linked[n], e.station)
    requires WellFormed(g, s)
    requires forall k, x :: k in g && x in g[k] ==> x in linked[k]
    requires forall k, x :: k in linked && x in linked[k] && x !in g[k] ==>
      RemovedAsBlocked(linked, s, intersects, 2 * p.stationRadius, names, k, x)
    requires forall n :: n in names ==> Untangled(g, s, intersects, 2 * p.stationRadius, n)
    ensures Complete(names, p, canFit, dist, intersects, Built(s, d, g))
  {
    PrunedJustified(d, linked, g);
    forall n, e | n in d && e in d[n]
      ensures e.station in linked && e.station in s.byName
    {
      assert Measures(s, n, dist, d[n]);
    }
    AllKeptOrCut(d, linked, g, s, intersects, 2 * p.stationRadius, names);
  }

  /** Pruning keeps every edge justified by the distances. */
  lemma PrunedJustified(d: Distances, linked: Graph, g: Graph)
    requires g.Keys == linked.Keys
    requires forall k, x :: k in linked && x in linked[k] ==> Justified(d, k, x)
    requires forall k, x :: k in g && x in g[k] ==> x in linked[k]
    ensures forall k, x :: k in g && x in g[k] ==> Justified(d, k, x)
  {
    forall k, x | k in g && x in g[k]
      ensures Justified(d, k, x)
    {
      assert x in linked[k];
    }
  }

  /** Every measured neighbour is still linked after pruning, or the link was cut. */
  lemma AllKeptOrCut(d: Distances, linked: Graph, g: Graph, s: Stations, intersects: (int, int, int, int, int, int, int) -> bool,
                     radius: int, names: seq<string>)
    requires forall n :: n in d ==> n in linked && n in s.byName
    requires forall n, e :: n in d && e in d[n] ==> e.station in linked && e.station in s.byName && Lists(linked[n], e.station)
    requires g.Keys == linked.Keys
    requires forall k, x :: k in linked && x in linked[k] ==> Justified(d, k, x)
    requires forall k, x :: k in linked && x in linked[k] && x !in g[k] ==> RemovedAsBlocked(linked, s, intersects, radius, names, k, x)
    ensures forall n, e :: n in d && e in d[n] ==>
      || (n in g && Lists(g[n], e.station))
      || CutBy(d, s, intersects, radius, n, e.station)
      || CutBy(d, s, intersects, radius, e.station, n)
  {
    forall n: string, e: Distance | n in d && e in d[n]
      ensures (n in g && Lists(g[n], e.station))
        || CutBy(d, s, intersects, radius, n, e.station)
        || CutBy(d, s, intersects, radius, e.station, n)
    {
      KeptOrCut(d, linked, g, s, intersects, radius, names, n, e.station);
    }
  }
}
