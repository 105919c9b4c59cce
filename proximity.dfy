/** Nearest-neighbour edges and collision pruning (renderer.ts `computeDistances`, `addEdges`,
    `disconnectCollisions`). */
module Proximity {
  import opened Types
  import opened RailRoad
  import opened Placement

  /** One entry of `distances[name]`: another station and how far it is. */
  datatype Distance = Distance(station: string, distance: real)

  function Min(a: int, b: int): int
  {
    if a <= b then a else b
  }

  predicate SortedByDistance(s: seq<Distance>)
  {
    forall i, j :: 0 <= i < j < |s| ==> s[i].distance <= s[j].distance
  }

  /** Insert an entry into a sorted list, before every entry at least as far. */
  function Insert(e: Distance, t: seq<Distance>): (r: seq<Distance>)
    requires SortedByDistance(t)
    ensures SortedByDistance(r)
    ensures multiset(r) == multiset(t) + multiset{e}
    ensures forall x :: x in r ==> x == e || x in t
    decreases |t|
  {
    if t == [] || e.distance <= t[0].distance then [e] + t
    else
      var rest := Insert(e, t[1..]);
      BehindHead(e, t, rest);
      [t[0]] + rest
  }

  /** Putting the head of `t` back in front of `e` inserted into the tail of `t`. */
  lemma BehindHead(e: Distance, t: seq<Distance>, rest: seq<Distance>)
    requires SortedByDistance(t) && t != [] && t[0].distance < e.distance
    requires SortedByDistance(rest)
    requires multiset(rest) == multiset(t[1..]) + multiset{e}
    requires forall x :: x in rest ==> x == e || x in t[1..]
    ensures SortedByDistance([t[0]] + rest)
    ensures multiset([t[0]] + rest) == multiset(t) + multiset{e}
    ensures forall x :: x in [t[0]] + rest ==> x == e || x in t
  {
    assert t == [t[0]] + t[1..];
    forall x | x in rest
      ensures t[0].distance <= x.distance
    {
      if x != e {
        var j :| 1 <= j < |t| && t[j] == x;
      }
    }
  }

  /** `sort((a, b) => a.distance - b.distance)`: ascending by distance, stable. */
  function SortByDistance(s: seq<Distance>): (r: seq<Distance>)
    ensures SortedByDistance(r)
    ensures multiset(r) == multiset(s)
    decreases |s|
  {
    if s == [] then []
    else
      assert s == [s[0]] + s[1..];
      Insert(s[0], SortByDistance(s[1..]))
  }

  /** The entries at exactly distance `d`, in their order. */
  function WithDistance(s: seq<Distance>, d: real): seq<Distance>
    decreases |s|
  {
    if s == [] then [] else (if s[0].distance == d then [s[0]] else []) + WithDistance(s[1..], d)
  }

  lemma {:induction false} WithDistanceAppend(a: seq<Distance>, b: seq<Distance>, d: real)
    ensures WithDistance(a + b, d) == WithDistance(a, d) + WithDistance(b, d)
    decreases |a|
  {
    if a != [] {
      WithDistanceAppend(a[1..], b, d);
      assert (a + b)[0] == a[0];
      assert (a + b)[1..] == a[1..] + b;
    } else {
      assert a + b == b;
    }
  }

  lemma {:induction false} InsertIsStable(e: Distance, t: seq<Distance>, d: real)
    requires SortedByDistance(t)
    ensures WithDistance(Insert(e, t), d) == (if e.distance == d then [e] else []) + WithDistance(t, d)
    decreases |t|
  {
    if t == [] || e.distance <= t[0].distance {
      WithDistanceAppend([e], t, d);
    } else {
      InsertIsStable(e, t[1..], d);
      WithDistanceAppend([t[0]], Insert(e, t[1..]), d);
      WithDistanceAppend([t[0]], t[1..], d);
      assert t == [t[0]] + t[1..];
    }
  }

  /** The sort is stable: entries at equal distance keep their order. */
  lemma {:induction false} SortIsStable(s: seq<Distance>, d: real)
    ensures WithDistance(SortByDistance(s), d) == WithDistance(s, d)
    decreases |s|
  {
    if s != [] {
      SortIsStable(s[1..], d);
      InsertIsStable(s[0], SortByDistance(s[1..]), d);
    }
  }

  /** `sort(...).slice(0, k)`: at most k of the entries. */
  function Nearest(s: seq<Distance>, k: nat): (r: seq<Distance>)
    ensures |r| <= k
    ensures forall e :: e in r ==> e in s
  {
    var sorted := SortByDistance(s);
    var m := Min(k, |sorted|);
    assert forall e :: e in sorted[..m] ==> e in sorted;
    assert forall e :: e in sorted ==> e in multiset(s);
    sorted[..m]
  }

  lemma {:induction false} WithDistancePrefix(s: seq<Distance>, m: nat, d: real)
    requires m <= |s|
    ensures WithDistance(s[..m], d) <= WithDistance(s, d)
  {
    assert s == s[..m] + s[m..];
    WithDistanceAppend(s[..m], s[m..], d);
  }

  /** What a cut of a multiset leaves out lies in the dropped part. */
  lemma DroppedFromCut(s: seq<Distance>, sorted: seq<Distance>, m: nat, f: Distance)
    requires multiset(sorted) == multiset(s) && m <= |sorted|
    requires f in multiset(s) - multiset(sorted[..m])
    ensures f in sorted[m..]
  {
    assert sorted == sorted[..m] + sorted[m..];
    assert multiset(sorted) == multiset(sorted[..m]) + multiset(sorted[m..]);
  }

  /** The selection keeps the k first entries of the sorted list (or all of them), in ascending order. */
  lemma NearestIsSortedPrefix(s: seq<Distance>, k: nat)
    ensures |Nearest(s, k)| == Min(k, |s|)
    ensures SortedByDistance(Nearest(s, k))
    ensures multiset(Nearest(s, k)) <= multiset(s)
  {
    var sorted := SortByDistance(s);
    var m := Min(k, |sorted|);
    assert |sorted| == |s| by {
      assert |multiset(sorted)| == |multiset(s)|;
    }
    assert sorted == sorted[..m] + sorted[m..];
    assert multiset(sorted) == multiset(sorted[..m]) + multiset(sorted[m..]);
  }

  /** Nothing the selection drops is closer than anything it keeps. */
  lemma NearestIsClosest(s: seq<Distance>, k: nat)
    ensures forall e, f :: e in Nearest(s, k) && f in multiset(s) - multiset(Nearest(s, k)) ==> e.distance <= f.distance
  {
    var sorted := SortByDistance(s);
    var m := Min(k, |sorted|);
    var kept := sorted[..m];
    forall e, f | e in kept && f in multiset(s) - multiset(kept)
      ensures e.distance <= f.distance
    {
      DroppedFromCut(s, sorted, m, f);
      var i :| 0 <= i < m && sorted[i] == e;
      var j :| m <= j < |sorted| && sorted[j] == f;
    }
  }

  /** Among entries at equal distance, the selection keeps the earliest ones, in their order. */
  lemma NearestKeepsTieOrder(s: seq<Distance>, k: nat, d: real)
    ensures WithDistance(Nearest(s, k), d) <= WithDistance(s, d)
  {
    var sorted := SortByDistance(s);
    WithDistancePrefix(sorted, Min(k, |sorted|), d);
    SortIsStable(s, d);
  }

  /** `+(d / 10).toFixed(0)`: the edge weight, a tenth of the distance rounded to the nearest whole
      number, halves away from zero. */
  function Weight(d: real): (w: int)
    ensures d >= 0.0 ==> 10.0 * (w as real) - 5.0 <= d < 10.0 * (w as real) + 5.0
    ensures d < 0.0 ==> 10.0 * (w as real) - 5.0 < d <= 10.0 * (w as real) + 5.0
  {
    var q := d / 10.0;
    if q >= 0.0 then (q + 0.5).Floor else -((0.5 - q).Floor)
  }

  /** `Object.keys(stations).filter(k => k !== name)`. */
  function Others(keys: seq<string>, name: string): (r: seq<string>)
    ensures forall k :: k in r <==> k in keys && k != name
    decreases |keys|
  {
    if keys == [] then [] else (if keys[0] == name then [] else [keys[0]]) + Others(keys[1..], name)
  }

  lemma {:induction false} OthersLength(keys: seq<string>, name: string)
    requires forall i, j :: 0 <= i < j < |keys| ==> keys[i] != keys[j]
    ensures |Others(keys, name)| == if name in keys then |keys| - 1 else |keys|
    decreases |keys|
  {
    if keys != [] {
      OthersLength(keys[1..], name);
      assert keys == [keys[0]] + keys[1..];
    }
  }

  /** `pointDistance(target.x(), value.x(), target.y(), value.y())` between two placed stations. */
  function DistanceBetween(s: Stations, a: string, b: string, dist: (int, int, int, int) -> real): real
    requires a in s.byName && b in s.byName
  {
    dist(s.byName[a].x, s.byName[b].x, s.byName[a].y, s.byName[b].y)
  }

  /** The list `computeDistances` pushes before sorting: every other station, in key order. */
  function Measured(s: Stations, name: string, dist: (int, int, int, int) -> real): (m: seq<Distance>)
    requires s.Valid() && name in s.byName
    ensures |m| == |Others(s.keys, name)|
  {
    var others := Others(s.keys, name);
    seq(|others|, j requires 0 <= j < |others| => Distance(others[j], DistanceBetween(s, name, others[j], dist)))
  }

  lemma MeasuredListsEveryOther(s: Stations, name: string, dist: (int, int, int, int) -> real, key: string)
    requires s.Valid() && name in s.byName && key in s.byName && key != name
    ensures Distance(key, DistanceBetween(s, name, key, dist)) in Measured(s, name, dist)
  {
    var others := Others(s.keys, name);
    assert key in others;
    var j :| 0 <= j < |others| && others[j] == key;
    assert Measured(s, name, dist)[j] == Distance(key, DistanceBetween(s, name, key, dist));
  }

  function StationsOf(ds: seq<Distance>): set<string>
  {
    set e | e in ds :: e.station
  }

  /** `computeDistances(name)`: measure every other station, sort ascending and keep the first `k`,
      where `k` is the drawn `randBetween(1, 3)`. */
  method ComputeDistances(s: Stations, name: string, dist: (int, int, int, int) -> real, k: nat) returns (nearest: seq<Distance>)
    requires s.Valid() && name in s.byName
    ensures nearest == Nearest(Measured(s, name, dist), k)
    ensures |nearest| == Min(k, |s.keys| - 1)
    ensures forall e :: e in nearest ==>
      e.station in s.byName && e.station != name && e.distance == DistanceBetween(s, name, e.station, dist)
    ensures SortedByDistance(nearest)
    ensures forall e, key :: e in nearest && key in s.byName && key != name && key !in StationsOf(nearest) ==>
      e.distance <= DistanceBetween(s, name, key, dist)
    ensures forall d :: WithDistance(nearest, d) <= WithDistance(Measured(s, name, dist), d)
  {
    var keys := Others(s.keys, name);
    var target := s.byName[name];
    var entries: seq<Distance> := [];
    for j := 0 to |keys|
      invariant entries == Measured(s, name, dist)[..j]
    {
      var value := s.byName[keys[j]];
      entries := entries + [Distance(keys[j], dist(target.x, value.x, target.y, value.y))];
    }
    assert entries == Measured(s, name, dist);
    nearest := Nearest(entries, k);
    NearestIsSortedPrefix(entries, k);
    forall d | true
      ensures WithDistance(nearest, d) <= WithDistance(entries, d)
    {
      NearestKeepsTieOrder(entries, k, d);
    }
    OthersLength(s.keys, name);
    NearestAreOthers(s, name, dist, k);
    NearestAreClosestOthers(s, name, dist, k);
  }

  /** The kept entries name other stations, each at its measured distance. */
  lemma NearestAreOthers(s: Stations, name: string, dist: (int, int, int, int) -> real, k: nat)
    requires s.Valid() && name in s.byName
    ensures forall e :: e in Nearest(Measured(s, name, dist), k) ==>
      e.station in s.byName && e.station != name && e.distance == DistanceBetween(s, name, e.station, dist)
  {
    var entries := Measured(s, name, dist);
    NearestIsSortedPrefix(entries, k);
    forall e | e in Nearest(entries, k)
      ensures e.station in s.byName && e.station != name && e.distance == DistanceBetween(s, name, e.station, dist)
    {
      assert e in multiset(entries);
    }
  }

  /** No station left out is nearer than a kept one. */
  lemma NearestAreClosestOthers(s: Stations, name: string, dist: (int, int, int, int) -> real, k: nat)
    requires s.Valid() && name in s.byName
    ensures var nearest := Nearest(Measured(s, name, dist), k);
      forall e, key :: e in nearest && key in s.byName && key != name && key !in StationsOf(nearest) ==>
        e.distance <= DistanceBetween(s, name, key, dist)
  {
    var entries := Measured(s, name, dist);
    var nearest := Nearest(entries, k);
    NearestIsSortedPrefix(entries, k);
    NearestIsClosest(entries, k);
    forall e, key | e in nearest && key in s.byName && key != name && key !in StationsOf(nearest)
      ensures e.distance <= DistanceBetween(s, name, key, dist)
    {
      var f := Distance(key, DistanceBetween(s, name, key, dist));
      MeasuredListsEveryOther(s, name, dist, key);
      assert f !in nearest;
      assert f in multiset(entries) - multiset(nearest);
    }
  }

  /** What `addEdges(name)` has done to `g` after the calls for `entries`: the same stations, symmetry
      kept, every old list a prefix of its new one, each entry linked both ways, and every new
      vertex put there by one of the entries. */
  ghost predicate EdgesAdded(g: Graph, name: string, entries: seq<Distance>, r: Graph)
    requires name in g && forall e :: e in entries ==> e.station in g
  {
    && r.Keys == g.Keys
    && (Symmetric(g) ==> Symmetric(r))
    && (forall k :: k in g ==> g[k] <= r[k])
    && (forall e :: e in entries ==> Lists(r[name], e.station) && Lists(r[e.station], name))
    && (forall k, x :: k in g && x in r[k] && x !in g[k] ==> AddedFor(name, entries, k, x))
  }

  /** The `addEdge` call for one more entry extends `EdgesAdded` by that entry. */
  lemma AddEdgeStep(g: Graph, name: string, entries: seq<Distance>, i: nat, r: Graph)
    requires name in g && forall e :: e in entries ==> e.station in g
    requires i < |entries| && EdgesAdded(g, name, entries[..i], r)
    ensures var w := Weight(entries[i].distance);
      EdgesAdded(g, name, entries[..i + 1], AddEdge(r, Vertex(name, w), Vertex(entries[i].station, w)))
  {
    var w := Weight(entries[i].distance);
    var u, v := Vertex(name, w), Vertex(entries[i].station, w);
    var r' := AddEdge(r, u, v);
    assert Symmetric(g) ==> Symmetric(r') by {
      if Symmetric(g) {
        AddEdgeKeepsSymmetric(r, u, v);
      }
    }
    assert forall k :: k in g ==> g[k] <= r'[k] by {
      forall k | k in g
        ensures g[k] <= r'[k]
      {
        assert g[k] <= r[k] <= r'[k];
      }
    }
    AddEdgeStepLinks(name, entries, i, r);
    AddEdgeStepOrigin(g, name, entries, i, r);
  }

  /** After one more `addEdge` call, every entry so far is still linked both ways. */
  lemma AddEdgeStepLinks(name: string, entries: seq<Distance>, i: nat, r: Graph)
    requires i < |entries| && name in r && entries[i].station in r
    requires forall e :: e in entries[..i] ==> e.station in r && Lists(r[name], e.station) && Lists(r[e.station], name)
    ensures var w := Weight(entries[i].distance);
      var r' := AddEdge(r, Vertex(name, w), Vertex(entries[i].station, w));
      forall e :: e in entries[..i + 1] ==> Lists(r'[name], e.station) && Lists(r'[e.station], name)
  {
    var w := Weight(entries[i].distance);
    var r' := AddEdge(r, Vertex(name, w), Vertex(entries[i].station, w));
    forall e | e in entries[..i + 1]
      ensures Lists(r'[name], e.station) && Lists(r'[e.station], name)
    {
      if e in entries[..i] {
        ListedStaysListed(r[name], r'[name], e.station);
        ListedStaysListed(r[e.station], r'[e.station], name);
      } else {
        assert e == entries[i];
      }
    }
  }

  /** After one more `addEdge` call, every new vertex was put there by one of the entries so far. */
  lemma AddEdgeStepOrigin(g: Graph, name: string, entries: seq<Distance>, i: nat, r: Graph)
    requires i < |entries| && name in r && entries[i].station in r && r.Keys == g.Keys
    requires forall k, x :: k in g && x in r[k] && x !in g[k] ==> AddedFor(name, entries[..i], k, x)
    ensures var w := Weight(entries[i].distance);
      var r' := AddEdge(r, Vertex(name, w), Vertex(entries[i].station, w));
      forall k, x :: k in g && x in r'[k] && x !in g[k] ==> AddedFor(name, entries[..i + 1], k, x)
  {
    var w := Weight(entries[i].distance);
    var r' := AddEdge(r, Vertex(name, w), Vertex(entries[i].station, w));
    forall k, x | k in g && x in r'[k] && x !in g[k]
      ensures AddedFor(name, entries[..i + 1], k, x)
    {
      assert entries[..i + 1][i] == entries[i];
      if x in r[k] {
        var j :| 0 <= j < i && AddedAt(name, entries[..i], j, k, x);
        assert entries[..i + 1][j] == entries[..i][j];
        assert AddedAt(name, entries[..i + 1], j, k, x);
      } else {
        assert AddedAt(name, entries[..i + 1], i, k, x);
      }
    }
  }

  /** The graph after `addEdges(name)` has made its `addEdge` calls for `entries`, one per entry in
      order. */
  ghost function AddAll(g: Graph, name: string, entries: seq<Distance>): (r: Graph)
    requires name in g && forall e :: e in entries ==> e.station in g
    ensures r.Keys == g.Keys
    decreases |entries|, 1
  {
    if entries == [] then g else AddLast(g, name, entries)
  }

  /** The `addEdge` call for the last entry, on the graph the calls for the entries before it left. */
  ghost function AddLast(g: Graph, name: string, entries: seq<Distance>): (r: Graph)
    requires entries != []
    requires name in g && forall e :: e in entries ==> e.station in g
    ensures r.Keys == g.Keys
    decreases |entries|, 0
  {
    var last := entries[|entries| - 1];
    var w := Weight(last.distance);
    AddEdge(AddAll(g, name, entries[..|entries| - 1]), Vertex(name, w), Vertex(last.station, w))
  }

  /** The calls for `entries` leave the graph as `EdgesAdded` describes, and lists without repeated
      stations stay so. */
  lemma {:induction false} AddAllAdds(g: Graph, name: string, entries: seq<Distance>)
    requires name in g && forall e :: e in entries ==> e.station in g
    ensures EdgesAdded(g, name, entries, AddAll(g, name, entries))
    ensures (forall k :: k in g ==> DistinctNames(g[k])) ==>
      forall k :: k in AddAll(g, name, entries) ==> DistinctNames(AddAll(g, name, entries)[k])
    decreases |entries|
  {
    if entries == [] {
    } else {
      var i := |entries| - 1;
      var r := AddAll(g, name, entries[..i]);
      var w := Weight(entries[i].distance);
      assert AddAll(g, name, entries) == AddEdge(r, Vertex(name, w), Vertex(entries[i].station, w));
      AddAllAdds(g, name, entries[..i]);
      assert entries[..i] == entries[..i][..i];
      assert EdgesAdded(g, name, entries[..i], r);
      AddEdgeStep(g, name, entries, i, r);
      assert entries[..i + 1] == entries;
      if forall k :: k in g ==> DistinctNames(g[k]) {
        AddEdgeKeepsDistinct(r, Vertex(name, w), Vertex(entries[i].station, w));
      }
    }
  }

  /** `addEdges(name)`: one `addEdge` per entry of `distances[name]`, in order, both endpoints carrying
      the weight of that entry's distance. */
  method AddEdges(g: Graph, name: string, entries: seq<Distance>) returns (r: Graph)
    requires name in g && forall e :: e in entries ==> e.station in g
    ensures r == AddAll(g, name, entries)
    ensures r.Keys == g.Keys
    ensures Symmetric(g) ==> Symmetric(r)
    ensures forall k :: k in g ==> g[k] <= r[k]
    ensures forall e :: e in entries ==> Lists(r[name], e.station) && Lists(r[e.station], name)
    ensures forall k, x :: k in g && x in r[k] && x !in g[k] ==> AddedFor(name, entries, k, x)
    ensures (forall k :: k in g ==> DistinctNames(g[k])) ==> forall k :: k in r ==> DistinctNames(r[k])
  {
    r := g;
    for i := 0 to |entries|
      invariant r == AddAll(g, name, entries[..i])
    {
      var w := Weight(entries[i].distance);
      assert entries[..i + 1][..i] == entries[..i];
      r := AddEdge(r, Vertex(name, w), Vertex(entries[i].station, w));
      assert r == AddLast(g, name, entries[..i + 1]);
    }
    assert entries[..|entries|] == entries;
    AddAllAdds(g, name, entries);
  }

  /** `x` was put on `k`'s list by entry `j`. */
  predicate AddedAt(name: string, entries: seq<Distance>, j: int, k: string, x: Vertex)
    requires 0 <= j < |entries|
  {
    var w := Weight(entries[j].distance);
    (k == name && x == Vertex(entries[j].station, w)) || (k == entries[j].station && x == Vertex(name, w))
  }

  /** `x` is an edge end that some entry's `addEdge` call puts on `k`'s list. */
  predicate AddedFor(name: string, entries: seq<Distance>, k: string, x: Vertex)
  {
    exists j :: 0 <= j < |entries| && AddedAt(name, entries, j, k, x)
  }

  lemma ListedStaysListed(a: seq<Vertex>, b: seq<Vertex>, n: string)
    requires a <= b && Lists(a, n)
    ensures Lists(b, n)
  {
    var x :| x in a && x.name == n;
    var i :| 0 <= i < |a| && a[i] == x;
    assert b[i] == x;
  }

  /** `doesLineIntersectCircle` for the segment from station `from` to station `to` and a circle of
      radius `radius` around station `via`. */
  function Hits(s: Stations, intersects: (int, int, int, int, int, int, int) -> bool, radius: int, from: string, to: string, via: string): bool
    requires from in s.byName && to in s.byName && via in s.byName
  {
    var a, b, c := s.byName[from], s.byName[to], s.byName[via];
    intersects(a.x, a.y, b.x, b.y, c.x, c.y, radius)
  }

  /** The edge from `name` to `b` runs through another of `name`'s neighbours. */
  predicate Blocked(g: Graph, s: Stations, intersects: (int, int, int, int, int, int, int) -> bool, radius: int, name: string, b: string)
    requires name in g && name in s.byName
    requires forall x :: x in g[name] ==> x.name in s.byName
  {
    && Lists(g[name], b)
    && exists c :: c in g[name] && c.name != b && Hits(s, intersects, radius, name, b, c.name)
  }

  /** The edge from `k` to `x` is one of `name`'s blocked edges, seen from either end. */
  predicate BlockedEdge(g: Graph, s: Stations, intersects: (int, int, int, int, int, int, int) -> bool, radius: int, name: string, k: string, x: Vertex)
    requires name in g && name in s.byName
    requires forall x :: x in g[name] ==> x.name in s.byName
  {
    || (k == name && Blocked(g, s, intersects, radius, name, x.name))
    || (x.name == name && Blocked(g, s, intersects, radius, name, k))
  }

  /** Every edge missing from `r` but present in `g` is one of `name`'s blocked edges. */
  ghost predicate OnlyBlockedRemoved(g: Graph, r: Graph, s: Stations, intersects: (int, int, int, int, int, int, int) -> bool, radius: int, name: string)
    requires name in g && name in s.byName
    requires forall x :: x in g[name] ==> x.name in s.byName
    requires r.Keys == g.Keys
  {
    forall k, x :: k in g && x in g[k] && x !in r[k] ==> BlockedEdge(g, s, intersects, radius, name, k, x)
  }

  /** No edge added, and edges away from `name` untouched. */
  ghost predicate OnlyNameTouched(g: Graph, r: Graph, name: string)
    requires r.Keys == g.Keys
  {
    && (forall k, x :: k in g && x in r[k] ==> x in g[k])
    && (forall k, x :: k in g && x in g[k] && k != name && x.name != name ==> x in r[k])
  }

  /** What pruning `name`'s edges may have done to `g` so far: the same stations, symmetry kept, no
      edge added, edges away from `name` untouched, and every removed edge blocked. */
  ghost predicate PrunedFrom(g: Graph, r: Graph, s: Stations, intersects: (int, int, int, int, int, int, int) -> bool, radius: int, name: string)
    requires name in g && name in s.byName
    requires forall x :: x in g[name] ==> x.name in s.byName
  {
    && r.Keys == g.Keys
    && (Symmetric(g) ==> Symmetric(r))
    && OnlyNameTouched(g, r, name)
    && OnlyBlockedRemoved(g, r, s, intersects, radius, name)
  }

  /** Removing one of `name`'s edges touches nothing away from `name` and adds nothing. */
  lemma DisconnectTouchesOnlyName(g: Graph, r: Graph, name: string, b: string)
    requires r.Keys == g.Keys && OnlyNameTouched(g, r, name)
    ensures OnlyNameTouched(g, DisconnectEdges(r, name, b), name)
  {
  }

  /** Removing a blocked edge of `name` removes nothing unblocked. */
  lemma DisconnectRemovesOnlyBlocked(g: Graph, r: Graph, s: Stations, intersects: (int, int, int, int, int, int, int) -> bool, radius: int, name: string, b: string)
    requires name in g && name in s.byName
    requires forall x :: x in g[name] ==> x.name in s.byName
    requires r.Keys == g.Keys && OnlyBlockedRemoved(g, r, s, intersects, radius, name)
    requires Blocked(g, s, intersects, radius, name, b)
    ensures OnlyBlockedRemoved(g, DisconnectEdges(r, name, b), s, intersects, radius, name)
  {
    var r' := DisconnectEdges(r, name, b);
    forall k, x | k in g && x in g[k] && x !in r'[k]
      ensures BlockedEdge(g, s, intersects, radius, name, k, x)
    {
      if x in r[k] {
        if k == name && x.name == b {
        } else {
          assert k == b && x.name == name;
        }
      }
    }
    assert r'.Keys == g.Keys;
  }

  /** Removing a blocked edge of `name` keeps what pruning promises. */
  lemma PruneStep(g: Graph, r: Graph, s: Stations, intersects: (int, int, int, int, int, int, int) -> bool, radius: int, name: string, b: string, c: Vertex)
    requires name in g && name in s.byName
    requires forall x :: x in g[name] ==> x.name in s.byName
    requires PrunedFrom(g, r, s, intersects, radius, name)
    requires Lists(g[name], b) && c in g[name] && c.name != b && Hits(s, intersects, radius, name, b, c.name)
    ensures PrunedFrom(g, DisconnectEdges(r, name, b), s, intersects, radius, name)
  {
    assert Blocked(g, s, intersects, radius, name, b);
    if Symmetric(g) {
      DisconnectKeepsSymmetric(r, name, b);
    }
    DisconnectTouchesOnlyName(g, r, name, b);
    DisconnectRemovesOnlyBlocked(g, r, s, intersects, radius, name, b);
  }

  /** At the turn of the `k`th entry of the neighbour list `vs`, another neighbour that is still listed
      at that turn lies on the segment towards it. A neighbour is still listed then when its own turn
      comes later, or when it survived the pruning (it is listed in `kept`). */
  predicate CutAtTurn(s: Stations, intersects: (int, int, int, int, int, int, int) -> bool, radius: int, name: string,
                      vs: seq<Vertex>, kept: seq<Vertex>, k: nat)
    requires name in s.byName && k < |vs|
    requires forall x :: x in vs ==> x.name in s.byName
  {
    exists j :: 0 <= j < |vs| && j != k && (Lists(kept, vs[j].name) || k < j) && Hits(s, intersects, radius, name, vs[k].name, vs[j].name)
  }

  /** Only the entries before the `k`th one can have been pruned at its turn. */
  lemma CutAtTurnSame(s: Stations, intersects: (int, int, int, int, int, int, int) -> bool, radius: int, name: string,
                      vs: seq<Vertex>, a: seq<Vertex>, b: seq<Vertex>, k: nat)
    requires name in s.byName && k < |vs|
    requires forall x :: x in vs ==> x.name in s.byName
    requires forall j :: 0 <= j < k ==> (Lists(a, vs[j].name) <==> Lists(b, vs[j].name))
    ensures CutAtTurn(s, intersects, radius, name, vs, a, k) <==> CutAtTurn(s, intersects, radius, name, vs, b, k)
  {
    if CutAtTurn(s, intersects, radius, name, vs, a, k) {
      var j :| 0 <= j < |vs| && j != k && (Lists(a, vs[j].name) || k < j) && Hits(s, intersects, radius, name, vs[k].name, vs[j].name);
    }
    if CutAtTurn(s, intersects, radius, name, vs, b, k) {
      var j :| 0 <= j < |vs| && j != k && (Lists(b, vs[j].name) || k < j) && Hits(s, intersects, radius, name, vs[k].name, vs[j].name);
    }
  }

  /** Vertices drawn from a list of distinct names are known by their names. */
  lemma ListedIsEntry(vs: seq<Vertex>, now: seq<Vertex>, j: nat)
    requires DistinctNames(vs) && j < |vs|
    requires forall x :: x in now ==> x in vs
    ensures Lists(now, vs[j].name) <==> vs[j] in now
  {
    if Lists(now, vs[j].name) {
      var x :| x in now && x.name == vs[j].name;
      var m :| 0 <= m < |vs| && vs[m] == x;
      assert m == j;
    }
  }

  /** At the turn of the `i`th entry, the `hay` built from the current list holds a vertex on the way
      exactly when the turn is cut in the sense of `CutAtTurn`. */
  lemma HayHitsAtTurn(s: Stations, intersects: (int, int, int, int, int, int, int) -> bool, radius: int, name: string,
                      vs: seq<Vertex>, now: seq<Vertex>, i: nat)
    requires name in s.byName && i < |vs| && DistinctNames(vs)
    requires forall x :: x in vs ==> x.name in s.byName
    requires forall x :: x in now ==> x in vs
    requires forall j :: i <= j < |vs| ==> vs[j] in now
    ensures HitsSome(s, intersects, radius, name, vs[i].name, Without(now, vs[i].name)) <==>
      CutAtTurn(s, intersects, radius, name, vs, now, i)
  {
    var to := vs[i].name;
    var hay := Without(now, to);
    if HitsSome(s, intersects, radius, name, to, hay) {
      var c :| c in hay && c.name in s.byName && Hits(s, intersects, radius, name, to, c.name);
      var j :| 0 <= j < |vs| && vs[j] == c;
      assert c in now;
      assert Lists(now, vs[j].name);
    }
    if CutAtTurn(s, intersects, radius, name, vs, now, i) {
      var j :| 0 <= j < |vs| && j != i && (Lists(now, vs[j].name) || i < j) && Hits(s, intersects, radius, name, to, vs[j].name);
      ListedIsEntry(vs, now, j);
      assert vs[j] in hay;
    }
  }

  /** What the turns done so far have decided, for a list of distinct names: the entries whose turn
      is still to come are all listed, and each entry whose turn is over is listed exactly when its
      turn was not cut. */
  ghost predicate TurnsDecided(s: Stations, intersects: (int, int, int, int, int, int, int) -> bool, radius: int, name: string,
                               vs: seq<Vertex>, now: seq<Vertex>, i: nat)
    requires name in s.byName && i <= |vs|
    requires forall x :: x in vs ==> x.name in s.byName
  {
    && (forall j :: i <= j < |vs| ==> vs[j] in now)
    && (forall k :: 0 <= k < i ==> (Lists(now, vs[k].name) <==> !CutAtTurn(s, intersects, radius, name, vs, now, k)))
  }

  /** Taking the turn of the `i`th entry, as `PruneToward` describes it, decides one more turn. */
  lemma TurnDecided(s: Stations, intersects: (int, int, int, int, int, int, int) -> bool, radius: int, name: string,
                    vs: seq<Vertex>, r: Graph, i: nat, r': Graph)
    requires name in r && name in s.byName && i < |vs| && DistinctNames(vs)
    requires forall x :: x in vs ==> x.name in s.byName
    requires forall x :: x in r[name] ==> x in vs
    requires TurnsDecided(s, intersects, radius, name, vs, r[name], i)
    requires r' == if HitsSome(s, intersects, radius, name, vs[i].name, Without(r[name], vs[i].name))
                   then DisconnectEdges(r, name, vs[i].name) else r
    ensures TurnsDecided(s, intersects, radius, name, vs, r'[name], i + 1)
  {
    var to := vs[i].name;
    HayHitsAtTurn(s, intersects, radius, name, vs, r[name], i);
    forall j | 0 <= j < |vs| && j != i
      ensures Lists(r'[name], vs[j].name) <==> Lists(r[name], vs[j].name)
    {
      assert vs[j].name != to;
      if Lists(r[name], vs[j].name) {
        var x :| x in r[name] && x.name == vs[j].name;
        assert x in r'[name];
      }
    }
    forall k | 0 <= k <= i
      ensures CutAtTurn(s, intersects, radius, name, vs, r'[name], k) <==> CutAtTurn(s, intersects, radius, name, vs, r[name], k)
    {
      CutAtTurnSame(s, intersects, radius, name, vs, r'[name], r[name], k);
    }
    if !HitsSome(s, intersects, radius, name, to, Without(r[name], to)) {
      assert vs[i] in r'[name];
    } else {
      assert !Lists(r'[name], to);
    }
  }

  /** `disconnectCollisions(name)`: for each neighbour B of `name` (in the list as it was on entry), and
      each other current neighbour C, remove the edge name-B when the segment from `name` to B passes
      within `2 * stationRadius` of C. The list of neighbours is re-read for every B, so edges removed
      earlier no longer block later ones. For a list of distinct stations, the edge towards an entry B
      is kept exactly when no other entry lies on the way to B among those still listed at B's turn:
      those whose turn comes after B's, and those that were kept. */
  method DisconnectCollisions(g: Graph, s: Stations, name: string, p: Params, intersects: (int, int, int, int, int, int, int) -> bool)
    returns (r: Graph)
    requires name in g && name in s.byName
    requires forall x :: x in g[name] ==> x.name in s.byName
    ensures PrunedFrom(g, r, s, intersects, 2 * p.stationRadius, name)
    ensures forall b, c :: b in r[name] && c in r[name] && c.name != b.name ==>
      !Hits(s, intersects, 2 * p.stationRadius, name, b.name, c.name)
    ensures DistinctNames(g[name]) ==> forall k :: 0 <= k < |g[name]| ==>
      (Lists(r[name], g[name][k].name) <==> !CutAtTurn(s, intersects, 2 * p.stationRadius, name, g[name], r[name], k))
  {
    var radius := 2 * p.stationRadius;
    var snapshot := g[name];
    r := g;
    for i := 0 to |snapshot|
      invariant PrunedFrom(g, r, s, intersects, radius, name)
      invariant forall b, c :: b in r[name] && Lists(snapshot[..i], b.name) && c in r[name] && c.name != b.name ==>
        !Hits(s, intersects, radius, name, b.name, c.name)
      invariant DistinctNames(snapshot) ==> TurnsDecided(s, intersects, radius, name, snapshot, r[name], i)
    {
      var vertex := snapshot[i];
      assert Lists(g[name], vertex.name);
      ghost var start := r;
      var hay := Without(r[name], vertex.name);
      r := PruneToward(g, r, s, name, radius, intersects, vertex.name, hay);
      if DistinctNames(snapshot) {
        TurnDecided(s, intersects, radius, name, snapshot, start, i, r);
      }
      forall b, c | b in r[name] && Lists(snapshot[..i + 1], b.name) && c in r[name] && c.name != b.name
        ensures !Hits(s, intersects, radius, name, b.name, c.name)
      {
        if !Lists(snapshot[..i], b.name) {
          ListedByLast(snapshot, i, b.name);
          assert c in hay;
        }
      }
    }
    forall b | b in r[name]
      ensures Lists(snapshot[..|snapshot|], b.name)
    {
      assert snapshot[..|snapshot|] == snapshot;
    }
  }

  /** Some vertex of `vs` lies on the segment from `name` to `to`. */
  predicate HitsSome(s: Stations, intersects: (int, int, int, int, int, int, int) -> bool, radius: int, name: string, to: string, vs: seq<Vertex>)
    requires name in s.byName && to in s.byName
  {
    exists c :: c in vs && c.name in s.byName && Hits(s, intersects, radius, name, to, c.name)
  }

  /** The vertices hit among one more element are those hit before, and that element if it is hit. */
  lemma HitsSomeGrows(s: Stations, intersects: (int, int, int, int, int, int, int) -> bool, radius: int, name: string, to: string, vs: seq<Vertex>, j: nat)
    requires name in s.byName && to in s.byName && j < |vs| && vs[j].name in s.byName
    ensures HitsSome(s, intersects, radius, name, to, vs[..j + 1]) <==>
      HitsSome(s, intersects, radius, name, to, vs[..j]) || Hits(s, intersects, radius, name, to, vs[j].name)
  {
    assert vs[..j + 1] == vs[..j] + [vs[j]];
    if Hits(s, intersects, radius, name, to, vs[j].name) {
      assert vs[j] in vs[..j + 1];
    }
  }

  /** The inner `hay.forEach` of `disconnectCollisions`: remove the edge from `name` to `to` as soon as
      the segment towards it passes one of the vertices of `hay`. Removing it again later changes
      nothing, so the result is the graph with that one edge removed when some vertex of `hay` is hit,
      and the graph unchanged otherwise. */
  method PruneToward(g: Graph, r0: Graph, s: Stations, name: string, radius: int, intersects: (int, int, int, int, int, int, int) -> bool,
                     to: string, hay: seq<Vertex>) returns (r: Graph)
    requires name in g && name in s.byName
    requires forall x :: x in g[name] ==> x.name in s.byName
    requires PrunedFrom(g, r0, s, intersects, radius, name)
    requires Lists(g[name], to)
    requires forall c :: c in hay ==> c in g[name] && c.name != to
    ensures to in s.byName
    ensures r == if HitsSome(s, intersects, radius, name, to, hay) then DisconnectEdges(r0, name, to) else r0
    ensures PrunedFrom(g, r, s, intersects, radius, name)
    ensures forall x :: x in r[name] ==> x in r0[name]
    ensures forall c :: c in hay && Hits(s, intersects, radius, name, to, c.name) ==> !Lists(r[name], to)
  {
    r := r0;
    for j := 0 to |hay|
      invariant r == if HitsSome(s, intersects, radius, name, to, hay[..j]) then DisconnectEdges(r0, name, to) else r0
      invariant PrunedFrom(g, r, s, intersects, radius, name)
    {
      var v := hay[j];
      HitsSomeGrows(s, intersects, radius, name, to, hay, j);
      if Hits(s, intersects, radius, name, to, v.name) {
        PruneStep(g, r, s, intersects, radius, name, to, v);
        DisconnectTwice(r0, name, to);
        r := DisconnectEdges(r, name, to);
      }
    }
    assert hay[..|hay|] == hay;
    forall c | c in hay && Hits(s, intersects, radius, name, to, c.name)
      ensures !Lists(r[name], to)
    {
      assert HitsSome(s, intersects, radius, name, to, hay);
    }
  }

  lemma ListedByLast(s: seq<Vertex>, i: nat, n: string)
    requires i < |s| && Lists(s[..i + 1], n) && !Lists(s[..i], n)
    ensures n == s[i].name
  {
    assert s[..i + 1] == s[..i] + [s[i]];
  }
}
