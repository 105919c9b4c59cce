/** Placing stations on the canvas (renderer.ts `placeVertex`). */
module Placement {
  import opened Types

  /** The constants and configuration the generator reads. */
  datatype Params = Params(
    stationRadius: int,
    vertexExclusionRadius: int,
    xPlacementBound: int,
    yPlacementBound: int,
    abortPlacementAttempts: nat,
    abortGraphBuildAttempts: nat,
    shouldSnapToGrid: bool)

  /** A placed station: its name, the centre of its circle and the edge paths drawn from it. */
  datatype Station = Station(name: string, x: int, y: int, edges: seq<Path>)

  /** No name occurs twice: the selected names, or the keys of `stations`. */
  predicate NoRepeats(names: seq<string>)
  {
    forall i, j :: 0 <= i < j < |names| ==> names[i] != names[j]
  }

  /** The `stations` object: its entries, and its keys in insertion order (the order `Object.keys`
      lists them in). */
  datatype Stations = Stations(byName: map<string, Station>, keys: seq<string>)
  {
    ghost predicate Valid()
    {
      && NoRepeats(keys)
      && (forall k :: k in byName <==> k in keys)
    }

    /** `stations[name] = station`: a new key goes last, an existing key keeps its place. */
    function Put(name: string, station: Station): (r: Stations)
      requires Valid()
      ensures r.Valid()
      ensures r.byName == byName[name := station]
      ensures name in byName ==> r.keys == keys
      ensures name !in byName ==> r.keys == keys + [name]
    {
      Stations(byName[name := station], if name in byName then keys else keys + [name])
    }
  }

  /** The entries stored under the first `i` keys: the stations placed before the `i`th one. */
  function StoredBefore(s: Stations, i: nat): (m: map<string, Station>)
    requires i <= |s.keys|
    ensures forall k :: k in m <==> k in s.keys[..i] && k in s.byName
  {
    map k | k in s.keys[..i] && k in s.byName :: s.byName[k]
  }

  /** Every stored station was accepted by `canFitStation` against the stations stored before it. */
  ghost predicate FittedInOrder(s: Stations, canFit: (int, int, map<string, Station>) -> bool)
    requires s.Valid()
  {
    forall i :: 0 <= i < |s.keys| ==>
      var st := s.byName[s.keys[i]];
      canFit(st.x, st.y, StoredBefore(s, i))
  }

  /** A new key leaves the stations stored before an old key as they were. */
  lemma StoredBeforeKept(s: Stations, name: string, st: Station, i: nat)
    requires s.Valid() && name !in s.byName && i <= |s.keys|
    ensures StoredBefore(s.Put(name, st), i) == StoredBefore(s, i)
  {
    var s' := s.Put(name, st);
    assert s'.keys[..i] == s.keys[..i];
    var a, b := StoredBefore(s', i), StoredBefore(s, i);
    forall k | k in b
      ensures k in a && a[k] == b[k]
    {
      assert k in s.keys;
    }
    assert a.Keys == b.Keys;
  }

  /** Under all the keys, every entry is stored. */
  lemma StoredBeforeAll(s: Stations)
    requires s.Valid()
    ensures StoredBefore(s, |s.keys|) == s.byName
  {
    assert s.keys[..|s.keys|] == s.keys;
  }

  /** Storing a new station that `canFitStation` accepted against everything stored keeps
      `FittedInOrder`. */
  lemma FittedPut(s: Stations, name: string, st: Station, canFit: (int, int, map<string, Station>) -> bool)
    requires s.Valid() && FittedInOrder(s, canFit) && name !in s.byName
    requires canFit(st.x, st.y, s.byName)
    ensures FittedInOrder(s.Put(name, st), canFit)
  {
    var s' := s.Put(name, st);
    forall i | 0 <= i < |s'.keys|
      ensures canFit(s'.byName[s'.keys[i]].x, s'.byName[s'.keys[i]].y, StoredBefore(s', i))
    {
      if i < |s.keys| {
        assert s'.keys[i] == s.keys[i] && s.keys[i] in s.byName && s.keys[i] != name;
        StoredBeforeKept(s, name, st, i);
      } else {
        StoredBeforeKept(s, name, st, |s.keys|);
        StoredBeforeAll(s);
      }
    }
  }

  /** `{}`. */
  function NoStations(): (s: Stations)
    ensures s.Valid() && s.keys == []
  {
    Stations(map[], [])
  }

  /** JavaScript's `x % r` for a positive divisor: the remainder takes the sign of `x`. */
  function JsRemainder(x: int, r: int): int
    requires r > 0
  {
    if x >= 0 then x % r else -((-x) % r)
  }

  /** `x -= x % r`: snap a coordinate onto the grid of cell size `r`: the whole number of cells
      nearest to `x` towards zero. */
  function Snap(x: int, r: int): (s: int)
    requires r > 0
    ensures 0 <= x ==> s == (x / r) * r && 0 <= s <= x < s + r
    ensures x < 0 ==> s == -(((-x) / r) * r) && s - r < x <= s <= 0
  {
    if x >= 0 then
      WholeCells(x, r);
      x - JsRemainder(x, r)
    else
      WholeCells(-x, r);
      x - JsRemainder(x, r)
  }

  /** Cutting the remainder off a non-negative `n` leaves the whole cells, no more than `n` and less
      than one cell short of it. */
  lemma WholeCells(n: int, r: int)
    requires n >= 0 && r > 0
    ensures n - n % r == (n / r) * r
    ensures 0 <= (n / r) * r <= n < (n / r) * r + r
  {
    var q := n / r;
    assert n == q * r + n % r;
    assert q >= 0;
    assert q * r >= 0;
  }

  /** The point a random draw is turned into: snapped onto the grid when so configured. */
  function Candidate(p: Params, draw: (int, int)): (int, int)
    requires p.vertexExclusionRadius > 0
  {
    if p.shouldSnapToGrid then (Snap(draw.0, p.vertexExclusionRadius), Snap(draw.1, p.vertexExclusionRadius))
    else draw
  }

  /** The padded placement area. */
  predicate InBounds(p: Params, x: int, y: int)
  {
    p.stationRadius <= x <= p.xPlacementBound && p.stationRadius <= y <= p.yPlacementBound
  }

  /** A draw that places the station: its candidate lies in the area and `canFitStation` accepts it. */
  predicate Accepted(p: Params, s: Stations, canFit: (int, int, map<string, Station>) -> bool, draw: (int, int))
    requires p.vertexExclusionRadius > 0
  {
    var c := Candidate(p, draw);
    InBounds(p, c.0, c.1) && canFit(c.0, c.1, s.byName)
  }

  /** How many draws were counted as attempts: in the area, but refused by `canFitStation`. Draws
      outside the area are not counted. */
  function Rejections(p: Params, s: Stations, canFit: (int, int, map<string, Station>) -> bool, draws: seq<(int, int)>): nat
    requires p.vertexExclusionRadius > 0
    decreases |draws|
  {
    if draws == [] then 0
    else
      var c := Candidate(p, draws[|draws| - 1]);
      Rejections(p, s, canFit, draws[..|draws| - 1]) + (if InBounds(p, c.0, c.1) && !canFit(c.0, c.1, s.byName) then 1 else 0)
  }

  /** No draw in the sequence places the station. */
  predicate NoneAccepted(p: Params, s: Stations, canFit: (int, int, map<string, Station>) -> bool, draws: seq<(int, int)>)
    requires p.vertexExclusionRadius > 0
  {
    forall i :: 0 <= i < |draws| ==> !Accepted(p, s, canFit, draws[i])
  }

  /** `(x, y)` is the point `placeVertex` takes from `draws` on top of `s`: the candidate of the first
      accepted draw, reached while fewer than `abortPlacementAttempts` in-area candidates were refused. */
  ghost predicate FirstAccepted(p: Params, s: Stations, canFit: (int, int, map<string, Station>) -> bool,
                                draws: seq<(int, int)>, x: int, y: int)
    requires p.vertexExclusionRadius > 0
  {
    exists n :: 0 <= n < |draws| && (x, y) == Candidate(p, draws[n]) && Accepted(p, s, canFit, draws[n])
      && NoneAccepted(p, s, canFit, draws[..n]) && Rejections(p, s, canFit, draws[..n]) < p.abortPlacementAttempts
  }

  /** The stations stored under the first `i` keys, as a `stations` object of their own. */
  function Prefix(s: Stations, i: nat): Stations
    requires i <= |s.keys|
  {
    Stations(StoredBefore(s, i), s.keys[..i])
  }

  /** Every stored station is the point `placeVertex` took from its own draws, `draws(i)` for the
      `i`th key, on top of the stations stored before it. */
  ghost predicate DrawnInOrder(p: Params, s: Stations, canFit: (int, int, map<string, Station>) -> bool,
                               draws: nat -> seq<(int, int)>)
    requires s.Valid() && p.vertexExclusionRadius > 0
  {
    forall i: nat :: i < |s.keys| ==> DrawnAt(p, s, canFit, draws, i)
  }

  /** The `i`th stored station is the point `placeVertex` took from `draws(i)` on top of the stations
      stored before it. */
  ghost predicate DrawnAt(p: Params, s: Stations, canFit: (int, int, map<string, Station>) -> bool,
                          draws: nat -> seq<(int, int)>, i: nat)
    requires s.Valid() && p.vertexExclusionRadius > 0 && i < |s.keys|
  {
    var st := s.byName[s.keys[i]];
    FirstAccepted(p, Prefix(s, i), canFit, draws(i), st.x, st.y)
  }

  /** Storing a new station that was taken from the next draws on top of everything stored keeps
      `DrawnInOrder`. */
  lemma DrawnPut(p: Params, s: Stations, name: string, st: Station, canFit: (int, int, map<string, Station>) -> bool,
                 draws: nat -> seq<(int, int)>)
    requires s.Valid() && p.vertexExclusionRadius > 0 && DrawnInOrder(p, s, canFit, draws) && name !in s.byName
    requires FirstAccepted(p, s, canFit, draws(|s.keys|), st.x, st.y)
    ensures DrawnInOrder(p, s.Put(name, st), canFit, draws)
  {
    var s' := s.Put(name, st);
    forall i: nat | i < |s'.keys|
      ensures DrawnAt(p, s', canFit, draws, i)
    {
      PrefixKept(s, name, st, i);
      if i < |s.keys| {
        assert DrawnAt(p, s, canFit, draws, i);
        assert s'.keys[i] == s.keys[i] && s.keys[i] in s.byName && s.keys[i] != name;
      } else {
        PrefixAll(s);
      }
    }
  }

  /** A new key leaves the prefixes up to the old keys as they were. */
  lemma PrefixKept(s: Stations, name: string, st: Station, i: nat)
    requires s.Valid() && name !in s.byName && i <= |s.keys|
    ensures Prefix(s.Put(name, st), i) == Prefix(s, i)
  {
    assert s.Put(name, st).keys[..i] == s.keys[..i];
    StoredBeforeKept(s, name, st, i);
  }

  /** The prefix of all the keys is the whole `stations` object. */
  lemma PrefixAll(s: Stations)
    requires s.Valid()
    ensures Prefix(s, |s.keys|) == s
  {
    StoredBeforeAll(s);
    assert s.keys[..|s.keys|] == s.keys;
  }

  /** How a placement ends: the station is stored at a point; the source throws because the count of
      attempts reached `abortPlacementAttempts`; or the supplied draws ran out first. */
  datatype PlaceResult = Placed(stations: Stations, x: int, y: int) | CouldNotFit | OutOfDraws

  /** `placeVertex`: draw candidate points until one lies in the area and fits, giving up once
      `abortPlacementAttempts` candidates in the area have been refused. `draws` stands for the
      successive `randBetween` results and `canFit` for `canFitStation`. */
  method PlaceVertex(s: Stations, name: string, p: Params, canFit: (int, int, map<string, Station>) -> bool, draws: seq<(int, int)>)
    returns (r: PlaceResult)
    requires s.Valid() && p.vertexExclusionRadius > 0
    ensures r.Placed? ==>
      && InBounds(p, r.x, r.y) && canFit(r.x, r.y, s.byName)
      && r.stations == s.Put(name, Station(name, r.x, r.y, []))
      && FirstAccepted(p, s, canFit, draws, r.x, r.y)
    ensures r.CouldNotFit? ==>
      exists n :: 0 <= n <= |draws| && NoneAccepted(p, s, canFit, draws[..n])
        && Rejections(p, s, canFit, draws[..n]) == p.abortPlacementAttempts
    ensures r.OutOfDraws? ==>
      NoneAccepted(p, s, canFit, draws) && Rejections(p, s, canFit, draws) < p.abortPlacementAttempts
  {
    var attempts := 0;
    var i := 0;
    while true
      invariant 0 <= i <= |draws|
      invariant attempts == Rejections(p, s, canFit, draws[..i]) <= p.abortPlacementAttempts
      invariant NoneAccepted(p, s, canFit, draws[..i])
      decreases |draws| - i
    {
      if attempts == p.abortPlacementAttempts {
        r := CouldNotFit;
        return;
      }
      if i == |draws| {
        assert draws[..i] == draws;
        r := OutOfDraws;
        return;
      }
      var x, y := draws[i].0, draws[i].1;
      if p.shouldSnapToGrid {
        x := x - JsRemainder(x, p.vertexExclusionRadius);
        y := y - JsRemainder(y, p.vertexExclusionRadius);
      }
      assert (x, y) == Candidate(p, draws[i]);
      assert draws[..i + 1][..i] == draws[..i];
      i := i + 1;
      if x < p.stationRadius || y < p.stationRadius || x > p.xPlacementBound || y > p.yPlacementBound {
        continue;
      }
      if !canFit(x, y, s.byName) {
        attempts := attempts + 1;
        continue;
      }
      r := Placed(s.Put(name, Station(name, x, y, [])), x, y);
      return;
    }
  }
}
