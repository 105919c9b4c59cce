/** The railroad graph's adjacency list (railroad.ts, which is not part of this model). The bodies below
    are the behaviour the generator relies on and are assumptions: `addEdge` links both endpoints
    unless they are already linked, `disconnectEdges` unlinks both directions. */
module RailRoad {
  import opened Types

  /** `adjList`: each station's list of neighbouring vertices. */
  type Graph = map<string, seq<Vertex>>

  /** Some vertex of the list is the station `n`. */
  predicate Lists(vs: seq<Vertex>, n: string)
  {
    exists x :: x in vs && x.name == n
  }

  /** No two vertices of the list are the same station. */
  predicate DistinctNames(vs: seq<Vertex>)
  {
    forall i, j :: 0 <= i < j < |vs| ==> vs[i].name != vs[j].name
  }

  /** `new RailRoadGraph(names)`: every station, no edges. */
  function NewGraph(names: seq<string>): (g: Graph)
    ensures forall n :: n in g <==> n in names
    ensures forall n :: n in g ==> g[n] == []
  {
    map n | n in names :: []
  }

  /** Append `v` to a list unless a vertex of that name is already there. */
  function Link(vs: seq<Vertex>, v: Vertex): (r: seq<Vertex>)
    ensures vs <= r
    ensures Lists(r, v.name)
    ensures forall x :: x in r ==> x in vs || x == v
  {
    if Lists(vs, v.name) then vs else vs + [v]
  }

  /** `vs.filter(v => v.name !== name)`: the list without the vertices of that name, in order. */
  function Without(vs: seq<Vertex>, name: string): (r: seq<Vertex>)
    ensures forall x :: x in r <==> x in vs && x.name != name
    ensures |r| <= |vs|
    decreases |vs|
  {
    if vs == [] then []
    else (if vs[0].name == name then [] else [vs[0]]) + Without(vs[1..], name)
  }

  /** Filtering out a name no vertex carries changes nothing. */
  lemma {:induction false} WithoutAbsent(vs: seq<Vertex>, name: string)
    requires forall x :: x in vs ==> x.name != name
    ensures Without(vs, name) == vs
    decreases |vs|
  {
    if vs != [] {
      assert vs[0] in vs;
      forall x | x in vs[1..]
        ensures x.name != name
      {
        assert x in vs;
      }
      WithoutAbsent(vs[1..], name);
      assert vs == [vs[0]] + vs[1..];
    }
  }

  /** `addEdge(u, v)`: link `u` to `v` and `v` to `u`, each carrying the edge's weight. */
  function AddEdge(g: Graph, u: Vertex, v: Vertex): (r: Graph)
    requires u.name in g && v.name in g
    ensures r.Keys == g.Keys
    ensures forall k :: k in g ==> g[k] <= r[k]
    ensures Lists(r[u.name], v.name) && Lists(r[v.name], u.name)
    ensures forall k, x :: k in g && x in r[k] ==> x in g[k] || (k == u.name && x == v) || (k == v.name && x == u)
  {
    var g1 := g[u.name := Link(g[u.name], v)];
    g1[v.name := Link(g1[v.name], u)]
  }

  /** `disconnectEdges(a, b)`: unlink `b` from `a` and `a` from `b`. */
  function DisconnectEdges(g: Graph, a: string, b: string): (r: Graph)
    ensures r.Keys == g.Keys
    ensures forall k, x :: k in g ==> (x in r[k] <==> x in g[k] && !(k == a && x.name == b) && !(k == b && x.name == a))
  {
    var g1 := if a in g then g[a := Without(g[a], b)] else g;
    if b in g1 then g1[b := Without(g1[b], a)] else g1
  }

  /** Linking never lists a station twice. */
  lemma AddEdgeKeepsDistinct(g: Graph, u: Vertex, v: Vertex)
    requires u.name in g && v.name in g && forall k :: k in g ==> DistinctNames(g[k])
    ensures forall k :: k in g ==> DistinctNames(AddEdge(g, u, v)[k])
  {
    LinkKeepsDistinct(g[u.name], v);
    var g1 := g[u.name := Link(g[u.name], v)];
    LinkKeepsDistinct(g1[v.name], u);
  }

  lemma LinkKeepsDistinct(vs: seq<Vertex>, v: Vertex)
    requires DistinctNames(vs)
    ensures DistinctNames(Link(vs, v))
  {
    if !Lists(vs, v.name) {
      forall i | 0 <= i < |vs|
        ensures vs[i].name != v.name
      {
        assert vs[i] in vs;
      }
    }
  }

  /** Unlinking the same two stations again changes nothing. */
  lemma DisconnectTwice(g: Graph, a: string, b: string)
    ensures DisconnectEdges(DisconnectEdges(g, a, b), a, b) == DisconnectEdges(g, a, b)
  {
    var r := DisconnectEdges(g, a, b);
    var r2 := DisconnectEdges(r, a, b);
    forall k | k in r
      ensures r2[k] == r[k]
    {
      if k == a {
        WithoutAbsent(r[a], b);
        if a == b {
          WithoutAbsent(Without(r[a], b), a);
        }
      } else if k == b {
        WithoutAbsent(r[b], a);
      }
    }
    assert r2.Keys == r.Keys;
  }

  /** Every edge is listed at both ends with the same weight, and only stations are listed. */
  ghost predicate Symmetric(g: Graph)
  {
    forall k, x :: k in g && x in g[k] ==> x.name in g && Vertex(k, x.weight) in g[x.name]
  }

  /** In a symmetric graph, listing is mutual. */
  lemma ListedBothWays(g: Graph, a: string, b: string)
    requires Symmetric(g) && a in g
    ensures Lists(g[a], b) ==> b in g && Lists(g[b], a)
  {
    if Lists(g[a], b) {
      var x :| x in g[a] && x.name == b;
      assert Vertex(a, x.weight) in g[b];
    }
  }

  /** Linking two stations with one weight keeps the graph symmetric. */
  lemma AddEdgeKeepsSymmetric(g: Graph, u: Vertex, v: Vertex)
    requires Symmetric(g) && u.name in g && v.name in g && u.weight == v.weight
    ensures Symmetric(AddEdge(g, u, v))
  {
    var r := AddEdge(g, u, v);
    ListedBothWays(g, u.name, v.name);
    ListedBothWays(g, v.name, u.name);
    if Lists(g[u.name], v.name) {
      assert r == g;
    } else {
      forall k: string, x: Vertex | k in r && x in r[k]
        ensures x.name in r && Vertex(k, x.weight) in r[x.name]
      {
        if x in g[k] {
          assert Vertex(k, x.weight) in g[x.name];
        } else if k == u.name && x == v {
          assert u in r[v.name];
        }
      }
    }
  }

  /** Unlinking two stations keeps the graph symmetric. */
  lemma DisconnectKeepsSymmetric(g: Graph, a: string, b: string)
    requires Symmetric(g)
    ensures Symmetric(DisconnectEdges(g, a, b))
  {
    var r := DisconnectEdges(g, a, b);
    forall k: string, x: Vertex | k in r && x in r[k]
      ensures x.name in r && Vertex(k, x.weight) in r[x.name]
    {
      assert Vertex(k, x.weight) in g[x.name];
    }
  }
}
