/**
 * A small map and the route the search finds on it: the reverse write of
 * `add_neighbor` puts a road listed under a later city into the earlier
 * city's dict as well, and the search uses it.
 */
module Trips {
  import opened Roads
  import opened Search
  import opened Gps

  /** The cycle a to b, b to c, c to a, each road listed once under its first city. */
  function CycleOf(a: string, b: string, c: string, e1: Edge, e2: Edge, e3: Edge): Relationships {
    [(a, [(b, e1.distance, e1.interstate)]), (b, [(c, e2.distance, e2.interstate)]),
     (c, [(a, e3.distance, e3.interstate)])]
  }

  /**
   * On the cycle the road c to a is listed only under c, yet it is stored in
   * a's dict too, so a and c are one hop apart in both directions.
   */
  lemma CycleCloses(a: string, b: string, c: string, e1: Edge, e2: Edge, e3: Edge)
    ensures var g := Adjacency(Build(CycleOf(a, b, c, e1, e2, e3)));
      a in g && c in g && c in g[a] && a in g[c]
  {
    var rel := CycleOf(a, b, c, e1, e2, e3);
    var st := Build(rel);
    BuildHasRoads(rel, 2, 0);
    BuildWellFormed(rel);
    assert a in st[c].edges;
    assert c in st[a].edges;
    assert DictOk(st[a]) && DictOk(st[c]);
  }

  /** A road from s to t is a walk, so t is reachable from s. */
  lemma ShortHop(g: Graph, s: string, t: string)
    requires s in g && t in g && t in g[s]
    ensures WalkFromTo(g, [s, t], s, t) && Reachable(g, s, t)
  {
    assert Hop(g, [s, t], 0);
    assert WalkFromTo(g, [s, t], s, t);
  }

  /** With a road from s to t, the shortest walk between two different cities is that road. */
  lemma OneHopShortest(g: Graph, w: seq<string>, s: string, t: string)
    requires s != t && s in g && t in g && t in g[s] && Shortest(g, w, s, t)
    ensures w == [s, t]
  {
    ShortHop(g, s, t);
    assert |w| <= 2;
  }

  /** When a road leads from a to a different city c, the search returns that road alone. */
  method DirectTrip(m: Map, a: string, c: string) returns (names: seq<string>)
    requires m.Valid() && a != c && a in m.cities && c in m.cities
    requires c in Adjacency(m.State())[a]
    ensures names == [a, c]
  {
    ghost var g := Adjacency(m.State());
    ShortHop(g, a, c);
    var path := m.Bfs(a, c);
    assert path.Some?;
    names := NamesOf(path.value);
    OneHopShortest(g, names, a, c);
  }

  /**
   * The search from a to c on the cycle returns the direct route [a, c], not
   * the route through b, whatever the distinct names and the roads.
   */
  method CycleTrip(a: string, b: string, c: string, e1: Edge, e2: Edge, e3: Edge) returns (names: seq<string>)
    requires a != c
    ensures names == [a, c]
  {
    var m := new Map(CycleOf(a, b, c, e1, e2, e3));
    CycleCloses(a, b, c, e1, e2, e3);
    assert a in m.cities && c in m.cities;
    names := DirectTrip(m, a, c);
  }
}
