/**
 * The city table of the road-trip finder, as values: every city name maps to
 * its neighbour dict, and the table is built from the adjacency description
 * exactly as `Map.__init__` builds it (gps.py).
 */
module Roads {
  import opened Search

  /** What one road carries on both of its ends: length in miles and interstate. */
  datatype Edge = Edge(distance: int, interstate: string)

  /**
   * A city's `neighbors` dict. Python dicts remember insertion order, and
   * that order decides which neighbour the search expands first, so the
   * keys are kept in `order` next to the key/value map `edges`.
   */
  datatype Neighbors = Neighbors(order: seq<string>, edges: map<string, Edge>)

  /** The dict of a freshly created city. */
  const NoNeighbors := Neighbors([], map[])

  ghost predicate Distinct(s: seq<string>) {
    forall i, j :: 0 <= i < j < |s| ==> s[i] != s[j]
  }

  /** The order lists each key of the dict exactly once. */
  ghost predicate DictOk(d: Neighbors) {
    Distinct(d.order) && forall k :: k in d.order <==> k in d.edges
  }

  /**
   * `d[k] = e`: the value is replaced, an existing key keeps its place and
   * a new key goes last.
   */
  function Put(d: Neighbors, k: string, e: Edge): (r: Neighbors)
    ensures DictOk(d) ==> DictOk(r)
    ensures k in r.edges && r.edges[k] == e
    ensures r.edges.Keys == d.edges.Keys + {k}
    ensures forall j :: j in d.edges && j != k ==> r.edges[j] == d.edges[j]
    ensures d.order <= r.order && |r.order| <= |d.order| + 1
    ensures DictOk(d) && k in d.edges ==> r.order == d.order
  {
    Neighbors(if k in d.edges then d.order else d.order + [k], d.edges[k := e])
  }

  /** Writing the same entry twice is writing it once. */
  lemma PutTwice(d: Neighbors, k: string, e: Edge)
    ensures Put(Put(d, k, e), k, e) == Put(d, k, e)
  {
    assert Put(d, k, e).edges[k := e] == Put(d, k, e).edges;
  }

  /** The whole city table: city name to neighbour dict. */
  type Cities = map<string, Neighbors>

  /** Every neighbour name is itself a city of the table. */
  ghost predicate Closed(st: Cities) {
    forall a, b :: a in st && b in st[a].edges ==> b in st
  }

  /** Every road is stored on both ends with the same distance and interstate. */
  ghost predicate Symmetric(st: Cities) {
    forall a, b :: a in st && b in st[a].edges ==>
      b in st && a in st[b].edges && st[b].edges[a] == st[a].edges[b]
  }

  ghost predicate WellFormed(st: Cities) {
    (forall n :: n in st ==> DictOk(st[n])) && Closed(st) && Symmetric(st)
  }

  /**
   * The neighbour lists the search walks along, in dict order: a city's
   * successors are exactly the keys of its dict, and in a well-formed table
   * every successor is a city, so the graph is closed.
   */
  ghost function Adjacency(st: Cities): (g: Graph)
    ensures g.Keys == st.Keys
    ensures forall n, x :: n in st && DictOk(st[n]) ==> (x in g[n] <==> x in st[n].edges)
    ensures WellFormed(st) ==> GraphClosed(g)
  {
    map n | n in st :: st[n].order
  }

  /** Hop i of the route w follows the road e, which is stored on both of its ends. */
  ghost predicate Leg(st: Cities, w: seq<string>, i: int, e: Edge)
    requires 0 <= i < |w| - 1
  {
    && w[i] in st && w[i + 1] in st
    && w[i + 1] in st[w[i]].edges && w[i] in st[w[i + 1]].edges
    && e == st[w[i]].edges[w[i + 1]] && e == st[w[i + 1]].edges[w[i]]
  }

  /** Each hop of a walk in a well-formed table has its road stored on both ends. */
  lemma WalkLeg(st: Cities, w: seq<string>, i: nat)
    requires WellFormed(st) && IsWalk(Adjacency(st), w) && i < |w| - 1
    ensures w[i] in st && w[i + 1] in st[w[i]].edges
    ensures Leg(st, w, i, st[w[i]].edges[w[i + 1]])
  {
    assert Hop(Adjacency(st), w, i);
    assert DictOk(st[w[i]]);
  }

  /** In a well-formed table every neighbour the search can step to is a city. */
  lemma NeighborsAreCities(st: Cities)
    requires WellFormed(st)
    ensures forall a, x :: a in st && x in st[a].order ==> x in st
  {
    forall a, x | a in st && x in st[a].order ensures x in st {
      assert DictOk(st[a]);
    }
  }

  /** `self.cities[name] = City(name)` unless the city exists already. */
  function Ensure(st: Cities, n: string): (r: Cities)
    ensures r.Keys == st.Keys + {n}
    ensures forall x :: x in st ==> r[x] == st[x]
    ensures n !in st ==> r[n] == NoNeighbors
  {
    if n in st then st else st[n := NoNeighbors]
  }

  /** A fresh city has no roads, so registering it keeps the table well formed. */
  lemma EnsureWellFormed(st: Cities, n: string)
    requires WellFormed(st)
    ensures WellFormed(Ensure(st, n))
  {
    var r := Ensure(st, n);
    forall x | x in r ensures DictOk(r[x]) {
      if x in st { assert DictOk(st[x]); }
    }
  }

  /**
   * `a.add_neighbor(b, distance, interstate)`: the entry for b goes into a's
   * dict, then the entry for a goes into b's dict (the same dict when a == b).
   */
  function Link(st: Cities, a: string, b: string, e: Edge): (r: Cities)
    requires a in st && b in st
    ensures r.Keys == st.Keys
    ensures b in r[a].edges && r[a].edges[b] == e
    ensures a in r[b].edges && r[b].edges[a] == e
    ensures forall n :: n in st && n != a && n != b ==> r[n] == st[n]
  {
    var st1 := st[a := Put(st[a], b, e)];
    st1[b := Put(st1[b], a, e)]
  }

  /** The two writes of `add_neighbor`, as they leave each city's edges. */
  lemma LinkEdges(st: Cities, a: string, b: string, e: Edge, r: Cities, x: string)
    requires a in st && b in st && x in st
    requires r == Link(st, a, b, e)
    ensures x in r
    ensures r[x].edges == if x == a && x == b then st[a].edges[a := e]
                          else if x == a then st[a].edges[b := e]
                          else if x == b then st[b].edges[a := e]
                          else st[x].edges
  {
  }

  /** Both writes keep every dict's order and keys in step. */
  lemma LinkKeepsDicts(st: Cities, a: string, b: string, e: Edge)
    requires a in st && b in st
    requires forall x :: x in st ==> DictOk(st[x])
    ensures forall x :: x in Link(st, a, b, e) ==> DictOk(Link(st, a, b, e)[x])
  {
    var st1 := st[a := Put(st[a], b, e)];
    assert forall x :: x in st1 ==> DictOk(st1[x]);
  }

  /** Both writes store the road on both ends, so closure and symmetry survive. */
  lemma LinkKeepsSymmetric(st: Cities, a: string, b: string, e: Edge)
    requires a in st && b in st && Symmetric(st)
    ensures Symmetric(Link(st, a, b, e))
  {
    var r := Link(st, a, b, e);
    forall x, y | x in r && y in r[x].edges
      ensures y in r && x in r[y].edges && r[y].edges[x] == r[x].edges[y]
    {
      LinkEdges(st, a, b, e, r, x);
      LinkEdges(st, a, b, e, r, y);
      if !((x == a && y == b) || (x == b && y == a)) {
        assert y in st[x].edges;
      }
    }
  }

  /** `add_neighbor` on two cities of a well-formed table keeps it well formed. */
  lemma LinkKeepsWellFormed(st: Cities, a: string, b: string, e: Edge)
    requires a in st && b in st && WellFormed(st)
    ensures WellFormed(Link(st, a, b, e))
  {
    LinkKeepsDicts(st, a, b, e);
    LinkKeepsSymmetric(st, a, b, e);
  }

  /** One entry of the adjacency description: neighbour name, distance, interstate. */
  type Triple = (string, int, string)

  /** The adjacency description, in the dict's insertion order. */
  type Relationships = seq<(string, seq<Triple>)>

  /** The neighbour names of a list of triples. */
  ghost function NeighborNames(ts: seq<Triple>): set<string> {
    if ts == [] then {} else NeighborNames(ts[..|ts| - 1]) + {ts[|ts| - 1].0}
  }

  /** NeighborNames(ts) holds the first component of each triple, and nothing else. */
  lemma {:induction false} NeighborNamesSpec(ts: seq<Triple>)
    ensures forall j :: 0 <= j < |ts| ==> ts[j].0 in NeighborNames(ts)
    ensures forall x :: x in NeighborNames(ts) ==> exists j :: 0 <= j < |ts| && ts[j].0 == x
    decreases |ts|
  {
    if ts != [] {
      var pre := ts[..|ts| - 1];
      NeighborNamesSpec(pre);
      assert forall j :: 0 <= j < |pre| ==> pre[j] == ts[j];
    }
  }

  /** The inner loop of `Map.__init__` for city a over its triples ts. */
  function AddAll(st: Cities, a: string, ts: seq<Triple>): (r: Cities)
    requires a in st
    ensures r.Keys == st.Keys + NeighborNames(ts)
    decreases |ts|
  {
    if ts == [] then st
    else
      var prev := AddAll(st, a, ts[..|ts| - 1]);
      var t := ts[|ts| - 1];
      var r := Link(Ensure(prev, t.0), a, t.0, Edge(t.1, t.2));
      r
  }

  /** One more triple is one more `add_neighbor`. */
  lemma AddAllStep(st: Cities, a: string, ts: seq<Triple>, j: nat)
    requires a in st && j < |ts|
    ensures a in AddAll(st, a, ts[..j])
    ensures AddAll(st, a, ts[..j + 1])
         == Link(Ensure(AddAll(st, a, ts[..j]), ts[j].0), a, ts[j].0, Edge(ts[j].1, ts[j].2))
  {
    var ts' := ts[..j + 1];
    assert ts'[..|ts'| - 1] == ts[..j];
  }

  /**
   * For a city that starts with no roads, the inner loop lists the
   * neighbours in its dict in the order of its triples, when they are
   * distinct and none of them is the city itself.
   */
  lemma {:induction false} AddAllOrder(st: Cities, a: string, ts: seq<Triple>)
    requires a in st && st[a] == NoNeighbors
    requires forall j :: 0 <= j < |ts| ==> ts[j].0 != a
    requires forall i, j :: 0 <= i < j < |ts| ==> ts[i].0 != ts[j].0
    ensures a in AddAll(st, a, ts) && DictOk(AddAll(st, a, ts)[a])
    ensures |AddAll(st, a, ts)[a].order| == |ts|
    ensures forall j :: 0 <= j < |ts| ==> AddAll(st, a, ts)[a].order[j] == ts[j].0
    decreases |ts|
  {
    if ts != [] {
      var pre := ts[..|ts| - 1];
      var t := ts[|ts| - 1];
      AddAllOrder(st, a, pre);
      var prev := AddAll(st, a, pre);
      var d := prev[a];
      assert forall j :: 0 <= j < |pre| ==> pre[j] == ts[j];
      OrderNew(d, ts);
      AddAllLast(st, a, ts);
      LinkNew(prev, a, t.0, Edge(t.1, t.2));
      OrderAppend(d, ts, Edge(t.1, t.2));
    }
  }

  /** The last neighbour of distinct triples is not among the earlier ones. */
  lemma OrderNew(d: Neighbors, ts: seq<Triple>)
    requires ts != [] && |d.order| == |ts| - 1
    requires forall j :: 0 <= j < |d.order| ==> d.order[j] == ts[j].0
    requires forall i, j :: 0 <= i < j < |ts| ==> ts[i].0 != ts[j].0
    ensures ts[|ts| - 1].0 !in d.order
  {
    forall j | 0 <= j < |d.order| ensures d.order[j] != ts[|ts| - 1].0 {
      assert d.order[j] == ts[j].0;
    }
  }

  /** Writing the last triple's neighbour into a dict listing the earlier ones lists all of them. */
  lemma OrderAppend(d: Neighbors, ts: seq<Triple>, e: Edge)
    requires ts != [] && DictOk(d) && |d.order| == |ts| - 1
    requires forall j :: 0 <= j < |d.order| ==> d.order[j] == ts[j].0
    requires Put(d, ts[|ts| - 1].0, e).order == d.order + [ts[|ts| - 1].0]
    ensures DictOk(Put(d, ts[|ts| - 1].0, e))
    ensures |Put(d, ts[|ts| - 1].0, e).order| == |ts|
    ensures forall j :: 0 <= j < |ts| ==> Put(d, ts[|ts| - 1].0, e).order[j] == ts[j].0
  {
  }

  /** The last triple of the inner loop is one create-if-missing plus `add_neighbor`. */
  lemma AddAllLast(st: Cities, a: string, ts: seq<Triple>)
    requires a in st && ts != []
    ensures AddAll(st, a, ts) == (var t := ts[|ts| - 1];
      Link(Ensure(AddAll(st, a, ts[..|ts| - 1]), t.0), a, t.0, Edge(t.1, t.2)))
  {
  }

  /**
   * Creating b if need be and then `add_neighbor(a, b)`, when b is another
   * city not yet in a's dict, appends b to a's dict order.
   */
  lemma LinkNew(st: Cities, a: string, b: string, e: Edge)
    requires a in st && a != b && DictOk(st[a]) && b !in st[a].order
    ensures a in Link(Ensure(st, b), a, b, e)
    ensures Link(Ensure(st, b), a, b, e)[a] == Put(st[a], b, e)
    ensures Put(st[a], b, e).order == st[a].order + [b]
  {
    assert Ensure(st, b)[a] == st[a];
  }

  /** Every name the description mentions, as a key or as a neighbour. */
  ghost function Mentioned(rel: Relationships): set<string> {
    if rel == [] then {}
    else Mentioned(rel[..|rel| - 1]) + {rel[|rel| - 1].0} + NeighborNames(rel[|rel| - 1].1)
  }

  /**
   * `Map(relationships).cities`: its cities are exactly the names the
   * description mentions, and the table is closed and symmetric.
   */
  function Build(rel: Relationships): (r: Cities)
    ensures r.Keys == Mentioned(rel)
  {
    if rel == [] then map[]
    else
      var prev := Build(rel[..|rel| - 1]);
      var n := rel[|rel| - 1].0;
      var r := AddAll(Ensure(prev, n), n, rel[|rel| - 1].1);
      r
  }

  /** Adding one city's roads keeps the table closed and symmetric. */
  lemma {:induction false} AddAllWellFormed(st: Cities, a: string, ts: seq<Triple>)
    requires a in st && WellFormed(st)
    ensures WellFormed(AddAll(st, a, ts))
    decreases |ts|
  {
    if ts != [] {
      var prev := AddAll(st, a, ts[..|ts| - 1]);
      var t := ts[|ts| - 1];
      AddAllWellFormed(st, a, ts[..|ts| - 1]);
      EnsureWellFormed(prev, t.0);
      LinkKeepsWellFormed(Ensure(prev, t.0), a, t.0, Edge(t.1, t.2));
    }
  }

  /** The finished table is closed and symmetric, whatever the description. */
  lemma {:induction false} BuildWellFormed(rel: Relationships)
    ensures WellFormed(Build(rel))
    decreases |rel|
  {
    if rel != [] {
      var pre := rel[..|rel| - 1];
      BuildWellFormed(pre);
      EnsureWellFormed(Build(pre), rel[|rel| - 1].0);
      AddAllWellFormed(Ensure(Build(pre), rel[|rel| - 1].0), rel[|rel| - 1].0, rel[|rel| - 1].1);
    }
  }

  /** Mentioned(rel) holds every key and every neighbour name of rel, and nothing else. */
  lemma {:induction false} MentionedSpec(rel: Relationships)
    ensures forall i :: 0 <= i < |rel| ==> rel[i].0 in Mentioned(rel)
    ensures forall i, j :: 0 <= i < |rel| && 0 <= j < |rel[i].1| ==> rel[i].1[j].0 in Mentioned(rel)
    ensures forall x :: x in Mentioned(rel) ==>
      exists i :: 0 <= i < |rel| && (rel[i].0 == x || exists j :: 0 <= j < |rel[i].1| && rel[i].1[j].0 == x)
    decreases |rel|
  {
    if rel != [] {
      var pre, last := rel[..|rel| - 1], rel[|rel| - 1];
      MentionedSpec(pre);
      NeighborNamesSpec(last.1);
      assert forall i :: 0 <= i < |pre| ==> pre[i] == rel[i];
      forall x | x in Mentioned(rel)
        ensures exists i :: 0 <= i < |rel| && (rel[i].0 == x || exists j :: 0 <= j < |rel[i].1| && rel[i].1[j].0 == x)
      {
        if x in Mentioned(pre) {
          var i :| 0 <= i < |pre| && (pre[i].0 == x || exists j :: 0 <= j < |pre[i].1| && pre[i].1[j].0 == x);
          assert rel[i] == pre[i];
        } else if x != last.0 {
          var j :| 0 <= j < |last.1| && last.1[j].0 == x;
          assert rel[|rel| - 1].1[j].0 == x;
        }
      }
    }
  }

  /**
   * After `Map(relationships)`, every key of the description and every
   * neighbour name in its triples is a city, and every city is one of them.
   */
  lemma BuildCovers(rel: Relationships)
    ensures forall i :: 0 <= i < |rel| ==> rel[i].0 in Build(rel)
    ensures forall i, j :: 0 <= i < |rel| && 0 <= j < |rel[i].1| ==> rel[i].1[j].0 in Build(rel)
    ensures forall x :: x in Build(rel) ==>
      exists i :: 0 <= i < |rel| && (rel[i].0 == x || exists j :: 0 <= j < |rel[i].1| && rel[i].1[j].0 == x)
  {
    MentionedSpec(rel);
  }

  /** `add_neighbor` only adds or overwrites entries: no road disappears. */
  lemma LinkKeepsRoads(st: Cities, a: string, b: string, e: Edge, x: string, y: string)
    requires a in st && b in st && x in st && y in st[x].edges
    ensures x in Link(st, a, b, e) && y in Link(st, a, b, e)[x].edges
  {
    LinkEdges(st, a, b, e, Link(st, a, b, e), x);
  }

  /** The inner loop keeps every road already in the table. */
  lemma {:induction false} AddAllKeepsRoads(st: Cities, a: string, ts: seq<Triple>, x: string, y: string)
    requires a in st && x in st && y in st[x].edges
    ensures x in AddAll(st, a, ts) && y in AddAll(st, a, ts)[x].edges
    decreases |ts|
  {
    if ts != [] {
      var prev := AddAll(st, a, ts[..|ts| - 1]);
      var t := ts[|ts| - 1];
      AddAllKeepsRoads(st, a, ts[..|ts| - 1], x, y);
      LinkKeepsRoads(Ensure(prev, t.0), a, t.0, Edge(t.1, t.2), x, y);
    }
  }

  /** The inner loop for city a stores the road to each neighbour of its triples. */
  lemma {:induction false} AddAllHasRoads(st: Cities, a: string, ts: seq<Triple>, j: nat)
    requires a in st && j < |ts|
    ensures a in AddAll(st, a, ts) && ts[j].0 in AddAll(st, a, ts)[a].edges
    decreases |ts|
  {
    var pre := ts[..|ts| - 1];
    var prev := AddAll(st, a, pre);
    var t := ts[|ts| - 1];
    if j < |ts| - 1 {
      assert pre[j] == ts[j];
      AddAllHasRoads(st, a, pre, j);
      LinkKeepsRoads(Ensure(prev, t.0), a, t.0, Edge(t.1, t.2), a, ts[j].0);
    }
  }

  /**
   * After `Map(relationships)` every listed road is stored under the city it
   * is listed under (its other end holds it too, by symmetry).
   */
  lemma {:induction false} BuildHasRoads(rel: Relationships, i: nat, j: nat)
    requires i < |rel| && j < |rel[i].1|
    ensures rel[i].0 in Build(rel) && rel[i].1[j].0 in Build(rel)[rel[i].0].edges
    decreases |rel|
  {
    var pre := rel[..|rel| - 1];
    var n := rel[|rel| - 1].0;
    if i == |rel| - 1 {
      AddAllHasRoads(Ensure(Build(pre), n), n, rel[i].1, j);
    } else {
      assert pre[i] == rel[i];
      BuildHasRoads(pre, i, j);
      AddAllKeepsRoads(Ensure(Build(pre), n), n, rel[|rel| - 1].1, rel[i].0, rel[i].1[j].0);
    }
  }

  /** One more entry is one more pass of the outer loop. */
  lemma BuildStep(rel: Relationships, i: nat)
    requires i < |rel|
    ensures Build(rel[..i + 1]) == AddAll(Ensure(Build(rel[..i]), rel[i].0), rel[i].0, rel[i].1)
  {
    assert rel[..i + 1][..i] == rel[..i];
  }
}
