/**
 * The road-trip finder of gps.py: cities that hold their neighbour dicts,
 * the map that creates them from an adjacency description, and the
 * breadth-first search over it.
 */
module Gps {
  import opened Wrappers
  import opened Roads
  import opened Search

  class City {
    const name: string
    var neighbors: Neighbors

    constructor (name: string)
      ensures this.name == name && neighbors == NoNeighbors
    {
      this.name := name;
      neighbors := NoNeighbors;
    }

    /**
     * Writes the road into this city's dict and into the neighbour's dict;
     * when the neighbour is this city both writes land in the same dict.
     */
    method AddNeighbor(neighbor: City, distance: int, interstate: string)
      modifies this, neighbor
      ensures neighbors == Put(old(neighbors), neighbor.name, Edge(distance, interstate))
      ensures neighbor.neighbors == Put(old(neighbor.neighbors), name, Edge(distance, interstate))
    {
      var e := Edge(distance, interstate);
      neighbors := Put(neighbors, neighbor.name, e);
      neighbor.neighbors := Put(neighbor.neighbors, name, e);
      if neighbor == this {
        PutTwice(old(neighbors), name, e);
      }
    }
  }

  class Map {
    var cities: map<string, City>

    /** The city table as a value: name to neighbour dict. */
    ghost function State(): Cities
      reads this, cities.Values
    {
      map n | n in cities :: cities[n].neighbors
    }

    /** Each city is stored under its own name, so no name has two cities. */
    ghost predicate Named()
      reads this
    {
      forall n :: n in cities ==> cities[n].name == n
    }

    /** The table is named and, as a value, closed and symmetric. */
    ghost predicate Valid()
      reads this, cities.Values
    {
      Named() && WellFormed(State())
    }

    /** g lists, for each city, its neighbours' names in dict order. */
    ghost predicate Indexes(g: Graph)
      reads this, cities.Values
    {
      g.Keys == cities.Keys && forall n :: n in cities ==> cities[n].neighbors.order == g[n]
    }

    constructor (relationships: Relationships)
      ensures Valid()
      ensures State() == Build(relationships)
      ensures forall n :: n in cities ==> fresh(cities[n])
    {
      cities := map[];
      new;
      var i := 0;
      while i < |relationships|
        invariant 0 <= i <= |relationships|
        invariant forall x :: x in cities ==> cities[x].name == x
        invariant forall n :: n in cities ==> fresh(cities[n])
        invariant State() == Build(relationships[..i])
      {
        var cityName := relationships[i].0;
        var neighbors := relationships[i].1;
        var current := CityNamed(cityName);
        ghost var known := cities;
        forall n | n in cities ensures fresh(cities[n]) {
          if n in known { assert cities[n] == known[n]; }
        }
        known := cities;
        AddRoads(current, neighbors);
        forall n | n in cities ensures fresh(cities[n]) {
          if n in known { assert cities[n] == known[n]; }
        }
        BuildStep(relationships, i);
        i := i + 1;
      }
      assert relationships[..i] == relationships;
      BuildWellFormed(relationships);
    }

    /** The loop over one city's triples: each neighbour is created if need be and linked. */
    method AddRoads(current: City, neighbors: seq<Triple>)
      requires forall x :: x in cities ==> cities[x].name == x
      requires current.name in cities && cities[current.name] == current
      modifies this, cities.Values
      ensures forall x :: x in cities ==> cities[x].name == x
      ensures State() == AddAll(old(State()), current.name, neighbors)
      ensures forall x :: x in old(cities) ==> x in cities && cities[x] == old(cities)[x]
      ensures forall x :: x in cities && x !in old(cities) ==> fresh(cities[x])
    {
      ghost var start := State();
      var j := 0;
      while j < |neighbors|
        invariant 0 <= j <= |neighbors|
        invariant forall x :: x in cities ==> cities[x].name == x
        invariant forall x :: x in old(cities) ==> x in cities && cities[x] == old(cities)[x]
        invariant forall x :: x in cities && x !in old(cities) ==> fresh(cities[x])
        invariant current.name in cities && current == cities[current.name]
        invariant State() == AddAll(start, current.name, neighbors[..j])
      {
        ghost var known := cities;
        AddRoad(current, neighbors[j]);
        forall x | x in cities && x !in old(cities) ensures fresh(cities[x]) {
          if x in known { assert cities[x] == known[x]; }
        }
        AddAllStep(start, current.name, neighbors, j);
        j := j + 1;
      }
      assert neighbors[..j] == neighbors;
    }

    /** One triple of the loop: find or create the neighbour, then link the two cities. */
    method AddRoad(current: City, t: Triple)
      requires forall x :: x in cities ==> cities[x].name == x
      requires current.name in cities && cities[current.name] == current
      modifies this, cities.Values
      ensures forall x :: x in cities ==> cities[x].name == x
      ensures State() == Link(Ensure(old(State()), t.0), current.name, t.0, Edge(t.1, t.2))
      ensures forall x :: x in old(cities) ==> x in cities && cities[x] == old(cities)[x]
      ensures t.0 !in old(cities) ==> cities == old(cities)[t.0 := cities[t.0]] && fresh(cities[t.0])
      ensures t.0 in old(cities) ==> cities == old(cities)
    {
      var neighborCity := CityNamed(t.0);
      if t.0 in old(cities) {
        assert neighborCity in old(cities).Values;
      }
      assert current in old(cities).Values;
      Connect(current, neighborCity, t.1, t.2);
    }

    /** The city stored under n, created first when there is none. */
    method CityNamed(n: string) returns (c: City)
      requires forall x :: x in cities ==> cities[x].name == x
      modifies this
      ensures forall x :: x in cities ==> cities[x].name == x
      ensures n in cities && c == cities[n]
      ensures n in old(cities) ==> cities == old(cities)
      ensures n !in old(cities) ==> fresh(c) && cities == old(cities)[n := c]
      ensures State() == Ensure(old(State()), n)
    {
      if n !in cities {
        c := new City(n);
        cities := cities[n := c];
      } else {
        c := cities[n];
      }
    }

    /** `current.add_neighbor(neighbor, distance, interstate)` for two cities of the table. */
    method Connect(current: City, neighbor: City, distance: int, interstate: string)
      requires forall x :: x in cities ==> cities[x].name == x
      requires current.name in cities && cities[current.name] == current
      requires neighbor.name in cities && cities[neighbor.name] == neighbor
      modifies current, neighbor
      ensures State() == Link(old(State()), current.name, neighbor.name, Edge(distance, interstate))
    {
      ghost var before := State();
      current.AddNeighbor(neighbor, distance, interstate);
      ghost var e := Edge(distance, interstate);
      ghost var after := Link(before, current.name, neighbor.name, e);
      if current == neighbor {
        PutTwice(before[current.name], current.name, e);
      }
      forall x | x in cities ensures cities[x].neighbors == after[x] {
        if x != current.name && x != neighbor.name {
          assert cities[x] != current && cities[x] != neighbor;
        }
      }
    }

    /** p is a path of this table's cities and w the names along it. */
    ghost predicate Denotes(p: seq<City>, w: seq<string>)
      reads this
    {
      |p| == |w| && forall j :: 0 <= j < |p| ==> w[j] in cities && p[j] == cities[w[j]]
    }

    /** Each queued path of cities is denoted by the name path at the same position. */
    ghost predicate AllDenote(queue: seq<seq<City>>, names: seq<seq<string>>)
      reads this
      decreases |queue|
    {
      |queue| == |names| && (queue != [] ==> Denotes(queue[0], names[0]) && AllDenote(queue[1..], names[1..]))
    }

    lemma {:induction false} AllDenotePush(queue: seq<seq<City>>, names: seq<seq<string>>, p: seq<City>, w: seq<string>)
      requires AllDenote(queue, names) && Denotes(p, w)
      ensures AllDenote(queue + [p], names + [w])
      decreases |queue|
    {
      if queue != [] {
        assert (queue + [p])[1..] == queue[1..] + [p];
        assert (names + [w])[1..] == names[1..] + [w];
        AllDenotePush(queue[1..], names[1..], p, w);
      } else {
        assert [] + [p] == [p] && [p][1..] == [];
        assert [] + [w] == [w] && [w][1..] == [];
      }
    }

    /** The head of the queue is denoted by the head of the name queue, and the rest by the rest. */
    lemma PopDenoted(queue: seq<seq<City>>, names: seq<seq<string>>)
      requires queue != [] && AllDenote(queue, names)
      ensures Denotes(queue[0], names[0]) && AllDenote(queue[1..], names[1..])
    {
    }

    /** In a named table, a path extended by the city under t is denoted by its names. */
    lemma FoundDenoted(p: seq<City>, w: seq<string>, t: string)
      requires Named() && Denotes(p, w) && t in cities
      ensures Denotes(p + [cities[t]], NamesOf(p + [cities[t]]))
      ensures NamesOf(p + [cities[t]]) == w + [t]
    {
      DenotesExtend(p, w, t);
      DenotedNames(p + [cities[t]], w + [t]);
    }

    /** Extending a denoted path by the city stored under x. */
    lemma DenotesExtend(p: seq<City>, w: seq<string>, x: string)
      requires Denotes(p, w) && x in cities
      ensures Denotes(p + [cities[x]], w + [x])
    {
    }

    /** The names of a denoted path are the names of its cities. */
    lemma DenotedNames(p: seq<City>, w: seq<string>)
      requires forall x :: x in cities ==> cities[x].name == x
      requires Denotes(p, w)
      ensures NamesOf(p) == w
    {
    }

    /**
     * One round of the neighbour loop that does not reach the goal: p
     * extended by the city under the next neighbour name goes onto the
     * queue, and the name queue and the loop's invariant follow.
     */
    lemma QueueExtension(p: seq<City>, g: Graph, s: string, t: string, w: seq<string>, before: set<string>,
                         order: seq<string>, j: nat, queue: seq<seq<City>>, names: seq<seq<string>>,
                         names': seq<seq<string>>, m: nat, k: nat)
      requires GraphClosed(g) && Denotes(p, w) && Queued(g, s, t, before, w) && |w| == k + 1
      requires w[|w| - 1] !in before && order == g[w[|w| - 1]] && j < |order| && order[j] != t
      requires order[j] in cities
      requires Exploring(g, s, t, before + {w[|w| - 1]}, w, order, j, names, names', m, k)
      requires AllDenote(queue, names')
      ensures AllDenote(queue + [p + [cities[order[j]]]], names' + [w + [order[j]]])
      ensures Exploring(g, s, t, before + {w[|w| - 1]}, w, order, j + 1, names, names' + [w + [order[j]]], m, k)
    {
      DenotesExtend(p, w, order[j]);
      AllDenotePush(queue, names', p + [cities[order[j]]], w + [order[j]]);
      ExploreStep(g, s, t, before, w, order, j, names, names', m, k);
    }

    /**
     * The loop over the neighbours of the last city of p, in dict order:
     * the first neighbour that is the goal city ends the search with
     * p extended by it; every other neighbour extends p onto the queue.
     * The ghost parameters carry the search's state over name paths, with
     * w the names along p and before the cities explored until now.
     */
    method Explore(p: seq<City>, goalCity: City, queue: seq<seq<City>>,
                   ghost g: Graph, ghost s: string, ghost t: string, ghost w: seq<string>,
                   ghost before: set<string>, ghost names: seq<seq<string>>, ghost m: nat, ghost k: nat)
      returns (found: Option<seq<City>>, queue': seq<seq<City>>, ghost names': seq<seq<string>>)
      requires Named() && Indexes(g) && GraphClosed(g)
      requires t in cities && goalCity == cities[t]
      requires Denotes(p, w) && Queued(g, s, t, before, w) && |w| == k + 1
      requires Expanding(g, s, t, before, w[|w| - 1], names, m, k)
      requires AllDenote(queue, names)
      ensures found.Some? <==> t in g[w[|w| - 1]]
      ensures found.Some? ==>
        && found.value == p + [goalCity]
        && Shortest(g, w + [t], s, t) && Simple(w + [t])
      ensures found.None? ==>
        && names' == names + Extensions(w, g[w[|w| - 1]])
        && AllDenote(queue', names')
        && Exploring(g, s, t, before + {w[|w| - 1]}, w, g[w[|w| - 1]], |g[w[|w| - 1]]|, names, names', m, k)
    {
      ghost var u := w[|w| - 1];
      DenotedNames(p, w);
      var city := p[|p| - 1];
      assert city == cities[u];
      var order := city.neighbors.order;
      assert order == g[u];
      ExploreStart(g, s, t, before, w, order, names, m, k);
      found, queue', names' := ScanNeighbors(p, goalCity, queue, order, g, s, t, w, before, names, m, k);
      if found.Some? {
        ExploreFound(g, s, t, before, w, names, m, k);
      }
    }

    /**
     * The loop over the names in order, the dict order of the neighbours of
     * p's last city: the first name of the goal city returns p extended by
     * it; every other name's city extends p onto the queue.
     */
    method ScanNeighbors(p: seq<City>, goalCity: City, queue: seq<seq<City>>, order: seq<string>,
                         ghost g: Graph, ghost s: string, ghost t: string, ghost w: seq<string>,
                         ghost before: set<string>, ghost names: seq<seq<string>>, ghost m: nat, ghost k: nat)
      returns (found: Option<seq<City>>, queue': seq<seq<City>>, ghost names': seq<seq<string>>)
      requires GraphClosed(g) && Denotes(p, w) && Queued(g, s, t, before, w) && |w| == k + 1
      requires w[|w| - 1] !in before && order == g[w[|w| - 1]]
      requires forall x :: x in order ==> x in cities && cities[x].name == x
      requires t in cities && goalCity == cities[t] && goalCity.name == t
      requires Exploring(g, s, t, before + {w[|w| - 1]}, w, order, 0, names, names, m, k)
      requires AllDenote(queue, names)
      ensures found.Some? <==> t in order
      ensures found.Some? ==> found.value == p + [goalCity]
      ensures found.None? ==>
        && names' == names + Extensions(w, order)
        && AllDenote(queue', names')
        && Exploring(g, s, t, before + {w[|w| - 1]}, w, order, |order|, names, names', m, k)
    {
      ghost var u := w[|w| - 1];
      queue', names' := queue, names;
      var j := 0;
      while j < |order|
        invariant Exploring(g, s, t, before + {u}, w, order, j, names, names', m, k)
        invariant AllDenote(queue', names')
      {
        var neighbor := cities[order[j]];
        var newPath := p + [neighbor];
        if neighbor == goalCity {
          assert order[j] == t;
          return Some(newPath), queue', names';
        }
        QueueExtension(p, g, s, t, w, before, order, j, queue', names, names', m, k);
        queue' := queue' + [newPath];
        names' := names' + [w + [order[j]]];
        j := j + 1;
      }
      assert order[..j] == order;
      return None, queue', names';
    }

    /**
     * The `while queue` loop of the search, from the queue [[startCity]]:
     * pops the oldest path and, when its last city is not yet explored,
     * marks it explored and explores its neighbours.
     */
    method SearchFrom(startCity: City, goalCity: City, ghost g: Graph) returns (path: Option<seq<City>>)
      requires Named() && Indexes(g) && GraphClosed(g)
      requires startCity.name in cities && startCity == cities[startCity.name]
      requires goalCity.name in cities && goalCity == cities[goalCity.name]
      requires startCity != goalCity
      ensures path.None? <==> !Reachable(g, startCity.name, goalCity.name)
      ensures path.Some? ==>
        && Denotes(path.value, NamesOf(path.value))
        && Shortest(g, NamesOf(path.value), startCity.name, goalCity.name)
        && Simple(NamesOf(path.value))
    {
      ghost var s, t := startCity.name, goalCity.name;
      var queue: seq<seq<City>> := [[startCity]];
      var explored: set<string> := {};
      ghost var names: seq<seq<string>> := [[s]];
      ghost var k: nat := 0;
      ghost var m: nat := 1;
      SearchStart(g, s, t);
      while queue != []
        invariant AllDenote(queue, names)
        invariant SearchInv(g, s, t, explored, names, m, k)
        decreases g.Keys - explored, |queue|
      {
        m, k := NextLevel(g, s, t, explored, names, m, k);
        ghost var queue_0 := queue;
        var p := queue[0];
        queue := queue[1..];
        PopDenoted(queue_0, names);
        ghost var w;
        w, names, m := PopHead(g, s, t, explored, names, m, k);
        DenotedNames(p, w);
        var city := p[|p| - 1];
        assert city.name == w[|w| - 1];
        if city.name !in explored {
          ghost var before := explored;
          explored := explored + {city.name};
          var found;
          ghost var names';
          found, queue, names' := Explore(p, goalCity, queue, g, s, t, w, before, names, m, k);
          if found.Some? {
            FoundDenoted(p, w, t);
            return found;
          }
          Expanded(g, s, t, before, w, names, names', m, k);
          names := names';
          assert SearchInv(g, s, t, explored, names, m, k);
        } else {
          assert SearchInv(g, s, t, explored, names, m, k);
        }
      }
      SearchExhausted(g, s, t, explored, k);
      return None;
    }

    /** For each hop of a walk of the table's cities, the road read from the current city's dict. */
    method RoadsAlong(p: seq<City>) returns (legs: seq<Edge>)
      requires Valid() && Denotes(p, NamesOf(p)) && IsWalk(Adjacency(State()), NamesOf(p))
      ensures |legs| == |p| - 1
      ensures forall i :: 0 <= i < |legs| ==> Leg(State(), NamesOf(p), i, legs[i])
    {
      ghost var st := State();
      ghost var w := NamesOf(p);
      legs := [];
      var i := 0;
      while i < |p| - 1
        invariant 0 <= i <= |p| - 1
        invariant |legs| == i
        invariant forall j :: 0 <= j < i ==> Leg(st, w, j, legs[j])
      {
        WalkLeg(st, w, i);
        assert p[i] == cities[w[i]] && p[i + 1] == cities[w[i + 1]];
        legs := legs + [p[i].neighbors.edges[p[i + 1].name]];
        i := i + 1;
      }
    }

    /**
     * Breadth-first search from the city named startName to the city named
     * goalName. None when either name is not a city or the goal cannot be
     * reached; otherwise a route of the table's cities with the fewest hops
     * and no city twice.
     */
    method Bfs(startName: string, goalName: string) returns (path: Option<seq<City>>)
      requires Valid()
      ensures path.None? <==>
        startName !in cities || goalName !in cities || !Reachable(Adjacency(State()), startName, goalName)
      ensures startName in cities && startName == goalName ==> path == Some([cities[startName]])
      ensures path.Some? ==>
        && Denotes(path.value, NamesOf(path.value))
        && Shortest(Adjacency(State()), NamesOf(path.value), startName, goalName)
        && Simple(NamesOf(path.value))
    {
      if startName !in cities || goalName !in cities {
        return None;
      }
      var startCity := cities[startName];
      var goalCity := cities[goalName];
      ghost var g := Adjacency(State());
      NeighborsAreCities(State());
      assert Indexes(g) && GraphClosed(g);
      if startCity == goalCity {
        assert WalkFromTo(g, [startName], startName, goalName);
        return Some([startCity]);
      }
      path := SearchFrom(startCity, goalCity, g);
    }
  }

  /**
   * The route lookup of `main`: the search's path as city names, and for
   * each hop the distance and interstate read from the current city's dict
   * under the next city's name. Every such lookup finds an entry, and the
   * road read is the one stored on both ends of the hop.
   */
  method Directions(m: Map, startName: string, goalName: string) returns (route: Option<seq<string>>, legs: seq<Edge>)
    requires m.Valid()
    ensures route.None? <==>
      startName !in m.cities || goalName !in m.cities || !Reachable(Adjacency(m.State()), startName, goalName)
    ensures route.None? ==> legs == []
    ensures route.Some? ==>
      && Shortest(Adjacency(m.State()), route.value, startName, goalName)
      && |legs| == |route.value| - 1
      && forall i :: 0 <= i < |legs| ==> Leg(m.State(), route.value, i, legs[i])
  {
    var path := m.Bfs(startName, goalName);
    legs := [];
    if path.None? {
      return None, legs;
    }
    legs := m.RoadsAlong(path.value);
    route := Some(NamesOf(path.value));
  }

  /** The names along a path of cities. */
  function NamesOf(p: seq<City>): seq<string> {
    seq(|p|, i requires 0 <= i < |p| => p[i].name)
  }
}
