/**
 * Hop-count reasoning for the breadth-first search of gps.py: walks through a
 * graph given as adjacency lists, and the set of cities within n hops.
 */
module Search {

  /** City name to the names of its neighbours, in dict order. */
  type Graph = map<string, seq<string>>

  /** Hop i of w follows a road of g. */
  ghost predicate Hop(g: Graph, w: seq<string>, i: int)
    requires 0 <= i < |w| - 1
  {
    w[i] in g && w[i + 1] in g[w[i]]
  }

  /** A non-empty sequence of cities of g in which each city is a neighbour of the one before. */
  ghost predicate IsWalk(g: Graph, w: seq<string>) {
    && |w| > 0
    && (forall i :: 0 <= i < |w| ==> w[i] in g)
    && (forall i :: 0 <= i < |w| - 1 ==> Hop(g, w, i))
  }

  ghost predicate WalkFromTo(g: Graph, w: seq<string>, s: string, t: string) {
    IsWalk(g, w) && w[0] == s && w[|w| - 1] == t
  }

  ghost predicate Reachable(g: Graph, s: string, t: string) {
    exists w :: WalkFromTo(g, w, s, t)
  }

  /** No city occurs twice. */
  ghost predicate Simple(w: seq<string>) {
    forall i, j :: 0 <= i < j < |w| ==> w[i] != w[j]
  }

  /** w is a walk from s to t and no walk from s to t has fewer hops. */
  ghost predicate Shortest(g: Graph, w: seq<string>, s: string, t: string) {
    WalkFromTo(g, w, s, t) && forall v :: WalkFromTo(g, v, s, t) ==> |w| <= |v|
  }

  /** Every neighbour named in g is itself a city of g. */
  ghost predicate GraphClosed(g: Graph) {
    forall a, b :: a in g && b in g[a] ==> b in g
  }

  /** The neighbours of the cities of S. */
  ghost function Succs(g: Graph, S: set<string>): set<string> {
    set u, v | u in S && u in g && v in g[u] :: v
  }

  /** The cities at most n hops away from s. */
  ghost function Reach(g: Graph, s: string, n: nat): set<string> {
    if n == 0 then {s} else Reach(g, s, n - 1) + Succs(g, Reach(g, s, n - 1))
  }

  lemma SuccsMono(g: Graph, A: set<string>, B: set<string>)
    requires A <= B
    ensures Succs(g, A) <= Succs(g, B)
  {
  }

  /** Exploring one more city u adds exactly u's neighbours. */
  lemma SuccsInsert(g: Graph, A: set<string>, u: string)
    requires u in g
    ensures forall v :: v in Succs(g, A + {u}) ==> v in Succs(g, A) || v in g[u]
  {
  }

  lemma {:induction false} ReachGrows(g: Graph, s: string, m: nat, n: nat)
    requires m <= n
    ensures Reach(g, s, m) <= Reach(g, s, n)
    decreases n - m
  {
    if m < n {
      ReachGrows(g, s, m, n - 1);
    }
  }

  /** The last city of a walk of h hops from s is within h hops of s. */
  lemma {:induction false} WalkEndInReach(g: Graph, w: seq<string>, s: string)
    requires IsWalk(g, w) && w[0] == s
    ensures w[|w| - 1] in Reach(g, s, |w| - 1)
    decreases |w|
  {
    if |w| > 1 {
      var w' := w[..|w| - 1];
      forall i | 0 <= i < |w'| - 1 ensures Hop(g, w', i) {
        assert Hop(g, w, i);
        assert w'[i] == w[i] && w'[i + 1] == w[i + 1];
      }
      WalkEndInReach(g, w', s);
      assert Hop(g, w, |w| - 2);
    }
  }

  /** A set that holds s and all neighbours of its members holds every city near s. */
  lemma {:induction false} ReachInClosed(g: Graph, s: string, E: set<string>, n: nat)
    requires s in E && Succs(g, E) <= E
    ensures Reach(g, s, n) <= E
  {
    if n > 0 {
      ReachInClosed(g, s, E, n - 1);
      SuccsMono(g, Reach(g, s, n - 1), E);
    }
  }

  /** Each queued path ends at its last city; `Ends` collects those cities. */
  ghost function Ends(q: seq<seq<string>>): set<string> {
    if q == [] then {}
    else (if q[0] == [] then {} else {q[0][|q[0]| - 1]}) + Ends(q[1..])
  }

  lemma {:induction false} EndsAppend(q: seq<seq<string>>, p: seq<string>)
    requires p != []
    ensures Ends(q + [p]) == Ends(q) + {p[|p| - 1]}
    decreases |q|
  {
    if q != [] {
      assert (q + [p])[1..] == q[1..] + [p];
      EndsAppend(q[1..], p);
    } else {
      assert ([] + [p])[1..] == [];
    }
  }

  /** The head path's end together with the ends of the rest. */
  lemma EndsPrefixPop(q: seq<seq<string>>, m: nat)
    requires 0 < m <= |q|
    ensures Ends(q[..m]) <= (if q[0] == [] then {} else {q[0][|q[0]| - 1]}) + Ends(q[1..][..m - 1])
  {
    assert q[..m][1..] == q[1..][..m - 1];
  }

  /**
   * What the search keeps true of a queued path w: a walk from s that has not
   * reached t, whose cities before the last are expanded and distinct.
   */
  ghost predicate Queued(g: Graph, s: string, t: string, explored: set<string>, w: seq<string>) {
    && IsWalk(g, w) && w[0] == s && w[|w| - 1] != t
    && (forall j :: 0 <= j < |w| - 1 ==> w[j] in explored)
    && Simple(w[..|w| - 1])
  }

  /**
   * The queue of a breadth-first search at level k: every path is queued,
   * the first m paths have k hops and the rest k + 1.
   */
  ghost predicate Frontier(g: Graph, s: string, t: string, E: set<string>, q: seq<seq<string>>, m: nat, k: nat)
    decreases |q|
  {
    if q == [] then m == 0
    else
      && Queued(g, s, t, E, q[0])
      && |q[0]| == (if m > 0 then k + 1 else k + 2)
      && Frontier(g, s, t, E, q[1..], if m > 0 then m - 1 else 0, k)
  }

  /** Appending a path of k + 1 hops keeps the level structure. */
  lemma {:induction false} FrontierPush(g: Graph, s: string, t: string, E: set<string>, q: seq<seq<string>>, m: nat, k: nat, x: seq<string>)
    requires Frontier(g, s, t, E, q, m, k)
    requires Queued(g, s, t, E, x) && |x| == k + 2
    ensures Frontier(g, s, t, E, q + [x], m, k)
    decreases |q|
  {
    if q == [] {
      assert [] + [x] == [x] && [x][1..] == [];
    } else {
      assert (q + [x])[1..] == q[1..] + [x];
      FrontierPush(g, s, t, E, q[1..], if m > 0 then m - 1 else 0, k, x);
    }
  }

  lemma {:induction false} FrontierMono(g: Graph, s: string, t: string, E: set<string>, E': set<string>, q: seq<seq<string>>, m: nat, k: nat)
    requires Frontier(g, s, t, E, q, m, k) && E <= E'
    ensures Frontier(g, s, t, E', q, m, k)
    decreases |q|
  {
    if q != [] {
      QueuedMono(g, s, t, E, E', q[0]);
      FrontierMono(g, s, t, E, E', q[1..], if m > 0 then m - 1 else 0, k);
    }
  }

  /** When no path of k hops is left, the whole queue is level k + 1. */
  lemma {:induction false} FrontierLevel(g: Graph, s: string, t: string, E: set<string>, q: seq<seq<string>>, k: nat)
    requires Frontier(g, s, t, E, q, 0, k)
    ensures Frontier(g, s, t, E, q, |q|, k + 1)
    decreases |q|
  {
    if q != [] {
      FrontierLevel(g, s, t, E, q[1..], k);
    }
  }

  /** No queued path ends at the goal. */
  lemma {:induction false} FrontierAvoids(g: Graph, s: string, t: string, E: set<string>, q: seq<seq<string>>, m: nat, k: nat)
    requires Frontier(g, s, t, E, q, m, k)
    ensures t !in Ends(q)
    decreases |q|
  {
    if q != [] {
      FrontierAvoids(g, s, t, E, q[1..], if m > 0 then m - 1 else 0, k);
    }
  }

  /** The cities listed in s. */
  ghost function Elements(s: seq<string>): set<string> {
    set i | 0 <= i < |s| :: s[i]
  }

  lemma ElementsStep(s: seq<string>, j: nat)
    requires j < |s|
    ensures Elements(s[..j + 1]) == Elements(s[..j]) + {s[j]}
  {
    assert forall i :: 0 <= i < j ==> s[..j + 1][i] == s[..j][i];
  }

  /** The paths w + [x] for the neighbours x in order, in that order. */
  ghost function Extensions(w: seq<string>, order: seq<string>): seq<seq<string>>
    decreases |order|
  {
    if order == [] then [] else Extensions(w, order[..|order| - 1]) + [w + [order[|order| - 1]]]
  }

  lemma ExtensionsStep(w: seq<string>, order: seq<string>, j: nat)
    requires j < |order|
    ensures Extensions(w, order[..j + 1]) == Extensions(w, order[..j]) + [w + [order[j]]]
  {
    assert order[..j + 1][..j] == order[..j];
  }

  lemma PrefixOfAppend(q: seq<seq<string>>, x: seq<string>, m: nat)
    requires m <= |q|
    ensures (q + [x])[..m] == q[..m]
  {
  }

  lemma {:induction false} EndsPrefix(q: seq<seq<string>>, m: nat)
    requires m <= |q|
    ensures Ends(q[..m]) <= Ends(q)
    decreases m
  {
    if m > 0 {
      assert q[..m][1..] == q[1..][..m - 1];
      EndsPrefix(q[1..], m - 1);
    }
  }

  lemma QueuedMono(g: Graph, s: string, t: string, E: set<string>, E': set<string>, w: seq<string>)
    requires Queued(g, s, t, E, w) && E <= E'
    ensures Queued(g, s, t, E', w)
  {
  }

  /** A path whose last city is not yet expanded has no repeated city. */
  lemma SimpleWhenNew(w: seq<string>, E: set<string>)
    requires |w| > 0 && Simple(w[..|w| - 1])
    requires forall j :: 0 <= j < |w| - 1 ==> w[j] in E
    requires w[|w| - 1] !in E
    ensures Simple(w)
  {
    forall i, j | 0 <= i < j < |w| ensures w[i] != w[j] {
      if j < |w| - 1 {
        assert w[..|w| - 1][i] == w[i] && w[..|w| - 1][j] == w[j];
      }
    }
  }

  /** Expanding the last city u of w and appending its neighbour x gives a queued path. */
  lemma QueuedExtend(g: Graph, s: string, t: string, E: set<string>, w: seq<string>, x: string)
    requires Queued(g, s, t, E, w) && w[|w| - 1] !in E
    requires x in g && x in g[w[|w| - 1]] && x != t
    ensures Queued(g, s, t, E + {w[|w| - 1]}, w + [x])
  {
    var w' := w + [x];
    SimpleWhenNew(w, E);
    assert w'[..|w'| - 1] == w;
    forall i | 0 <= i < |w'| - 1 ensures Hop(g, w', i) {
      if i < |w| - 1 { assert Hop(g, w, i); }
    }
  }

  /** Expanding u in a queued path and finding t among u's neighbours gives a simple walk to t. */
  lemma FoundSimple(g: Graph, s: string, t: string, E: set<string>, w: seq<string>)
    requires Queued(g, s, t, E, w) && w[|w| - 1] !in E && t !in E
    requires t in g && t in g[w[|w| - 1]]
    ensures WalkFromTo(g, w + [t], s, t) && Simple(w + [t])
  {
    var w' := w + [t];
    SimpleWhenNew(w, E);
    forall i | 0 <= i < |w'| - 1 ensures Hop(g, w', i) {
      if i < |w| - 1 { assert Hop(g, w, i); }
    }
    forall i, j | 0 <= i < j < |w'| ensures w'[i] != w'[j] {
      if j < |w| { assert w'[i] == w[i] && w'[j] == w[j]; }
    }
  }

  /** Every walk from s of at most k hops ends in C. */
  ghost predicate Covered(g: Graph, s: string, k: nat, C: set<string>) {
    forall v :: IsWalk(g, v) && v[0] == s && |v| <= k + 1 ==> v[|v| - 1] in C
  }

  /** Covering the cities within k hops is the same as holding Reach(g, s, k). */
  lemma CoveredReach(g: Graph, s: string, k: nat, C: set<string>)
    requires s in g && GraphClosed(g)
    ensures Covered(g, s, k, C) <==> Reach(g, s, k) <= C
  {
    if Covered(g, s, k, C) {
      forall x | x in Reach(g, s, k) ensures x in C {
        var v := ReachWalk(g, s, k, x);
      }
    } else {
      var v :| IsWalk(g, v) && v[0] == s && |v| <= k + 1 && v[|v| - 1] !in C;
      WalkEndInReach(g, v, s);
      ReachGrows(g, s, |v| - 1, k);
    }
  }

  /** A witness walk for each city within n hops. */
  lemma {:induction false} ReachWalk(g: Graph, s: string, n: nat, x: string) returns (v: seq<string>)
    requires s in g && GraphClosed(g) && x in Reach(g, s, n)
    ensures IsWalk(g, v) && v[0] == s && |v| <= n + 1 && v[|v| - 1] == x
  {
    if n == 0 {
      v := [s];
    } else if x in Reach(g, s, n - 1) {
      v := ReachWalk(g, s, n - 1, x);
    } else {
      var u :| u in Reach(g, s, n - 1) && u in g && x in g[u];
      var v' := ReachWalk(g, s, n - 1, u);
      v := v' + [x];
      forall i | 0 <= i < |v| - 1 ensures Hop(g, v, i) {
        if i < |v'| - 1 { assert Hop(g, v', i); }
      }
    }
  }

  lemma CoveredStart(g: Graph, s: string)
    ensures Covered(g, s, 0, {s})
  {
  }

  lemma CoveredMono(g: Graph, s: string, k: nat, C: set<string>, C': set<string>)
    requires Covered(g, s, k, C) && C <= C'
    ensures Covered(g, s, k, C')
  {
  }

  /** The first n cities of a walk are a walk. */
  lemma WalkPrefix(g: Graph, w: seq<string>, n: nat)
    requires IsWalk(g, w) && 0 < n <= |w|
    ensures IsWalk(g, w[..n])
  {
    forall i | 0 <= i < n - 1 ensures Hop(g, w[..n], i) {
      assert Hop(g, w, i);
    }
  }

  /** Once every path of k hops has been expanded, the cities k + 1 hops away are known too. */
  lemma LevelUp(g: Graph, s: string, k: nat, E: set<string>, q: seq<seq<string>>)
    requires Covered(g, s, k, E)
    requires Succs(g, E) <= E + Ends(q)
    ensures Covered(g, s, k + 1, E + Ends(q))
  {
    forall v | IsWalk(g, v) && v[0] == s && |v| <= k + 2 ensures v[|v| - 1] in E + Ends(q) {
      if |v| == k + 2 {
        WalkPrefix(g, v, |v| - 1);
        assert Hop(g, v, |v| - 2);
        assert v[|v| - 1] in Succs(g, E);
      }
    }
  }

  /**
   * While every city within k hops is expanded or at the end of a queued
   * path, a goal that is neither is more than k hops away.
   */
  lemma NoShorterWalk(g: Graph, s: string, t: string, k: nat, C: set<string>)
    requires Covered(g, s, k, C) && t !in C
    ensures forall v :: WalkFromTo(g, v, s, t) ==> |v| >= k + 2
  {
  }

  /** A set holding s and closed under neighbours, but not t: t cannot be reached from s. */
  lemma Unreachable(g: Graph, s: string, t: string, E: set<string>)
    requires s in E && Succs(g, E) <= E && t !in E
    ensures !Reachable(g, s, t)
  {
    forall v | WalkFromTo(g, v, s, t) ensures false {
      WalkEndInReach(g, v, s);
      ReachInClosed(g, s, E, |v| - 1);
    }
  }

  /**
   * The invariant of the search's `while queue` loop, over the name paths q:
   * q is a level-k frontier whose first m paths have k hops, every city
   * within k hops is explored or ends one of those m paths, the neighbours
   * of explored cities are explored or queued, and the goal is unexplored.
   */
  ghost predicate SearchInv(g: Graph, s: string, t: string, E: set<string>, q: seq<seq<string>>, m: nat, k: nat) {
    && m <= |q| && Frontier(g, s, t, E, q, m, k)
    && Covered(g, s, k, E + Ends(q[..m]))
    && Succs(g, E) <= E + Ends(q)
    && t !in E && E <= g.Keys
  }

  /** The state right after u, the last city of the popped head path, is marked explored. */
  ghost predicate Expanding(g: Graph, s: string, t: string, E: set<string>, u: string, q: seq<seq<string>>, m: nat, k: nat) {
    && u in g && u !in E && u != t
    && m <= |q| && Frontier(g, s, t, E + {u}, q, m, k)
    && Covered(g, s, k, E + {u} + Ends(q[..m]))
    && Succs(g, E) <= E + {u} + Ends(q)
    && t !in E && E <= g.Keys
  }

  /**
   * The invariant of the loop over the neighbours of u = w's last city:
   * the first j of them have extended w onto the queue q0, giving q.
   */
  ghost predicate Exploring(g: Graph, s: string, t: string, E: set<string>, w: seq<string>, order: seq<string>, j: nat,
                            q0: seq<seq<string>>, q: seq<seq<string>>, m: nat, k: nat)
  {
    && j <= |order| && t !in order[..j]
    && q == q0 + Extensions(w, order[..j])
    && m <= |q0| && m <= |q| && q[..m] == q0[..m]
    && Frontier(g, s, t, E, q, m, k)
    && Ends(q) == Ends(q0) + Elements(order[..j])
  }

  lemma SearchStart(g: Graph, s: string, t: string)
    requires s in g && s != t
    ensures SearchInv(g, s, t, {}, [[s]], 1, 0)
  {
    assert IsWalk(g, [s]);
    assert Frontier(g, s, t, {}, [[s]][1..], 0, 0);
    CoveredStart(g, s);
    assert [[s]][..1] == [[s]];
  }

  /**
   * Before a pop: when the paths of k hops are used up, the whole
   * non-empty queue becomes the next level.
   */
  lemma NextLevel(g: Graph, s: string, t: string, E: set<string>, q: seq<seq<string>>, m: nat, k: nat) returns (m': nat, k': nat)
    requires q != [] && SearchInv(g, s, t, E, q, m, k)
    ensures m' == (if m == 0 then |q| else m) && k' == (if m == 0 then k + 1 else k)
    ensures 0 < m' && SearchInv(g, s, t, E, q, m', k')
  {
    if m == 0 {
      CoveredMono(g, s, k, E + Ends(q[..0]), E);
      assert q[..|q|] == q;
      LevelUp(g, s, k, E, q);
      FrontierLevel(g, s, t, E, q, k);
      m', k' := |q|, k + 1;
    } else {
      m', k' := m, k;
    }
  }

  /**
   * Taking the head path off the queue: it is queued with k hops; when its
   * last city is explored the rest of the queue keeps the invariant, and
   * otherwise marking that city explored starts its expansion.
   */
  lemma PopHead(g: Graph, s: string, t: string, E: set<string>, q: seq<seq<string>>, m: nat, k: nat)
    returns (w: seq<string>, rest: seq<seq<string>>, m': nat)
    requires 0 < m && SearchInv(g, s, t, E, q, m, k)
    ensures w == q[0] && rest == q[1..] && m' == m - 1
    ensures Queued(g, s, t, E, w) && |w| == k + 1
    ensures w[|w| - 1] in E ==> SearchInv(g, s, t, E, rest, m', k)
    ensures w[|w| - 1] !in E ==> Expanding(g, s, t, E, w[|w| - 1], rest, m', k)
  {
    w, rest, m' := q[0], q[1..], m - 1;
    var u := w[|w| - 1];
    EndsPrefixPop(q, m);
    CoveredMono(g, s, k, E + Ends(q[..m]), E + {u} + Ends(q[1..][..m - 1]));
    if u in E {
      CoveredMono(g, s, k, E + {u} + Ends(q[1..][..m - 1]), E + Ends(q[1..][..m - 1]));
    } else {
      FrontierMono(g, s, t, E, E + {u}, q[1..], m - 1, k);
    }
  }

  lemma ExploreStart(g: Graph, s: string, t: string, E: set<string>, w: seq<string>, order: seq<string>,
                     q: seq<seq<string>>, m: nat, k: nat)
    requires |w| > 0 && Expanding(g, s, t, E, w[|w| - 1], q, m, k)
    ensures Exploring(g, s, t, E + {w[|w| - 1]}, w, order, 0, q, q, m, k)
  {
    assert order[..0] == [];
    assert Elements([]) == {};
  }

  /** Queuing w extended by the next neighbour keeps the neighbour loop's invariant. */
  lemma ExploreStep(g: Graph, s: string, t: string, E: set<string>, w: seq<string>, order: seq<string>, j: nat,
                    q0: seq<seq<string>>, q: seq<seq<string>>, m: nat, k: nat)
    requires GraphClosed(g) && Queued(g, s, t, E, w) && w[|w| - 1] !in E && |w| == k + 1
    requires order == g[w[|w| - 1]] && j < |order| && order[j] != t
    requires Exploring(g, s, t, E + {w[|w| - 1]}, w, order, j, q0, q, m, k)
    ensures Exploring(g, s, t, E + {w[|w| - 1]}, w, order, j + 1, q0, q + [w + [order[j]]], m, k)
  {
    var w' := w + [order[j]];
    QueuedExtend(g, s, t, E, w, order[j]);
    FrontierPush(g, s, t, E + {w[|w| - 1]}, q, m, k, w');
    EndsAppend(q, w');
    PrefixOfAppend(q, w', m);
    ExtensionsStep(w, order, j);
    ElementsStep(order, j);
    assert order[..j + 1] == order[..j] + [order[j]];
  }

  /** Finding the goal among u's neighbours: w extended by it is a shortest simple walk. */
  lemma ExploreFound(g: Graph, s: string, t: string, E: set<string>, w: seq<string>, q: seq<seq<string>>, m: nat, k: nat)
    requires |w| > 0 && Expanding(g, s, t, E, w[|w| - 1], q, m, k)
    requires GraphClosed(g) && Queued(g, s, t, E, w) && |w| == k + 1
    requires t in g[w[|w| - 1]]
    ensures Shortest(g, w + [t], s, t) && Simple(w + [t])
  {
    var u := w[|w| - 1];
    FoundSimple(g, s, t, E, w);
    FrontierAvoids(g, s, t, E + {u}, q, m, k);
    EndsPrefix(q, m);
    NoShorterWalk(g, s, t, k, E + {u} + Ends(q[..m]));
  }

  /** All of u's neighbours queued: the search invariant holds again, with fewer cities unexplored. */
  lemma Expanded(g: Graph, s: string, t: string, E: set<string>, w: seq<string>, q0: seq<seq<string>>, q: seq<seq<string>>, m: nat, k: nat)
    requires |w| > 0 && Expanding(g, s, t, E, w[|w| - 1], q0, m, k)
    requires Exploring(g, s, t, E + {w[|w| - 1]}, w, g[w[|w| - 1]], |g[w[|w| - 1]]|, q0, q, m, k)
    ensures SearchInv(g, s, t, E + {w[|w| - 1]}, q, m, k)
    ensures g.Keys - (E + {w[|w| - 1]}) < g.Keys - E
  {
    var u := w[|w| - 1];
    assert g[u][..|g[u]|] == g[u];
    SuccsInsert(g, E, u);
    forall v | v in Succs(g, E + {u}) ensures v in (E + {u}) + Ends(q) {
      if v !in Succs(g, E) {
        var i :| 0 <= i < |g[u]| && g[u][i] == v;
      }
    }
  }

  /** An empty queue: the goal cannot be reached. */
  lemma SearchExhausted(g: Graph, s: string, t: string, E: set<string>, k: nat)
    requires s in g && SearchInv(g, s, t, E, [], 0, k)
    ensures !Reachable(g, s, t)
  {
    var empty: seq<seq<string>> := [];
    assert empty[..0] == empty && E + Ends(empty[..0]) == E;
    assert IsWalk(g, [s]);
    Unreachable(g, s, t, E);
  }
}
