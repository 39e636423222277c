# Road trips and card payoffs, verified

This project models two small programs of a Python portfolio and proves
properties of the model.

**The road-trip finder (gps.py).** A `City` has a name and a `neighbors`
dict from neighbour name to `(distance, interstate)`. `add_neighbor` writes
the road into both cities' dicts. `Map.__init__` walks an adjacency
description (city name to a list of `(neighbour, distance, interstate)`
triples), creates each city the first time its name appears, and links the
cities. `Map.bfs` is a breadth-first search over paths of cities:

- the frontier is a FIFO queue of whole paths;
- a city is marked explored when its path is dequeued;
- the goal test is made when a path is extended, with neighbours taken in
  dict insertion order.

The model keeps this imperative form:

- `Gps.City` and `Gps.Map` are classes whose methods update their fields.
- The constructor and `bfs` are loops with invariants.
- `bfs` is split into `Bfs` (the early exits), `SearchFrom` (the
  `while queue` loop), `Explore` (the expansion of one dequeued path) and
  `ScanNeighbors` (the loop over that path's last city's neighbours).

Each method is proved against a value model:

- `Roads` gives the city table as `map<string, Neighbors>`. A `Neighbors`
  dict keeps an explicit insertion order, because the search expands
  neighbours in that order.
- `Build` is the whole of `Map.__init__` as a function.
- `Search` defines walks, reachability and shortest walks over the
  adjacency lists, and holds the lemmas behind the search's invariants.

The main results are these:

- The built table is closed: every neighbour is a city. So the lookup
  `self.cities[neighbor_name]` in the search never fails.
- The table is symmetric: each road is stored on both ends with the same
  distance and interstate.
- Its cities are exactly the names the description mentions.
- `bfs` always terminates. It returns None exactly when a city is missing
  or the goal is unreachable. Otherwise it returns a route with the fewest
  hops and no repeated city.

**The card payoff calculator (credit_card.py).**

- `get_min_payment` and `interest_charged` are functions over exact reals.
- `remaining_payments` is a method with the source's loop and its four
  counters. A ghost trace records the balance before each iteration.
- The argument checks of `parse_args` are a function that returns the
  first failing check's message.

The loop is proved to terminate under the conditions the docstrings
assume. The argument checks guarantee those conditions. Termination uses a
positive lower bound on what every payment after the first takes off the
balance.

Modules:

- `Wrappers`: the `Option` type.
- `Search`: walks and hop counts.
- `Roads`: the city table as a value.
- `Gps`: the classes.
- `Trips`: searches on concrete shapes of map.
- `CreditCard`: the payoff calculator.

### Behaviour worth knowing

- **The cycle A→B, B→C, C→A.** The search from A to C on this cycle
  returns `[A, C]`, not the route through B:
  - Processing C's triple `("A", …)` also writes C into A's dict (gps.py:35).
  - So A's neighbours are B and then C.
  - The search stops at the first neighbour that is the goal (gps.py:92-96).

  `Trips.CycleTrip` proves this answer for any three names with A ≠ C.
- **Explored neighbours.** Every neighbour of a dequeued path is extended
  and enqueued, explored or not (gps.py:92-97). An explored city is skipped
  only when its path is dequeued (gps.py:88). `Gps.Map.Explore` models this.
- **Ties between equally short routes.** The dict order decides which of
  two equally short routes the search returns. `Gps.Map.Explore` states
  that the extensions are queued in dict order, and `Roads.Put` and
  `Roads.AddAllOrder` state what that order is. No contract of
  `Gps.Map.Bfs` names the route chosen among several shortest ones: that
  choice is carried by the method's body.
- **The default credit line.** The docstring of `remaining_payments` gives
  500. The code's default is 5000 (credit_card.py:33). The model has no
  defaults, so every argument is a parameter.

## Model

| member | source | states |
|---|---|---|
| Gps.City.constructor | gps.py:6-13 | a new city has the given name and an empty neighbour dict |
| Gps.City.AddNeighbor | gps.py:24-35 | this city's dict gets the entry for the neighbour and the neighbour's dict gets the entry for this city, each an insert-or-overwrite; if the neighbour is this city, the two writes land in one dict |
| Roads.Put | gps.py:32 | a dict write: the key maps to the new value; every other key keeps its value; the key set grows by that key only; an existing key keeps its position and a new key goes last; the order stays duplicate-free and in step with the keys |
| Roads.PutTwice | gps.py:32-35 | writing the same entry twice (a self-loop road) equals writing it once |
| Roads.Link | gps.py:24-35 | after `add_neighbor(a, b)` both endpoints hold the road with the same distance and interstate, every other city's dict is unchanged, and no city is added |
| Roads.LinkEdges | gps.py:32-35 | the exact edge map each city has after the two writes, including the self-loop case |
| Roads.LinkKeepsDicts | gps.py:32-35 | each dict's order stays duplicate-free and lists exactly its keys |
| Roads.LinkKeepsSymmetric | gps.py:32-35 | if every road is stored on both ends with equal values, this still holds after the two writes |
| Roads.LinkKeepsWellFormed | gps.py:32-35 | `add_neighbor` on two cities of a closed, symmetric table keeps it closed and symmetric |
| Roads.LinkKeepsRoads | gps.py:32-35 | `add_neighbor` removes no road already stored |
| Roads.Ensure | gps.py:49-50 | the table gains only the name; existing cities are untouched; a new city has no roads |
| Roads.EnsureWellFormed | gps.py:55-56 | creating a city keeps the table closed and symmetric |
| Roads.Adjacency | gps.py:92-93 | the graph the search walks has exactly the table's cities; a city's successors are exactly the keys of its dict; in a well-formed table every successor is a city, so the graph is closed |
| Roads.NeighborsAreCities | gps.py:92-93 | in a well-formed table every name the search reads from a dict is a city, so `self.cities[neighbor_name]` succeeds |
| Roads.NeighborNamesSpec | gps.py:54 | the neighbour names of a triple list are exactly the triples' first components |
| Roads.AddAll | gps.py:54-59 | the inner loop adds exactly the triples' neighbour names to the table |
| Roads.AddAllWellFormed | gps.py:54-59 | the inner loop keeps the table closed and symmetric |
| Roads.AddAllKeepsRoads | gps.py:54-59 | the inner loop removes no stored road |
| Roads.AddAllOrder | gps.py:54-59 | for a city with no roads yet and distinct triples that do not name it, the inner loop leaves its dict listing the neighbours in the order of the triples |
| Roads.AddAllHasRoads | gps.py:54-59 | after the inner loop the city holds a road to each neighbour of its triples |
| Roads.Build | gps.py:46-59 | the built table's cities are exactly the names mentioned as keys or as neighbours |
| Roads.MentionedSpec | gps.py:48-59 | a name is mentioned exactly when it is a key of the description or the neighbour of one of its triples |
| Roads.BuildCovers | gps.py:48-59 | every key and every neighbour name of the description is a city, and every city is one of these |
| Roads.BuildWellFormed | gps.py:46-59 | for every description the built table is closed (every neighbour is a city) and symmetric (every road is stored on both ends with equal values), and its dicts are well formed |
| Roads.BuildHasRoads | gps.py:48-59 | every listed road is stored under the city it is listed under |
| Gps.Map.constructor | gps.py:39-59 | the table built in place equals `Build(relationships)`, each city is stored under its own name, the table is closed and symmetric, and all its cities are new objects |
| Gps.Map.AddRoads | gps.py:54-59 | the inner loop changes the table as `AddAll` does, keeps every existing city object under its name, and creates only new cities |
| Gps.Map.AddRoad | gps.py:55-59 | one triple: the neighbour is created when missing (and only then), then linked to the current city |
| Gps.Map.CityNamed | gps.py:55-58 | returns the city stored under the name, creating and storing a new one exactly when there is none; no city is created twice for a name |
| Gps.Map.Connect | gps.py:59 | `add_neighbor` on two cities of the table changes the table value exactly as `Link` |
| Gps.Map.AllDenotePush | gps.py:97 | appending a path to the queue keeps each queued path of cities matched by its name path |
| Gps.Map.DenotesExtend | gps.py:93-94 | extending a path by the city stored under a name extends its name path by that name |
| Gps.Map.DenotedNames | gps.py:86 | in a table whose cities are stored under their own names, a path's names are the names it denotes |
| Gps.Map.Explore | gps.py:92-97 | finds the goal exactly when it is a successor of the path's last city, and the found path is then shortest and simple; otherwise it appends the path's extensions to the queue in dict order |
| Gps.Map.ScanNeighbors | gps.py:92-97 | the loop over the dict's names: returns the path extended by the goal city exactly when the goal is among them; otherwise every name's city has extended the path onto the queue, in dict order, keeping the neighbour loop's invariant |
| Gps.Map.QueueExtension | gps.py:93-97 | queuing the path extended by a non-goal neighbour's city keeps the city queue and the name queue in step and keeps the neighbour loop's invariant |
| Gps.Map.SearchFrom | gps.py:81-99 | the `while queue` loop terminates; it returns None exactly when the goal is unreachable; otherwise it returns a path of the table's cities that is a shortest walk from start to goal and repeats no city |
| Gps.Map.Bfs | gps.py:61-99 | None exactly when start or goal is not a city or the goal is unreachable; `[cities[x]]` for start = goal = x; otherwise a walk of table cities from start to goal, each next city a neighbour of the previous one, with the fewest hops and no repeated city |
| Gps.Map.RoadsAlong | gps.py:124-126 | for each hop of a walk of the table's cities, the lookup `current.neighbors[next_city.name]` finds an entry, and the road read is the one stored on both ends of the hop |
| Gps.Directions | gps.py:120-130 | the route `main` reports: None exactly when a city is missing or the goal is unreachable; otherwise a shortest walk and one road per hop, each the road stored between the hop's two cities |
| Roads.WalkLeg | gps.py:126 | in a well-formed table every hop of a walk has its road stored on both of its ends |
| Search.SearchStart | gps.py:81-82 | the queue `[[start]]` with nothing explored meets the search invariant |
| Search.NextLevel | gps.py:84-85 | once the paths of one hop count are used up, the queue's remaining paths are the next level |
| Search.PopHead | gps.py:85-89 | the dequeued path is a walk of the current level whose cities before the last are distinct (its last city may repeat one, since explored neighbours are enqueued too); if its end is explored, the invariant holds for the rest of the queue, otherwise expanding it begins |
| Search.ExploreStart | gps.py:89-92 | marking the end city explored starts the neighbour loop's invariant |
| Search.ExploreStep | gps.py:92-97 | enqueuing a path extended by a non-goal neighbour keeps the neighbour loop's invariant |
| Search.ExploreFound | gps.py:95-96 | when the goal is a neighbour of the dequeued path's end, the extended path is a shortest and simple walk |
| Search.Expanded | gps.py:88-97 | after expanding a newly explored city the search invariant holds and the unexplored cities shrink (the termination measure) |
| Search.SearchExhausted | gps.py:84-99 | an empty queue with the invariant means the goal is unreachable |
| Search.Unreachable | gps.py:99 | a set holding the start and all its successors but not the goal shows that no walk reaches the goal |
| Search.NoShorterWalk | gps.py:84-97 | if all cities within k hops are explored and the goal is not, every walk to the goal has more than k hops |
| Search.ReachWalk | gps.py:84-97 | every city within n hops is the end of a walk of at most n hops from the start |
| Search.WalkEndInReach | gps.py:84-97 | the end of a walk with n hops lies within n hops of its start |
| Search.CoveredReach | gps.py:84-97 | all walks of at most k hops ending in C is the same as all cities within k hops being in C |
| Search.LevelUp | gps.py:84-97 | cities within k hops explored, plus all their successors explored or queued, covers k + 1 hops |
| Search.FoundSimple | gps.py:94-96 | a queued simple walk extended by the unexplored goal is a simple walk to the goal |
| Search.QueuedExtend | gps.py:92-97 | a queued walk extended by a non-goal neighbour is a queued walk |
| Trips.CycleCloses | gps.py:32-35 | on the cycle a→b, b→c, c→a, cities a and c are adjacent both ways, although the road is listed only under c |
| Trips.ShortHop | gps.py:92-96 | a road from s to t is a walk, so t is reachable from s |
| Trips.OneHopShortest | gps.py:92-96 | with a road from s to a different t, the only shortest walk from s to t is `[s, t]` |
| Trips.DirectTrip | gps.py:61-99 | on any valid map with a road from a to a different city c, the search returns the route `[a, c]` |
| Trips.CycleTrip | gps.py:39-99 | the search from a to c on the cycle a→b, b→c, c→a returns `[a, c]` for any names with a ≠ c |
| CreditCard.MinPayment | credit_card.py:5-17 | the result is `max(0.02 * balance + fees, 25)`: at least 25, at least two percent plus fees, and equal to one of the two |
| CreditCard.MinPaymentMonotone | credit_card.py:15-17 | a larger balance never lowers the minimum payment |
| CreditCard.Interest | credit_card.py:18-32 | zero when the APR or the balance is zero; nonnegative for nonnegative APR and balance |
| CreditCard.InterestLinear | credit_card.py:31 | interest is additive in the balance |
| CreditCard.InterestMonotone | credit_card.py:31 | at a nonnegative APR a smaller balance never costs more interest |
| CreditCard.InterestBound | credit_card.py:23-31 | at an APR of at most 100 one cycle charges at most 30/365 of a nonnegative balance |
| CreditCard.Payment | credit_card.py:53-56 | the given target when there is one, otherwise a value of at least 25 and at least two percent plus fees (the minimum payment) |
| CreditCard.CountAbove | credit_card.py:63-69 | the payment counter equals the number of completed payments |
| CreditCard.CountOrdered | credit_card.py:63-69 | for a nonnegative credit line, over-75 ≤ over-50 ≤ over-25 ≤ payments |
| CreditCard.StepsPush | credit_card.py:57-62 | a completed iteration (positive balance, positive reduction, balance lowered by it) extends the trace |
| CreditCard.StepsDecrease | credit_card.py:57-62 | the balance strictly decreases along the trace |
| CreditCard.ReductionFloor | credit_card.py:52-62 | once the first reduction is positive, every reduction from a smaller positive balance is at least the positive bound `Delta` (nonnegative APR; nonnegative fees when paying the minimum) |
| CreditCard.LowRateFloor | credit_card.py:15-17 | below a two percent cycle rate the minimum payment covers the interest by a fixed positive margin |
| CreditCard.SmallerBalanceFloor | credit_card.py:57-58 | a payment that falls no faster than the interest leaves no smaller reduction at a smaller balance |
| CreditCard.FloorStep | credit_card.py:62 | a reduction of at least `Delta` lowers the bound on the iterations left |
| CreditCard.PayingStep | credit_card.py:57-69 | one iteration keeps the loop state (trace, counters, first reduction positive) and lowers the termination measure |
| CreditCard.PayingEnd | credit_card.py:52-70 | at either exit: the trace starts at the balance, the counters count the trace, a nonpositive starting balance gives `(0, 0, 0, 0)`, and the counters are ordered for a nonnegative credit line |
| CreditCard.RemainingPayments | credit_card.py:33-70 | terminates; each iteration needs a positive balance, uses the target or the current minimum payment, and lowers the balance by payment − interest > 0; on success the final balance is ≤ 0 and the result counts the payments and the months over 25/50/75% of the credit line (ordered when the credit line is nonnegative); None exactly when an iteration's payment does not exceed its interest, before any change; `(0, 0, 0, 0)` for a nonpositive balance |
| CreditCard.CheckArgs | credit_card.py:125-135 | accepts exactly when balance ≥ 0, 0 ≤ APR ≤ 100, credit line ≥ 1, a given payment ≥ 0 and fees ≥ 0, and then returns the arguments unchanged; a negative balance and a bad APR are rejected with the source's messages, balance first |
| CreditCard.AcceptedArgsPayOff | credit_card.py:125-134 | accepted arguments meet the payoff loop's conditions (nonnegative APR, fees and credit line) and bound one cycle's interest by 30/365 of the balance |

## Left out

- All `print` output, `argparse` parsing and both `__main__` blocks. These are I/O.
- The `parse_args` of gps.py (gps.py:133-149). It only parses two strings.
- The printing in gps.py `main` (gps.py:121-130). `Gps.Directions` returns the roads it would print as values.
- The hard-coded `connections` table (gps.py:153-179). It is test data. The map properties are proved for every description, so they hold for it too.
- `City.visited` (gps.py:14) and both `__repr__` methods. They never affect a result.
- `credit_card.main` (credit_card.py:72-107). It prints and composes messages. Two of its behaviours are not modelled:
  - it stops with a message when the target payment is below the minimum payment (credit_card.py:91-93);
  - it unpacks the result of `remaining_payments` without checking for None (credit_card.py:94-96), so it crashes after the failure exit.
- Floating point. Money is exact `real` arithmetic, so rounding, overflow, infinities and NaN of Python floats are not captured. `parse_args` reads balance and fees as floats, so `nan` passes its checks (every comparison with NaN is false) and `remaining_payments` then returns a tuple; `CreditCard.CheckArgs` over reals cannot express this.
- CreditCard.RemainingPayments: requires a nonnegative APR, and nonnegative fees when the minimum payment is used. The docstrings assume both and `parse_args` enforces both (see `CreditCard.AcceptedArgsPayOff`). Without them the exact-real loop need not terminate, for example when negative fees shrink the minimum payment toward the interest.
- CreditCard.RemainingPayments: takes the target as an optional real. The command line delivers the target as an integer (credit_card.py:121).
- CreditCard.CheckArgs: states the rejection messages only for the first two checks. The others follow from the order of the checks and are not stated separately.
- Trips.CycleTrip: states the route the search returns on the cycle. It does not state that a's dict lists b before c.
- Gps.Map.Bfs: does not state which of several shortest routes it returns. The choice follows the dict order (see above) and is carried by the method's body.
- people.py and car.py are not part of this model.
