/**
 * The route optimizer: an undirected multigraph of flights between cities, kept as adjacency
 * lists, and Dijkstra's search with a lazily cleaned priority queue for the cheapest route.
 */
module Routes {

  /** An adjacency-list entry: the city a flight reaches and its price. */
  type Hop = (string, real)

  /** City -> the flights out of it, in the order they were added. */
  type Graph = map<string, seq<Hop>>

  /** A priority-queue entry: the cost a city was reached at, and the city. */
  type Entry = (real, string)

  /** A distance: a price, or the infinity every city starts at. */
  datatype Cost = Finite(value: real) | Infinite

  /** The flights out of `c`; a city the graph does not know has none. */
  function Adj(g: Graph, c: string): seq<Hop>
  {
    if c in g then g[c] else []
  }

  /** Every flight lands in a city that has an adjacency list. */
  ghost predicate Closed(g: Graph)
  {
    forall c, h :: c in g && h in g[c] ==> h.0 in g
  }

  /** No flight has a negative price. */
  ghost predicate NonNegative(g: Graph)
  {
    forall c, h :: c in g && h in g[c] ==> h.1 >= 0.0
  }

  // ---------------------------------------------------------------------------------------------
  // Building the graph
  // ---------------------------------------------------------------------------------------------

  /** Appends a flight to the list of `from`, creating the list when `from` is new. */
  function AddEdge(g: Graph, from: string, to: string, price: real): (r: Graph)
    ensures from in r && forall c :: c in g ==> c in r
  {
    g[from := Adj(g, from) + [(to, price)]]
  }

  /** A route is added in both directions: to the list of `from`, then to the list of `to`. */
  function AddRoute(g: Graph, from: string, to: string, price: real): (r: Graph)
    ensures from in r && to in r
  {
    AddEdge(AddEdge(g, from, to, price), to, from, price)
  }

  /**
   * Adding a route gives both cities a list, appends the flight once to each endpoint's list
   * (twice to the one list of a loop) and leaves every other city's list as it was.
   */
  lemma AddRouteEffect(g: Graph, from: string, to: string, price: real)
    ensures AddRoute(g, from, to, price).Keys == g.Keys + {from, to}
    ensures from != to ==> Adj(AddRoute(g, from, to, price), from) == Adj(g, from) + [(to, price)]
    ensures from != to ==> Adj(AddRoute(g, from, to, price), to) == Adj(g, to) + [(from, price)]
    ensures from == to ==> Adj(AddRoute(g, from, to, price), from) == Adj(g, from) + [(to, price), (from, price)]
    ensures forall c :: c != from && c != to ==> Adj(AddRoute(g, from, to, price), c) == Adj(g, c)
  {
  }

  /** Adding a route keeps the graph closed. */
  lemma ClosedAddRoute(g: Graph, from: string, to: string, price: real)
    requires Closed(g)
    ensures Closed(AddRoute(g, from, to, price))
  {
    var r := AddRoute(g, from, to, price);
    forall c: string, h: Hop | c in r && h in r[c] ensures h.0 in r {
      AddRouteEffect(g, from, to, price);
      if c == from || c == to {
        assert h in Adj(g, c) || h.0 == from || h.0 == to;
      } else {
        assert h in g[c];
      }
    }
  }

  /** Adding a route of non-negative price keeps every price non-negative. */
  lemma NonNegativeAddRoute(g: Graph, from: string, to: string, price: real)
    requires NonNegative(g) && price >= 0.0
    ensures NonNegative(AddRoute(g, from, to, price))
  {
    var r := AddRoute(g, from, to, price);
    forall c: string, h: Hop | c in r && h in r[c] ensures h.1 >= 0.0 {
      AddRouteEffect(g, from, to, price);
      if c == from || c == to {
        assert h in Adj(g, c) || h.1 == price;
      } else {
        assert h in g[c];
      }
    }
  }

  // ---------------------------------------------------------------------------------------------
  // Routes through the graph
  // ---------------------------------------------------------------------------------------------

  /** The city a walk from `s` stands in after its first `i` hops. */
  function Prev(s: string, w: seq<Hop>, i: int): string
    requires 0 <= i <= |w|
  {
    if i == 0 then s else w[i - 1].0
  }

  /** The city a walk from `s` ends in. */
  function End(s: string, w: seq<Hop>): string
  {
    Prev(s, w, |w|)
  }

  /** Hop `i` of `w` is a flight out of the city the walk from `s` stands in before it. */
  ghost predicate HopOk(g: Graph, s: string, w: seq<Hop>, i: int)
    requires 0 <= i < |w|
  {
    w[i] in Adj(g, Prev(s, w, i))
  }

  /** Each hop of `w` is a flight out of the city the walk from `s` stands in. */
  ghost predicate IsWalk(g: Graph, s: string, w: seq<Hop>)
  {
    forall i :: 0 <= i < |w| ==> HopOk(g, s, w, i)
  }

  /** `w` is a route from `s` to `t`. */
  ghost predicate Reaches(g: Graph, s: string, w: seq<Hop>, t: string)
  {
    IsWalk(g, s, w) && End(s, w) == t
  }

  /** The total price of the flights of a walk. */
  function WalkCost(w: seq<Hop>): real
  {
    if w == [] then 0.0 else WalkCost(w[..|w| - 1]) + w[|w| - 1].1
  }

  /**
   * `r` is the answer the cheapest-route query should give: the price of some route from `s`
   * to `t` that no route undercuts, or infinity exactly when no route reaches `t`.
   */
  ghost predicate CheapestRoute(g: Graph, s: string, t: string, r: Cost)
  {
    match r
    case Finite(c) =>
      (exists w :: Reaches(g, s, w, t) && WalkCost(w) == c)
      && forall w :: Reaches(g, s, w, t) ==> c <= WalkCost(w)
    case Infinite => forall w :: !Reaches(g, s, w, t)
  }

  /** A walk followed by one more flight out of its end is a walk to that flight's city. */
  lemma WalkExtend(g: Graph, s: string, w: seq<Hop>, h: Hop)
    requires IsWalk(g, s, w) && h in Adj(g, End(s, w))
    ensures Reaches(g, s, w + [h], h.0)
    ensures WalkCost(w + [h]) == WalkCost(w) + h.1
  {
    var v := w + [h];
    assert v[..|w|] == w;
    forall i | 0 <= i < |v| ensures HopOk(g, s, v, i) {
      if i < |w| {
        assert HopOk(g, s, w, i);
        assert Prev(s, v, i) == Prev(s, w, i);
      }
    }
  }

  /** Dropping the last flight of a walk leaves a walk, and that flight leaves from its end. */
  lemma WalkPrefix(g: Graph, s: string, w: seq<Hop>)
    requires IsWalk(g, s, w) && w != []
    ensures IsWalk(g, s, w[..|w| - 1])
    ensures w[|w| - 1] in Adj(g, End(s, w[..|w| - 1]))
  {
    var u := w[..|w| - 1];
    forall i | 0 <= i < |u| ensures HopOk(g, s, u, i) {
      assert HopOk(g, s, w, i);
      assert Prev(s, u, i) == Prev(s, w, i);
    }
    assert HopOk(g, s, w, |w| - 1);
    assert Prev(s, w, |w| - 1) == End(s, u);
  }

  /** Every walk of a closed graph from a city of the graph ends in a city of the graph. */
  lemma WalkStaysInGraph(g: Graph, s: string, w: seq<Hop>)
    requires Closed(g) && s in g && IsWalk(g, s, w)
    ensures End(s, w) in g
  {
    if w != [] {
      var p := Prev(s, w, |w| - 1);
      assert HopOk(g, s, w, |w| - 1);
      assert p in g;
    }
  }

  /** The flight `h` leaves the bound `du` intact at its destination. */
  ghost predicate EdgeRelaxed(dist: map<string, Cost>, du: real, h: Hop)
  {
    h.0 in dist && dist[h.0].Finite? && dist[h.0].value <= du + h.1
  }

  /** No flight out of a city with a finite distance leads to a dearer distance than it allows. */
  ghost predicate Relaxed(g: Graph, dist: map<string, Cost>)
  {
    forall u, h :: u in dist && dist[u].Finite? && h in Adj(g, u) ==> EdgeRelaxed(dist, dist[u].value, h)
  }

  /**
   * Distances that are 0 at `s` and that no flight can improve bound every walk from `s`:
   * the walk ends in a city with a finite distance no greater than the walk's price.
   */
  lemma {:induction false} RelaxedBoundsWalks(g: Graph, dist: map<string, Cost>, s: string, w: seq<Hop>)
    requires Relaxed(g, dist) && s in dist && dist[s] == Finite(0.0) && IsWalk(g, s, w)
    ensures End(s, w) in dist && dist[End(s, w)].Finite? && dist[End(s, w)].value <= WalkCost(w)
    decreases |w|
  {
    if w != [] {
      var u := w[..|w| - 1];
      WalkPrefix(g, s, w);
      RelaxedBoundsWalks(g, dist, s, u);
      assert EdgeRelaxed(dist, dist[End(s, u)].value, w[|w| - 1]);
    }
  }

  // ---------------------------------------------------------------------------------------------
  // Dijkstra's search
  // ---------------------------------------------------------------------------------------------

  /** `cost > d` on doubles, where an infinite `d` is exceeded by nothing. */
  function Exceeds(cost: real, d: Cost): bool
  {
    match d
    case Finite(v) => cost > v
    case Infinite => false
  }

  /** `cost < d` on doubles, where an infinite `d` is above every price. */
  function Below(cost: real, d: Cost): bool
  {
    match d
    case Finite(v) => cost < v
    case Infinite => true
  }

  /** `e` has the least cost in the queue. */
  predicate IsMinEntry(e: Entry, pq: multiset<Entry>)
  {
    forall f :: f in pq ==> e.0 <= f.0
  }

  /** A non-empty queue has an entry of least cost. */
  lemma MinEntryExists(pq: multiset<Entry>)
    requires pq != multiset{}
    ensures exists e :: e in pq && IsMinEntry(e, pq)
    decreases |pq|
  {
    var x :| x in pq;
    var rest := pq - multiset{x};
    if rest == multiset{} {
      assert forall f :: f in pq ==> f == x || f in rest;
      assert IsMinEntry(x, pq);
    } else {
      MinEntryExists(rest);
      var m :| m in rest && IsMinEntry(m, rest);
      assert forall f :: f in pq ==> f == x || f in rest;
      if m.0 <= x.0 {
        assert IsMinEntry(m, pq);
      } else {
        assert IsMinEntry(x, pq);
      }
    }
  }

  /** The graph the search runs on: it knows `s`, is closed and has no negative price. */
  ghost predicate GraphOk(g: Graph, s: string)
  {
    s in g && Closed(g) && NonNegative(g)
  }

  /** The distance of `v`, when finite, is the price of the route recorded for it. */
  ghost predicate WitnessAt(g: Graph, s: string, dist: map<string, Cost>, routes: map<string, seq<Hop>>, v: string)
  {
    v in dist && dist[v].Finite? ==> v in routes && Reaches(g, s, routes[v], v) && WalkCost(routes[v]) == dist[v].value
  }

  /** Every finite distance is the price of a route found by the search, kept in `routes`. */
  ghost predicate Witnessed(g: Graph, s: string, dist: map<string, Cost>, routes: map<string, seq<Hop>>)
  {
    forall v :: WitnessAt(g, s, dist, routes, v)
  }

  /**
   * A queued entry `e` names a city whose distance is finite, non-negative and at most the
   * entry's cost, and strictly below it for a settled city.
   */
  ghost predicate EntryAt(dist: map<string, Cost>, pq: multiset<Entry>, settled: set<string>, e: Entry)
  {
    e in pq ==>
      e.1 in dist && dist[e.1].Finite? && 0.0 <= dist[e.1].value <= e.0
      && (e.1 in settled ==> dist[e.1].value < e.0)
  }

  ghost predicate EntriesOk(dist: map<string, Cost>, pq: multiset<Entry>, settled: set<string>)
  {
    forall e :: EntryAt(dist, pq, settled, e)
  }

  /** An unsettled city `v` with a finite distance has exactly one entry at that distance. */
  ghost predicate QueuedAt(dist: map<string, Cost>, pq: multiset<Entry>, settled: set<string>, v: string)
  {
    v in dist && v !in settled && dist[v].Finite? ==> pq[(dist[v].value, v)] == 1
  }

  ghost predicate Queued(dist: map<string, Cost>, pq: multiset<Entry>, settled: set<string>)
  {
    forall v :: QueuedAt(dist, pq, settled, v)
  }

  /** A settled city `u` has a finite distance. */
  ghost predicate FiniteAt(dist: map<string, Cost>, settled: set<string>, u: string)
  {
    u in settled ==> u in dist && dist[u].Finite?
  }

  /** A settled city `u` is no dearer than the queued entry `e`. */
  ghost predicate FirstAt(dist: map<string, Cost>, pq: multiset<Entry>, settled: set<string>, u: string, e: Entry)
  {
    u in settled && u in dist && dist[u].Finite? && e in pq ==> dist[u].value <= e.0
  }

  /** Settled cities have finite distances no greater than any queued cost. */
  ghost predicate SettledFirst(dist: map<string, Cost>, pq: multiset<Entry>, settled: set<string>)
  {
    (forall u :: FiniteAt(dist, settled, u)) && forall u, e :: FirstAt(dist, pq, settled, u, e)
  }

  /** The flight `h` out of the settled city `u` is relaxed. */
  ghost predicate OutRelaxed(g: Graph, dist: map<string, Cost>, settled: set<string>, u: string, h: Hop)
  {
    u in settled && u in dist && dist[u].Finite? && h in Adj(g, u) ==> EdgeRelaxed(dist, dist[u].value, h)
  }

  /** Every flight out of a city of `settled` is relaxed. */
  ghost predicate SettledRelaxed(g: Graph, dist: map<string, Cost>, settled: set<string>)
  {
    forall u, h :: OutRelaxed(g, dist, settled, u, h)
  }

  /** The facts shared by the outer and the inner loop of the search. */
  ghost predicate SearchCore(g: Graph, s: string, dist: map<string, Cost>, pq: multiset<Entry>,
                             settled: set<string>, routes: map<string, seq<Hop>>)
  {
    && GraphOk(g, s) && dist.Keys == g.Keys && dist[s] == Finite(0.0)
    && Witnessed(g, s, dist, routes) && EntriesOk(dist, pq, settled) && Queued(dist, pq, settled)
    && SettledFirst(dist, pq, settled)
  }

  /** The invariant of the outer loop: the core, and every settled city fully relaxed. */
  ghost predicate Searching(g: Graph, s: string, dist: map<string, Cost>, pq: multiset<Entry>,
                            settled: set<string>, routes: map<string, seq<Hop>>)
  {
    SearchCore(g, s, dist, pq, settled, routes) && SettledRelaxed(g, dist, settled)
  }

  /** The settled city `u`, when its distance is finite, is no dearer than `cost`. */
  ghost predicate BelowAt(dist: map<string, Cost>, settled: set<string>, cost: real, u: string)
  {
    u in settled && u in dist && dist[u].Finite? ==> dist[u].value <= cost
  }

  /** Every settled city with a finite distance is no dearer than `cost`. */
  ghost predicate SettledBelow(dist: map<string, Cost>, settled: set<string>, cost: real)
  {
    forall u :: BelowAt(dist, settled, cost, u)
  }

  /** The first `j` flights out of `cur`, reached at `cost`, are relaxed. */
  ghost predicate FirstRelaxed(g: Graph, dist: map<string, Cost>, cur: string, cost: real, j: int)
  {
    0 <= j <= |Adj(g, cur)| && forall k :: 0 <= k < j ==> EdgeRelaxed(dist, cost, Adj(g, cur)[k])
  }

  /**
   * The invariant of the inner loop over the flights of `cur`, just settled at `cost`: the
   * core, every other settled city relaxed and no dearer than `cost`, and the first `j`
   * flights of `cur` relaxed.
   */
  ghost predicate Relaxing(g: Graph, s: string, cur: string, cost: real, dist: map<string, Cost>,
                           pq: multiset<Entry>, settled: set<string>, routes: map<string, seq<Hop>>, j: int)
  {
    && SearchCore(g, s, dist, pq, settled, routes)
    && cur in settled && cur in dist && dist[cur] == Finite(cost) && 0.0 <= cost
    && SettledBelow(dist, settled, cost) && SettledRelaxed(g, dist, settled - {cur})
    && FirstRelaxed(g, dist, cur, cost, j)
  }

  /**
   * Dijkstra's search with lazy deletion from `s`: pop an entry of least cost, skip it when
   * it is stale, otherwise relax every flight out of its city. On return every city of the
   * graph holds the price of its cheapest route from `s`, or infinity when none reaches it.
   */
  method Dijkstra(g: Graph, s: string) returns (dist: map<string, Cost>)
    requires GraphOk(g, s)
    ensures dist.Keys == g.Keys
    ensures forall t :: t in dist ==> CheapestRoute(g, s, t, dist[t])
  {
    dist := map c | c in g :: Infinite;
    dist := dist[s := Finite(0.0)];
    var pq: multiset<Entry> := multiset{(0.0, s)};
    ghost var settled: set<string> := {};
    ghost var routes: map<string, seq<Hop>> := map[s := []];
    StartSearch(g, s, dist, pq, routes);
    while pq != multiset{}
      invariant Searching(g, s, dist, pq, settled, routes)
      invariant settled <= g.Keys
      decreases |g.Keys - settled|, |pq|
    {
      MinEntryExists(pq);
      var e :| e in pq && IsMinEntry(e, pq);
      var cost, current := e.0, e.1;
      assert EntryAt(dist, pq, settled, e);
      if Exceeds(cost, dist[current]) {
        StalePop(g, s, dist, pq, settled, routes, e);
        pq := pq - multiset{e};
      } else {
        SettlePop(g, s, dist, pq, settled, routes, e);
        SettleShrinks(g.Keys, settled, current);
        pq := pq - multiset{e};
        settled := settled + {current};
        dist, pq, routes := RelaxEdges(g, s, current, cost, dist, pq, settled, routes);
      }
    }
    FinishSearch(g, s, dist, settled, routes);
  }

  /** Settling one more city of the graph leaves fewer cities to settle. */
  lemma SettleShrinks(cities: set<string>, settled: set<string>, c: string)
    requires c in cities && c !in settled
    ensures |cities - (settled + {c})| < |cities - settled|
  {
    assert cities - (settled + {c}) == (cities - settled) - {c};
  }

  /** Relaxes the flights out of `cur`, just settled at `cost`, one by one in list order. */
  method RelaxEdges(g: Graph, s: string, cur: string, cost: real, dist0: map<string, Cost>, pq0: multiset<Entry>,
                    ghost settled: set<string>, ghost routes0: map<string, seq<Hop>>)
    returns (dist: map<string, Cost>, pq: multiset<Entry>, ghost routes: map<string, seq<Hop>>)
    requires Relaxing(g, s, cur, cost, dist0, pq0, settled, routes0, 0)
    ensures Searching(g, s, dist, pq, settled, routes)
  {
    dist, pq, routes := dist0, pq0, routes0;
    var edges := Adj(g, cur);
    for j := 0 to |edges|
      invariant Relaxing(g, s, cur, cost, dist, pq, settled, routes, j)
    {
      var neighbor, price := edges[j].0, edges[j].1;
      EdgeInGraph(g, s, cur, j);
      var newCost := cost + price;
      if Below(newCost, dist[neighbor]) {
        ghost var dist1, pq1, routes1 := dist, pq, routes;
        assert WitnessAt(g, s, dist, routes, cur);
        dist := dist[neighbor := Finite(newCost)];
        pq := pq + multiset{(newCost, neighbor)};
        routes := routes[neighbor := routes[cur] + [edges[j]]];
        RelaxStep(g, s, cur, cost, dist1, pq1, settled, routes1, j, edges[j], dist, pq, routes);
      } else {
        KeepStep(g, s, cur, cost, dist, pq, settled, routes, j);
      }
    }
    FinishRelaxing(g, s, cur, cost, dist, pq, settled, routes);
  }

  /** The search starts with only `s` at distance 0, queued once. */
  lemma StartSearch(g: Graph, s: string, dist: map<string, Cost>, pq: multiset<Entry>, routes: map<string, seq<Hop>>)
    requires GraphOk(g, s)
    requires dist == (map c | c in g :: Infinite)[s := Finite(0.0)]
    requires pq == multiset{(0.0, s)} && routes == map[s := []]
    ensures Searching(g, s, dist, pq, {}, routes)
  {
    forall v ensures WitnessAt(g, s, dist, routes, v) {
      if v in dist && dist[v].Finite? {
        assert v == s && Reaches(g, s, [], s);
      }
    }
    forall e ensures EntryAt(dist, pq, {}, e) {
      if e in pq {
        assert e == (0.0, s);
      }
    }
    forall v ensures QueuedAt(dist, pq, {}, v) {
      if v in dist && dist[v].Finite? {
        assert v == s;
      }
    }
  }

  /** A flight out of a city in the search leads to a city of the graph, at a non-negative price. */
  lemma EdgeInGraph(g: Graph, s: string, cur: string, j: int)
    requires GraphOk(g, s) && 0 <= j < |Adj(g, cur)|
    ensures Adj(g, cur)[j].0 in g && Adj(g, cur)[j].1 >= 0.0
  {
    assert cur in g;
    assert Adj(g, cur)[j] in g[cur];
  }

  /** Dropping a stale entry keeps the invariant. */
  lemma StalePop(g: Graph, s: string, dist: map<string, Cost>, pq: multiset<Entry>,
                 settled: set<string>, routes: map<string, seq<Hop>>, e: Entry)
    requires Searching(g, s, dist, pq, settled, routes) && e in pq
    requires e.1 in dist && Exceeds(e.0, dist[e.1])
    ensures Searching(g, s, dist, pq - multiset{e}, settled, routes)
  {
    var rest := pq - multiset{e};
    forall f ensures EntryAt(dist, rest, settled, f) {
      assert EntryAt(dist, pq, settled, f);
    }
    forall v ensures QueuedAt(dist, rest, settled, v) {
      assert QueuedAt(dist, pq, settled, v);
      if v in dist && v !in settled && dist[v].Finite? {
        assert (dist[v].value, v) != e;
      }
    }
    forall u, f ensures FirstAt(dist, rest, settled, u, f) {
      assert FirstAt(dist, pq, settled, u, f);
    }
  }

  /**
   * Popping an entry of least cost that is not stale settles its city: the city was not
   * settled yet, its distance is the entry's cost, and the inner loop may start.
   */
  lemma SettlePop(g: Graph, s: string, dist: map<string, Cost>, pq: multiset<Entry>,
                  settled: set<string>, routes: map<string, seq<Hop>>, e: Entry)
    requires Searching(g, s, dist, pq, settled, routes) && e in pq && IsMinEntry(e, pq)
    requires e.1 in dist && !Exceeds(e.0, dist[e.1])
    ensures e.1 !in settled
    ensures Relaxing(g, s, e.1, e.0, dist, pq - multiset{e}, settled + {e.1}, routes, 0)
  {
    var cost, cur := e.0, e.1;
    var rest, now := pq - multiset{e}, settled + {cur};
    assert EntryAt(dist, pq, settled, e);
    assert QueuedAt(dist, pq, settled, cur);
    SettledEntries(dist, pq, settled, e, rest, now);
    SettledQueue(dist, pq, settled, e, rest, now);
    forall u ensures BelowAt(dist, now, cost, u) {
      assert FirstAt(dist, pq, settled, u, e);
    }
    assert now - {cur} == settled;
  }

  /** Settling the city of the least entry `e` keeps every other entry in bounds. */
  lemma SettledEntries(dist: map<string, Cost>, pq: multiset<Entry>, settled: set<string>, e: Entry,
                       rest: multiset<Entry>, now: set<string>)
    requires EntriesOk(dist, pq, settled) && Queued(dist, pq, settled) && e in pq && IsMinEntry(e, pq)
    requires e.1 in dist && dist[e.1] == Finite(e.0) && e.1 !in settled
    requires rest == pq - multiset{e} && now == settled + {e.1}
    ensures rest[e] == 0 && EntriesOk(dist, rest, now)
  {
    assert QueuedAt(dist, pq, settled, e.1);
    forall f ensures EntryAt(dist, rest, now, f) {
      assert EntryAt(dist, pq, settled, f);
      if f in rest && f.1 == e.1 {
        assert f != e && f in pq;
      }
    }
  }

  /** Settling the city of the least entry `e` keeps the queue and the settled-first facts. */
  lemma SettledQueue(dist: map<string, Cost>, pq: multiset<Entry>, settled: set<string>, e: Entry,
                     rest: multiset<Entry>, now: set<string>)
    requires Queued(dist, pq, settled) && SettledFirst(dist, pq, settled) && e in pq && IsMinEntry(e, pq)
    requires e.1 in dist && dist[e.1] == Finite(e.0) && e.1 !in settled
    requires rest == pq - multiset{e} && now == settled + {e.1}
    ensures Queued(dist, rest, now) && SettledFirst(dist, rest, now)
  {
    forall v ensures QueuedAt(dist, rest, now, v) {
      assert QueuedAt(dist, pq, settled, v);
      if v in dist && v !in now && dist[v].Finite? {
        assert (dist[v].value, v) != e;
      }
    }
    forall u ensures FiniteAt(dist, now, u) {
      assert FiniteAt(dist, settled, u);
    }
    forall u, f ensures FirstAt(dist, rest, now, u, f) {
      assert FirstAt(dist, pq, settled, u, f);
      if f in rest {
        assert f in pq;
      }
    }
  }

  /** Relaxing a flight that lowers its city's distance keeps the inner invariant. */
  lemma RelaxStep(g: Graph, s: string, cur: string, cost: real, dist: map<string, Cost>, pq: multiset<Entry>,
                  settled: set<string>, routes: map<string, seq<Hop>>, j: int, h: Hop,
                  dist': map<string, Cost>, pq': multiset<Entry>, routes': map<string, seq<Hop>>)
    requires Relaxing(g, s, cur, cost, dist, pq, settled, routes, j) && j < |Adj(g, cur)| && h == Adj(g, cur)[j]
    requires h.0 in dist && Below(cost + h.1, dist[h.0]) && cur in routes
    requires dist' == dist[h.0 := Finite(cost + h.1)]
    requires pq' == pq + multiset{(cost + h.1, h.0)}
    requires routes' == routes[h.0 := routes[cur] + [h]]
    ensures Relaxing(g, s, cur, cost, dist', pq', settled, routes', j + 1)
  {
    RelaxedNeighbour(g, s, cur, cost, dist, pq, settled, routes, j, h);
    RelaxedCore(g, s, cur, cost, dist, pq, settled, routes, h, dist', pq', routes');
    RelaxedSettledEdges(g, dist, settled, cur, cost, j, h, dist');
  }

  /** The relaxed neighbour is an unsettled city of the graph, other than `s` and `cur`, at a non-negative price. */
  lemma RelaxedNeighbour(g: Graph, s: string, cur: string, cost: real, dist: map<string, Cost>, pq: multiset<Entry>,
                         settled: set<string>, routes: map<string, seq<Hop>>, j: int, h: Hop)
    requires Relaxing(g, s, cur, cost, dist, pq, settled, routes, j) && j < |Adj(g, cur)| && h == Adj(g, cur)[j]
    requires h.0 in dist && Below(cost + h.1, dist[h.0])
    ensures h.0 in g && h.0 !in settled && h.0 != s && 0.0 <= h.1 && h in Adj(g, cur)
  {
    EdgeInGraph(g, s, cur, j);
    assert BelowAt(dist, settled, cost, h.0) && FiniteAt(dist, settled, h.0);
  }

  /** Lowering an unsettled neighbour's distance, recording its route and queueing it keeps the core facts. */
  lemma RelaxedCore(g: Graph, s: string, cur: string, cost: real, dist: map<string, Cost>, pq: multiset<Entry>,
                    settled: set<string>, routes: map<string, seq<Hop>>, h: Hop,
                    dist': map<string, Cost>, pq': multiset<Entry>, routes': map<string, seq<Hop>>)
    requires SearchCore(g, s, dist, pq, settled, routes) && SettledBelow(dist, settled, cost)
    requires cur in dist && dist[cur] == Finite(cost) && 0.0 <= cost && h in Adj(g, cur)
    requires h.0 in g && h.0 !in settled && h.0 != s && 0.0 <= h.1 && h.0 in dist && Below(cost + h.1, dist[h.0])
    requires cur in routes
    requires dist' == dist[h.0 := Finite(cost + h.1)]
    requires pq' == pq + multiset{(cost + h.1, h.0)}
    requires routes' == routes[h.0 := routes[cur] + [h]]
    ensures SearchCore(g, s, dist', pq', settled, routes') && SettledBelow(dist', settled, cost)
  {
    RelaxedWitnessed(g, s, dist, routes, cur, cost, h, dist', routes');
    RelaxedEntries(dist, pq, settled, h.0, cost + h.1, dist', pq');
    RelaxedQueued(dist, pq, settled, h.0, cost + h.1, dist', pq');
    RelaxedSettledFirst(dist, pq, settled, cost, h.0, cost + h.1, dist', pq');
  }

  /** Recording the route through `cur` along with the lowered distance keeps every distance witnessed. */
  lemma RelaxedWitnessed(g: Graph, s: string, dist: map<string, Cost>, routes: map<string, seq<Hop>>,
                         cur: string, cost: real, h: Hop, dist': map<string, Cost>, routes': map<string, seq<Hop>>)
    requires Witnessed(g, s, dist, routes) && cur in dist && dist[cur] == Finite(cost) && h in Adj(g, cur)
    requires cur in routes
    requires dist' == dist[h.0 := Finite(cost + h.1)] && routes' == routes[h.0 := routes[cur] + [h]]
    ensures Witnessed(g, s, dist', routes')
  {
    forall v ensures WitnessAt(g, s, dist', routes', v) {
      if v == h.0 {
        assert WitnessAt(g, s, dist, routes, cur);
        WalkExtend(g, s, routes[cur], h);
      } else {
        assert WitnessAt(g, s, dist, routes, v);
      }
    }
  }

  /** The entry queued for the lowered distance names a city with that distance. */
  lemma RelaxedEntries(dist: map<string, Cost>, pq: multiset<Entry>, settled: set<string>, nb: string, nc: real,
                       dist': map<string, Cost>, pq': multiset<Entry>)
    requires EntriesOk(dist, pq, settled) && nb in dist && nb !in settled && Below(nc, dist[nb]) && 0.0 <= nc
    requires dist' == dist[nb := Finite(nc)] && pq' == pq + multiset{(nc, nb)}
    ensures EntriesOk(dist', pq', settled)
  {
    forall e ensures EntryAt(dist', pq', settled, e) {
      assert EntryAt(dist, pq, settled, e);
    }
  }

  /** The lowered city is queued once at its new distance; other cities keep their entries. */
  lemma RelaxedQueued(dist: map<string, Cost>, pq: multiset<Entry>, settled: set<string>, nb: string, nc: real,
                      dist': map<string, Cost>, pq': multiset<Entry>)
    requires Queued(dist, pq, settled) && EntriesOk(dist, pq, settled)
    requires nb in dist && nb !in settled && Below(nc, dist[nb])
    requires dist' == dist[nb := Finite(nc)] && pq' == pq + multiset{(nc, nb)}
    ensures Queued(dist', pq', settled)
  {
    assert EntryAt(dist, pq, settled, (nc, nb));
    forall v ensures QueuedAt(dist', pq', settled, v) {
      assert QueuedAt(dist, pq, settled, v);
      if v != nb && v in dist' && v !in settled && dist'[v].Finite? {
        assert (dist'[v].value, v) != (nc, nb);
      }
    }
  }

  /** Settled cities stay no dearer than `cost`, which is no dearer than the new entry. */
  lemma RelaxedSettledFirst(dist: map<string, Cost>, pq: multiset<Entry>, settled: set<string>, cost: real,
                            nb: string, nc: real, dist': map<string, Cost>, pq': multiset<Entry>)
    requires SettledFirst(dist, pq, settled) && SettledBelow(dist, settled, cost) && nb !in settled && cost <= nc
    requires dist' == dist[nb := Finite(nc)] && pq' == pq + multiset{(nc, nb)}
    ensures SettledFirst(dist', pq', settled) && SettledBelow(dist', settled, cost)
  {
    forall u ensures FiniteAt(dist', settled, u) && BelowAt(dist', settled, cost, u) {
      assert FiniteAt(dist, settled, u) && BelowAt(dist, settled, cost, u);
    }
    forall u, e ensures FirstAt(dist', pq', settled, u, e) {
      assert FirstAt(dist, pq, settled, u, e) && BelowAt(dist, settled, cost, u);
    }
  }

  /** Lowering the distance of the `j`-th neighbour of `cur` to its relaxed value keeps every relaxed flight relaxed. */
  lemma RelaxedSettledEdges(g: Graph, dist: map<string, Cost>, settled: set<string>, cur: string, cost: real,
                            j: int, h: Hop, dist': map<string, Cost>)
    requires SettledRelaxed(g, dist, settled - {cur}) && FirstRelaxed(g, dist, cur, cost, j)
    requires j < |Adj(g, cur)| && h == Adj(g, cur)[j] && h.0 in dist && h.0 !in settled && cur in settled
    requires Below(cost + h.1, dist[h.0]) && dist' == dist[h.0 := Finite(cost + h.1)]
    ensures SettledRelaxed(g, dist', settled - {cur}) && FirstRelaxed(g, dist', cur, cost, j + 1)
  {
    forall u, e ensures OutRelaxed(g, dist', settled - {cur}, u, e) {
      assert OutRelaxed(g, dist, settled - {cur}, u, e);
    }
    forall k | 0 <= k < j + 1 ensures EdgeRelaxed(dist', cost, Adj(g, cur)[k]) {
      if k < j {
        assert EdgeRelaxed(dist, cost, Adj(g, cur)[k]);
      }
    }
  }

  /** A flight that does not lower its city's distance is already relaxed. */
  lemma KeepStep(g: Graph, s: string, cur: string, cost: real, dist: map<string, Cost>, pq: multiset<Entry>,
                 settled: set<string>, routes: map<string, seq<Hop>>, j: int)
    requires Relaxing(g, s, cur, cost, dist, pq, settled, routes, j) && j < |Adj(g, cur)|
    requires Adj(g, cur)[j].0 in dist && !Below(cost + Adj(g, cur)[j].1, dist[Adj(g, cur)[j].0])
    ensures Relaxing(g, s, cur, cost, dist, pq, settled, routes, j + 1)
  {
    assert FirstRelaxed(g, dist, cur, cost, j + 1) by {
      forall k | 0 <= k < j + 1 ensures EdgeRelaxed(dist, cost, Adj(g, cur)[k]) {
        if k < j {
          assert EdgeRelaxed(dist, cost, Adj(g, cur)[k]);
        }
      }
    }
  }

  /** Once every flight of `cur` is relaxed, all settled cities are. */
  lemma FinishRelaxing(g: Graph, s: string, cur: string, cost: real, dist: map<string, Cost>, pq: multiset<Entry>,
                       settled: set<string>, routes: map<string, seq<Hop>>)
    requires Relaxing(g, s, cur, cost, dist, pq, settled, routes, |Adj(g, cur)|)
    ensures Searching(g, s, dist, pq, settled, routes)
  {
    forall u, h ensures OutRelaxed(g, dist, settled, u, h) {
      if u == cur && h in Adj(g, cur) {
        var k :| 0 <= k < |Adj(g, cur)| && Adj(g, cur)[k] == h;
        assert EdgeRelaxed(dist, cost, Adj(g, cur)[k]);
      } else {
        assert OutRelaxed(g, dist, settled - {cur}, u, h);
      }
    }
  }

  /** With the queue empty, every distance is the price of a cheapest route, or infinity. */
  lemma FinishSearch(g: Graph, s: string, dist: map<string, Cost>, settled: set<string>, routes: map<string, seq<Hop>>)
    requires Searching(g, s, dist, multiset{}, settled, routes)
    ensures forall t :: t in dist ==> CheapestRoute(g, s, t, dist[t])
  {
    forall u, h | u in dist && dist[u].Finite? && h in Adj(g, u) ensures EdgeRelaxed(dist, dist[u].value, h) {
      assert QueuedAt(dist, multiset{}, settled, u);
      assert multiset{}[(dist[u].value, u)] == 0;
      assert OutRelaxed(g, dist, settled, u, h);
    }
    forall t | t in dist ensures CheapestRoute(g, s, t, dist[t]) {
      forall w | Reaches(g, s, w, t) ensures dist[t].Finite? && dist[t].value <= WalkCost(w) {
        RelaxedBoundsWalks(g, dist, s, w);
      }
      assert WitnessAt(g, s, dist, routes, t);
    }
  }

  // ---------------------------------------------------------------------------------------------
  // The optimizer
  // ---------------------------------------------------------------------------------------------

  /** The answer read back for `end`: a city the search never saw reads as a default 0.0. */
  function AnswerAsWritten(dist: map<string, Cost>, end: string): Cost
  {
    if end in dist then dist[end] else Finite(0.0)
  }

  /** The answer for `end` with a city the search never saw reported as unreachable. */
  function RouteAnswer(dist: map<string, Cost>, end: string): Cost
  {
    if end in dist then dist[end] else Infinite
  }

  class RouteOptimizer {
    var graph: Graph

    /** Every flight lands in a city with a list. */
    ghost predicate Valid()
      reads this
    {
      Closed(graph)
    }

    /** An empty graph. */
    constructor ()
      ensures graph == map[] && Valid()
    {
      graph := map[];
    }

    /** Adds a flight in both directions: `from` -> `to`, then `to` -> `from`, at the same price. */
    method AddFlightRoute(from: string, to: string, price: real)
      modifies this
      ensures graph == AddRoute(old(graph), from, to, price)
      ensures old(Valid()) ==> Valid()
      ensures old(NonNegative(graph)) && price >= 0.0 ==> NonNegative(graph)
    {
      ghost var g0 := graph;
      graph := AddEdge(graph, from, to, price);
      graph := AddEdge(graph, to, from, price);
      if Closed(g0) {
        ClosedAddRoute(g0, from, to, price);
      }
      if NonNegative(g0) && price >= 0.0 {
        NonNegativeAddRoute(g0, from, to, price);
      }
    }

    /**
     * The cheapest price from `start` to `end`. Looking up the popped `start` gives it a list
     * when it had none. A city the graph does not know (other than `start`) reads as 0.0.
     */
    method FindCheapestRoute(start: string, end: string) returns (r: Cost)
      requires Valid() && NonNegative(graph)
      modifies this
      ensures graph == if start in old(graph) then old(graph) else old(graph)[start := []]
      ensures Valid() && NonNegative(graph)
      ensures end in graph ==> CheapestRoute(graph, start, end, r)
      ensures end !in graph ==> r == Finite(0.0)
    {
      var dist := Search(start);
      r := AnswerAsWritten(dist, end);
    }

    /** The cheapest price from `start` to `end`, infinity for every city no route reaches. */
    method FindCheapestRouteChecked(start: string, end: string) returns (r: Cost)
      requires Valid() && NonNegative(graph)
      modifies this
      ensures graph == if start in old(graph) then old(graph) else old(graph)[start := []]
      ensures Valid() && NonNegative(graph)
      ensures CheapestRoute(graph, start, end, r)
    {
      var dist := Search(start);
      r := RouteAnswer(dist, end);
      if end !in dist {
        forall w | Reaches(graph, start, w, end) ensures false {
          WalkStaysInGraph(graph, start, w);
        }
      }
    }

    /** Gives `start` a list if it has none, then runs the search from it. */
    method Search(start: string) returns (dist: map<string, Cost>)
      requires Valid() && NonNegative(graph)
      modifies this
      ensures graph == if start in old(graph) then old(graph) else old(graph)[start := []]
      ensures GraphOk(graph, start) && dist.Keys == graph.Keys
      ensures forall t :: t in dist ==> CheapestRoute(graph, start, t, dist[t])
    {
      if start !in graph {
        graph := graph[start := []];
      }
      dist := Dijkstra(graph, start);
    }
  }

  /**
   * For a city the graph does not know, the answer as written is 0.0 although no route
   * reaches the city, so 0.0 is not its cheapest price; infinity is.
   */
  lemma UnknownEndReadsZero(g: Graph, s: string, t: string, dist: map<string, Cost>)
    requires GraphOk(g, s) && t !in g && dist.Keys == g.Keys
    ensures AnswerAsWritten(dist, t) == Finite(0.0)
    ensures !CheapestRoute(g, s, t, Finite(0.0))
    ensures CheapestRoute(g, s, t, Infinite)
  {
    forall w | Reaches(g, s, w, t) ensures false {
      WalkStaysInGraph(g, s, w);
    }
  }

  /** The demonstration network: Delhi-Mumbai 5000, Mumbai-Bangalore 3000, Delhi-Bangalore 8000. */
  function DemoGraph(): Graph
  {
    map["Delhi" := [("Mumbai", 5000.0), ("Bangalore", 8000.0)],
        "Mumbai" := [("Delhi", 5000.0), ("Bangalore", 3000.0)],
        "Bangalore" := [("Mumbai", 3000.0), ("Delhi", 8000.0)]]
  }

  /** The demonstration network is what three route additions build from an empty graph. */
  lemma DemoBuild()
    ensures AddRoute(AddRoute(AddRoute(map[], "Delhi", "Mumbai", 5000.0), "Mumbai", "Bangalore", 3000.0),
                     "Delhi", "Bangalore", 8000.0) == DemoGraph()
  {
    var g0: Graph := map[];
    var g1 := AddEdge(g0, "Delhi", "Mumbai", 5000.0);
    assert Adj(g0, "Delhi") + [("Mumbai", 5000.0)] == [("Mumbai", 5000.0)];
    var g2 := AddEdge(g1, "Mumbai", "Delhi", 5000.0);
    assert Adj(g1, "Mumbai") + [("Delhi", 5000.0)] == [("Delhi", 5000.0)];
    var g3 := AddEdge(g2, "Mumbai", "Bangalore", 3000.0);
    assert Adj(g2, "Mumbai") + [("Bangalore", 3000.0)] == [("Delhi", 5000.0), ("Bangalore", 3000.0)];
    var g4 := AddEdge(g3, "Bangalore", "Mumbai", 3000.0);
    assert Adj(g3, "Bangalore") + [("Mumbai", 3000.0)] == [("Mumbai", 3000.0)];
    var g5 := AddEdge(g4, "Delhi", "Bangalore", 8000.0);
    assert Adj(g4, "Delhi") + [("Bangalore", 8000.0)] == [("Mumbai", 5000.0), ("Bangalore", 8000.0)];
    var g6 := AddEdge(g5, "Bangalore", "Delhi", 8000.0);
    assert Adj(g5, "Bangalore") + [("Delhi", 8000.0)] == [("Mumbai", 3000.0), ("Delhi", 8000.0)];
    assert g6 == DemoGraph();
  }

  /** On the demonstration network the cheapest route from Delhi to Bangalore costs 8000. */
  lemma DemoCheapest(r: Cost)
    requires CheapestRoute(DemoGraph(), "Delhi", "Bangalore", r)
    ensures r == Finite(8000.0)
  {
    var g := DemoGraph();
    var direct := [("Bangalore", 8000.0)];
    assert direct[..0] == [];
    assert Reaches(g, "Delhi", direct, "Bangalore") && WalkCost(direct) == 8000.0;
    var bound := map["Delhi" := Finite(0.0), "Mumbai" := Finite(5000.0), "Bangalore" := Finite(8000.0)];
    assert Relaxed(g, bound);
    var w :| Reaches(g, "Delhi", w, "Bangalore") && WalkCost(w) == r.value;
    RelaxedBoundsWalks(g, bound, "Delhi", w);
  }

  /** The demonstration: the three routes, then the query Delhi -> Bangalore, which gives 8000. */
  method RouteDemo() returns (r: Cost)
    ensures r == Finite(8000.0)
  {
    var optimizer := new RouteOptimizer();
    assert NonNegative(optimizer.graph);
    optimizer.AddFlightRoute("Delhi", "Mumbai", 5000.0);
    optimizer.AddFlightRoute("Mumbai", "Bangalore", 3000.0);
    optimizer.AddFlightRoute("Delhi", "Bangalore", 8000.0);
    DemoBuild();
    r := optimizer.FindCheapestRoute("Delhi", "Bangalore");
    DemoCheapest(r);
  }

  /** Asking for a city no flight serves: 0.0 as written, infinity once unknown cities are unreachable. */
  method UnknownCityDemo() returns (asWritten: Cost, checked: Cost)
    ensures asWritten == Finite(0.0) && checked == Infinite
  {
    var optimizer := new RouteOptimizer();
    assert NonNegative(optimizer.graph);
    optimizer.AddFlightRoute("Delhi", "Mumbai", 5000.0);
    asWritten := optimizer.FindCheapestRoute("Delhi", "Goa");
    checked := optimizer.FindCheapestRouteChecked("Delhi", "Goa");
    UnknownEndReadsZero(optimizer.graph, "Delhi", "Goa", map c | c in optimizer.graph :: Infinite);
  }
}
