/**
 * Dijkstra's algorithm over the delivery network (src/dsa/Dijkstra.java):
 * point-to-point shortest path with predecessor reconstruction, the
 * single-source distance table, and the nearest of several target cities.
 *
 * The priority queue is a sequence of entries; `poll` takes any entry of
 * least distance, so nothing below depends on how ties are broken. Entries
 * of already settled cities stay in the queue and are skipped when polled
 * (lazy deletion), as in the source.
 */
module Dijkstra {
  import opened Wrappers
  import opened CityGraph
  import opened Walks
  import ArgMin

  /** A priority-queue entry: a city and the tentative distance it was offered with. */
  datatype Node = Node(city: string, distance: nat)

  /** A distance-table entry; `Unreachable` is the source's `Integer.MAX_VALUE`. */
  datatype Distance = Finite(km: nat) | Unreachable

  /** `PathResult`: a path (null when absent) and its distance (-1 when not found). */
  datatype PathResult = PathResult(path: Option<seq<string>>, distance: int) {
    /** `isPathFound`: the path is present and not empty. */
    predicate IsPathFound() {
      path.Some? && |path.value| > 0
    }
  }

  const NotFound: PathResult := PathResult(None, -1)

  function AsDistance(k: Option<nat>): Distance {
    if k.Some? then Finite(k.value) else Unreachable
  }

  /** The distance the engine reports between two cities: none unless both are in the network. */
  ghost function RouteDistance(g: Graph, s: string, t: string): Option<nat>
    requires NonNegativeWeights(g)
  {
    if s in g.cities && t in g.cities then MinWalkWeight(g, s, t) else None
  }

  /** `path` lists the cities of a walk from `s` to `t` of total length `k`. */
  ghost predicate IsRouteOf(g: Graph, s: string, t: string, path: seq<string>, k: int) {
    exists w :: WalkTo(g, s, t, w) && Route(s, w) == path && Weight(w) == k
  }

  /**
   * `r` is what a correct shortest-path query from `s` to `t` may return:
   * not found exactly when there is no route, otherwise a shortest route.
   */
  ghost predicate IsShortestResult(g: Graph, s: string, t: string, r: PathResult)
    requires NonNegativeWeights(g)
  {
    if RouteDistance(g, s, t).None? then r == NotFound
    else
      && r.IsPathFound()
      && r.distance == RouteDistance(g, s, t).value
      && IsRouteOf(g, s, t, r.path.value, r.distance)
  }

  // ----- Proof state of the main loop -----

  ghost predicate LowerBound(g: Graph, s: string, v: string, k: int) {
    forall w :: WalkTo(g, s, v, w) ==> k <= Weight(w)
  }

  /** The edge `e` leaving the settled city `v` has been relaxed. */
  ghost predicate Relaxed(dist: map<string, nat>, visited: set<string>, v: string, e: Edge) {
    || e.destination in visited
    || (v in dist && e.destination in dist && dist[e.destination] <= dist[v] + e.weight)
  }

  /**
   * The predecessor link of `u`, if it has one: a settled city with no larger
   * distance, joined to `u` by an edge whose length is the difference of
   * their distances, and settled before `u` if `u` is settled.
   */
  ghost predicate Link(g: Graph, dist: map<string, nat>, prev: map<string, string>, rank: map<string, nat>, u: string) {
    u in prev ==>
      && u in dist && prev[u] in dist && prev[u] in rank
      && dist[prev[u]] <= dist[u]
      && Edge(u, dist[u] - dist[prev[u]]) in Neighbors(g, prev[u])
      && (u in rank ==> rank[prev[u]] < rank[u])
  }

  /**
   * The predecessor links: every city with a finite distance other than the
   * source has a link. `rank` numbers the settled cities in the order they
   * were settled; links point to strictly earlier cities, so following them
   * always ends.
   */
  ghost predicate Chain(g: Graph, s: string, dist: map<string, nat>, prev: map<string, string>, rank: map<string, nat>) {
    && s in dist && dist[s] == 0 && s !in prev
    && prev.Keys <= dist.Keys
    && rank.Keys <= dist.Keys
    && (forall u :: u in dist ==> u == s || u in prev)
    && RankBounded(rank)
    && Linked(g, dist, prev, rank)
  }

  /** Settled cities are numbered below their count. */
  ghost predicate RankBounded(rank: map<string, nat>) {
    forall x {:trigger rank[x]} :: x in rank ==> rank[x] < |rank.Keys|
  }

  ghost predicate Linked(g: Graph, dist: map<string, nat>, prev: map<string, string>, rank: map<string, nat>) {
    forall u {:trigger Link(g, dist, prev, rank, u)} :: Link(g, dist, prev, rank, u)
  }

  /** Every queue entry offers a distance no better than the city's tentative one. */
  ghost predicate QueueSound(dist: map<string, nat>, queue: seq<Node>) {
    forall nd :: nd in queue ==> nd.city in dist && dist[nd.city] <= nd.distance
  }

  /** Every unsettled city with a tentative distance has an entry offering exactly it. */
  ghost predicate QueueComplete(dist: map<string, nat>, visited: set<string>, queue: seq<Node>) {
    forall u {:trigger Node(u, dist[u])} :: u in dist && u !in visited ==> Node(u, dist[u]) in queue
  }

  /** The distance of every settled city is a lower bound on the walks to it. */
  ghost predicate SettledShortest(g: Graph, s: string, dist: map<string, nat>, visited: set<string>) {
    forall v {:trigger LowerBound(g, s, v, dist[v])} :: v in visited ==> v in dist && LowerBound(g, s, v, dist[v])
  }

  /** All edges leaving settled cities, other than the target and `skip`, are relaxed. */
  ghost predicate AllRelaxed(g: Graph, dist: map<string, nat>, visited: set<string>, target: Option<string>, skip: Option<string>) {
    forall v, e {:trigger Relaxed(dist, visited, v, e)} ::
      v in visited && Some(v) != target && Some(v) != skip && e in Neighbors(g, v) ==> Relaxed(dist, visited, v, e)
  }

  /** The state shared by the main loop and the relaxation of one settled city. */
  ghost predicate State(g: Graph, s: string, target: Option<string>, dist: map<string, nat>, prev: map<string, string>,
                        visited: set<string>, rank: map<string, nat>, queue: seq<Node>) {
    && dist.Keys <= g.cities + {s}
    && visited <= dist.Keys
    && rank.Keys == visited
    && Chain(g, s, dist, prev, rank)
    && QueueSound(dist, queue)
    && QueueComplete(dist, visited, queue)
    && SettledShortest(g, s, dist, visited)
  }

  /** Following the predecessor links from `u` spells out a walk of length `dist[u]`. */
  lemma ChainWalk(g: Graph, s: string, dist: map<string, nat>, prev: map<string, string>, rank: map<string, nat>, u: string)
    returns (w: seq<Edge>)
    requires Chain(g, s, dist, prev, rank) && u in dist
    ensures WalkTo(g, s, u, w) && Weight(w) == dist[u]
    decreases if u in rank then rank[u] else |rank.Keys|
  {
    if u == s {
      w := [];
    } else {
      assert Link(g, dist, prev, rank, u);
      var p := prev[u];
      var w' := ChainWalk(g, s, dist, prev, rank, p);
      var e := Edge(u, dist[u] - dist[p]);
      WalkAppend(g, s, w', e);
      w := w' + [e];
    }
  }

  /**
   * Every walk from the source to an unsettled city passes a city that has a
   * finite tentative distance, is unsettled, and whose distance is at most the
   * length of the walk.
   */
  lemma {:induction false} Frontier(g: Graph, s: string, dist: map<string, nat>, visited: set<string>,
                                    target: Option<string>, w: seq<Edge>)
    requires NonNegativeWeights(g)
    requires s in dist && dist[s] == 0 && visited <= dist.Keys
    requires SettledShortest(g, s, dist, visited)
    requires AllRelaxed(g, dist, visited, target, None)
    requires target.Some? ==> target.value !in visited
    requires IsWalk(g, s, w) && End(s, w) !in visited
    ensures exists x :: x in dist && x !in visited && dist[x] <= Weight(w)
    decreases |w|
  {
    if |w| == 0 {
      assert s !in visited && dist[s] <= Weight(w);
    } else {
      var n := |w| - 1;
      var w' := w[..n];
      WalkPrefix(g, s, w, n);
      WeightNonNegative(g, s, w);
      var v := End(s, w');
      var e := w[n];
      assert e in Neighbors(g, v) by {
        assert At(s, w, n) == v;
      }
      if v !in visited {
        Frontier(g, s, dist, visited, target, w');
      } else {
        assert v in dist && LowerBound(g, s, v, dist[v]);
        assert WalkTo(g, s, v, w');
        assert Relaxed(dist, visited, v, e);
      }
    }
  }

  /** `poll`: the index of an entry of least distance. */
  method ExtractMin(queue: seq<Node>) returns (i: nat)
    requires |queue| > 0
    ensures i < |queue|
    ensures forall j :: 0 <= j < |queue| ==> queue[i].distance <= queue[j].distance
  {
    i := 0;
    for j := 1 to |queue|
      invariant i < |queue|
      invariant forall k :: 0 <= k < j ==> queue[i].distance <= queue[k].distance
    {
      if queue[j].distance < queue[i].distance {
        i := j;
      }
    }
  }

  /** The queue with the entry at `i` taken out. */
  function RemoveAt(queue: seq<Node>, i: nat): (r: seq<Node>)
    requires i < |queue|
    ensures |r| == |queue| - 1
    ensures forall nd :: nd in r ==> nd in queue
    ensures forall nd :: nd in queue && nd != queue[i] ==> nd in r
  {
    var r := queue[..i] + queue[i + 1..];
    assert forall nd :: nd in queue && nd != queue[i] ==> nd in r by {
      forall nd | nd in queue && nd != queue[i]
        ensures nd in r
      {
        var j :| 0 <= j < |queue| && queue[j] == nd;
        if j < i {
          assert r[j] == nd;
        } else {
          assert r[j - 1] == nd;
        }
      }
    }
    r
  }

  /** The entry polled for an unsettled city carries its final, shortest distance. */
  lemma PolledIsShortest(g: Graph, s: string, dist: map<string, nat>, visited: set<string>,
                         target: Option<string>, queue: seq<Node>, i: nat)
    requires NonNegativeWeights(g)
    requires s in dist && dist[s] == 0 && visited <= dist.Keys
    requires SettledShortest(g, s, dist, visited)
    requires AllRelaxed(g, dist, visited, target, None)
    requires target.Some? ==> target.value !in visited
    requires QueueSound(dist, queue) && QueueComplete(dist, visited, queue)
    requires i < |queue| && forall j :: 0 <= j < |queue| ==> queue[i].distance <= queue[j].distance
    requires queue[i].city !in visited
    ensures queue[i].city in dist && dist[queue[i].city] == queue[i].distance
    ensures LowerBound(g, s, queue[i].city, dist[queue[i].city])
  {
    var u := queue[i].city;
    assert queue[i] in queue;
    assert Node(u, dist[u]) in queue;
    forall w | WalkTo(g, s, u, w)
      ensures dist[u] <= Weight(w)
    {
      Frontier(g, s, dist, visited, target, w);
      var x :| x in dist && x !in visited && dist[x] <= Weight(w);
      assert Node(x, dist[x]) in queue;
    }
  }

  lemma RankSettle(rank: map<string, nat>, u: string)
    requires RankBounded(rank) && u !in rank
    ensures RankBounded(rank[u := |rank.Keys|])
  {
    var n := |rank.Keys|;
    var rank' := rank[u := n];
    assert rank'.Keys == rank.Keys + {u};
    assert |rank'.Keys| == n + 1;
    forall x | x in rank'
      ensures rank'[x] < |rank'.Keys|
    {
      if x != u {
        assert rank'[x] == rank[x] < n;
      }
    }
  }

  lemma LinkedSettle(g: Graph, dist: map<string, nat>, prev: map<string, string>, rank: map<string, nat>, u: string)
    requires Linked(g, dist, prev, rank) && RankBounded(rank) && u !in rank
    ensures Linked(g, dist, prev, rank[u := |rank.Keys|])
  {
    var rank' := rank[u := |rank.Keys|];
    forall x
      ensures Link(g, dist, prev, rank', x)
    {
      assert Link(g, dist, prev, rank, x);
      if x in prev {
        assert prev[x] != u;
        assert rank'[prev[x]] == rank[prev[x]] < |rank.Keys|;
      }
    }
  }

  /** Numbering a newly settled city last keeps the predecessor links well founded. */
  lemma ChainSettle(g: Graph, s: string, dist: map<string, nat>, prev: map<string, string>, rank: map<string, nat>, u: string)
    requires Chain(g, s, dist, prev, rank) && u in dist && u !in rank
    ensures Chain(g, s, dist, prev, rank[u := |rank.Keys|])
  {
    RankSettle(rank, u);
    LinkedSettle(g, dist, prev, rank, u);
  }

  /** Edges relaxed stay relaxed when more cities are settled. */
  lemma RelaxedSettle(g: Graph, dist: map<string, nat>, visited: set<string>, target: Option<string>, u: string)
    requires AllRelaxed(g, dist, visited, target, None)
    ensures AllRelaxed(g, dist, visited + {u}, target, Some(u))
  {
    forall v, e | v in visited + {u} && Some(v) != target && Some(v) != Some(u) && e in Neighbors(g, v)
      ensures Relaxed(dist, visited + {u}, v, e)
    {
      assert Relaxed(dist, visited, v, e);
    }
  }

  /** Taking the polled entry of a city out of the queue, and settling the city, keeps the queue invariants. */
  lemma QueueAfterPoll(dist: map<string, nat>, visited: set<string>, polled: seq<Node>, queue: seq<Node>, u: string)
    requires QueueSound(dist, polled) && QueueComplete(dist, visited, polled)
    requires forall nd :: nd in polled && nd.city != u ==> nd in queue
    requires forall nd :: nd in queue ==> nd in polled
    ensures QueueSound(dist, queue) && QueueComplete(dist, visited + {u}, queue)
  {
    forall x | x in dist && x !in visited + {u}
      ensures Node(x, dist[x]) in queue
    {
      assert Node(x, dist[x]) in polled;
    }
  }

  lemma SettledAdd(g: Graph, s: string, dist: map<string, nat>, visited: set<string>, u: string)
    requires SettledShortest(g, s, dist, visited) && visited <= dist.Keys
    requires u in dist && LowerBound(g, s, u, dist[u])
    ensures SettledShortest(g, s, dist, visited + {u})
  {
    forall v | v in visited + {u}
      ensures v in dist && LowerBound(g, s, v, dist[v])
    {
      if v != u {
        assert v in visited;
        assert LowerBound(g, s, v, dist[v]);
      }
    }
  }

  /** Settling the polled city `u` keeps the state, with `u` numbered last. */
  lemma SettleOne(g: Graph, s: string, target: Option<string>, dist: map<string, nat>, prev: map<string, string>,
                  visited: set<string>, rank: map<string, nat>, polled: seq<Node>, queue: seq<Node>, u: string)
    requires State(g, s, target, dist, prev, visited, rank, polled)
    requires u in dist && u !in visited && LowerBound(g, s, u, dist[u])
    requires forall nd :: nd in polled && nd.city != u ==> nd in queue
    requires forall nd :: nd in queue ==> nd in polled
    requires AllRelaxed(g, dist, visited, target, None)
    ensures State(g, s, target, dist, prev, visited + {u}, rank[u := |rank.Keys|], queue)
    ensures AllRelaxed(g, dist, visited + {u}, target, Some(u))
  {
    var rank' := rank[u := |rank.Keys|];
    assert rank'.Keys == visited + {u};
    ChainSettle(g, s, dist, prev, rank, u);
    RelaxedSettle(g, dist, visited, target, u);
    QueueAfterPoll(dist, visited, polled, queue, u);
    SettledAdd(g, s, dist, visited, u);
  }

  lemma RemoveOne(a: set<string>, b: set<string>, u: string)
    requires u in a && u !in b
    ensures |a - (b + {u})| < |a - b|
  {
    assert a - (b + {u}) == (a - b) - {u};
  }

  /** Lowering the distance of an unsettled city through the settled city `u` keeps the links. */
  lemma ChainLower(g: Graph, s: string, dist: map<string, nat>, prev: map<string, string>, rank: map<string, nat>,
                   u: string, edge: Edge)
    requires Chain(g, s, dist, prev, rank)
    requires u in rank && edge in Neighbors(g, u) && edge.weight >= 0 && edge.destination !in rank
    requires edge.destination != s
    ensures Chain(g, s, dist[edge.destination := dist[u] + edge.weight], prev[edge.destination := u], rank)
  {
    var n := edge.destination;
    var dist' := dist[n := dist[u] + edge.weight];
    var prev' := prev[n := u];
    assert u != n;
    assert Edge(n, dist'[n] - dist'[u]) == edge;
    forall x
      ensures Link(g, dist', prev', rank, x)
    {
      if x != n {
        assert Link(g, dist, prev, rank, x);
        if x in prev {
          assert prev'[x] == prev[x] && prev[x] != n;
        }
      }
    }
  }

  /** Lowering the distance of the unsettled city `n` to `d` and queueing the offer keeps the state. */
  lemma StateLower(g: Graph, s: string, target: Option<string>, dist: map<string, nat>, prev: map<string, string>,
                   visited: set<string>, rank: map<string, nat>, queue: seq<Node>, n: string, d: nat)
    requires State(g, s, target, dist, prev, visited, rank, queue)
    requires n in g.cities && n !in visited && (n !in dist || d < dist[n])
    ensures QueueSound(dist[n := d], queue + [Node(n, d)])
    ensures QueueComplete(dist[n := d], visited, queue + [Node(n, d)])
    ensures SettledShortest(g, s, dist[n := d], visited)
  {
    var dist' := dist[n := d];
    var queue' := queue + [Node(n, d)];
    forall nd | nd in queue'
      ensures nd.city in dist' && dist'[nd.city] <= nd.distance
    {
      if nd != Node(n, d) {
        assert nd in queue;
      }
    }
    forall x | x in dist' && x !in visited
      ensures Node(x, dist'[x]) in queue'
    {
      if x != n {
        assert Node(x, dist[x]) in queue;
      }
    }
    forall v | v in visited
      ensures v in dist' && LowerBound(g, s, v, dist'[v])
    {
      assert dist'[v] == dist[v];
    }
  }

  /** Improving the distance of an unsettled neighbour of the settled city `u` keeps the state. */
  lemma StateRelax(g: Graph, s: string, target: Option<string>, dist: map<string, nat>, prev: map<string, string>,
                   visited: set<string>, rank: map<string, nat>, queue: seq<Node>, u: string, edge: Edge)
    requires Valid(g) && NonNegativeWeights(g)
    requires State(g, s, target, dist, prev, visited, rank, queue)
    requires u in visited && edge in Neighbors(g, u) && edge.destination !in visited
    requires edge.destination !in dist || dist[u] + edge.weight < dist[edge.destination]
    ensures State(g, s, target, dist[edge.destination := dist[u] + edge.weight], prev[edge.destination := u], visited, rank,
                  queue + [Node(edge.destination, dist[u] + edge.weight)])
  {
    assert u in g.adjacency && edge in g.adjacency[u];
    var n := edge.destination;
    assert n in g.cities;
    assert n != s;
    ChainLower(g, s, dist, prev, rank, u, edge);
    StateLower(g, s, target, dist, prev, visited, rank, queue, n, dist[u] + edge.weight);
  }

  /** Lowering an unsettled city's distance changes no other distance and raises none. */
  lemma LowerOnly(dist: map<string, nat>, visited: set<string>, n: string, d: nat)
    requires n !in visited && (n !in dist || d < dist[n])
    ensures forall x :: x in dist ==> x in dist[n := d] && dist[n := d][x] <= dist[x]
    ensures forall v :: v in visited && v in dist ==> dist[n := d][v] == dist[v]
  {
  }

  /** Relaxing one edge leaving the settled city `u`. */
  method RelaxEdge(g: Graph, s: string, target: Option<string>, u: string, edge: Edge, dist: map<string, nat>,
                   prev: map<string, string>, visited: set<string>, ghost rank: map<string, nat>, queue: seq<Node>)
    returns (dist': map<string, nat>, prev': map<string, string>, queue': seq<Node>)
    requires Valid(g) && NonNegativeWeights(g)
    requires u in visited && edge in Neighbors(g, u)
    requires State(g, s, target, dist, prev, visited, rank, queue)
    ensures State(g, s, target, dist', prev', visited, rank, queue')
    ensures Relaxed(dist', visited, u, edge)
    ensures forall x :: x in dist ==> x in dist' && dist'[x] <= dist[x]
    ensures forall v :: v in visited ==> dist'[v] == dist[v]
  {
    dist', prev', queue' := dist, prev, queue;
    var neighbor := edge.destination;
    if neighbor !in visited {
      var newDistance := dist[u] + edge.weight;
      if neighbor !in dist || newDistance < dist[neighbor] {
        StateRelax(g, s, target, dist, prev, visited, rank, queue, u, edge);
        LowerOnly(dist, visited, neighbor, newDistance);
        dist' := dist[neighbor := newDistance];
        prev' := prev[neighbor := u];
        queue' := queue + [Node(neighbor, newDistance)];
      }
    }
  }

  /** A relaxed edge stays relaxed while distances only fall and settled ones stay put. */
  lemma RelaxedKeep(dist: map<string, nat>, dist': map<string, nat>, visited: set<string>, v: string, e: Edge)
    requires Relaxed(dist, visited, v, e) && v in visited
    requires forall x :: x in dist ==> x in dist' && dist'[x] <= dist[x]
    requires forall x :: x in visited && x in dist ==> dist'[x] == dist[x]
    ensures Relaxed(dist', visited, v, e)
  {
  }

  /**
   * The inner loop of `findShortestPath`: relax every edge leaving the
   * settled city `u`, lowering the tentative distance of unsettled
   * neighbours and queueing the improved entries.
   */
  method Relax(g: Graph, s: string, target: Option<string>, u: string, dist: map<string, nat>, prev: map<string, string>,
               visited: set<string>, ghost rank: map<string, nat>, queue: seq<Node>)
    returns (dist': map<string, nat>, prev': map<string, string>, queue': seq<Node>)
    requires Valid(g) && NonNegativeWeights(g)
    requires u in visited && Some(u) != target
    requires State(g, s, target, dist, prev, visited, rank, queue)
    requires AllRelaxed(g, dist, visited, target, Some(u))
    ensures State(g, s, target, dist', prev', visited, rank, queue')
    ensures AllRelaxed(g, dist', visited, target, None)
  {
    dist', prev', queue' := dist, prev, queue;
    var neighbors := Neighbors(g, u);
    for k := 0 to |neighbors|
      invariant State(g, s, target, dist', prev', visited, rank, queue')
      invariant forall x :: x in dist ==> x in dist' && dist'[x] <= dist[x]
      invariant forall v :: v in visited ==> dist'[v] == dist[v]
      invariant forall j :: 0 <= j < k ==> Relaxed(dist', visited, u, neighbors[j])
    {
      ghost var before := dist';
      dist', prev', queue' := RelaxEdge(g, s, target, u, neighbors[k], dist', prev', visited, rank, queue');
      forall j | 0 <= j < k
        ensures Relaxed(dist', visited, u, neighbors[j])
      {
        RelaxedKeep(before, dist', visited, u, neighbors[j]);
      }
    }
    forall v, e | v in visited && Some(v) != target && e in Neighbors(g, v)
      ensures Relaxed(dist', visited, v, e)
    {
      if v == u {
        var j :| 0 <= j < |neighbors| && neighbors[j] == e;
      } else {
        assert Relaxed(dist, visited, v, e);
        RelaxedKeep(dist, dist', visited, v, e);
      }
    }
  }

  /** The loop starts with only the source known, at distance 0, and queued. */
  lemma Start(g: Graph, s: string, target: Option<string>)
    ensures State(g, s, target, map[s := 0], map[], {}, map[], [Node(s, 0)])
    ensures AllRelaxed(g, map[s := 0], {}, target, None)
  {
    var dist := map[s := 0];
    assert Node(s, dist[s]) in [Node(s, 0)];
  }

  /** Dropping a stale entry of an already settled city keeps the state. */
  lemma Skip(g: Graph, s: string, target: Option<string>, dist: map<string, nat>, prev: map<string, string>,
             visited: set<string>, rank: map<string, nat>, polled: seq<Node>, queue: seq<Node>, u: string)
    requires State(g, s, target, dist, prev, visited, rank, polled) && u in visited
    requires forall nd :: nd in polled && nd.city != u ==> nd in queue
    requires forall nd :: nd in queue ==> nd in polled
    ensures State(g, s, target, dist, prev, visited, rank, queue)
  {
    QueueAfterPoll(dist, visited, polled, queue, u);
    assert visited + {u} == visited;
  }

  lemma Queued(dist: map<string, nat>, visited: set<string>, queue: seq<Node>, x: string)
    requires QueueComplete(dist, visited, queue) && x in dist && x !in visited
    ensures Node(x, dist[x]) in queue
  {
  }

  /**
   * When the loop stops, the settled cities are exactly the ones a walk
   * reaches (without a target), and the target is settled if reachable.
   */
  lemma Finish(g: Graph, s: string, target: Option<string>, dist: map<string, nat>, prev: map<string, string>,
               visited: set<string>, rank: map<string, nat>, queue: seq<Node>)
    requires NonNegativeWeights(g)
    requires State(g, s, target, dist, prev, visited, rank, queue)
    requires AllRelaxed(g, dist, visited, target, None)
    requires queue == [] || (target.Some? && target.value in visited)
    ensures target.None? ==> dist.Keys == visited
    ensures target.Some? && target.value in dist ==> target.value in visited
    ensures forall t :: Reachable(g, s, t) && (target.None? || target == Some(t)) ==> t in visited
  {
    if queue == [] {
      forall x | x in dist
        ensures x in visited
      {
        if x !in visited {
          Queued(dist, visited, queue, x);
        }
      }
    }
    forall t | Reachable(g, s, t) && (target.None? || target == Some(t)) && t !in visited
      ensures false
    {
      var w :| WalkTo(g, s, t, w);
      Frontier(g, s, dist, visited, target, w);
    }
  }

  /**
   * The main loop shared by `findShortestPath` (with a target: stop as soon as
   * it is settled) and `findShortestDistances` (no target: run until the
   * queue is empty). Returns the finite tentative distances, the predecessor
   * links and the settled cities.
   */
  method Settle(g: Graph, s: string, target: Option<string>)
    returns (dist: map<string, nat>, prev: map<string, string>, visited: set<string>, ghost rank: map<string, nat>)
    requires Valid(g) && NonNegativeWeights(g)
    ensures Chain(g, s, dist, prev, rank)
    ensures rank.Keys == visited
    ensures dist.Keys <= g.cities + {s}
    ensures SettledShortest(g, s, dist, visited)
    ensures target.None? ==> dist.Keys == visited
    ensures target.Some? && target.value in dist ==> target.value in visited
    ensures forall t :: Reachable(g, s, t) && (target.None? || target == Some(t)) ==> t in visited
  {
    dist := map[s := 0];
    prev := map[];
    visited := {};
    rank := map[];
    var queue := [Node(s, 0)];
    var done := false;
    Start(g, s, target);
    while queue != [] && !done
      invariant State(g, s, target, dist, prev, visited, rank, queue)
      invariant AllRelaxed(g, dist, visited, target, None)
      invariant done <==> target.Some? && target.value in visited
      decreases |(g.cities + {s}) - visited|, |queue|
    {
      var i := ExtractMin(queue);
      var current := queue[i];
      ghost var polled := queue;
      queue := RemoveAt(queue, i);
      var u := current.city;
      if u in visited {
        Skip(g, s, target, dist, prev, visited, rank, polled, queue, u);
        continue;
      }
      PolledIsShortest(g, s, dist, visited, target, polled, i);
      SettleOne(g, s, target, dist, prev, visited, rank, polled, queue, u);
      RemoveOne(g.cities + {s}, visited, u);
      visited := visited + {u};
      rank := rank[u := |rank.Keys|];
      if Some(u) == target {
        done := true;
      } else {
        dist, prev, queue := Relax(g, s, target, u, dist, prev, visited, rank, queue);
      }
    }
    Finish(g, s, target, dist, prev, visited, rank, queue);
  }

  /**
   * `reconstructPath`: walk the predecessor links back from `t`. The source
   * appends to a list and reverses it; prepending builds the reversed list
   * directly, and the test on its first city is the source's test on the
   * last city of the unreversed list.
   */
  method ReconstructPath(prev: map<string, string>, s: string, t: string,
                         ghost g: Graph, ghost dist: map<string, nat>, ghost rank: map<string, nat>)
    returns (path: Option<seq<string>>, ghost w: seq<Edge>)
    requires Chain(g, s, dist, prev, rank)
    ensures t in dist ==> path.Some? && WalkTo(g, s, t, w) && Route(s, w) == path.value && Weight(w) == dist[t]
    ensures t !in dist && t != s ==> path.None?
  {
    var current := t;
    var reversed := [t];
    w := [];
    while current in prev
      invariant reversed == Route(current, w)
      invariant t !in dist ==> current == t
      invariant t in dist ==> current in dist && WalkTo(g, current, t, w) && dist[current] + Weight(w) == dist[t]
      decreases if current in rank then rank[current] else |rank.Keys|
    {
      assert Link(g, dist, prev, rank, current);
      var p := prev[current];
      ghost var e := Edge(current, dist[current] - dist[p]);
      WalkPrepend(g, p, e, w);
      w := [e] + w;
      reversed := [p] + reversed;
      current := p;
    }
    if current == s {
      path := Some(reversed);
    } else {
      path := None;
    }
  }

  /** A settled city's distance is the shortest distance. */
  lemma SettledIsShortest(g: Graph, s: string, dist: map<string, nat>, prev: map<string, string>,
                          rank: map<string, nat>, v: string)
    requires NonNegativeWeights(g) && Chain(g, s, dist, prev, rank)
    requires v in dist && LowerBound(g, s, v, dist[v])
    ensures MinWalkWeight(g, s, v) == Some(dist[v])
  {
    var w := ChainWalk(g, s, dist, prev, rank, v);
    assert IsMinWeight(g, s, v, dist[v]);
    MinWalkWeightIs(g, s, v, dist[v]);
  }

  /**
   * `findShortestPath`: not found when either city is unknown; the
   * one-city path at distance 0 from a city to itself; otherwise a shortest
   * route when one exists, and not found when none does.
   */
  method FindShortestPath(g: Graph, startCity: string, endCity: string) returns (r: PathResult)
    requires Valid(g) && NonNegativeWeights(g)
    ensures !HasCity(g, startCity) || !HasCity(g, endCity) ==> r == NotFound
    ensures HasCity(g, startCity) && startCity == endCity ==> r == PathResult(Some([startCity]), 0)
    ensures IsShortestResult(g, startCity, endCity, r)
    ensures r.IsPathFound() ==>
      && r.path.value[0] == startCity
      && r.path.value[|r.path.value| - 1] == endCity
      && forall i :: 0 <= i < |r.path.value| - 1 ==> AreDirectlyConnected(g, r.path.value[i], r.path.value[i + 1])
  {
    if !HasCity(g, startCity) || !HasCity(g, endCity) {
      return NotFound;
    }
    if startCity == endCity {
      SelfDistance(g, startCity);
      assert WalkTo(g, startCity, startCity, []) && Route(startCity, []) == [startCity] && Weight([]) == 0;
      return PathResult(Some([startCity]), 0);
    }
    var dist, prev, visited, rank := Settle(g, startCity, Some(endCity));
    var path, w := ReconstructPath(prev, startCity, endCity, g, dist, rank);
    if path.Some? && endCity in dist {
      SettledIsShortest(g, startCity, dist, prev, rank, endCity);
      RouteIsConnected(g, startCity, w);
      r := PathResult(path, dist[endCity]);
    } else {
      r := NotFound;
    }
  }

  /**
   * `findShortestDistances`: every city of the network and the source itself
   * map to their shortest distance from the source, or to `Unreachable`.
   */
  method FindShortestDistances(g: Graph, sourceCity: string) returns (table: map<string, Distance>)
    requires Valid(g) && NonNegativeWeights(g)
    ensures table.Keys == g.cities + {sourceCity}
    ensures forall c :: c in table ==> table[c] == AsDistance(MinWalkWeight(g, sourceCity, c))
  {
    var dist, prev, visited, rank := Settle(g, sourceCity, None);
    table := map c | c in g.cities + {sourceCity} :: if c in dist then Finite(dist[c]) else Unreachable;
    forall c | c in table
      ensures table[c] == AsDistance(MinWalkWeight(g, sourceCity, c))
    {
      if c in dist {
        SettledIsShortest(g, sourceCity, dist, prev, rank, c);
      } else {
        assert !Reachable(g, sourceCity, c);
      }
    }
  }

  /** The distance of each target as the table of `findShortestDistances` records it. */
  ghost function TargetDistances(g: Graph, sourceCity: string, targets: seq<string>): (ks: seq<Option<nat>>)
    requires NonNegativeWeights(g)
    ensures |ks| == |targets|
  {
    seq(|targets|, i requires 0 <= i < |targets| =>
      if targets[i] in g.cities + {sourceCity} then MinWalkWeight(g, sourceCity, targets[i]) else None)
  }

  /**
   * `findNearestCity`: the first target, in list order, with the strictly
   * smallest finite distance; the result is the shortest path to it, or not
   * found when no target is reachable.
   */
  method FindNearestCity(g: Graph, sourceCity: string, targetCities: seq<string>) returns (r: PathResult)
    requires Valid(g) && NonNegativeWeights(g)
    ensures ArgMin.AllAbsent(TargetDistances(g, sourceCity, targetCities)) ==> r == NotFound
    ensures forall i: nat :: ArgMin.IsFirstMin(TargetDistances(g, sourceCity, targetCities), i) ==>
              IsShortestResult(g, sourceCity, targetCities[i], r)
  {
    var distances := FindShortestDistances(g, sourceCity);
    var ks := seq(|targetCities|, i requires 0 <= i < |targetCities| =>
      if targetCities[i] in distances && distances[targetCities[i]].Finite? then Some(distances[targetCities[i]].km) else None);
    assert ks == TargetDistances(g, sourceCity, targetCities);
    var nearest := ArgMin.FirstMinIndex(ks);
    if nearest.None? {
      r := NotFound;
    } else {
      r := FindShortestPath(g, sourceCity, targetCities[nearest.value]);
      forall i: nat | ArgMin.IsFirstMin(ks, i)
        ensures i == nearest.value
      {
        ArgMin.FirstMinUnique(ks, i, nearest.value);
      }
    }
  }
}
