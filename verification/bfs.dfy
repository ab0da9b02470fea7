/**
 * `bfsMinimumHops` of the order processor (src/dao/OrderProcessor.java):
 * breadth-first search for the least number of roads between two cities,
 * the measure of the fast-delivery mode. The search stops the moment the
 * destination shows up as a neighbour of the city being expanded.
 */
module Bfs {
  import opened Wrappers
  import opened CityGraph
  import opened Walks

  /** Every labelled city's label is its least number of hops from `s`. */
  ghost predicate HopsExact(g: Graph, s: string, hop: map<string, nat>) {
    forall v {:trigger IsMinHops(g, s, v, hop[v])} :: v in hop ==> IsMinHops(g, s, v, hop[v])
  }

  /** The frontier's labels never decrease and span at most one level. */
  ghost predicate Layered(frontier: seq<string>, hop: map<string, nat>) {
    && (forall i :: 0 <= i < |frontier| ==> frontier[i] in hop)
    && (forall i, j :: 0 <= i <= j < |frontier| ==> hop[frontier[i]] <= hop[frontier[j]])
    && (forall i :: 0 <= i < |frontier| ==> hop[frontier[i]] <= hop[frontier[0]] + 1)
  }

  /** Every labelled city off the frontier has all its neighbours labelled. */
  ghost predicate Expanded(g: Graph, hop: map<string, nat>, frontier: seq<string>) {
    forall y, e :: y in hop && y !in frontier && e in Neighbors(g, y) ==> e.destination in hop
  }

  /** The state of the search, with `frontier` the cities still to expand. */
  ghost predicate Searching(g: Graph, s: string, t: string, visited: set<string>, hop: map<string, nat>, frontier: seq<string>) {
    && visited == hop.Keys
    && s in visited
    && visited <= g.cities + {s}
    && t !in visited
    && HopsExact(g, s, hop)
    && Layered(frontier, hop)
    && Expanded(g, hop, frontier)
  }

  /**
   * A walk from `s` to an unlabelled city leaves the labelled region through
   * a frontier city, at least one edge before its end.
   */
  lemma {:induction false} Frontier(g: Graph, s: string, hop: map<string, nat>, frontier: seq<string>, w: seq<Edge>)
    requires s in hop && HopsExact(g, s, hop) && Expanded(g, hop, frontier)
    requires forall i :: 0 <= i < |frontier| ==> frontier[i] in hop
    requires IsWalk(g, s, w) && End(s, w) !in hop
    ensures exists i :: 0 <= i < |frontier| && hop[frontier[i]] + 1 <= |w|
    decreases |w|
  {
    if |w| == 0 {
      assert false;
    } else {
      var n := |w| - 1;
      var w' := w[..n];
      WalkPrefix(g, s, w, n);
      var y := End(s, w');
      var e := w[n];
      assert e in Neighbors(g, y) by {
        assert At(s, w, n) == y;
      }
      if y !in hop {
        Frontier(g, s, hop, frontier, w');
      } else {
        assert e.destination == End(s, w);
        assert y in frontier;
        var i :| 0 <= i < |frontier| && frontier[i] == y;
        assert IsMinHops(g, s, y, hop[y]);
        assert WalkTo(g, s, y, w');
      }
    }
  }

  /**
   * An unlabelled neighbour of the frontier's first city, whose label is `c`,
   * is exactly `c + 1` hops away.
   */
  lemma Discover(g: Graph, s: string, t: string, visited: set<string>, hop: map<string, nat>,
                 frontier: seq<string>, e: Edge)
    requires Searching(g, s, t, visited, hop, frontier)
    requires |frontier| > 0 && e in Neighbors(g, frontier[0]) && e.destination !in hop
    ensures IsMinHops(g, s, e.destination, hop[frontier[0]] + 1)
  {
    var current := frontier[0];
    var c := hop[current];
    assert IsMinHops(g, s, current, c);
    var w :| WalkTo(g, s, current, w) && |w| == c;
    WalkAppend(g, s, w, e);
    assert WalkTo(g, s, e.destination, w + [e]);
    forall w' | WalkTo(g, s, e.destination, w')
      ensures c + 1 <= |w'|
    {
      Frontier(g, s, hop, frontier, w');
      var i :| 0 <= i < |frontier| && hop[frontier[i]] + 1 <= |w'|;
      assert hop[frontier[0]] <= hop[frontier[i]];
    }
  }

  lemma HopsExtend(g: Graph, s: string, hop: map<string, nat>, n: string, k: nat)
    requires HopsExact(g, s, hop) && IsMinHops(g, s, n, k)
    ensures HopsExact(g, s, hop[n := k])
  {
    var hop' := hop[n := k];
    forall v | v in hop'
      ensures IsMinHops(g, s, v, hop'[v])
    {
      if v != n {
        assert hop'[v] == hop[v];
      }
    }
  }

  lemma LayeredExtend(f: seq<string>, hop: map<string, nat>, n: string)
    requires Layered(f, hop) && |f| > 0 && n !in hop
    ensures Layered(f + [n], hop[n := hop[f[0]] + 1])
  {
    var hop' := hop[n := hop[f[0]] + 1];
    var f' := f + [n];
    forall i | 0 <= i < |f'|
      ensures f'[i] in hop' && f'[0] in hop' && hop'[f'[i]] <= hop'[f'[0]] + 1
    {
      assert f'[0] == f[0] && f[0] in hop;
      if i < |f| {
        assert f'[i] == f[i] && f[i] in hop;
      }
    }
    forall i, j | 0 <= i <= j < |f'|
      ensures f'[i] in hop' && f'[j] in hop' && hop'[f'[i]] <= hop'[f'[j]]
    {
      assert f[0] in hop;
      if j < |f| {
        assert f'[i] == f[i] && f'[j] == f[j] && f[i] in hop && f[j] in hop;
      } else if i < |f| {
        assert f'[i] == f[i] && f[i] in hop;
        assert hop[f[i]] <= hop[f[0]] + 1;
      }
    }
  }

  lemma ExpandedExtend(g: Graph, hop: map<string, nat>, f: seq<string>, n: string, k: nat)
    requires Expanded(g, hop, f)
    ensures Expanded(g, hop[n := k], f + [n])
  {
    forall y, e | y in hop[n := k] && y !in f + [n] && e in Neighbors(g, y)
      ensures e.destination in hop[n := k]
    {
      assert y in hop && y !in f;
    }
  }

  /** Labelling a newly discovered neighbour and queueing it keeps the search state. */
  lemma Label(g: Graph, s: string, t: string, visited: set<string>, hop: map<string, nat>,
              current: string, queue: seq<string>, e: Edge)
    requires Valid(g)
    requires Searching(g, s, t, visited, hop, [current] + queue)
    requires e in Neighbors(g, current) && e.destination !in visited && e.destination != t
    ensures Searching(g, s, t, visited + {e.destination}, hop[e.destination := hop[current] + 1],
                      [current] + (queue + [e.destination]))
  {
    var n := e.destination;
    var f := [current] + queue;
    Discover(g, s, t, visited, hop, f, e);
    assert current in g.adjacency;
    assert n in g.cities;
    HopsExtend(g, s, hop, n, hop[current] + 1);
    LayeredExtend(f, hop, n);
    ExpandedExtend(g, hop, f, n, hop[current] + 1);
    assert [current] + (queue + [n]) == f + [n];
  }

  lemma LayeredTail(f: seq<string>, hop: map<string, nat>)
    requires Layered(f, hop) && |f| > 0
    ensures Layered(f[1..], hop)
  {
    var q := f[1..];
    forall i | 0 <= i < |q|
      ensures q[i] in hop && q[0] in hop && hop[q[i]] <= hop[q[0]] + 1
    {
      assert q[i] == f[i + 1] && q[0] == f[1];
      assert hop[f[0]] <= hop[f[1]];
    }
    forall i, j | 0 <= i <= j < |q|
      ensures q[i] in hop && q[j] in hop && hop[q[i]] <= hop[q[j]]
    {
      assert q[i] == f[i + 1] && q[j] == f[j + 1];
    }
  }

  lemma ExpandedDrop(g: Graph, hop: map<string, nat>, current: string, queue: seq<string>)
    requires Expanded(g, hop, [current] + queue)
    requires forall e :: e in Neighbors(g, current) ==> e.destination in hop
    ensures Expanded(g, hop, queue)
  {
    forall y, e | y in hop && y !in queue && e in Neighbors(g, y)
      ensures e.destination in hop
    {
      if y != current {
        assert y !in [current] + queue;
      }
    }
  }

  /** Once every neighbour of the first frontier city is labelled, it leaves the frontier. */
  lemma Advance(g: Graph, s: string, t: string, visited: set<string>, hop: map<string, nat>,
                current: string, queue: seq<string>)
    requires Searching(g, s, t, visited, hop, [current] + queue)
    requires forall e :: e in Neighbors(g, current) ==> e.destination in visited
    ensures Searching(g, s, t, visited, hop, queue)
  {
    LayeredTail([current] + queue, hop);
    assert ([current] + queue)[1..] == queue;
    ExpandedDrop(g, hop, current, queue);
  }

  /** Labelling more of the network leaves fewer unlabelled cities. */
  lemma Fewer(a: set<string>, b: set<string>, b': set<string>)
    requires b <= b' <= a && b != b'
    ensures |a - b'| < |a - b|
  {
    var x :| x in b' && x !in b;
    assert (a - b') * (b' - b) == {};
    assert a - b == (a - b') + (b' - b);
    assert x in b' - b;
  }

  lemma SelfHops(g: Graph, s: string)
    ensures MinHops(g, s, s) == Some(0)
  {
    assert WalkTo(g, s, s, []);
    assert IsMinHops(g, s, s, 0);
    MinHopsIs(g, s, s, 0);
  }

  /** The search starts with the start city labelled 0 and queued. */
  lemma Start(g: Graph, s: string, t: string)
    requires s != t
    ensures Searching(g, s, t, {s}, map[s := 0], [s])
  {
    assert WalkTo(g, s, s, []);
    assert IsMinHops(g, s, s, 0);
  }

  /** With nothing left to expand and the destination never seen, no walk leads there. */
  lemma Exhausted(g: Graph, s: string, t: string, visited: set<string>, hop: map<string, nat>)
    requires Searching(g, s, t, visited, hop, [])
    ensures MinHops(g, s, t).None?
  {
    if Reachable(g, s, t) {
      var w :| WalkTo(g, s, t, w);
      Frontier(g, s, hop, [], w);
      assert false;
    }
  }

  /**
   * The look at one neighbour `e.destination` of the city `current` being
   * expanded: report the destination, or label and queue a city not seen
   * before.
   */
  method Visit(g: Graph, s: string, t: string, visited: set<string>, hopCount: map<string, nat>,
               current: string, queue: seq<string>, e: Edge)
    returns (found: Option<nat>, visited': set<string>, hopCount': map<string, nat>, queue': seq<string>)
    requires Valid(g) && Searching(g, s, t, visited, hopCount, [current] + queue)
    requires current in hopCount && e in Neighbors(g, current)
    ensures found.Some? ==> found.value == hopCount[current] + 1 && MinHops(g, s, t) == found
    ensures found.None? ==> Searching(g, s, t, visited', hopCount', [current] + queue')
    ensures found.None? ==> e.destination in visited' && visited <= visited'
    ensures found.None? ==> current in hopCount' && hopCount'[current] == hopCount[current]
    ensures found.None? && visited' == visited ==> |queue'| == |queue|
  {
    visited', hopCount', queue' := visited, hopCount, queue;
    var neighbor := e.destination;
    if neighbor == t {
      ReachTarget(g, s, t, visited, hopCount, current, queue, e);
      return Some(hopCount[current] + 1), visited', hopCount', queue';
    }
    found := None;
    if neighbor !in visited {
      assert neighbor != current;
      Label(g, s, t, visited, hopCount, current, queue, e);
      visited' := visited + {neighbor};
      hopCount' := hopCount[neighbor := hopCount[current] + 1];
      queue' := queue + [neighbor];
    }
  }

  /** A neighbour of the city being expanded that is the target: one hop more is the minimum. */
  lemma ReachTarget(g: Graph, s: string, t: string, visited: set<string>, hopCount: map<string, nat>,
                    current: string, queue: seq<string>, e: Edge)
    requires Valid(g) && Searching(g, s, t, visited, hopCount, [current] + queue)
    requires current in hopCount && e in Neighbors(g, current) && e.destination == t
    ensures MinHops(g, s, t) == Some(hopCount[current] + 1)
  {
    Discover(g, s, t, visited, hopCount, [current] + queue, e);
    MinHopsIs(g, s, t, hopCount[current] + 1);
  }

  lemma SeenGrows(es: seq<Edge>, k: nat, seen: set<string>, seen': set<string>)
    requires k < |es| && seen <= seen' && es[k].destination in seen'
    requires forall j :: 0 <= j < k ==> es[j].destination in seen
    ensures forall j :: 0 <= j < k + 1 ==> es[j].destination in seen'
  {
  }

  lemma AllSeen(es: seq<Edge>, seen: set<string>)
    requires forall j :: 0 <= j < |es| ==> es[j].destination in seen
    ensures forall e :: e in es ==> e.destination in seen
  {
  }

  /**
   * The body of the outer loop once `current` has been polled: look at each
   * of its neighbours in turn.
   */
  method Expand(g: Graph, s: string, t: string, visited: set<string>, hopCount: map<string, nat>,
                current: string, queue: seq<string>)
    returns (found: Option<nat>, visited': set<string>, hopCount': map<string, nat>, queue': seq<string>)
    requires Valid(g) && Searching(g, s, t, visited, hopCount, [current] + queue) && current in hopCount
    ensures found.Some? ==> MinHops(g, s, t) == Some(found.value)
    ensures found.None? ==> Searching(g, s, t, visited', hopCount', queue')
    ensures found.None? ==> visited <= visited'
    ensures found.None? && visited' == visited ==> |queue'| == |queue|
  {
    visited', hopCount', queue' := visited, hopCount, queue;
    var neighbors := Neighbors(g, current);
    for k := 0 to |neighbors|
      invariant Searching(g, s, t, visited', hopCount', [current] + queue') && current in hopCount'
      invariant visited <= visited'
      invariant visited' == visited ==> |queue'| == |queue|
      invariant forall j :: 0 <= j < k ==> neighbors[j].destination in visited'
    {
      ghost var before := visited';
      found, visited', hopCount', queue' := Visit(g, s, t, visited', hopCount', current, queue', neighbors[k]);
      if found.Some? {
        return;
      }
      SeenGrows(neighbors, k, before, visited');
    }
    AllSeen(neighbors, visited');
    Advance(g, s, t, visited', hopCount', current, queue');
    found := None;
  }

  /**
   * `bfsMinimumHops`: 0 from a city to itself, -1 when no sequence of roads
   * leads from `startCity` to `endCity`, and otherwise the least number of
   * roads on such a sequence.
   */
  method BfsMinimumHops(g: Graph, startCity: string, endCity: string) returns (hops: int)
    requires Valid(g)
    ensures hops >= -1
    ensures hops == -1 <==> MinHops(g, startCity, endCity).None?
    ensures hops >= 0 ==> MinHops(g, startCity, endCity) == Some(hops)
  {
    if startCity == endCity {
      SelfHops(g, startCity);
      return 0;
    }
    var queue := [startCity];
    var hopCount := map[startCity := 0];
    var visited := {startCity};
    Start(g, startCity, endCity);
    while queue != []
      invariant Searching(g, startCity, endCity, visited, hopCount, queue)
      decreases |(g.cities + {startCity}) - visited|, |queue|
    {
      var current := queue[0];
      ghost var polled := queue;
      queue := queue[1..];
      assert polled == [current] + queue;
      var found, visited', hopCount', queue' := Expand(g, startCity, endCity, visited, hopCount, current, queue);
      if found.Some? {
        return found.value;
      }
      if visited' != visited {
        Fewer(g.cities + {startCity}, visited, visited');
      }
      visited, hopCount, queue := visited', hopCount', queue';
    }
    Exhausted(g, startCity, endCity, visited, hopCount);
    return -1;
  }
}
