/**
 * Walks through the delivery network and the two measures the engine
 * optimises over them: total length in km (Dijkstra) and number of edges
 * (breadth-first search). These are the reference definitions the
 * algorithms are proved against.
 */
module Walks {
  import opened Wrappers
  import opened CityGraph

  /** The city a walk from `s` stands at before taking edge number `i`; `At(s, w, |w|)` is its end. */
  function At(s: string, w: seq<Edge>, i: nat): string
    requires i <= |w|
  {
    if i == 0 then s else w[i - 1].destination
  }

  function End(s: string, w: seq<Edge>): string {
    At(s, w, |w|)
  }

  /** Every edge of `w` is an adjacency entry of the city the walk stands at. */
  ghost predicate IsWalk(g: Graph, s: string, w: seq<Edge>) {
    forall i {:trigger At(s, w, i)} :: 0 <= i < |w| ==> w[i] in Neighbors(g, At(s, w, i))
  }

  ghost predicate WalkTo(g: Graph, s: string, t: string, w: seq<Edge>) {
    IsWalk(g, s, w) && End(s, w) == t
  }

  /** Total length of a walk in km. */
  function Weight(w: seq<Edge>): int
    decreases |w|
  {
    if |w| == 0 then 0 else Weight(w[..|w| - 1]) + w[|w| - 1].weight
  }

  /** The cities a walk passes through, its start included: the path the engine reports. */
  function Route(s: string, w: seq<Edge>): (p: seq<string>)
    ensures |p| == |w| + 1
    ensures forall i :: 0 <= i <= |w| ==> p[i] == At(s, w, i)
  {
    seq(|w| + 1, i requires 0 <= i <= |w| => At(s, w, i))
  }

  ghost predicate Reachable(g: Graph, s: string, t: string) {
    exists w :: WalkTo(g, s, t, w)
  }

  /** `k` is the least total length of a walk from `s` to `t`. */
  ghost predicate IsMinWeight(g: Graph, s: string, t: string, k: nat) {
    && (exists w :: WalkTo(g, s, t, w) && Weight(w) == k)
    && forall w :: WalkTo(g, s, t, w) ==> k <= Weight(w)
  }

  /** `n` is the least number of edges of a walk from `s` to `t`. */
  ghost predicate IsMinHops(g: Graph, s: string, t: string, n: nat) {
    && (exists w :: WalkTo(g, s, t, w) && |w| == n)
    && forall w :: WalkTo(g, s, t, w) ==> n <= |w|
  }

  /** A non-empty set of naturals, given by a predicate, has a least element. */
  lemma {:induction false} LeastExists(P: nat -> bool, n: nat)
    requires P(n)
    ensures exists k: nat :: P(k) && forall j: nat :: P(j) ==> k <= j
    decreases n
  {
    if exists j: nat :: j < n && P(j) {
      var j: nat :| j < n && P(j);
      LeastExists(P, j);
    } else {
      assert forall j: nat :: P(j) ==> n <= j;
    }
  }

  lemma WalkPrefix(g: Graph, s: string, w: seq<Edge>, n: nat)
    requires IsWalk(g, s, w) && n <= |w|
    ensures IsWalk(g, s, w[..n]) && End(s, w[..n]) == At(s, w, n)
  {
    forall i | 0 <= i < n
      ensures w[..n][i] in Neighbors(g, At(s, w[..n], i))
    {
      assert At(s, w[..n], i) == At(s, w, i);
    }
  }

  /** On a graph without negative edges every walk has non-negative length. */
  lemma {:induction false} WeightNonNegative(g: Graph, s: string, w: seq<Edge>)
    requires NonNegativeWeights(g) && IsWalk(g, s, w)
    ensures Weight(w) >= 0
    decreases |w|
  {
    if |w| > 0 {
      var last := |w| - 1;
      WalkPrefix(g, s, w, last);
      WeightNonNegative(g, s, w[..last]);
      assert w[last] in Neighbors(g, At(s, w, last));
      assert At(s, w, last) in g.adjacency;
    }
  }

  lemma {:induction false} WeightConcat(a: seq<Edge>, b: seq<Edge>)
    ensures Weight(a + b) == Weight(a) + Weight(b)
    decreases |b|
  {
    if |b| == 0 {
      assert a + b == a;
    } else {
      var b' := b[..|b| - 1];
      WeightConcat(a, b');
      assert (a + b)[..|a + b| - 1] == a + b';
    }
  }

  /** Two walks that meet can be joined; lengths and edge counts add up. */
  lemma WalkConcat(g: Graph, s: string, w1: seq<Edge>, w2: seq<Edge>)
    requires IsWalk(g, s, w1) && IsWalk(g, End(s, w1), w2)
    ensures IsWalk(g, s, w1 + w2)
    ensures End(s, w1 + w2) == End(End(s, w1), w2)
    ensures Weight(w1 + w2) == Weight(w1) + Weight(w2)
  {
    var w := w1 + w2;
    var m := End(s, w1);
    forall i | 0 <= i < |w|
      ensures w[i] in Neighbors(g, At(s, w, i))
    {
      if i < |w1| {
        assert At(s, w, i) == At(s, w1, i);
      } else {
        assert At(s, w, i) == At(m, w2, i - |w1|);
      }
    }
    if |w2| > 0 {
      assert End(s, w) == w2[|w2| - 1].destination;
    } else {
      assert w == w1;
    }
    WeightConcat(w1, w2);
  }

  lemma WeightSingle(e: Edge)
    ensures Weight([e]) == e.weight
  {
    assert [e][..0] == [];
  }

  /** Prefixing an adjacency entry of `a` extends a walk backwards. */
  lemma WalkPrepend(g: Graph, a: string, e: Edge, w: seq<Edge>)
    requires e in Neighbors(g, a) && IsWalk(g, e.destination, w)
    ensures IsWalk(g, a, [e] + w)
    ensures End(a, [e] + w) == End(e.destination, w)
    ensures Weight([e] + w) == e.weight + Weight(w)
    ensures Route(a, [e] + w) == [a] + Route(e.destination, w)
  {
    assert IsWalk(g, a, [e]);
    WeightSingle(e);
    WalkConcat(g, a, [e], w);
    var p := Route(a, [e] + w);
    var q := [a] + Route(e.destination, w);
    forall i | 0 <= i < |p|
      ensures p[i] == q[i]
    {
      if i > 0 {
        assert At(a, [e] + w, i) == At(e.destination, w, i - 1);
      }
    }
  }

  /** Appending an adjacency entry of the end city extends a walk forwards. */
  lemma WalkAppend(g: Graph, s: string, w: seq<Edge>, e: Edge)
    requires IsWalk(g, s, w) && e in Neighbors(g, End(s, w))
    ensures IsWalk(g, s, w + [e])
    ensures End(s, w + [e]) == e.destination
    ensures Weight(w + [e]) == Weight(w) + e.weight
  {
    assert IsWalk(g, End(s, w), [e]);
    WeightSingle(e);
    WalkConcat(g, s, w, [e]);
  }

  /** Consecutive cities on the route of a walk are directly connected. */
  lemma RouteIsConnected(g: Graph, s: string, w: seq<Edge>)
    requires NonNegativeWeights(g) && IsWalk(g, s, w)
    ensures forall i :: 0 <= i < |Route(s, w)| - 1 ==> AreDirectlyConnected(g, Route(s, w)[i], Route(s, w)[i + 1])
  {
    var p := Route(s, w);
    forall i | 0 <= i < |p| - 1
      ensures AreDirectlyConnected(g, p[i], p[i + 1])
    {
      assert w[i] in Neighbors(g, p[i]) && w[i].destination == p[i + 1];
      DirectlyConnectedIffEdge(g, p[i], p[i + 1]);
    }
  }

  lemma MinWeightExists(g: Graph, s: string, t: string)
    requires NonNegativeWeights(g) && Reachable(g, s, t)
    ensures exists k :: IsMinWeight(g, s, t, k)
  {
    var w :| WalkTo(g, s, t, w);
    WeightNonNegative(g, s, w);
    var P := (k: nat) => exists w' :: WalkTo(g, s, t, w') && Weight(w') == k;
    assert P(Weight(w));
    LeastExists(P, Weight(w));
    var k: nat :| P(k) && forall j: nat :: P(j) ==> k <= j;
    forall w' | WalkTo(g, s, t, w')
      ensures k <= Weight(w')
    {
      WeightNonNegative(g, s, w');
      assert P(Weight(w'));
    }
    assert IsMinWeight(g, s, t, k);
  }

  /** The shortest distance in km from `s` to `t`, or None when no walk leads there. */
  ghost function MinWalkWeight(g: Graph, s: string, t: string): (r: Option<nat>)
    requires NonNegativeWeights(g)
    ensures r.Some? <==> Reachable(g, s, t)
    ensures r.Some? ==> IsMinWeight(g, s, t, r.value)
  {
    if Reachable(g, s, t) then
      MinWeightExists(g, s, t);
      var k :| IsMinWeight(g, s, t, k);
      Some(k)
    else None
  }

  /** The least length is unique, so it determines `MinWalkWeight`. */
  lemma MinWalkWeightIs(g: Graph, s: string, t: string, k: nat)
    requires NonNegativeWeights(g) && IsMinWeight(g, s, t, k)
    ensures MinWalkWeight(g, s, t) == Some(k)
  {
    var r := MinWalkWeight(g, s, t).value;
    var w1 :| WalkTo(g, s, t, w1) && Weight(w1) == k;
    var w2 :| WalkTo(g, s, t, w2) && Weight(w2) == r;
    assert r <= Weight(w1) && k <= Weight(w2);
  }

  lemma MinHopsExists(g: Graph, s: string, t: string)
    requires Reachable(g, s, t)
    ensures exists n :: IsMinHops(g, s, t, n)
  {
    var w :| WalkTo(g, s, t, w);
    var P := (n: nat) => exists w' :: WalkTo(g, s, t, w') && |w'| == n;
    assert P(|w|);
    LeastExists(P, |w|);
    var n: nat :| P(n) && forall j: nat :: P(j) ==> n <= j;
    forall w' | WalkTo(g, s, t, w')
      ensures n <= |w'|
    {
      assert P(|w'|);
    }
    assert IsMinHops(g, s, t, n);
  }

  /** The least number of edges from `s` to `t`, or None when no walk leads there. */
  ghost function MinHops(g: Graph, s: string, t: string): (r: Option<nat>)
    ensures r.Some? <==> Reachable(g, s, t)
    ensures r.Some? ==> IsMinHops(g, s, t, r.value)
  {
    if Reachable(g, s, t) then
      MinHopsExists(g, s, t);
      var n :| IsMinHops(g, s, t, n);
      Some(n)
    else None
  }

  lemma MinHopsIs(g: Graph, s: string, t: string, n: nat)
    requires IsMinHops(g, s, t, n)
    ensures MinHops(g, s, t) == Some(n)
  {
    var r := MinHops(g, s, t).value;
    var w1 :| WalkTo(g, s, t, w1) && |w1| == n;
    var w2 :| WalkTo(g, s, t, w2) && |w2| == r;
    assert r <= |w1| && n <= |w2|;
  }

  /** Every city reaches itself at distance 0 and in 0 hops, known to the graph or not. */
  lemma SelfDistance(g: Graph, s: string)
    requires NonNegativeWeights(g)
    ensures MinWalkWeight(g, s, s) == Some(0)
    ensures MinHops(g, s, s) == Some(0)
  {
    assert WalkTo(g, s, s, []);
    forall w | WalkTo(g, s, s, w)
      ensures 0 <= Weight(w)
    {
      WeightNonNegative(g, s, w);
    }
    assert IsMinWeight(g, s, s, 0);
    MinWalkWeightIs(g, s, s, 0);
    assert IsMinHops(g, s, s, 0);
    MinHopsIs(g, s, s, 0);
  }

  /**
   * Triangle inequality: going from `a` to `c` never costs more than going
   * through `b`.
   */
  lemma Triangle(g: Graph, a: string, b: string, c: string)
    requires NonNegativeWeights(g)
    requires MinWalkWeight(g, a, b).Some? && MinWalkWeight(g, b, c).Some?
    ensures MinWalkWeight(g, a, c).Some?
    ensures MinWalkWeight(g, a, c).value <= MinWalkWeight(g, a, b).value + MinWalkWeight(g, b, c).value
  {
    var w1 :| WalkTo(g, a, b, w1) && Weight(w1) == MinWalkWeight(g, a, b).value;
    var w2 :| WalkTo(g, b, c, w2) && Weight(w2) == MinWalkWeight(g, b, c).value;
    WalkConcat(g, a, w1, w2);
    assert WalkTo(g, a, c, w1 + w2);
  }

  /** Every edge has a partner of the same length in the opposite direction. */
  ghost predicate Symmetric(g: Graph) {
    forall c, e :: c in g.adjacency && e in g.adjacency[c] ==> Edge(c, e.weight) in Neighbors(g, e.destination)
  }

  /** Adding a road keeps every existing adjacency entry. */
  lemma AddRouteKeeps(g: Graph, city1: string, city2: string, distance: int, c: string, e: Edge)
    requires e in Neighbors(g, c)
    ensures e in Neighbors(AddRoute(g, city1, city2, distance), c)
  {
  }

  /** An adjacency entry after adding a road is an old one or one of the two new ones. */
  lemma AddRouteEntries(g: Graph, city1: string, city2: string, distance: int, c: string, e: Edge)
    requires e in Neighbors(AddRoute(g, city1, city2, distance), c)
    ensures e in Neighbors(g, c) || (c == city1 && e == Edge(city2, distance)) || (c == city2 && e == Edge(city1, distance))
  {
  }

  lemma AddRouteSymmetric(g: Graph, city1: string, city2: string, distance: int)
    requires Symmetric(g)
    ensures Symmetric(AddRoute(g, city1, city2, distance))
  {
    var r := AddRoute(g, city1, city2, distance);
    forall c, e | c in r.adjacency && e in r.adjacency[c]
      ensures Edge(c, e.weight) in Neighbors(r, e.destination)
    {
      assert e in Neighbors(r, c);
      AddRouteEntries(g, city1, city2, distance, c, e);
      if e in Neighbors(g, c) {
        assert c in g.adjacency && e in g.adjacency[c];
        AddRouteKeeps(g, city1, city2, distance, e.destination, Edge(c, e.weight));
      }
    }
  }

  /** A network loaded from two-way road records is symmetric. */
  lemma {:induction false} LoadSymmetric(roads: seq<RoadRecord>)
    ensures Symmetric(Load(Empty(), roads))
    decreases |roads|
  {
    if |roads| > 0 {
      var last := roads[|roads| - 1];
      LoadSymmetric(roads[..|roads| - 1]);
      AddRouteSymmetric(Load(Empty(), roads[..|roads| - 1]), last.city1, last.city2, last.distance);
    }
  }

  /** The same walk traversed from its end back to its start. */
  function Reverse(s: string, w: seq<Edge>): (r: seq<Edge>)
    ensures |r| == |w|
  {
    seq(|w|, i requires 0 <= i < |w| => Edge(At(s, w, |w| - 1 - i), w[|w| - 1 - i].weight))
  }

  /** Two edge sequences whose weights are each other's mirror image have the same length. */
  lemma {:induction false} WeightMirror(a: seq<Edge>, b: seq<Edge>)
    requires |a| == |b|
    requires forall i :: 0 <= i < |a| ==> a[i].weight == b[|b| - 1 - i].weight
    ensures Weight(a) == Weight(b)
    decreases |a|
  {
    if |a| > 0 {
      var n := |a|;
      WeightMirror(a[..n - 1], b[1..]);
      WeightConcat([b[0]], b[1..]);
      WeightSingle(b[0]);
      assert [b[0]] + b[1..] == b;
    }
  }

  lemma ReverseAt(s: string, w: seq<Edge>, i: nat)
    requires i <= |w|
    ensures At(End(s, w), Reverse(s, w), i) == At(s, w, |w| - i)
  {
  }

  lemma SymmetricStep(g: Graph, c: string, e: Edge)
    requires Symmetric(g) && e in Neighbors(g, c)
    ensures Edge(c, e.weight) in Neighbors(g, e.destination)
  {
    assert c in g.adjacency;
  }

  lemma ReverseIndex(s: string, w: seq<Edge>, i: nat)
    requires i < |w|
    ensures Reverse(s, w)[i] == Edge(At(s, w, |w| - 1 - i), w[|w| - 1 - i].weight)
    ensures At(End(s, w), Reverse(s, w), i) == w[|w| - 1 - i].destination
  {
    ReverseAt(s, w, i);
  }

  lemma ReverseWalk(g: Graph, s: string, w: seq<Edge>)
    requires Symmetric(g) && IsWalk(g, s, w)
    ensures IsWalk(g, End(s, w), Reverse(s, w))
    ensures End(End(s, w), Reverse(s, w)) == s
    ensures Weight(Reverse(s, w)) == Weight(w)
  {
    forall i | 0 <= i < |w|
      ensures Reverse(s, w)[i] in Neighbors(g, At(End(s, w), Reverse(s, w), i))
    {
      var j := |w| - 1 - i;
      assert w[j] in Neighbors(g, At(s, w, j));
      SymmetricStep(g, At(s, w, j), w[j]);
      ReverseIndex(s, w, i);
    }
    ReverseAt(s, w, |w|);
    WeightMirror(Reverse(s, w), w);
  }

  /** Distances in a symmetric network do not depend on the direction of travel. */
  lemma SymmetricDistance(g: Graph, a: string, b: string)
    requires NonNegativeWeights(g) && Symmetric(g)
    ensures MinWalkWeight(g, a, b) == MinWalkWeight(g, b, a)
  {
    if Reachable(g, a, b) {
      SymmetricMin(g, a, b, MinWalkWeight(g, a, b).value);
      MinWalkWeightIs(g, b, a, MinWalkWeight(g, a, b).value);
    } else if Reachable(g, b, a) {
      var w :| WalkTo(g, b, a, w);
      ReverseWalk(g, b, w);
      assert WalkTo(g, a, b, Reverse(b, w));
    }
  }

  lemma SymmetricMin(g: Graph, a: string, b: string, k: nat)
    requires NonNegativeWeights(g) && Symmetric(g) && IsMinWeight(g, a, b, k)
    ensures IsMinWeight(g, b, a, k)
  {
    var w :| WalkTo(g, a, b, w) && Weight(w) == k;
    ReverseWalk(g, a, w);
    assert WalkTo(g, b, a, Reverse(a, w));
    forall v | WalkTo(g, b, a, v)
      ensures k <= Weight(v)
    {
      ReverseWalk(g, b, v);
      assert WalkTo(g, a, b, Reverse(b, v));
    }
  }
}
