/**
 * The delivery network: an adjacency list of named cities with weighted,
 * directed edges (src/dsa/Graph.java). A two-way road is stored as two
 * edges, one in each direction.
 */
module CityGraph {
  import MapSum

  /** One adjacency entry: the city it leads to and its length in km. */
  datatype Edge = Edge(destination: string, weight: int)

  /** `adjacency` maps every city to its outgoing edges, in insertion order. */
  datatype Graph = Graph(adjacency: map<string, seq<Edge>>, cities: set<string>)

  /**
   * The representation invariant every public operation keeps: the cities
   * are exactly the keys of the adjacency list, and every edge leads to a
   * city of the graph.
   */
  ghost predicate Valid(g: Graph) {
    && g.adjacency.Keys == g.cities
    && forall c, e :: c in g.adjacency && e in g.adjacency[c] ==> e.destination in g.cities
  }

  /** Dijkstra's precondition: no edge has a negative length. */
  ghost predicate NonNegativeWeights(g: Graph) {
    forall c, e :: c in g.adjacency && e in g.adjacency[c] ==> e.weight >= 0
  }

  /** The graph a fresh `new Graph()` holds. */
  function Empty(): (g: Graph)
    ensures Valid(g) && NonNegativeWeights(g)
    ensures g.cities == {}
    ensures forall c :: Neighbors(g, c) == []
  {
    Graph(map[], {})
  }

  /**
   * `getNeighbors`: the edges leaving `city`, or the empty list for a city
   * the graph does not know.
   */
  function Neighbors(g: Graph, city: string): (r: seq<Edge>)
    ensures city !in g.adjacency ==> r == []
    ensures Valid(g) && city !in g.cities ==> r == []
    ensures Valid(g) ==> forall e :: e in r ==> e.destination in g.cities
  {
    if city in g.adjacency then g.adjacency[city] else []
  }

  predicate HasCity(g: Graph, city: string) {
    city in g.cities
  }

  function AllCities(g: Graph): set<string> {
    g.cities
  }

  function CityCount(g: Graph): nat {
    |g.cities|
  }

  /**
   * `addCity`: registers the city; an existing adjacency list is kept, so no
   * neighbor list of any city changes.
   */
  function AddCity(g: Graph, city: string): (r: Graph)
    ensures r.cities == g.cities + {city}
    ensures forall c :: Neighbors(r, c) == Neighbors(g, c)
    ensures Valid(g) ==> Valid(r)
    ensures NonNegativeWeights(g) ==> NonNegativeWeights(r)
  {
    var adjacency := if city in g.adjacency then g.adjacency else g.adjacency[city := []];
    Graph(adjacency, g.cities + {city})
  }

  /** Appends one edge to the list of `from`, which must already be registered. */
  function AppendEdge(g: Graph, from: string, e: Edge): (r: Graph)
    requires from in g.adjacency
    ensures r.cities == g.cities
    ensures Neighbors(r, from) == Neighbors(g, from) + [e]
    ensures forall c :: c != from ==> Neighbors(r, c) == Neighbors(g, c)
    ensures Valid(g) && e.destination in g.cities ==> Valid(r)
    ensures NonNegativeWeights(g) && e.weight >= 0 ==> NonNegativeWeights(r)
  {
    g.(adjacency := g.adjacency[from := g.adjacency[from] + [e]])
  }

  /**
   * `addRoute`: registers both cities, then appends the edge city1 -> city2
   * and the edge city2 -> city1, both of length `distance`.
   */
  function AddRoute(g: Graph, city1: string, city2: string, distance: int): (r: Graph)
    ensures r.cities == g.cities + {city1, city2}
    ensures city1 != city2 ==> Neighbors(r, city1) == Neighbors(g, city1) + [Edge(city2, distance)]
    ensures city1 != city2 ==> Neighbors(r, city2) == Neighbors(g, city2) + [Edge(city1, distance)]
    ensures city1 == city2 ==> Neighbors(r, city1) == Neighbors(g, city1) + [Edge(city1, distance), Edge(city1, distance)]
    ensures forall c :: c != city1 && c != city2 ==> Neighbors(r, c) == Neighbors(g, c)
    ensures Valid(g) ==> Valid(r)
    ensures NonNegativeWeights(g) && distance >= 0 ==> NonNegativeWeights(r)
  {
    var g1 := AddCity(AddCity(g, city1), city2);
    var g2 := AppendEdge(g1, city1, Edge(city2, distance));
    AppendEdge(g2, city2, Edge(city1, distance))
  }

  /**
   * `addDirectedRoute`: registers both cities but appends only the edge
   * fromCity -> toCity.
   */
  function AddDirectedRoute(g: Graph, fromCity: string, toCity: string, distance: int): (r: Graph)
    ensures r.cities == g.cities + {fromCity, toCity}
    ensures Neighbors(r, fromCity) == Neighbors(g, fromCity) + [Edge(toCity, distance)]
    ensures forall c :: c != fromCity ==> Neighbors(r, c) == Neighbors(g, c)
    ensures Valid(g) ==> Valid(r)
    ensures NonNegativeWeights(g) && distance >= 0 ==> NonNegativeWeights(r)
  {
    AppendEdge(AddCity(AddCity(g, fromCity), toCity), fromCity, Edge(toCity, distance))
  }

  /** `clear`: no cities and no edges remain. */
  function Clear(g: Graph): (r: Graph)
    ensures Valid(r)
    ensures r.cities == {}
    ensures forall c :: Neighbors(r, c) == []
  {
    Empty()
  }

  /** The position of the first edge in `es` that leads to `to`, or `|es|` when none does. */
  function FirstIndexTo(es: seq<Edge>, to: string): (i: nat)
    ensures i <= |es|
    ensures forall j :: 0 <= j < i ==> es[j].destination != to
    ensures i < |es| ==> es[i].destination == to
  {
    if |es| == 0 || es[0].destination == to then 0
    else 1 + FirstIndexTo(es[1..], to)
  }

  /**
   * `getDirectDistance`: the weight of the first edge from city1 to city2,
   * or -1 when there is none.
   */
  function DirectDistance(g: Graph, city1: string, city2: string): (r: int)
    ensures (forall e :: e in Neighbors(g, city1) ==> e.destination != city2) ==> r == -1
    ensures forall i :: 0 <= i < |Neighbors(g, city1)| && Neighbors(g, city1)[i].destination == city2
                        && (forall j :: 0 <= j < i ==> Neighbors(g, city1)[j].destination != city2)
                        ==> r == Neighbors(g, city1)[i].weight
  {
    var es := Neighbors(g, city1);
    var i := FirstIndexTo(es, city2);
    assert i < |es| ==> es[i] in es;
    if i < |es| then es[i].weight else -1
  }

  /**
   * `areDirectlyConnected`: the direct distance is not the -1 sentinel. With
   * non-negative weights that is exactly "some edge leads from city1 to city2".
   */
  predicate AreDirectlyConnected(g: Graph, city1: string, city2: string)
  {
    DirectDistance(g, city1, city2) != -1
  }

  lemma DirectlyConnectedIffEdge(g: Graph, city1: string, city2: string)
    requires NonNegativeWeights(g)
    ensures AreDirectlyConnected(g, city1, city2) <==> exists e :: e in Neighbors(g, city1) && e.destination == city2
  {
    var es := Neighbors(g, city1);
    var i := FirstIndexTo(es, city2);
    if i < |es| {
      assert es[i] in es && es[i].destination == city2;
    }
    if exists e :: e in es && e.destination == city2 {
      var e :| e in es && e.destination == city2;
      var k :| 0 <= k < |es| && es[k] == e;
      assert i <= k;
      assert city1 in g.adjacency && es[i] in g.adjacency[city1];
    }
  }

  /** The total number of adjacency entries over all cities. */
  ghost function EdgeTotal(g: Graph): int {
    MapSum.Sum(EntryCounts(g.adjacency))
  }

  function EntryCounts(adjacency: map<string, seq<Edge>>): map<string, int> {
    map c | c in adjacency :: |adjacency[c]|
  }

  /** `getRouteCount`: the adjacency entries summed over all cities, halved. */
  method RouteCount(g: Graph) returns (n: int)
    ensures n == EdgeTotal(g) / 2
  {
    var total := MapSum.SumValues(EntryCounts(g.adjacency));
    n := total / 2;
  }

  /** Appending an edge adds one adjacency entry. */
  lemma AppendEdgeTotal(g: Graph, from: string, e: Edge)
    requires from in g.adjacency
    ensures EdgeTotal(AppendEdge(g, from, e)) == EdgeTotal(g) + 1
  {
    var counts := EntryCounts(g.adjacency);
    var after := EntryCounts(AppendEdge(g, from, e).adjacency);
    assert after == counts[from := counts[from] + 1];
    MapSum.SumUpdate(counts, from, counts[from] + 1);
  }

  /** Registering a city adds no adjacency entry. */
  lemma AddCityTotal(g: Graph, city: string)
    ensures EdgeTotal(AddCity(g, city)) == EdgeTotal(g)
  {
    if city !in g.adjacency {
      var counts := EntryCounts(g.adjacency);
      assert EntryCounts(AddCity(g, city).adjacency) == counts[city := 0];
      MapSum.SumUpdate(counts, city, 0);
    }
  }

  /** Each `addRoute` call adds exactly one to the route count. */
  lemma AddRouteCount(g: Graph, city1: string, city2: string, distance: int)
    ensures EdgeTotal(AddRoute(g, city1, city2, distance)) == EdgeTotal(g) + 2
    ensures EdgeTotal(AddRoute(g, city1, city2, distance)) / 2 == EdgeTotal(g) / 2 + 1
  {
    var g1 := AddCity(AddCity(g, city1), city2);
    AddCityTotal(g, city1);
    AddCityTotal(AddCity(g, city1), city2);
    var g2 := AppendEdge(g1, city1, Edge(city2, distance));
    AppendEdgeTotal(g1, city1, Edge(city2, distance));
    AppendEdgeTotal(g2, city2, Edge(city1, distance));
  }

  /** One road as the loading step reads it: two city names and a length. */
  datatype RoadRecord = RoadRecord(city1: string, city2: string, distance: int)

  /** The graph obtained by calling `addRoute` once per record, in order. */
  function Load(g: Graph, roads: seq<RoadRecord>): Graph
    decreases |roads|
  {
    if |roads| == 0 then g
    else
      var last := roads[|roads| - 1];
      AddRoute(Load(g, roads[..|roads| - 1]), last.city1, last.city2, last.distance)
  }

  /**
   * The route count of a network loaded from `roads` into an empty graph is
   * the number of roads: halving the entry total is exact for two-way roads.
   */
  lemma {:induction false} LoadRouteCount(roads: seq<RoadRecord>)
    ensures EdgeTotal(Load(Empty(), roads)) == 2 * |roads|
    ensures EdgeTotal(Load(Empty(), roads)) / 2 == |roads|
    decreases |roads|
  {
    if |roads| == 0 {
      assert EntryCounts(Empty().adjacency) == map[];
    } else {
      var last := roads[|roads| - 1];
      LoadRouteCount(roads[..|roads| - 1]);
      AddRouteCount(Load(Empty(), roads[..|roads| - 1]), last.city1, last.city2, last.distance);
    }
  }

  /** A loaded network satisfies the representation invariant. */
  lemma {:induction false} LoadValid(g: Graph, roads: seq<RoadRecord>)
    requires Valid(g)
    ensures Valid(Load(g, roads))
    decreases |roads|
  {
    if |roads| > 0 {
      LoadValid(g, roads[..|roads| - 1]);
    }
  }

  /** The city names a sequence of road records mentions. */
  function NamedCities(roads: seq<RoadRecord>): set<string>
    decreases |roads|
  {
    if |roads| == 0 then {}
    else NamedCities(roads[..|roads| - 1]) + {roads[|roads| - 1].city1, roads[|roads| - 1].city2}
  }

  /** Loading adds exactly the cities the roads name, and no other. */
  lemma {:induction false} LoadCities(g: Graph, roads: seq<RoadRecord>)
    ensures Load(g, roads).cities == g.cities + NamedCities(roads)
    decreases |roads|
  {
    if |roads| > 0 {
      LoadCities(g, roads[..|roads| - 1]);
    }
  }
}
