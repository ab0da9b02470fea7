/**
 * Warehouse selection for an order (src/dao/OrderProcessor.java): the
 * nearest warehouse by road distance, the fastest by number of roads, and
 * the choice between the two that fixes the delivery distance. The
 * candidate list is an input; the database lookups that produce it are
 * not part of this model.
 */
module OrderProcessor {
  import opened Wrappers
  import opened CityGraph
  import opened Walks
  import opened Warehouses
  import Dijkstra
  import Bfs
  import ArgMin

  /** A selected warehouse with the road distance the order is charged for. */
  datatype Delivery = Delivery(warehouse: Warehouse, distance: int)

  /** Why the selection step of `processOrder` gives up (it prints an error and returns null). */
  datatype OrderError = NoReachableWarehouse | NoDeliveryRoute

  // ----- What each selector measures -----

  /**
   * The shortest road distance from the customer to a warehouse city; a
   * warehouse without a city name, like one outside the network, has none.
   */
  ghost function CityDistance(g: Graph, customerCity: string, cityName: Option<string>): Option<nat>
    requires NonNegativeWeights(g)
  {
    if cityName.Some? then Dijkstra.RouteDistance(g, customerCity, cityName.value) else None
  }

  /** The least number of roads from the customer to a warehouse city. */
  ghost function CityHops(g: Graph, customerCity: string, cityName: Option<string>): Option<nat> {
    if cityName.Some? then MinHops(g, customerCity, cityName.value) else None
  }

  ghost function DistanceMetric(g: Graph, customerCity: string, ws: seq<Warehouse>): (ks: seq<Option<nat>>)
    requires NonNegativeWeights(g)
    ensures |ks| == |ws|
  {
    seq(|ws|, i requires 0 <= i < |ws| => CityDistance(g, customerCity, ws[i].cityName))
  }

  ghost function HopMetric(g: Graph, customerCity: string, ws: seq<Warehouse>): (ks: seq<Option<nat>>)
    ensures |ks| == |ws|
  {
    seq(|ws|, i requires 0 <= i < |ws| => CityHops(g, customerCity, ws[i].cityName))
  }

  // ----- The two selectors -----

  /** The distance `findShortestPath` reports for one warehouse, when it finds a path. */
  method WarehouseDistance(g: Graph, customerCity: string, w: Warehouse) returns (k: Option<nat>)
    requires Valid(g) && NonNegativeWeights(g)
    ensures k == CityDistance(g, customerCity, w.cityName)
  {
    k := None;
    if w.cityName.Some? {
      var result := Dijkstra.FindShortestPath(g, customerCity, w.cityName.value);
      if result.IsPathFound() {
        k := Some(result.distance);
      }
    }
  }

  /** The hop count `bfsMinimumHops` reports for one warehouse, when it is not -1. */
  method WarehouseHops(g: Graph, customerCity: string, w: Warehouse) returns (k: Option<nat>)
    requires Valid(g)
    ensures k == CityHops(g, customerCity, w.cityName)
  {
    k := None;
    if w.cityName.Some? {
      var hops := Bfs.BfsMinimumHops(g, customerCity, w.cityName.value);
      if hops != -1 {
        k := Some(hops);
      }
    }
  }

  /** The distances of all candidates, in list order. */
  method Distances(g: Graph, customerCity: string, ws: seq<Warehouse>) returns (ks: seq<Option<nat>>)
    requires Valid(g) && NonNegativeWeights(g)
    ensures ks == DistanceMetric(g, customerCity, ws)
  {
    ghost var m := DistanceMetric(g, customerCity, ws);
    ks := [];
    for i := 0 to |ws|
      invariant ks == m[..i]
    {
      var k := WarehouseDistance(g, customerCity, ws[i]);
      ks := ks + [k];
    }
    assert ks == m;
  }

  /** The hop counts of all candidates, in list order. */
  method HopCounts(g: Graph, customerCity: string, ws: seq<Warehouse>) returns (ks: seq<Option<nat>>)
    requires Valid(g)
    ensures ks == HopMetric(g, customerCity, ws)
  {
    ghost var m := HopMetric(g, customerCity, ws);
    ks := [];
    for i := 0 to |ws|
      invariant ks == m[..i]
    {
      var k := WarehouseHops(g, customerCity, ws[i]);
      ks := ks + [k];
    }
    assert ks == m;
  }

  /**
   * `findNearestWarehouse`: the first warehouse, in list order, with the
   * strictly smallest shortest-path distance from the customer; none when
   * no warehouse can be reached.
   */
  method FindNearestWarehouse(g: Graph, customerCity: string, ws: seq<Warehouse>) returns (r: Option<Warehouse>)
    requires Valid(g) && NonNegativeWeights(g)
    ensures r.None? <==> ArgMin.AllAbsent(DistanceMetric(g, customerCity, ws))
    ensures r.Some? ==> exists i: nat :: ArgMin.IsFirstMin(DistanceMetric(g, customerCity, ws), i) && r.value == ws[i]
    ensures forall i: nat :: ArgMin.IsFirstMin(DistanceMetric(g, customerCity, ws), i) ==> r == Some(ws[i])
  {
    var ks := Distances(g, customerCity, ws);
    var nearest := ArgMin.FirstMinIndex(ks);
    r := if nearest.Some? then Some(ws[nearest.value]) else None;
    Selected(ks, ws, nearest);
  }

  /**
   * `findFastestWarehouse`: the first warehouse, in list order, with the
   * strictly smallest number of roads from the customer; none when no
   * warehouse can be reached.
   */
  method FindFastestWarehouse(g: Graph, customerCity: string, ws: seq<Warehouse>) returns (r: Option<Warehouse>)
    requires Valid(g)
    ensures r.None? <==> ArgMin.AllAbsent(HopMetric(g, customerCity, ws))
    ensures r.Some? ==> exists i: nat :: ArgMin.IsFirstMin(HopMetric(g, customerCity, ws), i) && r.value == ws[i]
    ensures forall i: nat :: ArgMin.IsFirstMin(HopMetric(g, customerCity, ws), i) ==> r == Some(ws[i])
  {
    var ks := HopCounts(g, customerCity, ws);
    var fastest := ArgMin.FirstMinIndex(ks);
    r := if fastest.Some? then Some(ws[fastest.value]) else None;
    Selected(ks, ws, fastest);
  }

  /** The warehouse at the arg-min index is the one the first-wins rule singles out. */
  lemma Selected(m: seq<Option<nat>>, ws: seq<Warehouse>, index: Option<nat>)
    requires |m| == |ws|
    requires index.None? <==> ArgMin.AllAbsent(m)
    requires index.Some? ==> ArgMin.IsFirstMin(m, index.value)
    ensures var r := if index.Some? then Some(ws[index.value]) else None;
      && (r.None? <==> ArgMin.AllAbsent(m))
      && (r.Some? ==> exists i: nat :: ArgMin.IsFirstMin(m, i) && r.value == ws[i])
      && (forall i: nat :: ArgMin.IsFirstMin(m, i) ==> r == Some(ws[i]))
  {
    forall i: nat | ArgMin.IsFirstMin(m, i)
      ensures index == Some(i)
    {
      ArgMin.FirstMinUnique(m, i, index.value);
    }
  }

  // ----- The selection step of processOrder -----

  /**
   * Steps 4 and 5 of `processOrder`: pick the fastest warehouse when
   * `fastDelivery` is set and the nearest one otherwise, then charge the
   * shortest road distance from the customer to it, in both modes. The
   * first failure is finding no warehouse, the second finding no road
   * route to the selected one.
   */
  method SelectWarehouse(g: Graph, customerCity: string, ws: seq<Warehouse>, fastDelivery: bool)
    returns (r: Result<Delivery, OrderError>)
    requires Valid(g) && NonNegativeWeights(g)
    ensures r.Success? ==> r.value.warehouse in ws
    ensures r.Success? ==> CityDistance(g, customerCity, r.value.warehouse.cityName) == Some(r.value.distance)
    ensures !fastDelivery ==>
      (r == Failure(NoReachableWarehouse) <==> ArgMin.AllAbsent(DistanceMetric(g, customerCity, ws)))
    ensures !fastDelivery ==> r != Failure(NoDeliveryRoute)
    ensures !fastDelivery ==> forall i: nat :: ArgMin.IsFirstMin(DistanceMetric(g, customerCity, ws), i) ==>
      r == Success(Delivery(ws[i], DistanceMetric(g, customerCity, ws)[i].value))
    ensures fastDelivery ==>
      (r == Failure(NoReachableWarehouse) <==> ArgMin.AllAbsent(HopMetric(g, customerCity, ws)))
    ensures fastDelivery ==> forall i: nat :: ArgMin.IsFirstMin(HopMetric(g, customerCity, ws), i) ==>
      r == if CityDistance(g, customerCity, ws[i].cityName).Some?
           then Success(Delivery(ws[i], CityDistance(g, customerCity, ws[i].cityName).value))
           else Failure(NoDeliveryRoute)
  {
    var selected;
    if fastDelivery {
      selected := FindFastestWarehouse(g, customerCity, ws);
    } else {
      selected := FindNearestWarehouse(g, customerCity, ws);
    }
    if selected.None? {
      return Failure(NoReachableWarehouse);
    }
    var w := selected.value;
    var k := WarehouseDistance(g, customerCity, w);
    if k.None? {
      return Failure(NoDeliveryRoute);
    }
    r := Success(Delivery(w, k.value));
  }

  // ----- How the two modes relate -----

  /** A city reached from a different city lies in the network, and so does its starting point. */
  lemma ReachableEnds(g: Graph, s: string, t: string)
    requires Valid(g) && Reachable(g, s, t) && s != t
    ensures s in g.cities && t in g.cities
  {
    var w :| WalkTo(g, s, t, w);
    assert At(s, w, 0) == s;
    assert w[0] in Neighbors(g, At(s, w, 0));
    assert w[|w| - 1] in Neighbors(g, At(s, w, |w| - 1));
  }

  /**
   * For a customer city in the network, a warehouse has a road distance
   * exactly when it has a hop count: both say a road route exists.
   */
  lemma MetricsAgree(g: Graph, customerCity: string, cityName: Option<string>)
    requires Valid(g) && NonNegativeWeights(g) && customerCity in g.cities
    ensures CityDistance(g, customerCity, cityName).Some? <==> CityHops(g, customerCity, cityName).Some?
  {
    if cityName.Some? && Reachable(g, customerCity, cityName.value) && customerCity != cityName.value {
      ReachableEnds(g, customerCity, cityName.value);
    }
  }

  /**
   * In fast mode the selected warehouse lacks a road route only when the
   * customer's city is outside the network and the warehouse is in that
   * very city (zero roads, but no distance).
   */
  lemma FastRouteFailure(g: Graph, customerCity: string, ws: seq<Warehouse>, i: nat)
    requires Valid(g) && NonNegativeWeights(g)
    requires ArgMin.IsFirstMin(HopMetric(g, customerCity, ws), i)
    requires CityDistance(g, customerCity, ws[i].cityName).None?
    ensures customerCity !in g.cities && ws[i].cityName == Some(customerCity)
  {
    assert HopMetric(g, customerCity, ws)[i].Some?;
    if customerCity in g.cities {
      MetricsAgree(g, customerCity, ws[i].cityName);
    } else {
      var t := ws[i].cityName.value;
      assert Reachable(g, customerCity, t);
      if customerCity != t {
        ReachableEnds(g, customerCity, t);
      }
    }
  }

  /**
   * For a customer in the network, the two modes give up for want of a
   * reachable warehouse on exactly the same candidate lists.
   */
  lemma NoWarehouseInEitherMode(g: Graph, customerCity: string, ws: seq<Warehouse>)
    requires Valid(g) && NonNegativeWeights(g) && customerCity in g.cities
    ensures ArgMin.AllAbsent(DistanceMetric(g, customerCity, ws)) <==> ArgMin.AllAbsent(HopMetric(g, customerCity, ws))
  {
    forall j | 0 <= j < |ws|
      ensures DistanceMetric(g, customerCity, ws)[j].Some? <==> HopMetric(g, customerCity, ws)[j].Some?
    {
      MetricsAgree(g, customerCity, ws[j].cityName);
    }
  }

  /**
   * Choosing the nearest warehouse never charges more than choosing the
   * fastest: the nearest one's distance is at most that of any warehouse
   * with a route, the fastest one included.
   */
  lemma NearestNoFarther(g: Graph, customerCity: string, ws: seq<Warehouse>, i: nat, j: nat)
    requires NonNegativeWeights(g)
    requires ArgMin.IsFirstMin(DistanceMetric(g, customerCity, ws), i)
    requires ArgMin.IsFirstMin(HopMetric(g, customerCity, ws), j)
    requires CityDistance(g, customerCity, ws[j].cityName).Some?
    ensures DistanceMetric(g, customerCity, ws)[i].value <= CityDistance(g, customerCity, ws[j].cityName).value
  {
    var m := DistanceMetric(g, customerCity, ws);
    assert m[j] == CityDistance(g, customerCity, ws[j].cityName);
    if j < i {
      assert m[i].value < m[j].value;
    } else if i < j {
      assert m[i].value <= m[j].value;
    }
  }
}
