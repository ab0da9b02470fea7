/**
 * The inventory logic of a warehouse (src/models/Warehouse.java): a map
 * from product id to quantity, with stock queries, additions and removals
 * where a removal that uses up the exact quantity deletes the entry.
 * Operations are pure: the state after a mutating Java call is the
 * returned warehouse.
 */
module Warehouses {
  import opened Wrappers
  import MapSum

  /** A warehouse; the Java `null` strings are `None`. */
  datatype Warehouse = Warehouse(
    id: int,
    name: Option<string>,
    cityId: int,
    cityName: Option<string>,
    address: Option<string>,
    capacity: int,
    inventory: map<int, int>)

  /** `getProductQuantity`: the stored quantity, 0 for an absent product. */
  function Quantity(w: Warehouse, productId: int): (q: int)
    ensures productId in w.inventory ==> q == w.inventory[productId]
    ensures productId !in w.inventory ==> q == 0
  {
    if productId in w.inventory then w.inventory[productId] else 0
  }

  /** `hasProduct`: the product has a positive quantity. */
  function HasProduct(w: Warehouse, productId: int): (r: bool)
    ensures r <==> Quantity(w, productId) > 0
  {
    productId in w.inventory && w.inventory[productId] > 0
  }

  /**
   * `hasStock`: the product is listed with at least `required` units. Unlike
   * `Quantity`, an absent product never has stock, not even for 0 units.
   */
  function HasStock(w: Warehouse, productId: int, required: int): (r: bool)
    ensures r ==> Quantity(w, productId) >= required
    ensures productId in w.inventory ==> (r <==> Quantity(w, productId) >= required)
    ensures productId !in w.inventory ==> !r
  {
    productId in w.inventory && w.inventory[productId] >= required
  }

  /** `addProduct`: the quantity (0 when absent) grows by `quantity`; nothing else changes. */
  function AddProduct(w: Warehouse, productId: int, quantity: int): (w': Warehouse)
    ensures productId in w'.inventory
    ensures Quantity(w', productId) == Quantity(w, productId) + quantity
    ensures forall p :: p != productId ==> (p in w'.inventory <==> p in w.inventory)
    ensures forall p :: p != productId ==> Quantity(w', p) == Quantity(w, p)
    ensures w'.(inventory := w.inventory) == w
  {
    w.(inventory := w.inventory[productId := Quantity(w, productId) + quantity])
  }

  /**
   * `removeProduct`: when the stock suffices, the quantity drops by
   * `quantity` and the entry disappears if that leaves exactly zero; the
   * flag says whether anything was removed.
   */
  function RemoveProduct(w: Warehouse, productId: int, quantity: int): (r: (bool, Warehouse))
    ensures r.0 <==> HasStock(w, productId, quantity)
    ensures !r.0 ==> r.1 == w
    ensures r.0 ==> Quantity(r.1, productId) == Quantity(w, productId) - quantity
    ensures r.0 ==> (productId in r.1.inventory <==> Quantity(w, productId) != quantity)
    ensures forall p :: p != productId ==> (p in r.1.inventory <==> p in w.inventory)
    ensures forall p :: p != productId ==> Quantity(r.1, p) == Quantity(w, p)
    ensures r.1.(inventory := w.inventory) == w
  {
    if HasStock(w, productId, quantity) then
      var current := w.inventory[productId];
      if current == quantity then
        (true, w.(inventory := w.inventory - {productId}))
      else
        (true, w.(inventory := w.inventory[productId := current - quantity]))
    else
      (false, w)
  }

  /** `getTotalProducts`: the sum of all quantities. */
  method TotalProducts(w: Warehouse) returns (total: int)
    ensures total == MapSum.Sum(w.inventory)
  {
    total := MapSum.SumValues(w.inventory);
  }

  /** `isAtCapacity`: the total quantity has reached the capacity. */
  method IsAtCapacity(w: Warehouse) returns (r: bool)
    ensures r <==> MapSum.Sum(w.inventory) >= w.capacity
  {
    var total := TotalProducts(w);
    r := total >= w.capacity;
  }

  /** `equals`: two warehouses are the same warehouse when their ids agree. */
  predicate SameWarehouse(a: Warehouse, b: Warehouse) {
    a.id == b.id
  }

  /** Adding stock changes the total by exactly the amount added. */
  lemma AddProductTotal(w: Warehouse, productId: int, quantity: int)
    ensures MapSum.Sum(AddProduct(w, productId, quantity).inventory) == MapSum.Sum(w.inventory) + quantity
  {
    MapSum.SumUpdate(w.inventory, productId, Quantity(w, productId) + quantity);
  }

  /** A successful removal lowers the total by exactly the amount removed. */
  lemma {:induction false} RemoveProductTotal(w: Warehouse, productId: int, quantity: int)
    requires HasStock(w, productId, quantity)
    ensures MapSum.Sum(RemoveProduct(w, productId, quantity).1.inventory) == MapSum.Sum(w.inventory) - quantity
  {
    var current := w.inventory[productId];
    MapSum.SumRemove(w.inventory, productId);
    if current != quantity {
      MapSum.SumUpdate(w.inventory, productId, current - quantity);
    }
  }

  /**
   * Removing what was just added restores the warehouse, provided the
   * product was absent or held a positive quantity (a listed zero would
   * have its entry deleted).
   */
  lemma AddThenRemove(w: Warehouse, productId: int, quantity: int)
    requires productId in w.inventory ==> w.inventory[productId] > 0
    ensures RemoveProduct(AddProduct(w, productId, quantity), productId, quantity) == (true, w)
  {
    var w1 := AddProduct(w, productId, quantity);
    var r := RemoveProduct(w1, productId, quantity);
    assert r.1.inventory == w.inventory;
  }

  /** Adding back what a successful removal took restores the warehouse. */
  lemma RemoveThenAdd(w: Warehouse, productId: int, quantity: int)
    requires HasStock(w, productId, quantity)
    ensures AddProduct(RemoveProduct(w, productId, quantity).1, productId, quantity) == w
  {
    var w1 := RemoveProduct(w, productId, quantity).1;
    assert AddProduct(w1, productId, quantity).inventory == w.inventory;
  }

  /** Stock changes never change which warehouse it is. */
  lemma StockKeepsIdentity(w: Warehouse, productId: int, quantity: int)
    ensures SameWarehouse(AddProduct(w, productId, quantity), w)
    ensures SameWarehouse(RemoveProduct(w, productId, quantity).1, w)
  {
  }
}
