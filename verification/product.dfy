/**
 * The stock counter of a product (src/models/Product.java). The price is a
 * floating-point value no operation here inspects, so it is not part of
 * the model.
 */
module Products {
  import opened Wrappers

  datatype Product = Product(
    id: int,
    name: Option<string>,
    quantity: int,
    category: Option<string>,
    description: Option<string>)

  /** The `IllegalArgumentException` of `reduceStock`, with the figures its message reports. */
  datatype StockError = InsufficientStock(available: int, required: int)

  /** `isInStock`: at least one unit is left. */
  function IsInStock(p: Product): (r: bool)
    ensures r <==> p.quantity > 0
  {
    p.quantity > 0
  }

  /** `hasStock`: at least `required` units are left. */
  function HasStock(p: Product, required: int): (r: bool)
    ensures r <==> p.quantity >= required
  {
    p.quantity >= required
  }

  /**
   * `reduceStock`: takes `amount` units away when there are enough, and
   * otherwise fails, leaving the product as it was.
   */
  function ReduceStock(p: Product, amount: int): (r: Result<Product, StockError>)
    ensures r.Success? <==> HasStock(p, amount)
    ensures r.Success? ==> r.value == p.(quantity := p.quantity - amount)
    ensures r.Failure? ==> r.error == InsufficientStock(p.quantity, amount)
  {
    if amount <= p.quantity then Success(p.(quantity := p.quantity - amount))
    else Failure(InsufficientStock(p.quantity, amount))
  }

  /** `addStock`: a positive amount is added; zero or a negative amount changes nothing. */
  function AddStock(p: Product, amount: int): (r: Product)
    ensures amount > 0 ==> r.quantity == p.quantity + amount
    ensures amount <= 0 ==> r == p
    ensures r.(quantity := p.quantity) == p
  {
    if amount > 0 then p.(quantity := p.quantity + amount) else p
  }

  /** `equals`: two products are the same product when their ids agree. */
  predicate SameProduct(a: Product, b: Product) {
    a.id == b.id
  }

  /**
   * Taking away what was just added restores the product, provided its
   * count was not negative (otherwise the stock check refuses).
   */
  lemma AddThenReduce(p: Product, amount: int)
    requires amount > 0 && p.quantity >= 0
    ensures ReduceStock(AddStock(p, amount), amount) == Success(p)
  {
    var q := AddStock(p, amount);
    assert q.(quantity := q.quantity - amount) == p;
  }

  /** Adding back what a successful reduction took restores the product. */
  lemma ReduceThenAdd(p: Product, amount: int)
    requires amount > 0 && HasStock(p, amount)
    ensures ReduceStock(p, amount).Success?
    ensures AddStock(ReduceStock(p, amount).value, amount) == p
  {
  }

  /** After a successful reduction the product still has a non-negative count if it had one. */
  lemma ReduceKeepsNonNegative(p: Product, amount: int)
    requires p.quantity >= 0 && amount >= 0
    ensures ReduceStock(p, amount).Success? ==> ReduceStock(p, amount).value.quantity >= 0
  {
  }

  /** Stock changes never change which product it is. */
  lemma StockKeepsIdentity(p: Product, amount: int)
    ensures SameProduct(AddStock(p, amount), p)
    ensures ReduceStock(p, amount).Success? ==> SameProduct(ReduceStock(p, amount).value, p)
  {
  }
}
