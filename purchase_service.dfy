/**
 * `createPurchase`: validates each item against the current stock, snapshots a detail,
 * lowers the stock, and finally inserts the purchase with its details.
 *
 * Only the insertion of the purchase runs inside the database transaction. The product
 * lookups and the stock writes (`reduceStock`'s `save()`) do not, so a failure part way
 * through rolls back nothing that was written to the products.
 */
module PurchaseService {
  import opened Common
  import opened ProductModel
  import opened PurchaseModel
  import opened PurchaseRepository

  /** One requested line: a product id and a quantity. */
  datatype Item = Item(productId: int, quantity: int)

  /** The business errors `createPurchase` throws. */
  datatype PurchaseError =
    | ProductNotFound(productId: int)                 // "Producto {id} no encontrado"
    | InsufficientStock(name: string, available: int)  // "Stock insuficiente para {name}. Disponible: {n}"

  /**
   * The state of the loop: the product rows as written so far, the detail snapshots, the
   * running total in cents, and the error that stopped it, if any.
   */
  datatype Checkout = Checkout(
    rows: map<int, Product>,
    details: seq<DetailData>,
    total: int,
    failure: Option<PurchaseError>)

  /** Every row is stored under its own id. */
  ghost predicate KeyedById(rows: map<int, Product>)
  {
    forall id :: id in rows ==> rows[id].id == id
  }

  /** The quantities the route validator admits: every quantity is positive. */
  ghost predicate PositiveQuantities(items: seq<Item>)
  {
    forall k :: 0 <= k < |items| ==> items[k].quantity > 0
  }

  /**
   * One iteration of the loop on a state that has not failed: the product is reloaded from
   * the rows as written so far, checked, snapshotted and written back with less stock.
   */
  function Step(c: Checkout, item: Item): (r: Checkout)
    ensures r.rows.Keys == c.rows.Keys
  {
    if item.productId !in c.rows || !c.rows[item.productId].active then
      c.(failure := Some(ProductNotFound(item.productId)))
    else
      var p := c.rows[item.productId];
      if !p.HasStock(item.quantity) then
        c.(failure := Some(InsufficientStock(p.name, p.availableQuantity)))
      else
        var subtotal := p.price * item.quantity;
        Checkout(c.rows[item.productId := Reduced(p, item.quantity)],
                 c.details + [DetailData(p.id, item.quantity, p.price, subtotal)],
                 c.total + subtotal,
                 None)
  }

  /** The loop run over `items` in the order submitted; it stops at the first error. */
  function Run(rows: map<int, Product>, items: seq<Item>): (c: Checkout)
    ensures c.rows.Keys == rows.Keys
    decreases |items|
  {
    if items == [] then Checkout(rows, [], 0, None)
    else
      var c := Run(rows, items[..|items| - 1]);
      if c.failure.Some? then c else Step(c, items[|items| - 1])
  }

  /** The sum of the detail subtotals. */
  function SubtotalSum(ds: seq<DetailData>): int
  {
    if ds == [] then 0 else SubtotalSum(ds[..|ds| - 1]) + ds[|ds| - 1].subtotal
  }

  /** The total quantity requested of product `id`. */
  function QuantityOf(items: seq<Item>, id: int): int
  {
    if items == [] then 0
    else QuantityOf(items[..|items| - 1], id) + (if items[|items| - 1].productId == id then items[|items| - 1].quantity else 0)
  }

  // ---------------------------------------------------------------------------
  // Properties of the loop

  /** The loop over one more item runs one more step, unless it has already failed. */
  lemma RunExtends(rows: map<int, Product>, items: seq<Item>, i: nat)
    requires i < |items|
    ensures Run(rows, items[..i + 1]) ==
      var c := Run(rows, items[..i]); if c.failure.Some? then c else Step(c, items[i])
  {
    assert items[..i + 1][..i] == items[..i];
  }

  /** Once an item fails, later items change nothing. */
  lemma {:induction false} RunStops(rows: map<int, Product>, items: seq<Item>, n: nat)
    requires n <= |items| && Run(rows, items[..n]).failure.Some?
    ensures Run(rows, items) == Run(rows, items[..n])
    decreases |items| - n
  {
    if n < |items| {
      var m := |items| - 1;
      assert items[..m][..n] == items[..n];
      RunStops(rows, items[..m], n);
      assert items[..|items|] == items;
    } else {
      assert items[..n] == items;
    }
  }

  /**
   * Only the stock changes: every product keeps its id, name, price and active flag, and
   * no product appears or disappears.
   */
  lemma {:induction false} RunOnlyChangesStock(rows: map<int, Product>, items: seq<Item>)
    requires KeyedById(rows)
    ensures var c := Run(rows, items);
      && c.rows.Keys == rows.Keys && KeyedById(c.rows)
      && forall id :: id in rows ==> c.rows[id] == rows[id].(availableQuantity := c.rows[id].availableQuantity)
  {
    if items != [] {
      RunOnlyChangesStock(rows, items[..|items| - 1]);
    }
  }

  /** The detail a line gets when its product is bought at the price it had in `rows`. */
  function Snapshot(rows: map<int, Product>, item: Item): DetailData
    requires item.productId in rows
  {
    var price := rows[item.productId].price;
    DetailData(item.productId, item.quantity, price, price * item.quantity)
  }

  /** The running total is always the sum of the detail subtotals. */
  lemma {:induction false} RunTotal(rows: map<int, Product>, items: seq<Item>)
    ensures var c := Run(rows, items); c.total == SubtotalSum(c.details)
  {
    if items != [] {
      var init := items[..|items| - 1];
      RunTotal(rows, init);
      var c := Run(rows, items);
      var prev := Run(rows, init);
      if prev.failure.None? && c.failure.None? {
        assert c.details[..|c.details| - 1] == prev.details;
      }
    }
  }

  /**
   * On success there is one detail per item, in input order, with the product's price as
   * unit price and `unitPrice * quantity` as subtotal.
   */
  lemma {:induction false} RunDetails(rows: map<int, Product>, items: seq<Item>)
    requires KeyedById(rows)
    ensures var c := Run(rows, items);
      c.failure.None? ==>
        && |c.details| == |items|
        && forall k :: 0 <= k < |items| ==> items[k].productId in rows && c.details[k] == Snapshot(rows, items[k])
  {
    if items != [] {
      var init := items[..|items| - 1];
      RunDetails(rows, init);
      RunOnlyChangesStock(rows, init);
      var c := Run(rows, items);
      if c.failure.None? {
        var prev := Run(rows, init);
        var last := items[|items| - 1];
        assert c == Step(prev, last);
        var p := prev.rows[last.productId];
        assert p.id == last.productId && p.price == rows[last.productId].price;
        assert c.details == prev.details + [Snapshot(rows, last)];
        forall k | 0 <= k < |items|
          ensures items[k].productId in rows && c.details[k] == Snapshot(rows, items[k])
        {
          if k < |init| {
            assert items[k] == init[k] && c.details[k] == prev.details[k];
          } else {
            assert items[k] == last && c.details[k] == Snapshot(rows, last);
          }
        }
      }
    }
  }

  /**
   * On success each product's stock has gone down by exactly the quantity requested of it,
   * and no product that was bought ends below zero.
   */
  lemma {:induction false} RunStock(rows: map<int, Product>, items: seq<Item>)
    requires KeyedById(rows) && PositiveQuantities(items)
    ensures var c := Run(rows, items);
      c.failure.None? ==> forall id :: id in rows ==>
        && c.rows[id].availableQuantity == rows[id].availableQuantity - QuantityOf(items, id)
        && (QuantityOf(items, id) > 0 ==> c.rows[id].availableQuantity >= 0)
  {
    if items != [] {
      var init := items[..|items| - 1];
      RunStock(rows, init);
      RunOnlyChangesStock(rows, init);
      assert PositiveQuantities(init) by {
        forall k | 0 <= k < |init| ensures init[k].quantity > 0 {
          assert init[k] == items[k];
        }
      }
    }
  }

  /**
   * A failure stops at some item `k`: the items before it all went through, and the product
   * rows are left exactly as those earlier items left them — their stock is not restored.
   */
  lemma {:induction false} FailureKeepsEarlierReductions(rows: map<int, Product>, items: seq<Item>)
    requires Run(rows, items).failure.Some?
    ensures exists k :: (0 <= k < |items|
      && Run(rows, items[..k]).failure.None?
      && Run(rows, items) == Step(Run(rows, items[..k]), items[k])
      && Run(rows, items).rows == Run(rows, items[..k]).rows)
  {
    var init := items[..|items| - 1];
    if Run(rows, init).failure.Some? {
      FailureKeepsEarlierReductions(rows, init);
      var k :| 0 <= k < |init| && Run(rows, init[..k]).failure.None?
        && Run(rows, init) == Step(Run(rows, init[..k]), init[k])
        && Run(rows, init).rows == Run(rows, init[..k]).rows;
      assert init[..k] == items[..k] && init[k] == items[k];
    } else {
      var k := |items| - 1;
      assert items[..k] == init;
    }
  }

  /** Two lines for the same product: the second is checked against the stock the first left. */
  lemma RepeatedItemSeesReducedStock(rows: map<int, Product>, id: int, a: int, b: int)
    requires KeyedById(rows) && id in rows && rows[id].active
    ensures Run(rows, [Item(id, a), Item(id, b)]).failure.None? <==>
      a <= rows[id].availableQuantity && b <= rows[id].availableQuantity - a
  {
    var items := [Item(id, a), Item(id, b)];
    var one := [Item(id, a)];
    assert items[..1] == one && one[..0] == [];
    assert Run(rows, one[..0]) == Checkout(rows, [], 0, None);
    var first := Run(rows, one);
    assert first == Step(Checkout(rows, [], 0, None), Item(id, a));
    assert Run(rows, items) == if first.failure.Some? then first else Step(first, Item(id, b));
  }

  /**
   * Product 1 has 5 in stock and product 2 none. Buying 3 of product 1 and 1 of product 2
   * fails on the second line, yet product 1 is left with 2.
   */
  lemma PartialFailureKeepsReduction()
    ensures var rows := map[1 := Product(1, "L1", "A", 1000, 5, "2024-01-01", None, true),
                            2 := Product(2, "L2", "B", 500, 0, "2024-01-01", None, true)];
      var c := Run(rows, [Item(1, 3), Item(2, 1)]);
      && c.failure == Some(InsufficientStock("B", 0))
      && c.rows[1].availableQuantity == 2
  {
    var items := [Item(1, 3), Item(2, 1)];
    var one := [Item(1, 3)];
    assert items[..1] == one && one[..0] == [];
    var rows := map[1 := Product(1, "L1", "A", 1000, 5, "2024-01-01", None, true),
                    2 := Product(2, "L2", "B", 500, 0, "2024-01-01", None, true)];
    assert Run(rows, one[..0]) == Checkout(rows, [], 0, None);
    var first := Run(rows, one);
    assert first == Step(Checkout(rows, [], 0, None), Item(1, 3));
    assert first.rows[1].availableQuantity == 2 && first.failure.None?;
  }

  // ---------------------------------------------------------------------------
  // The service

  /**
   * The `for` loop of `createPurchase`: each item's product is loaded from the rows as they
   * stand, checked, snapshotted into a detail, and written back with its stock lowered. The
   * loop stops at the first error, leaving the stock written for earlier items in place.
   */
  method ProcessItems(products: ProductTable, items: seq<Item>)
    returns (total: int, ds: seq<DetailData>, failure: Option<PurchaseError>)
    requires products.Valid()
    modifies products
    ensures products.Valid() && products.nextId == old(products.nextId)
    ensures Run(old(products.rows), items) == Checkout(products.rows, ds, total, failure)
  {
    total := 0;
    ds := [];
    var i := 0;
    while i < |items|
      invariant 0 <= i <= |items|
      invariant products.Valid() && products.nextId == old(products.nextId)
      invariant Run(old(products.rows), items[..i]) == Checkout(products.rows, ds, total, None)
    {
      var item := items[i];
      RunExtends(old(products.rows), items, i);
      var found := products.FindByPk(item.productId);
      if found.None? || !found.value.active {
        RunStops(old(products.rows), items, i + 1);
        return total, ds, Some(ProductNotFound(item.productId));
      }
      var product := found.value;
      if !product.HasStock(item.quantity) {
        RunStops(old(products.rows), items, i + 1);
        return total, ds, Some(InsufficientStock(product.name, product.availableQuantity));
      }
      var subtotal := product.price * item.quantity;
      total := total + subtotal;
      ds := ds + [DetailData(product.id, item.quantity, product.price, subtotal)];
      var reduced := products.ReduceStock(product, item.quantity);
      i := i + 1;
    }
    assert items[..|items|] == items;
    return total, ds, None;
  }

  /**
   * `createPurchase(userId, products)`. The product rows end as the loop left them, whether
   * or not it failed. On failure no purchase and no detail is inserted; on success one
   * purchase, completed, of `userId`, with the loop's total, and the loop's details in order.
   */
  method CreatePurchase(products: ProductTable, table: PurchaseTable, userId: int, items: seq<Item>, now: int)
    returns (r: Result<PurchaseView, PurchaseError>)
    requires products.Valid() && table.Valid() && table.NotAfter(now)
    modifies products, table
    ensures products.Valid() && table.Valid() && products.nextId == old(products.nextId)
    ensures products.rows == Run(old(products.rows), items).rows
    ensures r.Err? <==> Run(old(products.rows), items).failure.Some?
    ensures r.Err? ==> (r.error == Run(old(products.rows), items).failure.value
                        && table.purchases == old(table.purchases) && table.details == old(table.details))
    ensures r.Ok? ==>
      var c := Run(old(products.rows), items);
      var p := Purchase(old(table.nextPurchaseId), userId, c.total, now, Completed);
      var added := Stamp(c.details, p.id, old(table.nextDetailId));
      && table.purchases == old(table.purchases) + [p]
      && table.details == old(table.details) + added
      && r.value == PurchaseView(p, added)
  {
    var total, ds, failure := ProcessItems(products, items);
    if failure.Some? {
      // the rollback discards the purchase rows only; none were written yet
      return Err(failure.value);
    }
    var purchase := table.Create(PurchaseData(userId, total, Completed), ds, now);
    var reloaded := table.FindById(purchase.id, None);
    return Ok(reloaded.value);
  }

  /**
   * `createPurchase` with the stock writes inside the transaction: on failure the rollback
   * also restores every product row, so a failed purchase changes nothing at all.
   */
  method CreatePurchaseAtomic(products: ProductTable, table: PurchaseTable, userId: int, items: seq<Item>, now: int)
    returns (r: Result<PurchaseView, PurchaseError>)
    requires products.Valid() && table.Valid() && table.NotAfter(now)
    modifies products, table
    ensures products.Valid() && table.Valid()
    ensures r.Err? <==> Run(old(products.rows), items).failure.Some?
    ensures r.Err? ==> (products.rows == old(products.rows)
                        && table.purchases == old(table.purchases) && table.details == old(table.details))
    ensures r.Ok? ==>
      var c := Run(old(products.rows), items);
      var p := Purchase(old(table.nextPurchaseId), userId, c.total, now, Completed);
      var added := Stamp(c.details, p.id, old(table.nextDetailId));
      && products.rows == c.rows
      && table.purchases == old(table.purchases) + [p]
      && table.details == old(table.details) + added
      && r.value == PurchaseView(p, added)
  {
    var snapshot := products.rows;
    r := CreatePurchase(products, table, userId, items, now);
    if r.Err? {
      products.rows := snapshot;
    }
  }
}
