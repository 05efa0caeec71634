/** The `Product` table: one row per catalog entry, with its stock ledger. */
module ProductModel {
  import opened Common

  /** A product row. `price` is `DECIMAL(10,2)` held as integer cents. */
  datatype Product = Product(
    id: int,
    batchNumber: string,
    name: string,
    price: int,
    availableQuantity: int,
    entryDate: string,
    categoryId: Option<int>,
    active: bool)
  {
    /** `hasStock`: the requested quantity does not exceed what is available. */
    predicate HasStock(quantity: int)
    {
      availableQuantity >= quantity
    }
  }

  /** Why `reduceStock` refused: it reports what was available. */
  datatype StockError = NotEnoughStock(available: int)  // "Stock insuficiente. Disponible: {n}"

  /** The data a new product is created from; `id` and `active` are filled in by the table. */
  datatype ProductData = ProductData(
    batchNumber: string,
    name: string,
    price: int,
    availableQuantity: int,
    entryDate: string,
    categoryId: Option<int>)

  /** The rows of the `products` table, keyed by their auto-increment primary key. */
  class ProductTable {
    var rows: map<int, Product>
    var nextId: int

    /** Every row is stored under its own id, and ids below the counter are the only ones used. */
    ghost predicate Valid()
      reads this
    {
      && nextId >= 1
      && forall id :: id in rows ==> rows[id].id == id && 1 <= id < nextId
    }

    constructor ()
      ensures Valid() && rows == map[] && nextId == 1
    {
      rows := map[];
      nextId := 1;
    }

    /** `findByPk`: the row with that id, whether active or not. */
    function FindByPk(id: int): (r: Option<Product>)
      reads this
      ensures r.Some? <==> id in rows
      ensures r.Some? ==> r.value == rows[id]
    {
      if id in rows then Some(rows[id]) else None
    }

    /** `Product.create`: a new active row under the next id; no existing row changes. */
    method Create(data: ProductData) returns (p: Product)
      requires Valid()
      modifies this
      ensures Valid()
      ensures p.id == old(nextId) && nextId == old(nextId) + 1 && p.id !in old(rows)
      ensures p == Product(p.id, data.batchNumber, data.name, data.price,
                           data.availableQuantity, data.entryDate, data.categoryId, true)
      ensures rows == old(rows)[p.id := p]
    {
      p := Product(nextId, data.batchNumber, data.name, data.price,
                   data.availableQuantity, data.entryDate, data.categoryId, true);
      rows := rows[nextId := p];
      nextId := nextId + 1;
    }

    /**
     * `reduceStock` on a loaded instance `p`, followed by `save()`: refuses, writing
     * nothing, when the stock is insufficient; otherwise lowers the stock of `p` by
     * `quantity`, writes it back under its id and returns it.
     */
    method ReduceStock(p: Product, quantity: int) returns (r: Result<Product, StockError>)
      requires Valid() && p.id in rows
      modifies this
      ensures Valid() && nextId == old(nextId)
      ensures r.Err? <==> !p.HasStock(quantity)
      ensures r.Err? ==> r.error == NotEnoughStock(p.availableQuantity) && rows == old(rows)
      ensures r.Ok? ==> r.value == Reduced(p, quantity) && rows == old(rows)[p.id := r.value]
    {
      if !p.HasStock(quantity) {
        return Err(NotEnoughStock(p.availableQuantity));
      }
      var reduced := Reduced(p, quantity);
      rows := rows[p.id := reduced];
      return Ok(reduced);
    }
  }

  /** The value `reduceStock` leaves in memory when it succeeds. */
  function Reduced(p: Product, quantity: int): (r: Product)
    requires p.HasStock(quantity)
    ensures r.availableQuantity == p.availableQuantity - quantity >= 0
    ensures r.(availableQuantity := p.availableQuantity) == p
  {
    p.(availableQuantity := p.availableQuantity - quantity)
  }
}
