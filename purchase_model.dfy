/** The `purchases` and `purchase_details` rows, and the detail's subtotal hooks. */
module PurchaseModel {

  datatype Status = Pending | Completed | Cancelled

  /** A purchase row; `totalAmount` is `DECIMAL(10,2)` in cents, `purchaseDate` a timestamp. */
  datatype Purchase = Purchase(id: int, userId: int, totalAmount: int, purchaseDate: int, status: Status)

  /**
   * A detail row. Every column is `allowNull: false`; here each is a field the row cannot be
   * built without. `unitPrice` and `subtotal` are cents.
   */
  datatype PurchaseDetail = PurchaseDetail(
    id: int,
    purchaseId: int,
    productId: int,
    quantity: int,
    unitPrice: int,
    subtotal: int)

  /** The `beforeCreate` hook: the subtotal becomes quantity times unit price; nothing else changes. */
  function BeforeCreate(d: PurchaseDetail): (r: PurchaseDetail)
    ensures r.subtotal == r.quantity * r.unitPrice
    ensures r.(subtotal := d.subtotal) == d
  {
    d.(subtotal := d.quantity * d.unitPrice)
  }

  /**
   * The `beforeUpdate` hook on `d`, whose stored values were `previous`: the subtotal is
   * recomputed exactly when the quantity or the unit price changed, and kept otherwise.
   */
  function BeforeUpdate(previous: PurchaseDetail, d: PurchaseDetail): (r: PurchaseDetail)
    ensures r.(subtotal := d.subtotal) == d
    ensures d.quantity != previous.quantity || d.unitPrice != previous.unitPrice ==>
      r.subtotal == r.quantity * r.unitPrice
    ensures d.quantity == previous.quantity && d.unitPrice == previous.unitPrice ==> r == d
  {
    if d.quantity != previous.quantity || d.unitPrice != previous.unitPrice then BeforeCreate(d) else d
  }

  /** An update that leaves quantity and price alone keeps a stale subtotal stale. */
  lemma UnchangedUpdateKeepsSubtotal(previous: PurchaseDetail)
    ensures BeforeUpdate(previous, previous.(subtotal := previous.subtotal + 1)).subtotal
         == previous.subtotal + 1
  {
  }

  /** Once the subtotal agrees with quantity and price, both hooks leave the row as it is. */
  lemma HooksFixConsistentRows(previous: PurchaseDetail, d: PurchaseDetail)
    requires d.subtotal == d.quantity * d.unitPrice
    ensures BeforeCreate(d) == d && BeforeUpdate(previous, d) == d
  {
  }
}
