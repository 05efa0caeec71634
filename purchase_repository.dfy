/** Inserting a purchase with its details, and the purchase queries. */
module PurchaseRepository {
  import opened Common
  import opened PurchaseModel

  /** A detail as the service prepares it, before it belongs to a purchase. */
  datatype DetailData = DetailData(productId: int, quantity: int, unitPrice: int, subtotal: int)

  /** The columns of a new purchase the service supplies. */
  datatype PurchaseData = PurchaseData(userId: int, totalAmount: int, status: Status)

  /** A purchase together with its details, as the queries return it. */
  datatype PurchaseView = PurchaseView(purchase: Purchase, details: seq<PurchaseDetail>)

  /**
   * `detailsData.map(detail => ({ ...detail, purchaseId }))`, with the ids `bulkCreate`
   * assigns: every detail keeps its own fields, in order, and carries the purchase's id.
   */
  function Stamp(ds: seq<DetailData>, purchaseId: int, firstId: int): (r: seq<PurchaseDetail>)
    ensures |r| == |ds|
    ensures forall i :: 0 <= i < |r| ==>
      && r[i].purchaseId == purchaseId
      && r[i].id == firstId + i
      && DetailData(r[i].productId, r[i].quantity, r[i].unitPrice, r[i].subtotal) == ds[i]
  {
    seq(|ds|, i requires 0 <= i < |ds| =>
      PurchaseDetail(firstId + i, purchaseId, ds[i].productId, ds[i].quantity, ds[i].unitPrice, ds[i].subtotal))
  }

  /** Purchase dates never go down in storage order. */
  ghost predicate Chronological(ps: seq<Purchase>)
  {
    forall i, j :: 0 <= i < j < |ps| ==> ps[i].purchaseDate <= ps[j].purchaseDate
  }

  /** The details of purchase `purchaseId`, in storage order. */
  function DetailsOf(details: seq<PurchaseDetail>, purchaseId: int): (r: seq<PurchaseDetail>)
    ensures forall x :: x in r <==> x in details && x.purchaseId == purchaseId
  {
    if details == [] then []
    else
      var last := details[|details| - 1];
      DetailsOf(details[..|details| - 1], purchaseId) + (if last.purchaseId == purchaseId then [last] else [])
  }

  /** The details appended after the existing ones are the only ones of a new purchase id. */
  lemma {:induction false} DetailsOfAppend(details: seq<PurchaseDetail>, added: seq<PurchaseDetail>, purchaseId: int)
    requires forall i :: 0 <= i < |details| ==> details[i].purchaseId != purchaseId
    requires forall i :: 0 <= i < |added| ==> added[i].purchaseId == purchaseId
    ensures DetailsOf(details + added, purchaseId) == added
  {
    if added == [] {
      assert details + added == details;
      NoDetailsOf(details, purchaseId);
    } else {
      var init := added[..|added| - 1];
      var last := added[|added| - 1];
      assert details + added == (details + init) + [last];
      DetailsOfAppend(details, init, purchaseId);
      DetailsOfSnoc(details + init, last, purchaseId);
      assert init + [last] == added;
    }
  }

  /** One more detail joins the purchase's details when it belongs to the purchase. */
  lemma DetailsOfSnoc(details: seq<PurchaseDetail>, x: PurchaseDetail, purchaseId: int)
    ensures DetailsOf(details + [x], purchaseId) == DetailsOf(details, purchaseId) + if x.purchaseId == purchaseId then [x] else []
  {
    assert (details + [x])[..|details|] == details;
  }

  lemma {:induction false} NoDetailsOf(details: seq<PurchaseDetail>, purchaseId: int)
    requires forall i :: 0 <= i < |details| ==> details[i].purchaseId != purchaseId
    ensures DetailsOf(details, purchaseId) == []
  {
    if details != [] {
      NoDetailsOf(details[..|details| - 1], purchaseId);
    }
  }

  /**
   * The purchases of `userId` (of everyone when `userId` is `None`), newest (last stored)
   * first: the order `purchaseDate DESC`.
   */
  function NewestFirst(ps: seq<Purchase>, userId: Option<int>): (r: seq<Purchase>)
    ensures forall x :: x in r <==> x in ps && (userId.Some? ==> x.userId == userId.value)
  {
    if ps == [] then []
    else
      var last := ps[|ps| - 1];
      var older := NewestFirst(ps[..|ps| - 1], userId);
      assert forall x :: x in older ==> x in ps[..|ps| - 1];
      if userId.None? || last.userId == userId.value then [last] + older else older
  }

  /** Purchase dates never go up along `ps`. */
  ghost predicate NewestDatesFirst(ps: seq<Purchase>)
  {
    forall i, j :: 0 <= i < j < |ps| ==> ps[i].purchaseDate >= ps[j].purchaseDate
  }

  /** Over purchases stored in date order, the listing never goes up in date. */
  lemma {:induction false} NewestFirstOrdered(ps: seq<Purchase>, userId: Option<int>)
    requires Chronological(ps)
    ensures NewestDatesFirst(NewestFirst(ps, userId))
  {
    if ps != [] {
      var init := ps[..|ps| - 1];
      var last := ps[|ps| - 1];
      var older := NewestFirst(init, userId);
      forall i, j | 0 <= i < j < |init| ensures init[i].purchaseDate <= init[j].purchaseDate {
        assert init[i] == ps[i] && init[j] == ps[j];
      }
      NewestFirstOrdered(init, userId);
      forall x | x in older ensures x.purchaseDate <= last.purchaseDate {
        var k :| 0 <= k < |init| && init[k] == x;
        assert ps[k] == x;
      }
      if userId.None? || last.userId == userId.value {
        var r := [last] + older;
        assert NewestFirst(ps, userId) == r;
        assert forall k :: 0 < k < |r| ==> r[k] == older[k - 1];
        forall i, j | 0 <= i < j < |r| ensures r[i].purchaseDate >= r[j].purchaseDate {
          assert r[j] in older;
          if i > 0 {
            assert older[i - 1].purchaseDate >= older[j - 1].purchaseDate;
          }
        }
      } else {
        assert NewestFirst(ps, userId) == older;
      }
    }
  }

  /** No two of `ps` share an id. */
  ghost predicate DistinctIds(ps: seq<Purchase>)
  {
    forall i, j :: 0 <= i < j < |ps| ==> ps[i].id != ps[j].id
  }

  /** The listing never repeats a purchase: distinct ids stay distinct. */
  lemma {:induction false} NewestFirstDistinct(ps: seq<Purchase>, userId: Option<int>)
    requires DistinctIds(ps)
    ensures DistinctIds(NewestFirst(ps, userId))
  {
    if ps != [] {
      var init := ps[..|ps| - 1];
      var last := ps[|ps| - 1];
      var older := NewestFirst(init, userId);
      assert DistinctIds(init) by {
        forall i, j | 0 <= i < j < |init| ensures init[i].id != init[j].id {
          assert init[i] == ps[i] && init[j] == ps[j];
        }
      }
      NewestFirstDistinct(init, userId);
      forall x | x in older ensures x.id != last.id {
        var k :| 0 <= k < |init| && init[k] == x;
        assert ps[k] == x;
      }
      if userId.None? || last.userId == userId.value {
        var r := [last] + older;
        assert NewestFirst(ps, userId) == r;
        assert forall k :: 0 < k < |r| ==> r[k] == older[k - 1];
        forall i, j | 0 <= i < j < |r| ensures r[i].id != r[j].id {
          assert r[j] in older;
        }
      } else {
        assert NewestFirst(ps, userId) == older;
      }
    }
  }

  /** A purchase view for each of `ps`, in order. */
  function Views(ds: seq<PurchaseDetail>, ps: seq<Purchase>): (r: seq<PurchaseView>)
    ensures |r| == |ps| && forall i :: 0 <= i < |r| ==> r[i] == View(ds, ps[i]) && r[i].purchase == ps[i]
  {
    seq(|ps|, i requires 0 <= i < |ps| => View(ds, ps[i]))
  }

  /** The views list exactly the purchases given. */
  lemma ViewsMembers(ds: seq<PurchaseDetail>, ps: seq<Purchase>)
    ensures forall p :: p in ps <==> View(ds, p) in Views(ds, ps)
    ensures forall v :: v in Views(ds, ps) ==> v.purchase in ps
  {
    var r := Views(ds, ps);
    forall p | p in ps ensures View(ds, p) in r {
      var i :| 0 <= i < |ps| && ps[i] == p;
      assert r[i] == View(ds, p);
    }
    forall v | v in r ensures v.purchase in ps {
      var i :| 0 <= i < |r| && r[i] == v;
      assert v.purchase == ps[i];
    }
  }

  /** Every purchase is listed once when no user filter applies. */
  lemma {:induction false} NewestFirstAllLength(ps: seq<Purchase>)
    ensures |NewestFirst(ps, None)| == |ps|
  {
    if ps != [] {
      NewestFirstAllLength(ps[..|ps| - 1]);
    }
  }

  /** `findOne({ where: { id [, userId] } })`: the first stored purchase matching the filter. */
  function FirstMatch(ps: seq<Purchase>, id: int, userId: Option<int>): (r: Option<Purchase>)
    ensures r.Some? ==> r.value in ps && r.value.id == id && (Truthy(userId) ==> r.value.userId == userId.value)
    ensures r.None? ==> forall x :: x in ps && x.id == id ==> Truthy(userId) && x.userId != userId.value
  {
    if ps == [] then None
    else if ps[0].id == id && (!Truthy(userId) || ps[0].userId == userId.value) then Some(ps[0])
    else
      var r := FirstMatch(ps[1..], id, userId);
      assert forall x :: x in ps && x != ps[0] ==> x in ps[1..];
      r
  }

  /** A purchase with its details. */
  function View(details: seq<PurchaseDetail>, p: Purchase): (r: PurchaseView)
    ensures r.purchase == p && forall d :: d in r.details <==> d in details && d.purchaseId == p.id
  {
    PurchaseView(p, DetailsOf(details, p.id))
  }

  /** With unique ids, looking a stored purchase up by its id alone finds that purchase. */
  lemma {:induction false} FirstMatchUnique(ps: seq<Purchase>, k: nat)
    requires k < |ps| && forall i, j :: 0 <= i < j < |ps| ==> ps[i].id != ps[j].id
    ensures FirstMatch(ps, ps[k].id, None) == Some(ps[k])
  {
    if k > 0 {
      assert ps[1..][k - 1] == ps[k];
      FirstMatchUnique(ps[1..], k - 1);
    }
  }

  /**
   * Auto-increment ids below the next ones, unique purchase ids, details pointing at purchase
   * ids already handed out, and purchases stored in date order.
   */
  ghost predicate Consistent(purchases: seq<Purchase>, details: seq<PurchaseDetail>, nextPurchaseId: int, nextDetailId: int)
  {
    && nextPurchaseId >= 1 && nextDetailId >= 1
    && (forall i :: 0 <= i < |purchases| ==> 1 <= purchases[i].id < nextPurchaseId)
    && (forall i, j :: 0 <= i < j < |purchases| ==> purchases[i].id != purchases[j].id)
    && (forall i :: 0 <= i < |details| ==> 1 <= details[i].id < nextDetailId)
    && (forall i :: 0 <= i < |details| ==> details[i].purchaseId < nextPurchaseId)
    && Chronological(purchases)
  }

  /** Inserting a purchase dated no earlier than the others, with its stamped details, keeps the rows consistent. */
  lemma InsertKeepsConsistent(purchases: seq<Purchase>, details: seq<PurchaseDetail>, nextPurchaseId: int,
                              nextDetailId: int, p: Purchase, ds: seq<DetailData>)
    requires Consistent(purchases, details, nextPurchaseId, nextDetailId)
    requires p.id == nextPurchaseId
    requires forall i :: 0 <= i < |purchases| ==> purchases[i].purchaseDate <= p.purchaseDate
    ensures Consistent(purchases + [p], details + Stamp(ds, p.id, nextDetailId), nextPurchaseId + 1, nextDetailId + |ds|)
  {
    var ps := purchases + [p];
    forall i, j | 0 <= i < j < |ps|
      ensures ps[i].purchaseDate <= ps[j].purchaseDate
    {
      if j == |purchases| {
        assert ps[i] == purchases[i];
      }
    }
  }

  /** The rows of `purchases` and `purchase_details`, in storage order. */
  class PurchaseTable {
    var purchases: seq<Purchase>
    var details: seq<PurchaseDetail>
    var nextPurchaseId: int
    var nextDetailId: int

    /** Ids are below their counters and purchase ids are unique; purchases are in date order. */
    ghost predicate Valid()
      reads this
    {
      Consistent(purchases, details, nextPurchaseId, nextDetailId)
    }

    /** No purchase is dated after `now`. */
    ghost predicate NotAfter(now: int)
      reads this
    {
      forall i :: 0 <= i < |purchases| ==> purchases[i].purchaseDate <= now
    }

    constructor ()
      ensures Valid() && purchases == [] && details == []
    {
      purchases := [];
      details := [];
      nextPurchaseId := 1;
      nextDetailId := 1;
    }

    /**
     * `create(purchaseData, detailsData)`: inserts exactly one purchase, dated `now`, and the
     * details in their given order, each carrying the new purchase's id.
     */
    method Create(data: PurchaseData, ds: seq<DetailData>, now: int) returns (p: Purchase)
      requires Valid() && NotAfter(now)
      modifies this
      ensures Valid()
      ensures p == Purchase(old(nextPurchaseId), data.userId, data.totalAmount, now, data.status)
      ensures purchases == old(purchases) + [p]
      ensures details == old(details) + Stamp(ds, p.id, old(nextDetailId))
      ensures DetailsOf(details, p.id) == Stamp(ds, p.id, old(nextDetailId))
      ensures nextPurchaseId == old(nextPurchaseId) + 1 && nextDetailId == old(nextDetailId) + |ds|
      ensures FindById(p.id, None) == Some(PurchaseView(p, Stamp(ds, p.id, old(nextDetailId))))
    {
      p := Purchase(nextPurchaseId, data.userId, data.totalAmount, now, data.status);
      var stamped := Stamp(ds, p.id, nextDetailId);
      var ps := purchases + [p];
      var dts := details + stamped;
      InsertKeepsConsistent(purchases, details, nextPurchaseId, nextDetailId, p, ds);
      DetailsOfAppend(details, stamped, p.id);
      FirstMatchUnique(ps, |purchases|);
      purchases, details, nextPurchaseId, nextDetailId := ps, dts, nextPurchaseId + 1, nextDetailId + |ds|;
    }

    /**
     * `findById(id, userId)`: with a truthy `userId` only a purchase of that user matches;
     * otherwise the id alone decides.
     */
    function FindById(id: int, userId: Option<int>): (r: Option<PurchaseView>)
      reads this
      ensures r.Some? ==> r.value.purchase in purchases && r.value.purchase.id == id
      ensures r.Some? && Truthy(userId) ==> r.value.purchase.userId == userId.value
      ensures r.None? <==> forall x :: x in purchases && x.id == id ==> Truthy(userId) && x.userId != userId.value
    {
      match FirstMatch(purchases, id, userId)
      case None => None
      case Some(p) => Some(View(details, p))
    }

    /** `findAllByUserId`: exactly the user's purchases, newest first. */
    function FindAllByUserId(userId: int): (r: seq<PurchaseView>)
      reads this
      requires Valid()
      ensures forall v :: v in r ==> v.purchase in purchases && v.purchase.userId == userId
      ensures forall p :: p in purchases && p.userId == userId ==> View(details, p) in r
      ensures forall v :: v in r ==> v == View(details, v.purchase)
      ensures forall i, j :: 0 <= i < j < |r| ==> r[i].purchase.id != r[j].purchase.id
      ensures forall i, j :: 0 <= i < j < |r| ==> r[i].purchase.purchaseDate >= r[j].purchase.purchaseDate
    {
      var ps := NewestFirst(purchases, Some(userId));
      NewestFirstOrdered(purchases, Some(userId));
      NewestFirstDistinct(purchases, Some(userId));
      ViewsMembers(details, ps);
      Views(details, ps)
    }

    /** `findAll`: every purchase, once, newest first. */
    function FindAll(): (r: seq<PurchaseView>)
      reads this
      requires Valid()
      ensures |r| == |purchases|
      ensures forall p :: p in purchases <==> View(details, p) in r
      ensures forall v :: v in r ==> v == View(details, v.purchase)
      ensures forall i, j :: 0 <= i < j < |r| ==> r[i].purchase.purchaseDate >= r[j].purchase.purchaseDate
    {
      var ps := NewestFirst(purchases, None);
      NewestFirstAllLength(purchases);
      NewestFirstOrdered(purchases, None);
      ViewsMembers(details, ps);
      Views(details, ps)
    }
  }
}
