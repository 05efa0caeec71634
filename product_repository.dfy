/** Catalog queries and row updates on the `products` table. */
module ProductRepository {
  import opened Common
  import opened ProductModel

  /** The columns a product update may set. */
  datatype ProductField = BatchNumber | Name | Price | AvailableQuantity | EntryDate | CategoryId

  /** A JavaScript field value as the request body delivers it; `Number` prices are in cents. */
  datatype JsValue = Undefined | Text(text: string) | Number(number: int)

  /** The fields of `productData` that an update sets, with their values. */
  type ProductPatch = map<ProductField, JsValue>

  /** The kind of value each column takes: text columns take `Text`, numeric ones `Number`. */
  predicate FitsField(f: ProductField, v: JsValue)
  {
    match f
    case BatchNumber | Name | EntryDate => v.Text?
    case Price | AvailableQuantity | CategoryId => v.Number?
  }

  /** A patch as `update` receives it: no `undefined` entry, every value of its column's kind. */
  predicate WellTyped(patch: ProductPatch)
  {
    forall f :: f in patch ==> FitsField(f, patch[f])
  }

  /** The value a product holds in a column, as a patch would carry it; no category is `Undefined`. */
  function FieldOf(p: Product, f: ProductField): JsValue
  {
    match f
    case BatchNumber => Text(p.batchNumber)
    case Name => Text(p.name)
    case Price => Number(p.price)
    case AvailableQuantity => Number(p.availableQuantity)
    case EntryDate => Text(p.entryDate)
    case CategoryId => if p.categoryId.Some? then Number(p.categoryId.value) else Undefined
  }

  /** `product.update(productData)`: the id and the active flag do not change. */
  function ApplyPatch(p: Product, patch: ProductPatch): (r: Product)
    requires WellTyped(patch)
    ensures r.id == p.id && r.active == p.active
  {
    p.(batchNumber := if BatchNumber in patch then patch[BatchNumber].text else p.batchNumber,
       name := if Name in patch then patch[Name].text else p.name,
       price := if Price in patch then patch[Price].number else p.price,
       availableQuantity := if AvailableQuantity in patch then patch[AvailableQuantity].number
                            else p.availableQuantity,
       entryDate := if EntryDate in patch then patch[EntryDate].text else p.entryDate,
       categoryId := if CategoryId in patch then Some(patch[CategoryId].number) else p.categoryId)
  }

  /** After an update each column named by the patch holds the patch's value and every other column keeps its value. */
  lemma ApplyPatchFields(p: Product, patch: ProductPatch)
    requires WellTyped(patch)
    ensures forall f :: f in patch ==> FieldOf(ApplyPatch(p, patch), f) == patch[f]
    ensures forall f :: f !in patch ==> FieldOf(ApplyPatch(p, patch), f) == FieldOf(p, f)
  {
    var r := ApplyPatch(p, patch);
    forall f ensures FieldOf(r, f) == if f in patch then patch[f] else FieldOf(p, f) {
      if f in patch {
        assert FitsField(f, patch[f]);
      }
    }
  }

  /** Applying the same patch twice is the same as applying it once. */
  lemma PatchIdempotent(p: Product, patch: ProductPatch)
    requires WellTyped(patch)
    ensures ApplyPatch(ApplyPatch(p, patch), patch) == ApplyPatch(p, patch)
  {
  }

  /** `update`: `None` and no change for an unknown id; otherwise the patched row, written back. */
  method Update(t: ProductTable, id: int, patch: ProductPatch) returns (r: Option<Product>)
    requires t.Valid() && WellTyped(patch)
    modifies t
    ensures t.Valid() && t.nextId == old(t.nextId)
    ensures r.None? <==> id !in old(t.rows)
    ensures r.None? ==> t.rows == old(t.rows)
    ensures r.Some? ==> r.value == ApplyPatch(old(t.rows)[id], patch) && t.rows == old(t.rows)[id := r.value]
  {
    var found := t.FindByPk(id);
    if found.None? {
      return None;
    }
    var updated := ApplyPatch(found.value, patch);
    t.rows := t.rows[id := updated];
    return Some(updated);
  }

  /** The rows after the soft delete of `id`: only its `active` flag becomes false. */
  function Retired(rows: map<int, Product>, id: int): (r: map<int, Product>)
    requires id in rows
    ensures r.Keys == rows.Keys
    ensures !r[id].active && r[id].(active := rows[id].active) == rows[id]
    ensures forall k :: k in rows && k != id ==> r[k] == rows[k]
  {
    rows[id := rows[id].(active := false)]
  }

  /** Removing a product twice leaves the same rows as removing it once. */
  lemma RetireIdempotent(rows: map<int, Product>, id: int)
    requires id in rows
    ensures Retired(Retired(rows, id), id) == Retired(rows, id)
  {
  }

  /** `remove`: the soft delete. `None` and no change for an unknown id. */
  method Remove(t: ProductTable, id: int) returns (r: Option<Product>)
    requires t.Valid()
    modifies t
    ensures t.Valid() && t.nextId == old(t.nextId)
    ensures r.None? <==> id !in old(t.rows)
    ensures r.None? ==> t.rows == old(t.rows)
    ensures r.Some? ==> t.rows == Retired(old(t.rows), id) && r.value == t.rows[id]
  {
    var found := t.FindByPk(id);
    if found.None? {
      return None;
    }
    t.rows := Retired(t.rows, id);
    return Some(t.rows[id]);
  }

  // ---------------------------------------------------------------------------
  // Listing with pagination

  /**
   * The ids of the active products among `1..top`, newest (highest id) first. Ids are
   * handed out in creation order, so this is the order `created_at DESC`.
   */
  function ActiveIdsDesc(rows: map<int, Product>, top: int): (r: seq<int>)
    decreases top
    ensures forall i :: 0 <= i < |r| ==> 1 <= r[i] <= top && r[i] in rows && rows[r[i]].active
    ensures forall i, j :: 0 <= i < j < |r| ==> r[i] > r[j]
    ensures forall id :: 1 <= id <= top && id in rows && rows[id].active ==> id in r
  {
    if top < 1 then []
    else if top in rows && rows[top].active then [top] + ActiveIdsDesc(rows, top - 1)
    else ActiveIdsDesc(rows, top - 1)
  }

  /**
   * The offset of a page, `(max(1, page) - 1) * limit`. `page` and `limit` are the numbers
   * the controller parsed, with `NaN` as `None`; `NaN` in either makes the offset `NaN`.
   * Pages below 1 are read as page 1.
   */
  function Offset(page: Option<int>, limit: Option<int>): (r: Option<int>)
    ensures r.None? <==> page.None? || limit.None?
    ensures r.Some? && page.value <= 1 ==> r.value == 0
    ensures r.Some? && page.value >= 1 ==> r.value == (page.value - 1) * limit.value
    ensures r.Some? && limit.value >= 0 ==> r.value >= 0
  {
    if page.None? || limit.None? then None
    else if page.value <= 1 then Some(0)
    else
      var n := (page.value - 1) * limit.value;
      if limit.value >= 0 then MulNonNegative(page.value - 1, limit.value); Some(n) else Some(n)
  }

  /** `totalPages` as JavaScript computes it: a whole number, or `Infinity` after dividing by 0. */
  datatype PageCount = Pages(n: nat) | Infinite

  /** `Math.ceil(count / limit)`, and 0 for an empty table. */
  function TotalPages(count: nat, limit: nat): (r: PageCount)
    ensures count == 0 ==> r == Pages(0)
    ensures count > 0 && limit == 0 ==> r == Infinite
    ensures limit > 0 ==> r.Pages? && (r.n == 0 <==> count == 0)
    ensures limit > 0 && r.n > 0 ==> (r.n - 1) * limit < count <= r.n * limit
  {
    if count == 0 then Pages(0)
    else if limit == 0 then Infinite
    else Pages((count + limit - 1) / limit)
  }

  /** The rows `[offset, offset + limit)` of a listing; empty past its end. */
  function Window<T>(s: seq<T>, offset: nat, limit: nat): (r: seq<T>)
    ensures |r| <= limit
    ensures forall i :: 0 <= i < |r| ==> offset + i < |s| && r[i] == s[offset + i]
    ensures |r| == if offset >= |s| then 0 else if offset + limit <= |s| then limit else |s| - offset
  {
    if offset >= |s| then [] else s[offset..if offset + limit <= |s| then offset + limit else |s|]
  }

  /** What `findAll` returns: a page of items plus the figures the response reports. */
  datatype Page = Page(items: seq<Product>, total: nat, page: int, limit: nat, totalPages: PageCount)

  /** A `LIMIT` or `OFFSET` the database refuses: negative, or `NaN`. */
  datatype PageError = InvalidWindow

  /** All active products, newest first. */
  function Listing(t: ProductTable): (r: seq<Product>)
    reads t
    requires t.Valid()
    ensures forall i :: 0 <= i < |r| ==> r[i].active && r[i].id in t.rows && t.rows[r[i].id] == r[i]
    ensures forall i, j :: 0 <= i < j < |r| ==> r[i].id > r[j].id
    ensures forall id :: id in t.rows && t.rows[id].active ==> t.rows[id] in r
  {
    var rows := t.rows;
    var ids := ActiveIdsDesc(rows, t.nextId - 1);
    var r := seq(|ids|, i requires 0 <= i < |ids| => rows[ids[i]]);
    assert forall id :: id in rows && rows[id].active ==> rows[id] in r by {
      forall id | id in rows && rows[id].active ensures rows[id] in r {
        var i :| 0 <= i < |ids| && ids[i] == id;
        assert r[i] == rows[id];
      }
    }
    r
  }

  /**
   * `findAll`: the `page`-th window of `limit` active products, newest first. `page` is
   * reported as given, although the offset reads a page below 1 as page 1. A `NaN` page or
   * limit, or a negative limit, reaches the query unchecked and is refused there. A limit of 0
   * gives an empty page whose `totalPages` is `Infinity` unless there are no products.
   */
  function FindAll(t: ProductTable, page: Option<int>, limit: Option<int>): (r: Result<Page, PageError>)
    reads t
    requires t.Valid()
    ensures r.Err? <==> page.None? || limit.None? || limit.value < 0
    ensures r.Err? ==> r.error == InvalidWindow
    ensures r.Ok? ==> r.value.page == page.value && r.value.limit == limit.value && r.value.total == |Listing(t)|
    ensures r.Ok? ==> r.value.totalPages == TotalPages(r.value.total, limit.value)
    ensures r.Ok? ==> r.value.items == Window(Listing(t), Offset(page, limit).value, limit.value)
  {
    var offset := Offset(page, limit);
    if offset.None? || limit.value < 0 then Err(InvalidWindow)
    else
      var all := Listing(t);
      Ok(Page(Window(all, offset.value, limit.value), |all|, page.value, limit.value, TotalPages(|all|, limit.value)))
  }

  /** With a positive limit, a page in `1..totalPages` is non-empty and a page past it is empty. */
  lemma PageNonEmptyIffInRange(t: ProductTable, page: int, limit: int)
    requires t.Valid() && limit > 0 && page >= 1
    ensures var r := FindAll(t, Some(page), Some(limit));
      r.Ok? && r.value.totalPages.Pages? && (|r.value.items| > 0 <==> page <= r.value.totalPages.n)
  {
    var r := FindAll(t, Some(page), Some(limit)).value;
    var n := r.total;
    var pages := r.totalPages.n;
    if page <= pages {
      assert (page - 1) * limit <= (pages - 1) * limit by {
        MulMonotone(page - 1, pages - 1, limit);
      }
    } else if n > 0 {
      assert pages * limit <= (page - 1) * limit by {
        MulMonotone(pages, page - 1, limit);
      }
    }
  }

  /** A limit of 0 lists nothing and reports `Infinity` pages as soon as one product is active. */
  lemma ZeroLimitListsNothing(t: ProductTable, page: int)
    requires t.Valid()
    ensures var r := FindAll(t, Some(page), Some(0));
      && r.Ok? && r.value.items == []
      && (r.value.totalPages == Infinite <==> exists id :: id in t.rows && t.rows[id].active)
  {
    var all := Listing(t);
    if |all| > 0 {
      assert all[0].id in t.rows && t.rows[all[0].id].active;
    }
    if exists id :: id in t.rows && t.rows[id].active {
      var id :| id in t.rows && t.rows[id].active;
      assert t.rows[id] in all;
    }
  }

  /** Consecutive pages continue one another: page `p + 1` starts where page `p` ends. */
  lemma PagesAreConsecutive(page: int, limit: int)
    requires page >= 1
    ensures Offset(Some(page + 1), Some(limit)).value == Offset(Some(page), Some(limit)).value + limit
  {
  }

  lemma MulNonNegative(a: int, b: int)
    requires a >= 0 && b >= 0
    ensures a * b >= 0
  {
  }

  lemma MulMonotone(a: int, b: int, c: int)
    requires 0 <= a <= b && c >= 0
    ensures a * c <= b * c
  {
  }
}
