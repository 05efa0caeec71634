/**
 * The `product_images` table and the repository that keeps the per-product
 * `isMainImage` flag: create, list, main-image lookup, set-main and delete.
 */
module ImageRepository {
  import opened Common

  /** The upload metadata an image row is created from. */
  datatype ImageData = ImageData(
    filename: string,
    originalName: string,
    mimetype: string,
    size: int,
    isMainImage: bool)

  /** A row of `product_images`; `createdAt` is the time the row was inserted. */
  datatype ProductImage = ProductImage(
    id: int,
    productId: int,
    filename: string,
    originalName: string,
    mimetype: string,
    size: int,
    isMainImage: bool,
    createdAt: int)

  datatype ImageError = ImageNotFound

  // ---------------------------------------------------------------------------
  // Properties of a table state

  /** No two rows share a primary key. */
  ghost predicate UniqueIds(rows: seq<ProductImage>)
  {
    forall i, j :: 0 <= i < j < |rows| ==> rows[i].id != rows[j].id
  }

  /** Rows are stored in insertion order, so their creation times never go down. */
  ghost predicate Chronological(rows: seq<ProductImage>)
  {
    forall i, j :: 0 <= i < j < |rows| ==> rows[i].createdAt <= rows[j].createdAt
  }

  /** No row was created after `now`. */
  ghost predicate NotAfter(rows: seq<ProductImage>, now: int)
  {
    forall i :: 0 <= i < |rows| ==> rows[i].createdAt <= now
  }

  /** At most one image of each product carries the main flag. */
  ghost predicate AtMostOneMain(rows: seq<ProductImage>)
  {
    forall i, j :: 0 <= i < j < |rows| && rows[i].isMainImage && rows[j].isMainImage ==>
      rows[i].productId != rows[j].productId
  }

  /** Some image of `productId` carries the main flag. */
  ghost predicate HasMain(rows: seq<ProductImage>, productId: int)
  {
    exists i :: 0 <= i < |rows| && rows[i].productId == productId && rows[i].isMainImage
  }

  /** Exactly one image of `productId` carries the main flag. */
  ghost predicate ExactlyOneMain(rows: seq<ProductImage>, productId: int)
  {
    && HasMain(rows, productId)
    && forall i, j :: 0 <= i < j < |rows| && rows[i].isMainImage && rows[j].isMainImage ==>
         rows[i].productId != productId || rows[j].productId != productId
  }

  /** The image `imageId` either belongs to `productId` or does not exist. */
  ghost predicate NotForeign(rows: seq<ProductImage>, imageId: int, productId: int)
  {
    forall i :: 0 <= i < |rows| && rows[i].id == imageId ==> rows[i].productId == productId
  }

  /** The images of `productId`, in storage order. */
  function ImagesOf(rows: seq<ProductImage>, productId: int): (r: seq<ProductImage>)
    ensures |r| <= |rows|
    ensures forall x :: x in r <==> x in rows && x.productId == productId
  {
    if rows == [] then []
    else
      var last := rows[|rows| - 1];
      ImagesOf(rows[..|rows| - 1], productId) + (if last.productId == productId then [last] else [])
  }

  // ---------------------------------------------------------------------------
  // The bulk updates and inserts the repository issues

  /** `UPDATE ... SET is_main_image = false WHERE product_id = productId`. */
  function ClearMain(rows: seq<ProductImage>, productId: int): (r: seq<ProductImage>)
    ensures |r| == |rows|
    ensures forall i :: 0 <= i < |r| ==> r[i].(isMainImage := rows[i].isMainImage) == rows[i]
    ensures forall i :: 0 <= i < |r| && rows[i].productId == productId ==> !r[i].isMainImage
    ensures forall i :: 0 <= i < |r| && rows[i].productId != productId ==> r[i] == rows[i]
  {
    seq(|rows|, i requires 0 <= i < |rows| =>
      if rows[i].productId == productId then rows[i].(isMainImage := false) else rows[i])
  }

  /** `UPDATE ... SET is_main_image = true WHERE id = imageId` (any product). */
  function MarkMain(rows: seq<ProductImage>, imageId: int): (r: seq<ProductImage>)
    ensures |r| == |rows|
    ensures forall i :: 0 <= i < |r| ==> r[i].(isMainImage := rows[i].isMainImage) == rows[i]
    ensures forall i :: 0 <= i < |r| && rows[i].id == imageId ==> r[i].isMainImage
    ensures forall i :: 0 <= i < |r| && rows[i].id != imageId ==> r[i] == rows[i]
  {
    seq(|rows|, i requires 0 <= i < |rows| =>
      if rows[i].id == imageId then rows[i].(isMainImage := true) else rows[i])
  }

  /** The rows after `setMainImage(imageId, productId)` as written: clear by product, set by id. */
  function SetMain(rows: seq<ProductImage>, imageId: int, productId: int): seq<ProductImage>
  {
    MarkMain(ClearMain(rows, productId), imageId)
  }

  /** The row `create` inserts. */
  function NewRow(id: int, productId: int, data: ImageData, now: int): ProductImage
  {
    ProductImage(id, productId, data.filename, data.originalName, data.mimetype, data.size,
                 data.isMainImage, now)
  }

  /** The rows after `create(productId, data)`: a main image first clears the product's flags. */
  function AddImage(rows: seq<ProductImage>, productId: int, data: ImageData, id: int, now: int)
    : seq<ProductImage>
  {
    (if data.isMainImage then ClearMain(rows, productId) else rows) + [NewRow(id, productId, data, now)]
  }

  /** `findOne({ where: { id, productId } })`: the index of the row, if it exists and is owned. */
  function OwnedIndex(rows: seq<ProductImage>, imageId: int, productId: int): (r: Option<nat>)
    ensures r.Some? ==> r.value < |rows| && rows[r.value].id == imageId && rows[r.value].productId == productId
    ensures r.None? ==> forall i :: 0 <= i < |rows| ==> rows[i].id != imageId || rows[i].productId != productId
  {
    if rows == [] then None
    else if rows[0].id == imageId && rows[0].productId == productId then Some(0)
    else match OwnedIndex(rows[1..], imageId, productId)
      case None => None
      case Some(k) => Some(k + 1)
  }

  /** `findOne({ where: { productId } })`: the first image of the product in storage order. */
  function FirstOf(rows: seq<ProductImage>, productId: int): (r: Option<nat>)
    ensures r.Some? ==> r.value < |rows| && rows[r.value].productId == productId
    ensures r.Some? ==> forall i :: 0 <= i < r.value ==> rows[i].productId != productId
    ensures r.None? ==> forall i :: 0 <= i < |rows| ==> rows[i].productId != productId
  {
    if rows == [] then None
    else if rows[0].productId == productId then Some(0)
    else match FirstOf(rows[1..], productId)
      case None => None
      case Some(k) => Some(k + 1)
  }

  /** `image.destroy()` on the row at index `k`. */
  function RemoveAt(rows: seq<ProductImage>, k: nat): (r: seq<ProductImage>)
    requires k < |rows|
    ensures |r| == |rows| - 1
    ensures forall i :: 0 <= i < k ==> r[i] == rows[i]
    ensures forall i :: k <= i < |r| ==> r[i] == rows[i + 1]
  {
    rows[..k] + rows[k + 1..]
  }

  /**
   * The rows after `delete(imageId, productId)`: `ImageNotFound` when the product owns no
   * such image; otherwise the row is removed and, if it was the main image, the first
   * remaining image of the product is made main.
   */
  function Deleted(rows: seq<ProductImage>, imageId: int, productId: int)
    : Result<seq<ProductImage>, ImageError>
  {
    match OwnedIndex(rows, imageId, productId)
    case None => Err(ImageNotFound)
    case Some(k) =>
      var rest := RemoveAt(rows, k);
      if !rows[k].isMainImage then Ok(rest)
      else match FirstOf(rest, productId)
        case None => Ok(rest)
        case Some(j) => Ok(SetMain(rest, rest[j].id, productId))
  }

  // ---------------------------------------------------------------------------
  // The listing order

  /** The images of `productId` whose flag is `main`, newest (last stored) first. */
  function NewestFirst(rows: seq<ProductImage>, productId: int, main: bool): (r: seq<ProductImage>)
    ensures forall x :: x in r ==> x in rows && x.productId == productId && x.isMainImage == main
  {
    if rows == [] then []
    else
      var last := rows[|rows| - 1];
      var older := NewestFirst(rows[..|rows| - 1], productId, main);
      if last.productId == productId && last.isMainImage == main then
        assert forall x :: x in older ==> x in rows[..|rows| - 1];
        [last] + older
      else older
  }

  /** Creation times never go up along `r`. */
  ghost predicate NewestCreatedFirst(r: seq<ProductImage>)
  {
    forall i, j :: 0 <= i < j < |r| ==> r[i].createdAt >= r[j].createdAt
  }

  /** Over rows stored in creation order, each half of the listing is newest first. */
  lemma {:induction false} NewestFirstOrdered(rows: seq<ProductImage>, productId: int, main: bool)
    requires Chronological(rows)
    ensures NewestCreatedFirst(NewestFirst(rows, productId, main))
  {
    if rows != [] {
      var init := rows[..|rows| - 1];
      var last := rows[|rows| - 1];
      var older := NewestFirst(init, productId, main);
      forall i, j | 0 <= i < j < |init| ensures init[i].createdAt <= init[j].createdAt {
        assert init[i] == rows[i] && init[j] == rows[j];
      }
      NewestFirstOrdered(init, productId, main);
      forall x | x in older ensures x.createdAt <= last.createdAt {
        var k :| 0 <= k < |init| && init[k] == x;
        assert rows[k] == x;
      }
      if last.productId == productId && last.isMainImage == main {
        var r := [last] + older;
        assert NewestFirst(rows, productId, main) == r;
        assert forall k :: 0 < k < |r| ==> r[k] == older[k - 1];
        forall i, j | 0 <= i < j < |r| ensures r[i].createdAt >= r[j].createdAt {
          assert r[j] in older;
          if i > 0 {
            assert older[i - 1].createdAt >= older[j - 1].createdAt;
          }
        }
      } else {
        assert NewestFirst(rows, productId, main) == older;
      }
    }
  }

  /** The order `is_main_image DESC, created_at DESC`. */
  ghost predicate MainFirstNewestFirst(r: seq<ProductImage>)
  {
    forall i, j :: 0 <= i < j < |r| ==>
      (r[i].isMainImage && !r[j].isMainImage)
      || (r[i].isMainImage == r[j].isMainImage && r[i].createdAt >= r[j].createdAt)
  }

  /** The two halves of the listing together hold exactly the product's images. */
  lemma {:induction false} SplitByFlag(rows: seq<ProductImage>, productId: int)
    ensures multiset(NewestFirst(rows, productId, true)) + multiset(NewestFirst(rows, productId, false))
         == multiset(ImagesOf(rows, productId))
  {
    if rows != [] {
      SplitByFlag(rows[..|rows| - 1], productId);
    }
  }

  /** `findByProductId`: the product's images, main first, then newest first. */
  function FindByProductId(rows: seq<ProductImage>, productId: int): (r: seq<ProductImage>)
    ensures multiset(r) == multiset(ImagesOf(rows, productId))
    ensures forall x :: x in r <==> x in rows && x.productId == productId
  {
    var mains := NewestFirst(rows, productId, true);
    var others := NewestFirst(rows, productId, false);
    SplitByFlag(rows, productId);
    assert forall x :: x in mains + others <==> x in multiset(ImagesOf(rows, productId));
    mains + others
  }

  /** Over rows stored in creation order, the listing is main first, then newest first. */
  lemma FindByProductIdOrdered(rows: seq<ProductImage>, productId: int)
    requires Chronological(rows)
    ensures MainFirstNewestFirst(FindByProductId(rows, productId))
  {
    var mains := NewestFirst(rows, productId, true);
    var others := NewestFirst(rows, productId, false);
    NewestFirstOrdered(rows, productId, true);
    NewestFirstOrdered(rows, productId, false);
    var r := mains + others;
    assert FindByProductId(rows, productId) == r;
    forall i, j | 0 <= i < j < |r|
      ensures (r[i].isMainImage && !r[j].isMainImage)
           || (r[i].isMainImage == r[j].isMainImage && r[i].createdAt >= r[j].createdAt)
    {
      if j < |mains| {
        assert r[i] == mains[i] && r[j] == mains[j];
      } else if i >= |mains| {
        assert r[i] == others[i - |mains|] && r[j] == others[j - |mains|];
      } else {
        assert r[i] == mains[i] && r[i] in mains;
        assert r[j] == others[j - |mains|] && r[j] in others;
      }
    }
  }

  /** `getMainImage`: the first main image of the product in storage order. */
  function FirstMain(rows: seq<ProductImage>, productId: int): (r: Option<ProductImage>)
    ensures r.Some? ==> r.value in rows && r.value.productId == productId && r.value.isMainImage
    ensures r.None? <==> !HasMain(rows, productId)
  {
    if rows == [] then None
    else if rows[0].productId == productId && rows[0].isMainImage then Some(rows[0])
    else
      var r := FirstMain(rows[1..], productId);
      assert HasMain(rows[1..], productId) ==> HasMain(rows, productId);
      assert HasMain(rows, productId) ==> HasMain(rows[1..], productId) by {
        if HasMain(rows, productId) {
          var i :| 0 <= i < |rows| && rows[i].productId == productId && rows[i].isMainImage;
          assert rows[1..][i - 1] == rows[i];
        }
      }
      r
  }

  // ---------------------------------------------------------------------------
  // The repository object

  /** The repository over the `product_images` rows, in storage order. */
  class ProductImageRepository {
    var rows: seq<ProductImage>
    var nextId: int

    /** Ids are unique and below the auto-increment counter; rows are in creation order. */
    ghost predicate Valid()
      reads this
    {
      && nextId >= 1
      && UniqueIds(rows)
      && (forall i :: 0 <= i < |rows| ==> 1 <= rows[i].id < nextId)
      && Chronological(rows)
    }

    constructor ()
      ensures Valid() && rows == [] && nextId == 1
    {
      rows := [];
      nextId := 1;
    }

    /**
     * `create(productId, imageData)`: inserts one row under the next id, created at `now`
     * (the clock never runs backwards); a main image first clears the product's other flags.
     */
    method Create(productId: int, data: ImageData, now: int) returns (image: ProductImage)
      requires Valid() && NotAfter(rows, now)
      modifies this
      ensures Valid() && nextId == old(nextId) + 1
      ensures image == NewRow(old(nextId), productId, data, now)
      ensures rows == AddImage(old(rows), productId, data, old(nextId), now)
    {
      if data.isMainImage {
        rows := ClearMain(rows, productId);
      }
      image := NewRow(nextId, productId, data, now);
      rows := rows + [image];
      nextId := nextId + 1;
    }

    /** `findByProductId` on the current rows. */
    function FindByProduct(productId: int): (r: seq<ProductImage>)
      reads this
      requires Valid()
      ensures MainFirstNewestFirst(r)
      ensures multiset(r) == multiset(ImagesOf(rows, productId))
      ensures forall x :: x in r <==> x in rows && x.productId == productId
    {
      FindByProductIdOrdered(rows, productId);
      FindByProductId(rows, productId)
    }

    /** `getMainImage` on the current rows; with at most one main image it is the main image. */
    function GetMainImage(productId: int): (r: Option<ProductImage>)
      reads this
      ensures r.None? <==> !HasMain(rows, productId)
      ensures r.Some? ==> r.value in rows && r.value.productId == productId && r.value.isMainImage
      ensures r.Some? && AtMostOneMain(rows) ==>
        forall i :: 0 <= i < |rows| && rows[i].productId == productId && rows[i].isMainImage ==> rows[i] == r.value
    {
      FirstMain(rows, productId)
    }

    /** `setMainImage(imageId, productId)` as written: clears by product, sets by id alone. */
    method SetMainImage(imageId: int, productId: int)
      requires Valid()
      modifies this
      ensures Valid() && nextId == old(nextId)
      ensures rows == SetMain(old(rows), imageId, productId)
    {
      rows := ClearMain(rows, productId);
      rows := MarkMain(rows, imageId);
    }

    /** `setMainImage` with the flag set `where: { id: imageId, productId }`. */
    method SetMainImageScoped(imageId: int, productId: int)
      requires Valid()
      modifies this
      ensures Valid() && nextId == old(nextId)
      ensures rows == ScopedSetMain(old(rows), imageId, productId)
      ensures AtMostOneMain(old(rows)) ==> AtMostOneMain(rows)
    {
      rows := ClearMain(rows, productId);
      rows := MarkOwnedMain(rows, imageId, productId);
      if AtMostOneMain(old(rows)) {
        ScopedSetMainKeepsOneMain(old(rows), imageId, productId);
      }
    }

    /**
     * `delete(imageId, productId)`: fails with `ImageNotFound`, changing nothing, unless the
     * product owns the image; otherwise destroys the row and, if it was main, promotes the
     * first remaining image of the product through `setMainImage`.
     */
    method Delete(imageId: int, productId: int) returns (r: Result<bool, ImageError>)
      requires Valid()
      modifies this
      ensures Valid() && nextId == old(nextId)
      ensures r.Err? <==> Deleted(old(rows), imageId, productId).Err?
      ensures r.Err? ==> r.error == ImageNotFound && rows == old(rows)
      ensures r.Ok? ==> r.value && rows == Deleted(old(rows), imageId, productId).value
    {
      var found := OwnedIndex(rows, imageId, productId);
      if found.None? {
        return Err(ImageNotFound);
      }
      var k := found.value;
      var wasMain := rows[k].isMainImage;
      var rest := RemoveAt(rows, k);
      RemoveKeepsOrder(rows, k);
      rows := rest;
      if wasMain {
        var next := FirstOf(rest, productId);
        if next.Some? {
          SetMainImage(rest[next.value].id, productId);
        }
      }
      return Ok(true);
    }
  }

  /** `UPDATE ... SET is_main_image = true WHERE id = imageId AND product_id = productId`. */
  function MarkOwnedMain(rows: seq<ProductImage>, imageId: int, productId: int): (r: seq<ProductImage>)
    ensures |r| == |rows|
    ensures forall i :: 0 <= i < |r| ==> r[i].(isMainImage := rows[i].isMainImage) == rows[i]
    ensures forall i :: 0 <= i < |r| && rows[i].id == imageId && rows[i].productId == productId ==> r[i].isMainImage
    ensures forall i :: 0 <= i < |r| && (rows[i].id != imageId || rows[i].productId != productId) ==> r[i] == rows[i]
  {
    seq(|rows|, i requires 0 <= i < |rows| =>
      if rows[i].id == imageId && rows[i].productId == productId then rows[i].(isMainImage := true)
      else rows[i])
  }

  /** The rows after the scoped `setMainImage`. */
  function ScopedSetMain(rows: seq<ProductImage>, imageId: int, productId: int): seq<ProductImage>
  {
    MarkOwnedMain(ClearMain(rows, productId), imageId, productId)
  }

  // ---------------------------------------------------------------------------
  // What each operation does to the main flags

  /** The images of a product, counted, depend only on which rows belong to it. */
  lemma {:induction false} SameOwnersSameCount(a: seq<ProductImage>, b: seq<ProductImage>, productId: int)
    requires |a| == |b|
    requires forall i :: 0 <= i < |a| ==> a[i].productId == b[i].productId
    ensures |ImagesOf(a, productId)| == |ImagesOf(b, productId)|
  {
    if a != [] {
      SameOwnersSameCount(a[..|a| - 1], b[..|b| - 1], productId);
    }
  }

  /**
   * `create`: a main image ends up the only main image of its product, a non-main image
   * leaves every earlier flag as it was, no other product's rows change, the product has
   * exactly one image more, and at most one main image per product is kept where it held.
   */
  lemma AddImageEffect(rows: seq<ProductImage>, productId: int, data: ImageData, id: int, now: int)
    ensures var r := AddImage(rows, productId, data, id, now);
      && |r| == |rows| + 1
      && r[|rows|] == NewRow(id, productId, data, now)
      && (AtMostOneMain(rows) ==> AtMostOneMain(r))
      && (data.isMainImage ==> ExactlyOneMain(r, productId))
      && (!data.isMainImage ==> r[..|rows|] == rows)
      && (forall i :: 0 <= i < |rows| && rows[i].productId != productId ==> r[i] == rows[i])
      && |ImagesOf(r, productId)| == |ImagesOf(rows, productId)| + 1
  {
    var r := AddImage(rows, productId, data, id, now);
    var before := if data.isMainImage then ClearMain(rows, productId) else rows;
    assert r[..|rows|] == before;
    SameOwnersSameCount(before, rows, productId);
    if data.isMainImage {
      assert r[|rows|].productId == productId && r[|rows|].isMainImage;
    }
  }

  /** Creating one image keeps at most one main image per product. */
  lemma AddImageKeepsOneMain(rows: seq<ProductImage>, productId: int, data: ImageData, id: int, now: int)
    requires AtMostOneMain(rows)
    ensures AtMostOneMain(AddImage(rows, productId, data, id, now))
  {
    AddImageEffect(rows, productId, data, id, now);
  }

  /** A product none of whose rows exist has no images. */
  lemma {:induction false} NoImagesOf(rows: seq<ProductImage>, productId: int)
    requires forall i :: 0 <= i < |rows| ==> rows[i].productId != productId
    ensures ImagesOf(rows, productId) == []
  {
    if rows != [] {
      NoImagesOf(rows[..|rows| - 1], productId);
    }
  }

  /** Adding a non-main image to a product without images leaves it with an image but no main image. */
  lemma NonMainImageLeavesNoMain(rows: seq<ProductImage>, productId: int, data: ImageData, id: int, now: int)
    requires forall i :: 0 <= i < |rows| ==> rows[i].productId != productId
    requires !data.isMainImage
    ensures var r := AddImage(rows, productId, data, id, now);
      |ImagesOf(r, productId)| == 1 && !HasMain(r, productId)
  {
    var r := AddImage(rows, productId, data, id, now);
    assert r[..|rows|] == rows;
    NoImagesOf(rows, productId);
  }

  /**
   * `setMainImage`, for any arguments: afterwards no image of `productId` other than
   * `imageId` is main, and `imageId` is main if it exists.
   */
  lemma SetMainEffect(rows: seq<ProductImage>, imageId: int, productId: int)
    ensures var r := SetMain(rows, imageId, productId);
      && |r| == |rows|
      && (forall i :: 0 <= i < |r| && r[i].productId == productId && r[i].id != imageId ==> !r[i].isMainImage)
      && (forall i :: 0 <= i < |r| && rows[i].id == imageId ==> r[i].isMainImage)
  {
  }

  /**
   * `setMainImage` with an image the product owns keeps at most one main image per product
   * and leaves that image the product's only main image.
   */
  lemma SetOwnedMainKeepsOneMain(rows: seq<ProductImage>, imageId: int, productId: int)
    requires UniqueIds(rows) && AtMostOneMain(rows) && NotForeign(rows, imageId, productId)
    ensures AtMostOneMain(SetMain(rows, imageId, productId))
    ensures (exists i :: 0 <= i < |rows| && rows[i].id == imageId) ==>
      ExactlyOneMain(SetMain(rows, imageId, productId), productId)
  {
    var c := ClearMain(rows, productId);
    var r := MarkMain(c, imageId);
    forall i, j | 0 <= i < j < |r| && r[i].isMainImage && r[j].isMainImage
      ensures r[i].productId != r[j].productId
    {
      if r[i].productId == productId {
        assert rows[i].id == imageId;
      } else {
        assert rows[i].isMainImage;
      }
      if r[j].productId == productId {
        assert rows[j].id == imageId;
      } else {
        assert rows[j].isMainImage;
      }
    }
  }

  /** With an image id that no row has, `setMainImage` leaves the product without a main image. */
  lemma SetMissingMainClearsAll(rows: seq<ProductImage>, imageId: int, productId: int)
    requires forall i :: 0 <= i < |rows| ==> rows[i].id != imageId
    ensures !HasMain(SetMain(rows, imageId, productId), productId)
  {
    var r := SetMain(rows, imageId, productId);
    assert forall i :: 0 <= i < |r| && r[i].productId == productId ==> !r[i].isMainImage;
  }

  /**
   * `setMainImage` as written, given another product's image: the other product, which
   * already had a main image, ends up with two.
   */
  lemma ForeignImageGivesSecondMain()
    ensures var rows := [ProductImage(1, 1, "a.jpg", "a.jpg", "image/jpeg", 10, true, 0),
                         ProductImage(2, 1, "b.jpg", "b.jpg", "image/jpeg", 10, false, 0)];
      && UniqueIds(rows) && AtMostOneMain(rows)
      && !AtMostOneMain(SetMain(rows, 2, 3))
  {
    var rows := [ProductImage(1, 1, "a.jpg", "a.jpg", "image/jpeg", 10, true, 0),
                 ProductImage(2, 1, "b.jpg", "b.jpg", "image/jpeg", 10, false, 0)];
    var r := SetMain(rows, 2, 3);
    assert r[0].isMainImage && r[1].isMainImage && r[0].productId == r[1].productId;
  }

  /** The scoped `setMainImage` keeps at most one main image per product for any arguments. */
  lemma ScopedSetMainKeepsOneMain(rows: seq<ProductImage>, imageId: int, productId: int)
    requires UniqueIds(rows) && AtMostOneMain(rows)
    ensures AtMostOneMain(ScopedSetMain(rows, imageId, productId))
    ensures (exists i :: 0 <= i < |rows| && rows[i].id == imageId && rows[i].productId == productId) ==>
      ExactlyOneMain(ScopedSetMain(rows, imageId, productId), productId)
  {
    var c := ClearMain(rows, productId);
    var r := MarkOwnedMain(c, imageId, productId);
    forall i, j | 0 <= i < j < |r| && r[i].isMainImage && r[j].isMainImage
      ensures r[i].productId != r[j].productId
    {
      if r[i].productId == productId {
        assert rows[i].id == imageId;
      } else {
        assert rows[i].isMainImage;
      }
      if r[j].productId == productId {
        assert rows[j].id == imageId;
      } else {
        assert rows[j].isMainImage;
      }
    }
  }

  /** `delete` fails exactly when the product owns no image with that id. */
  lemma DeleteFailsIffNotOwned(rows: seq<ProductImage>, imageId: int, productId: int)
    ensures Deleted(rows, imageId, productId).Err? <==>
      forall i :: 0 <= i < |rows| ==> rows[i].id != imageId || rows[i].productId != productId
  {
  }

  /** Deleting a non-main image removes only that row and leaves every other flag as it was. */
  lemma DeleteNonMainRemovesOnlyIt(rows: seq<ProductImage>, k: nat, productId: int)
    requires UniqueIds(rows) && k < |rows| && rows[k].productId == productId && !rows[k].isMainImage
    ensures Deleted(rows, rows[k].id, productId) == Ok(rows[..k] + rows[k + 1..])
  {
    var found := OwnedIndex(rows, rows[k].id, productId);
    assert found.Some? && found.value == k;
  }

  /**
   * Deleting the main image of a product that keeps at least one image leaves exactly one of
   * the remaining images main, even when the product had several, and keeps at most one main
   * image per product wherever that held before.
   */
  lemma DeleteMainPromotesOne(rows: seq<ProductImage>, k: nat, productId: int)
    requires UniqueIds(rows)
    requires k < |rows| && rows[k].productId == productId && rows[k].isMainImage
    requires exists i :: 0 <= i < |rows| && i != k && rows[i].productId == productId
    ensures Deleted(rows, rows[k].id, productId).Ok?
    ensures AtMostOneMain(rows) ==> AtMostOneMain(Deleted(rows, rows[k].id, productId).value)
    ensures ExactlyOneMain(Deleted(rows, rows[k].id, productId).value, productId)
  {
    var found := OwnedIndex(rows, rows[k].id, productId);
    assert found.Some? && found.value == k;
    var rest := RemoveAt(rows, k);
    var i :| 0 <= i < |rows| && i != k && rows[i].productId == productId;
    assert rest[if i < k then i else i - 1] == rows[i];
    var next := FirstOf(rest, productId);
    assert next.Some?;
    var j := next.value;
    forall a, b | 0 <= a < b < |rest| ensures rest[a].id != rest[b].id {
      assert rest[a] == rows[if a < k then a else a + 1];
      assert rest[b] == rows[if b < k then b else b + 1];
    }
    var r := SetMain(rest, rest[j].id, productId);
    assert Deleted(rows, rows[k].id, productId) == Ok(r);
    SetMainEffect(rest, rest[j].id, productId);
    assert r[j].productId == productId && r[j].isMainImage;
    if AtMostOneMain(rows) {
      RemoveKeepsProperties(rows, k);
      SetOwnedMainKeepsOneMain(rest, rest[j].id, productId);
    }
  }

  /** Every `delete` that succeeds keeps at most one main image per product. */
  lemma DeleteKeepsOneMain(rows: seq<ProductImage>, imageId: int, productId: int)
    requires UniqueIds(rows) && AtMostOneMain(rows)
    requires Deleted(rows, imageId, productId).Ok?
    ensures AtMostOneMain(Deleted(rows, imageId, productId).value)
  {
    var k := OwnedIndex(rows, imageId, productId).value;
    var rest := RemoveAt(rows, k);
    RemoveKeepsProperties(rows, k);
    var next := FirstOf(rest, productId);
    if rows[k].isMainImage && next.Some? {
      var id := rest[next.value].id;
      assert Deleted(rows, imageId, productId) == Ok(SetMain(rest, id, productId));
      SetOwnedMainKeepsOneMain(rest, id, productId);
    } else {
      assert Deleted(rows, imageId, productId) == Ok(rest);
    }
  }

  /** Removing a row keeps ids unique, their bounds, and creation order. */
  lemma RemoveKeepsOrder(rows: seq<ProductImage>, k: nat)
    requires k < |rows| && UniqueIds(rows) && Chronological(rows)
    ensures UniqueIds(RemoveAt(rows, k)) && Chronological(RemoveAt(rows, k))
    ensures forall i :: 0 <= i < |RemoveAt(rows, k)| ==> RemoveAt(rows, k)[i] in rows
  {
    var r := RemoveAt(rows, k);
    forall i | 0 <= i < |r| ensures r[i] == rows[if i < k then i else i + 1] {
    }
  }

  /** Removing a row keeps ids unique and at most one main image per product. */
  lemma RemoveKeepsProperties(rows: seq<ProductImage>, k: nat)
    requires k < |rows| && UniqueIds(rows) && AtMostOneMain(rows)
    ensures UniqueIds(RemoveAt(rows, k)) && AtMostOneMain(RemoveAt(rows, k))
  {
    var r := RemoveAt(rows, k);
    forall i, j | 0 <= i < j < |r| ensures r[i].id != r[j].id {
      assert r[i] == rows[if i < k then i else i + 1];
      assert r[j] == rows[if j < k then j else j + 1];
    }
    forall i, j | 0 <= i < j < |r| && r[i].isMainImage && r[j].isMainImage
      ensures r[i].productId != r[j].productId
    {
      assert r[i] == rows[if i < k then i else i + 1];
      assert r[j] == rows[if j < k then j else j + 1];
    }
  }
}
