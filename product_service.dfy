/**
 * The product service: creating a product with its images, updating a product together
 * with its image set, soft deletion, and the per-image operations guarded by a product
 * lookup.
 */
module ProductService {
  import opened Common
  import opened ProductModel
  import opened ProductRepository
  import opened ImageRepository

  /** What the service needs of a category: whether it is active. */
  datatype Category = Category(active: bool)

  /** `categoryService.getCategoryById`, as a lookup table. */
  type Categories = map<int, Category>

  datatype ServiceError =
    | CategoryRejected         // status 400, "Categoría no encontrada o inactiva"
    | ProductNotFound          // "Product not found"
    | ImageMissing(imageId: int)  // "Image not found", thrown by the image repository

  /** A product as `findById(id, { includeImages: true })` returns it. */
  datatype ProductWithImages = ProductWithImages(product: Product, images: seq<ProductImage>)

  /**
   * The category check: a falsy `categoryId` skips it; otherwise the category must exist
   * and be active.
   */
  predicate CategoryAccepted(categories: Categories, categoryId: Option<int>)
  {
    !Truthy(categoryId) || (categoryId.value in categories && categories[categoryId.value].active)
  }

  /** The `categoryId` an update patch carries, if any. */
  function PatchCategory(patch: ProductPatch): Option<int>
  {
    if CategoryId in patch && patch[CategoryId].Number? then Some(patch[CategoryId].number) else None
  }

  /**
   * `productRepository.findById(id)` with images: the row, active or not, with every image
   * of the product (the association carries no order; storage order is used).
   */
  function LoadProduct(products: ProductTable, images: ProductImageRepository, id: int): (r: Option<ProductWithImages>)
    reads products, images
    ensures r.Some? <==> id in products.rows
    ensures r.Some? ==> r.value.product == products.rows[id]
    ensures r.Some? ==> forall x :: x in r.value.images <==> x in images.rows && x.productId == id
  {
    if id in products.rows then Some(ProductWithImages(products.rows[id], ImagesOf(images.rows, id))) else None
  }

  // ---------------------------------------------------------------------------
  // The image loops, as functions of the rows

  /** The rows after `create(productId, data)` for each element of `datas` in turn. */
  function AddImages(rows: seq<ProductImage>, productId: int, datas: seq<ImageData>, firstId: int, now: int)
    : seq<ProductImage>
    decreases |datas|
  {
    if datas == [] then rows
    else
      var n := |datas| - 1;
      AddImage(AddImages(rows, productId, datas[..n], firstId, now), productId, datas[n], firstId + n, now)
  }

  /** None of `datas` asks to be the main image. */
  predicate NoMainIn(datas: seq<ImageData>)
  {
    forall k :: 0 <= k < |datas| ==> !datas[k].isMainImage
  }

  /** The elements from `k` on of `init + [last]` ask for no main image exactly when neither part does. */
  lemma NoMainInSnoc(init: seq<ImageData>, last: ImageData, k: nat)
    requires k <= |init|
    ensures NoMainIn((init + [last])[k..]) <==> NoMainIn(init[k..]) && !last.isMainImage
  {
    var s := (init + [last])[k..];
    var t := init[k..];
    assert |s| == |t| + 1 && s[|t|] == last;
    assert forall j :: 0 <= j < |t| ==> s[j] == t[j];
  }

  /**
   * Creating images one after the other adds one new row per element, in order, after the
   * existing ones, with the element's metadata and the next ids; a new row stays main only
   * if no later element is main.
   */
  lemma {:induction false} AddImagesNewRows(rows: seq<ProductImage>, productId: int, datas: seq<ImageData>, firstId: int, now: int)
    ensures var r := AddImages(rows, productId, datas, firstId, now);
      && |r| == |rows| + |datas|
      && (forall k :: 0 <= k < |datas| ==>
            r[|rows| + k].(isMainImage := datas[k].isMainImage) == NewRow(firstId + k, productId, datas[k], now))
      && (forall k :: 0 <= k < |datas| ==>
            (r[|rows| + k].isMainImage <==> datas[k].isMainImage && NoMainIn(datas[k + 1..])))
  {
    if datas != [] {
      var n := |datas| - 1;
      var init := datas[..n];
      var last := datas[n];
      var r0 := AddImages(rows, productId, init, firstId, now);
      AddImagesNewRows(rows, productId, init, firstId, now);
      var r := AddImages(rows, productId, datas, firstId, now);
      assert r == AddImage(r0, productId, last, firstId + n, now);
      var before := if last.isMainImage then ClearMain(r0, productId) else r0;
      assert r[..|r0|] == before;
      assert |r0| == |rows| + n;
      assert init + [last] == datas;
      forall k | 0 <= k < |datas|
        ensures r[|rows| + k].(isMainImage := datas[k].isMainImage) == NewRow(firstId + k, productId, datas[k], now)
        ensures r[|rows| + k].isMainImage <==> datas[k].isMainImage && NoMainIn(datas[k + 1..])
      {
        if k < n {
          assert init[k] == datas[k];
          NoMainInSnoc(init, last, k + 1);
          assert r[|rows| + k] == before[|rows| + k];
        } else {
          assert datas[k + 1..] == [];
        }
      }
    }
  }

  /**
   * Creating images one after the other changes no field of an existing row but its main
   * flag; a row of the product stays main only if no element is main, and rows of other
   * products do not change.
   */
  lemma {:induction false} AddImagesOldRows(rows: seq<ProductImage>, productId: int, datas: seq<ImageData>, firstId: int, now: int)
    ensures var r := AddImages(rows, productId, datas, firstId, now);
      && |r| == |rows| + |datas|
      && (forall i :: 0 <= i < |rows| ==> r[i].(isMainImage := rows[i].isMainImage) == rows[i])
      && (forall i :: 0 <= i < |rows| && rows[i].productId != productId ==> r[i] == rows[i])
      && (forall i :: 0 <= i < |rows| && rows[i].productId == productId ==>
            (r[i].isMainImage <==> rows[i].isMainImage && NoMainIn(datas)))
  {
    if datas != [] {
      var n := |datas| - 1;
      var init := datas[..n];
      var last := datas[n];
      var r0 := AddImages(rows, productId, init, firstId, now);
      AddImagesOldRows(rows, productId, init, firstId, now);
      var r := AddImages(rows, productId, datas, firstId, now);
      assert r == AddImage(r0, productId, last, firstId + n, now);
      var before := if last.isMainImage then ClearMain(r0, productId) else r0;
      assert r[..|r0|] == before;
      assert datas == init + [last];
      assert NoMainIn(datas) <==> NoMainIn(init) && !last.isMainImage;
      forall i | 0 <= i < |rows|
        ensures r[i].(isMainImage := rows[i].isMainImage) == rows[i]
        ensures rows[i].productId == productId ==> (r[i].isMainImage <==> rows[i].isMainImage && NoMainIn(datas))
      {
        assert r[i] == before[i];
      }
    }
  }

  /** Creating images one after the other keeps at most one main image per product. */
  lemma {:induction false} AddImagesKeepsOneMain(rows: seq<ProductImage>, productId: int, datas: seq<ImageData>, firstId: int, now: int)
    requires AtMostOneMain(rows)
    ensures AtMostOneMain(AddImages(rows, productId, datas, firstId, now))
  {
    if datas != [] {
      var n := |datas| - 1;
      var r0 := AddImages(rows, productId, datas[..n], firstId, now);
      assert AddImages(rows, productId, datas, firstId, now) == AddImage(r0, productId, datas[n], firstId + n, now);
      AddImagesKeepsOneMain(rows, productId, datas[..n], firstId, now);
      AddImageKeepsOneMain(r0, productId, datas[n], firstId + n, now);
    }
  }

  /** Appending a row adds it to the images of its own product only. */
  lemma ImagesOfSnoc(rows: seq<ProductImage>, x: ProductImage, productId: int)
    ensures ImagesOf(rows + [x], productId) == ImagesOf(rows, productId) + if x.productId == productId then [x] else []
  {
    assert (rows + [x])[..|rows|] == rows;
  }

  /** Creating images one after the other gives the product one more image per element. */
  lemma {:induction false} AddImagesCount(rows: seq<ProductImage>, productId: int, datas: seq<ImageData>, firstId: int, now: int)
    ensures |ImagesOf(AddImages(rows, productId, datas, firstId, now), productId)| == |ImagesOf(rows, productId)| + |datas|
  {
    if datas != [] {
      var n := |datas| - 1;
      var r0 := AddImages(rows, productId, datas[..n], firstId, now);
      var before := if datas[n].isMainImage then ClearMain(r0, productId) else r0;
      var added := NewRow(firstId + n, productId, datas[n], now);
      assert AddImages(rows, productId, datas, firstId, now) == before + [added];
      ImagesOfSnoc(before, added, productId);
      forall i | 0 <= i < |before| ensures before[i].productId == r0[i].productId {
        assert before[i].(isMainImage := r0[i].isMainImage) == r0[i];
      }
      SameOwnersSameCount(before, r0, productId);
      AddImagesCount(rows, productId, datas[..n], firstId, now);
    }
  }

  /** A product that had no images ends up with exactly one image per element of `datas`. */
  lemma FreshProductGetsOneImageEach(rows: seq<ProductImage>, productId: int, datas: seq<ImageData>, firstId: int, now: int)
    requires forall i :: 0 <= i < |rows| ==> rows[i].productId != productId
    ensures |ImagesOf(AddImages(rows, productId, datas, firstId, now), productId)| == |datas|
  {
    AddImagesCount(rows, productId, datas, firstId, now);
    NoImagesOf(rows, productId);
  }

  /** The outcome of deleting a list of images: the rows, and the id that was not found, if any. */
  datatype DeleteRun = DeleteRun(rows: seq<ProductImage>, failed: Option<int>)

  /**
   * The rows after `delete(imageId, productId)` for each id in turn, stopping at the first
   * id the product does not own; the deletions before it stay. The failing id is one of the
   * requested ids, and the product owned no image with it at that point.
   */
  function DeleteEach(rows: seq<ProductImage>, ids: seq<int>, productId: int): (r: DeleteRun)
    decreases |ids|
    ensures r.failed.Some? ==> r.failed.value in ids
    ensures r.failed.Some? ==>
      forall i :: 0 <= i < |r.rows| ==> r.rows[i].id != r.failed.value || r.rows[i].productId != productId
  {
    if ids == [] then DeleteRun(rows, None)
    else
      var n := |ids| - 1;
      var d := DeleteEach(rows, ids[..n], productId);
      if d.failed.Some? then
        assert d.failed.value in ids[..n];
        d
      else match Deleted(d.rows, ids[n], productId)
        case Err(_) =>
          DeleteFailsIffNotOwned(d.rows, ids[n], productId);
          DeleteRun(d.rows, Some(ids[n]))
        case Ok(rest) => DeleteRun(rest, None)
  }

  /** Once an id fails, the later ids are not processed. */
  lemma {:induction false} DeleteEachStops(rows: seq<ProductImage>, ids: seq<int>, productId: int, n: nat)
    requires n <= |ids| && DeleteEach(rows, ids[..n], productId).failed.Some?
    ensures DeleteEach(rows, ids, productId) == DeleteEach(rows, ids[..n], productId)
  {
    if n < |ids| {
      var m := |ids| - 1;
      assert ids[..m][..n] == ids[..n];
      DeleteEachStops(rows, ids[..m], productId, n);
      DeleteEachExtends(rows, ids, productId, m);
      assert ids[..m + 1] == ids;
    } else {
      assert ids[..n] == ids;
    }
  }

  /** One more id processed, from where the first `i` left the rows. */
  lemma DeleteEachExtends(rows: seq<ProductImage>, ids: seq<int>, productId: int, i: nat)
    requires i < |ids|
    ensures var d := DeleteEach(rows, ids[..i], productId);
      DeleteEach(rows, ids[..i + 1], productId) ==
        if d.failed.Some? then d
        else match Deleted(d.rows, ids[i], productId)
          case Err(_) => DeleteRun(d.rows, Some(ids[i]))
          case Ok(rest) => DeleteRun(rest, None)
  {
    assert ids[..i + 1][..i] == ids[..i];
  }

  /** `delete` only drops a row and moves main flags, so row ids stay unique. */
  lemma DeletedKeepsIds(rows: seq<ProductImage>, imageId: int, productId: int)
    requires UniqueIds(rows) && AtMostOneMain(rows) && Deleted(rows, imageId, productId).Ok?
    ensures UniqueIds(Deleted(rows, imageId, productId).value)
  {
    var k := OwnedIndex(rows, imageId, productId).value;
    var rest := RemoveAt(rows, k);
    RemoveKeepsProperties(rows, k);
    if rows[k].isMainImage {
      var next := FirstOf(rest, productId);
      if next.Some? {
        var r := SetMain(rest, rest[next.value].id, productId);
        forall i, j | 0 <= i < j < |r| ensures r[i].id != r[j].id {
          assert r[i].id == rest[i].id && r[j].id == rest[j].id;
        }
      }
    }
  }

  /** Deleting a list of images keeps ids unique and at most one main image per product. */
  lemma {:induction false} DeleteEachKeepsOneMain(rows: seq<ProductImage>, ids: seq<int>, productId: int)
    requires UniqueIds(rows) && AtMostOneMain(rows)
    ensures UniqueIds(DeleteEach(rows, ids, productId).rows)
    ensures AtMostOneMain(DeleteEach(rows, ids, productId).rows)
  {
    if ids != [] {
      var n := |ids| - 1;
      var d := DeleteEach(rows, ids[..n], productId);
      DeleteEachKeepsOneMain(rows, ids[..n], productId);
      if d.failed.None? && Deleted(d.rows, ids[n], productId).Ok? {
        DeleteKeepsOneMain(d.rows, ids[n], productId);
        DeletedKeepsIds(d.rows, ids[n], productId);
      }
    }
  }

  /** The image rows at the end of a successful `updateProduct`: add, then delete, then set-main. */
  function UpdatedImages(rows: seq<ProductImage>, productId: int, datas: seq<ImageData>, firstId: int, now: int,
                         toDelete: seq<int>, mainImageId: Option<int>): (r: DeleteRun)
    ensures var d := DeleteEach(AddImages(rows, productId, datas, firstId, now), toDelete, productId);
      && r.failed == d.failed
      && (r.failed.None? && Truthy(mainImageId) ==>
            && (forall i :: 0 <= i < |r.rows| && r.rows[i].productId == productId && r.rows[i].id != mainImageId.value ==>
                  !r.rows[i].isMainImage)
            && (forall i :: 0 <= i < |r.rows| && r.rows[i].id == mainImageId.value ==> r.rows[i].isMainImage))
      && (r.failed.None? && !Truthy(mainImageId) ==> r.rows == d.rows)
  {
    var d := DeleteEach(AddImages(rows, productId, datas, firstId, now), toDelete, productId);
    if d.failed.Some? || !Truthy(mainImageId) then d
    else
      SetMainEffect(d.rows, mainImageId.value, productId);
      DeleteRun(SetMain(d.rows, mainImageId.value, productId), None)
  }

  /**
   * With at most one main image per product to begin with and a `mainImageId` the product
   * owns after the deletions, a successful update leaves that image the product's only main
   * image, and at most one main image per product overall.
   */
  lemma UpdateKeepsOneMain(rows: seq<ProductImage>, productId: int, datas: seq<ImageData>, firstId: int, now: int,
                           toDelete: seq<int>, mainImageId: Option<int>)
    requires UniqueIds(AddImages(rows, productId, datas, firstId, now)) && AtMostOneMain(rows)
    requires Truthy(mainImageId)
    requires var u := UpdatedImages(rows, productId, datas, firstId, now, toDelete, mainImageId);
      u.failed.None? && exists i :: 0 <= i < |u.rows| && u.rows[i].id == mainImageId.value && u.rows[i].productId == productId
    ensures var u := UpdatedImages(rows, productId, datas, firstId, now, toDelete, mainImageId);
      AtMostOneMain(u.rows) && ExactlyOneMain(u.rows, productId)
  {
    var added := AddImages(rows, productId, datas, firstId, now);
    AddImagesKeepsOneMain(rows, productId, datas, firstId, now);
    var d := DeleteEach(added, toDelete, productId);
    DeleteEachKeepsOneMain(added, toDelete, productId);
    var u := UpdatedImages(rows, productId, datas, firstId, now, toDelete, mainImageId);
    assert u.rows == SetMain(d.rows, mainImageId.value, productId);
    SetExistingMainKeepsOneMain(d.rows, mainImageId.value, productId);
  }

  /** Setting as main an image the product owns leaves it the product's only main image. */
  lemma SetExistingMainKeepsOneMain(rows: seq<ProductImage>, imageId: int, productId: int)
    requires UniqueIds(rows) && AtMostOneMain(rows)
    requires var r := SetMain(rows, imageId, productId);
      exists i :: 0 <= i < |r| && r[i].id == imageId && r[i].productId == productId
    ensures AtMostOneMain(SetMain(rows, imageId, productId)) && ExactlyOneMain(SetMain(rows, imageId, productId), productId)
  {
    var r := SetMain(rows, imageId, productId);
    var i :| 0 <= i < |r| && r[i].id == imageId && r[i].productId == productId;
    assert rows[i].id == imageId && rows[i].productId == productId;
    SetOwnedMainKeepsOneMain(rows, imageId, productId);
  }

  // ---------------------------------------------------------------------------
  // The loops themselves

  /** `for (const imageData of imagesData) await productImageRepository.create(productId, imageData)`. */
  method CreateImages(images: ProductImageRepository, productId: int, datas: seq<ImageData>, now: int)
    requires images.Valid() && NotAfter(images.rows, now)
    modifies images
    ensures images.Valid() && NotAfter(images.rows, now) && images.nextId == old(images.nextId) + |datas|
    ensures images.rows == AddImages(old(images.rows), productId, datas, old(images.nextId), now)
  {
    var i := 0;
    while i < |datas|
      invariant 0 <= i <= |datas|
      invariant images.Valid() && NotAfter(images.rows, now) && images.nextId == old(images.nextId) + i
      invariant images.rows == AddImages(old(images.rows), productId, datas[..i], old(images.nextId), now)
    {
      assert datas[..i + 1][..i] == datas[..i];
      var image := images.Create(productId, datas[i], now);
      i := i + 1;
    }
    assert datas[..|datas|] == datas;
  }

  /**
   * `for (const imageId of imagesToDelete) await productImageRepository.delete(imageId, productId)`:
   * the first id the product does not own throws, after the earlier deletions were made.
   */
  method DeleteImages(images: ProductImageRepository, productId: int, ids: seq<int>) returns (failed: Option<int>)
    requires images.Valid()
    modifies images
    ensures images.Valid() && images.nextId == old(images.nextId)
    ensures DeleteEach(old(images.rows), ids, productId) == DeleteRun(images.rows, failed)
  {
    var i := 0;
    while i < |ids|
      invariant 0 <= i <= |ids|
      invariant images.Valid() && images.nextId == old(images.nextId)
      invariant DeleteEach(old(images.rows), ids[..i], productId) == DeleteRun(images.rows, None)
    {
      DeleteEachExtends(old(images.rows), ids, productId, i);
      var deleted := images.Delete(ids[i], productId);
      if deleted.Err? {
        DeleteEachStops(old(images.rows), ids, productId, i + 1);
        return Some(ids[i]);
      }
      i := i + 1;
    }
    assert ids[..|ids|] == ids;
    return None;
  }

  // ---------------------------------------------------------------------------
  // The service operations

  /**
   * `createProductWithImages(productData, imagesData)`: a rejected category fails with 400
   * before anything is written; otherwise the product is created, then one image per
   * element of `imagesData`, in order, and the product is reloaded with its images.
   */
  method CreateProductWithImages(products: ProductTable, images: ProductImageRepository, categories: Categories,
                                 data: ProductData, imagesData: seq<ImageData>, now: int)
    returns (r: Result<ProductWithImages, ServiceError>)
    requires products.Valid() && images.Valid() && NotAfter(images.rows, now)
    modifies products, images
    ensures products.Valid() && images.Valid()
    ensures r.Err? <==> !CategoryAccepted(categories, data.categoryId)
    ensures r.Err? ==> r.error == CategoryRejected && products.rows == old(products.rows) && images.rows == old(images.rows)
    ensures r.Ok? ==>
      var p := r.value.product;
      && p.id == old(products.nextId) && p.id !in old(products.rows)
      && p == Product(p.id, data.batchNumber, data.name, data.price, data.availableQuantity, data.entryDate, data.categoryId, true)
      && products.rows == old(products.rows)[p.id := p]
      && images.rows == AddImages(old(images.rows), p.id, imagesData, old(images.nextId), now)
      && Some(r.value) == LoadProduct(products, images, p.id)
  {
    if !CategoryAccepted(categories, data.categoryId) {
      return Err(CategoryRejected);
    }
    var product := products.Create(data);
    CreateImages(images, product.id, imagesData, now);
    var reloaded := LoadProduct(products, images, product.id);
    return Ok(reloaded.value);
  }

  /**
   * `updateProduct(id, { productData, imagesData, imagesToDelete, mainImageId })`: a rejected
   * category fails with 400 before anything is written; a missing product gives `None` with
   * no image operation; otherwise the row is patched, the new images are created, the listed
   * ones deleted (stopping at the first one the product does not own), and a truthy
   * `mainImageId` is made main; the product is then reloaded.
   */
  method UpdateProduct(products: ProductTable, images: ProductImageRepository, categories: Categories,
                       id: int, patch: ProductPatch, imagesData: seq<ImageData>, imagesToDelete: seq<int>,
                       mainImageId: Option<int>, now: int)
    returns (r: Result<Option<ProductWithImages>, ServiceError>)
    requires products.Valid() && images.Valid() && NotAfter(images.rows, now) && WellTyped(patch)
    modifies products, images
    ensures products.Valid() && images.Valid()
    ensures !CategoryAccepted(categories, PatchCategory(patch)) ==>
      r == Err(CategoryRejected) && products.rows == old(products.rows) && images.rows == old(images.rows)
    ensures CategoryAccepted(categories, PatchCategory(patch)) && id !in old(products.rows) ==>
      r == Ok(None) && products.rows == old(products.rows) && images.rows == old(images.rows)
    ensures CategoryAccepted(categories, PatchCategory(patch)) && id in old(products.rows) ==>
      var u := UpdatedImages(old(images.rows), id, imagesData, old(images.nextId), now, imagesToDelete, mainImageId);
      && products.rows == old(products.rows)[id := ApplyPatch(old(products.rows)[id], patch)]
      && images.rows == u.rows
      && (u.failed.Some? ==> r == Err(ImageMissing(u.failed.value)))
      && (u.failed.None? ==> r == Ok(LoadProduct(products, images, id)) && r.value.Some?)
  {
    if !CategoryAccepted(categories, PatchCategory(patch)) {
      return Err(CategoryRejected);
    }
    var product := Update(products, id, patch);
    if product.None? {
      return Ok(None);
    }
    CreateImages(images, id, imagesData, now);
    var failed := DeleteImages(images, id, imagesToDelete);
    if failed.Some? {
      return Err(ImageMissing(failed.value));
    }
    if Truthy(mainImageId) {
      images.SetMainImage(mainImageId.value, id);
    }
    return Ok(LoadProduct(products, images, id));
  }

  /** `deleteProduct(id)`: the repository's soft delete; `None` for an unknown id. */
  method DeleteProduct(products: ProductTable, id: int) returns (r: Option<Product>)
    requires products.Valid()
    modifies products
    ensures products.Valid()
    ensures r.None? <==> id !in old(products.rows)
    ensures r.None? ==> products.rows == old(products.rows)
    ensures r.Some? ==> products.rows == Retired(old(products.rows), id) && r.value == products.rows[id] && !r.value.active
  {
    r := Remove(products, id);
  }

  /** `addProductImage(productId, imageData)`: "Product not found" before any image is written. */
  method AddProductImage(products: ProductTable, images: ProductImageRepository, productId: int, data: ImageData, now: int)
    returns (r: Result<ProductImage, ServiceError>)
    requires images.Valid() && NotAfter(images.rows, now)
    modifies images
    ensures images.Valid()
    ensures r.Err? <==> productId !in products.rows
    ensures r.Err? ==> r.error == ProductNotFound && images.rows == old(images.rows)
    ensures r.Ok? ==> r.value == NewRow(old(images.nextId), productId, data, now)
                      && images.rows == AddImage(old(images.rows), productId, data, old(images.nextId), now)
  {
    if products.FindByPk(productId).None? {
      return Err(ProductNotFound);
    }
    var image := images.Create(productId, data, now);
    return Ok(image);
  }

  /**
   * `setMainImage(productId, imageId)`: "Product not found" before any image is touched;
   * otherwise the repository's `setMainImage`, then the product's images in listing order.
   */
  method SetMainImage(products: ProductTable, images: ProductImageRepository, productId: int, imageId: int)
    returns (r: Result<seq<ProductImage>, ServiceError>)
    requires images.Valid()
    modifies images
    ensures images.Valid()
    ensures r.Err? <==> productId !in products.rows
    ensures r.Err? ==> r.error == ProductNotFound && images.rows == old(images.rows)
    ensures r.Ok? ==> images.rows == SetMain(old(images.rows), imageId, productId)
                      && r.value == FindByProductId(images.rows, productId)
  {
    if products.FindByPk(productId).None? {
      return Err(ProductNotFound);
    }
    images.SetMainImage(imageId, productId);
    return Ok(images.FindByProduct(productId));
  }

  /**
   * `deleteProductImage(productId, imageId)`: "Product not found" before any image is
   * touched; otherwise the repository's `delete`, whose "Image not found" propagates.
   */
  method DeleteProductImage(products: ProductTable, images: ProductImageRepository, productId: int, imageId: int)
    returns (r: Result<bool, ServiceError>)
    requires images.Valid()
    modifies images
    ensures images.Valid()
    ensures productId !in products.rows ==> r == Err(ProductNotFound) && images.rows == old(images.rows)
    ensures productId in products.rows ==>
      match Deleted(old(images.rows), imageId, productId)
      case Err(_) => r == Err(ImageMissing(imageId)) && images.rows == old(images.rows)
      case Ok(rest) => r == Ok(true) && images.rows == rest
  {
    if products.FindByPk(productId).None? {
      return Err(ProductNotFound);
    }
    var deleted := images.Delete(imageId, productId);
    if deleted.Err? {
      return Err(ImageMissing(imageId));
    }
    return Ok(true);
  }

  /** `getProductImages(productId)`: "Product not found", or the product's images in listing order. */
  function GetProductImages(products: ProductTable, images: ProductImageRepository, productId: int)
    : (r: Result<seq<ProductImage>, ServiceError>)
    reads products, images
    ensures r.Err? <==> productId !in products.rows
    ensures r.Err? ==> r.error == ProductNotFound
    ensures r.Ok? ==> forall x :: x in r.value <==> x in images.rows && x.productId == productId
    ensures r.Ok? ==> multiset(r.value) == multiset(ImagesOf(images.rows, productId))
    ensures r.Ok? && Chronological(images.rows) ==> MainFirstNewestFirst(r.value)
  {
    if productId !in products.rows then Err(ProductNotFound)
    else
      assert Chronological(images.rows) ==> MainFirstNewestFirst(FindByProductId(images.rows, productId)) by {
        if Chronological(images.rows) {
          FindByProductIdOrdered(images.rows, productId);
        }
      }
      Ok(FindByProductId(images.rows, productId))
  }
}
