# Inventory and purchasing core, modelled in Dafny

This project models the core of an Express/Sequelize inventory backend. The backend keeps a
catalogue of products with stock. Each product has a set of images, and one of them may be
flagged as its "main" image. Users buy products through purchases made of detail lines. The
model covers five parts:

- **Purchase orchestration and the stock ledger** (`purchase_service.dfy`, `product_model.dfy`,
  `purchase_repository.dfy`, `purchase_model.dfy`). `createPurchase` walks the items in order.
  For each item it reloads the product and rejects a missing or inactive product or insufficient
  stock. It accumulates `price × quantity`, snapshots a detail line and decrements stock. At the
  end it inserts one purchase together with its details. Stock writes go straight to the product
  table. Only the purchase rows are written inside the transaction, and the model keeps that
  split.
- **The image main-flag manager** (`image_repository.dfy`). It covers create, set-main and delete,
  the promotion of another image when the main image is deleted, and the main-first,
  newest-first listing.
- **The catalogue repository** (`product_repository.dfy`). It covers pagination arithmetic, the
  active-only listing, the patch `update`, and the soft delete `remove`.
- **The product service** (`product_service.dfy`). It covers the category guard, product creation
  with its images, the fixed add → delete → set-main order of `updateProduct`, and the
  "Product not found" guards on the image operations.
- **The product controller's list logic** (`product_controller.dfy`, with JavaScript's `parseInt`,
  `Number` and `String.prototype.split` in `js_text.dfy`). It covers the per-file `isMainImage`
  flags derived from `mainImageIndex` or `imagesMetadata`, the normalisation of `deleteImages`,
  and the stripping of undefined fields from the update data.

Representation choices:

- Tables are classes with a `Valid()` invariant: `ProductTable` (a map keyed by id),
  `ProductImageRepository` (image rows in storage order) and `PurchaseTable` (purchase rows and
  detail rows).
- Service and repository operations are methods over those tables. Each method is specified
  against a pure function of the old state (`Run`, `AddImages`, `DeleteEach`, `SetMain`,
  `Deleted`, `ApplyPatch`, `Retired`, …), and the promised properties are lemmas about those
  functions.
- Prices and totals are integer cents. JavaScript's `NaN` is `None`.
- The clock is a `now` parameter. Tables require time never to run backwards, so "newest first"
  is the reverse of storage order.

## Model

| member | source | states |
|---|---|---|
| ProductModel.ProductTable.FindByPk | src/repositories/productRepository.js:31-36 | finds a product exactly when its id is a key of the table, and returns that row |
| ProductModel.ProductTable.Create | src/repositories/productRepository.js:38-40 | inserts one row under a fresh auto-increment id, with the given fields and `active` defaulting to true; no other row changes |
| ProductModel.ProductTable.ReduceStock | src/models/Product.js:59-66 | fails with "insufficient stock, available n" exactly when `hasStock(q)` is false, leaving the table unchanged; otherwise stores the product with `availableQuantity` lowered by `q` and nothing else changed |
| ProductModel.Reduced | src/models/Product.js:63 | a reduction allowed by `hasStock` leaves stock at the old value minus `q`, which is never negative, and changes no other field |
| PurchaseModel.BeforeCreate | src/models/PurchaseDetail.js:39-41 | the created detail's subtotal is quantity × unit price; every other field is kept |
| PurchaseModel.BeforeUpdate | src/models/PurchaseDetail.js:42-46 | the subtotal is recomputed when quantity or unit price changed; otherwise the record is left exactly as given; other fields are never touched |
| PurchaseModel.UnchangedUpdateKeepsSubtotal | src/models/PurchaseDetail.js:43 | an update that changes neither quantity nor unit price keeps even a subtotal that disagrees with them |
| PurchaseModel.HooksFixConsistentRows | src/repositories/purchaseRepository.js:11 | on rows whose subtotal already equals quantity × unit price, both hooks are the identity, so skipping per-row hooks in `bulkCreate` stores the same rows |
| PurchaseRepository.Stamp | src/repositories/purchaseRepository.js:6-9 | one detail per input, in order, each carrying the purchase's id and otherwise the input's fields |
| PurchaseRepository.DetailsOf | src/repositories/purchaseRepository.js:33-37 | the details included with a purchase are exactly the stored details carrying its id |
| PurchaseRepository.DetailsOfAppend | src/repositories/purchaseRepository.js:3-14 | after `create`, the details of the new purchase are exactly the stamped ones, in order |
| PurchaseRepository.NewestFirst | src/repositories/purchaseRepository.js:16-26 | lists exactly the purchases of the user (or all purchases when no user is given) |
| PurchaseRepository.NewestFirstOrdered | src/repositories/purchaseRepository.js:24 | when dates never decrease in storage order, the listing is ordered by `purchaseDate` descending |
| PurchaseRepository.NewestFirstAllLength | src/repositories/purchaseRepository.js:43-59 | listing without a user filter keeps every purchase |
| PurchaseRepository.NewestFirstDistinct | src/repositories/purchaseRepository.js:16-26 | the listing never repeats a purchase: distinct ids stay distinct |
| PurchaseRepository.View | src/repositories/purchaseRepository.js:28-41 | a purchase is returned with exactly its own details |
| PurchaseRepository.Views | src/repositories/purchaseRepository.js:16-26 | each listed purchase, in order, is returned with exactly its own details |
| PurchaseRepository.ViewsMembers | src/repositories/purchaseRepository.js:16-26 | a purchase is in the listing iff its view is in the returned views, and every view comes from a listed purchase |
| PurchaseRepository.FirstMatch | src/repositories/purchaseRepository.js:28-32 | returns a purchase with the id, also matching the user when `userId` is truthy; returns nothing only when no purchase matches both |
| PurchaseRepository.FirstMatchUnique | src/repositories/purchaseRepository.js:28-41 | with unique ids, looking up an id without a user finds exactly that purchase |
| PurchaseRepository.DetailsOfSnoc | src/repositories/purchaseRepository.js:33-37 | appending one detail extends a purchase's details by it exactly when it carries that purchase's id |
| PurchaseRepository.InsertKeepsConsistent | src/repositories/purchaseRepository.js:3-14 | inserting a purchase with the next id, a date no earlier than the stored ones and its stamped details keeps ids unique, dates ordered and every detail attached to a stored purchase |
| PurchaseRepository.PurchaseTable.Create | src/repositories/purchaseRepository.js:3-14 | appends exactly one purchase with the next id and the given fields, then its stamped details; `findById` afterwards returns that purchase with exactly those details |
| PurchaseRepository.PurchaseTable.FindById | src/repositories/purchaseRepository.js:28-41 | a truthy `userId` scopes the lookup to that user; otherwise the id alone decides; nothing is returned only when no purchase matches |
| PurchaseRepository.PurchaseTable.FindAllByUserId | src/repositories/purchaseRepository.js:16-26 | exactly the user's purchases, each once and each with exactly its own details, ordered by `purchaseDate` descending |
| PurchaseRepository.PurchaseTable.FindAll | src/repositories/purchaseRepository.js:43-59 | every purchase once, each with exactly its own details, ordered by `purchaseDate` descending |
| PurchaseService.Step | src/services/purchaseService.js:13-35 | one item of the loop never adds or removes products |
| PurchaseService.Run | src/services/purchaseService.js:13-35 | the whole loop never adds or removes products |
| PurchaseService.RunExtends | src/services/purchaseService.js:13-35 | the loop over a prefix one longer is the loop over the prefix, followed by one more step unless it already failed |
| PurchaseService.RunStops | src/services/purchaseService.js:16-22 | once an item fails, later items are never looked at |
| PurchaseService.RunOnlyChangesStock | src/services/purchaseService.js:34 | the loop changes only `availableQuantity`, and only of existing products |
| PurchaseService.RunTotal | src/services/purchaseService.js:24-25 | the accumulated total equals the sum of the snapshot subtotals |
| PurchaseService.RunDetails | src/services/purchaseService.js:27-32 | on success there is one detail per item, in input order, each with the product's price when it was loaded and subtotal = price × quantity |
| PurchaseService.RunStock | src/services/purchaseService.js:13-34 | on success each product's stock falls by exactly the total quantity bought of it and stays non-negative |
| PurchaseService.FailureKeepsEarlierReductions | src/services/purchaseService.js:49-51 | a failing run is a successful prefix followed by the failing step, and the failing step leaves the prefix's stock reductions in place |
| PurchaseService.RepeatedItemSeesReducedStock | src/services/purchaseService.js:13-14 | a product listed twice is checked the second time against the already reduced stock |
| PurchaseService.PartialFailureKeepsReduction | src/services/purchaseService.js:14 | concrete case: buying 3 of a product with stock 5, then 1 of a product with stock 0, fails on the second item and leaves the first at stock 2 |
| PurchaseService.ProcessItems | src/services/purchaseService.js:13-35 | the imperative loop produces exactly the state, details, total and failure of `Run` |
| PurchaseService.CreatePurchase | src/services/purchaseService.js:7-53 | fails exactly when some item fails, with that item's error and no purchase rows, but with stock as the loop left it; on success stores one completed purchase of the user, with the summed total and the item details, and returns it with its details |
| PurchaseService.CreatePurchaseAtomic | src/services/purchaseService.js:7-53 | corrected version: on success the same stock, purchase, details and returned view as `createPurchase`; on failure no purchase rows and the stock as it was before the call |
| ProductRepository.ApplyPatch | src/repositories/productRepository.js:42-48 | a patch never changes the id or the `active` flag |
| ProductRepository.ApplyPatchFields | src/repositories/productRepository.js:45 | every field in the patch takes the patch's value, and every other field keeps its old value |
| ProductRepository.PatchIdempotent | src/repositories/productRepository.js:45 | applying the same patch twice is the same as applying it once |
| ProductRepository.Update | src/repositories/productRepository.js:42-48 | a missing id gives null and changes nothing; otherwise the row is replaced by the patched row, which is returned |
| ProductRepository.Retired | src/repositories/productRepository.js:53 | the soft delete clears `active` on that row only and changes no other field or row |
| ProductRepository.RetireIdempotent | src/repositories/productRepository.js:53 | removing a product twice gives the same table as removing it once |
| ProductRepository.Remove | src/repositories/productRepository.js:50-56 | a missing id gives null and changes nothing; otherwise the row is soft-deleted and returned inactive |
| ProductRepository.ActiveIdsDesc | src/repositories/productRepository.js:13-15 | exactly the ids of active products, each once, in descending order |
| ProductRepository.Offset | src/repositories/productRepository.js:5 | the offset is `(max(1, page) − 1) × limit`: `NaN` when the page or limit is `NaN`, zero for pages up to 1, never negative for a non-negative limit |
| ProductRepository.TotalPages | src/repositories/productRepository.js:20 | zero when there are no products; `Infinity` for a limit of 0 and some products; otherwise the least page count whose pages hold them all |
| ProductRepository.Window | src/repositories/productRepository.js:16-17 | at most `limit` consecutive items starting at `offset`, and as many as are available |
| ProductRepository.Listing | src/repositories/productRepository.js:12-15 | exactly the active products, newest (highest id) first |
| ProductRepository.FindAll | src/repositories/productRepository.js:4-29 | a `NaN` page or limit, or a negative limit, is refused by the query; otherwise one page of the active listing at the clamped offset, the active count, the page number exactly as given, and the page count |
| ProductRepository.PageNonEmptyIffInRange | src/repositories/productRepository.js:4-29 | for page ≥ 1 and a positive limit, a page has items exactly when its number is at most `totalPages` |
| ProductRepository.ZeroLimitListsNothing | src/repositories/productRepository.js:16-20 | a limit of 0 lists no items and reports `Infinity` pages exactly when some product is active |
| ProductRepository.PagesAreConsecutive | src/repositories/productRepository.js:5 | consecutive pages from page 1 on start `limit` items apart |
| ImageRepository.ImagesOf | src/repositories/productImageRepository.js:44-45 | exactly the images of the product |
| ImageRepository.ClearMain | src/repositories/productImageRepository.js:10-19 | clears the flag on every image of the product and changes nothing else |
| ImageRepository.MarkMain | src/repositories/productImageRepository.js:76-82 | sets the flag on the row with that id, whatever its product, and changes nothing else |
| ImageRepository.OwnedIndex | src/repositories/productImageRepository.js:92-97 | finds a row with that id and product, or reports that there is none |
| ImageRepository.FirstOf | src/repositories/productImageRepository.js:108-110 | finds the first remaining image of the product, or reports that there is none |
| ImageRepository.RemoveAt | src/repositories/productImageRepository.js:104 | removes exactly the one row and keeps the others in order |
| ImageRepository.NewestFirst | src/repositories/productImageRepository.js:44-50 | only images of the product with the given flag value |
| ImageRepository.NewestFirstOrdered | src/repositories/productImageRepository.js:48 | when creation times never decrease in storage order, the result is newest first |
| ImageRepository.SplitByFlag | src/repositories/productImageRepository.js:46-49 | main and non-main images together are exactly the product's images |
| ImageRepository.FindByProductId | src/repositories/productImageRepository.js:38-51 | the result is a permutation of exactly the product's images |
| ImageRepository.FindByProductIdOrdered | src/repositories/productImageRepository.js:46-49 | main images come first, then by creation time descending |
| ImageRepository.FirstMain | src/repositories/productImageRepository.js:53-60 | returns a main image of the product, and nothing exactly when the product has none |
| ImageRepository.ProductImageRepository.Create | src/repositories/productImageRepository.js:6-36 | inserts one row with the next id; a main create first clears the product's other main flags |
| ImageRepository.ProductImageRepository.FindByProduct | src/repositories/productImageRepository.js:38-51 | a permutation of exactly the product's images, main first, then newest first |
| ImageRepository.ProductImageRepository.GetMainImage | src/repositories/productImageRepository.js:53-60 | returns nothing exactly when the product has no main image; otherwise a main image of the product, its only one when no product has two |
| ImageRepository.ProductImageRepository.SetMainImage | src/repositories/productImageRepository.js:62-89 | clears the product's flags, then flags the row with that id whatever its product |
| ImageRepository.ProductImageRepository.SetMainImageScoped | src/repositories/productImageRepository.js:62-89 | corrected version: flags the image only when it belongs to the product, and keeps at most one main per product |
| ImageRepository.ProductImageRepository.Delete | src/repositories/productImageRepository.js:91-118 | fails with "Image not found" and changes nothing when the image is missing or not the product's; otherwise removes it, promotes a remaining image if it was main, and returns true |
| ImageRepository.MarkOwnedMain | src/repositories/productImageRepository.js:76-82 | flags only a row with that id and product |
| ImageRepository.AddImageEffect | src/repositories/productImageRepository.js:6-36 | create adds exactly one row of the product. A main image becomes the product's only main, even where it had several. A non-main image leaves all flags as they were. Other products are untouched, and at most one main per product is kept where it held |
| ImageRepository.AddImageKeepsOneMain | src/repositories/productImageRepository.js:6-36 | create keeps at most one main image per product |
| ImageRepository.NonMainImageLeavesNoMain | src/repositories/productImageRepository.js:21-28 | a product whose only image was created non-main has no main image |
| ImageRepository.SetMainEffect | src/repositories/productImageRepository.js:62-89 | afterwards no other image of the product is main, and the image with that id is main if it exists |
| ImageRepository.SetOwnedMainKeepsOneMain | src/repositories/productImageRepository.js:62-89 | when the id is not another product's, at most one main per product is kept, and exactly one main exists if the image exists |
| ImageRepository.SetMissingMainClearsAll | src/repositories/productImageRepository.js:67-73 | with an id that does not exist, the product is left with no main image |
| ImageRepository.ForeignImageGivesSecondMain | src/repositories/productImageRepository.js:76-82 | concrete case: flagging product 1's non-main image through product 3 gives product 1 two main images |
| ImageRepository.ScopedSetMainKeepsOneMain | src/repositories/productImageRepository.js:62-89 | the corrected set-main always keeps at most one main per product, and exactly one main when the image is the product's |
| ImageRepository.DeleteFailsIffNotOwned | src/repositories/productImageRepository.js:92-101 | delete fails exactly when no row has that id and product |
| ImageRepository.DeleteNonMainRemovesOnlyIt | src/repositories/productImageRepository.js:103-106 | deleting a non-main image removes only its row and leaves every flag as it was |
| ImageRepository.DeleteMainPromotesOne | src/repositories/productImageRepository.js:103-115 | deleting the main image of a product that has other images leaves exactly one of them main, even where it had several, and keeps at most one main per product where it held |
| ImageRepository.DeleteKeepsOneMain | src/repositories/productImageRepository.js:91-118 | delete keeps at most one main per product |
| ImageRepository.RemoveKeepsOrder | src/repositories/productImageRepository.js:104 | removing a row keeps ids unique and creation times ordered |
| ImageRepository.RemoveKeepsProperties | src/repositories/productImageRepository.js:104 | removing a row keeps ids unique and at most one main per product |
| ProductService.LoadProduct | src/services/productService.js:47 | reloads a product exactly when it exists, with exactly its images |
| ProductService.AddImagesNewRows | src/services/productService.js:40-42 | one new row per image data, in order, each with the next id. A new row ends up main exactly when its data says main and no later data does |
| ProductService.AddImagesOldRows | src/services/productService.js:40-42 | older rows of other products are untouched, and an older row of the product stays main only when no added image is main |
| ProductService.AddImagesKeepsOneMain | src/services/productService.js:40-42 | adding images keeps at most one main per product |
| ProductService.AddImagesCount | src/services/productService.js:40-42 | the product gains exactly one image per image data |
| ProductService.FreshProductGetsOneImageEach | src/services/productService.js:37-42 | a new product has exactly as many images as image data were given |
| ProductService.DeleteEach | src/services/productService.js:73-75 | deletes the ids in order and stops at the first id that is missing or not the product's |
| ProductService.DeleteEachStops | src/services/productService.js:73-75 | once a delete fails, later ids are never looked at |
| ProductService.DeleteEachExtends | src/services/productService.js:73-75 | deleting one more id extends the run by one `delete`, unless it already failed |
| ProductService.DeletedKeepsIds | src/repositories/productImageRepository.js:91-118 | a successful delete keeps ids unique |
| ProductService.DeleteEachKeepsOneMain | src/services/productService.js:73-75 | the delete loop keeps ids unique and at most one main per product |
| ProductService.UpdatedImages | src/services/productService.js:67-80 | additions, then deletions, then set-main. With a truthy `mainImageId` that image is the product's final main. Without one the result is that of the deletions |
| ProductService.UpdateKeepsOneMain | src/services/productService.js:67-80 | when `mainImageId` names an image of the product that survives the deletions, the product ends with exactly one main and no product has two |
| ProductService.SetExistingMainKeepsOneMain | src/repositories/productImageRepository.js:62-89 | flagging an image that belongs to the product yields exactly one main for it and at most one for every product |
| ProductService.CreateImages | src/services/productService.js:40-42 | the loop creates the images in order, as `AddImages` describes |
| ProductService.DeleteImages | src/services/productService.js:73-75 | the loop deletes as `DeleteEach` describes and reports the id that failed |
| ProductService.CreateProductWithImages | src/services/productService.js:25-48 | a missing or inactive category fails with status 400 before anything is created. Otherwise it creates one active product and its images in order, and returns it reloaded |
| ProductService.UpdateProduct | src/services/productService.js:50-86 | a rejected category changes nothing. A missing product gives null and no image operation runs. Otherwise it patches the product, applies the image changes in their fixed order and returns the reloaded product |
| ProductService.DeleteProduct | src/services/productService.js:88-94 | the repository's soft delete: null for an unknown id, otherwise the inactive product |
| ProductService.AddProductImage | src/services/productService.js:96-102 | "Product not found" before touching images; otherwise one image create |
| ProductService.SetMainImage | src/services/productService.js:104-110 | "Product not found" before touching images; otherwise set-main, then the ordered image list |
| ProductService.DeleteProductImage | src/services/productService.js:112-118 | "Product not found" before touching images; otherwise the repository delete's outcome |
| ProductService.GetProductImages | src/services/productService.js:120-124 | "Product not found" for an unknown product; otherwise a permutation of exactly its images, main first, then newest first |
| ProductController.IndexFlags | src/controllers/productController.js:107-119 | accepted exactly when `parseInt(mainImageIndex or "0")` is a file index. Then exactly that file is main |
| ProductController.MetadataFlags | src/controllers/productController.js:86-105 | unparseable JSON, a non-array or a length differing from the file count is rejected. Otherwise each file's flag is the truthiness of its entry's `isMainImage` |
| ProductController.ImagesData | src/controllers/productController.js:84-120 | with metadata the result is the metadata path's, without it the index path's; every accepted result describes the files in order |
| ProductController.FirstFileIsMainByDefault | src/controllers/productController.js:107 | without `mainImageIndex` exactly the first file is main |
| ProductController.IndexOfFileIsMain | src/controllers/productController.js:107-119 | sending a file's index makes exactly that file main |
| ProductController.IndexSelects | src/controllers/productController.js:113-119 | whenever the index parses to a file index, exactly that file is main |
| ProductController.MetadataSetsAnyFlags | src/controllers/productController.js:99-105 | metadata can give any combination of flags, including none or several mains |
| ProductController.IndexPathGivesOneMain | src/controllers/productController.js:107-123 | a product created through the index path has exactly one main image |
| ProductController.SingleMainGivesOneMain | src/services/productService.js:40-42 | creating images of which exactly one is main gives a new product exactly one main image |
| ProductController.KeepNumbers | src/controllers/productController.js:210 | drops the NaN entries and keeps every number |
| ProductController.KeepNumbersAppend | src/controllers/productController.js:210 | filtering distributes over concatenation |
| ProductController.KeepNoNumbers | src/controllers/productController.js:212 | a list of NaN only filters to nothing |
| ProductController.KeepNumbersAll | src/controllers/productController.js:210 | a list without NaN is kept whole, in order |
| ProductController.NormalizeDeleteImages | src/controllers/productController.js:205-214 | for an array, its numeric items; for a non-empty string, the numeric comma-separated pieces; for anything else, no ids |
| ProductController.ArrayOfNumbersIsKept | src/controllers/productController.js:209-210 | an array of numbers comes through unchanged |
| ProductController.ReadIdList | src/controllers/productController.js:212 | splitting a comma-joined list of numbers reads back exactly that list |
| ProductController.CommaListRoundTrip | src/controllers/productController.js:211-212 | a comma-separated id string normalises back to the ids it was written from |
| ProductController.JsonArrayStringIsDropped | src/controllers/productController.js:211-212 | the string "[5,8]", which the route validator accepts, normalises to no ids |
| ProductController.BracketPairPiecesAreNaN | src/controllers/productController.js:212 | both pieces of "[5,8]" are NaN |
| ProductController.SplitOfBracketPair | src/controllers/productController.js:212 | "[5,8]" splits into "[5" and "8]" |
| ProductController.NormalizeDeleteImagesFixed | src/controllers/productController.js:205-214 | corrected version: a bracketed string is read as a JSON array of numbers; every other input is handled as before |
| ProductController.JsonArrayRoundTrip | src/routes/productRoutes.js:286-290 | the corrected normalisation reads any JSON array of ids written as a string back to those ids |
| ProductController.JsonArrayStringIsRead | src/routes/productRoutes.js:289-290 | the corrected normalisation reads "[5,8]" as 5 and 8 |
| ProductController.StripUndefined | src/controllers/productController.js:157-160 | the loop keeps exactly the fields that are not undefined |
| ProductController.OptionalInt | src/controllers/productController.js:217 | a missing or empty value gives undefined; any other value gives `parseInt`'s result |
| ProductController.OptionalIntShow | src/controllers/productController.js:217 | an integer sent as text is read back as itself |
| ProductController.UpdatePatchFields | src/controllers/productController.js:148-160 | a field reaches the patch exactly when the request supplies it, and for the integer fields only when it is non-empty. The patch's category is the parsed `categoryId` |
| ProductController.UpdatePatchWellTyped | src/controllers/productController.js:148-155 | the stripped update data always has the right value type for each field |
| ProductController.CreateData | src/controllers/productController.js:65-72 | `availableQuantity` is parsed with `parseInt`, `categoryId` only when truthy, and the text fields are passed as given |
| ProductController.CreateProduct | src/controllers/productController.js:62-141 | no files gives 400 and touches nothing. Invalid image flags give 400 and touch nothing. A rejected category fails. Otherwise it creates the product with the derived image flags and returns it reloaded |
| ProductController.UpdateProduct | src/controllers/productController.js:146-234 | invalid image flags give 400 and touch nothing. Otherwise it passes the stripped fields, the new images, the normalised `deleteImages` and the parsed truthy `mainImageId` to the service, with the service's outcome |
| JsText.ParseIntOfShow | src/controllers/productController.js:107 | `parseInt` reads any integer written in decimal back as itself |
| JsText.ParseIntShow | src/controllers/productController.js:69 | `parseInt` skips leading whitespace and stops at the first non-digit |
| JsText.ToNumberShow | src/controllers/productController.js:212 | `Number` reads any integer written in decimal back as itself |
| JsText.ToNumberRejects | src/controllers/productController.js:212 | for the integer forms `JsText.ToNumber` models, `Number` is NaN on a token that starts or ends with a character no such number can have there |
| JsText.ReadNumberShow | src/controllers/productController.js:210 | reading a decimal integer gives its value |
| JsText.JoinSplit | src/controllers/productController.js:212 | joining the pieces of `split` with the separator gives back the string |
| JsText.SplitJoin | src/controllers/productController.js:212 | splitting a join of separator-free pieces gives back the pieces |

## Left out

- Concurrency and transaction isolation: calls run one after another. The check-then-decrement of
  stock has no locking in the source, so concurrent overselling is outside what the code enforces.
- Floating point: `price * quantity` and `parseFloat` work on JavaScript numbers. Prices, subtotals
  and totals are integer cents here. The `DECIMAL(10,2)` range and the string form Sequelize gives
  to decimals are not modelled.
- Routing and request validation (express-validator chains): their guarantees are preconditions.
  These are `CreateValid`, `UpdateValid` and `IntFieldValid` from `src/routes/productRoutes.js`
  and `PositiveQuantities` (quantity > 0) from `src/routes/purchaseRoutes.js`.
- File handling: multer storage, generated file names and the `fs.unlink` clean-up. Image rows
  carry only their metadata strings.
- Authentication and authorisation, HTTP status mapping, the error handler and logging.
- Category lookup: a map from id to a category with an `active` flag stands in for the category
  service.
- Persistence failures: database errors other than the ones the code raises itself are not
  modelled. The unique `batch_number` constraint is not modelled either.
- Eager-loaded includes: category, user and product associations are not attached to results.
- The plain delegating getters `getAllProducts`, `getProductById`, `getMyPurchases`,
  `getPurchaseById` and `getAllPurchases` are covered by the repository members they call.
- `bulkCreate` does not run the per-row `beforeCreate` hook. The rows it stores already satisfy
  subtotal = quantity × unit price, so the hook would not change them (`HooksFixConsistentRows`).
- An unordered `findOne` returns the first matching row in storage order. This covers
  `getMainImage` (`FirstMain`), the promotion lookup in `delete` (`FirstOf`) and `findById`
  (`FirstMatch`). The database does not fix which matching row it returns.
- Ties in `created_at` or `purchaseDate`: the database leaves their order unspecified, and the
  model breaks them by reverse insertion.
- The product listing's `created_at DESC` order is modelled as id descending, because ids are
  assigned in creation order.
- ProductService.LoadProduct: returns the product's images in storage order. The reload in the
  source does not order them either.
- ProductRepository.FindAll: a `NaN` page or limit, or a negative limit, reaches the query
  unchecked. The model reports it as `InvalidWindow` and does not model what MySQL answers.
- ProductRepository.Update: requires a well-typed patch, one whose values have the field's type.
  The controller only builds such patches (`UpdatePatchWellTyped`). Sequelize's coercion of
  mistyped values is not modelled.
- JsText.ToNumber: models `Number` on optionally signed decimal integers, hexadecimal with `0x`,
  surrounding whitespace and the empty string. Fractions, exponents, `Infinity` and the `0b`/`0o`
  forms are not modelled, because ids are integers.
- JsText.ParseInt: whitespace is limited to space, tab, line feed, vertical tab, form feed,
  carriage return, no-break space and the byte order mark. The other Unicode spaces are not
  modelled.
- ProductController.NormalizeDeleteImagesFixed: states only that every id it returns comes from
  the bracketed list, and reads JSON arrays of plain numbers only. Quoted ids inside the JSON
  array are not read.
- ProductController.CreateProduct: requires what the route validators guarantee (name, batch
  number, price, an integer quantity and an optional integer category).
- ProductController.UpdateProduct: requires what the route validators guarantee for the
  optional fields.
- The specification promises exactly one main image for every product with images. The code does
  not keep that promise: creating only non-main images leaves none (`NonMainImageLeavesNoMain`),
  and metadata may flag several files (`MetadataSetsAnyFlags`). The model follows the code and
  proves "at most one" plus the cases where exactly one holds.

## Findings

| source | as written | input that shows it | evidently intended | confidence | as-written member | corrected member |
|---|---|---|---|---|---|---|
| src/services/purchaseService.js:14-34 | `findById` and `reduceStock` run outside the transaction, so the rollback at line 50 removes only the purchase rows | products 1 (stock 5) and 2 (stock 0), items `[{1,3},{2,1}]`: the call fails but product 1 is left with stock 2 | a failed purchase leaves stock as it was | not executed | PurchaseService.PartialFailureKeepsReduction | PurchaseService.CreatePurchaseAtomic |
| src/repositories/productImageRepository.js:76-82 | the new main flag is set by image id only, while the clearing is scoped by product | image 2 belongs to product 1, whose image 1 is main; `setMainImage(2, 3)` leaves product 1 with two main images | flag the image only when it belongs to the product | not executed | ImageRepository.ForeignImageGivesSecondMain | ImageRepository.ScopedSetMainKeepsOneMain |
| src/controllers/productController.js:211-212 | a string is split on commas even when it is a JSON array, which the route validator accepts | `deleteImages = "[5,8]"` splits into "[5" and "8]", both NaN, so no image is deleted | read a JSON-array string as its ids | not executed | ProductController.JsonArrayStringIsDropped | ProductController.JsonArrayStringIsRead |
