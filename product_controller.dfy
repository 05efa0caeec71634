/**
 * The request shaping of the product controller: the main-image flags of uploaded files,
 * the list of image ids to delete, the fields an update sets, and the `createProduct` and
 * `updateProduct` handlers that hand them to the product service.
 */
module ProductController {
  import opened Common
  import opened JsText
  import opened ProductModel
  import opened ProductRepository
  import opened ImageRepository
  import opened ProductService

  // ---------------------------------------------------------------------------
  // Main-image flags of the uploaded files

  /** An uploaded file as the upload middleware describes it. */
  datatype UploadedFile = UploadedFile(filename: string, originalName: string, mimetype: string, size: int)

  /** An element of the parsed `imagesMetadata` array: `null`, or a value whose `isMainImage` has this truthiness. */
  datatype MetaEntry = NullEntry | Entry(isMainTruthy: bool)

  /** What `JSON.parse` makes of a non-empty `imagesMetadata` field. */
  datatype Metadata = Unparseable | NotArray | MetaArray(entries: seq<MetaEntry>)

  /** Why the images of a request are refused. */
  datatype FlagError =
    | InvalidJson       // 400: `imagesMetadata` is not JSON
    | LengthMismatch    // 400: not an array, or not one entry per file
    | InvalidMainIndex  // 400: `mainImageIndex` is NaN or outside [0, files.length)
    | NullMetadata      // reading `isMainImage` of a null entry throws; the error handler answers

  /** The image record of an uploaded file. */
  function ImageOf(file: UploadedFile, isMain: bool): ImageData
  {
    ImageData(file.filename, file.originalName, file.mimetype, file.size, isMain)
  }

  /** One image per file, in order, each carrying its file's name, type and size. */
  ghost predicate DescribesFiles(datas: seq<ImageData>, files: seq<UploadedFile>)
  {
    |datas| == |files| && forall i :: 0 <= i < |datas| ==> datas[i] == ImageOf(files[i], datas[i].isMainImage)
  }

  /** `mainImageIndex || '0'`: an absent or empty field selects the first file. */
  function IndexText(mainImageIndex: Option<string>): string
  {
    if mainImageIndex.Some? && mainImageIndex.value != "" then mainImageIndex.value else "0"
  }

  /**
   * The index path: `parseInt(mainImageIndex || '0')` must name a file, and exactly that
   * file is main.
   */
  function IndexFlags(files: seq<UploadedFile>, mainImageIndex: Option<string>): (r: Result<seq<ImageData>, FlagError>)
    ensures var k := ParseInt(IndexText(mainImageIndex));
      r.Ok? <==> k.Some? && 0 <= k.value < |files|
    ensures r.Err? ==> r.error == InvalidMainIndex
    ensures r.Ok? ==> DescribesFiles(r.value, files)
    ensures r.Ok? ==> forall i :: 0 <= i < |files| ==>
      (r.value[i].isMainImage <==> ParseInt(IndexText(mainImageIndex)) == Some(i))
  {
    match ParseInt(IndexText(mainImageIndex))
    case None => Err(InvalidMainIndex)
    case Some(k) =>
      if k < 0 || k >= |files| then Err(InvalidMainIndex)
      else Ok(seq(|files|, i requires 0 <= i < |files| => ImageOf(files[i], i == k)))
  }

  /**
   * The metadata path: the parsed value must be an array with one entry per file, and each
   * file is main exactly when its entry's `isMainImage` is truthy.
   */
  function MetadataFlags(files: seq<UploadedFile>, metadata: Metadata): (r: Result<seq<ImageData>, FlagError>)
    ensures metadata.Unparseable? ==> r == Err(InvalidJson)
    ensures metadata.NotArray? || (metadata.MetaArray? && |metadata.entries| != |files|) ==> r == Err(LengthMismatch)
    ensures metadata.MetaArray? && |metadata.entries| == |files| ==>
      (r.Err? <==> NullEntry in metadata.entries) && (r.Err? ==> r.error == NullMetadata)
    ensures r.Ok? ==> metadata.MetaArray? && DescribesFiles(r.value, files)
    ensures r.Ok? ==> forall i :: 0 <= i < |files| ==>
      metadata.entries[i].Entry? && r.value[i].isMainImage == metadata.entries[i].isMainTruthy
  {
    match metadata
    case Unparseable => Err(InvalidJson)
    case NotArray => Err(LengthMismatch)
    case MetaArray(entries) =>
      if |entries| != |files| then Err(LengthMismatch)
      else if NullEntry in entries then Err(NullMetadata)
      else Ok(seq(|files|, i requires 0 <= i < |files| => ImageOf(files[i], entries[i].isMainTruthy)))
  }

  /** A truthy `imagesMetadata` field (`Some`) selects the metadata path, otherwise the index path. */
  function ImagesData(files: seq<UploadedFile>, metadata: Option<Metadata>, mainImageIndex: Option<string>)
    : (r: Result<seq<ImageData>, FlagError>)
    ensures r.Ok? ==> DescribesFiles(r.value, files)
    ensures metadata.None? ==> r == IndexFlags(files, mainImageIndex)
    ensures metadata.Some? ==> r == MetadataFlags(files, metadata.value)
  {
    if metadata.Some? then MetadataFlags(files, metadata.value) else IndexFlags(files, mainImageIndex)
  }

  /** With no index given, the first file is the main one. */
  lemma FirstFileIsMainByDefault(files: seq<UploadedFile>)
    requires files != []
    ensures IndexFlags(files, None).Ok?
    ensures forall i :: 0 <= i < |files| ==> (IndexFlags(files, None).value[i].isMainImage <==> i == 0)
  {
    assert Show(0) == "0";
    ParseIntOfShow(0);
    IndexSelects(files, None, 0);
  }

  /** Sending the decimal text of a file's position makes exactly that file main. */
  lemma IndexOfFileIsMain(files: seq<UploadedFile>, k: nat)
    requires k < |files|
    ensures IndexFlags(files, Some(Show(k))).Ok?
    ensures forall i :: 0 <= i < |files| ==> (IndexFlags(files, Some(Show(k))).value[i].isMainImage <==> i == k)
  {
    var t := Show(k);
    ParseIntOfShow(k);
    assert |t| >= 1;
    IndexSelects(files, Some(t), k);
  }

  /** An index that parses to a file's position selects that file alone. */
  lemma IndexSelects(files: seq<UploadedFile>, mainImageIndex: Option<string>, k: nat)
    requires k < |files| && ParseInt(IndexText(mainImageIndex)) == Some(k)
    ensures IndexFlags(files, mainImageIndex).Ok?
    ensures forall i :: 0 <= i < |files| ==> (IndexFlags(files, mainImageIndex).value[i].isMainImage <==> i == k)
  {
  }

  /** The metadata path can set any pattern of flags: none, one or several mains. */
  lemma MetadataSetsAnyFlags(files: seq<UploadedFile>, flags: seq<bool>)
    requires |flags| == |files|
    ensures var entries := seq(|flags|, i requires 0 <= i < |flags| => Entry(flags[i]));
      MetadataFlags(files, MetaArray(entries)) == Ok(seq(|files|, i requires 0 <= i < |files| => ImageOf(files[i], flags[i])))
  {
    var entries := seq(|flags|, i requires 0 <= i < |flags| => Entry(flags[i]));
    assert NullEntry !in entries by {
      forall i | 0 <= i < |entries| ensures entries[i] != NullEntry {
      }
    }
    var r := MetadataFlags(files, MetaArray(entries));
    assert r.Ok?;
    var expected := seq(|files|, i requires 0 <= i < |files| => ImageOf(files[i], flags[i]));
    forall i | 0 <= i < |files| ensures r.value[i] == expected[i] {
      assert entries[i].isMainTruthy == flags[i];
    }
    assert r.value == expected;
  }

  /**
   * A product created through the index path has exactly one main image: the image of the
   * chosen file.
   */
  lemma IndexPathGivesOneMain(rows: seq<ProductImage>, productId: int, files: seq<UploadedFile>,
                              mainImageIndex: Option<string>, firstId: int, now: int)
    requires forall i :: 0 <= i < |rows| ==> rows[i].productId != productId
    requires IndexFlags(files, mainImageIndex).Ok?
    ensures ExactlyOneMain(AddImages(rows, productId, IndexFlags(files, mainImageIndex).value, firstId, now), productId)
  {
    var datas := IndexFlags(files, mainImageIndex).value;
    var k := ParseInt(IndexText(mainImageIndex)).value;
    SingleMainGivesOneMain(rows, productId, datas, k, firstId, now);
  }

  /** Adding images of which exactly one is main to a product with no images leaves it exactly one main image. */
  lemma SingleMainGivesOneMain(rows: seq<ProductImage>, productId: int, datas: seq<ImageData>, k: nat,
                               firstId: int, now: int)
    requires forall i :: 0 <= i < |rows| ==> rows[i].productId != productId
    requires k < |datas| && forall j :: 0 <= j < |datas| ==> (datas[j].isMainImage <==> j == k)
    ensures ExactlyOneMain(AddImages(rows, productId, datas, firstId, now), productId)
  {
    var r := AddImages(rows, productId, datas, firstId, now);
    AddImagesNewRows(rows, productId, datas, firstId, now);
    AddImagesOldRows(rows, productId, datas, firstId, now);
    var later := datas[k + 1..];
    assert NoMainIn(later) by {
      forall j | 0 <= j < |later| ensures !later[j].isMainImage {
        assert later[j] == datas[k + 1 + j];
      }
    }
    var m := |rows| + k;
    assert r[m].(isMainImage := datas[k].isMainImage) == NewRow(firstId + k, productId, datas[k], now);
    assert r[m].productId == productId;
    assert r[m].isMainImage <==> datas[k].isMainImage && NoMainIn(later);
    forall i | 0 <= i < |r| && r[i].isMainImage && r[i].productId == productId
      ensures i == m
    {
      if i >= |rows| {
        var j := i - |rows|;
        assert r[|rows| + j].isMainImage <==> datas[j].isMainImage && NoMainIn(datas[j + 1..]);
      }
    }
  }

  // ---------------------------------------------------------------------------
  // The ids of the images to delete

  /** A value in a `deleteImages` array. */
  datatype JsScalar = JsNumber(n: int) | JsString(s: string) | JsNull | JsBoolean(b: bool)

  /**
   * The `deleteImages` field: absent or falsy, an array, a string, or another truthy value
   * (an object or a number), which gives no ids.
   */
  datatype RawIds = NoIds | IdArray(items: seq<JsScalar>) | IdString(text: string) | OtherIds

  /** `Number(x)`; `None` is NaN. */
  function NumberOf(x: JsScalar): Option<int>
  {
    match x
    case JsNumber(n) => Some(n)
    case JsString(s) => ToNumber(s)
    case JsNull => Some(0)
    case JsBoolean(b) => Some(if b then 1 else 0)
  }

  /** `.filter(id => !isNaN(id))`: the numbers, in order. */
  function KeepNumbers(xs: seq<Option<int>>): (r: seq<int>)
    ensures |r| <= |xs|
    ensures forall v :: v in r <==> Some(v) in xs
  {
    if xs == [] then []
    else
      var init := xs[..|xs| - 1];
      assert xs == init + [xs[|xs| - 1]];
      KeepNumbers(init) + if xs[|xs| - 1].Some? then [xs[|xs| - 1].value] else []
  }

  /** Filtering keeps the order: it distributes over concatenation. */
  lemma {:induction false} KeepNumbersAppend(a: seq<Option<int>>, b: seq<Option<int>>)
    ensures KeepNumbers(a + b) == KeepNumbers(a) + KeepNumbers(b)
  {
    if b != [] {
      var b' := b[..|b| - 1];
      KeepNumbersAppend(a, b');
      assert (a + b)[..|a + b| - 1] == a + b';
    } else {
      assert a + b == a;
    }
  }

  /** When no entry is a number, filtering keeps nothing. */
  lemma {:induction false} KeepNoNumbers(xs: seq<Option<int>>)
    requires forall i :: 0 <= i < |xs| ==> xs[i].None?
    ensures KeepNumbers(xs) == []
  {
    if xs != [] {
      KeepNoNumbers(xs[..|xs| - 1]);
    }
  }

  /** When every entry is a number, filtering drops nothing. */
  lemma {:induction false} KeepNumbersAll(xs: seq<Option<int>>, vs: seq<int>)
    requires |xs| == |vs| && forall i :: 0 <= i < |xs| ==> xs[i] == Some(vs[i])
    ensures KeepNumbers(xs) == vs
  {
    if xs != [] {
      var n := |xs| - 1;
      KeepNumbersAll(xs[..n], vs[..n]);
      assert KeepNumbers(xs) == KeepNumbers(xs[..n]) + [vs[n]];
      assert vs == vs[..n] + [vs[n]];
    }
  }

  /** `.map(Number)` on the elements of an array. */
  function ArrayNumbers(items: seq<JsScalar>): seq<Option<int>>
  {
    seq(|items|, i requires 0 <= i < |items| => NumberOf(items[i]))
  }

  /** `.map(Number)` on the pieces of a split. */
  function TokenNumbers(tokens: seq<string>): seq<Option<int>>
  {
    seq(|tokens|, i requires 0 <= i < |tokens| => ToNumber(tokens[i]))
  }

  /**
   * The `deleteImages` normalisation: an array or a comma-separated string gives the elements
   * that read as numbers, in order; anything else gives no ids.
   */
  function NormalizeDeleteImages(raw: RawIds): (r: seq<int>)
    ensures !raw.IdArray? && !(raw.IdString? && raw.text != "") ==> r == []
    ensures raw.IdArray? ==> |r| <= |raw.items| && forall v :: v in r <==> Some(v) in ArrayNumbers(raw.items)
    ensures raw.IdString? && raw.text != "" ==>
      forall v :: v in r <==> Some(v) in TokenNumbers(Split(raw.text, ','))
  {
    match raw
    case IdArray(items) => KeepNumbers(ArrayNumbers(items))
    case IdString(text) => if text == "" then [] else KeepNumbers(TokenNumbers(Split(text, ',')))
    case _ => []
  }

  /** The decimal texts of some ids. */
  function ShowAll(ids: seq<int>): (r: seq<string>)
    ensures |r| == |ids|
  {
    seq(|ids|, i requires 0 <= i < |ids| => Show(ids[i]))
  }

  /** The decimal text of an id is a sign and digits: no comma, and it neither opens nor closes with a space. */
  lemma ShowShape(n: int)
    ensures ',' !in Show(n) && Show(n) != []
    ensures !IsSpace(Show(n)[0]) && !IsSpace(Show(n)[|Show(n)| - 1])
  {
  }

  /** An array of numbers is passed on as it is. */
  lemma ArrayOfNumbersIsKept(ids: seq<int>)
    ensures NormalizeDeleteImages(IdArray(seq(|ids|, i requires 0 <= i < |ids| => JsNumber(ids[i])))) == ids
  {
    var items := seq(|ids|, i requires 0 <= i < |ids| => JsNumber(ids[i]));
    KeepNumbersAll(ArrayNumbers(items), ids);
  }

  /** A non-empty list of ids, joined with commas, splits and reads back as the same ids. */
  lemma ReadIdList(ids: seq<int>)
    requires ids != []
    ensures Join(ShowAll(ids), ',') != [] && Trim(Join(ShowAll(ids), ',')) != []
    ensures KeepNumbers(TokenNumbers(Split(Join(ShowAll(ids), ','), ','))) == ids
  {
    var parts := ShowAll(ids);
    forall i | 0 <= i < |parts| ensures ',' !in parts[i] && parts[i] != [] && ToNumber(parts[i]) == Some(ids[i]) {
      ShowShape(ids[i]);
      ToNumberShow(ids[i]);
    }
    ShowShape(ids[|ids| - 1]);
    JoinLast(parts, ',');
    TrimKeepsLast(Join(parts, ','));
    SplitJoin(parts, ',');
    KeepNumbersAll(TokenNumbers(parts), ids);
  }

  /** A comma-separated list of ids is read back as the same ids, in order. */
  lemma CommaListRoundTrip(ids: seq<int>)
    ensures NormalizeDeleteImages(IdString(Join(ShowAll(ids), ','))) == ids
  {
    if ids != [] {
      ReadIdList(ids);
    }
  }

  /** The string `"[5,8]"`, which `JSON.stringify([5, 8])` produces, gives no ids at all. */
  lemma JsonArrayStringIsDropped()
    ensures NormalizeDeleteImages(IdString("[5,8]")) == []
  {
    var ns := TokenNumbers(Split("[5,8]", ','));
    BracketPairPiecesAreNaN();
    KeepNoNumbers(ns);
  }

  /** Neither piece of `"[5,8]".split(',')` reads as a number. */
  lemma BracketPairPiecesAreNaN()
    ensures forall i :: 0 <= i < |TokenNumbers(Split("[5,8]", ','))| ==> TokenNumbers(Split("[5,8]", ','))[i].None?
  {
    SplitOfBracketPair();
    ToNumberRejects("[5");
    ToNumberRejects("8]");
    var ns := TokenNumbers(Split("[5,8]", ','));
    assert ns[0] == ToNumber("[5") && ns[1] == ToNumber("8]");
  }

  /** `"[5,8]".split(',')` is `["[5", "8]"]`. */
  lemma SplitOfBracketPair()
    ensures Split("[5,8]", ',') == ["[5", "8]"]
  {
    var left: string := ['[', '5'];
    var right: string := ['8', ']'];
    SplitAround(left, right, ',');
    SplitWhole(left, ',');
    SplitWhole(right, ',');
    assert left + [','] + right == "[5,8]";
  }

  /** The text opens with `[` and closes with `]`, as a JSON array does. */
  predicate Bracketed(t: string)
  {
    |t| >= 2 && t[0] == '[' && t[|t| - 1] == ']'
  }

  /**
   * The normalisation with JSON arrays of numbers read as arrays: when the trimmed text is
   * bracketed, the brackets are dropped and the text between them is read as a
   * comma-separated list; any other input is normalised as before.
   */
  function NormalizeDeleteImagesFixed(raw: RawIds): (r: seq<int>)
    ensures !(raw.IdString? && Bracketed(Trim(raw.text))) ==> r == NormalizeDeleteImages(raw)
    ensures raw.IdString? && Bracketed(Trim(raw.text)) ==>
      var t := Trim(raw.text);
      forall v :: v in r ==> Some(v) in TokenNumbers(Split(t[1..|t| - 1], ','))
  {
    if raw.IdString? && Bracketed(Trim(raw.text)) then
      var t := Trim(raw.text);
      var inner := t[1..|t| - 1];
      if Trim(inner) == [] then [] else KeepNumbers(TokenNumbers(Split(inner, ',')))
    else NormalizeDeleteImages(raw)
  }

  /** The last character of a join is the last character of the last piece. */
  lemma JoinLast(parts: seq<string>, sep: char)
    requires |parts| >= 1 && parts[|parts| - 1] != []
    ensures var j := Join(parts, sep); j != [] && j[|j| - 1] == parts[|parts| - 1][|parts[|parts| - 1]| - 1]
  {
  }

  /** Brackets around a text are bracketed and already trimmed. */
  lemma BracketsAround(j: string)
    ensures var s := ['['] + j + [']']; Bracketed(s) && Trim(s) == s && s[1..|s| - 1] == j
  {
    var s := ['['] + j + [']'];
    assert s[1..|s| - 1] == j;
    TrimUnspaced(s);
  }

  /** A JSON array of ids, as `JSON.stringify` writes it, is read back as the same ids. */
  lemma JsonArrayRoundTrip(ids: seq<int>)
    ensures NormalizeDeleteImagesFixed(IdString(['['] + Join(ShowAll(ids), ',') + [']'])) == ids
  {
    var j := Join(ShowAll(ids), ',');
    BracketsAround(j);
    if ids == [] {
      assert j == [];
    } else {
      ReadIdList(ids);
    }
  }

  /** `JSON.stringify([5, 8])` is `"[5,8]"`. */
  lemma JsonOfFiveAndEight()
    ensures ['['] + Join(ShowAll([5, 8]), ',') + [']'] == "[5,8]"
  {
    assert Show(5) == "5" && Show(8) == "8";
    assert ShowAll([5, 8]) == ["5", "8"];
    assert Join(["5", "8"], ',') == "5,8";
  }

  /** The corrected reading of `"[5,8]"`. */
  lemma JsonArrayStringIsRead()
    ensures NormalizeDeleteImagesFixed(IdString("[5,8]")) == [5, 8]
  {
    JsonArrayRoundTrip([5, 8]);
    JsonOfFiveAndEight();
  }

  // ---------------------------------------------------------------------------
  // The fields of an update

  /** The order in which `Object.keys(productData)` lists the fields. */
  const FieldOrder: seq<ProductField> := [BatchNumber, Name, Price, AvailableQuantity, EntryDate, CategoryId]

  /** The entries of `data` that are not `undefined`. */
  function Defined(data: map<ProductField, JsValue>): ProductPatch
  {
    map f | f in data && data[f] != Undefined :: data[f]
  }

  /** The `forEach` that deletes every `undefined` entry of `productData` in place. */
  method StripUndefined(data: map<ProductField, JsValue>) returns (patch: ProductPatch)
    ensures patch == Defined(data)
  {
    patch := data;
    for i := 0 to |FieldOrder|
      invariant forall f :: f in patch <==> f in data && (data[f] != Undefined || f !in FieldOrder[..i])
      invariant forall f :: f in patch ==> patch[f] == data[f]
    {
      var key := FieldOrder[i];
      if key in patch && patch[key] == Undefined {
        patch := patch - {key};
      }
    }
    assert FieldOrder[..|FieldOrder|] == FieldOrder;
    forall f ensures f in FieldOrder {
      match f
      case BatchNumber => assert FieldOrder[0] == f;
      case Name => assert FieldOrder[1] == f;
      case Price => assert FieldOrder[2] == f;
      case AvailableQuantity => assert FieldOrder[3] == f;
      case EntryDate => assert FieldOrder[4] == f;
      case CategoryId => assert FieldOrder[5] == f;
    }
  }

  /** `raw ? parseInt(raw) : undefined`, with `None` for both undefined and NaN. */
  function OptionalInt(raw: Option<string>): (r: Option<int>)
    ensures raw.None? || raw.value == "" ==> r == None
    ensures raw.Some? && raw.value != "" ==> r == ParseInt(raw.value)
  {
    if raw.Some? && raw.value != "" then ParseInt(raw.value) else None
  }

  /** Sending the decimal text of an id passes that id on. */
  lemma OptionalIntShow(n: int)
    ensures OptionalInt(Some(Show(n))) == Some(n)
  {
    var t := Show(n);
    ParseIntOfShow(n);
    assert |t| >= 1;
  }

  /** The request fields an update reads; `None` is a field the request leaves out. */
  datatype UpdateBody = UpdateBody(
    batchNumber: Option<string>,
    name: Option<string>,
    price: Option<int>,
    availableQuantity: Option<string>,
    entryDate: Option<string>,
    categoryId: Option<string>,
    imagesMetadata: Option<Metadata>,
    mainImageIndex: Option<string>,
    deleteImages: RawIds,
    mainImageId: Option<string>)

  /** A non-empty integer field of the body reads as an integer, as the route validator ensures. */
  predicate IntFieldValid(raw: Option<string>)
  {
    raw.Some? && raw.value != "" ==> ParseInt(raw.value).Some?
  }

  /** A present text field is kept, even when empty. */
  function TextField(raw: Option<string>): JsValue
  {
    if raw.Some? then Text(raw.value) else Undefined
  }

  /** An integer field: `undefined` when absent or empty. */
  function IntField(raw: Option<string>): JsValue
    requires IntFieldValid(raw)
  {
    if raw.Some? && raw.value != "" then Number(ParseInt(raw.value).value) else Undefined
  }

  /** The value `updateProduct` puts in one field of `productData`. */
  function FieldValue(body: UpdateBody, f: ProductField): JsValue
    requires IntFieldValid(body.availableQuantity) && IntFieldValid(body.categoryId)
  {
    match f
    case BatchNumber => TextField(body.batchNumber)
    case Name => TextField(body.name)
    case Price => if body.price.Some? then Number(body.price.value) else Undefined
    case AvailableQuantity => IntField(body.availableQuantity)
    case EntryDate => TextField(body.entryDate)
    case CategoryId => IntField(body.categoryId)
  }

  /** The `productData` object `updateProduct` builds, before undefined entries are dropped. */
  function UpdateData(body: UpdateBody): map<ProductField, JsValue>
    requires IntFieldValid(body.availableQuantity) && IntFieldValid(body.categoryId)
  {
    map f: ProductField :: FieldValue(body, f)
  }

  /** An update passes on exactly the fields the request supplies, integers only when non-empty. */
  lemma UpdatePatchFields(body: UpdateBody)
    requires IntFieldValid(body.availableQuantity) && IntFieldValid(body.categoryId)
    ensures var patch := Defined(UpdateData(body));
      && (BatchNumber in patch <==> body.batchNumber.Some?)
      && (Name in patch <==> body.name.Some?)
      && (Price in patch <==> body.price.Some?)
      && (AvailableQuantity in patch <==> body.availableQuantity.Some? && body.availableQuantity.value != "")
      && (EntryDate in patch <==> body.entryDate.Some?)
      && (CategoryId in patch <==> body.categoryId.Some? && body.categoryId.value != "")
      && PatchCategory(patch) == OptionalInt(body.categoryId)
  {
  }

  /** Each field an update passes on holds the kind of value its column takes. */
  lemma UpdatePatchWellTyped(body: UpdateBody)
    requires IntFieldValid(body.availableQuantity) && IntFieldValid(body.categoryId)
    ensures WellTyped(Defined(UpdateData(body)))
  {
    var patch := Defined(UpdateData(body));
    forall f | f in patch ensures FitsField(f, patch[f]) {
      assert patch[f] == FieldValue(body, f);
    }
  }

  // ---------------------------------------------------------------------------
  // The handlers

  /** What a handler answers. */
  datatype Reply =
    | NoImages                                      // 400: a new product needs at least one image
    | BadImages(reason: FlagError)                  // the images of the request are refused
    | Failed(error: ServiceError)                   // the service threw; the error handler answers
    | Created(product: ProductWithImages)           // 201
    | Updated(result: Option<ProductWithImages>)   // 200; `data` is null for an unknown id

  /** The request fields `createProduct` reads. */
  datatype CreateBody = CreateBody(
    batchNumber: string,
    name: string,
    price: int,
    availableQuantity: string,
    categoryId: Option<string>,
    entryDate: string,
    imagesMetadata: Option<Metadata>,
    mainImageIndex: Option<string>)

  /** What the route validator guarantees of a creation request. */
  predicate CreateValid(body: CreateBody)
  {
    ParseInt(body.availableQuantity).Some? && IntFieldValid(body.categoryId)
  }

  /** The `productData` object `createProduct` builds. */
  function CreateData(body: CreateBody): (r: ProductData)
    requires CreateValid(body)
    ensures Some(r.availableQuantity) == ParseInt(body.availableQuantity)
    ensures r.categoryId == OptionalInt(body.categoryId)
    ensures r.batchNumber == body.batchNumber && r.name == body.name && r.entryDate == body.entryDate
  {
    ProductData(body.batchNumber, body.name, body.price, ParseInt(body.availableQuantity).value,
                body.entryDate, OptionalInt(body.categoryId))
  }

  /**
   * `createProduct`: without files the request is refused before the service is called;
   * refused images change nothing; otherwise the service creates the product and one image
   * per file, with the flags derived from the request.
   */
  method CreateProduct(products: ProductTable, images: ProductImageRepository, categories: Categories,
                       body: CreateBody, files: seq<UploadedFile>, now: int) returns (r: Reply)
    requires products.Valid() && images.Valid() && NotAfter(images.rows, now)
    requires CreateValid(body)
    modifies products, images
    ensures products.Valid() && images.Valid()
    ensures files == [] ==> r == NoImages
    ensures var d := ImagesData(files, body.imagesMetadata, body.mainImageIndex);
      files != [] && d.Err? ==> r == BadImages(d.error)
    ensures !r.Created? ==> products.rows == old(products.rows) && images.rows == old(images.rows)
    ensures files != [] && ImagesData(files, body.imagesMetadata, body.mainImageIndex).Ok? ==>
      (r.Failed? <==> !CategoryAccepted(categories, CreateData(body).categoryId)) && (r.Failed? ==> r.error == CategoryRejected)
    ensures r.Created? ==>
      var d := ImagesData(files, body.imagesMetadata, body.mainImageIndex);
      var data := CreateData(body);
      var p := r.product.product;
      && files != [] && d.Ok?
      && p == Product(old(products.nextId), data.batchNumber, data.name, data.price, data.availableQuantity,
                      data.entryDate, data.categoryId, true)
      && products.rows == old(products.rows)[p.id := p]
      && images.rows == AddImages(old(images.rows), p.id, d.value, old(images.nextId), now)
      && Some(r.product) == LoadProduct(products, images, p.id)
  {
    var data := CreateData(body);
    if files == [] {
      return NoImages;
    }
    var d := ImagesData(files, body.imagesMetadata, body.mainImageIndex);
    if d.Err? {
      return BadImages(d.error);
    }
    var created := CreateProductWithImages(products, images, categories, data, d.value, now);
    if created.Err? {
      return Failed(created.error);
    }
    return Created(created.value);
  }

  /** What the route validator guarantees of an update request. */
  predicate UpdateValid(body: UpdateBody)
  {
    IntFieldValid(body.availableQuantity) && IntFieldValid(body.categoryId)
  }

  /** The images an update adds: none without files, and the metadata is then not read. */
  function NewImages(body: UpdateBody, files: seq<UploadedFile>): Result<seq<ImageData>, FlagError>
  {
    if files == [] then Ok([]) else ImagesData(files, body.imagesMetadata, body.mainImageIndex)
  }

  /**
   * `updateProduct`: refused images change nothing; otherwise the service receives the
   * supplied fields, the new images, the normalised ids to delete and the optional main
   * image id.
   */
  method UpdateProduct(products: ProductTable, images: ProductImageRepository, categories: Categories,
                       id: int, body: UpdateBody, files: seq<UploadedFile>, now: int) returns (r: Reply)
    requires products.Valid() && images.Valid() && NotAfter(images.rows, now)
    requires UpdateValid(body)
    modifies products, images
    ensures products.Valid() && images.Valid()
    ensures NewImages(body, files).Err? ==>
      r == BadImages(NewImages(body, files).error)
      && products.rows == old(products.rows) && images.rows == old(images.rows)
    ensures NewImages(body, files).Ok? ==>
      var patch := Defined(UpdateData(body));
      var u := UpdatedImages(old(images.rows), id, NewImages(body, files).value, old(images.nextId), now,
                             NormalizeDeleteImages(body.deleteImages), OptionalInt(body.mainImageId));
      && (!CategoryAccepted(categories, PatchCategory(patch)) ==>
            r == Failed(CategoryRejected) && products.rows == old(products.rows) && images.rows == old(images.rows))
      && (CategoryAccepted(categories, PatchCategory(patch)) && id !in old(products.rows) ==>
            r == Updated(None) && products.rows == old(products.rows) && images.rows == old(images.rows))
      && (CategoryAccepted(categories, PatchCategory(patch)) && id in old(products.rows) ==>
            && products.rows == old(products.rows)[id := ApplyPatch(old(products.rows)[id], patch)]
            && images.rows == u.rows
            && (u.failed.Some? ==> r == Failed(ImageMissing(u.failed.value)))
            && (u.failed.None? ==> r == Updated(LoadProduct(products, images, id)) && r.result.Some?))
  {
    var patch := StripUndefined(UpdateData(body));
    UpdatePatchWellTyped(body);
    var d := NewImages(body, files);
    if d.Err? {
      return BadImages(d.error);
    }
    var toDelete := NormalizeDeleteImages(body.deleteImages);
    var mainImageId := OptionalInt(body.mainImageId);
    var updated := ProductService.UpdateProduct(products, images, categories, id, patch, d.value, toDelete, mainImageId, now);
    if updated.Err? {
      return Failed(updated.error);
    }
    return Updated(updated.value);
  }
}
