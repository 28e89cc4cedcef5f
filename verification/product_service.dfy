/**
 * The product service: create a product with an optional image whose file
 * name is sanitized, list products one page at a time, find one, update one,
 * remove one. Product titles are meant to be unique.
 *
 * `CreateAsWritten` and `UpdateAsWritten` follow the source: they look the
 * TRIMMED title up but store the title as given, so two products can end up
 * with the same title. `Create` and `Update` store the trimmed title and are
 * proved to keep titles unique.
 */
module ProductService {
  import opened Wrappers
  import opened Errors
  import opened Ascii
  import opened Store
  import opened Schema
  import opened Filters
  import opened Listing
  import opened Uploads
  import opened FileValidator
  import opened Sanitize

  /** `CreateProductInput`. */
  datatype CreateProductInput = CreateProductInput(title: string, description: string, image: Option<string>)

  /** `UpdateProductInput`: the id of the product, and every field it may change. */
  datatype UpdateProductInput = UpdateProductInput(
    id: Id,
    title: Option<string>,
    description: Option<string>,
    image: Option<string>)

  /** Some product other than `except` has this title: `findOne({ title, _id: { $ne: except } })`,
      or `findOne({ title })` when there is no product to leave out. */
  predicate TitleTaken(store: seq<Product>, title: string, except: Option<Id>) {
    exists i :: 0 <= i < |store| && HoldsTitle(store[i], title, except)
  }

  /** The product has this title and is not the one left out. */
  predicate HoldsTitle(d: Product, title: string, except: Option<Id>) {
    d.fields.title == title && Some(d.id) != except
  }

  /** No two products share a title. */
  predicate TitlesDistinct(store: seq<Product>) {
    forall i, j :: 0 <= i < j < |store| ==> store[i].fields.title != store[j].fields.title
  }

  /** The validation pipe on `CreateProductInput`: `@IsNotEmpty()` on title and on description.
      Both run, and one error lists every empty field, `title` before `description`. */
  function ValidateCreateInput(data: CreateProductInput): (r: Outcome<Error>)
    ensures r.Pass? <==> Present(data.title) && Present(data.description)
    ensures r.Fail? ==> r.error.MissingRequired?
    ensures r.Fail? ==> ("title" in r.error.fields <==> !Present(data.title))
    ensures r.Fail? ==> ("description" in r.error.fields <==> !Present(data.description))
    ensures r.Fail? ==> forall f :: f in r.error.fields ==> f == "title" || f == "description"
    ensures r.Fail? ==> 0 < |r.error.fields| <= 2 && (|r.error.fields| == 2 ==> r.error.fields == ["title", "description"])
  {
    var fields := (if Present(data.title) then [] else ["title"])
      + (if Present(data.description) then [] else ["description"]);
    if fields == [] then Pass else Fail(MissingRequired(fields))
  }

  /** The image path after an optional upload: the given path when no file comes; for an image
      file, the path of its copy under the sanitized name; the invalid-type error otherwise. */
  function ImageAfterUpload(file: Option<FileUpload>, given: Option<string>, now: nat): (r: Result<Option<string>, Error>)
    ensures file.None? ==> r == Ok(given)
    ensures file.Some? && !HasImageExtension(file.value.filename) ==> r == Err(InvalidImageType)
    ensures file.Some? && HasImageExtension(file.value.filename) ==>
      r == Ok(Some(UploadPath(ProductImageDir, now, SanitizeFilename(file.value.filename))))
  {
    match file
    case None => Ok(given)
    case Some(f) =>
      ValidateImageFileSpec(f.filename, DefaultMaxSizeMB);
      if ValidateImageFile(f.filename).Fail? then Err(InvalidImageType)
      else Ok(Some(UploadPath(ProductImageDir, now, SanitizeFilename(f.filename))))
  }

  /** `create` as the source writes it: the trimmed title must not be taken, but the title is
      stored untrimmed. */
  function CreateAsWritten(store: seq<Product>, newId: Id, now: nat, data: CreateProductInput,
                           file: Option<FileUpload>): (r: Result<(seq<Product>, Product), Error>)
    requires !HasId(store, newId)
    ensures r.Ok? <==> (Present(data.title) && Present(data.description)
      && !TitleTaken(store, Trim(data.title), None)
      && (file.Some? ==> HasImageExtension(file.value.filename)))
    ensures !(Present(data.title) && Present(data.description)) ==> r == Err(ValidateCreateInput(data).error)
    ensures Present(data.title) && Present(data.description) && TitleTaken(store, Trim(data.title), None)
      ==> r == Err(TitleAlreadyExists)
    ensures Present(data.title) && Present(data.description) && !TitleTaken(store, Trim(data.title), None)
      && file.Some? && !HasImageExtension(file.value.filename)
      ==> r == Err(InvalidImageType)
    ensures r.Ok? ==> r.value.1 == Doc(newId, now, now, ProductFields(data.title, data.description,
      if file.Some? then Some(UploadPath(ProductImageDir, now, SanitizeFilename(file.value.filename))) else data.image))
    ensures r.Ok? ==> FindById(r.value.0, newId) == Some(r.value.1)
    ensures r.Ok? ==> forall x :: x != newId ==> FindById(r.value.0, x) == FindById(store, x)
  {
    match ValidateCreateInput(data)
    case Fail(e) => Err(e)
    case Pass =>
      if TitleTaken(store, Trim(data.title), None) then Err(TitleAlreadyExists)
      else
        match ImageAfterUpload(file, data.image, now)
        case Err(e) => Err(e)
        case Ok(image) =>
          var d := Doc(newId, now, now, ProductFields(data.title, data.description, image));
          Ok((Insert(store, d), d))
  }

  /** `create` with the title trimmed before it is checked AND stored. A title that is only white
      space is empty once trimmed, and the schema's `required` validator rejects it. */
  function Create(store: seq<Product>, newId: Id, now: nat, data: CreateProductInput,
                  file: Option<FileUpload>): (r: Result<(seq<Product>, Product), Error>)
    requires !HasId(store, newId)
    ensures r.Ok? <==> (Present(Trim(data.title)) && Present(data.description)
      && !TitleTaken(store, Trim(data.title), None)
      && (file.Some? ==> HasImageExtension(file.value.filename)))
    ensures !(Present(data.title) && Present(data.description)) ==> r == Err(ValidateCreateInput(data).error)
    ensures Present(data.title) && Present(data.description) && !Present(Trim(data.title)) ==> r == Err(MissingRequired(["title"]))
    ensures Present(Trim(data.title)) && Present(data.description) && TitleTaken(store, Trim(data.title), None)
      ==> r == Err(TitleAlreadyExists)
    ensures Present(Trim(data.title)) && Present(data.description) && !TitleTaken(store, Trim(data.title), None)
      && file.Some? && !HasImageExtension(file.value.filename)
      ==> r == Err(InvalidImageType)
    ensures r.Ok? ==> r.value.1 == Doc(newId, now, now, ProductFields(Trim(data.title), data.description,
      if file.Some? then Some(UploadPath(ProductImageDir, now, SanitizeFilename(file.value.filename))) else data.image))
    ensures r.Ok? ==> FindById(r.value.0, newId) == Some(r.value.1)
    ensures r.Ok? ==> forall x :: x != newId ==> FindById(r.value.0, x) == FindById(store, x)
  {
    match ValidateCreateInput(data)
    case Fail(e) => Err(e)
    case Pass =>
      var title := Trim(data.title);
      if !Present(title) then Err(MissingRequired(["title"]))
      else if TitleTaken(store, title, None) then Err(TitleAlreadyExists)
      else
        match ImageAfterUpload(file, data.image, now)
        case Err(e) => Err(e)
        case Ok(image) =>
          var d := Doc(newId, now, now, ProductFields(title, data.description, image));
          Ok((Insert(store, d), d))
  }

  /** `findOne`: the product with this id, or the not-found error. */
  function FindOne(store: seq<Product>, id: Id): (r: Result<Product, Error>)
    ensures r.Ok? <==> HasId(store, id)
    ensures r.Err? ==> r.error == ProductNotFound
    ensures r.Ok? ==> r.value.id == id && r.value in store
  {
    match FindById(store, id)
    case None => Err(ProductNotFound)
    case Some(d) => Ok(d)
  }

  /** The title check of `update` as the source writes it: only a non-empty title whose trimmed
      form differs from the stored title is looked up, among the other products. */
  predicate TitleClashAsWritten(store: seq<Product>, id: Id, current: string, title: Option<string>) {
    title.Some? && title.value != "" && Trim(title.value) != current
      && TitleTaken(store, Trim(title.value), Some(id))
  }

  /** `update` as the source writes it: the product must exist, the title check above must pass,
      the image is checked and stored as on create; every supplied field, the title untrimmed,
      replaces the stored one. The id inside the input is ignored. */
  function UpdateAsWritten(store: seq<Product>, id: Id, data: UpdateProductInput, file: Option<FileUpload>,
                           now: nat): (r: Result<(seq<Product>, Product), Error>)
    ensures !HasId(store, id) ==> r == Err(ProductNotFound)
    ensures r.Ok? <==> (HasId(store, id)
      && !TitleClashAsWritten(store, id, FindById(store, id).value.fields.title, data.title)
      && (file.Some? ==> HasImageExtension(file.value.filename)))
    ensures HasId(store, id) && TitleClashAsWritten(store, id, FindById(store, id).value.fields.title, data.title)
      ==> r == Err(TitleAlreadyExists)
    ensures HasId(store, id) && !TitleClashAsWritten(store, id, FindById(store, id).value.fields.title, data.title)
      && file.Some? && !HasImageExtension(file.value.filename)
      ==> r == Err(InvalidImageType)
    ensures r.Ok? ==> var prev := FindById(store, id).value; var d := r.value.1;
      d.id == id && d.createdAt == prev.createdAt && d.updatedAt == now
      && d.fields.title == data.title.GetOr(prev.fields.title)
      && d.fields.description == data.description.GetOr(prev.fields.description)
      && d.fields.image == (if file.Some? then Some(UploadPath(ProductImageDir, now, SanitizeFilename(file.value.filename)))
                            else if data.image.Some? then data.image else prev.fields.image)
    ensures r.Ok? ==> FindById(r.value.0, id) == Some(r.value.1)
    ensures r.Ok? ==> forall x :: x != id ==> FindById(r.value.0, x) == FindById(store, x)
  {
    match FindById(store, id)
    case None => Err(ProductNotFound)
    case Some(existing) =>
      if TitleClashAsWritten(store, id, existing.fields.title, data.title) then Err(TitleAlreadyExists)
      else
        match ImageAfterUpload(file, data.image, now)
        case Err(e) => Err(e)
        case Ok(image) =>
          var fields := ProductFields(
            data.title.GetOr(existing.fields.title),
            data.description.GetOr(existing.fields.description),
            if image.Some? then image else existing.fields.image);
          var d := Doc(id, existing.createdAt, now, fields);
          Ok((ReplaceById(store, d), d))
  }

  /** `update` with a supplied title trimmed, required to be non-empty, checked against every
      other product and stored trimmed. */
  function Update(store: seq<Product>, id: Id, data: UpdateProductInput, file: Option<FileUpload>,
                  now: nat): (r: Result<(seq<Product>, Product), Error>)
    ensures !HasId(store, id) ==> r == Err(ProductNotFound)
    ensures r.Ok? <==> (HasId(store, id)
      && (data.title.Some? ==> Present(Trim(data.title.value)) && !TitleTaken(store, Trim(data.title.value), Some(id)))
      && (file.Some? ==> HasImageExtension(file.value.filename)))
    ensures HasId(store, id) && data.title.Some? && !Present(Trim(data.title.value)) ==> r == Err(MissingRequired(["title"]))
    ensures HasId(store, id) && data.title.Some? && Present(Trim(data.title.value))
      && TitleTaken(store, Trim(data.title.value), Some(id))
      ==> r == Err(TitleAlreadyExists)
    ensures HasId(store, id)
      && (data.title.Some? ==> Present(Trim(data.title.value)) && !TitleTaken(store, Trim(data.title.value), Some(id)))
      && file.Some? && !HasImageExtension(file.value.filename)
      ==> r == Err(InvalidImageType)
    ensures r.Ok? ==> var prev := FindById(store, id).value; var d := r.value.1;
      d.id == id && d.createdAt == prev.createdAt && d.updatedAt == now
      && d.fields.title == (if data.title.Some? then Trim(data.title.value) else prev.fields.title)
      && d.fields.description == data.description.GetOr(prev.fields.description)
      && d.fields.image == (if file.Some? then Some(UploadPath(ProductImageDir, now, SanitizeFilename(file.value.filename)))
                            else if data.image.Some? then data.image else prev.fields.image)
    ensures r.Ok? ==> FindById(r.value.0, id) == Some(r.value.1)
    ensures r.Ok? ==> forall x :: x != id ==> FindById(r.value.0, x) == FindById(store, x)
  {
    match FindById(store, id)
    case None => Err(ProductNotFound)
    case Some(existing) =>
      var title := if data.title.Some? then Trim(data.title.value) else existing.fields.title;
      if data.title.Some? && !Present(title) then Err(MissingRequired(["title"]))
      else if data.title.Some? && TitleTaken(store, title, Some(id)) then Err(TitleAlreadyExists)
      else
        match ImageAfterUpload(file, data.image, now)
        case Err(e) => Err(e)
        case Ok(image) =>
          var fields := ProductFields(title, data.description.GetOr(existing.fields.description),
            if image.Some? then image else existing.fields.image);
          var d := Doc(id, existing.createdAt, now, fields);
          Ok((ReplaceById(store, d), d))
  }

  /** `remove`: deletes the product with this id, whatever its contents, and echoes the id. */
  function Remove(store: seq<Product>, id: Id): (r: Result<(seq<Product>, Id), Error>)
    ensures r.Ok? <==> HasId(store, id)
    ensures r.Err? ==> r.error == ProductNotFound
    ensures r.Ok? ==> r.value.1 == id && |r.value.0| == |store| - 1
    ensures r.Ok? ==> forall x :: x != id ==> FindById(r.value.0, x) == FindById(store, x)
    ensures r.Ok? && UniqueIds(store) ==> UniqueIds(r.value.0) && !HasId(r.value.0, id)
  {
    if !HasId(store, id) then Err(ProductNotFound)
    else Ok((RemoveById(store, id), id))
  }

  /** `findAll`: rejects a page or limit below 1; otherwise one page of all products, sorted,
      and the number of products. */
  function FindAll(store: seq<Product>, input: ProductFilterInput): (r: Result<ListPage<Product>, Error>)
    ensures ValidatePaging(input.page, input.limit).Fail? ==> r == Err(ValidatePaging(input.page, input.limit).error)
    ensures r.Ok? <==> ValidatePaging(input.page, input.limit).Pass?
    ensures r.Ok? ==> |r.value.list| <= ProductPaging(input).limit
    ensures r.Ok? ==> Sorted(r.value.list, ProductPaging(input).sort, ProductPaging(input).direction)
    ensures r.Ok? ==> multiset(r.value.list) <= multiset(store)
    ensures r.Ok? ==> r.value.metaCounter == MetaCounter(|store|)
  {
    match ValidatePaging(input.page, input.limit)
    case Fail(e) => Err(e)
    case Pass => Ok(SortAndPage(store, ProductPaging(input)))
  }
}
