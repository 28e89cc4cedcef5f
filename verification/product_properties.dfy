/**
 * What the product service promises across calls: unique titles (which the
 * code as written does not keep, and the corrected operations do), every
 * product on some page of the listing, and image paths built from a
 * sanitized name that read back into their parts.
 */
module ProductProperties {
  import opened Wrappers
  import opened Errors
  import opened Ascii
  import opened Store
  import opened Schema
  import opened Filters
  import opened Listing
  import opened Uploads
  import opened FileValidator
  import opened Sanitize
  import opened ProductService

  lemma TrimOfPaddedFoo()
    ensures Trim("Foo ") == "Foo"
  {
    assert TrimStart("Foo ") == "Foo ";
    assert TrimEnd(" ") == "";
    assert TrimEnd("o ") == "o";
    assert TrimEnd("oo ") == "oo";
    assert TrimEnd("Foo ") == "Foo";
  }

  const PaddedFoo: CreateProductInput := CreateProductInput("Foo ", "d", None)

  function FooDoc(id: Id, t: nat): Product {
    Doc(id, t, t, ProductFields("Foo ", "d", None))
  }

  lemma FirstPaddedFoo()
    ensures CreateAsWritten([], 1, 0, PaddedFoo, None) == Ok(([FooDoc(1, 0)], FooDoc(1, 0)))
  {
    var empty: seq<Product> := [];
    PaddedFooFree(empty, None);
    assert empty + [FooDoc(1, 0)] == [FooDoc(1, 0)];
  }

  /** No product titled "Foo" means the trimmed "Foo " is free, whoever asks. */
  lemma PaddedFooFree(store: seq<Product>, except: Option<Id>)
    requires forall i :: 0 <= i < |store| ==> store[i].fields.title != "Foo"
    ensures !TitleTaken(store, Trim(PaddedFoo.title), except)
  {
    TrimOfPaddedFoo();
    forall i | 0 <= i < |store|
      ensures !HoldsTitle(store[i], "Foo", except)
    {
    }
  }

  lemma SecondPaddedFoo()
    ensures CreateAsWritten([FooDoc(1, 0)], 2, 1, PaddedFoo, None) == Ok(([FooDoc(1, 0), FooDoc(2, 1)], FooDoc(2, 1)))
  {
    var store := [FooDoc(1, 0)];
    assert "Foo " != "Foo" by {
      assert |"Foo "| != |"Foo"|;
    }
    PaddedFooFree(store, None);
    assert store[0].id != 2;
    assert store + [FooDoc(2, 1)] == [FooDoc(1, 0), FooDoc(2, 1)];
  }

  /** Creating "Foo " twice succeeds under the code as written: the lookup asks for "Foo", the
      stored title is "Foo ", and the collection ends up with two products of the same title. */
  lemma DuplicateTitleOnCreate()
    ensures CreateAsWritten([], 1, 0, PaddedFoo, None).Ok?
    ensures CreateAsWritten(CreateAsWritten([], 1, 0, PaddedFoo, None).value.0, 2, 1, PaddedFoo, None).Ok?
    ensures !TitlesDistinct(CreateAsWritten(CreateAsWritten([], 1, 0, PaddedFoo, None).value.0, 2, 1, PaddedFoo, None).value.0)
  {
    FirstPaddedFoo();
    SecondPaddedFoo();
    var s2 := [FooDoc(1, 0), FooDoc(2, 1)];
    assert s2[0].fields.title == s2[1].fields.title;
  }

  const BarDoc: Product := Doc(2, 0, 0, ProductFields("Bar", "d", None))

  const RenameToPaddedFoo: UpdateProductInput := UpdateProductInput(2, Some("Foo "), None, None)

  const RenamedBarDoc: Product := Doc(2, 0, 5, ProductFields("Foo ", "d", None))

  lemma BarFound()
    ensures FindById([FooDoc(1, 0), BarDoc], 2) == Some(BarDoc)
  {
    assert [FooDoc(1, 0), BarDoc][1..] == [BarDoc];
  }

  lemma RenameNoClash()
    ensures !TitleClashAsWritten([FooDoc(1, 0), BarDoc], 2, "Bar", Some("Foo "))
  {
    var store := [FooDoc(1, 0), BarDoc];
    assert "Foo " != "Foo" by {
      assert |"Foo "| != |"Foo"|;
    }
    assert "Bar" != "Foo" by {
      assert "Bar"[0] != "Foo"[0];
    }
    PaddedFooFree(store, Some(2));
  }

  lemma RenameReplaces()
    ensures ReplaceById([FooDoc(1, 0), BarDoc], RenamedBarDoc) == [FooDoc(1, 0), RenamedBarDoc]
  {
    var store := [FooDoc(1, 0), BarDoc];
    assert UniqueIds(store);
    ReplaceByIdPointwise(store, RenamedBarDoc);
  }

  lemma RenamedBar()
    ensures UpdateAsWritten([FooDoc(1, 0), BarDoc], 2, RenameToPaddedFoo, None, 5)
      == Ok(([FooDoc(1, 0), RenamedBarDoc], RenamedBarDoc))
  {
    BarFound();
    RenameNoClash();
    RenameReplaces();
  }

  /** Renaming a product to "Foo " when another is stored as "Foo " succeeds under the code as
      written, for the same reason. */
  lemma DuplicateTitleOnUpdate()
    ensures UpdateAsWritten([FooDoc(1, 0), BarDoc], 2, RenameToPaddedFoo, None, 5).Ok?
    ensures !TitlesDistinct(UpdateAsWritten([FooDoc(1, 0), BarDoc], 2, RenameToPaddedFoo, None, 5).value.0)
  {
    RenamedBar();
    var s := [FooDoc(1, 0), RenamedBarDoc];
    assert s[0].fields.title == s[1].fields.title;
  }

  /** Every title the corrected operations store is already trimmed. */
  predicate TitlesTrimmed(store: seq<Product>) {
    forall i :: 0 <= i < |store| ==> Trim(store[i].fields.title) == store[i].fields.title
  }

  /** Appending a product whose title no stored product has keeps titles unique. */
  lemma AppendKeepsTitlesDistinct(store: seq<Product>, d: Product)
    requires TitlesDistinct(store)
    requires !TitleTaken(store, d.fields.title, None)
    ensures TitlesDistinct(store + [d])
  {
    var after := store + [d];
    forall i, j | 0 <= i < j < |after|
      ensures after[i].fields.title != after[j].fields.title
    {
      assert after[i] == store[i];
      if j < |store| {
        assert after[j] == store[j];
      } else {
        assert after[j] == d;
        assert !HoldsTitle(store[i], d.fields.title, None);
      }
    }
  }

  /** The corrected `create` appends the product it returns. */
  lemma CreateAppends(store: seq<Product>, newId: Id, now: nat, data: CreateProductInput, file: Option<FileUpload>)
    requires !HasId(store, newId)
    requires Create(store, newId, now, data, file).Ok?
    ensures Create(store, newId, now, data, file).value.0 == store + [Create(store, newId, now, data, file).value.1]
  {
  }

  /** The corrected `create` keeps titles unique and trimmed. */
  lemma CreateKeepsTitlesDistinct(store: seq<Product>, newId: Id, now: nat, data: CreateProductInput, file: Option<FileUpload>)
    requires !HasId(store, newId)
    requires TitlesDistinct(store) && TitlesTrimmed(store)
    requires Create(store, newId, now, data, file).Ok?
    ensures TitlesDistinct(Create(store, newId, now, data, file).value.0)
    ensures TitlesTrimmed(Create(store, newId, now, data, file).value.0)
  {
    var d := Create(store, newId, now, data, file).value.1;
    CreateAppends(store, newId, now, data, file);
    TrimIdempotent(data.title);
    AppendKeepsTitlesDistinct(store, d);
    AppendKeepsTitlesTrimmed(store, d);
  }

  /** Appending a product with a trimmed title keeps every title trimmed. */
  lemma AppendKeepsTitlesTrimmed(store: seq<Product>, d: Product)
    requires TitlesTrimmed(store)
    requires Trim(d.fields.title) == d.fields.title
    ensures TitlesTrimmed(store + [d])
  {
    var after := store + [d];
    forall i | 0 <= i < |after|
      ensures Trim(after[i].fields.title) == after[i].fields.title
    {
      if i < |store| {
        assert after[i] == store[i];
      }
    }
  }

  /** Replacing, in a collection with unique ids, the product with `d`'s id by `d` keeps titles
      unique when no other product has `d`'s title. */
  lemma ReplaceKeepsTitlesDistinct(store: seq<Product>, d: Product)
    requires UniqueIds(store) && TitlesDistinct(store)
    requires !TitleTaken(store, d.fields.title, Some(d.id))
    ensures TitlesDistinct(ReplaceById(store, d))
  {
    var after := ReplaceById(store, d);
    ReplaceByIdPointwise(store, d);
    forall i, j | 0 <= i < j < |after|
      ensures after[i].fields.title != after[j].fields.title
    {
      if store[i].id == d.id {
        assert store[j].id != d.id;
        assert !HoldsTitle(store[j], d.fields.title, Some(d.id));
      } else if store[j].id == d.id {
        assert !HoldsTitle(store[i], d.fields.title, Some(d.id));
      }
    }
  }

  /** With unique titles, a product's own title is held by no other product. */
  lemma OwnTitleIsFree(store: seq<Product>, p: nat)
    requires TitlesDistinct(store) && p < |store|
    ensures !TitleTaken(store, store[p].fields.title, Some(store[p].id))
  {
    forall i | 0 <= i < |store|
      ensures !HoldsTitle(store[i], store[p].fields.title, Some(store[p].id))
    {
      if i < p {
        assert store[i].fields.title != store[p].fields.title;
      } else if p < i {
        assert store[p].fields.title != store[i].fields.title;
      }
    }
  }

  /** Replacing a product by one with a trimmed title keeps every title trimmed. */
  lemma ReplaceKeepsTitlesTrimmed(store: seq<Product>, d: Product)
    requires UniqueIds(store) && TitlesTrimmed(store)
    requires Trim(d.fields.title) == d.fields.title
    ensures TitlesTrimmed(ReplaceById(store, d))
  {
    ReplaceByIdPointwise(store, d);
  }

  /** The corrected `update` keeps titles unique and trimmed, when ids are unique. */
  lemma UpdateKeepsTitlesDistinct(store: seq<Product>, id: Id, data: UpdateProductInput, file: Option<FileUpload>, now: nat)
    requires UniqueIds(store) && TitlesDistinct(store) && TitlesTrimmed(store)
    requires Update(store, id, data, file, now).Ok?
    ensures TitlesDistinct(Update(store, id, data, file, now).value.0)
    ensures TitlesTrimmed(Update(store, id, data, file, now).value.0)
  {
    var r := Update(store, id, data, file, now);
    var after := r.value.0;
    var d := r.value.1;
    assert after == ReplaceById(store, d);
    assert d.id == id;
    var prev := FindById(store, id).value;
    var p :| 0 <= p < |store| && store[p] == prev;
    if data.title.None? {
      OwnTitleIsFree(store, p);
    }
    ReplaceKeepsTitlesDistinct(store, d);
    if data.title.Some? {
      TrimIdempotent(data.title.value);
    }
    ReplaceKeepsTitlesTrimmed(store, d);
  }

  /** Every stored product is on one of the listing's pages. */
  lemma {:induction false} EveryProductIsListed(store: seq<Product>, input: ProductFilterInput, d: Product) returns (page: int)
    requires FindAll(store, input).Ok?
    requires d in store
    ensures 1 <= page <= PageCount(|store|, ProductPaging(input).limit)
    ensures FindAll(store, input.(page := Some(page))).Ok?
    ensures d in FindAll(store, input.(page := Some(page))).value.list
  {
    var paging := ProductPaging(input);
    var sorted := SortDocs(store, paging.sort, paging.direction);
    assert d in multiset(sorted);
    var k :| 0 <= k < |sorted| && sorted[k] == d;
    page := OnSomePage(sorted, paging.limit, k);
    var input' := input.(page := Some(page));
    assert ProductPaging(input') == paging.(page := page);
    assert FindAll(store, input').value.list == PageSlice(sorted, page, paging.limit);
  }

  /** Walking through the pages 1 to ceil(n / limit) of the product listing yields every
      product once, in sorted order: with page k the k-th slice of the sorted products (see
      `ProductPageIsSlice`), those slices laid end to end are all the products. */
  lemma ProductPagesCoverListing(store: seq<Product>, input: ProductFilterInput)
    requires FindAll(store, input).Ok?
    ensures Pages(SortDocs(store, ProductPaging(input).sort, ProductPaging(input).direction), ProductPaging(input).limit,
                  PageCount(|store|, ProductPaging(input).limit))
      == SortDocs(store, ProductPaging(input).sort, ProductPaging(input).direction)
  {
    var paging := ProductPaging(input);
    var listing := SortDocs(store, paging.sort, paging.direction);
    assert |listing| == |store| by {
      assert |multiset(listing)| == |multiset(store)|;
    }
    PagesCoverAll(listing, paging.limit);
  }

  /** Page k of the product listing is the k-th slice of all products, sorted. */
  lemma ProductPageIsSlice(store: seq<Product>, input: ProductFilterInput, k: int)
    requires FindAll(store, input).Ok? && k >= 1
    ensures FindAll(store, input.(page := Some(k))).Ok?
    ensures FindAll(store, input.(page := Some(k))).value.list
      == PageSlice(SortDocs(store, ProductPaging(input).sort, ProductPaging(input).direction), k, ProductPaging(input).limit)
  {
    assert ProductPaging(input.(page := Some(k))) == ProductPaging(input).(page := k);
  }

  /** An uploaded product image is stored under `/uploads/products/<now>-<name>`, with the name
      the sanitized file name, and only after the raw file name passed the image check; so
      `SanitizedImageNameIsSafe` applies to that name. This holds for `create` as written and
      for the corrected one. */
  lemma ProductImagePath(store: seq<Product>, newId: Id, now: nat, data: CreateProductInput, f: FileUpload)
    requires !HasId(store, newId)
    ensures CreateAsWritten(store, newId, now, data, Some(f)).Ok? ==>
      CreateAsWritten(store, newId, now, data, Some(f)).value.1.fields.image
        == Some(UploadPath(ProductImageDir, now, SanitizeFilename(f.filename)))
      && ValidateImageFile(f.filename).Pass?
    ensures Create(store, newId, now, data, Some(f)).Ok? ==>
      Create(store, newId, now, data, Some(f)).value.1.fields.image
        == Some(UploadPath(ProductImageDir, now, SanitizeFilename(f.filename)))
      && ValidateImageFile(f.filename).Pass?
  {
    ValidateImageFileSpec(f.filename, DefaultMaxSizeMB);
  }

  /** The same for `update`, as written and corrected: an uploaded image replaces the stored
      path with the path of its copy under the sanitized name. */
  lemma ProductUpdateImagePath(store: seq<Product>, id: Id, data: UpdateProductInput, f: FileUpload, now: nat)
    ensures UpdateAsWritten(store, id, data, Some(f), now).Ok? ==>
      UpdateAsWritten(store, id, data, Some(f), now).value.1.fields.image
        == Some(UploadPath(ProductImageDir, now, SanitizeFilename(f.filename)))
      && ValidateImageFile(f.filename).Pass?
    ensures Update(store, id, data, Some(f), now).Ok? ==>
      Update(store, id, data, Some(f), now).value.1.fields.image
        == Some(UploadPath(ProductImageDir, now, SanitizeFilename(f.filename)))
      && ValidateImageFile(f.filename).Pass?
  {
    ValidateImageFileSpec(f.filename, DefaultMaxSizeMB);
  }

  /** A create request with both required fields empty is refused with one error naming both,
      as written and corrected. */
  lemma BothEmptyProductFieldsReported(store: seq<Product>, newId: Id, now: nat, file: Option<FileUpload>)
    requires !HasId(store, newId)
    ensures CreateAsWritten(store, newId, now, CreateProductInput("", "", None), file)
      == Err(MissingRequired(["title", "description"]))
    ensures Create(store, newId, now, CreateProductInput("", "", None), file)
      == Err(MissingRequired(["title", "description"]))
  {
  }
}
