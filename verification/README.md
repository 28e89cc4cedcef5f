# News and product services — a Dafny model

This project models the core of a small NestJS/MongoDB content backend. The backend has two
collections, news and products. For each it offers create, list, find-one, update and remove,
with image uploads for both and video uploads for news.

The model covers:

- **The listing engine** (`findAll` of both services). It matches news by status, fills in
  ACTIVE for news stored without a status, sorts by a key in ASC or DESC order, and takes the
  page `[(page - 1) * limit, (page - 1) * limit + limit)`. It reports the matched total as
  `metaCounter`: `[total]`, or `[]` when nothing matched. The defaults and the `@Min(1)` checks
  of the two filter inputs come first.
- **The collections as state machines.** The database is a sequence of documents with unique
  ids (`Store`). `create`, `findOne`, `update` and `remove` are pure functions that return the
  new collection and the result, or an error.
  - Removing a news item requires its status to be DELETE. `update` may set any status.
  - Products are checked for duplicate titles against the trimmed title. The code as written
    stores the untrimmed title, which lets duplicates in (see Findings). The model also keeps
    a corrected pair of operations that trim before checking and before storing.
- **The upload rules**:
  - the image-extension check `validateImageFile`;
  - the video MIME allow-list and 25 MiB ceiling;
  - the product service's `sanitizeFilename`;
  - the stored path `/uploads/<dir>/<timestamp>-<name>`.

The clock (`Date.now()`) and the database's id generator are parameters (`now`, `newId`). An
upload is its file name, declared MIME type and byte count. Strings are ASCII: `toLowerCase`,
`\s` and `trim` are modelled on ASCII characters only.

Modules, one per file: `Wrappers`, `Errors`, `Ascii`, `FileValidator`, `Sanitize`, `Uploads`,
`Store`, `Schema`, `Filters`, `Listing`, `NewsService`, `NewsProperties`, `ProductService`,
`ProductProperties`.

Behaviour of the code that the model keeps:

- With no status filter, news listing selects ACTIVE news and news stored without a status.
  PAUSE news is not listed (`src/news/news.service.ts:98-113`).
- A news listing filtered by DELETE is rejected (`src/news/news.service.ts:100-102`).
- News titles are not checked for uniqueness. Only product titles are.
- `CreateNewsInput` declares no `status` field, but the service reads `data.status ?? PAUSE`.
  The model gives the input an optional status, so both paths are covered. Through the GraphQL
  schema the status is always absent, so a new news item is always PAUSE.
- The global validation pipe (`main.ts:16`) runs every constraint of an input and throws one
  error that lists every failing property. The model's validation errors therefore carry the
  list of failing fields, in the order the input declares them.

## Model

| member | source | states |
|---|---|---|
| `Ascii.LastIndexOf` | src/product/product.service.ts:20 | The result is -1 or an index holding the character, and no later index holds it. |
| `Ascii.TrimSpec` | src/product/product.service.ts:38 | `trim` removes exactly the white space at both ends: the result is a contiguous part of the input, neither starts nor ends with white space, and only white space lies outside it. |
| `Ascii.TrimIdempotent` | src/product/product.service.ts:136 | Trimming an already trimmed title changes nothing. |
| `FileValidator.LastSegment` | src/common/utils/file-validator.ts:8 | `split('.').pop()` of the lower-cased name holds no dot, and the lower-cased name either is it or ends in a dot followed by it. So it is the text after the last dot, or the whole name when there is no dot. |
| `FileValidator.LastSegmentOfNamed` | src/common/utils/file-validator.ts:8 | A dot-free text that the lower-cased name is, or ends with after a dot, is the last segment: no other text satisfies `LastSegment`'s contract. |
| `FileValidator.ValidateImageFileSpec` | src/common/utils/file-validator.ts:3-15 | The check passes iff the lower-cased name is `jpg`, `jpeg` or `png`, or ends in `.jpg`, `.jpeg` or `.png`. Any other name fails with the invalid-type error, an empty last segment included. |
| `FileValidator.MaxSizeIgnored` | src/common/utils/file-validator.ts:5-14 | The `maxSizeMB` argument never changes the outcome. |
| `FileValidator.UpperCaseAccepted` | src/common/utils/file-validator.ts:8 | `A.PNG` is accepted: case does not matter. |
| `FileValidator.MixedCaseAccepted` | src/common/utils/file-validator.ts:8 | `b.JpEg` is accepted. |
| `FileValidator.InnerImageExtensionRejected` | src/common/utils/file-validator.ts:8-10 | `x.png.exe` is rejected: only the last extension counts. |
| `FileValidator.LastImageExtensionAccepted` | src/common/utils/file-validator.ts:8-10 | `x.exe.jpg` is accepted. |
| `FileValidator.TrailingDotRejected` | src/common/utils/file-validator.ts:8-10 | `x.` leaves an empty extension and is rejected. |
| `FileValidator.BareExtensionAccepted` | src/common/utils/file-validator.ts:8 | A name without a dot is judged whole: `png` is accepted. |
| `FileValidator.BareNameRejected` | src/common/utils/file-validator.ts:8-10 | `photo` is rejected. |
| `Sanitize.CollapseRunsShape` | src/product/product.service.ts:27-29 | After `/\s+/g` → `_` (and `/_{2,}/g` → `_`), every character is `_` or an input character outside the runs, and no two run characters stand side by side. |
| `Sanitize.CollapseRunsSpec` | src/product/product.service.ts:27-29 | The run replacement equals a reference read one character at a time: every character outside the class stays in place, the first character of each maximal run becomes one `_`, and the rest of the run vanishes. |
| `Sanitize.KeepWordCharsShape` | src/product/product.service.ts:28 | Removing `[^a-zA-Z0-9_-]` leaves only word characters, and every word character of the input occurs in the result. |
| `Sanitize.KeepWordCharsFilter` | src/product/product.service.ts:28 | Removing `[^a-zA-Z0-9_-]` works character by character: one character is kept iff it is a word character, and the result for `a + b` is the result for `a` followed by the result for `b`. So the word characters are kept in order and with their multiplicity. |
| `Sanitize.SanitizeNameShape` | src/product/product.service.ts:26-30 | The sanitized name part uses only `[a-z0-9_-]` and never holds two underscores in a row. |
| `Sanitize.SanitizeNameIdempotent` | src/product/product.service.ts:26-30 | Sanitizing a sanitized name part changes nothing. |
| `Sanitize.SanitizeFilenameSplit` | src/product/product.service.ts:20-23 | The name is split at the last dot only when that dot's index is above 0. The output is then the sanitized part before the dot, the dot, and the lower-cased text after it. Otherwise the whole name is sanitized and there is no extension. |
| `Sanitize.SanitizeFilenameDots` | src/product/product.service.ts:18-33 | The output holds at most one dot. A dot occurs only where the extension starts: before it everything is `[a-z0-9_-]`, and from it on is the lower-cased text from the input's last dot. |
| `Sanitize.LastSegmentAfterSplit` | src/product/product.service.ts:20-32 | The lower-cased extension that sanitizing keeps is exactly the last segment the image check judged. |
| `Sanitize.SanitizedImageNameIsSafe` | src/product/product.service.ts:48-50 | A name the image check accepted sanitizes to `[a-z0-9_.-]` with at most one dot. When it was split, it ends in `.` and the accepted extension. |
| `Uploads.ValidateVideoFile` | src/news/news.service.ts:47-75 | A video passes iff its MIME type is `video/mp4`, `video/webm` or `video/ogg` and it holds at most 25·1024·1024 bytes. A wrong type gives the type error before the size is considered. |
| `Uploads.StreamSizeCheckIsTotalCheck` | src/news/news.service.ts:61-71 | Adding each chunk's length to a running count and aborting once it passes 25·1024·1024 rejects a stream exactly when its total passes the ceiling, always with the size error. |
| `Uploads.StreamedVideoCheck` | src/news/news.service.ts:47-71 | The total-size video check equals the MIME check followed by the chunk-by-chunk size check, however the bytes are split into chunks. |
| `Uploads.ParseUploadPathOfUploadPath` | src/news/news.service.ts:30-42 | `/uploads/<dir>/<timestamp>-<name>` reads back into the directory, the timestamp and the name. |
| `Uploads.UploadPathInjective` | src/news/news.service.ts:30-42 | In one directory, two uploads share a stored path only when their timestamps and names agree. |
| `Uploads.UploadPathExample` | src/news/news.service.ts:30-42 | `a.png` uploaded to the news directory at time 42 is stored as `/uploads/news/42-a.png`. |
| `Filters.CheckMin1` | src/news/dto/news-filter.input.ts:24-32 | `@IsOptional() @Min(1)` on one field reports nothing iff the value is absent or at least 1, and reports exactly that field otherwise. |
| `Filters.ValidatePaging` | src/product/dto/product-filter.input.ts:7-15 | The paging fields pass iff each supplied page and limit is at least 1. Otherwise one error lists exactly the failing fields, each once, `page` before `limit`. |
| `Filters.BothPagingFieldsReported` | src/product/dto/product-filter.input.ts:7-15 | Page 0 with limit 0 is refused with one error naming `page` and `limit`. |
| `Filters.ResolvePaging` | src/news/news.service.ts:91-97 | Filling in the defaults of a validated request always gives a page and a limit of at least 1. |
| `Filters.NewsFilterDefaults` | src/news/dto/news-filter.input.ts:24-48 | An absent page, limit, sort or direction means 1, 5, `createdAt` and DESC. The status is ACTIVE when there is no search, and also when the search has no status. A supplied value is taken as it is. |
| `Filters.ProductFilterDefaults` | src/product/dto/product-filter.input.ts:7-27 | The same defaults for products, which have no status to select by. |
| `Store.FindById` | src/news/news.service.ts:156 | `findById` finds a document iff one has the id, and what it finds carries that id and is stored. |
| `Store.Insert` | src/news/news.service.ts:80-85 | The new document is found under its id, every other id finds what it found before, the collection grows by one, and ids stay unique. |
| `Store.ReplaceById` | src/news/news.service.ts:243-245 | `findByIdAndUpdate` puts the new document under its id and leaves every other id and the size alone. An unknown id changes nothing. |
| `Store.ReplaceByIdPointwise` | src/product/product.service.ts:179-181 | With unique ids, replacing changes exactly the position holding the id. |
| `Store.RemoveById` | src/news/news.service.ts:268 | `findByIdAndDelete` removes the id, shrinks the collection by one, leaves every other id alone, and an unknown id changes nothing. |
| `Listing.SortDocs` | src/news/news.service.ts:116-128 | `$sort` returns a permutation of the matched documents, ordered by the key ascending for ASC and descending otherwise. |
| `Listing.PageSlice` | src/news/news.service.ts:132-133 | `$skip`/`$limit` returns at most `limit` documents. The k-th is the document at `(page - 1) * limit + k`, and the length is what remains after the skip, capped at `limit`. |
| `Listing.MetaCounter` | src/news/news.service.ts:140 | `$count` yields `[]` iff nothing matched, and `[total]` otherwise. |
| `Listing.SortAndPage` | src/news/news.service.ts:128-142 | A page is sorted, holds at most `limit` documents, all of them matched, and comes with the counter of the whole matched set. |
| `Listing.PagesArePrefix` | src/news/news.service.ts:132-133 | Pages 1 to n laid end to end are the first `n * limit` documents: none is skipped and none repeated. |
| `Listing.PagesCoverAll` | src/news/news.service.ts:132-133 | Pages 1 to ceil(total / limit) laid end to end are the whole sequence. |
| `Listing.PagesPastTheEndAreEmpty` | src/news/news.service.ts:132-133 | A page past ceil(total / limit) is empty. |
| `Listing.OnSomePage` | src/news/news.service.ts:132-133 | The document at position k is on page `k / limit + 1`, which is at most ceil(total / limit). |
| `NewsService.ValidateCreateInput` | src/news/dto/create-news.input.ts:6-12 | `@IsNotEmpty()` on title and on content: passes iff both are non-empty. Otherwise one error lists exactly the empty fields, each once, `title` before `content`. |
| `NewsService.ImageAfterUpload` | src/news/news.service.ts:25-43 | No file keeps the given path. An image file is stored as `/uploads/news/<now>-<filename>` under its raw name. Any other file is rejected with the invalid-type error. |
| `NewsService.VideoAfterUpload` | src/news/news.service.ts:45-78 | No file keeps the given path. An acceptable video is stored as `/uploads/videos/<now>-<filename>`. Any other video is rejected with the video check's error. |
| `NewsService.Create` | src/news/news.service.ts:18-86 | Succeeds iff title and content are non-empty, an image file has an image extension, and a video file passes the video check. The required fields are checked first, with the validation error naming every empty one, then the image (InvalidImageType), then the video, whose MIME or size error is returned as the video check gives it. The stored item has the given fields, status given-or-PAUSE, the upload paths, both timestamps `now`, and the new id. Nothing else changes. |
| `NewsService.FindOne` | src/news/news.service.ts:155-161 | Finds the stored item with the id, or fails with not-found iff there is none. |
| `NewsService.Update` | src/news/news.service.ts:163-252 | Not-found for an unknown id. Then the image check (InvalidImageType), then the video check, whose MIME or size error is returned as it gives it. On success every supplied field replaces the stored one, any status including DELETE; uploads replace the paths; `createdAt` is kept and `updatedAt` is `now`. No other id changes. |
| `NewsService.Remove` | src/news/news.service.ts:254-271 | Not-found for an unknown id. Refused unless the stored status is DELETE. Otherwise removes exactly that item, leaves every other id alone, and echoes the id. |
| `NewsService.MatchNews` | src/news/news.service.ts:105-113 | The `$match` stage keeps each document exactly as often as it is stored when it matches, and drops it otherwise. ACTIVE matches ACTIVE or no status; any other filter matches that status exactly. |
| `NewsService.Normalize` | src/news/news.service.ts:121-127 | `$addFields` reports a missing status as ACTIVE and changes nothing else. A document that has a status is left as it is. |
| `NewsService.ListedNews` | src/news/news.service.ts:119-128 | The full listing is sorted and is a permutation of the matched, normalized documents. |
| `NewsService.FindAll` | src/news/news.service.ts:88-153 | Rejects a page or limit below 1, then the status DELETE, and succeeds otherwise. The page is sorted and holds at most `limit` items. The counter is that of all matched news. |
| `NewsProperties.MatchedNewsMatch` | src/news/news.service.ts:105-113 | Every matched document is stored and matches the filter. |
| `NewsProperties.ListedNewsComeFromStore` | src/news/news.service.ts:105-142 | Every listed item is a stored item the filter selects, normalized, and carries the status that was listed. |
| `NewsProperties.NoDeletedNewsListed` | src/news/news.service.ts:100-113 | No successful listing shows an item marked DELETE, or one stored as DELETE. |
| `NewsProperties.FoundIsTheOne` | src/news/news.service.ts:156 | With unique ids, looking up a stored item's id finds that item. |
| `NewsProperties.DefaultListingShowsActive` | src/news/news.service.ts:98-113 | Without a search filter, every listed item was stored as ACTIVE or without a status. |
| `NewsProperties.EveryMatchingNewsIsListed` | src/news/news.service.ts:119-143 | Every stored item the filter selects appears, normalized, on some page between 1 and ceil(total / limit). |
| `NewsProperties.NewsPageIsSlice` | src/news/news.service.ts:129-139 | Page n is the n-th `limit`-slice of the one sorted listing fixed by the status, sort and direction. |
| `NewsProperties.NewsPagesCoverListing` | src/news/news.service.ts:116-149 | The listing holds as many items as matched, and pages 1 to ceil(total / limit) laid end to end are exactly the listing. |
| `NewsProperties.MetaCounterIgnoresPaging` | src/news/news.service.ts:140 | Two listings with the same status report the same counter, whatever their page, limit, sort or direction. |
| `NewsProperties.CreatedNewsIsHiddenByDefault` | src/news/schemas/news.schema.ts:26 | A news item created without a status is stored as PAUSE, and the default listing does not show it. |
| `NewsProperties.MarkThenRemove` | src/news/news.service.ts:241-270 | Updating an item's status to DELETE and then removing it succeeds. Afterwards the id is gone and every other id is untouched. |
| `NewsProperties.RemoveNeedsDeleteStatus` | src/news/news.service.ts:260-265 | Removing an item whose status is not DELETE fails with the policy error. |
| `NewsProperties.CreateThenFindOne` | src/news/news.service.ts:80-85 | `findOne` on a newly created item's id returns that item. |
| `NewsProperties.EmptyUpdateOnlyTouches` | src/news/news.service.ts:175-176 | An update that supplies nothing changes only `updatedAt`, and the id inside the input plays no part. |
| `NewsProperties.BothEmptyFieldsReported` | src/news/dto/create-news.input.ts:6-12 | Creating news with an empty title and an empty content fails with one error naming `title` and `content`, whatever the uploads. |
| `ProductService.ValidateCreateInput` | src/product/dto/create-product.input.ts:6-12 | `@IsNotEmpty()` on title and on description: passes iff both are non-empty. Otherwise one error lists exactly the empty fields, each once, `title` before `description`. |
| `ProductService.ImageAfterUpload` | src/product/product.service.ts:44-71 | No file keeps the given path. An image file is stored as `/uploads/products/<now>-<sanitized name>`. Any other file is rejected. |
| `ProductService.CreateAsWritten` | src/product/product.service.ts:35-77 | As written: succeeds iff title and description are non-empty, no product holds the trimmed title, and an image file has an image extension. The errors come in this order: the validation error naming every empty field, then the title-exists error for a taken trimmed title, then InvalidImageType for a file without an image extension. It stores the title untrimmed. |
| `ProductService.Create` | src/product/product.service.ts:35-77 | Corrected: succeeds iff the trimmed title and the description are non-empty, no product holds the trimmed title, and an image file is valid. The errors come in this order: the validation error, then the missing-title error for a blank title, then the title-exists error, then InvalidImageType for a file without an image extension. It stores the trimmed title. |
| `ProductService.FindOne` | src/product/product.service.ts:121-127 | Finds the stored product with the id, or fails with not-found iff there is none. |
| `ProductService.UpdateAsWritten` | src/product/product.service.ts:129-188 | As written: not-found for an unknown id. A non-empty title whose trimmed form differs from the stored one is refused with the title-exists error when another product holds the trimmed form. After that title check, a file without an image extension gives InvalidImageType. The supplied fields are stored untrimmed. |
| `ProductService.Update` | src/product/product.service.ts:129-188 | Corrected: a supplied title is trimmed, must be non-empty (else the missing-title error), and must not be held by another product (else the title-exists error). After the title, a file without an image extension gives InvalidImageType. The title is stored trimmed. Other fields merge as written. |
| `ProductService.Remove` | src/product/product.service.ts:190-199 | Not-found for an unknown id. Otherwise removes exactly that product, with no status condition, and leaves every other id alone. |
| `ProductService.FindAll` | src/product/product.service.ts:79-119 | Rejects a page or limit below 1. Otherwise the page is sorted, holds at most `limit` stored products, and comes with the counter of all products. |
| `ProductProperties.DuplicateTitleOnCreate` | src/product/product.service.ts:37-42 | Creating "Foo " twice on an empty collection succeeds both times under the code as written, leaving two products with the same title. |
| `ProductProperties.DuplicateTitleOnUpdate` | src/product/product.service.ts:136-144 | Under the code as written, renaming "Bar" to "Foo " next to a stored "Foo " succeeds and leaves two products titled "Foo ". |
| `ProductProperties.CreateKeepsTitlesDistinct` | src/product/product.service.ts:73-76 | The corrected create keeps product titles distinct and trimmed. |
| `ProductProperties.UpdateKeepsTitlesDistinct` | src/product/product.service.ts:179-181 | The corrected update keeps product titles distinct and trimmed, when ids are unique. |
| `ProductProperties.EveryProductIsListed` | src/product/product.service.ts:93-108 | Every stored product is on some page between 1 and ceil(n / limit). |
| `ProductProperties.ProductPageIsSlice` | src/product/product.service.ts:96-99 | Page k is the k-th `limit`-slice of all products, sorted. |
| `ProductProperties.ProductPagesCoverListing` | src/product/product.service.ts:82-118 | Pages 1 to ceil(n / limit) laid end to end are all products, sorted. |
| `ProductProperties.ProductImagePath` | src/product/product.service.ts:48-70 | For `create` as written and corrected, an uploaded product image is stored under `/uploads/products/<now>-<sanitized name>`, and only after the raw name passed the image check. |
| `ProductProperties.ProductUpdateImagePath` | src/product/product.service.ts:149-173 | For `update` as written and corrected, an uploaded image replaces the stored path by `/uploads/products/<now>-<sanitized name>`, and only after the raw name passed the image check. |
| `ProductProperties.BothEmptyProductFieldsReported` | src/product/dto/create-product.input.ts:6-12 | Creating a product with an empty title and an empty description fails, as written and corrected, with one error naming `title` and `description`. |

## Left out

- Streams and the file system: `createReadStream`/`createWriteStream` piping, `mkdirSync` and
  write errors are not modelled. An upload is its name, its MIME type and its total byte
  count.
- `Uploads.ValidateVideoFile`: the 25 MiB abort fires during streaming on the running byte
  count. It is modelled as a check on the total size, made after the MIME check.
  `Uploads.StreamedVideoCheck` proves the two agree. The bytes already written when the
  stream is aborted are not modelled.
- Files written to disk before a later check fails are not modelled. For example, the image
  is written before the video is rejected. In the model a rejected request writes nothing.
- The clock and ids: `Date.now()` and the database's ObjectIds are parameters. One `now`
  serves the image path, the video path and both timestamps. The source reads the clock
  separately for each.
- A malformed id string is not modelled: the source's `findById` raises a cast error on one.
  Ids are naturals here.
- The `$toString` projection of `_id` into `id` is not modelled, and neither is any field
  other than the listed ones.
- `Listing.SortDocs`: only `createdAt` and `updatedAt` are modelled as sort keys. Any other
  field name gives every document the same key. Ties keep collection order; MongoDB does not
  promise any tie order.
- The branch that returns an empty listing when the aggregation returns no result is not
  modelled. A `$facet` stage always returns one result, so the branch cannot run.
- Listing does not modify the collection. This holds by construction: `FindAll` returns only
  a page.
- The race in which `findByIdAndUpdate` finds no document after `findById` found one is not
  modelled. It needs a concurrent removal.
- Explicit `null` values in inputs are not modelled: an optional field is either supplied or
  absent.
- Unicode is not modelled. `toLowerCase`, `\s` and `trim` are modelled on ASCII.
- The upload middleware's `maxFileSize` and `maxFiles` limits (`main.ts`) are not modelled.
- These parts of the repository are not part of this model:
  - the resolvers, which are thin wrappers;
  - the admin React UI and its upload client;
  - authentication;
  - the inquiry service;
  - the logging interceptor;
  - module wiring, database configuration and the seed scripts.

## Findings

| source | as written | input that shows it | evidently intended | confidence | as-written member | corrected member |
|---|---|---|---|---|---|---|
| src/product/product.service.ts:35-77 | `create` looks up `title.trim()` but stores `data.title` untrimmed | create `"Foo "` twice on an empty collection: the lookup asks for `"Foo"`, finds nothing both times, and two products titled `"Foo "` are stored | product titles stay unique; the title is trimmed before it is checked and before it is stored | not executed | `ProductProperties.DuplicateTitleOnCreate` (about `ProductService.CreateAsWritten`) | `ProductService.Create`, with `ProductProperties.CreateKeepsTitlesDistinct` |
| src/product/product.service.ts:129-188 | `update` looks up `title.trim()` among the other products but stores `data.title` untrimmed | with `"Foo "` (id 1) and `"Bar"` (id 2) stored, rename id 2 to `"Foo "`: the lookup asks for `"Foo"`, finds nothing, and both products are titled `"Foo "` | product titles stay unique; a supplied title is trimmed, must not be empty, and is checked and stored trimmed | not executed | `ProductProperties.DuplicateTitleOnUpdate` (about `ProductService.UpdateAsWritten`) | `ProductService.Update`, with `ProductProperties.UpdateKeepsTitlesDistinct` |
