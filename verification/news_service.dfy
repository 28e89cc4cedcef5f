/**
 * The news service: create a news item with an optional image and video
 * upload, list news by status one page at a time, find one, update one, and
 * remove one that has first been marked DELETE.
 *
 * The clock and the database's id generator are parameters (`now`, `newId`);
 * an upload is its file name, MIME type and byte count.
 */
module NewsService {
  import opened Wrappers
  import opened Errors
  import opened Store
  import opened Schema
  import opened Filters
  import opened Listing
  import opened Uploads
  import opened FileValidator

  /** `CreateNewsInput`, with the `status` the service reads from it. */
  datatype CreateNewsInput = CreateNewsInput(
    title: string,
    content: string,
    image: Option<string>,
    video: Option<string>,
    status: Option<NewsStatus>)

  /** `UpdateNewsInput`: the id of the news item, and every field it may change. */
  datatype UpdateNewsInput = UpdateNewsInput(
    id: Id,
    title: Option<string>,
    content: Option<string>,
    image: Option<string>,
    video: Option<string>,
    status: Option<NewsStatus>)

  /** The validation pipe on `CreateNewsInput`: `@IsNotEmpty()` on title and on content. Both
      run, and one error lists every empty field, `title` before `content`. */
  function ValidateCreateInput(data: CreateNewsInput): (r: Outcome<Error>)
    ensures r.Pass? <==> Present(data.title) && Present(data.content)
    ensures r.Fail? ==> r.error.MissingRequired?
    ensures r.Fail? ==> ("title" in r.error.fields <==> !Present(data.title))
    ensures r.Fail? ==> ("content" in r.error.fields <==> !Present(data.content))
    ensures r.Fail? ==> forall f :: f in r.error.fields ==> f == "title" || f == "content"
    ensures r.Fail? ==> 0 < |r.error.fields| <= 2 && (|r.error.fields| == 2 ==> r.error.fields == ["title", "content"])
  {
    var fields := (if Present(data.title) then [] else ["title"])
      + (if Present(data.content) then [] else ["content"]);
    if fields == [] then Pass else Fail(MissingRequired(fields))
  }

  /** The image path after an optional upload: the given path when no file comes, the path of
      the stored copy when an image file comes, and the invalid-type error for any other file. */
  function ImageAfterUpload(file: Option<FileUpload>, given: Option<string>, now: nat): (r: Result<Option<string>, Error>)
    ensures file.None? ==> r == Ok(given)
    ensures file.Some? && !HasImageExtension(file.value.filename) ==> r == Err(InvalidImageType)
    ensures file.Some? && HasImageExtension(file.value.filename) ==>
      r == Ok(Some(UploadPath(NewsImageDir, now, file.value.filename)))
  {
    match file
    case None => Ok(given)
    case Some(f) =>
      ValidateImageFileSpec(f.filename, DefaultMaxSizeMB);
      if ValidateImageFile(f.filename).Fail? then Err(InvalidImageType)
      else Ok(Some(UploadPath(NewsImageDir, now, f.filename)))
  }

  /** The video path after an optional upload, as for the image. */
  function VideoAfterUpload(file: Option<FileUpload>, given: Option<string>, now: nat): (r: Result<Option<string>, Error>)
    ensures file.None? ==> r == Ok(given)
    ensures file.Some? && !ValidateVideoFile(file.value).Pass? ==> r == Err(ValidateVideoFile(file.value).error)
    ensures file.Some? && ValidateVideoFile(file.value).Pass? ==>
      r == Ok(Some(UploadPath(VideoDir, now, file.value.filename)))
  {
    match file
    case None => Ok(given)
    case Some(f) =>
      match ValidateVideoFile(f)
      case Fail(e) => Err(e)
      case Pass => Ok(Some(UploadPath(VideoDir, now, f.filename)))
  }

  /** `create`: checks the input, stores the image, then the video, and inserts a document whose
      status is the one given or PAUSE. */
  function Create(store: seq<News>, newId: Id, now: nat, data: CreateNewsInput,
                  file: Option<FileUpload>, videoFile: Option<FileUpload>): (r: Result<(seq<News>, News), Error>)
    requires !HasId(store, newId)
    ensures r.Ok? <==> (Present(data.title) && Present(data.content)
      && (file.Some? ==> HasImageExtension(file.value.filename))
      && (videoFile.Some? ==> ValidateVideoFile(videoFile.value).Pass?))
    ensures !(Present(data.title) && Present(data.content)) ==> r == Err(ValidateCreateInput(data).error)
    ensures Present(data.title) && Present(data.content) && file.Some? && !HasImageExtension(file.value.filename)
      ==> r == Err(InvalidImageType)
    ensures Present(data.title) && Present(data.content) && (file.Some? ==> HasImageExtension(file.value.filename))
      && videoFile.Some? && ValidateVideoFile(videoFile.value).Fail?
      ==> r == Err(ValidateVideoFile(videoFile.value).error)
    ensures r.Ok? ==> var d := r.value.1;
      d.id == newId && d.createdAt == now && d.updatedAt == now
      && d.fields.title == data.title && d.fields.content == data.content
      && d.fields.status == Some(data.status.GetOr(DefaultNewsStatus))
      && d.fields.image == (if file.Some? then Some(UploadPath(NewsImageDir, now, file.value.filename)) else data.image)
      && d.fields.video == (if videoFile.Some? then Some(UploadPath(VideoDir, now, videoFile.value.filename)) else data.video)
    ensures r.Ok? ==> FindById(r.value.0, newId) == Some(r.value.1)
    ensures r.Ok? ==> forall x :: x != newId ==> FindById(r.value.0, x) == FindById(store, x)
    ensures r.Ok? && UniqueIds(store) ==> UniqueIds(r.value.0)
    ensures r.Err? ==> r.error != NewsNotFound
  {
    match ValidateCreateInput(data)
    case Fail(e) => Err(e)
    case Pass =>
      match ImageAfterUpload(file, data.image, now)
      case Err(e) => Err(e)
      case Ok(image) =>
        match VideoAfterUpload(videoFile, data.video, now)
        case Err(e) => Err(e)
        case Ok(video) =>
          var d := Doc(newId, now, now,
            NewsFields(data.title, data.content, image, video, Some(data.status.GetOr(DefaultNewsStatus))));
          Ok((Insert(store, d), d))
  }

  /** `findOne`: the news item with this id, or the not-found error. */
  function FindOne(store: seq<News>, id: Id): (r: Result<News, Error>)
    ensures r.Ok? <==> HasId(store, id)
    ensures r.Err? ==> r.error == NewsNotFound
    ensures r.Ok? ==> r.value.id == id && r.value in store
  {
    match FindById(store, id)
    case None => Err(NewsNotFound)
    case Some(d) => Ok(d)
  }

  /** The fields after an update: every supplied field replaces the stored one, the uploaded
      paths included; everything else is kept. */
  function MergeFields(prev: NewsFields, data: UpdateNewsInput, image: Option<string>, video: Option<string>): NewsFields {
    NewsFields(
      data.title.GetOr(prev.title),
      data.content.GetOr(prev.content),
      if image.Some? then image else prev.image,
      if video.Some? then video else prev.video,
      if data.status.Some? then data.status else prev.status)
  }

  /** `update`: the news item must exist; the image and video are checked and stored as on
      create; then the supplied fields, any status DELETE included, replace the stored ones.
      The id inside the input is ignored. */
  function Update(store: seq<News>, id: Id, data: UpdateNewsInput, file: Option<FileUpload>,
                  videoFile: Option<FileUpload>, now: nat): (r: Result<(seq<News>, News), Error>)
    ensures r.Ok? <==> (HasId(store, id)
      && (file.Some? ==> HasImageExtension(file.value.filename))
      && (videoFile.Some? ==> ValidateVideoFile(videoFile.value).Pass?))
    ensures !HasId(store, id) ==> r == Err(NewsNotFound)
    ensures HasId(store, id) && file.Some? && !HasImageExtension(file.value.filename) ==> r == Err(InvalidImageType)
    ensures HasId(store, id) && (file.Some? ==> HasImageExtension(file.value.filename))
      && videoFile.Some? && ValidateVideoFile(videoFile.value).Fail?
      ==> r == Err(ValidateVideoFile(videoFile.value).error)
    ensures r.Ok? ==> var prev := FindById(store, id).value; var d := r.value.1;
      d.id == id && d.createdAt == prev.createdAt && d.updatedAt == now
      && d.fields.title == data.title.GetOr(prev.fields.title)
      && d.fields.content == data.content.GetOr(prev.fields.content)
      && d.fields.status == (if data.status.Some? then data.status else prev.fields.status)
      && d.fields.image == (if file.Some? then Some(UploadPath(NewsImageDir, now, file.value.filename))
                            else if data.image.Some? then data.image else prev.fields.image)
      && d.fields.video == (if videoFile.Some? then Some(UploadPath(VideoDir, now, videoFile.value.filename))
                            else if data.video.Some? then data.video else prev.fields.video)
    ensures r.Ok? ==> FindById(r.value.0, id) == Some(r.value.1)
    ensures r.Ok? ==> forall x :: x != id ==> FindById(r.value.0, x) == FindById(store, x)
    ensures r.Ok? ==> |r.value.0| == |store| && (UniqueIds(store) ==> UniqueIds(r.value.0))
  {
    match FindById(store, id)
    case None => Err(NewsNotFound)
    case Some(existing) =>
      match ImageAfterUpload(file, data.image, now)
      case Err(e) => Err(e)
      case Ok(image) =>
        match VideoAfterUpload(videoFile, data.video, now)
        case Err(e) => Err(e)
        case Ok(video) =>
          var d := Doc(id, existing.createdAt, now, MergeFields(existing.fields, data, image, video));
          Ok((ReplaceById(store, d), d))
  }

  /** `remove`: deletes a news item only when its status is DELETE, and echoes the id. */
  function Remove(store: seq<News>, id: Id): (r: Result<(seq<News>, Id), Error>)
    ensures !HasId(store, id) ==> r == Err(NewsNotFound)
    ensures HasId(store, id) && FindById(store, id).value.fields.status != Some(DELETE) ==> r == Err(NotMarkedDeleted)
    ensures r.Ok? <==> HasId(store, id) && FindById(store, id).value.fields.status == Some(DELETE)
    ensures r.Ok? ==> r.value.1 == id && |r.value.0| == |store| - 1
    ensures r.Ok? ==> forall x :: x != id ==> FindById(r.value.0, x) == FindById(store, x)
    ensures r.Ok? && UniqueIds(store) ==> UniqueIds(r.value.0) && !HasId(r.value.0, id)
  {
    match FindById(store, id)
    case None => Err(NewsNotFound)
    case Some(d) =>
      if d.fields.status != Some(DELETE) then Err(NotMarkedDeleted)
      else Ok((RemoveById(store, id), id))
  }

  // ----- Listing -----

  /** The `$match` stage: ACTIVE selects ACTIVE documents and those without a status; any
      other status selects exactly the documents that have it. */
  predicate StatusMatches(filter: NewsStatus, stored: Option<NewsStatus>) {
    if filter == ACTIVE then stored == Some(ACTIVE) || stored.None? else stored == Some(filter)
  }

  /** The documents the `$match` stage lets through, in collection order: each matching
      document exactly as often as the collection holds it, and nothing else. */
  function MatchNews(s: seq<News>, filter: NewsStatus): (r: seq<News>)
    ensures |r| <= |s|
    ensures forall d :: multiset(r)[d] == if StatusMatches(filter, d.fields.status) then multiset(s)[d] else 0
    decreases |s|
  {
    if |s| == 0 then []
    else
      assert s == [s[0]] + s[1..];
      var rest := MatchNews(s[1..], filter);
      if StatusMatches(filter, s[0].fields.status) then [s[0]] + rest else rest
  }

  /** The `$addFields` stage: a document without a status is reported as ACTIVE. */
  function Normalize(d: News): (r: News)
    ensures r.id == d.id && r.createdAt == d.createdAt && r.updatedAt == d.updatedAt
    ensures r.fields.status.Some?
    ensures d.fields.status.Some? ==> r == d
    ensures d.fields.status.None? ==> r.fields.status == Some(ACTIVE)
    ensures r.fields.(status := d.fields.status) == d.fields
  {
    d.(fields := d.fields.(status := Some(d.fields.status.GetOr(ACTIVE))))
  }

  function NormalizeAll(xs: seq<News>): (r: seq<News>)
    ensures |r| == |xs|
    ensures forall i :: 0 <= i < |xs| ==> r[i] == Normalize(xs[i])
  {
    seq(|xs|, i requires 0 <= i < |xs| => Normalize(xs[i]))
  }

  /** Every news item a listing with this status shows, in the order it shows them. */
  function ListedNews(store: seq<News>, status: NewsStatus, sort: string, direction: SortDirection): (r: seq<News>)
    ensures Sorted(r, sort, direction)
    ensures multiset(r) == multiset(NormalizeAll(MatchNews(store, status)))
  {
    SortDocs(NormalizeAll(MatchNews(store, status)), sort, direction)
  }

  /** `findAll`: rejects a page or limit below 1 and the status DELETE; otherwise returns one
      page of the matching news, sorted, and the number of matching news. */
  function FindAll(store: seq<News>, input: NewsFilterInput): (r: Result<ListPage<News>, Error>)
    ensures ValidatePaging(input.page, input.limit).Fail? ==> r == Err(ValidatePaging(input.page, input.limit).error)
    ensures ValidatePaging(input.page, input.limit).Pass? && EffectiveStatus(input) == DELETE ==> r == Err(DeleteStatusNotAllowed)
    ensures r.Ok? <==> ValidatePaging(input.page, input.limit).Pass? && EffectiveStatus(input) != DELETE
    ensures r.Ok? ==> |r.value.list| <= NewsPaging(input).limit
    ensures r.Ok? ==> Sorted(r.value.list, NewsPaging(input).sort, NewsPaging(input).direction)
    ensures r.Ok? ==> r.value.metaCounter == MetaCounter(|MatchNews(store, EffectiveStatus(input))|)
  {
    match ValidatePaging(input.page, input.limit)
    case Fail(e) => Err(e)
    case Pass =>
      var status := EffectiveStatus(input);
      if status == DELETE then Err(DeleteStatusNotAllowed)
      else
        var paging := NewsPaging(input);
        var matched := NormalizeAll(MatchNews(store, status));
        Ok(SortAndPage(matched, paging))
  }
}
