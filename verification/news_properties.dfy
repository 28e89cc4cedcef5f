/**
 * What the news service promises across calls: what a listing can show,
 * that every matching news item is on some page, that a new item is hidden
 * from the public listing until it is made ACTIVE, and that removal needs
 * the two steps "mark DELETE, then remove".
 */
module NewsProperties {
  import opened Wrappers
  import opened Errors
  import opened Store
  import opened Schema
  import opened Filters
  import opened Listing
  import opened Uploads
  import opened NewsService

  /** A matched document is in the collection and matches the filter. */
  lemma MatchedNewsMatch(s: seq<News>, filter: NewsStatus, m: News)
    requires m in MatchNews(s, filter)
    ensures m in s && StatusMatches(filter, m.fields.status)
  {
    assert multiset(MatchNews(s, filter))[m] > 0;
  }

  /** Every news item on a page is a stored news item the filter selects, reported with the
      status the listing asked for. */
  lemma {:induction false} ListedNewsComeFromStore(store: seq<News>, input: NewsFilterInput, x: News)
    requires FindAll(store, input).Ok?
    requires x in FindAll(store, input).value.list
    ensures x.fields.status == Some(EffectiveStatus(input))
    ensures exists d :: d in store && StatusMatches(EffectiveStatus(input), d.fields.status) && x == Normalize(d)
  {
    var status := EffectiveStatus(input);
    var matched := NormalizeAll(MatchNews(store, status));
    assert multiset(FindAll(store, input).value.list)[x] > 0;
    assert x in multiset(matched);
    var i :| 0 <= i < |matched| && matched[i] == x;
    var m := MatchNews(store, status)[i];
    MatchedNewsMatch(store, status, m);
    assert x == Normalize(m);
  }

  /** No listing ever shows a news item marked DELETE, and none it shows was stored as DELETE. */
  lemma NoDeletedNewsListed(store: seq<News>, input: NewsFilterInput, x: News)
    requires FindAll(store, input).Ok?
    requires x in FindAll(store, input).value.list
    ensures x.fields.status != Some(DELETE)
    ensures FindById(store, x.id).Some? && UniqueIds(store) ==> FindById(store, x.id).value.fields.status != Some(DELETE)
  {
    ListedNewsComeFromStore(store, input, x);
    var d :| d in store && StatusMatches(EffectiveStatus(input), d.fields.status) && x == Normalize(d);
    if UniqueIds(store) {
      FoundIsTheOne(store, d);
    }
  }

  /** With unique ids, looking up the id of a stored document finds that document. */
  lemma FoundIsTheOne(s: seq<News>, d: News)
    requires UniqueIds(s) && d in s
    ensures FindById(s, d.id) == Some(d)
  {
    var i :| 0 <= i < |s| && s[i] == d;
    var f := FindById(s, d.id).value;
    var j :| 0 <= j < |s| && s[j] == f;
    assert s[j].id == s[i].id;
  }

  /** Without a search filter the listing shows only news stored as ACTIVE or stored without
      a status. */
  lemma DefaultListingShowsActive(store: seq<News>, input: NewsFilterInput, x: News)
    requires input.search.None?
    requires FindAll(store, input).Ok?
    requires x in FindAll(store, input).value.list
    ensures exists d :: d in store && (d.fields.status == Some(ACTIVE) || d.fields.status.None?) && x == Normalize(d)
  {
    ListedNewsComeFromStore(store, input, x);
  }

  /** Every stored news item the filter selects is on one of the listing's pages. */
  lemma {:induction false} EveryMatchingNewsIsListed(store: seq<News>, input: NewsFilterInput, d: News) returns (page: int)
    requires FindAll(store, input).Ok?
    requires d in store && StatusMatches(EffectiveStatus(input), d.fields.status)
    ensures 1 <= page <= PageCount(|MatchNews(store, EffectiveStatus(input))|, NewsPaging(input).limit)
    ensures FindAll(store, input.(page := Some(page))).Ok?
    ensures Normalize(d) in FindAll(store, input.(page := Some(page))).value.list
  {
    var status := EffectiveStatus(input);
    var paging := NewsPaging(input);
    var matchedRaw := MatchNews(store, status);
    assert multiset(matchedRaw)[d] == multiset(store)[d];
    assert d in multiset(store);
    var i :| 0 <= i < |matchedRaw| && matchedRaw[i] == d;
    var matched := NormalizeAll(matchedRaw);
    assert matched[i] == Normalize(d);
    var sorted := SortDocs(matched, paging.sort, paging.direction);
    assert Normalize(d) in multiset(sorted);
    var k :| 0 <= k < |sorted| && sorted[k] == Normalize(d);
    page := OnSomePage(sorted, paging.limit, k);
    var input' := input.(page := Some(page));
    assert NewsPaging(input') == paging.(page := page);
    assert FindAll(store, input').value.list == PageSlice(sorted, page, paging.limit);
  }

  /** Page n of a listing is the n-th slice of every matching news item, normalized and sorted;
      the other fields of the filter fix that sequence. */
  lemma NewsPageIsSlice(store: seq<News>, input: NewsFilterInput, n: int)
    requires FindAll(store, input).Ok? && n >= 1
    ensures FindAll(store, input.(page := Some(n))).Ok?
    ensures FindAll(store, input.(page := Some(n))).value.list
      == PageSlice(ListedNews(store, EffectiveStatus(input), NewsPaging(input).sort, NewsPaging(input).direction),
                   n, NewsPaging(input).limit)
  {
    var input' := input.(page := Some(n));
    assert EffectiveStatus(input') == EffectiveStatus(input);
    assert NewsPaging(input') == NewsPaging(input).(page := n);
  }

  /** Walking through the pages 1 to ceil(total / limit) of a listing yields every matching news
      item once, in sorted order, and nothing else: with page n the n-th slice of one sorted
      sequence (see `NewsPageIsSlice`), those slices laid end to end are that whole sequence,
      whose length is the number of matching news items. */
  lemma NewsPagesCoverListing(store: seq<News>, input: NewsFilterInput)
    requires FindAll(store, input).Ok?
    ensures |ListedNews(store, EffectiveStatus(input), NewsPaging(input).sort, NewsPaging(input).direction)|
      == |MatchNews(store, EffectiveStatus(input))|
    ensures Pages(ListedNews(store, EffectiveStatus(input), NewsPaging(input).sort, NewsPaging(input).direction),
                  NewsPaging(input).limit, PageCount(|MatchNews(store, EffectiveStatus(input))|, NewsPaging(input).limit))
      == ListedNews(store, EffectiveStatus(input), NewsPaging(input).sort, NewsPaging(input).direction)
  {
    var listing := ListedNews(store, EffectiveStatus(input), NewsPaging(input).sort, NewsPaging(input).direction);
    assert |listing| == |MatchNews(store, EffectiveStatus(input))| by {
      assert |multiset(listing)| == |multiset(NormalizeAll(MatchNews(store, EffectiveStatus(input))))|;
    }
    PagesCoverAll(listing, NewsPaging(input).limit);
  }

  /** The counter depends on the status filter alone: every page of a listing reports the same
      total, whatever its page, limit, sort field or direction. */
  lemma MetaCounterIgnoresPaging(store: seq<News>, a: NewsFilterInput, b: NewsFilterInput)
    requires FindAll(store, a).Ok? && FindAll(store, b).Ok?
    requires EffectiveStatus(a) == EffectiveStatus(b)
    ensures FindAll(store, a).value.metaCounter == FindAll(store, b).value.metaCounter
  {
  }

  /** A news item created without a status is stored as PAUSE, so the default listing (ACTIVE)
      does not show it. */
  lemma {:induction false} CreatedNewsIsHiddenByDefault(store: seq<News>, newId: Id, now: nat, data: CreateNewsInput,
                                      file: Option<FileUpload>, videoFile: Option<FileUpload>, input: NewsFilterInput)
    requires !HasId(store, newId) && UniqueIds(store)
    requires data.status.None?
    requires Create(store, newId, now, data, file, videoFile).Ok?
    requires input.search.None?
    requires FindAll(Create(store, newId, now, data, file, videoFile).value.0, input).Ok?
    ensures Create(store, newId, now, data, file, videoFile).value.1.fields.status == Some(PAUSE)
    ensures forall x :: x in FindAll(Create(store, newId, now, data, file, videoFile).value.0, input).value.list ==> x.id != newId
  {
    var (after, created) := Create(store, newId, now, data, file, videoFile).value;
    forall x | x in FindAll(after, input).value.list
      ensures x.id != newId
    {
      ListedNewsComeFromStore(after, input, x);
      var d :| d in after && StatusMatches(ACTIVE, d.fields.status) && x == Normalize(d);
      FoundIsTheOne(after, d);
    }
  }

  /** The two-step removal: a stored news item whose status is updated to DELETE can then be
      removed, and afterwards its id is gone while every other id is untouched. */
  lemma MarkThenRemove(store: seq<News>, id: Id, data: UpdateNewsInput, now: nat)
    requires HasId(store, id) && UniqueIds(store)
    requires data.status == Some(DELETE)
    ensures Update(store, id, data, None, None, now).Ok?
    ensures Remove(Update(store, id, data, None, None, now).value.0, id).Ok?
    ensures !HasId(Remove(Update(store, id, data, None, None, now).value.0, id).value.0, id)
    ensures forall x :: x != id ==>
      FindById(Remove(Update(store, id, data, None, None, now).value.0, id).value.0, x) == FindById(store, x)
  {
  }

  /** Removal is refused for a news item that has not been marked DELETE, and then the
      collection is left as it was. */
  lemma RemoveNeedsDeleteStatus(store: seq<News>, id: Id)
    requires HasId(store, id)
    requires FindOne(store, id).value.fields.status != Some(DELETE)
    ensures Remove(store, id) == Err(NotMarkedDeleted)
  {
  }

  /** A created news item is what `findOne` then returns for its id. */
  lemma CreateThenFindOne(store: seq<News>, newId: Id, now: nat, data: CreateNewsInput,
                          file: Option<FileUpload>, videoFile: Option<FileUpload>)
    requires !HasId(store, newId)
    requires Create(store, newId, now, data, file, videoFile).Ok?
    ensures FindOne(Create(store, newId, now, data, file, videoFile).value.0, newId)
      == Ok(Create(store, newId, now, data, file, videoFile).value.1)
  {
  }

  /** An update that supplies no field and no file changes nothing but the modification time,
      and the id carried inside the input plays no part. */
  lemma EmptyUpdateOnlyTouches(store: seq<News>, id: Id, otherId: Id, now: nat)
    requires HasId(store, id)
    ensures var r := Update(store, id, UpdateNewsInput(otherId, None, None, None, None, None), None, None, now);
      r.Ok? && r.value.1 == FindById(store, id).value.(updatedAt := now)
  {
  }

  /** A create request with both required fields empty is refused with one error naming both,
      whatever the uploads and the collection. */
  lemma BothEmptyFieldsReported(store: seq<News>, newId: Id, now: nat,
                                file: Option<FileUpload>, videoFile: Option<FileUpload>)
    requires !HasId(store, newId)
    ensures Create(store, newId, now, CreateNewsInput("", "", None, None, None), file, videoFile)
      == Err(MissingRequired(["title", "content"]))
  {
  }
}
