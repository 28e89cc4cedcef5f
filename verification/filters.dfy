/**
 * The listing filters as the GraphQL layer delivers them: every field
 * optional, with defaults, and `page` and `limit` checked to be at least 1 by
 * the global validation pipe before the service runs.
 */
module Filters {
  import opened Wrappers
  import opened Errors
  import opened Schema

  datatype SortDirection = ASC | DESC

  /** `NewsSearchInput`: an optional status to list. */
  datatype NewsSearchInput = NewsSearchInput(status: Option<NewsStatus>)

  /** `NewsFilterInput`. */
  datatype NewsFilterInput = NewsFilterInput(
    page: Option<int>,
    limit: Option<int>,
    sort: Option<string>,
    direction: Option<SortDirection>,
    search: Option<NewsSearchInput>)

  /** `ProductFilterInput`: the same paging fields, and nothing to filter by. */
  datatype ProductFilterInput = ProductFilterInput(
    page: Option<int>,
    limit: Option<int>,
    sort: Option<string>,
    direction: Option<SortDirection>)

  const DefaultPage: int := 1
  const DefaultLimit: int := 5
  const DefaultSort: string := "createdAt"
  const DefaultDirection: SortDirection := DESC

  /** A listing request with every default filled in. */
  datatype Paging = Paging(page: int, limit: int, sort: string, direction: SortDirection)

  predicate ValidPaging(p: Paging) { p.page >= 1 && p.limit >= 1 }

  /** `@IsOptional() @Min(1)` on one field: the fields it reports, none when the value is absent
      or at least 1, the field itself otherwise. */
  function CheckMin1(field: string, v: Option<int>): (r: seq<string>)
    ensures r == [] <==> (v.Some? ==> v.value >= 1)
    ensures r != [] ==> r == [field]
  {
    if v.Some? && v.value < 1 then [field] else []
  }

  /** The validation pipe on the paging fields: every constraint runs, and one error lists every
      field that failed, `page` before `limit`. */
  function ValidatePaging(page: Option<int>, limit: Option<int>): (r: Outcome<Error>)
    ensures r.Pass? <==> (page.Some? ==> page.value >= 1) && (limit.Some? ==> limit.value >= 1)
    ensures r.Fail? ==> r.error.InvalidFilter?
    ensures r.Fail? ==> ("page" in r.error.fields <==> page.Some? && page.value < 1)
    ensures r.Fail? ==> ("limit" in r.error.fields <==> limit.Some? && limit.value < 1)
    ensures r.Fail? ==> forall f :: f in r.error.fields ==> f == "page" || f == "limit"
    ensures r.Fail? ==> 0 < |r.error.fields| <= 2 && (|r.error.fields| == 2 ==> r.error.fields == ["page", "limit"])
  {
    var fields := CheckMin1("page", page) + CheckMin1("limit", limit);
    if fields == [] then Pass else Fail(InvalidFilter(fields))
  }

  /** A page and a limit that are both below 1 are refused with one error naming both. */
  lemma BothPagingFieldsReported()
    ensures ValidatePaging(Some(0), Some(0)) == Fail(InvalidFilter(["page", "limit"]))
  {
  }

  /** Fills in the defaults: page 1, limit 5, sort `createdAt`, direction DESC. A validated
      request always yields a page and a limit of at least 1. */
  function ResolvePaging(page: Option<int>, limit: Option<int>, sort: Option<string>, direction: Option<SortDirection>): (p: Paging)
    requires ValidatePaging(page, limit).Pass?
    ensures ValidPaging(p)
  {
    Paging(page.GetOr(DefaultPage), limit.GetOr(DefaultLimit), sort.GetOr(DefaultSort), direction.GetOr(DefaultDirection))
  }

  function NewsPaging(input: NewsFilterInput): (p: Paging)
    requires ValidatePaging(input.page, input.limit).Pass?
  {
    ResolvePaging(input.page, input.limit, input.sort, input.direction)
  }

  function ProductPaging(input: ProductFilterInput): (p: Paging)
    requires ValidatePaging(input.page, input.limit).Pass?
  {
    ResolvePaging(input.page, input.limit, input.sort, input.direction)
  }

  /** The status a news listing selects: the one asked for, ACTIVE when none is. */
  function EffectiveStatus(input: NewsFilterInput): NewsStatus {
    match input.search
    case None => ACTIVE
    case Some(s) => s.status.GetOr(ACTIVE)
  }

  /** An empty filter means page 1, limit 5, newest first by `createdAt`, ACTIVE news. Supplied
      values are taken as they are. */
  lemma NewsFilterDefaults(input: NewsFilterInput)
    requires ValidatePaging(input.page, input.limit).Pass?
    ensures input.page.None? ==> NewsPaging(input).page == 1
    ensures input.page.Some? ==> NewsPaging(input).page == input.page.value
    ensures input.limit.None? ==> NewsPaging(input).limit == 5
    ensures input.limit.Some? ==> NewsPaging(input).limit == input.limit.value
    ensures input.sort.None? ==> NewsPaging(input).sort == "createdAt"
    ensures input.sort.Some? ==> NewsPaging(input).sort == input.sort.value
    ensures input.direction.None? ==> NewsPaging(input).direction == DESC
    ensures input.direction.Some? ==> NewsPaging(input).direction == input.direction.value
    ensures input.search.None? ==> EffectiveStatus(input) == ACTIVE
    ensures input.search.Some? && input.search.value.status.None? ==> EffectiveStatus(input) == ACTIVE
    ensures input.search.Some? && input.search.value.status.Some? ==> EffectiveStatus(input) == input.search.value.status.value
  {
  }

  /** The product filter has the same defaults, and nothing to select by. */
  lemma ProductFilterDefaults(input: ProductFilterInput)
    requires ValidatePaging(input.page, input.limit).Pass?
    ensures input.page.None? ==> ProductPaging(input).page == 1
    ensures input.page.Some? ==> ProductPaging(input).page == input.page.value
    ensures input.limit.None? ==> ProductPaging(input).limit == 5
    ensures input.limit.Some? ==> ProductPaging(input).limit == input.limit.value
    ensures input.sort.None? ==> ProductPaging(input).sort == "createdAt"
    ensures input.sort.Some? ==> ProductPaging(input).sort == input.sort.value
    ensures input.direction.None? ==> ProductPaging(input).direction == DESC
    ensures input.direction.Some? ==> ProductPaging(input).direction == input.direction.value
  {
  }
}
