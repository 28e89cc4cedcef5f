/**
 * The listing pipeline both services run: sort the matched documents, skip
 * `(page - 1) * limit` of them, take `limit`, and count the matched set in
 * the same pass (`$sort`, then `$facet` with `$skip`/`$limit` and `$count`).
 */
module Listing {
  import opened Store
  import opened Filters

  /** The value a document is sorted by. Only the two timestamps are modelled as keys; any other
      field name gives every document the constant key 0 (see "Left out" in README.md). */
  function SortKey<F>(field: string, d: Doc<F>): int {
    if field == "createdAt" then d.createdAt
    else if field == "updatedAt" then d.updatedAt
    else 0
  }

  /** `a` may come before `b`: ascending for ASC, descending for DESC. */
  predicate InOrder(a: int, b: int, direction: SortDirection) {
    if direction == ASC then a <= b else a >= b
  }

  predicate Sorted<F>(xs: seq<Doc<F>>, field: string, direction: SortDirection) {
    forall i, j :: 0 <= i < j < |xs| ==> InOrder(SortKey(field, xs[i]), SortKey(field, xs[j]), direction)
  }

  /** Inserts `d` into a sorted sequence just before the first document it may precede, ties
      included; every document before that point is one `d` may not precede. */
  function InsertSorted<F>(d: Doc<F>, xs: seq<Doc<F>>, field: string, direction: SortDirection): (r: seq<Doc<F>>)
    requires Sorted(xs, field, direction)
    ensures Sorted(r, field, direction)
    ensures multiset(r) == multiset(xs) + multiset{d}
    ensures |xs| > 0 ==> r[0] == d || r[0] == xs[0]
    decreases |xs|
  {
    if |xs| == 0 then [d]
    else if InOrder(SortKey(field, d), SortKey(field, xs[0]), direction) then [d] + xs
    else
      var rest := InsertSorted(d, xs[1..], field, direction);
      assert xs == [xs[0]] + xs[1..];
      SortedCons(xs[0], rest, field, direction);
      [xs[0]] + rest
  }

  /** A document that may precede the head of a sorted sequence may precede all of it. */
  lemma SortedCons<F>(x: Doc<F>, ys: seq<Doc<F>>, field: string, direction: SortDirection)
    requires Sorted(ys, field, direction)
    requires |ys| > 0 ==> InOrder(SortKey(field, x), SortKey(field, ys[0]), direction)
    ensures Sorted([x] + ys, field, direction)
  {
    var r := [x] + ys;
    forall i, j | 0 <= i < j < |r|
      ensures InOrder(SortKey(field, r[i]), SortKey(field, r[j]), direction)
    {
      if i == 0 && j > 1 {
        assert r[j] == ys[j - 1];
        assert InOrder(SortKey(field, ys[0]), SortKey(field, ys[j - 1]), direction);
      }
    }
  }

  /** `$sort`: the documents ordered by the key in the direction asked for. Documents with equal
      keys keep their collection order. */
  function SortDocs<F>(xs: seq<Doc<F>>, field: string, direction: SortDirection): (r: seq<Doc<F>>)
    ensures Sorted(r, field, direction)
    ensures multiset(r) == multiset(xs)
    decreases |xs|
  {
    if |xs| == 0 then []
    else
      assert xs == [xs[0]] + xs[1..];
      InsertSorted(xs[0], SortDocs(xs[1..], field, direction), field, direction)
  }

  function Min(a: int, b: int): int { if a <= b then a else b }

  /** `$skip: (page - 1) * limit` then `$limit: limit`. The page holds at most `limit` documents,
      and its k-th document is the document at position `(page - 1) * limit + k`. */
  function PageSlice<T>(xs: seq<T>, page: int, limit: int): (r: seq<T>)
    requires page >= 1 && limit >= 1
    ensures |r| <= limit
    ensures |r| == Min(limit, |xs| - Min(Skip(page, limit), |xs|))
    ensures forall k :: 0 <= k < |r| ==> Skip(page, limit) + k < |xs| && r[k] == xs[Skip(page, limit) + k]
  {
    var skip := Skip(page, limit);
    var start := Min(skip, |xs|);
    var r := xs[start..Min(start + limit, |xs|)];
    assert forall k :: 0 <= k < |r| ==> r[k] == xs[start + k];
    r
  }

  /** The number of documents `$skip` passes over before the page starts, `(page - 1) * limit`. */
  function Skip(page: int, limit: int): nat
    requires page >= 1 && limit >= 1
  {
    MulNonNegative(page - 1, limit);
    (page - 1) * limit
  }

  lemma MulNonNegative(a: int, b: int)
    requires a >= 0 && b >= 0
    ensures a * b >= 0
  {
  }

  /** `metaCounter: [{ $count: 'total' }]`: one entry holding the count, or no entry at all when
      nothing matched. */
  function MetaCounter(total: nat): (r: seq<nat>)
    ensures r == [] <==> total == 0
    ensures r != [] ==> r == [total]
  {
    if total == 0 then [] else [total]
  }

  /** What a listing returns: one page and the counter of the whole matched set. */
  datatype ListPage<T> = ListPage(list: seq<T>, metaCounter: seq<nat>)

  /** The `$sort` and `$facet` stages over an already matched sequence. */
  function SortAndPage<F>(matched: seq<Doc<F>>, paging: Paging): (r: ListPage<Doc<F>>)
    requires ValidPaging(paging)
    ensures |r.list| <= paging.limit
    ensures Sorted(r.list, paging.sort, paging.direction)
    ensures multiset(r.list) <= multiset(matched)
    ensures r.metaCounter == [] <==> |matched| == 0
    ensures r.metaCounter != [] ==> r.metaCounter == [|matched|]
  {
    var sorted := SortDocs(matched, paging.sort, paging.direction);
    var list := PageSlice(sorted, paging.page, paging.limit);
    SliceOfSortedIsSorted(sorted, paging.page, paging.limit, paging.sort, paging.direction);
    ListPage(list, MetaCounter(|matched|))
  }

  /** A page of a sorted sequence is sorted and is part of that sequence. */
  lemma SliceOfSortedIsSorted<F>(xs: seq<Doc<F>>, page: int, limit: int, field: string, direction: SortDirection)
    requires page >= 1 && limit >= 1
    requires Sorted(xs, field, direction)
    ensures Sorted(PageSlice(xs, page, limit), field, direction)
    ensures multiset(PageSlice(xs, page, limit)) <= multiset(xs)
  {
    var start := Min(Skip(page, limit), |xs|);
    var end := Min(start + limit, |xs|);
    var r := PageSlice(xs, page, limit);
    assert r == xs[start..end];
    forall i, j | 0 <= i < j < |r|
      ensures InOrder(SortKey(field, r[i]), SortKey(field, r[j]), direction)
    {
      assert r[i] == xs[start + i] && r[j] == xs[start + j];
    }
    assert xs[..end] == xs[..start] + r;
    assert xs == xs[..end] + xs[end..];
    assert multiset(xs) == multiset(xs[..start]) + multiset(r) + multiset(xs[end..]);
  }

  /** Pages 1 to n laid end to end. */
  function Pages<T>(xs: seq<T>, limit: int, n: nat): seq<T>
    requires limit >= 1
  {
    if n == 0 then [] else Pages(xs, limit, n - 1) + PageSlice(xs, n, limit)
  }

  /** The number of pages a listing of `total` documents has. */
  function PageCount(total: nat, limit: int): nat
    requires limit >= 1
  {
    (total + limit - 1) / limit
  }

  /** Pages 1 to n together are the first `n * limit` documents: no document is skipped and
      none is repeated. */
  lemma {:induction false} PagesArePrefix<T>(xs: seq<T>, limit: int, n: nat)
    requires limit >= 1
    ensures Pages(xs, limit, n) == xs[..Min(n * limit, |xs|)]
  {
    if n > 0 {
      PagesArePrefix(xs, limit, n - 1);
      var start := Min(Skip(n, limit), |xs|);
      var end := Min(start + limit, |xs|);
      assert Skip(n, limit) + limit == n * limit;
      assert end == Min(n * limit, |xs|);
      assert xs[..end] == xs[..start] + xs[start..end];
    }
  }

  /** All pages together are the whole sequence. */
  lemma PagesCoverAll<T>(xs: seq<T>, limit: int)
    requires limit >= 1
    ensures Pages(xs, limit, PageCount(|xs|, limit)) == xs
  {
    var c := PageCount(|xs|, limit);
    var t := |xs| + limit - 1;
    assert t == (t / limit) * limit + t % limit;
    assert c * limit >= |xs|;
    PagesArePrefix(xs, limit, c);
  }

  /** Every page past the last one is empty. */
  lemma PagesPastTheEndAreEmpty<T>(xs: seq<T>, limit: int, page: int)
    requires limit >= 1 && page > PageCount(|xs|, limit)
    ensures PageSlice(xs, page, limit) == []
  {
    var c := PageCount(|xs|, limit);
    var t := |xs| + limit - 1;
    assert t == (t / limit) * limit + t % limit;
    assert c * limit >= |xs|;
    assert Skip(page, limit) >= c * limit by {
      assert page - 1 >= c;
      MulMonotone(page - 1, c, limit);
    }
  }

  /** The document at position `k` is on page `k / limit + 1`, which is one of the listing's
      pages. */
  lemma OnSomePage<T>(xs: seq<T>, limit: int, k: nat) returns (page: int)
    requires limit >= 1 && k < |xs|
    ensures page == k / limit + 1
    ensures 1 <= page <= PageCount(|xs|, limit)
    ensures xs[k] in PageSlice(xs, page, limit)
  {
    page := k / limit + 1;
    var q := k / limit;
    assert k == q * limit + k % limit;
    assert Skip(page, limit) == q * limit;
    var t := |xs| + limit - 1;
    assert t == (t / limit) * limit + t % limit;
    assert t >= (q + 1) * limit;
    if t / limit < q + 1 {
      MulMonotone(q, t / limit, limit);
      assert false;
    }
    var r := PageSlice(xs, page, limit);
    assert r[k - q * limit] == xs[k];
  }

  lemma MulMonotone(a: int, b: int, m: int)
    requires a >= b && m >= 1
    ensures a * m >= b * m
  {
  }
}
