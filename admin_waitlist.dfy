/** `GET /api/admin/waitlist`: one page of the entries in creation order,
    chosen by the `page` and `limit` query parameters, with the total. */
module AdminWaitlist {
  import opened Wrappers
  import opened Entries

  const DEFAULT_PAGE: int := 1
  const DEFAULT_LIMIT: int := 20

  datatype PageResponse = PageResponse(total: nat, entries: seq<Entry>, page: int, limit: int)

  function Min(a: int, b: int): int { if a <= b then a else b }
  function Max(a: int, b: int): int { if a <= b then b else a }

  /** A query parameter that is absent or empty falls back to its default. */
  function ParamOr(param: Option<int>, default: int): (r: int)
    ensures param.None? ==> r == default
    ensures param.Some? ==> r == param.value
  {
    if param.Some? then param.value else default
  }

  /** `a * b` for a count `b`, as repeated addition. */
  function Mul(a: int, b: nat): int
    decreases b
  {
    if b == 0 then 0 else Mul(a, b - 1) + a
  }

  lemma {:induction false} MulIsProduct(a: int, b: nat)
    ensures Mul(a, b) == a * b
    decreases b
  {
    if b > 0 {
      MulIsProduct(a, b - 1);
    }
  }

  /** The sign of a product with a count: negative exactly when `a` is and
      the count is positive. */
  lemma {:induction false} MulSign(a: int, b: nat)
    ensures b > 0 ==> (Mul(a, b) < 0 <==> a < 0)
    ensures a == 0 || b == 0 ==> Mul(a, b) == 0
    ensures a >= 0 ==> Mul(a, b) >= 0
    decreases b
  {
    if b > 0 {
      MulSign(a, b - 1);
    }
  }

  /** `skip: (page - 1) * limit`: negative exactly when the page is below 1
      and the limit positive, and nothing is skipped on page 1. */
  function Skip(page: int, limit: nat): (skip: int)
    ensures limit > 0 ==> (skip < 0 <==> page < 1)
    ensures page == 1 || limit == 0 ==> skip == 0
  {
    MulSign(page - 1, limit);
    Mul(page - 1, limit)
  }

  /** `run` is the contiguous run of `s` that starts at `skip`. */
  predicate RunAt(run: seq<Entry>, s: seq<Entry>, skip: int) {
    forall k :: 0 <= k < |run| ==> 0 <= skip + k < |s| && run[k] == s[skip + k]
  }

  /** `findMany({ skip, take })` on the ordered rows: the contiguous run of at
      most `take` rows starting at `skip`. */
  function Window(s: seq<Entry>, skip: nat, take: nat): (r: seq<Entry>)
    ensures |r| == Min(take, Max(0, |s| - skip))
    ensures RunAt(r, s, skip)
  {
    if skip >= |s| then [] else s[skip..Min(skip + take, |s|)]
  }

  lemma SkipFacts(page: int, limit: int)
    requires page >= 1 && limit >= 0
    ensures Skip(page, limit) >= 0
    ensures Skip(page + 1, limit) == Skip(page, limit) + limit
    ensures Skip(1, limit) == 0
  {
    MulIsProduct(page - 1, limit);
    MulIsProduct(page, limit);
    MulIsProduct(0, limit);
    assert (page - 1) * limit >= 0;
    assert page * limit == (page - 1) * limit + limit;
  }

  /** The answer: a page, or the 500 of the catch block when the storage
      layer refuses the query (it rejects a negative `skip`). */
  datatype PageResult = Page(response: PageResponse) | InternalError

  /** The handler, for a limit that is not negative. */
  function ListPage(t: Table, pageParam: Option<int>, limitParam: Option<int>): (r: PageResult)
    requires limitParam.Some? ==> limitParam.value >= 0
    ensures r.InternalError? <==> Skip(ParamOr(pageParam, DEFAULT_PAGE), ParamOr(limitParam, DEFAULT_LIMIT)) < 0
    ensures r.Page? ==> r.response.page == ParamOr(pageParam, DEFAULT_PAGE) && r.response.limit == ParamOr(limitParam, DEFAULT_LIMIT)
    ensures r.Page? ==> r.response.total == |t.rows|
    ensures r.Page? ==> |r.response.entries| == Min(r.response.limit, Max(0, r.response.total - Skip(r.response.page, r.response.limit)))
    ensures r.Page? ==> RunAt(r.response.entries, OrderByCreatedAt(t.rows), Skip(r.response.page, r.response.limit))
  {
    var page := ParamOr(pageParam, DEFAULT_PAGE);
    var limit := ParamOr(limitParam, DEFAULT_LIMIT);
    var skip := Skip(page, limit);
    if skip < 0 then InternalError
    else
      var s := OrderByCreatedAt(t.rows);
      var w := Window(s, skip, limit);
      assert RunAt(w, s, skip);
      Page(PageResponse(|t.rows|, w, page, limit))
  }

  /** Every page from 1 on is answered; a page below 1 with a positive
      limit is a 500. */
  lemma PagesFromOneAnswered(t: Table, page: int, limit: int)
    requires limit >= 0
    ensures page >= 1 ==> ListPage(t, Some(page), Some(limit)).Page?
    ensures page < 1 && limit > 0 ==> ListPage(t, Some(page), Some(limit)) == InternalError
  {
    if page >= 1 {
      SkipFacts(page, limit);
    } else if limit > 0 {
      MulIsProduct(page - 1, limit);
      assert (page - 1) * limit < 0;
    }
  }

  /** Without parameters the handler answers page 1 of 20: the 20 oldest
      entries. */
  lemma DefaultsAreFirstTwenty(t: Table)
    ensures ListPage(t, None, None).Page?
    ensures ListPage(t, None, None).response.page == 1 && ListPage(t, None, None).response.limit == 20
    ensures ListPage(t, None, None).response.entries == Window(OrderByCreatedAt(t.rows), 0, 20)
  {
    SkipFacts(1, 20);
  }

  lemma WindowsAdjacent(s: seq<Entry>, skip: nat, take: nat)
    ensures Window(s, skip, take) + Window(s, skip + take, take) == Window(s, skip, 2 * take)
  {
    var a, b, w := Window(s, skip, take), Window(s, skip + take, take), Window(s, skip, 2 * take);
    assert |a + b| == |w|;
    forall k | 0 <= k < |w| ensures (a + b)[k] == w[k] {
      if k >= |a| {
        assert (a + b)[k] == b[k - |a|];
      }
    }
  }

  /** Pages `p` and `p + 1` are adjacent, non-overlapping runs: together they
      are the run of `2 * limit` rows starting where page `p` starts. */
  lemma AdjacentPages(t: Table, p: int, limit: int)
    requires p >= 1 && limit >= 0
    ensures Skip(p, limit) >= 0
    ensures ListPage(t, Some(p), Some(limit)).Page? && ListPage(t, Some(p + 1), Some(limit)).Page?
    ensures ListPage(t, Some(p), Some(limit)).response.entries + ListPage(t, Some(p + 1), Some(limit)).response.entries
         == Window(OrderByCreatedAt(t.rows), Skip(p, limit), 2 * limit)
  {
    SkipFacts(p, limit);
    var s := OrderByCreatedAt(t.rows);
    var sk := Skip(p, limit);
    assert ListPage(t, Some(p), Some(limit)).response.entries == Window(s, sk, limit);
    assert ListPage(t, Some(p + 1), Some(limit)).response.entries == Window(s, sk + limit, limit);
    WindowsAdjacent(s, sk, limit);
  }

  lemma DivModPage(i: int, limit: int)
    requires limit >= 1 && 0 <= i
    ensures i / limit + 1 >= 1
    ensures Skip(i / limit + 1, limit) + i % limit == i
    ensures 0 <= i % limit < limit
  {
    MulIsProduct(i / limit, limit);
    assert Skip(i / limit + 1, limit) == (i / limit) * limit;
    assert (i / limit) * limit + i % limit == i;
    assert i / limit >= 0;
  }

  /** Position `q` of page `p` holds the row `Skip(p, limit) + q`. */
  lemma PositionOnPage(t: Table, p: int, limit: int, q: int)
    requires p >= 1 && 0 <= q < limit
    requires Skip(p, limit) + q < |t.rows|
    ensures var r := ListPage(t, Some(p), Some(limit));
      r.Page? && q < |r.response.entries| && r.response.entries[q] == OrderByCreatedAt(t.rows)[Skip(p, limit) + q]
  {
    SkipFacts(p, limit);
  }

  /** With a positive limit, the row at position `i` of the ordered list is on
      page `i / limit + 1`, at position `i % limit`. */
  lemma EveryRowOnItsPage(t: Table, limit: int, i: int)
    requires limit >= 1
    requires 0 <= i < |t.rows|
    ensures var r := ListPage(t, Some(i / limit + 1), Some(limit));
      r.Page? && i % limit < |r.response.entries| && r.response.entries[i % limit] == OrderByCreatedAt(t.rows)[i]
  {
    DivModPage(i, limit);
    PositionOnPage(t, i / limit + 1, limit, i % limit);
  }
}
