/**
 Pagination arithmetic shared by the group and expense listings: the
 `parseInt(query) || default` defaults and `Math.ceil(total / limit)`.
 */
module Paging {
  import opened Results

  /**
   `parseInt(q) || d`. `None` is a query parameter that is absent or does not
   parse (NaN); NaN and 0 are falsy, so both fall back to the default.
   */
  function QueryOr(q: Option<int>, d: int): int
  {
    if q.Some? && q.value != 0 then q.value else d
  }

  /** `Math.ceil(total / limit)` on the exact quotient; the limit may be negative. */
  function CeilDiv(total: nat, limit: int): (r: int)
    requires limit != 0
    // r is the least integer not below total / limit
    ensures limit > 0 ==> limit * (r - 1) < total <= limit * r
    ensures limit < 0 ==> limit * r <= total < limit * (r - 1)
  {
    if limit > 0 then (total + limit - 1) / limit else -(total / -limit)
  }

  /** The page header a listing answers with. */
  datatype PageWindow = PageWindow(currentPage: int, limit: int, totalPages: int, total: nat)

  /** Resolves the page and limit queries and counts the pages of `total` items. */
  function Window(pageQuery: Option<int>, limitQuery: Option<int>, defaultLimit: int, total: nat): (w: PageWindow)
    requires defaultLimit > 0
    ensures w.currentPage != 0 && w.limit != 0 && w.total == total
    ensures (pageQuery.None? || pageQuery.value == 0) ==> w.currentPage == 1
    ensures pageQuery.Some? && pageQuery.value != 0 ==> w.currentPage == pageQuery.value
    ensures (limitQuery.None? || limitQuery.value == 0) ==> w.limit == defaultLimit
    ensures limitQuery.Some? && limitQuery.value != 0 ==> w.limit == limitQuery.value
    ensures w.limit > 0 ==> w.limit * (w.totalPages - 1) < total <= w.limit * w.totalPages
    ensures w.limit < 0 ==> w.limit * w.totalPages <= total < w.limit * (w.totalPages - 1)
  {
    var limit := QueryOr(limitQuery, defaultLimit);
    PageWindow(QueryOr(pageQuery, 1), limit, CeilDiv(total, limit), total)
  }

}
