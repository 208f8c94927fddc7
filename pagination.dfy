/**
 * PaginationService: the skip/take arithmetic of a page request, the page
 * metadata of a listing, and `paginate`, which runs one filter for both the
 * page of rows and the total count. The database table is an in-memory
 * sequence in the order the query returns it.
 */
module Pagination {
  import opened Errors
  import opened Lists

  const DEFAULT_PAGE := 1
  const DEFAULT_LIMIT := 10

  datatype Options = Options(skip: int, take: int)

  datatype Meta = Meta(currentPage: int, perPage: int, totalPages: nat, totalItems: nat)

  /** `Math.ceil(total / limit)` for a positive limit. */
  function CeilDiv(total: nat, limit: int): (r: nat)
    requires limit > 0
    ensures r * limit >= total
    ensures total > 0 ==> (r - 1) * limit < total
    ensures total == 0 ==> r == 0
  {
    (total + limit - 1) / limit
  }

  /** `createPaginationOptions(page = 1, limit = 10)`. */
  function CreatePaginationOptions(page: Option<int>, limit: Option<int>): (r: Options)
    ensures r.take == limit.GetOr(DEFAULT_LIMIT)
    ensures page.GetOr(DEFAULT_PAGE) == 1 ==> r.skip == 0
    ensures page.GetOr(DEFAULT_PAGE) >= 1 && limit.GetOr(DEFAULT_LIMIT) >= 0 ==> r.skip >= 0
  {
    var p := page.GetOr(DEFAULT_PAGE);
    var l := limit.GetOr(DEFAULT_LIMIT);
    Options((p - 1) * l, l)
  }

  /** Consecutive pages are adjacent: page p+1 starts where page p ends. */
  lemma ConsecutivePagesAdjacent(page: int, limit: int)
    ensures CreatePaginationOptions(Some(page + 1), Some(limit)).skip ==
            CreatePaginationOptions(Some(page), Some(limit)).skip + CreatePaginationOptions(Some(page), Some(limit)).take
  {
  }

  /** `createPaginationMeta(total, page = 1, limit = 10)`: the request is echoed and the page count derived. */
  function CreatePaginationMeta(total: nat, page: Option<int>, limit: Option<int>): (r: Meta)
    requires limit.GetOr(DEFAULT_LIMIT) > 0
    ensures r.currentPage == page.GetOr(DEFAULT_PAGE) && r.perPage == limit.GetOr(DEFAULT_LIMIT)
    ensures r.totalItems == total
    ensures r.totalPages * r.perPage >= total
    ensures total > 0 ==> (r.totalPages - 1) * r.perPage < total
    ensures total == 0 ==> r.totalPages == 0
  {
    var l := limit.GetOr(DEFAULT_LIMIT);
    Meta(page.GetOr(DEFAULT_PAGE), l, CeilDiv(total, l), total)
  }

  function Min(a: int, b: int): int { if a <= b then a else b }

  /** The rows a query with this skip and take returns: at most `take` rows from position `skip` on. */
  function Window<T>(rows: seq<T>, skip: nat, take: nat): (r: seq<T>)
    ensures |r| <= take
    ensures skip >= |rows| ==> r == []
    ensures forall i :: 0 <= i < |r| ==> skip + i < |rows| && r[i] == rows[skip + i]
  {
    rows[Min(skip, |rows|)..Min(skip + take, |rows|)]
  }

  datatype Page<T> = Page(data: seq<T>, meta: Meta)

  /** `paginate(model, {page, limit}, {where})`: the data and the count use the same filter.
      Prisma refuses a negative `skip`, so a page below 1 fails. */
  function Paginate<T>(rows: seq<T>, where: T -> bool, page: Option<int>, limit: Option<int>): (r: Result<Page<T>>)
    requires limit.GetOr(DEFAULT_LIMIT) > 0
    ensures r.Ok? <==> page.GetOr(DEFAULT_PAGE) >= 1
    ensures r.Ok? ==> r.value.meta.totalItems == |Filter(rows, where)|
    ensures r.Ok? ==> |r.value.data| <= limit.GetOr(DEFAULT_LIMIT)
    ensures r.Ok? ==> forall x :: x in r.value.data ==> x in rows && where(x)
    ensures r.Ok? ==>
      var o := CreatePaginationOptions(page, limit);
      && r.value.data == Window(Filter(rows, where), o.skip, o.take)
      && r.value.meta == CreatePaginationMeta(|Filter(rows, where)|, page, limit)
  {
    var o := CreatePaginationOptions(page, limit);
    if o.skip < 0 then Err(PrismaValidation("Argument `skip` must be a non-negative integer"))
    else
      var matching := Filter(rows, where);
      var data := Window(matching, o.skip, o.take);
      WindowFromFilter(rows, where, o.skip, o.take);
      Ok(Page(data, CreatePaginationMeta(|matching|, page, limit)))
  }

  /** Every row of a window of the matching rows is a stored row that matches. */
  lemma WindowFromFilter<T>(rows: seq<T>, where: T -> bool, skip: nat, take: nat)
    ensures forall x :: x in Window(Filter(rows, where), skip, take) ==> x in rows && where(x)
  {
    var matching := Filter(rows, where);
    forall x | x in Window(matching, skip, take) ensures x in rows && where(x) {
      var i :| 0 <= i < |Window(matching, skip, take)| && Window(matching, skip, take)[i] == x;
      assert matching[skip + i] in matching;
    }
  }

  /** Pages 1..n of a listing, concatenated. */
  function PagesUpTo<T>(rows: seq<T>, limit: nat, n: nat): seq<T> {
    if n == 0 then [] else PagesUpTo(rows, limit, n - 1) + Window(rows, (n - 1) * limit, limit)
  }

  /** The first n pages are exactly the first n·limit rows. */
  lemma {:induction false} PagesUpToPrefix<T>(rows: seq<T>, limit: nat, n: nat)
    ensures PagesUpTo(rows, limit, n) == rows[..Min(n * limit, |rows|)]
  {
    if n > 0 {
      PagesUpToPrefix(rows, limit, n - 1);
      var a, b := Min((n - 1) * limit, |rows|), Min(n * limit, |rows|);
      assert (n - 1) * limit + limit == n * limit;
      assert rows[..a] + rows[a..b] == rows[..b];
    }
  }

  /** Walking pages 1 to total_pages returns every matching row once, in order:
      the pages partition the listing. */
  lemma PagesCoverListing<T>(rows: seq<T>, limit: int)
    requires limit > 0
    ensures PagesUpTo(rows, limit, CeilDiv(|rows|, limit)) == rows
  {
    PagesUpToPrefix(rows, limit, CeilDiv(|rows|, limit));
    assert rows[..|rows|] == rows;
  }

  /** A page after the last one is empty. */
  lemma PageBeyondLastIsEmpty<T>(rows: seq<T>, page: int, limit: int)
    requires limit > 0 && page > CeilDiv(|rows|, limit)
    ensures Window(rows, (page - 1) * limit, limit) == []
  {
    var n := CeilDiv(|rows|, limit);
    assert (page - 1) * limit >= n * limit by {
      assert page - 1 >= n;
      MulMonotone(page - 1, n, limit);
    }
  }

  /** `paginate` read page by page: a page has rows exactly when its number is
      at most `totalPages`, and pages 1 to `totalPages` together return every
      matching row once, in order. */
  lemma PaginatePages<T>(rows: seq<T>, where: T -> bool, page: int, limit: int)
    requires limit > 0 && page >= 1
    ensures var r := Paginate(rows, where, Some(page), Some(limit));
      && r.Ok?
      && (r.value.data != [] <==> page <= r.value.meta.totalPages)
      && PagesUpTo(Filter(rows, where), limit, r.value.meta.totalPages) == Filter(rows, where)
  {
    var matching := Filter(rows, where);
    var n := CeilDiv(|matching|, limit);
    if page <= n {
      assert (page - 1) * limit < |matching| by {
        MulMonotone(n - 1, page - 1, limit);
      }
      assert matching[(page - 1) * limit] == Window(matching, (page - 1) * limit, limit)[0];
    } else {
      PageBeyondLastIsEmpty(matching, page, limit);
    }
    PagesCoverListing(matching, limit);
  }

  lemma MulMonotone(a: int, b: int, c: nat)
    requires a >= b
    ensures a * c >= b * c
  {
  }
}
