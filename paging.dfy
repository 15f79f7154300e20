/** Paging as the list operations use it: Java `int` parameters, Spring's
    0-based page request (page index and page size), the page of rows it
    selects, Spring's `Page` result, and the 1-based `PagingModel`
    envelope with its page count. */
module Paging {
  import opened Wrappers
  import opened Query

  const MIN_INT: int := -0x8000_0000
  const MAX_INT: int := 0x7fff_ffff

  /** Java's `int` (and the values of a non-null `Integer`). */
  type Int32 = x: int | MIN_INT <= x <= MAX_INT

  /** Java `int` arithmetic: the mathematical result wrapped into 32 bits. */
  function Wrap32(x: int): (r: Int32)
    ensures (r - x) % 0x1_0000_0000 == 0
    ensures MIN_INT <= x <= MAX_INT ==> r == x
  {
    (x - MIN_INT) % 0x1_0000_0000 + MIN_INT
  }

  /** The page and limit the list operations fall back to. */
  const DEFAULT_PAGE: Int32 := 1
  const DEFAULT_LIMIT: Int32 := 10

  type PageSize = n: nat | n >= 1 witness 1

  /** Spring's page request: a 0-based page index and a page size of at least one. */
  datatype Pageable = Pageable(number: nat, size: PageSize) {

    /** The position of the page's first row. */
    function Offset(): nat
    {
      number * size
    }
  }

  /** Why `PageRequest.of` rejects its arguments. */
  datatype PageRequestError =
    | PageIndexNegative    // "Page index must not be less than zero"
    | PageSizeNotPositive  // "Page size must not be less than one"

  /** `PageRequest.of(page, size)`: the index is checked before the size. */
  function PageRequestOf(page: int, size: int): (r: Result<Pageable, PageRequestError>)
    ensures r.Success? <==> page >= 0 && size >= 1
    ensures r.Success? ==> r.value.number == page && r.value.size == size
    ensures r.Failure? ==> (r.error == PageIndexNegative <==> page < 0)
  {
    if page < 0 then Failure(PageIndexNegative)
    else if size < 1 then Failure(PageSizeNotPositive)
    else Success(Pageable(page, size))
  }

  /** The page index for a 1-based page number, without overflow. */
  function PageIndex(page: Int32): (index: int)
    ensures index >= 0 <==> page >= 1
    ensures index < MAX_INT
  {
    page - 1
  }

  /** A page request built from a 1-based page number exists exactly for
      page numbers and limits of at least one. */
  lemma PageIndexAccepts(page: Int32, limit: Int32)
    ensures PageRequestOf(PageIndex(page), limit).Success? <==> page >= 1 && limit >= 1
    ensures PageRequestOf(PageIndex(page), limit).Success? ==>
              PageRequestOf(PageIndex(page), limit).value == Pageable(page - 1, limit)
  {
  }

  /** The page index as the list operations write it: `page - 1` in Java `int`. */
  function PageIndexAsWritten(page: Int32): (index: Int32)
    ensures index >= 0 <==> page >= 1 || page == MIN_INT
  {
    Wrap32(page - 1)
  }

  /** For every page number but the smallest `int`, the source's `page - 1`
      is the intended page index. */
  lemma PageIndexAsWrittenAgrees(page: Int32)
    requires page > MIN_INT
    ensures PageIndexAsWritten(page) == PageIndex(page)
  {
  }

  /** For page number -2147483648, `page - 1` wraps to 2147483647, so the
      page request for page 2147483647 of one row is accepted although the
      page number is below one. */
  lemma PageIndexAsWrittenWraps()
    ensures PageIndexAsWritten(MIN_INT) == MAX_INT
    ensures PageRequestOf(PageIndexAsWritten(MIN_INT), 1).Success?
    ensures PageRequestOf(PageIndexAsWritten(MIN_INT), 1).value == Pageable(MAX_INT, 1)
    ensures PageRequestOf(PageIndex(MIN_INT), 1).Failure?
  {
  }

  /** The steps every list operation takes before it reads storage: when
      either the page or the limit is missing, both fall back to page 1 and
      limit 10; otherwise both are used as given. The page request is then
      built from the 0-based page index. */
  method ResolvePaging(page: Option<Int32>, limit: Option<Int32>)
    returns (p: Int32, l: Int32, request: Result<Pageable, PageRequestError>)
    ensures page.None? || limit.None? ==> p == DEFAULT_PAGE && l == DEFAULT_LIMIT
    ensures page.Some? && limit.Some? ==> p == page.value && l == limit.value
    ensures request.Success? <==> p >= 1 && l >= 1
    ensures request.Success? ==> request.value == Pageable(p - 1, l)
    ensures request.Failure? ==> request.error == if p < 1 then PageIndexNegative else PageSizeNotPositive
  {
    if page.None? || limit.None? {
      p, l := DEFAULT_PAGE, DEFAULT_LIMIT;
    } else {
      p, l := page.value, limit.value;
    }
    PageIndexAccepts(p, l);
    request := PageRequestOf(PageIndex(p), l);
  }

  /** `(int) Math.ceil((double) n / d)` for counts below 2^31: the least
      number of pages of `d` rows that hold `n` rows. */
  function CeilDiv(n: nat, d: PageSize): (q: nat)
    ensures q * d >= n
    ensures q > 0 ==> (q - 1) * d < n
  {
    if n % d == 0 then n / d else n / d + 1
  }

  lemma MulMonotone(a: nat, b: nat, d: nat)
    requires a <= b
    ensures a * d <= b * d
  {
  }

  /** Page `k` (0-based) of `n` rows holds rows exactly when `k` is below the page count. */
  lemma {:induction false} PageStartIff(n: nat, d: PageSize, k: nat)
    ensures k * d < n <==> k < CeilDiv(n, d)
  {
    var q := CeilDiv(n, d);
    if k < q {
      MulMonotone(k, q - 1, d);
    } else {
      MulMonotone(q, k, d);
    }
  }

  /** The rows a page request selects out of already ordered rows; empty
      past the last row. */
  function PageOf<T(!new)>(rows: seq<T>, p: Pageable): (r: seq<T>)
    ensures |r| <= p.size
    ensures forall x :: x in r ==> x in rows
    ensures forall i :: 0 <= i < |r| ==> p.Offset() + i < |rows| && r[i] == rows[p.Offset() + i]
  {
    Slice(rows, p.Offset(), p.size)
  }

  /** However many rows a page holds, the page count computed from the
      number of rows tells exactly which pages are non-empty. */
  lemma PageNonEmptyIff<T(!new)>(rows: seq<T>, p: Pageable)
    ensures |PageOf(rows, p)| > 0 <==> p.number < CeilDiv(|rows|, p.size)
  {
    PageStartIff(|rows|, p.size, p.number);
  }

  /** Every page but the last of the non-empty ones is full. */
  lemma PageFullBeforeLast<T(!new)>(rows: seq<T>, p: Pageable)
    requires p.number + 1 < CeilDiv(|rows|, p.size)
    ensures |PageOf(rows, p)| == p.size
  {
    PageStartIff(|rows|, p.size, p.number + 1);
    assert (p.number + 1) * p.size == p.Offset() + p.size;
  }

  /** Row `i` of ordered rows is on page `i / d`, at position `i % d`: no row
      is skipped by paging. */
  lemma RowOnPage<T(!new)>(rows: seq<T>, d: PageSize, i: nat)
    requires i < |rows|
    ensures i % d < |PageOf(rows, Pageable(i / d, d))|
    ensures PageOf(rows, Pageable(i / d, d))[i % d] == rows[i]
  {
    assert (i / d) * d + i % d == i;
  }

  /** Spring's `Page`: one page of rows, the request that selected it and
      the number of rows all pages hold together. */
  datatype Page<T> = Page(content: seq<T>, pageable: Pageable, totalElements: nat) {

    function TotalPages(): nat
    {
      CeilDiv(totalElements, pageable.size)
    }
  }

  /** A paged query with a WHERE clause `cond` and ORDER BY `key` DESC: the
      requested page of the matching rows, newest first, with the number of
      matching rows. */
  function SelectPage<T(!new)>(rows: seq<T>, cond: T -> bool, key: T -> int, p: Pageable): (r: Page<T>)
    ensures r.pageable == p && r.totalElements == Count(rows, cond)
    ensures |r.content| <= p.size
    ensures forall x :: x in r.content ==> x in rows && cond(x)
    ensures SortedDesc(r.content, key)
    ensures |r.content| > 0 <==> p.number < r.TotalPages()
  {
    var ordered := SelectOrdered(rows, cond, key);
    SliceSorted(ordered, p.Offset(), p.size, key);
    PageNonEmptyIff(ordered, p);
    Page(PageOf(ordered, p), p, Count(rows, cond))
  }

  /** Every row of ordered rows is on one of the pages the page count
      announces. */
  lemma PagesCoverRows<T(!new)>(rows: seq<T>, d: PageSize, x: T)
    requires x in rows
    ensures exists k: nat :: k < CeilDiv(|rows|, d) && x in PageOf(rows, Pageable(k, d))
  {
    var i :| 0 <= i < |rows| && rows[i] == x;
    var k: nat := i / d;
    RowOnPage(rows, d, i);
    PageNonEmptyIff(rows, Pageable(k, d));
    assert PageOf(rows, Pageable(k, d))[i % d] == x;
  }

  /** Every matching row is on one of the pages the page count announces,
      whatever the page size: together the pages hold exactly the matching
      rows. */
  lemma SelectPageCovers<T(!new)>(rows: seq<T>, cond: T -> bool, key: T -> int, d: PageSize, x: T)
    requires x in rows && cond(x)
    ensures exists k: nat :: k < CeilDiv(Count(rows, cond), d) && x in SelectPage(rows, cond, key, Pageable(k, d)).content
  {
    var ordered := SelectOrdered(rows, cond, key);
    PagesCoverRows(ordered, d, x);
    var k: nat :| k < CeilDiv(|ordered|, d) && x in PageOf(ordered, Pageable(k, d));
    assert x in SelectPage(rows, cond, key, Pageable(k, d)).content;
  }

  /** The envelope the list operations return: the 1-based page and the
      limit they ran with, the number of pages and the page's rows. */
  datatype PagingModel<T> = PagingModel(page: int, limit: int, totalPage: nat, listResult: seq<T>)
}
