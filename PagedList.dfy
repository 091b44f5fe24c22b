/*
 * A model of the paged query result of the EsDemo repository layer: the
 * immutable record `PagedList<T>` and the three values it derives from its
 * fields (the number of pages, and whether a previous or a next page exists).
 *
 * The record computes its page count in floating point, as the ceiling of
 * `TotalCount / (double)PageSize`, narrowed to a 32-bit `int`. The model uses
 * exact integer ceiling division instead, `(TotalCount + PageSize - 1) / PageSize`,
 * under the conditions collected in `Countable`: a positive page size, a
 * non-negative count, and a page count that fits in a 32-bit `int` (so that
 * the narrowing cast keeps the value), and a count below 2^53.
 * ASSUMPTION: below 2^53 every `long` count converts to `double` exactly and
 * the correctly rounded quotient has the same ceiling as the exact one, so
 * the integer form agrees with the floating-point one on every count the
 * model admits. At 2^53 and above the conversion to `double` rounds, and the
 * two can differ.
 */
module EsDemo {

  const Int32Min: int := -0x8000_0000
  const Int32Max: int := 0x7FFF_FFFF
  const Int64Min: int := -0x8000_0000_0000_0000
  const Int64Max: int := 0x7FFF_FFFF_FFFF_FFFF

  /** C#'s `int`. */
  type Int32 = x: int | Int32Min <= x <= Int32Max

  /** C#'s `long`. */
  type Int64 = x: int | Int64Min <= x <= Int64Max

  /** The least count a `double` cannot hold exactly: 2^53. */
  const DoubleExactLimit: int := 0x20_0000_0000_0000

  /** Page number a repository query uses when its caller gives none. */
  const RepositoryDefaultPageNumber: Int32 := 0
  /** Page number an HTTP request carries when it does not say. */
  const RequestDefaultPageNumber: Int32 := 1
  /**
   * Page size used when none is given, the same for a repository query and
   * for an HTTP request.
   */
  const DefaultPageSize: Int32 := 10

  /** How many items `pages` full pages of `pageSize` items hold, filled one page at a time. */
  function Capacity(pages: nat, pageSize: nat): nat
  {
    if pages == 0 then 0 else Capacity(pages - 1, pageSize) + pageSize
  }

  /** Filling page by page is multiplication. */
  lemma {:induction false} CapacityIsProduct(pages: nat, pageSize: nat)
    ensures Capacity(pages, pageSize) == pages * pageSize
  {
    if pages > 0 {
      CapacityIsProduct(pages - 1, pageSize);
    }
  }

  /** More pages hold at least as many items. */
  lemma {:induction false} CapacityMonotone(m: nat, n: nat, pageSize: nat)
    requires m <= n
    ensures Capacity(m, pageSize) <= Capacity(n, pageSize)
  {
    if m < n {
      CapacityMonotone(m, n - 1, pageSize);
    }
  }

  /** Pages of at least one item hold at least as many items as there are pages. */
  lemma {:induction false} CapacityAtLeastPages(pages: nat, pageSize: nat)
    requires pageSize > 0
    ensures pages <= Capacity(pages, pageSize)
  {
    if pages > 0 {
      CapacityAtLeastPages(pages - 1, pageSize);
    }
  }

  /**
   * The number of pages needed to show `totalCount` items, `pageSize` per
   * page: the page count whose pages hold all the items while one page fewer
   * would not.
   */
  function PageCount(totalCount: int, pageSize: int): (n: nat)
    requires totalCount >= 0 && pageSize > 0
    ensures totalCount <= Capacity(n, pageSize)
    ensures n > 0 ==> Capacity(n - 1, pageSize) < totalCount
  {
    var q := (totalCount + pageSize - 1) / pageSize;
    var r := (totalCount + pageSize - 1) % pageSize;
    assert q * pageSize + r == totalCount + pageSize - 1;
    CapacityIsProduct(q, pageSize);
    if q > 0 then
      CapacityIsProduct(q - 1, pageSize);
      assert (q - 1) * pageSize == q * pageSize - pageSize;
      q
    else
      q
  }

  /**
   * A reference count of pages, independent of division: fill one page of
   * `pageSize` items at a time until no item is left.
   */
  function PagesByFilling(totalCount: int, pageSize: int): nat
    requires pageSize > 0
    decreases totalCount
  {
    if totalCount <= 0 then 0 else 1 + PagesByFilling(totalCount - pageSize, pageSize)
  }

  /** No smaller page count holds all the items: `PageCount` is the least. */
  lemma PageCountIsLeast(totalCount: int, pageSize: int, m: nat)
    requires totalCount >= 0 && pageSize > 0
    requires totalCount <= Capacity(m, pageSize)
    ensures PageCount(totalCount, pageSize) <= m
  {
    var n := PageCount(totalCount, pageSize);
    if m < n {
      CapacityMonotone(m, n - 1, pageSize);
    }
  }

  /** Any page count with the defining property of `PageCount` is `PageCount`. */
  lemma PageCountUnique(totalCount: int, pageSize: int, m: nat)
    requires totalCount >= 0 && pageSize > 0
    requires totalCount <= Capacity(m, pageSize)
    requires m > 0 ==> Capacity(m - 1, pageSize) < totalCount
    ensures PageCount(totalCount, pageSize) == m
  {
    var n := PageCount(totalCount, pageSize);
    PageCountIsLeast(totalCount, pageSize, m);
    if n < m {
      CapacityMonotone(n, m - 1, pageSize);
    }
  }

  /** Ceiling division and filling page by page count the same pages. */
  lemma {:induction false} PageCountByFilling(totalCount: int, pageSize: int)
    requires totalCount >= 0 && pageSize > 0
    ensures PageCount(totalCount, pageSize) == PagesByFilling(totalCount, pageSize)
    decreases totalCount
  {
    if totalCount == 0 {
      PageCountUnique(totalCount, pageSize, 0);
    } else if totalCount <= pageSize {
      assert PagesByFilling(totalCount - pageSize, pageSize) == 0;
      PageCountUnique(totalCount, pageSize, 1);
    } else {
      var rest := totalCount - pageSize;
      PageCountByFilling(rest, pageSize);
      var k := PageCount(rest, pageSize);
      PageCountUnique(totalCount, pageSize, k + 1);
    }
  }

  /** More items never need fewer pages. */
  lemma PageCountMonotone(smaller: int, larger: int, pageSize: int)
    requires 0 <= smaller <= larger && pageSize > 0
    ensures PageCount(smaller, pageSize) <= PageCount(larger, pageSize)
  {
    PageCountIsLeast(smaller, pageSize, PageCount(larger, pageSize));
  }

  /** Every page holds at least one item, so there are never more pages than items. */
  lemma PageCountAtMostTotal(totalCount: int, pageSize: int)
    requires totalCount >= 0 && pageSize > 0
    ensures PageCount(totalCount, pageSize) <= totalCount
  {
    CapacityAtLeastPages(totalCount, pageSize);
    PageCountIsLeast(totalCount, pageSize, totalCount);
  }

  /** `k` full pages of items need exactly `k` pages. */
  lemma PageCountOfFullPages(k: nat, pageSize: int)
    requires pageSize > 0
    ensures PageCount(k * pageSize, pageSize) == k
  {
    PageCountUnique(Capacity(k, pageSize), pageSize, k);
    CapacityIsProduct(k, pageSize);
  }

  /** A page from 0 on comes before the last one exactly when items remain after it. */
  lemma BeforeLastPageIffItemsRemain(pageNumber: int, totalCount: int, pageSize: int)
    requires totalCount >= 0 && pageSize > 0
    ensures pageNumber >= 0 ==> (pageNumber < PageCount(totalCount, pageSize) <==> pageNumber * pageSize < totalCount)
  {
    if pageNumber >= 0 {
      var n := PageCount(totalCount, pageSize);
      CapacityIsProduct(pageNumber, pageSize);
      if pageNumber < n {
        CapacityMonotone(pageNumber, n - 1, pageSize);
      } else {
        CapacityMonotone(n, pageNumber, pageSize);
      }
    }
  }

  /** The immutable result of one paged query. */
  datatype PagedList<T> = PagedList(data: seq<T>, totalCount: Int64, pageNumber: Int32, pageSize: Int32)
  {
    /**
     * The fields for which the page count is modelled: a positive page size,
     * a non-negative count below 2^53, and a page count that a 32-bit `int`
     * can hold.
     */
    predicate Countable()
    {
      && pageSize > 0
      && 0 <= totalCount < DoubleExactLimit
      && PageCount(totalCount, pageSize) <= Int32Max
    }

    /** The number of pages the whole result spans, `PageSize` items per page. */
    function TotalPages(): (n: Int32)
      requires Countable()
      ensures 0 <= n
      ensures totalCount <= Capacity(n, pageSize as nat)
      ensures n > 0 ==> Capacity(n - 1, pageSize as nat) < totalCount
      ensures totalCount <= n * pageSize
      ensures n > 0 ==> (n - 1) * pageSize < totalCount
    {
      var n := PageCount(totalCount, pageSize);
      CapacityIsProduct(n, pageSize as nat);
      if n > 0 then
        CapacityIsProduct(n - 1, pageSize as nat);
        n
      else
        n
    }

    /**
     * Whether a page comes before this one, pages being numbered from 1:
     * from page 1 on, exactly when the pages before it have room for at
     * least one item.
     */
    function HasPreviousPage(): (b: bool)
      ensures pageSize > 0 && pageNumber >= 1 ==> (b <==> Capacity(pageNumber - 1, pageSize as nat) > 0)
    {
      pageNumber > 1
    }

    /**
     * Whether a page comes after this one, pages being numbered up to
     * `TotalPages`: from page 0 on, exactly when pages 1 to `pageNumber` do
     * not hold every item; below page 0, always.
     */
    function HasNextPage(): (b: bool)
      requires Countable()
      ensures pageNumber < 0 ==> b
      ensures pageNumber >= 0 ==> (b <==> pageNumber * pageSize < totalCount)
    {
      BeforeLastPageIffItemsRemain(pageNumber, totalCount, pageSize);
      pageNumber < TotalPages()
    }
  }

  /** With no items at all there are no pages. */
  lemma NoItemsNoPages<T>(p: PagedList<T>)
    requires p.Countable() && p.totalCount == 0
    ensures p.TotalPages() == 0
    ensures p.pageNumber >= 0 ==> !p.HasNextPage()
  {
    PageCountUnique(0, p.pageSize, 0);
  }

  /** An exact multiple of the page size fills exactly that many pages. */
  lemma FullPagesTotalPages<T>(p: PagedList<T>, k: nat)
    requires p.Countable() && p.totalCount == k * p.pageSize
    ensures p.TotalPages() == k
  {
    PageCountOfFullPages(k, p.pageSize);
  }

  /** 25 items at 10 per page span 3 pages. */
  lemma TwentyFiveItemsTenPerPage<T>(data: seq<T>, pageNumber: Int32)
    ensures PagedList(data, 25, pageNumber, 10).Countable()
    ensures PagedList(data, 25, pageNumber, 10).TotalPages() == 3
  {
    PageCountUnique(25, 10, 3);
  }

  /**
   * Bounds: there are never more pages than items, and any item needs a
   * page.
   */
  lemma TotalPagesBounds<T>(p: PagedList<T>)
    requires p.Countable()
    ensures 0 <= p.TotalPages() <= p.totalCount
    ensures p.totalCount > 0 ==> 1 <= p.TotalPages()
  {
    PageCountAtMostTotal(p.totalCount, p.pageSize);
  }

  /** For a fixed page size, more items never give fewer pages. */
  lemma TotalPagesMonotone<T>(p: PagedList<T>, q: PagedList<T>)
    requires p.Countable() && q.Countable()
    requires p.pageSize == q.pageSize && p.totalCount <= q.totalCount
    ensures p.TotalPages() <= q.TotalPages()
  {
    PageCountMonotone(p.totalCount, q.totalCount, p.pageSize);
  }

  /** The page count agrees with filling pages one at a time. */
  lemma TotalPagesByFilling<T>(p: PagedList<T>)
    requires p.Countable()
    ensures p.TotalPages() == PagesByFilling(p.totalCount, p.pageSize)
  {
    PageCountByFilling(p.totalCount, p.pageSize);
  }

  /** On a page strictly inside a result of several pages, some neighbour exists. */
  lemma SomeNeighbourPage<T>(p: PagedList<T>)
    requires p.Countable() && p.TotalPages() >= 2
    requires 1 <= p.pageNumber <= p.TotalPages()
    ensures p.HasPreviousPage() || p.HasNextPage()
    ensures p.pageNumber == p.TotalPages() ==> !p.HasNextPage()
    ensures p.pageNumber == 1 ==> !p.HasPreviousPage() && p.HasNextPage()
  {
  }

  /**
   * At the repository's default page 0 there is never a previous page, and
   * there is a next page exactly when there is any item.
   */
  lemma RepositoryDefaultPageFlags<T>(p: PagedList<T>)
    requires p.Countable() && p.pageNumber == RepositoryDefaultPageNumber
    ensures !p.HasPreviousPage()
    ensures p.HasNextPage() <==> p.totalCount > 0
  {
  }

  /**
   * At a request's default page 1 of the default 10 items there is never a previous page,
   * and there is a next page exactly when there are more than 10 items.
   */
  lemma RequestDefaultPageFlags<T>(p: PagedList<T>)
    requires p.Countable()
    requires p.pageNumber == RequestDefaultPageNumber && p.pageSize == DefaultPageSize
    ensures !p.HasPreviousPage()
    ensures p.HasNextPage() <==> p.totalCount > 10
  {
  }

  /**
   * Construction keeps the four fields as given, and the derived values
   * depend on the three numbers alone: the items themselves change nothing,
   * and whether a previous page exists depends on the page number only.
   */
  lemma DerivedValuesIgnoreData<T>(data: seq<T>, other: seq<T>, totalCount: Int64, pageNumber: Int32, pageSize: Int32)
    requires PagedList(data, totalCount, pageNumber, pageSize).Countable()
    ensures var p := PagedList(data, totalCount, pageNumber, pageSize);
      && p.data == data && p.totalCount == totalCount
      && p.pageNumber == pageNumber && p.pageSize == pageSize
    ensures var p, q := PagedList(data, totalCount, pageNumber, pageSize), PagedList(other, totalCount, pageNumber, pageSize);
      && q.Countable()
      && p.TotalPages() == q.TotalPages()
      && p.HasPreviousPage() == q.HasPreviousPage()
      && p.HasNextPage() == q.HasNextPage()
  {
  }

  /** Whether a previous page exists is decided by the page number alone. */
  lemma HasPreviousPageOnlyPageNumber<T>(p: PagedList<T>, q: PagedList<T>)
    requires p.pageNumber == q.pageNumber
    ensures p.HasPreviousPage() == q.HasPreviousPage()
    ensures p.HasPreviousPage() <==> p.pageNumber > 1
  {
  }
}
