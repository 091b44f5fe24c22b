# EsDemo paged result, in Dafny

This project models the paged query result of the EsDemo repository layer.
`PagedList<T>` is an immutable record with four fields:
- the page of items (`Data`);
- the number of matching documents (`TotalCount`, a `long`);
- the page number (`PageNumber`, an `int`);
- the page size (`PageSize`, an `int`).

From these fields it derives three values:
- `TotalPages`, the ceiling of `TotalCount / PageSize`;
- `HasPreviousPage`;
- `HasNextPage`.

Everything lives in module `EsDemo` in `PagedList.dfy`:
- the record is the datatype `EsDemo.PagedList`, and the three derived values are its member functions;
- the C# `int` and `long` widths are the subset types `Int32` and `Int64`;
- the default page numbers of the repository interface (page 0) and of the HTTP request parameters (page 1), and their shared default page size 10, are constants.

The source computes the page count in floating point. It divides `TotalCount` by `(double)PageSize`, takes `Math.Ceiling` and narrows the result with an `(int)` cast. The model uses exact integer ceiling division instead (`PageCount`). That form is valid under the predicate `Countable`:
- the page size is positive;
- the count is not negative;
- the page count fits in a 32-bit `int`, so the cast keeps the value;
- the count is below 2^53.

For counts below 2^53 the two computations agree. That is an assumption about IEEE double arithmetic, stated in a comment and not proved.

The page number ranges over every 32-bit `int`. The repository interface defaults it to 0, so the flags are also stated for page 0 and below.

`PageCount` is characterised by its defining property: that many pages hold every item, and one page fewer would not. It is also proved equal to `PagesByFilling`, which counts pages by filling one page at a time without any division.

## Model

| member | source | states |
|---|---|---|
| `EsDemo.PageCount` | EsDemo/PagedList.cs:9 | For a positive page size and a non-negative count, n pages hold all TotalCount items, and when n > 0, n-1 pages do not |
| `EsDemo.PageCountIsLeast` | EsDemo/PagedList.cs:9 | Any m whose m pages hold all items is at least the page count, so the page count is the least such number |
| `EsDemo.PageCountUnique` | EsDemo/PagedList.cs:9 | Any m such that m pages hold all the items and, when m > 0, m-1 pages do not, equals the page count |
| `EsDemo.PageCountByFilling` | EsDemo/PagedList.cs:9 | The ceiling division equals the count of pages made by filling one page of PageSize items at a time |
| `EsDemo.PageCountMonotone` | EsDemo/PagedList.cs:9 | For a fixed page size, a larger count never gives fewer pages |
| `EsDemo.PageCountAtMostTotal` | EsDemo/PagedList.cs:9 | There are never more pages than items |
| `EsDemo.PageCountOfFullPages` | EsDemo/PagedList.cs:9 | k*PageSize items give exactly k pages |
| `EsDemo.PagedList.TotalPages` | EsDemo/PagedList.cs:9 | For a countable record, TotalPages is a non-negative 32-bit int with TotalCount <= TotalPages*PageSize and, when TotalPages > 0, (TotalPages-1)*PageSize < TotalCount; the same bounds are also stated as pages filled one at a time |
| `EsDemo.NoItemsNoPages` | EsDemo/PagedList.cs:9-11 | A count of 0 gives 0 pages, and then no next page from any page number >= 0 |
| `EsDemo.FullPagesTotalPages` | EsDemo/PagedList.cs:9 | A count of k*PageSize gives exactly k pages |
| `EsDemo.TwentyFiveItemsTenPerPage` | EsDemo/PagedList.cs:9 | 25 items at page size 10 are countable and give 3 pages |
| `EsDemo.TotalPagesBounds` | EsDemo/PagedList.cs:9 | 0 <= TotalPages <= TotalCount, and a positive count gives at least one page |
| `EsDemo.TotalPagesMonotone` | EsDemo/PagedList.cs:9 | For the same page size, a record with a larger count has at least as many pages |
| `EsDemo.TotalPagesByFilling` | EsDemo/PagedList.cs:9 | TotalPages equals the page-by-page filling count |
| `EsDemo.HasPreviousPageOnlyPageNumber` | EsDemo/PagedList.cs:10 | HasPreviousPage holds exactly when PageNumber > 1, and records with equal page numbers agree on it |
| `EsDemo.PagedList.HasPreviousPage` | EsDemo/PagedList.cs:10 | PageNumber > 1, defined for every 32-bit page number with no precondition. From page 1 on, with a positive page size, it holds exactly when the pages numbered before this one have room for at least one item |
| `EsDemo.BeforeLastPageIffItemsRemain` | EsDemo/PagedList.cs:9-11 | For a page number >= 0, PageNumber is below the page count exactly when PageNumber*PageSize < TotalCount |
| `EsDemo.PagedList.HasNextPage` | EsDemo/PagedList.cs:11 | PageNumber < TotalPages, defined for Countable records. For a page number >= 0 it holds exactly when PageNumber*PageSize < TotalCount, that is, when pages 1 to PageNumber do not hold every item. For a negative page number it always holds |
| `EsDemo.SomeNeighbourPage` | EsDemo/PagedList.cs:9-11 | With at least 2 pages and 1 <= PageNumber <= TotalPages, a previous or a next page exists. The last page has no next page. Page 1 has a next page and no previous one |
| `EsDemo.RepositoryDefaultPageFlags` | EsDemo/IBaseRepository.cs:15-17 | At the interface's default page 0 there is no previous page, and there is a next page exactly when TotalCount > 0 |
| `EsDemo.RequestDefaultPageFlags` | EsDemo/BasePaginationParameters.cs:7-9 | At the request defaults (page 1, size 10) there is no previous page, and there is a next page exactly when TotalCount > 10 |
| `EsDemo.DerivedValuesIgnoreData` | EsDemo/PagedList.cs:3-11 | Construction stores the four fields unchanged, and replacing Data changes none of the three derived values |

## Left out

- `EsDemo.PagedList.TotalPages`: the `double` division, `Math.Ceiling` and the `(int)` narrowing are not modelled. The following fall outside `Countable` and are not modelled: a page size of 0 or below, a negative count, a page count above `int.MaxValue`, and counts of 2^53 or more, where the conversion to `double` rounds and the source's result can differ from the exact ceiling.
- `EsDemo.PagedList.HasNextPage`: it is modelled only where `TotalPages` is, for the same reason.
- The generic repository `BaseRepository<T>` is not part of this model. Its interface, in `EsDemo/IBaseRepository.cs`, declares bulk add, add, get, all, query, remove, remove-all, the two paged listings, count, exists and update. The page-to-offset conversion and the `sortBy` parsing are in the implementation, which is not part of this model either. The implementation wraps the Elasticsearch client, whose behaviour cannot be seen.
- `ProductRepository` binds the generic repository to the index `"products"`. It has no behaviour of its own.
- `EsDemo/Program.cs` holds the HTTP routes, OpenAPI setup and dependency injection. This is glue that maps a result or a flag to a status code.
- The request DTOs and the `Product` model are plain properties. Only the pagination defaults (1, 10) are kept, as constants. `BasePaginationParameters` is declared twice, in `EsDemo/QueryHelper.cs:6-11` and in `EsDemo/BasePaginationParameters.cs:5-10`, with the same defaults.
