# Lexora library API: catalog and borrow-request model

A Dafny model of the bookkeeping core of the Lexora library backend. It covers:

- the book catalog service: listing all books, listing a page, looking books up by ids, adding, editing, borrowing and deleting;
- how the request controller creates a borrow request and dispatches a librarian's action;
- the borrow-request store helpers: listing by id, appending, and "does this reader have a pending request".

Both database tables are modelled as sequences of rows:
- `Catalog` is the `Books` table, with unique ids as its primary-key constraint;
- `RequestTable` is the `Requests` table.

Every operation is a pure function from the tables (and its inputs) to a result and the tables afterwards. Store outcomes that the code cannot see are parameters:
- the identity the database assigns a new row;
- whether `SaveChangesAsync` throws.

Modules, one per file:
- `Wrappers` (`wrappers.dfy`): `Option` and `Result`.
- `Text` (`text.dfy`): .NET's `char.IsWhiteSpace`, `Trim` and `IsNullOrWhiteSpace`, plus the ordinal string order used to sort titles and authors.
- `Sorting` (`sorting.dfy`): a sort with respect to a total preorder. It stands in for SQL `ORDER BY`.
- `Models` (`models.dfy`): `Book`, `BorrowRequest`, `RequestStatus`, `Order`, `Date`, the catalog and the primary-key lookup.
- `Pagination` (`pagination.dfy`): page-size coercion, the ceiling page count and the skip/take window.
- `BookService` (`book_service.dfy`): `Services/BookService.cs`.
- `RequestService` (`request_service.dfy`): `Services/RequestService.cs`.
- `RequestController` (`request_controller.dfy`): the logic of `Controllers/RequestController.cs`.

Behaviours of the code that the model keeps, some of them surprising:
- **Duplicate pending request.** `Create` never calls `CheckPendingRequest`, although it logs `aa.HasPendingRequest` afterwards (`Controllers/RequestController.cs:162`). So a reader who already has a pending request can create another. `RequestController.CreateIgnoresExistingRequests` states this.
- **Default sort key.** With no sort criterion, the `switch` takes its `_` arm and the book listing is ordered by id (`Services/BookService.cs:107`, `:117`).
- **Null sort direction.** A null `Order` sorts descending, because the lifted comparison `filter.Order > 0` is false for null (`Services/BookService.cs:99`). The `Filter` class itself initialises `Order` to `Ascending` (`Services/BookService.cs:65`).
- **Publication-date edits.** `EditBook` accepts a new publication date only when its year is after 2025 (`Services/BookService.cs:191`). An earlier date is silently ignored.
- **Paging offset.** The listing runs on PostgreSQL (`Program.cs:57-59` configures `UseNpgsql`). There `Skip` becomes `OFFSET`, and PostgreSQL refuses a negative offset. The as-written offset `pageNumber - limit` is negative on every page before page `limit`, so those pages fail when the page is fetched. That includes page 1 whenever `limit >= 2`.
- **Stock bounds.** Nothing in `AddBook` or `BorrowBooks` keeps `0 <= available <= total`. A negative total is stored as given, and borrowing a book with no copy left drives its count to -1 (`BookService.BorrowedCanGoNegative`).
- **Reader id type.** `ReaderId` is a string, as the latest migration defines the column (`Migrations/AppDb/20250715122643_Initial.cs:48`). The entity class still declares it as `int` (`Models/Request.cs:15`).

## Model

| member | source | states |
|---|---|---|
| `Text.BlankAfterTrimIffBlank` | Services/BookService.cs:178-190 | Trimming before `IsNullOrWhiteSpace` does not change the verdict: a value is blank after `Trim()` exactly when it is null or all white space. |
| `Text.Trim` | Services/BookService.cs:178 | `Trim()` returns a contiguous slice of the string with only white space outside it, and a non-empty result starts and ends with a non-white-space character. |
| `Models.Find` | Services/BookService.cs:140 | A lookup by primary key finds a row carrying the id, with no earlier row carrying it; when it finds nothing, no row has the id. |
| `Models.NewBorrowRequest` | Controllers/RequestController.cs:137 | A freshly built request carries the caller's duration and reader id, is `Pending` (the enum's zero value), has no librarian and no books. |
| `Pagination.EffectiveLimit` | Services/BookService.cs:96 | The page size actually used is at least 1. A positive size is kept and any other becomes 1. |
| `Pagination.TotalPages` | Services/BookService.cs:122-125 | The decimal ceiling of `totalItems / limit` is 0 for no items. Otherwise it is the least page count whose pages hold every item: `(pages-1)*limit < totalItems <= pages*limit`. |
| `Pagination.Window` | Services/BookService.cs:127-128 | `OFFSET n LIMIT limit` with `n >= 0` yields at most `limit` consecutive items starting at item `n`, and nothing when `n` is past the end. |
| `Pagination.SkipTake` | Services/BookService.cs:127-128 | `Skip(n).Take(limit)` translated for PostgreSQL fails with a negative-offset error exactly when `n < 0`, and otherwise yields that window. |
| `Pagination.SkipAgreesIff` | Services/BookService.cs:127 | The as-written skip `pageNumber - 1 * limit` is negative exactly when `pageNumber < limit`. The intended `(pageNumber - 1) * limit` is negative exactly when `pageNumber < 1`. The two are equal exactly when `pageNumber == 0` or `limit == 1`. |
| `Pagination.AsWrittenPages` | Services/BookService.cs:127-128 | As written, every page before page `limit` fails with a negative offset. Page `limit` shows the first page, and a later page `p` starts at item `p - limit`. |
| `Pagination.AsWrittenExample` | Services/BookService.cs:127-128 | With 20 items and 10 per page, page 2 as written fails, page 10 shows items 0-9 and page 11 items 1-10. The corrected page 2 shows items 10-19. |
| `Pagination.CorrectedWindowIsPage` | Services/BookService.cs:127-128 | With the skip `(pageNumber-1)*limit`, a page fails exactly when `pageNumber < 1`. Otherwise page `pageNumber` holds exactly the items whose position lies on that page, in order. |
| `Pagination.CorrectedPagesPartition` | Services/BookService.cs:122-128 | With the corrected skip, each item lies on exactly one page, and that page is between 1 and `TotalPages`. |
| `BookService.KeyOf` | Services/BookService.cs:102-108 | Each sort criterion selects its own column. The absence of a criterion, and only that, falls back to ordering by id. |
| `BookService.PrecedesIsTotalPreorder` | Services/BookService.cs:99-119 | Each of the eight orderings (four keys, ascending or descending) is total and transitive, so the sorted listing is well defined. |
| `BookService.ListAll` | Services/BookService.cs:86-90 | `GetBooks()` returns every book exactly as often as stored, in id order, strictly increasing when ids are unique. |
| `BookService.Ordered` | Services/BookService.cs:98-120 | The listing before paging is a permutation of the catalog, sorted by the selected key in the selected direction. |
| `BookService.WindowOfOrdered` | Services/BookService.cs:127-128 | Every page of the ordered listing is itself in filter order and contains only catalog books. |
| `BookService.GetBooksPage` | Services/BookService.cs:92-130 | The paginated listing fails with a negative offset exactly when `pageNumber` is below the coerced size. Otherwise it echoes `pageNumber` and the coerced size (1 for a non-positive limit), and reports the catalog size and the ceiling page count. The page holds at most `size` catalog books in filter order, taken from the as-written offset `pageNumber - size`. |
| `BookService.GetBooksPageCorrected` | Services/BookService.cs:92-130 | With the intended offset `(pageNumber-1)*size`, the listing fails exactly when `pageNumber < 1`. Otherwise it gives the same report (page, coerced size, catalog size, ceiling page count, at most `size` catalog books in filter order), with the page taken from the intended offset. |
| `BookService.GetBooksByIds` | Services/BookService.cs:134-149 | The result is no longer than the id list. It contains only stored books whose ids were requested, and it is empty exactly when no requested id names a stored book. |
| `BookService.GetBooksByIdsAppend` | Services/BookService.cs:138-146 | The lookup follows the input order: looking up `a + b` is looking up `a`, then `b`. |
| `BookService.GetBooksByIdsCount` | Services/BookService.cs:134-149 | Under unique ids, each stored book appears exactly as often as its id was requested, and nothing else appears. |
| `BookService.GetBook` | Services/BookService.cs:217-221 | A single lookup returns the book with that id when there is one, and `null` otherwise. |
| `BookService.AddBook` | Services/BookService.cs:152-169 | The stored book has `AvailableQuantity == TotalQuantity` and all other fields as given, and it is appended. A save that fails on a taken id returns `null` and leaves the table unchanged. |
| `BookService.AddBookKeepsInvariants` | Services/BookService.cs:155 | Adding keeps ids unique, and keeps stock within bounds when the new total is not negative. |
| `BookService.ApplyUpdate` | Services/BookService.cs:178-194 | An update never changes id, ISBN, total or available quantity. |
| `BookService.EditBook` | Services/BookService.cs:171-198 | An unknown id gives `null` and no change. Otherwise only that row changes: title, author and description change exactly when the new value is not null or white space, and the date changes exactly when the new year is after 2025. Id, ISBN and quantities stay. |
| `BookService.EditBookKeepsInvariants` | Services/BookService.cs:171-198 | Editing keeps ids unique and stock bounded. |
| `BookService.EditBookIdempotent` | Services/BookService.cs:171-198 | Applying the same edit twice is the same as applying it once. |
| `BookService.EmptyEditChangesNothing` | Services/BookService.cs:178-194 | An edit with only null text and the default date leaves the catalog unchanged, whatever quantity it carries. |
| `BookService.BorrowBooks` | Services/BookService.cs:201-215 | Each book whose id is listed loses exactly one available copy, however often the id is listed. No other field and no unlisted book changes. The result agrees with the declarative `Borrowed`. |
| `BookService.BorrowedKeepsStockBounded` | Services/BookService.cs:207-213 | If every listed book has a copy available, borrowing keeps `0 <= available <= total` and unique ids. |
| `BookService.BorrowedCanGoNegative` | Services/BookService.cs:211 | Without that guard the decrement goes below zero: one book with no copy left ends at -1. |
| `BookService.DeleteBook` | Services/BookService.cs:223-233 | As written: a stored id is removed with `true`. An unknown id raises the "no matching element" error and changes nothing. `false` is never returned. |
| `BookService.DeleteBookCorrected` | Services/BookService.cs:223-233 | As documented: the answer is whether the id existed. Afterwards no book has the id, every other book remains, nothing is added, and ids stay unique. |
| `RequestService.GetBorrowRequests` | Services/RequestService.cs:18-22 | Every stored request comes back exactly as often as stored, but without its books, because the query has no `Include`. The result is sorted by ascending id, strictly when ids are unique. |
| `RequestService.CreateRequest` | Services/RequestService.cs:24-36 | The caller gets its own request back, differing at most in the store-assigned id. A successful save appends exactly that request. A failed save is swallowed, leaving the table and the request unchanged. |
| `RequestService.FirstPending` | Services/RequestService.cs:40 | `FirstAsync` finds the first pending request of the reader, or reports that there is none. |
| `RequestService.CheckPendingRequest` | Services/RequestService.cs:38-49 | As written: `true` exactly when the reader has a pending request, and the "no matching element" error otherwise. Never `false`. The table is only read. |
| `RequestService.CheckPendingRequestCorrected` | Services/RequestService.cs:38-49 | As intended: `true` exactly when the reader has a pending request, and `false` otherwise. |
| `RequestService.CreateRequestAndPending` | Services/RequestService.cs:24-49 | Appending a request leaves every other reader's pending check unchanged. A saved pending request makes its reader's check succeed. |
| `RequestController.Create` | Controllers/RequestController.cs:133-172 | The catalog is never changed. An empty id list is refused with "No books were requested." before anything else. Otherwise, if no id names a book, it is refused with "No requested book is available". Creation succeeds exactly when neither applies, and the new request is `Pending`, carries the caller's reader id and duration, has no librarian and no penalty, and holds exactly the books found. It is appended when the save succeeds. |
| `RequestController.CreateIgnoresExistingRequests` | Controllers/RequestController.cs:133-172 | Whether creation succeeds does not depend on the existing requests, so an already-pending reader is not refused. |
| `RequestController.ActOnRequest` | Controllers/RequestController.cs:57-95 | Any action other than `approve` or `reject` is refused with "Invalid action value" and nothing else happens. `approve` dispatches to approval and `reject` to rejection. |
| `RequestController.RetrieveRequests` | Controllers/RequestController.cs:26-30 | Each supplied parameter passes through unchanged. Each omitted one takes its own default, independently of the others: size 10, page 1, `Descending` (code 0), `Pending`. |
| `RequestController.RetrieveRequestsDefaults` | Controllers/RequestController.cs:26 | Omitting a parameter is the same as passing its default, and passing a query's fields back in reproduces that query. |

## Findings

| source | as written | input that shows it | evidently intended | confidence | as-written member | corrected member |
|---|---|---|---|---|---|---|
| Services/BookService.cs:127 | `Skip(pageNumber - 1 * limit)` skips `pageNumber - limit` items, which is negative on every page before page `limit`. PostgreSQL refuses a negative `OFFSET`. | 20 books, `limit = 10`: pages 1 and 2 have offsets -9 and -8 and fail. Page 10 shows books 0-9, and page 11 shows books 1-10. | Skip `(pageNumber - 1) * limit` items. | high; not executed | `Pagination.AsWrittenPages` | `Pagination.CorrectedWindowIsPage` |
| Services/RequestService.cs:40-48 | `FirstAsync` throws when nothing matches, so the `false` branch is unreachable. | An empty request table and any user id. | Return `false` when the reader has no pending request. | high; not executed | `RequestService.CheckPendingRequest` | `RequestService.CheckPendingRequestCorrected` |
| Services/BookService.cs:225-229 | `FirstAsync` throws for an unknown id, so the documented `false` is never returned. | An empty catalog and any id. | Return `false` when no book has the id (interface documentation, line 58). | high; not executed | `BookService.DeleteBook` | `BookService.DeleteBookCorrected` |

## Left out

- Approve, reject, return and penalty computation: the controller calls `Approve` and `RejectRequest`, but the request service shown declares only three methods, so there is no code to model. For the same reason, `ApproveRequest`, `GetOne` and `GetUserRequest` are left out, and so is the four-argument listing overload `RetrieveRequests` calls. Only the dispatch and the defaults are modelled.
- `RequestController.Create`: after `CreateRequest` the controller tests `aa.Succeeded()`, which `BorrowRequest` does not define. The model returns the request `CreateRequest` hands back as the success value whatever the save outcome.
- `RequestController.Create`: a missing name-identifier claim (`userId!.Value` on null) is not modelled. The reader id is a parameter.
- Store failures: the only ones modelled are a taken id in `AddBook` and the `SaveResult` parameter of `CreateRequest`. A failing `SaveChangesAsync` in `EditBook`, `BorrowBooks` or `DeleteBook` propagates as an exception and is not modelled.
- `BorrowBooks` is `async void`, so its effect is unordered with its caller's; concurrency and transactions are not modelled.
- RequestService.GetBorrowRequests: requests the context already tracks would come back with the books loaded earlier. The model always returns them without books, because change tracking is not modelled.
- Entity Framework change tracking: a duplicated id in `GetBooks(ids)` yields the same book twice in the model, and any collapsing of that duplicate by the `RequestBooks` join table is not modelled.
- 32-bit integers: ids, quantities, `pageNumber - limit` and the page-count cast are unbounded in the model, so `int` overflow and wrap-around are not modelled.
- `Pagination.TotalPages`: computed on exact reals. `decimal` rounding of the quotient cannot move it across an integer for 32-bit operands.
- Dates are `(year, month, day)` triples ordered chronologically; calendar validity is not modelled. `DateOnly.ToString()` is never blank, so the white-space test on the new date in `EditBook` is always passed and is omitted.
- Enum values outside their declared range (for example `SortCriteria` 0 or 4) are not modelled. Only a null criterion takes the id fallback, and only a null order takes the descending branch.
- String order: `Title` and `Author` sort by an ordinal lexicographic order. The database's collation may differ, but the model only relies on that order being a total preorder.
- Ties under `ORDER BY` are returned in an unspecified order by the database. The model's sort picks one, and the contracts claim only a sorted permutation.
- Authentication, roles, JWT issuance, identity seeding, CORS and OpenAPI wiring, console logging and HTTP result types are framework plumbing.
- `BookController` is an empty stub, and the migrations fix only column types.
