/**
 * The book inventory and catalog service: listing (whole, by ids, and
 * paginated), adding, editing, borrowing and deleting books.
 */
module BookService {
  import opened Wrappers
  import opened Models
  import Text
  import Sorting
  import Pagination

  /** `SortCriteria`; the enum's values start at 1. */
  datatype SortCriteria = PublicationDate | Title | Author

  /** The listing filter. Both fields are nullable; `Order` defaults to `Ascending`. */
  datatype Filter = Filter(sortBy: Option<SortCriteria>, order: Option<Order>)

  /** The column a listing is ordered by. */
  datatype SortKey = ByPublicationDate | ByTitle | ByAuthor | ById

  /** The `switch` on `SortBy`: each criterion selects its column, and anything
      unrecognised (here: no criterion) falls back to the id. */
  function KeyOf(sortBy: Option<SortCriteria>): (k: SortKey)
    ensures k == ById <==> sortBy.None?
    ensures k == ByPublicationDate <==> sortBy == Some(PublicationDate)
    ensures k == ByTitle <==> sortBy == Some(Title)
    ensures k == ByAuthor <==> sortBy == Some(Author)
  {
    match sortBy
    case Some(PublicationDate) => ByPublicationDate
    case Some(Title) => ByTitle
    case Some(Author) => ByAuthor
    case None => ById
  }

  /** `filter.Order > 0`: a lifted comparison, so a null order is not ascending. */
  predicate IsAscending(order: Option<Order>) {
    order.Some? && order.value.Code() > 0
  }

  /** `a` may come before `b` in `OrderBy(b => b.Id)`. */
  predicate IdLe(a: Book, b: Book) {
    a.id <= b.id
  }

  /** `a` may come before `b` when ordering ascending by `k`. */
  predicate KeyLe(k: SortKey, a: Book, b: Book) {
    match k
    case ByPublicationDate => DateLe(a.publicationDate, b.publicationDate)
    case ByTitle => Text.OrdinalLe(a.title, b.title)
    case ByAuthor => Text.OrdinalLe(a.author, b.author)
    case ById => IdLe(a, b)
  }

  /** `a` may come before `b` in the listing: `OrderBy` on the key when ascending,
      `OrderByDescending` otherwise. */
  predicate Precedes(k: SortKey, ascending: bool, a: Book, b: Book) {
    if ascending then KeyLe(k, a, b) else KeyLe(k, b, a)
  }

  /** Each of the eight orderings is a total preorder, so sorting by it is well defined. */
  lemma PrecedesIsTotalPreorder(k: SortKey, ascending: bool)
    ensures Sorting.TotalPreorder((a: Book, b: Book) => Precedes(k, ascending, a, b))
  {
    var le := (a: Book, b: Book) => Precedes(k, ascending, a, b);
    forall a: Book, b: Book
      ensures le(a, b) || le(b, a)
    {
      Text.OrdinalLeTotal(a.title, b.title);
      Text.OrdinalLeTotal(a.author, b.author);
    }
    forall a: Book, b: Book, c: Book | le(a, b) && le(b, c)
      ensures le(a, c)
    {
      match k
      case ByTitle =>
        if ascending {
          Text.OrdinalLeTransitive(a.title, b.title, c.title);
        } else {
          Text.OrdinalLeTransitive(c.title, b.title, a.title);
        }
      case ByAuthor =>
        if ascending {
          Text.OrdinalLeTransitive(a.author, b.author, c.author);
        } else {
          Text.OrdinalLeTransitive(c.author, b.author, a.author);
        }
      case _ =>
    }
  }

  /** `GetBooks()`: every book, ordered by id. With unique ids the order is strict. */
  function ListAll(c: Catalog): (r: seq<Book>)
    ensures multiset(r) == multiset(c)
    ensures Sorting.SortedBy(IdLe, r)
    ensures UniqueIds(c) ==> forall i, j :: 0 <= i < j < |r| ==> r[i].id < r[j].id
  {
    var r := Sorting.Sort(IdLe, c);
    if UniqueIds(c) then
      Sorting.SortedDistinctKeysStrict((b: Book) => b.id, IdLe, c, r);
      r
    else r
  }

  /** The catalog ordered as the filter asks. */
  function Ordered(c: Catalog, filter: Filter): (r: seq<Book>)
    ensures Sorting.SortedBy((a: Book, b: Book) => Precedes(KeyOf(filter.sortBy), IsAscending(filter.order), a, b), r)
    ensures multiset(r) == multiset(c)
    ensures |r| == |c|
  {
    var le := (a: Book, b: Book) => Precedes(KeyOf(filter.sortBy), IsAscending(filter.order), a, b);
    PrecedesIsTotalPreorder(KeyOf(filter.sortBy), IsAscending(filter.order));
    Sorting.Sort(le, c)
  }

  /** `BooksResponse`. */
  datatype BooksResponse = BooksResponse(
    books: seq<Book>,
    currentPage: int,
    itemsPerPage: int,
    totalItems: int,
    totalPages: int)

  /** `s` is in the order the filter asks for. */
  predicate InFilterOrder(filter: Filter, s: seq<Book>) {
    Sorting.SortedBy((a: Book, b: Book) => Precedes(KeyOf(filter.sortBy), IsAscending(filter.order), a, b), s)
  }

  /** What an answer of the paged listing reports: the page it was asked for,
      the coerced page size, the catalog size and the ceiling page count, and at
      most one page of catalog books in filter order. */
  predicate DescribesListing(c: Catalog, filter: Filter, pageNumber: int, limit: int, resp: BooksResponse) {
    && resp.currentPage == pageNumber
    && resp.itemsPerPage == Pagination.EffectiveLimit(limit)
    && resp.totalItems == |c|
    && (resp.totalItems == 0 ==> resp.totalPages == 0)
    && (resp.totalItems > 0 ==>
          (resp.totalPages - 1) * resp.itemsPerPage < resp.totalItems <= resp.totalPages * resp.itemsPerPage)
    && |resp.books| <= resp.itemsPerPage
    && (forall b :: b in resp.books ==> b in c)
    && InFilterOrder(filter, resp.books)
  }

  /** `GetBooks(filter, pageNumber, limit)`, with the skip count as written. The
      count runs first; fetching the page then fails on every page before page
      `limit`, whose offset `pageNumber - limit` is negative. */
  function GetBooksPage(c: Catalog, filter: Filter, pageNumber: int, limit: int): (r: Result<BooksResponse, StoreError>)
    ensures r.Err? <==> pageNumber < Pagination.EffectiveLimit(limit)
    ensures r.Err? ==> r.error == NegativeOffset
    ensures r.Ok? ==> DescribesListing(c, filter, pageNumber, limit, r.value)
    ensures r.Ok? ==> Pagination.SkipTake(Ordered(c, filter), pageNumber - r.value.itemsPerPage, r.value.itemsPerPage)
                      == Ok(r.value.books)
  {
    var perPage := Pagination.EffectiveLimit(limit);
    var ordered := Ordered(c, filter);
    var skip := Pagination.SkipAsWritten(pageNumber, perPage);
    match Pagination.SkipTake(ordered, skip, perPage)
    case Err(e) => Err(e)
    case Ok(page) =>
      WindowOfOrdered(c, filter, skip, perPage);
      Ok(BooksResponse(page, pageNumber, perPage, |ordered|, Pagination.TotalPages(|ordered|, perPage)))
  }

  /** Any window of the ordered catalog is itself ordered and drawn from the catalog. */
  lemma WindowOfOrdered(c: Catalog, filter: Filter, skip: int, take: int)
    requires skip >= 0 && take >= 1
    ensures var w := Pagination.Window(Ordered(c, filter), skip, take);
            InFilterOrder(filter, w) && forall b :: b in w ==> b in c
  {
    var ordered := Ordered(c, filter);
    var w := Pagination.Window(ordered, skip, take);
    forall b | b in w
      ensures b in c
    {
      assert b in ordered;
      assert b in multiset(ordered);
    }
  }

  /** The listing with the intended skip count `(pageNumber - 1) * limit`: every
      page from 1 on is answered, and a page holds exactly the books whose
      position in the ordered catalog lies on it. A page below 1 still has a
      negative offset and fails. */
  function GetBooksPageCorrected(c: Catalog, filter: Filter, pageNumber: int, limit: int): (r: Result<BooksResponse, StoreError>)
    ensures r.Err? <==> pageNumber < 1
    ensures r.Err? ==> r.error == NegativeOffset
    ensures r.Ok? ==> DescribesListing(c, filter, pageNumber, limit, r.value)
    ensures r.Ok? ==> Pagination.SkipTake(Ordered(c, filter), Pagination.SkipCorrected(pageNumber, r.value.itemsPerPage), r.value.itemsPerPage)
                      == Ok(r.value.books)
  {
    var perPage := Pagination.EffectiveLimit(limit);
    var ordered := Ordered(c, filter);
    var skip := Pagination.SkipCorrected(pageNumber, perPage);
    Pagination.SkipAgreesIff(pageNumber, perPage);
    match Pagination.SkipTake(ordered, skip, perPage)
    case Err(e) => Err(e)
    case Ok(page) =>
      WindowOfOrdered(c, filter, skip, perPage);
      Ok(BooksResponse(page, pageNumber, perPage, |ordered|, Pagination.TotalPages(|ordered|, perPage)))
  }

  /** `GetBooks(bookIds)`: looks each id up in turn and keeps the books found;
      unknown ids are skipped. */
  function GetBooksByIds(c: Catalog, ids: seq<int>): (r: seq<Book>)
    ensures |r| <= |ids|
    ensures forall k :: 0 <= k < |r| ==> r[k] in c && r[k].id in ids
    ensures r == [] <==> forall k :: 0 <= k < |ids| ==> Find(c, ids[k]).None?
  {
    if ids == [] then []
    else
      var found := match Find(c, ids[0]) case Some(i) => [c[i]] case None => [];
      var rest := GetBooksByIds(c, ids[1..]);
      assert forall k :: 0 <= k < |ids| - 1 ==> ids[1..][k] == ids[k + 1];
      found + rest
  }

  /** The lookup preserves the order of the ids: looking up a concatenation is
      concatenating the lookups. */
  lemma {:induction false} GetBooksByIdsAppend(c: Catalog, a: seq<int>, b: seq<int>)
    ensures GetBooksByIds(c, a + b) == GetBooksByIds(c, a) + GetBooksByIds(c, b)
  {
    if a == [] {
      assert a + b == b;
    } else {
      assert (a + b)[0] == a[0];
      assert (a + b)[1..] == a[1..] + b;
      GetBooksByIdsAppend(c, a[1..], b);
    }
  }

  /** Exactly the stored books come back: a stored book appears as often as its id
      was requested, and nothing else appears. */
  lemma {:induction false} GetBooksByIdsCount(c: Catalog, ids: seq<int>, b: Book)
    requires UniqueIds(c)
    ensures multiset(GetBooksByIds(c, ids))[b] == (if b in c then multiset(ids)[b.id] else 0)
  {
    if ids != [] {
      assert ids == [ids[0]] + ids[1..];
      GetBooksByIdsCount(c, ids[1..], b);
      if b in c {
        var j :| 0 <= j < |c| && c[j] == b;
        FindUnique(c, j);
      }
    }
  }

  /** `GetBook`: the book with the given id, or `null`. */
  function GetBook(c: Catalog, id: int): (r: Option<Book>)
    ensures r.Some? <==> Find(c, id).Some?
    ensures r.Some? ==> r.value.id == id && r.value in c
  {
    match Find(c, id)
    case Some(i) => Some(c[i])
    case None => None
  }

  /** The outcome of a store write: the returned book (or `null`) and the table after it. */
  datatype BookWrite = BookWrite(result: Option<Book>, catalog: Catalog)

  /** `AddBook`: the stored copy has every copy available. `assignedId` is the
      identity the store gives the row; when it is already taken the save fails,
      the exception is swallowed and `null` comes back. */
  function AddBook(c: Catalog, book: Book, assignedId: int): (r: BookWrite)
    ensures Find(c, assignedId).Some? ==> r.result.None? && r.catalog == c
    ensures Find(c, assignedId).None? ==>
              && r.result.Some?
              && r.result.value.availableQuantity == book.totalQuantity
              && r.result.value == book.(id := assignedId, availableQuantity := book.totalQuantity)
              && r.catalog == c + [r.result.value]
  {
    if Find(c, assignedId).Some? then BookWrite(None, c)
    else
      var stored := book.(id := assignedId, availableQuantity := book.totalQuantity);
      BookWrite(Some(stored), c + [stored])
  }

  /** Adding keeps the table well formed, and keeps stock bounded when the new
      book's total is not negative. */
  lemma AddBookKeepsInvariants(c: Catalog, book: Book, assignedId: int)
    requires UniqueIds(c) && StockBounded(c)
    requires book.totalQuantity >= 0
    ensures UniqueIds(AddBook(c, book, assignedId).catalog)
    ensures StockBounded(AddBook(c, book, assignedId).catalog)
  {
  }

  /** The book after applying an update: blank text keeps the old value, and the
      date is replaced only by one after 2025. Ids, ISBN and quantities are kept. */
  function ApplyUpdate(prev: Book, dto: UpdateBookDto): (b: Book)
    ensures b.id == prev.id && b.isbn == prev.isbn
    ensures b.totalQuantity == prev.totalQuantity && b.availableQuantity == prev.availableQuantity
  {
    var author := if !Text.IsBlankAfterTrim(dto.author) then dto.author.value else prev.author;
    var description := if !Text.IsBlankAfterTrim(dto.description) then dto.description.value else prev.description;
    var title := if !Text.IsBlankAfterTrim(dto.title) then dto.title.value else prev.title;
    var date := if dto.publicationDate.year > 2025 then dto.publicationDate else prev.publicationDate;
    prev.(author := author, description := description, title := title, publicationDate := date)
  }

  /** `EditBook`: an unknown id gives `null` and no change; otherwise the row is
      replaced by its updated version, which is returned. A text field changes
      exactly when the new value is neither null nor white space (the stored value
      is the untrimmed one). */
  function EditBook(c: Catalog, id: int, dto: UpdateBookDto): (r: BookWrite)
    ensures Find(c, id).None? ==> r.result.None? && r.catalog == c
    ensures Find(c, id).Some? ==>
              var i := Find(c, id).value;
              var prev := c[i];
              && r.result.Some?
              && var b := r.result.value;
              && r.catalog == c[i := b]
              && b.id == id && b.isbn == prev.isbn
              && b.totalQuantity == prev.totalQuantity && b.availableQuantity == prev.availableQuantity
              && b.title == (if Text.IsNullOrWhiteSpace(dto.title) then prev.title else dto.title.value)
              && b.author == (if Text.IsNullOrWhiteSpace(dto.author) then prev.author else dto.author.value)
              && b.description == (if Text.IsNullOrWhiteSpace(dto.description) then prev.description else dto.description.value)
              && b.publicationDate == (if dto.publicationDate.year > 2025 then dto.publicationDate else prev.publicationDate)
  {
    match Find(c, id)
    case None => BookWrite(None, c)
    case Some(i) =>
      Text.BlankAfterTrimIffBlank(dto.title);
      Text.BlankAfterTrimIffBlank(dto.author);
      Text.BlankAfterTrimIffBlank(dto.description);
      var edited := ApplyUpdate(c[i], dto);
      BookWrite(Some(edited), c[i := edited])
  }

  /** Editing never touches quantities, so it keeps the table's invariants. */
  lemma EditBookKeepsInvariants(c: Catalog, id: int, dto: UpdateBookDto)
    requires UniqueIds(c) && StockBounded(c)
    ensures UniqueIds(EditBook(c, id, dto).catalog)
    ensures StockBounded(EditBook(c, id, dto).catalog)
  {
  }

  /** Applying the same edit twice is the same as applying it once. */
  lemma EditBookIdempotent(c: Catalog, id: int, dto: UpdateBookDto)
    ensures EditBook(EditBook(c, id, dto).catalog, id, dto) == EditBook(c, id, dto)
  {
    if Find(c, id).Some? {
      var i := Find(c, id).value;
      var edited := ApplyUpdate(c[i], dto);
      var once := c[i := edited];
      assert EditBook(c, id, dto) == BookWrite(Some(edited), once);
      FindAfterReplace(c, i, edited);
      ApplyUpdateIdempotent(c[i], dto);
      assert once[i := edited] == once;
    }
  }

  /** An update applied to its own result changes nothing more. */
  lemma ApplyUpdateIdempotent(b: Book, dto: UpdateBookDto)
    ensures ApplyUpdate(ApplyUpdate(b, dto), dto) == ApplyUpdate(b, dto)
  {
  }

  /** Replacing the row a lookup finds by one with the same id leaves the lookup's answer alone. */
  lemma {:induction false} FindAfterReplace(c: Catalog, i: int, b: Book)
    requires 0 <= i < |c| && Find(c, c[i].id) == Some(i) && b.id == c[i].id
    ensures Find(c[i := b], b.id) == Some(i)
  {
    if i > 0 {
      assert c[i := b][1..] == c[1..][i - 1 := b];
      assert c[1..][i - 1] == c[i];
      FindAfterReplace(c[1..], i - 1, b);
    }
  }

  /** An edit with no text, the default date and any quantity changes nothing. */
  lemma EmptyEditChangesNothing(c: Catalog, id: int, quantity: Option<int>)
    ensures EditBook(c, id, UpdateBookDto(None, None, DefaultDate, None, quantity)).catalog == c
  {
  }

  /** A book with one copy fewer available. */
  function TakeOne(b: Book): Book {
    b.(availableQuantity := b.availableQuantity - 1)
  }

  /** The table after `BorrowBooks`: each row whose id is listed loses one
      available copy, however often its id is listed. */
  function Borrowed(c: Catalog, ids: seq<int>): (r: Catalog)
    ensures |r| == |c|
  {
    seq(|c|, i requires 0 <= i < |c| => if c[i].id in ids then TakeOne(c[i]) else c[i])
  }

  /** `BorrowBooks`: the rows matching the list are fetched and each is decremented
      once. Nothing checks that a copy is available. */
  method BorrowBooks(c: Catalog, ids: seq<int>) returns (r: Catalog)
    ensures |r| == |c|
    ensures forall i :: 0 <= i < |c| && c[i].id in ids ==>
              r[i].availableQuantity == c[i].availableQuantity - 1 && r[i] == c[i].(availableQuantity := r[i].availableQuantity)
    ensures forall i :: 0 <= i < |c| && c[i].id !in ids ==> r[i] == c[i]
    ensures r == Borrowed(c, ids)
  {
    r := c;
    var i := 0;
    while i < |c|
      invariant 0 <= i <= |c| && |r| == |c|
      invariant forall j :: 0 <= j < i ==> r[j] == (if c[j].id in ids then TakeOne(c[j]) else c[j])
      invariant forall j :: i <= j < |c| ==> r[j] == c[j]
    {
      if c[i].id in ids {
        r := r[i := TakeOne(r[i])];
      }
      i := i + 1;
    }
  }

  /** When every listed book has a copy available, borrowing keeps stock bounded. */
  lemma BorrowedKeepsStockBounded(c: Catalog, ids: seq<int>)
    requires StockBounded(c)
    requires forall i :: 0 <= i < |c| && c[i].id in ids ==> c[i].availableQuantity >= 1
    ensures StockBounded(Borrowed(c, ids))
    ensures UniqueIds(c) ==> UniqueIds(Borrowed(c, ids))
  {
  }

  /** Without that guard the count goes negative: borrowing a book with no copy
      left leaves it at -1. */
  lemma BorrowedCanGoNegative()
    ensures var b := Book(1, "T", "I", "A", DefaultDate, "D", 1, 0);
            Borrowed([b], [1])[0].availableQuantity == -1
            && !StockBounded(Borrowed([b], [1]))
  {
    var b := Book(1, "T", "I", "A", DefaultDate, "D", 1, 0);
    assert Borrowed([b], [1])[0] == TakeOne(b);
  }

  datatype DeleteOutcome = DeleteOutcome(result: Result<bool, StoreError>, catalog: Catalog)

  /** `DeleteBook` as written: `FirstAsync` throws when no row matches, so the
      `false` answer its documentation promises is never produced. */
  function DeleteBook(c: Catalog, id: int): (r: DeleteOutcome)
    ensures Find(c, id).None? ==> r.result == Err(NoMatchingElement) && r.catalog == c
    ensures Find(c, id).Some? ==>
              var i := Find(c, id).value;
              r.result == Ok(true) && r.catalog == c[..i] + c[i + 1..]
    ensures r.result != Ok(false)
  {
    match Find(c, id)
    case None => DeleteOutcome(Err(NoMatchingElement), c)
    case Some(i) => DeleteOutcome(Ok(true), c[..i] + c[i + 1..])
  }

  /** `DeleteBook` as documented: `false` when no book has the id, `true` after
      removing it. Afterwards no book has that id and every other book remains. */
  function DeleteBookCorrected(c: Catalog, id: int): (r: DeleteOutcome)
    requires UniqueIds(c)
    ensures r.result == Ok(Find(c, id).Some?)
    ensures Find(r.catalog, id).None?
    ensures forall b :: b in c && b.id != id ==> b in r.catalog
    ensures forall b :: b in r.catalog ==> b in c
    ensures UniqueIds(r.catalog)
  {
    match Find(c, id)
    case None => DeleteOutcome(Ok(false), c)
    case Some(i) =>
      RemoveRow(c, i);
      DeleteOutcome(Ok(true), c[..i] + c[i + 1..])
  }

  /** Removing the row at `i` of a table with unique ids removes exactly its id. */
  lemma RemoveRow(c: Catalog, i: int)
    requires UniqueIds(c) && 0 <= i < |c|
    ensures var rest := c[..i] + c[i + 1..];
            && Find(rest, c[i].id).None?
            && (forall b :: b in c && b.id != c[i].id ==> b in rest)
            && (forall b :: b in rest ==> b in c)
            && UniqueIds(rest)
  {
  }
}
