/**
 * The entities of the library: books, borrow requests and their enumerations,
 * with the catalog (the `Books` table) as a sequence of rows.
 */
module Models {
  import opened Wrappers

  /** `DateOnly`, by its calendar fields. `DateOnly`'s default value is 0001-01-01. */
  datatype Date = Date(year: int, month: int, day: int)

  const DefaultDate := Date(1, 1, 1)

  /** Chronological order: by year, then month, then day. */
  predicate DateLe(a: Date, b: Date) {
    a.year < b.year
    || (a.year == b.year && (a.month < b.month || (a.month == b.month && a.day <= b.day)))
  }

  datatype Book = Book(
    id: int,
    title: string,
    isbn: string,
    author: string,
    publicationDate: Date,
    description: string,
    totalQuantity: int,
    availableQuantity: int)

  /** The partial update accepted by `EditBook`. The date is not nullable, so an
      omitted date arrives as `DateOnly`'s default. `Quantity` is accepted and ignored. */
  datatype UpdateBookDto = UpdateBookDto(
    title: Option<string>,
    author: Option<string>,
    publicationDate: Date,
    description: Option<string>,
    quantity: Option<int>)

  /** The `Books` table: its rows, in storage order. */
  type Catalog = seq<Book>

  /** The primary-key constraint: no two rows share an id. */
  predicate UniqueIds(c: Catalog) {
    forall i, j :: 0 <= i < j < |c| ==> c[i].id != c[j].id
  }

  /** The stock invariant the library intends: `0 <= available <= total`. */
  ghost predicate StockBounded(c: Catalog) {
    forall i :: 0 <= i < |c| ==> 0 <= c[i].availableQuantity <= c[i].totalQuantity
  }

  /** The position of the first row with id `id`, if any: a lookup by primary key. */
  function Find(c: Catalog, id: int): (r: Option<nat>)
    ensures r.Some? ==> r.value < |c| && c[r.value].id == id
    ensures r.Some? ==> forall j :: 0 <= j < r.value ==> c[j].id != id
    ensures r.None? ==> forall j :: 0 <= j < |c| ==> c[j].id != id
  {
    if c == [] then None
    else if c[0].id == id then Some(0)
    else
      match Find(c[1..], id)
      case None => None
      case Some(k) => Some(k + 1)
  }

  /** Under the primary-key constraint a row is found exactly at its own position. */
  lemma FindUnique(c: Catalog, i: int)
    requires UniqueIds(c) && 0 <= i < |c|
    ensures Find(c, c[i].id) == Some(i)
  {
  }

  /** How a query fails: one that demands a match (`First`, `FirstAsync`) when no
      row matches, or a paged query whose offset is negative, which PostgreSQL
      refuses ("OFFSET must not be negative"). */
  datatype StoreError = NoMatchingElement | NegativeOffset

  /** `RequestStatus`; `Pending` is its zero value and therefore every new request's status. */
  datatype RequestStatus = Pending | Approved | Rejected | Returned

  const DefaultStatus := Pending

  /** Sort direction. The integer codes are the enum's underlying values. */
  datatype Order = Descending | Ascending {
    function Code(): int {
      match this
      case Descending => 0
      case Ascending => 1
    }
  }

  /** `BorrowRequest`. The reader and librarian ids are text columns, as the
      migrations define them. `books` is the request's snapshot of requested books. */
  datatype BorrowRequest = BorrowRequest(
    id: int,
    status: RequestStatus,
    penaltyIncurred: real,
    startDate: Date,
    endDate: Date,
    pickUpDate: Date,
    returnDate: Date,
    duration: int,
    readerId: string,
    librarianId: Option<string>,
    books: seq<Book>)

  /** `new BorrowRequest() { Duration = duration, ReaderId = readerId }`: every other
      property keeps its default. The id stays 0 until the store assigns one. */
  function NewBorrowRequest(duration: int, readerId: string): (r: BorrowRequest)
    ensures r.status == Pending && r.librarianId == None && r.books == []
    ensures r.duration == duration && r.readerId == readerId
  {
    BorrowRequest(0, DefaultStatus, 0.0, DefaultDate, DefaultDate, DefaultDate, DefaultDate,
                  duration, readerId, None, [])
  }
}
