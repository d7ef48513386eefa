/**
 * The request controller's own logic: validating and building a new borrow
 * request, dispatching a librarian's action, and the listing's default query.
 */
module RequestController {
  import opened Wrappers
  import opened Models
  import BookService
  import RequestService

  /** The library's persistent state: the two tables. */
  datatype Library = Library(books: Catalog, requests: RequestService.RequestTable)

  /** `NewRequestDto`: the ids of the books asked for and the loan length in days. */
  datatype NewRequestDto = NewRequestDto(books: seq<int>, duration: int)

  /** Why a creation is refused, with the detail text the response carries. */
  datatype CreateError = NoBooksRequested | NoRequestedBookAvailable {
    function Detail(): string {
      match this
      case NoBooksRequested => "No books were requested."
      case NoRequestedBookAvailable => "No requested book is available"
    }
  }

  datatype CreateResult = CreateResult(outcome: Result<BorrowRequest, CreateError>, state: Library)

  /** Some requested id names a stored book. */
  predicate SomeIdResolves(c: Catalog, ids: seq<int>) {
    exists k :: 0 <= k < |ids| && Find(c, ids[k]).Some?
  }

  /** `Create`: an empty id list is refused first; then a list of which no id names
      a book. Otherwise the new request is Pending, carries the caller's reader id
      and duration, holds exactly the books found, and is handed to `CreateRequest`.
      The catalog is never touched, and no existing request is consulted. */
  function Create(s: Library, readerId: string, dto: NewRequestDto, save: RequestService.SaveResult): (r: CreateResult)
    ensures r.state.books == s.books
    ensures |dto.books| == 0 ==> r.outcome == Err(NoBooksRequested) && r.state == s
    ensures |dto.books| > 0 && !SomeIdResolves(s.books, dto.books) ==>
              r.outcome == Err(NoRequestedBookAvailable) && r.state == s
    ensures r.outcome.Ok? <==> |dto.books| > 0 && SomeIdResolves(s.books, dto.books)
    ensures r.outcome.Ok? ==>
              var q := r.outcome.value;
              && q.status == Pending
              && q.readerId == readerId
              && q.duration == dto.duration
              && q.librarianId == None
              && q.penaltyIncurred == 0.0
              && q.books == BookService.GetBooksByIds(s.books, dto.books)
              && 1 <= |q.books| <= |dto.books|
              && r.state.requests == (if save.Saved? then s.requests + [q] else s.requests)
  {
    var draft := NewBorrowRequest(dto.duration, readerId);
    var requested := BookService.GetBooksByIds(s.books, dto.books);
    if |dto.books| == 0 then
      CreateResult(Err(NoBooksRequested), s)
    else if |requested| <= 0 then
      CreateResult(Err(NoRequestedBookAvailable), s)
    else
      var written := RequestService.CreateRequest(s.requests, draft.(books := requested), save);
      CreateResult(Ok(written.request), s.(requests := written.table))
  }

  /** Creation ignores the request table: a reader who already has a pending request
      gets the same outcome as one who has none. */
  lemma CreateIgnoresExistingRequests(s: Library, other: RequestService.RequestTable, readerId: string,
                                      dto: NewRequestDto, save: RequestService.SaveResult)
    ensures Create(s, readerId, dto, save).outcome.Ok?
            == Create(s.(requests := other), readerId, dto, save).outcome.Ok?
  {
  }

  /** What `ActOnRequest` does with the `action` query value. */
  datatype Dispatch = CallApprove | CallReject | BadRequest(detail: string)

  /** `ActOnRequest`: any action other than `approve` or `reject` is refused before
      anything else happens; `approve` goes to the approval service, `reject` to the
      rejection service. */
  function ActOnRequest(action: string): (r: Dispatch)
    ensures r.BadRequest? <==> action != "approve" && action != "reject"
    ensures r.BadRequest? ==> r.detail == "Invalid action value"
    ensures r == CallApprove <==> action == "approve"
    ensures r == CallReject <==> action == "reject"
  {
    var accepted := action == "approve" || action == "reject";
    if !accepted then BadRequest("Invalid action value")
    else if action == "approve" then CallApprove
    else if action == "reject" then CallReject
    else BadRequest("Invalid action value")
  }

  /** The query the listing endpoint passes on. */
  datatype RequestQuery = RequestQuery(size: int, page: int, order: Order, status: RequestStatus)

  /** `RetrieveRequests`' parameters: what the caller gives is kept, and what it
      omits defaults to ten per page, the first page, newest first, pending only. */
  function RetrieveRequests(size: Option<int>, page: Option<int>, order: Option<Order>,
                            status: Option<RequestStatus>): (q: RequestQuery)
    ensures size.Some? ==> q.size == size.value
    ensures page.Some? ==> q.page == page.value
    ensures order.Some? ==> q.order == order.value
    ensures status.Some? ==> q.status == status.value
    ensures size.None? ==> q.size == 10
    ensures page.None? ==> q.page == 1
    ensures order.None? ==> q.order == Descending && q.order.Code() == 0
    ensures status.None? ==> q.status == Pending
  {
    RequestQuery(
      match size case Some(n) => n case None => 10,
      match page case Some(p) => p case None => 1,
      match order case Some(o) => o case None => Descending,
      match status case Some(st) => st case None => Pending)
  }

  /** Omitting a parameter is the same as passing its default, and passing every
      field of a query back in reproduces it. */
  lemma RetrieveRequestsDefaults(size: Option<int>, page: Option<int>, order: Option<Order>,
                                 status: Option<RequestStatus>, q: RequestQuery)
    ensures RetrieveRequests(size, page, order, status)
            == RetrieveRequests(Some(if size.Some? then size.value else 10),
                                Some(if page.Some? then page.value else 1),
                                Some(if order.Some? then order.value else Descending),
                                Some(if status.Some? then status.value else Pending))
    ensures RetrieveRequests(Some(q.size), Some(q.page), Some(q.order), Some(q.status)) == q
  {
  }
}
