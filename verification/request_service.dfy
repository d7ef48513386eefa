/**
 * The borrow-request store: listing, appending, and the "reader has a pending
 * request" query.
 */
module RequestService {
  import opened Wrappers
  import opened Models
  import Sorting

  /** The `Requests` table: its rows, in storage order. */
  type RequestTable = seq<BorrowRequest>

  /** The primary-key constraint on requests. */
  predicate UniqueRequestIds(t: RequestTable) {
    forall i, j :: 0 <= i < j < |t| ==> t[i].id != t[j].id
  }

  /** `a` may come before `b` in `OrderBy(r => r.Id)`. */
  predicate RequestIdLe(a: BorrowRequest, b: BorrowRequest) {
    a.id <= b.id
  }

  /** The rows as a query without `Include(r => r.Books)` materialises them: the
      books navigation is left unloaded, so each request comes back without books. */
  function Unloaded(t: RequestTable): (u: seq<BorrowRequest>)
    ensures |u| == |t|
    ensures forall i :: 0 <= i < |t| ==> u[i] == t[i].(books := [])
  {
    seq(|t|, i requires 0 <= i < |t| => t[i].(books := []))
  }

  /** `GetBorrowRequestsAsync`: every stored request, by ascending id, without its
      books. */
  function GetBorrowRequests(t: RequestTable): (r: seq<BorrowRequest>)
    ensures multiset(r) == multiset(Unloaded(t))
    ensures forall k :: 0 <= k < |r| ==> r[k].books == []
    ensures Sorting.SortedBy(RequestIdLe, r)
    ensures UniqueRequestIds(t) ==> forall i, j :: 0 <= i < j < |r| ==> r[i].id < r[j].id
  {
    var u := Unloaded(t);
    var r := Sorting.Sort(RequestIdLe, u);
    assert forall k :: 0 <= k < |r| ==> r[k].books == [] by {
      forall k | 0 <= k < |r|
        ensures r[k].books == []
      {
        assert r[k] in multiset(u);
      }
    }
    if UniqueRequestIds(t) then
      Sorting.SortedDistinctKeysStrict((q: BorrowRequest) => q.id, RequestIdLe, u, r);
      r
    else r
  }

  /** How the store's `SaveChangesAsync` ends: with the identity it gave the new
      row, or with an exception. */
  datatype SaveResult = Saved(assignedId: int) | SaveFailed

  datatype RequestWrite = RequestWrite(request: BorrowRequest, table: RequestTable)

  /** `CreateRequest`: appends the request when the save succeeds. Either way the
      caller gets its own request back; a failed save is swallowed, leaving the
      table as it was and the request without a store-assigned id. */
  function CreateRequest(t: RequestTable, request: BorrowRequest, save: SaveResult): (r: RequestWrite)
    ensures r.request == request.(id := r.request.id)
    ensures save.Saved? ==> r.request.id == save.assignedId && r.table == t + [r.request]
    ensures save.SaveFailed? ==> r.request == request && r.table == t
  {
    match save
    case Saved(id) =>
      var stored := request.(id := id);
      RequestWrite(stored, t + [stored])
    case SaveFailed => RequestWrite(request, t)
  }

  /** `r` is a pending request of reader `userId`. */
  predicate IsPendingOf(r: BorrowRequest, userId: string) {
    r.readerId == userId && r.status == Pending
  }

  /** Some stored request is a pending request of `userId`. */
  predicate HasPending(t: RequestTable, userId: string) {
    exists i :: 0 <= i < |t| && IsPendingOf(t[i], userId)
  }

  /** The position of the first pending request of `userId`, as `FirstAsync` finds it. */
  function FirstPending(t: RequestTable, userId: string): (r: Option<nat>)
    ensures r.Some? ==> r.value < |t| && IsPendingOf(t[r.value], userId)
    ensures r.Some? ==> forall j :: 0 <= j < r.value ==> !IsPendingOf(t[j], userId)
    ensures r.None? ==> forall j :: 0 <= j < |t| ==> !IsPendingOf(t[j], userId)
  {
    if t == [] then None
    else if IsPendingOf(t[0], userId) then Some(0)
    else
      match FirstPending(t[1..], userId)
      case None => None
      case Some(k) => Some(k + 1)
  }

  /** `CheckPendingRequest` as written: `FirstAsync` throws when nothing matches, so
      the answer is `true` or an error, never `false`. It only reads the table. */
  function CheckPendingRequest(t: RequestTable, userId: string): (r: Result<bool, StoreError>)
    ensures r == Ok(true) <==> HasPending(t, userId)
    ensures r == Err(NoMatchingElement) <==> !HasPending(t, userId)
    ensures r != Ok(false)
  {
    match FirstPending(t, userId)
    case Some(_) => Ok(true)
    case None => Err(NoMatchingElement)
  }

  /** `CheckPendingRequest` as its `bool` result intends: whether the reader has a
      pending request, `false` included. */
  function CheckPendingRequestCorrected(t: RequestTable, userId: string): (r: bool)
    ensures r <==> HasPending(t, userId)
  {
    FirstPending(t, userId).Some?
  }

  /** Appending a request does not change whether any other reader has a pending
      request, and a saved pending request makes its reader's check succeed. */
  lemma CreateRequestAndPending(t: RequestTable, request: BorrowRequest, save: SaveResult, userId: string)
    ensures var w := CreateRequest(t, request, save);
            && (userId != request.readerId ==>
                  CheckPendingRequest(w.table, userId) == CheckPendingRequest(t, userId))
            && (save.Saved? && request.status == Pending ==>
                  CheckPendingRequest(w.table, request.readerId) == Ok(true))
  {
    var w := CreateRequest(t, request, save);
    if save.Saved? {
      assert w.table[|t|] == w.request;
      assert forall i :: 0 <= i < |t| ==> w.table[i] == t[i];
      if request.status == Pending {
        assert IsPendingOf(w.table[|t|], request.readerId);
      }
    }
  }
}
