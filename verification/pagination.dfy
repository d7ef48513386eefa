/**
 * The arithmetic of the paginated book listing: page-size coercion, the
 * page count, and the skip/take window.
 */
module Pagination {
  import opened Wrappers
  import opened Models

  /** `limit <= 0 ? 1 : limit`. */
  function EffectiveLimit(limit: int): (r: int)
    ensures r >= 1
    ensures limit >= 1 ==> r == limit
    ensures limit <= 0 ==> r == 1
  {
    if limit <= 0 then 1 else limit
  }

  /** `(int)Math.Ceiling((decimal)totalItems / limit)`: the ceiling, written as the
      negated floor of the negated exact quotient. */
  function TotalPages(totalItems: nat, limit: int): (r: int)
    requires limit >= 1
    ensures r >= 0
    ensures totalItems == 0 ==> r == 0
    ensures totalItems > 0 ==> (r - 1) * limit < totalItems <= r * limit
  {
    var q := totalItems as real / limit as real;
    var f := (-q).Floor;
    CeilingBounds(totalItems, limit, f);
    -f
  }

  lemma CeilingBounds(n: nat, limit: int, f: int)
    requires limit >= 1
    requires f == (-(n as real / limit as real)).Floor
    ensures -f >= 0
    ensures n == 0 ==> f == 0
    ensures n > 0 ==> (-f - 1) * limit < n <= -f * limit
  {
    var q := n as real / limit as real;
    var L := limit as real;
    assert q * L == n as real;
    assert f as real <= -q < f as real + 1.0;
    assert (-f) as real * L >= q * L;
    assert (-f - 1) as real * L < q * L;
  }

  /** The skip count as written, `pageNumber - 1 * limit`: multiplication binds
      tighter, so this is `pageNumber - limit`. */
  function SkipAsWritten(pageNumber: int, limit: int): int {
    pageNumber - 1 * limit
  }

  /** The skip count of a 1-based page: the items of all earlier pages. */
  function SkipCorrected(pageNumber: int, limit: int): int {
    (pageNumber - 1) * limit
  }

  /** `OFFSET skip LIMIT take` with a non-negative offset: the items from `skip`
      on (none when `skip` is past the end), at most `take` of them. */
  function Window<T>(s: seq<T>, skip: int, take: int): (r: seq<T>)
    requires skip >= 0 && take >= 1
    ensures |r| <= take && |r| <= |s|
    ensures var from := if skip >= |s| then |s| else skip;
            |r| == (if |s| - from < take then |s| - from else take)
            && forall k :: 0 <= k < |r| ==> r[k] == s[from + k]
  {
    var from := if skip >= |s| then |s| else skip;
    var to := if |s| - from < take then |s| else from + take;
    s[from..to]
  }

  /** `Skip(skip).Take(take)` on a query the PostgreSQL provider translates to
      `OFFSET`/`LIMIT`: a negative offset is refused when the query runs, and any
      other offset gives the window. */
  function SkipTake<T>(s: seq<T>, skip: int, take: int): (r: Result<seq<T>, StoreError>)
    requires take >= 1
    ensures r.Err? <==> skip < 0
    ensures r.Err? ==> r.error == NegativeOffset
    ensures r.Ok? ==> r.value == Window(s, skip, take)
  {
    if skip < 0 then Err(NegativeOffset) else Ok(Window(s, skip, take))
  }

  /** Whether index `i` of the ordered listing lies on the 1-based page `p`. */
  predicate OnPage(i: int, p: int, limit: int) {
    SkipCorrected(p, limit) <= i < SkipCorrected(p, limit) + limit
  }

  /** With the corrected skip count, page `pageNumber` is refused exactly when
      it is below 1; otherwise it holds exactly the items whose position lies on
      that page, in listing order. */
  lemma CorrectedWindowIsPage<T>(s: seq<T>, pageNumber: int, limit: int)
    requires limit >= 1
    ensures var skip := SkipCorrected(pageNumber, limit);
            var r := SkipTake(s, skip, limit);
            && (r.Ok? <==> pageNumber >= 1)
            && (r.Ok? ==>
                  && (forall k :: 0 <= k < |r.value| ==>
                        skip + k < |s| && OnPage(skip + k, pageNumber, limit) && r.value[k] == s[skip + k])
                  && (forall i :: 0 <= i < |s| && OnPage(i, pageNumber, limit) ==>
                        0 <= i - skip < |r.value| && r.value[i - skip] == s[i]))
  {
    var skip := SkipCorrected(pageNumber, limit);
    if pageNumber >= 1 {
      MulMonotone(0, pageNumber - 1, limit);
      WindowFrom(s, skip, limit);
      assert forall i :: OnPage(i, pageNumber, limit) <==> skip <= i < skip + limit;
    } else {
      MulMonotone(pageNumber - 1, -1, limit);
    }
  }

  /** A window starting at a non-negative offset holds exactly the items from that
      offset up to `take` further, as far as the sequence goes. */
  lemma WindowFrom<T>(s: seq<T>, skip: int, take: int)
    requires skip >= 0 && take >= 1
    ensures var w := Window(s, skip, take);
            && (forall k :: 0 <= k < |w| ==> skip + k < |s| && k < take && w[k] == s[skip + k])
            && (forall i :: 0 <= i < |s| && skip <= i < skip + take ==>
                  0 <= i - skip < |w| && w[i - skip] == s[i])
  {
  }

  /** With the corrected skip count the pages partition the listing: each of the
      `totalItems` items is on exactly one page, and that page is within
      `1..TotalPages`. */
  lemma CorrectedPagesPartition(totalItems: nat, limit: int, i: int)
    requires limit >= 1
    requires 0 <= i < totalItems
    ensures var p := i / limit + 1;
            1 <= p <= TotalPages(totalItems, limit)
            && OnPage(i, p, limit)
            && forall q :: OnPage(i, q, limit) ==> q == p
  {
    var p := i / limit + 1;
    var t := TotalPages(totalItems, limit);
    assert (p - 1) * limit == (i / limit) * limit;
    assert (i / limit) * limit <= i < (i / limit) * limit + limit;
    MulCancel(p - 1, t, limit);
    forall q | OnPage(i, q, limit)
      ensures q == p
    {
      assert (q - 1) * limit + limit == q * limit;
      assert (p - 1) * limit + limit == p * limit;
      MulCancel(q - 1, p, limit);
      MulCancel(p - 1, q, limit);
    }
  }

  /** Cancelling a positive factor from a strict inequality. */
  lemma MulCancel(a: int, b: int, k: int)
    requires k >= 1 && a * k < b * k
    ensures a < b
  {
    assert (b - a) * k == b * k - a * k;
  }

  lemma MulMonotone(a: int, b: int, k: int)
    requires a <= b && k >= 0
    ensures a * k <= b * k
  {
    assert b * k - a * k == (b - a) * k;
  }

  /** Where the two skip counts are negative, and so refused, and where they
      coincide: the written one is negative on every page before page `limit`,
      the intended one only before page 1, and they are equal exactly on page 0
      or with one item per page. */
  lemma SkipAgreesIff(pageNumber: int, limit: int)
    requires limit >= 1
    ensures SkipAsWritten(pageNumber, limit) < 0 <==> pageNumber < limit
    ensures SkipCorrected(pageNumber, limit) < 0 <==> pageNumber < 1
    ensures SkipAsWritten(pageNumber, limit) == SkipCorrected(pageNumber, limit)
            <==> (pageNumber == 0 || limit == 1)
  {
    var w := SkipAsWritten(pageNumber, limit);
    var c := SkipCorrected(pageNumber, limit);
    assert c - w == pageNumber * (limit - 1);
    if pageNumber >= 1 {
      MulMonotone(0, pageNumber - 1, limit);
      MulMonotone(1, pageNumber, limit - 1);
    } else {
      MulMonotone(pageNumber - 1, -1, limit);
      if pageNumber < 0 {
        MulMonotone(pageNumber, -1, limit - 1);
      }
    }
  }

  /** As written, on PostgreSQL: every page before page `limit` is refused with a
      negative offset, page `limit` shows the first page, and a later page `p`
      starts at item `p - limit` instead of `(p - 1) * limit`. */
  lemma AsWrittenPages<T>(s: seq<T>, pageNumber: int, limit: int)
    requires limit >= 1
    ensures var r := SkipTake(s, SkipAsWritten(pageNumber, limit), limit);
            && (pageNumber < limit ==> r == Err(NegativeOffset))
            && (pageNumber == limit ==> r == SkipTake(s, SkipCorrected(1, limit), limit))
            && (pageNumber > limit ==> r.Ok? && forall k :: 0 <= k < |r.value| ==> r.value[k] == s[pageNumber - limit + k])
  {
  }

  /** A concrete instance: with twenty items and ten per page, page 2 as written is
      refused, page 10 shows items 0..9 and page 11 items 1..10, while the
      corrected page 2 holds items 10..19. */
  lemma AsWrittenExample()
    ensures var s := seq(20, i => i);
            && SkipTake(s, SkipAsWritten(2, 10), 10) == Err(NegativeOffset)
            && SkipTake(s, SkipAsWritten(10, 10), 10) == Ok(seq(10, i => i))
            && SkipTake(s, SkipAsWritten(11, 10), 10) == Ok(seq(10, i => i + 1))
            && SkipTake(s, SkipCorrected(2, 10), 10) == Ok(seq(10, i => i + 10))
  {
    var s := seq(20, i => i);
    assert SkipAsWritten(10, 10) == 0 && SkipAsWritten(11, 10) == 1 && SkipCorrected(2, 10) == 10;
    assert Window(s, 0, 10) == seq(10, i => i);
    assert Window(s, 1, 10) == seq(10, i => i + 1);
    assert Window(s, 10, 10) == seq(10, i => i + 10);
  }
}
