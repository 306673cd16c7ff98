/** Consequences of the traversal relation of the pagination loop: it
    determines the outcome completely, the requests chain the cursors and
    carry the lower bound, and the accumulator only grows. */
module Traversal {
  import opened Wrappers
  import opened Decimal
  import opened Entities
  import opened Dedup
  import opened Pagination

  lemma {:induction false} ExchangedTruncate(fetch: Fetcher, mode: LowerBoundMode, lowerBound: Long, pages: seq<Page>, m: nat)
    requires Exchanged(fetch, mode, lowerBound, pages) && m <= |pages|
    ensures Exchanged(fetch, mode, lowerBound, pages[..m])
    decreases |pages|
  {
    if m < |pages| {
      var before := pages[..|pages| - 1];
      assert before[..m] == pages[..m];
      ExchangedTruncate(fetch, mode, lowerBound, before, m);
    } else {
      assert pages[..m] == pages;
    }
  }

  /** The server's answers fix the pages: of two exchanges with the same
      fetcher, the shorter is a prefix of the longer. */
  lemma {:induction false} ExchangedPrefix(fetch: Fetcher, mode: LowerBoundMode, lowerBound: Long, a: seq<Page>, b: seq<Page>)
    requires Exchanged(fetch, mode, lowerBound, a) && Exchanged(fetch, mode, lowerBound, b)
    requires |a| <= |b|
    ensures a == b[..|a|]
    decreases |a|
  {
    if |a| > 0 {
      var n := |a| - 1;
      ExchangedPrefix(fetch, mode, lowerBound, a[..n], b);
      AnsweredAt(fetch, mode, lowerBound, b, n);
      assert a[n] == b[n];
      PrefixExtend(a, b, n);
    }
  }

  lemma PrefixExtend(a: seq<Page>, b: seq<Page>, n: nat)
    requires |a| == n + 1 <= |b| && a[..n] == b[..n] && a[n] == b[n]
    ensures a == b[..|a|]
  {
    assert forall i :: 0 <= i < n ==> a[i] == a[..n][i];
  }

  /** After the exchange `b`, the request that follows the prefix `b[..m]`
      was answered with page `b[m]`. */
  lemma AnsweredAt(fetch: Fetcher, mode: LowerBoundMode, lowerBound: Long, b: seq<Page>, m: nat)
    requires Exchanged(fetch, mode, lowerBound, b) && m < |b|
    ensures fetch(NextRequest(mode, lowerBound, b[..m])) == Success(b[m])
  {
    ExchangedTruncate(fetch, mode, lowerBound, b, m + 1);
    var c := b[..m + 1];
    assert c[..m] == b[..m] && c[m] == b[m];
    assert c[..|c| - 1] == b[..m];
  }

  /** Traversals with the same fetcher receive the same pages. */
  lemma TraversalPagesDeterministic(fetch: Fetcher, mode: LowerBoundMode, lowerBound: Long, maxPages: Int32,
                                    r1: seq<ArrayOptions>, p1: seq<Page>, o1: Result<seq<Notification>, FetchError>, i1: int,
                                    r2: seq<ArrayOptions>, p2: seq<Page>, o2: Result<seq<Notification>, FetchError>, i2: int)
    requires IsTraversal(fetch, mode, lowerBound, maxPages, r1, p1, o1, i1)
    requires IsTraversal(fetch, mode, lowerBound, maxPages, r2, p2, o2, i2)
    requires |p1| <= |p2|
    ensures p1 == p2
  {
    ExchangedPrefix(fetch, mode, lowerBound, p1, p2);
    if |p1| < |p2| {
      AnsweredAt(fetch, mode, lowerBound, p2, |p1|);
    } else {
      assert p2[..|p1|] == p2;
    }
  }

  /** The traversal relation is a function of its inputs: the loop's
      outcome, its final counter, its requests and its pages are fixed by
      the fetcher, the mode, the lower bound and `maxPages`. */
  lemma TraversalDeterministic(fetch: Fetcher, mode: LowerBoundMode, lowerBound: Long, maxPages: Int32,
                               r1: seq<ArrayOptions>, p1: seq<Page>, o1: Result<seq<Notification>, FetchError>, i1: int,
                               r2: seq<ArrayOptions>, p2: seq<Page>, o2: Result<seq<Notification>, FetchError>, i2: int)
    requires IsTraversal(fetch, mode, lowerBound, maxPages, r1, p1, o1, i1)
    requires IsTraversal(fetch, mode, lowerBound, maxPages, r2, p2, o2, i2)
    ensures r1 == r2 && p1 == p2 && o1 == o2 && i1 == i2
  {
    if |p1| <= |p2| {
      TraversalPagesDeterministic(fetch, mode, lowerBound, maxPages, r1, p1, o1, i1, r2, p2, o2, i2);
    } else {
      TraversalPagesDeterministic(fetch, mode, lowerBound, maxPages, r2, p2, o2, i2, r1, p1, o1, i1);
    }
  }

  /** Against a server that always answers with a page that has a cursor,
      the loop returns normally after exactly `maxPages` passes (one pass
      when `maxPages` is below one). */
  lemma NeverExhausted(fetch: Fetcher, mode: LowerBoundMode, lowerBound: Long, maxPages: Int32,
                       requests: seq<ArrayOptions>, pages: seq<Page>, outcome: Result<seq<Notification>, FetchError>, iterations: int)
    requires forall o :: fetch(o).Success? && fetch(o).value.nextPageMaxId.Some?
    requires IsTraversal(fetch, mode, lowerBound, maxPages, requests, pages, outcome, iterations)
    ensures outcome.Success? && iterations == Max(1, maxPages)
  {
    var last := NextRequest(mode, lowerBound, pages);
    assert fetch(last).Success?;
    if outcome.Success? {
      var final := NextRequest(mode, lowerBound, pages[..|pages| - 1]);
      assert fetch(final).Success?;
    }
  }

  lemma {:induction false} RequestsAt(mode: LowerBoundMode, lowerBound: Long, pages: seq<Page>, k: nat)
    requires k < |pages|
    ensures Requests(mode, lowerBound, pages)[k] == NextRequest(mode, lowerBound, pages[..k])
    decreases |pages|
  {
    var before := pages[..|pages| - 1];
    var earlier := Requests(mode, lowerBound, before);
    assert Requests(mode, lowerBound, pages) == earlier + [NextRequest(mode, lowerBound, before)];
    if k < |before| {
      RequestsAt(mode, lowerBound, before, k);
      assert before[..k] == pages[..k];
      assert (earlier + [NextRequest(mode, lowerBound, before)])[k] == earlier[k];
    } else {
      assert pages[..k] == before;
    }
  }

  /** Request `k` is the one built from the first `k` pages. */
  lemma {:induction false} TraversalRequestAt(fetch: Fetcher, mode: LowerBoundMode, lowerBound: Long, maxPages: Int32,
                                              requests: seq<ArrayOptions>, pages: seq<Page>,
                                              outcome: Result<seq<Notification>, FetchError>, iterations: int, k: nat)
    requires IsTraversal(fetch, mode, lowerBound, maxPages, requests, pages, outcome, iterations)
    requires k < |requests|
    ensures k <= |pages| && requests[k] == NextRequest(mode, lowerBound, pages[..k])
  {
    if k < |pages| {
      RequestsAt(mode, lowerBound, pages, k);
    } else {
      assert pages[..k] == pages;
    }
  }

  lemma NextRequestCarries(mode: LowerBoundMode, lowerBound: Long, received: seq<Page>)
    ensures CarriesLowerBound(NextRequest(mode, lowerBound, received), mode, lowerBound)
    ensures CarriesMaxId(NextRequest(mode, lowerBound, received), Cursor(received))
  {
    RequestOptionsDecode(mode, lowerBound, Cursor(received));
  }

  /** Request `k` carries the lower bound. */
  lemma RequestCarriesLowerBound(fetch: Fetcher, mode: LowerBoundMode, lowerBound: Long, maxPages: Int32,
                                 requests: seq<ArrayOptions>, pages: seq<Page>,
                                 outcome: Result<seq<Notification>, FetchError>, iterations: int, k: nat)
    requires IsTraversal(fetch, mode, lowerBound, maxPages, requests, pages, outcome, iterations)
    requires k < |requests|
    ensures CarriesLowerBound(requests[k], mode, lowerBound)
  {
    TraversalRequestAt(fetch, mode, lowerBound, maxPages, requests, pages, outcome, iterations, k);
    NextRequestCarries(mode, lowerBound, pages[..k]);
  }

  /** Request `k` carries the cursor of the first `k` pages. */
  lemma RequestCarriesCursor(fetch: Fetcher, mode: LowerBoundMode, lowerBound: Long, maxPages: Int32,
                             requests: seq<ArrayOptions>, pages: seq<Page>,
                             outcome: Result<seq<Notification>, FetchError>, iterations: int, k: nat)
    requires IsTraversal(fetch, mode, lowerBound, maxPages, requests, pages, outcome, iterations)
    requires k < |requests|
    ensures k <= |pages| && CarriesMaxId(requests[k], Cursor(pages[..k]))
  {
    TraversalRequestAt(fetch, mode, lowerBound, maxPages, requests, pages, outcome, iterations, k);
    NextRequestCarries(mode, lowerBound, pages[..k]);
  }

  /** A request after the first follows a page that had a cursor, and
      carries that cursor. */
  lemma RequestFollowsCursor(fetch: Fetcher, mode: LowerBoundMode, lowerBound: Long, maxPages: Int32,
                             requests: seq<ArrayOptions>, pages: seq<Page>,
                             outcome: Result<seq<Notification>, FetchError>, iterations: int, k: nat)
    requires IsTraversal(fetch, mode, lowerBound, maxPages, requests, pages, outcome, iterations)
    requires 0 < k < |requests|
    ensures k <= |pages| && pages[k - 1].nextPageMaxId.Some? && CarriesMaxId(requests[k], pages[k - 1].nextPageMaxId)
  {
    RequestCarriesCursor(fetch, mode, lowerBound, maxPages, requests, pages, outcome, iterations, k);
    CursorOfPrefix(pages, k);
  }

  lemma CursorOfPrefix(pages: seq<Page>, k: nat)
    requires 0 < k <= |pages|
    ensures Cursor(pages[..k]) == pages[k - 1].nextPageMaxId
  {
    assert pages[..k][k - 1] == pages[k - 1];
  }

  /** The requests of a traversal: at least one is sent; every one carries
      the lower bound in the field the mode selects; the first has no
      `MaxId`; and each later one follows a page that had a cursor and
      carries that cursor as its `MaxId`. */
  lemma TraversalRequests(fetch: Fetcher, mode: LowerBoundMode, lowerBound: Long, maxPages: Int32,
                          requests: seq<ArrayOptions>, pages: seq<Page>,
                          outcome: Result<seq<Notification>, FetchError>, iterations: int)
    requires IsTraversal(fetch, mode, lowerBound, maxPages, requests, pages, outcome, iterations)
    ensures |requests| >= 1 && requests[0].maxId.None?
    ensures forall k :: 0 <= k < |requests| ==> CarriesLowerBound(requests[k], mode, lowerBound)
    ensures forall k :: 0 < k < |requests| ==>
              k <= |pages| && pages[k - 1].nextPageMaxId.Some? && CarriesMaxId(requests[k], pages[k - 1].nextPageMaxId)
  {
    forall k | 0 <= k < |requests|
      ensures CarriesLowerBound(requests[k], mode, lowerBound)
    {
      RequestCarriesLowerBound(fetch, mode, lowerBound, maxPages, requests, pages, outcome, iterations, k);
    }
    forall k | 0 < k < |requests|
      ensures k <= |pages| && pages[k - 1].nextPageMaxId.Some? && CarriesMaxId(requests[k], pages[k - 1].nextPageMaxId)
    {
      RequestFollowsCursor(fetch, mode, lowerBound, maxPages, requests, pages, outcome, iterations, k);
    }
    RequestCarriesCursor(fetch, mode, lowerBound, maxPages, requests, pages, outcome, iterations, 0);
  }

  /** The list only grows by appending: the list after `j` pages is a
      prefix of the list after `k >= j` pages. */
  lemma {:induction false} AccumulatePrefix(pages: seq<Page>, j: nat, k: nat)
    requires j <= k <= |pages|
    ensures IsPrefix(Accumulate(pages[..j]), Accumulate(pages[..k]))
    decreases k
  {
    if j < k {
      AccumulatePrefix(pages, j, k - 1);
      assert pages[..k][..k - 1] == pages[..k - 1];
      var middle := Accumulate(pages[..k - 1]);
      assert Accumulate(pages[..k]) == AddNew(middle, pages[k - 1].items);
      PrefixTransitive(Accumulate(pages[..j]), middle, Accumulate(pages[..k]));
    }
  }

  lemma PrefixTransitive(a: seq<Notification>, b: seq<Notification>, c: seq<Notification>)
    requires IsPrefix(a, b) && IsPrefix(b, c)
    ensures IsPrefix(a, c)
  {
    assert c[..|b|][..|a|] == c[..|a|];
  }

  /** When no id repeats across the pages, the list is every notification
      of every page, in order. */
  lemma {:induction false} AccumulateDistinct(pages: seq<Page>)
    requires UniqueIds(Flatten(pages))
    ensures Accumulate(pages) == Flatten(pages)
  {
    if |pages| > 0 {
      var before := pages[..|pages| - 1];
      UniqueIdsPrefix(Flatten(pages), |Flatten(before)|);
      assert Flatten(pages)[..|Flatten(before)|] == Flatten(before);
      AccumulateDistinct(before);
      AddNewDistinct(Flatten(before), pages[|pages| - 1].items);
    }
  }

  /** A traversal over pages whose ids are all distinct returns every
      notification it received, page after page: for instance four pages
      of ten distinct notifications give forty. */
  lemma DistinctTraversal(fetch: Fetcher, mode: LowerBoundMode, lowerBound: Long, maxPages: Int32,
                          requests: seq<ArrayOptions>, pages: seq<Page>, list: seq<Notification>, iterations: int)
    requires IsTraversal(fetch, mode, lowerBound, maxPages, requests, pages, Success(list), iterations)
    requires UniqueIds(Flatten(pages))
    ensures list == Flatten(pages)
  {
    AccumulateDistinct(pages);
  }
}
