/** The cursor-pagination loop of `GetAllNotificationsBackToMinIdAsync` and
    `GetAllNotificationsSinceSinceIdAsync`. The two differ only in the
    cursor field that carries the lower bound, so they are modelled once,
    parameterised by a `LowerBoundMode`. The Mastodon client's
    `GetNotifications` call is the function `fetch`: a request's options in,
    a page or the exception it throws out. */
module Pagination {
  import opened Wrappers
  import opened Decimal
  import opened Entities
  import opened Dedup

  /** Which cursor field carries the lower bound. */
  datatype LowerBoundMode = MinIdMode | SinceIdMode

  type Fetcher = ArrayOptions -> Result<Page, FetchError>

  function Max(a: int, b: int): int {
    if a < b then b else a
  }

  /** The field `mode` selects holds text the server reads back as
      `lowerBound`, and the other lower-bound field is unset. */
  ghost predicate CarriesLowerBound(o: ArrayOptions, mode: LowerBoundMode, lowerBound: Long) {
    var (bound, other) := if mode == MinIdMode then (o.minId, o.sinceId) else (o.sinceId, o.minId);
    bound.Some? && ParseLong(bound.value) == Success(lowerBound) && other.None?
  }

  /** `MaxId` is unset exactly when there is no cursor, and otherwise holds
      text the server reads back as the cursor. */
  ghost predicate CarriesMaxId(o: ArrayOptions, cursor: Option<Long>) {
    match cursor
    case None => o.maxId.None?
    case Some(m) => o.maxId.Some? && ParseLong(o.maxId.value) == Success(m)
  }

  /** `nextPageMaxId?.ToString()`. */
  function FormatCursor(cursor: Option<Long>): Option<string> {
    match cursor
    case None => None
    case Some(m) => Some(FormatLong(m))
  }

  /** The options one pass of the loop builds from the lower bound and the
      cursor left by the previous pass. */
  function RequestOptions(mode: LowerBoundMode, lowerBound: Long, nextPageMaxId: Option<Long>): (o: ArrayOptions)
    ensures o.minId.Some? <==> mode == MinIdMode
    ensures o.sinceId.Some? <==> mode == SinceIdMode
    ensures o.maxId.Some? <==> nextPageMaxId.Some?
  {
    var bound := Some(FormatLong(lowerBound));
    match mode
    case MinIdMode => ArrayOptions(minId := bound, sinceId := None, maxId := FormatCursor(nextPageMaxId))
    case SinceIdMode => ArrayOptions(minId := None, sinceId := bound, maxId := FormatCursor(nextPageMaxId))
  }

  /** The server reads the options back as the lower bound in the field
      the mode selects and the cursor as `MaxId`. */
  lemma RequestOptionsDecode(mode: LowerBoundMode, lowerBound: Long, nextPageMaxId: Option<Long>)
    ensures CarriesLowerBound(RequestOptions(mode, lowerBound, nextPageMaxId), mode, lowerBound)
    ensures CarriesMaxId(RequestOptions(mode, lowerBound, nextPageMaxId), nextPageMaxId)
  {
    ParseFormatLong(lowerBound);
    if nextPageMaxId.Some? {
      ParseFormatLong(nextPageMaxId.value);
    }
  }

  /** `nextPageMaxId` after the pages `received`: none before the first. */
  function Cursor(received: seq<Page>): Option<Long> {
    if |received| == 0 then None else received[|received| - 1].nextPageMaxId
  }

  /** The request the loop sends after it has received `received`. */
  function NextRequest(mode: LowerBoundMode, lowerBound: Long, received: seq<Page>): ArrayOptions {
    RequestOptions(mode, lowerBound, Cursor(received))
  }

  /** The requests whose answers were `pages`, in order. */
  function Requests(mode: LowerBoundMode, lowerBound: Long, pages: seq<Page>): (r: seq<ArrayOptions>)
    ensures |r| == |pages|
  {
    if |pages| == 0 then []
    else
      var before := pages[..|pages| - 1];
      Requests(mode, lowerBound, before) + [NextRequest(mode, lowerBound, before)]
  }

  /** Each page is what the server answered to the request built from the
      pages before it. */
  ghost predicate Exchanged(fetch: Fetcher, mode: LowerBoundMode, lowerBound: Long, pages: seq<Page>) {
    |pages| > 0 ==>
      var before := pages[..|pages| - 1];
      && Exchanged(fetch, mode, lowerBound, before)
      && fetch(NextRequest(mode, lowerBound, before)) == Success(pages[|pages| - 1])
  }

  /** Every notification of `pages`, page after page. */
  function Flatten(pages: seq<Page>): seq<Notification> {
    if |pages| == 0 then [] else Flatten(pages[..|pages| - 1]) + pages[|pages| - 1].items
  }

  /** The list after the pages have been added to it one after another. */
  function Accumulate(pages: seq<Page>): (r: seq<Notification>)
    ensures Ids(r) == Ids(Flatten(pages))
    ensures UniqueIds(r)
  {
    if |pages| == 0 then []
    else
      var before := pages[..|pages| - 1];
      IdsAppend(Flatten(before), pages[|pages| - 1].items);
      AddNew(Accumulate(before), pages[|pages| - 1].items)
  }

  /** What a traversal did: the requests it sent in order, the pages that
      came back, its outcome, and the final value of `recentIterations`.
      Each request is built from the pages received before it; a request
      follows a page only if that page had a cursor and the counter was
      below `maxPages`; the loop ends at the first failed fetch, or after
      the first page without a cursor, or when the counter reaches
      `maxPages`; a normal return yields the notifications of the pages
      deduplicated by id. */
  ghost predicate IsTraversal(fetch: Fetcher, mode: LowerBoundMode, lowerBound: Long, maxPages: Int32,
                              requests: seq<ArrayOptions>, pages: seq<Page>,
                              outcome: Result<seq<Notification>, FetchError>, iterations: int)
  {
    && iterations == |pages|
    && Exchanged(fetch, mode, lowerBound, pages)
    && match outcome
       case Failure(e) =>
         && requests == Requests(mode, lowerBound, pages) + [NextRequest(mode, lowerBound, pages)]
         && (forall k :: 0 <= k < |pages| ==> pages[k].nextPageMaxId.Some?)
         && (|pages| == 0 || |pages| < maxPages)
         && fetch(NextRequest(mode, lowerBound, pages)) == Failure(e)
       case Success(list) =>
         && requests == Requests(mode, lowerBound, pages)
         && |pages| >= 1
         && (forall k :: 0 <= k < |pages| - 1 ==> pages[k].nextPageMaxId.Some?)
         && (|pages| == 1 || |pages| - 1 < maxPages)
         && (pages[|pages| - 1].nextPageMaxId.None? || |pages| >= maxPages)
         && list == Accumulate(pages)
  }

  /** The pagination loop. `iterations` is the value `recentIterations`
      holds when the call ends, normally or by an exception; `requests` and
      `pages` record the exchange with the server. */
  method Paginate(fetch: Fetcher, mode: LowerBoundMode, lowerBound: Long, maxPages: Int32)
    returns (outcome: Result<seq<Notification>, FetchError>, iterations: int,
             ghost requests: seq<ArrayOptions>, ghost pages: seq<Page>)
    ensures IsTraversal(fetch, mode, lowerBound, maxPages, requests, pages, outcome, iterations)
    ensures 0 <= iterations <= Max(1, maxPages)
    ensures outcome.Success? ==> 1 <= iterations
    ensures outcome.Success? ==> DedupOf(outcome.value, Flatten(pages))
  {
    var list: seq<Notification> := [];
    var nextPageMaxId: Option<Long> := None;
    iterations := 0;
    requests, pages := [], [];
    while true
      invariant LoopInvariant(fetch, mode, lowerBound, maxPages, requests, pages, nextPageMaxId, list, iterations)
      decreases Max(1, maxPages) - iterations
    {
      var opts := RequestOptions(mode, lowerBound, nextPageMaxId);
      var response := fetch(opts);
      if response.Failure? {
        FailedTraversal(fetch, mode, lowerBound, maxPages, requests, pages, nextPageMaxId, list, iterations, response.error);
        requests := requests + [opts];
        outcome := Failure(response.error);
        return;
      }
      var page := response.value;
      ghost var requests0, pages0, nextPageMaxId0, list0, iterations0 := requests, pages, nextPageMaxId, list, iterations;
      list := AddNew(list, page.items);
      nextPageMaxId := page.nextPageMaxId;
      iterations := iterations + 1;
      pages := pages + [page];
      requests := requests + [opts];
      if !(nextPageMaxId.Some? && iterations < maxPages) {
        FinishTraversal(fetch, mode, lowerBound, maxPages, requests0, pages0, nextPageMaxId0, list0, iterations0, page,
                        requests, pages, list, iterations);
        break;
      }
      ContinueTraversal(fetch, mode, lowerBound, maxPages, requests0, pages0, nextPageMaxId0, list0, iterations0, page,
                        requests, pages, list, iterations);
    }
    outcome := Success(list);
  }

  /** What holds at the top of each pass: the counter equals the number of
      pages received, each of which had a cursor (else the loop would have
      stopped), and the requests, the cursor and the list are those the
      pages received so far determine. */
  ghost predicate LoopInvariant(fetch: Fetcher, mode: LowerBoundMode, lowerBound: Long, maxPages: Int32,
                                requests: seq<ArrayOptions>, pages: seq<Page>, nextPageMaxId: Option<Long>,
                                list: seq<Notification>, iterations: int)
  {
    && 0 <= iterations < Max(1, maxPages)
    && iterations == |pages|
    && nextPageMaxId == Cursor(pages)
    && (forall k :: 0 <= k < |pages| ==> pages[k].nextPageMaxId.Some?)
    && requests == Requests(mode, lowerBound, pages)
    && Exchanged(fetch, mode, lowerBound, pages)
    && list == Accumulate(pages)
  }

  /** The state after a pass that received `page`, given the state
      before it. */
  ghost predicate Received(mode: LowerBoundMode, lowerBound: Long,
                           requests: seq<ArrayOptions>, pages: seq<Page>, nextPageMaxId: Option<Long>,
                           list: seq<Notification>, iterations: int, page: Page,
                           requests': seq<ArrayOptions>, pages': seq<Page>, list': seq<Notification>, iterations': int)
  {
    && requests' == requests + [RequestOptions(mode, lowerBound, nextPageMaxId)]
    && pages' == pages + [page]
    && list' == AddNew(list, page.items)
    && iterations' == iterations + 1
  }

  /** A pass that receives a page with a cursor while the counter stays
      below `maxPages` re-establishes the invariant for the next pass. */
  lemma ContinueTraversal(fetch: Fetcher, mode: LowerBoundMode, lowerBound: Long, maxPages: Int32,
                          requests: seq<ArrayOptions>, pages: seq<Page>, nextPageMaxId: Option<Long>,
                          list: seq<Notification>, iterations: int, page: Page,
                          requests': seq<ArrayOptions>, pages': seq<Page>, list': seq<Notification>, iterations': int)
    requires LoopInvariant(fetch, mode, lowerBound, maxPages, requests, pages, nextPageMaxId, list, iterations)
    requires fetch(RequestOptions(mode, lowerBound, nextPageMaxId)) == Success(page)
    requires Received(mode, lowerBound, requests, pages, nextPageMaxId, list, iterations, page, requests', pages', list', iterations')
    requires page.nextPageMaxId.Some? && iterations' < maxPages
    ensures LoopInvariant(fetch, mode, lowerBound, maxPages, requests', pages', page.nextPageMaxId, list', iterations')
  {
    PageExtends(fetch, mode, lowerBound, maxPages, requests, pages, nextPageMaxId, list, iterations, page,
                requests', pages', list', iterations');
  }

  /** A pass that receives a page without a cursor, or that brings the
      counter to `maxPages`, completes the traversal normally. */
  lemma FinishTraversal(fetch: Fetcher, mode: LowerBoundMode, lowerBound: Long, maxPages: Int32,
                        requests: seq<ArrayOptions>, pages: seq<Page>, nextPageMaxId: Option<Long>,
                        list: seq<Notification>, iterations: int, page: Page,
                        requests': seq<ArrayOptions>, pages': seq<Page>, list': seq<Notification>, iterations': int)
    requires LoopInvariant(fetch, mode, lowerBound, maxPages, requests, pages, nextPageMaxId, list, iterations)
    requires fetch(RequestOptions(mode, lowerBound, nextPageMaxId)) == Success(page)
    requires Received(mode, lowerBound, requests, pages, nextPageMaxId, list, iterations, page, requests', pages', list', iterations')
    requires !(page.nextPageMaxId.Some? && iterations' < maxPages)
    ensures IsTraversal(fetch, mode, lowerBound, maxPages, requests', pages', Success(list'), iterations')
    ensures 1 <= iterations' <= Max(1, maxPages)
    ensures DedupOf(list', Flatten(pages'))
  {
    PageExtends(fetch, mode, lowerBound, maxPages, requests, pages, nextPageMaxId, list, iterations, page,
                requests', pages', list', iterations');
    AccumulateDedup(pages');
  }

  /** The state after a received page is the state the three relations
      assign to the pages received so far. */
  lemma PageExtends(fetch: Fetcher, mode: LowerBoundMode, lowerBound: Long, maxPages: Int32,
                    requests: seq<ArrayOptions>, pages: seq<Page>, nextPageMaxId: Option<Long>,
                    list: seq<Notification>, iterations: int, page: Page,
                    requests': seq<ArrayOptions>, pages': seq<Page>, list': seq<Notification>, iterations': int)
    requires LoopInvariant(fetch, mode, lowerBound, maxPages, requests, pages, nextPageMaxId, list, iterations)
    requires fetch(RequestOptions(mode, lowerBound, nextPageMaxId)) == Success(page)
    requires Received(mode, lowerBound, requests, pages, nextPageMaxId, list, iterations, page, requests', pages', list', iterations')
    ensures iterations' == |pages'| && Cursor(pages') == page.nextPageMaxId
    ensures forall k :: 0 <= k < |pages'| - 1 ==> pages'[k].nextPageMaxId.Some?
    ensures requests' == Requests(mode, lowerBound, pages')
    ensures Exchanged(fetch, mode, lowerBound, pages')
    ensures list' == Accumulate(pages')
  {
    assert pages'[..|pages|] == pages;
    assert forall k :: 0 <= k < |pages| ==> pages'[k] == pages[k];
  }

  /** A pass whose fetch throws ends the traversal. */
  lemma FailedTraversal(fetch: Fetcher, mode: LowerBoundMode, lowerBound: Long, maxPages: Int32,
                        requests: seq<ArrayOptions>, pages: seq<Page>, nextPageMaxId: Option<Long>,
                        list: seq<Notification>, iterations: int, e: FetchError)
    requires LoopInvariant(fetch, mode, lowerBound, maxPages, requests, pages, nextPageMaxId, list, iterations)
    requires fetch(RequestOptions(mode, lowerBound, nextPageMaxId)) == Failure(e)
    ensures IsTraversal(fetch, mode, lowerBound, maxPages, requests + [RequestOptions(mode, lowerBound, nextPageMaxId)],
                        pages, Failure(e), iterations)
    ensures 0 <= iterations <= Max(1, maxPages)
  {
  }

  /** The accumulated list holds, for each id fetched, the first
      notification seen with it, in order of first appearance. */
  lemma {:induction false} AccumulateDedup(pages: seq<Page>)
    ensures DedupOf(Accumulate(pages), Flatten(pages))
  {
    if |pages| > 0 {
      var before := pages[..|pages| - 1];
      AccumulateDedup(before);
      AddNewDedup(Accumulate(before), Flatten(before), pages[|pages| - 1].items);
    }
  }
}
