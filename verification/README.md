# Mastonet pagination, modelled in Dafny

The pagination tests of the Mastonet client library contain two things.

The first is a cursor-pagination loop, written out twice:
`GetAllNotificationsBackToMinIdAsync` puts the lower bound in `MinId`, and
`GetAllNotificationsSinceSinceIdAsync` puts it in `SinceId`. Each pass of
the `do … while` loop does four things:

1. It builds the request options: the lower bound, plus `MaxId` set to the
   previous page's `NextPageMaxId`.
2. It fetches one page of notifications.
3. It appends the page's notifications whose id is not yet in the list.
4. It increments `recentIterations`.

The loop stops after the first page without a next-page cursor, or when
the counter reaches `maxPages`.

The second is `FindAMiddleishId`. It picks the notification created
closest to the midpoint of the earliest and latest creation times, and
returns its id read as a `long`.

The project has these modules:

- `Wrappers`: `Option` and `Result`. A thrown exception is modelled as a
  `Failure` value.
- `Decimal`: C# `long` and `int`, `long.ToString()` and `long.Parse`.
  `long.Parse` is modelled with `NumberStyles.Integer` under the invariant
  culture.
- `Entities`: notifications, reduced to their id and `CreatedAt.Ticks`;
  a page with its `NextPageMaxId`; the three cursor fields of
  `ArrayOptions`; the fetch error.
- `Dedup`: how one page is added to the list.
  - `AddRange` enumerates the lazy `Where` one item at a time, and each
    test sees the items added before it. Duplicates inside one page are
    therefore dropped too.
  - `DedupOf` is the reference definition of the result: one notification
    per id, the first one seen, in order of first appearance.
- `Pagination`: the loop, modelled once with a `LowerBoundMode`.
  - `GetNotifications` becomes a function parameter `fetch`.
  - `Paginate` also returns the final `recentIterations`, plus, as ghost
    outputs, the requests it sent and the pages it received.
  - `IsTraversal` is the relation that fixes what a traversal does.
- `Traversal`: consequences of `IsTraversal`:
  - it is deterministic;
  - the requests chain the cursors and carry the lower bound;
  - the list only grows;
  - a server that never runs out is cut off at `maxPages`;
  - pages with distinct ids are returned whole.
- `Selector`: `FindAMiddleishId`, with its three failure modes: an empty
  input, no single closest notification, and an id `long.Parse` rejects.

`maxPages` is a C# `int`, and the code does not require it to be
positive. With `maxPages <= 0` the `do … while` still fetches exactly one
page, so the bound proved is `Max(1, maxPages)`. The model follows the
code here rather than the evident intent of a positive cap.

## Model

| member | source | states |
|---|---|---|
| Pagination.Paginate | Mastonet.Tests/PaginationTests.cs:87-133 | Both loops (`MinIdMode` for the first, `SinceIdMode` for the second) satisfy `IsTraversal`. Each request is built from the pages before it. A request follows a page only if that page had a cursor and the counter was below `maxPages`. The loop stops at the first failed fetch, after the first page without a cursor, or when the counter reaches `maxPages`. The counter lies in 0..Max(1, maxPages) and is at least 1 on a normal return. The returned list is the deduplication of every fetched notification. |
| Pagination.ContinueTraversal | Mastonet.Tests/PaginationTests.cs:101-106 | A pass that receives a page with a cursor, and leaves the counter below `maxPages`, re-establishes the loop invariant for the next pass. |
| Pagination.FinishTraversal | Mastonet.Tests/PaginationTests.cs:101-108 | A pass that receives a page without a cursor, or brings the counter to `maxPages`, ends a complete traversal. The counter lies in 1..Max(1, maxPages), and the list is the deduplication of every fetched notification. |
| Pagination.RequestOptions | Mastonet.Tests/PaginationTests.cs:95-99 | `MinId` is set exactly in `MinIdMode`, and `SinceId` exactly in `SinceIdMode`. `MaxId` is set exactly when there is a cursor. What the fields hold is stated by `Pagination.RequestOptionsDecode`. |
| Pagination.Accumulate | Mastonet.Tests/PaginationTests.cs:103 | The list after the pages received has unique ids and the same ids as all their notifications. Which notification is kept, and the order, are stated by `Pagination.AccumulateDedup`. |
| Pagination.RequestOptionsDecode | Mastonet.Tests/PaginationTests.cs:95-99 | The options carry the lower bound as text that parses back to it, in the field the mode selects only. `MaxId` is absent exactly when there is no cursor, and otherwise parses back to the cursor. |
| Pagination.AccumulateDedup | Mastonet.Tests/PaginationTests.cs:103 | The list after any number of pages has unique ids and the same ids as all fetched notifications. Each entry is the first notification seen with its id, in order of first appearance. |
| Traversal.TraversalDeterministic | Mastonet.Tests/PaginationTests.cs:87-109 | Two traversals with the same fetcher, mode, lower bound and `maxPages` have equal requests, pages, outcome and counter. |
| Traversal.TraversalRequests | Mastonet.Tests/PaginationTests.cs:95-99 | At least one request is sent. Every request carries the lower bound, and the first has no `MaxId`. Each later request follows a page that had a cursor and carries that cursor as `MaxId`. |
| Traversal.RequestCarriesLowerBound | Mastonet.Tests/PaginationTests.cs:97 | Request k carries the lower bound in the mode's field. |
| Traversal.RequestFollowsCursor | Mastonet.Tests/PaginationTests.cs:98 | Request k > 0 carries the cursor of page k-1, which was present. |
| Traversal.NeverExhausted | Mastonet.Tests/PaginationTests.cs:104-106 | Against a server that always answers with a cursor, the loop returns normally with the counter equal to `Max(1, maxPages)`. |
| Traversal.AccumulatePrefix | Mastonet.Tests/PaginationTests.cs:103 | The list after j pages is a prefix of the list after k >= j pages. Nothing is removed or reordered. |
| Traversal.AccumulateDistinct | Mastonet.Tests/PaginationTests.cs:103 | When no id repeats across the pages, the list is the concatenation of the pages' items. |
| Traversal.DistinctTraversal | Mastonet.Tests/PaginationTests.cs:103-108 | A normal return over pages with distinct ids yields every notification received, in order. |
| Dedup.AddIfNew | Mastonet.Tests/PaginationTests.cs:103 | The list is left unchanged exactly when the item's id is already in it. Otherwise the item itself is appended. Either way the item's id is in the result. |
| Dedup.AddNew | Mastonet.Tests/PaginationTests.cs:103 | Adding a page extends the list as a prefix. The ids become the old ids plus the page's ids. Unique ids are preserved. |
| Dedup.AddIfNewDedup | Mastonet.Tests/PaginationTests.cs:103 | If the list is the deduplication of a stream, adding one item gives the deduplication of the stream extended by that item. |
| Dedup.AddNewDedup | Mastonet.Tests/PaginationTests.cs:103 | If the list is the deduplication of a stream, adding a page gives the deduplication of the stream followed by the page, duplicates inside the page included. |
| Dedup.AddNewDistinct | Mastonet.Tests/PaginationTests.cs:103 | When the list and page together have no repeated id, the whole page is appended unchanged. |
| Decimal.FormatNat | Mastonet.Tests/PaginationTests.cs:97-98 | The text is a non-empty digit string whose value is the number, with no leading zero except for 0 itself. |
| Decimal.ParseFormatLong | Mastonet.Tests/PaginationTests.cs:97-98 | `long.Parse` reads the text of `long.ToString()` back as the same value. |
| Decimal.FormatLongInjective | Mastonet.Tests/PaginationTests.cs:97-98 | Different longs have different texts. |
| Decimal.TrimStart | Mastonet.Tests/PaginationTests.cs:83 | Exactly the leading white space `long.Parse` skips is removed. The result is a suffix of the text, every character removed is white space, and the result does not start with white space. |
| Decimal.TrimEnd | Mastonet.Tests/PaginationTests.cs:83 | Exactly the trailing white space `long.Parse` skips is removed. The result is a prefix of the text, every character removed is white space, and the result does not end with white space. |
| Decimal.ParseLong | Mastonet.Tests/PaginationTests.cs:83 | Text made only of white space, the empty text included, is a format error. A non-empty digit string whose value fits in a long parses to that value. That it inverts `long.ToString()` is stated by `Decimal.ParseFormatLong`. |
| Decimal.FormatLong | Mastonet.Tests/PaginationTests.cs:97-98 | The text is non-empty and starts with "-" exactly for a negative number. The rest is a digit string whose value is the magnitude, with no leading zero unless the number is 0. Its inverse is stated by `Decimal.ParseFormatLong`, and its injectivity by `Decimal.FormatLongInjective`. |
| Selector.LatestTicks | Mastonet.Tests/PaginationTests.cs:80 | The maximum creation time: at least every item's, and attained by one. |
| Selector.EarliestTicks | Mastonet.Tests/PaginationTests.cs:80 | The minimum creation time: at most every item's, and attained by one. |
| Selector.Midpoint | Mastonet.Tests/PaginationTests.cs:80 | The sum of maximum and minimum fits in a long, so the addition does not wrap. The midpoint lies between the minimum and the maximum, and is half their sum rounded down, as C#'s `/ 2` truncates a non-negative sum. |
| Selector.Distance | Mastonet.Tests/PaginationTests.cs:81-82 | The absolute difference between the creation time and the midpoint: at least the difference either way round, and equal to one of them. |
| Selector.MinDistance | Mastonet.Tests/PaginationTests.cs:81 | The closest distance to the midpoint: at most every item's, and attained by one. |
| Selector.Matches | Mastonet.Tests/PaginationTests.cs:82 | The items `Single` filters on are items of the input at exactly that distance. |
| Selector.FindAMiddleishId | Mastonet.Tests/PaginationTests.cs:78-84 | The empty-sequence failure occurs exactly when the input is empty. |
| Selector.SelectsUniqueClosest | Mastonet.Tests/PaginationTests.cs:80-83 | When one notification is strictly closest to the midpoint, the result is its id parsed as a long, or the parse failure. |
| Selector.TieFails | Mastonet.Tests/PaginationTests.cs:82 | When two notifications tie for the closest distance, `Single` fails. |
| Selector.SelectedIsUniqueClosest | Mastonet.Tests/PaginationTests.cs:80-83 | A returned value is the parsed id of the one notification strictly closer to the midpoint than every other. |
| Selector.MatchesExactlyOne | Mastonet.Tests/PaginationTests.cs:82 | When exactly one item lies at the distance, the filter yields just that item. |
| Selector.MatchesAtLeastTwo | Mastonet.Tests/PaginationTests.cs:82 | Two items at the distance make the filter yield at least two. |
| Selector.MiddleOfThree | Mastonet.Tests/PaginationTests.cs:78-84 | Notifications with ids 1, 2 and 3 at ticks 0, 10 and 20 give 2. |

## Left out

- `MastodonClient.GetNotifications` and the network, authentication,
  `token` and `instance`. The call is the parameter `fetch`, and any
  exception it throws is a `FetchError`.
- `async`/`await`: each fetch completes before the next one starts, so the
  loop is sequential.
- The xUnit tests (lines 17-76). Their assertions depend on the data of a
  live server.
  - The claim that a middle id as lower bound yields a strict, non-empty
    subset in fewer passes needs assumptions about the server's cursor
    behaviour that the code does not make.
  - The assertion that the counter reaches `MAX_PAGES` is stated
    conditionally, as `Traversal.NeverExhausted`.
- `recentIterations` is a field shared by both loops and the tests. It is
  modelled as an output of `Paginate` holding the field's value when the
  call ends, normally or by an exception.
- `Notification` fields other than `Id` and `CreatedAt.Ticks`, and
  `ArrayOptions` fields other than `MinId`, `SinceId` and `MaxId`.
- `DateTime` internals: ticks are integers from 0 to
  `DateTime.MaxValue.Ticks`. Within that range `Math.Abs` cannot overflow
  and the midpoint sum cannot wrap, so no overflow is modelled.
- `long.Parse` of a null argument (ids are never null here). Trailing NUL
  characters and culture-specific signs are also left out.
- `Enumerable.Single` distinguishes "no match" from "more than one match".
  Both are `NotSingle` here, and the first cannot occur because the
  closest distance is attained.
- `FindAMiddleishId` takes an `IEnumerable` that it enumerates several
  times. It is modelled on a sequence, which gives the same answer on each
  enumeration.
- Pagination.Requests: its contract states only the length; which request
  is which is stated by `Traversal.TraversalRequests`.
