/** The values the pagination code exchanges with the Mastodon client:
    notifications, a page of them, and the cursor options of one request. */
module Entities {
  import opened Wrappers
  import opened Decimal

  /** `DateTime.MaxValue.Ticks`: creation times lie in 0 .. MaxTicks. */
  const MaxTicks: int := 3_155_378_975_999_999_999

  /** `DateTime.Ticks`, the creation time of a notification. */
  type Ticks = t: int | 0 <= t <= MaxTicks

  /** A notification, reduced to the two fields the pagination code reads:
      its id (a decimal string issued by the server) and `CreatedAt.Ticks`. */
  datatype Notification = Notification(id: string, createdAt: Ticks)

  /** One response of `GetNotifications`: the notifications in server
      order, and the cursor for the next (older) page, absent when the
      server reports no more pages. */
  datatype Page = Page(items: seq<Notification>, nextPageMaxId: Option<Long>)

  /** `ArrayOptions`, restricted to the three cursor fields a request sets;
      an absent field is a null string and is not sent. */
  datatype ArrayOptions = ArrayOptions(minId: Option<string>, sinceId: Option<string>, maxId: Option<string>)

  /** The exception a call to the server may throw (transport, HTTP or
      deserialisation failure). */
  datatype FetchError = FetchError(message: string)
}
