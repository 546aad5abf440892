/**
 * The stored records the core reads: an event, its notification setting and an
 * OAuth token. Every RFC 3339 timestamp the core parses is held as the instant it
 * denotes, in whole seconds since the Unix epoch.
 */
module Models {
  import opened Wrappers

  /** An instant, in seconds since 1970-01-01T00:00:00Z. */
  type Instant = int

  /** Rust's `i32`, the column type of the notification lead time. */
  type I32 = x: int | -0x8000_0000 <= x < 0x8000_0000

  /** A row of the events table. */
  datatype Event = Event(
    id: string,
    summary: string,
    description: Option<string>,
    status: Option<string>,
    startDatetime: Instant,
    endDatetime: Instant)

  /** A row of the notifications table: whether to alert and how many seconds before the start. */
  datatype Notification = Notification(eventId: string, enabled: bool, leadSeconds: I32)

  /** A row of the OAuth token table; `expiresIn` is the lifetime as the decimal text it is stored as. */
  datatype OAuthToken = OAuthToken(
    id: string,
    accessToken: string,
    expiresIn: Option<string>,
    refreshToken: Option<string>,
    scope: Option<string>,
    tokenType: Option<string>,
    createdAt: Instant,
    updatedAt: Instant)
}
