/** internal/contract: the event as producers send it, and its validation. */
module Contract {
  import opened Wrappers
  import opened Text

  const SCHEMA_VERSION := 1
  const MAX_QUERY_RUNES := 256
  const MAX_FUTURE_SKEW := 10_000_000_000

  /** `occurredAt` is `None` for Go's zero time. */
  datatype SearchEvent = SearchEvent(
    schemaVersion: int,
    eventId: string,
    occurredAt: Option<int>,
    query: string,
    userIdHash: string,
    sessionId: string,
    deviceIdHash: string,
    ipHash: string,
    isBot: bool)

  function ActorKey(e: SearchEvent): string {
    if e.userIdHash != "" then e.userIdHash
    else if e.deviceIdHash != "" then e.deviceIdHash
    else if e.ipHash != "" then e.ipHash
    else e.sessionId
  }

  /** The first identity that is given, in the order user, device, address, session. */
  lemma ActorKeyPrecedence(e: SearchEvent)
    ensures e.userIdHash != "" ==> ActorKey(e) == e.userIdHash
    ensures e.userIdHash == "" && e.deviceIdHash != "" ==> ActorKey(e) == e.deviceIdHash
    ensures e.userIdHash == e.deviceIdHash == "" && e.ipHash != "" ==> ActorKey(e) == e.ipHash
    ensures e.userIdHash == e.deviceIdHash == e.ipHash == "" ==> ActorKey(e) == e.sessionId
  {
  }

  datatype ValidationReason =
    | UnsupportedSchemaVersion
    | MissingEventId
    | MissingOccurredAt
    | MissingQuery
    | QueryTooLong
    | EventFromFuture

  function ValidateAt(u: Unicode, e: SearchEvent, now: int): Option<ValidationReason> {
    if e.schemaVersion != SCHEMA_VERSION then Some(UnsupportedSchemaVersion)
    else if TrimSpace(u, e.eventId) == "" then Some(MissingEventId)
    else if e.occurredAt.None? then Some(MissingOccurredAt)
    else if TrimSpace(u, e.query) == "" then Some(MissingQuery)
    else if |TrimSpace(u, e.query)| > MAX_QUERY_RUNES then Some(QueryTooLong)
    else if e.occurredAt.value > now + MAX_FUTURE_SKEW then Some(EventFromFuture)
    else None
  }

  /** A valid event has schema version 1, an id, a time at most ten seconds ahead, and a query of at most 256 runes. */
  lemma ValidMeans(u: Unicode, e: SearchEvent, now: int)
    ensures ValidateAt(u, e, now) == None <==>
              && e.schemaVersion == 1
              && TrimSpace(u, e.eventId) != ""
              && e.occurredAt.Some?
              && 1 <= |TrimSpace(u, e.query)| <= 256
              && e.occurredAt.value - now <= 10 * 1_000_000_000
  {
    hide TrimSpace;
  }

  /** Each complaint is about one thing, and the ones before it were in order. */
  lemma InvalidMeans(u: Unicode, e: SearchEvent, now: int)
    ensures var why, id, q := ValidateAt(u, e, now), TrimSpace(u, e.eventId), TrimSpace(u, e.query);
            && (why == Some(UnsupportedSchemaVersion) <==> e.schemaVersion != 1)
            && (why == Some(MissingEventId) <==> e.schemaVersion == 1 && id == "")
            && (why == Some(MissingOccurredAt) <==> e.schemaVersion == 1 && id != "" && e.occurredAt == None)
            && (why == Some(MissingQuery) <==> e.schemaVersion == 1 && id != "" && e.occurredAt.Some? && q == "")
            && (why == Some(QueryTooLong) <==> e.schemaVersion == 1 && id != "" && e.occurredAt.Some? && |q| > 256)
            && (why == Some(EventFromFuture) <==>
                  e.schemaVersion == 1 && id != "" && e.occurredAt.Some? && 1 <= |q| <= 256 &&
                  e.occurredAt.value - now > 10 * 1_000_000_000)
  {
    hide TrimSpace;
  }
}
