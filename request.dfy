/**
 * The `requests` table row (`Request`), the object a PIN user builds before
 * it is saved (`Draft`), its `to_dict` projection, and the
 * `pin_request_views` row (`ViewRow`). Timestamps are integer seconds and
 * dates integer days; `isoformat` is a parameter.
 */
module Requests {
  import opened Wrappers

  /** The request lifecycle states; the column stores their names. */
  datatype Status = Pending | Approved | InProgress | Completed | Suspended

  /** The string the `status` column holds for each state. */
  function StatusName(s: Status): string
  {
    match s
    case Pending => "pending"
    case Approved => "approved"
    case InProgress => "in_progress"
    case Completed => "completed"
    case Suspended => "suspended"
  }

  /** Reads a `status` column value back; `None` for a string that names no state. */
  function ParseStatus(name: string): (r: Option<Status>)
    ensures r.Some? ==> StatusName(r.value) == name
    ensures r.None? ==> forall s :: StatusName(s) != name
  {
    if name == "pending" then Some(Pending)
    else if name == "approved" then Some(Approved)
    else if name == "in_progress" then Some(InProgress)
    else if name == "completed" then Some(Completed)
    else if name == "suspended" then Some(Suspended)
    else None
  }

  /** Every state's name reads back as that state, so no two states share a name. */
  lemma StatusNameRoundTrip(s: Status)
    ensures ParseStatus(StatusName(s)) == Some(s)
  {
    match s
    case Pending =>
    case Approved =>
    case InProgress =>
    case Completed =>
    case Suspended =>
  }

  /** The "active" states a PIN user may still edit. */
  predicate IsActive(s: Status)
  {
    s == Pending || s == Approved || s == InProgress
  }

  /** The states shown in a PIN user's history. */
  predicate IsClosed(s: Status)
  {
    s == Completed || s == Suspended
  }

  /**
   * A `Request` object as its constructor builds it, before the database
   * fills in the id, the status, the timestamps and the counters.
   */
  datatype Draft = Draft(
    pinId: int,
    title: string,
    description: string,
    category: string,
    urgency: string := "medium",
    location: Option<string> := None,
    preferredDate: Option<int> := None)

  /** A stored row of the `requests` table. */
  datatype Request = Request(
    id: int,
    pinId: int,
    title: string,
    description: string,
    category: string,
    urgency: string,
    status: Status,
    location: Option<string>,
    preferredDate: Option<int>,
    createdAt: int,
    updatedAt: int,
    viewCount: int,
    shortlistCount: int)

  function CreatedAt(r: Request): int { r.createdAt }
  function UpdatedAt(r: Request): int { r.updatedAt }
  function RequestId(r: Request): int { r.id }

  /** The row the database stores for `d` under `id` at time `now`: the column defaults fill the rest. */
  function Insert(d: Draft, id: int, now: int): (r: Request)
    ensures r.status == Pending && r.viewCount == 0 && r.shortlistCount == 0
    ensures r.createdAt == now && r.updatedAt == now && r.id == id
  {
    Request(id, d.pinId, d.title, d.description, d.category, d.urgency, Pending,
            d.location, d.preferredDate, now, now, 0, 0)
  }

  /** A request built with only the required arguments has the constructor's defaults. */
  lemma DraftDefaults(pinId: int, title: string, description: string, category: string)
    ensures Draft(pinId, title, description, category).urgency == "medium"
    ensures Draft(pinId, title, description, category).location == None
    ensures Draft(pinId, title, description, category).preferredDate == None
  {
  }

  /** The dictionary `to_dict` returns. There is no `updated_at` key. */
  datatype RequestDict = RequestDict(
    id: int,
    pinId: int,
    title: string,
    description: string,
    category: string,
    urgency: string,
    status: string,
    location: Option<string>,
    preferredDate: Option<string>,
    createdAt: Option<string>,
    viewCount: int,
    shortlistCount: int)

  /**
   * `to_dict`: dates and timestamps go through `isoformat` (`isoDate` and
   * `isoDateTime`), an absent date becomes `None`, the status becomes its
   * name, and everything else is copied.
   */
  function ToDict(r: Request, isoDate: int -> string, isoDateTime: int -> string): (d: RequestDict)
    ensures ParseStatus(d.status) == Some(r.status)
    ensures d.preferredDate == (if r.preferredDate.Some? then Some(isoDate(r.preferredDate.value)) else None)
    ensures d.createdAt == Some(isoDateTime(r.createdAt))
    ensures d.id == r.id && d.pinId == r.pinId && d.urgency == r.urgency && d.location == r.location
    ensures d.title == r.title && d.description == r.description && d.category == r.category
    ensures d.viewCount == r.viewCount && d.shortlistCount == r.shortlistCount
  {
    StatusNameRoundTrip(r.status);
    RequestDict(
      r.id, r.pinId, r.title, r.description, r.category, r.urgency, StatusName(r.status), r.location,
      if r.preferredDate.Some? then Some(isoDate(r.preferredDate.value)) else None,
      Some(isoDateTime(r.createdAt)),
      r.viewCount, r.shortlistCount)
  }

  /** A row of `pin_request_views`: CSR `csrCompanyId` viewed request `requestId` at `viewedAt`. */
  datatype ViewRow = ViewRow(requestId: int, csrCompanyId: int, viewedAt: int)
}
