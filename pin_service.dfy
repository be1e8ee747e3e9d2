/**
 * `PINRequestService`: what a PIN user (the person asking for help) does
 * with their requests — create, update, suspend, list and search them —
 * and the view tracking that CSR users trigger. State-changing operations
 * are methods on `Database.Tables`; the read queries are functions over the
 * `requests` table.
 */
module PinService {
  import opened Wrappers
  import opened Text
  import opened Rows
  import opened Requests
  import opened Database

  // ----------------------------------------------------------------------
  // Views
  // ----------------------------------------------------------------------

  datatype TrackResult = Tracked | AlreadyViewed
  {
    function Code(): string
    {
      if Tracked? then "success" else "already_viewed"
    }
  }

  /** `request.view_count += 1`; the flush also refreshes `updated_at` (its `onupdate`). */
  function Viewed(x: Request, now: int): Request
  {
    x.(viewCount := x.viewCount + 1, updatedAt := now)
  }

  /** The `requests` table after `track_view` bumps the counter of request `id`, if it exists. */
  function RecordView(rs: seq<Request>, id: int, now: int): (r: seq<Request>)
    ensures |r| == |rs|
    ensures forall j :: 0 <= j < |rs| ==> r[j] == if rs[j].id == id then Viewed(rs[j], now) else rs[j]
  {
    MapRow(rs, id, x => Viewed(x, now))
  }

  /**
   * `track_view`: the first view of a request by a CSR adds one view row and
   * raises that request's counter by one; a repeated view changes nothing.
   * The row is added even when no request has that id, and only then can
   * the counters stop matching the view rows.
   */
  method TrackView(db: Tables, requestId: int, csr: int, now: int) returns (r: TrackResult)
    requires db.Valid()
    modifies db
    ensures db.Valid()
    ensures r == AlreadyViewed <==> old(HasView(db.views, requestId, csr))
    ensures r == AlreadyViewed ==> db.requests == old(db.requests) && db.views == old(db.views)
    ensures r == Tracked ==>
      db.views == old(db.views) + [ViewRow(requestId, csr, now)] &&
      db.requests == RecordView(old(db.requests), requestId, now)
    ensures db.shortlist == old(db.shortlist)
    ensures old(db.Consistent()) && (r == AlreadyViewed || old(Exists(db.requests, requestId))) ==> db.Consistent()
  {
    if HasView(db.views, requestId, csr) {
      return AlreadyViewed;
    }
    ghost var rs, views := db.requests, db.views;
    var found := IndexOf(db.requests, RequestId, requestId);
    if found.Some? {
      var i := found.value;
      var y := Viewed(db.requests[i], now);
      OnlyRowWithId(db.requests, i);
      ReplaceKeepsAscending(db.requests, i, y);
      assert db.requests[i := y] == RecordView(db.requests, requestId, now);
      db.requests := db.requests[i := y];
    } else {
      assert db.requests == RecordView(db.requests, requestId, now);
    }
    db.views := db.views + [ViewRow(requestId, csr, now)];
    if TablesConsistent(rs, views, db.shortlist) && Exists(rs, requestId) {
      TrackViewKeepsConsistent(rs, views, db.shortlist, requestId, csr, now);
    }
    r := Tracked;
  }

  /** A first view of an existing request keeps the counters equal to the row counts. */
  lemma TrackViewKeepsConsistent(rs: seq<Request>, views: seq<ViewRow>, sl: seq<ShortlistRow>, id: int, csr: int, now: int)
    requires TablesConsistent(rs, views, sl)
    requires Exists(rs, id) && !HasView(views, id, csr)
    ensures TablesConsistent(RecordView(rs, id, now), views + [ViewRow(id, csr, now)], sl)
  {
    var rs' := RecordView(rs, id, now);
    var v := ViewRow(id, csr, now);
    var views' := views + [v];
    forall j | 0 <= j < |rs'|
      ensures rs'[j].viewCount == ViewsOf(views', rs'[j].id) && rs'[j].shortlistCount == ShortlistsOf(sl, rs'[j].id)
    {
      ViewsOfAppend(views, v, rs[j].id);
    }
    assert forall j :: 0 <= j < |rs| ==> rs'[j].id == rs[j].id;
    SameIdsExist(rs, rs');
    forall a, b | 0 <= a < b < |views'|
      ensures !(views'[a].requestId == views'[b].requestId && views'[a].csrCompanyId == views'[b].csrCompanyId)
    {
      if b == |views| {
        assert views'[a] == views[a];
      }
    }
  }

  /** Tracking a view of a request that does not exist leaves a view row that references no request. */
  lemma TrackViewOfMissingRequestDangles(rs: seq<Request>, views: seq<ViewRow>, sl: seq<ShortlistRow>, id: int, csr: int, now: int)
    requires !Exists(rs, id)
    ensures RecordView(rs, id, now) == rs
    ensures !RowsReference(rs, views + [ViewRow(id, csr, now)], sl)
  {
    assert (views + [ViewRow(id, csr, now)])[|views|].requestId == id;
  }

  /** Tracking the same view twice: the second call reports it and changes nothing. */
  method TrackViewTwice(db: Tables, requestId: int, csr: int, now: int, later: int)
    returns (first: TrackResult, second: TrackResult)
    requires db.Valid()
    modifies db
    ensures second == AlreadyViewed
    ensures first == Tracked <==> old(!HasView(db.views, requestId, csr))
  {
    first := TrackView(db, requestId, csr, now);
    ghost var views := db.views;
    if first == Tracked {
      assert views[|views| - 1] == ViewRow(requestId, csr, now);
    }
    second := TrackView(db, requestId, csr, later);
  }

  // ----------------------------------------------------------------------
  // Counters
  // ----------------------------------------------------------------------

  /** A counter, or `"not_found"` when the PIN user owns no request with that id. */
  datatype CountResult = CountNotFound | Count(n: int)
  {
    function Code(): string
      requires CountNotFound?
    {
      "not_found"
    }
  }

  /** `get_view_count`. */
  function GetViewCount(rs: seq<Request>, id: int, pin: int): (r: CountResult)
    requires StrictlyAscending(rs, RequestId)
    ensures r == CountNotFound <==> FindOwned(rs, id, pin).None?
    ensures r.Count? ==> exists j :: 0 <= j < |rs| && rs[j].id == id && rs[j].pinId == pin && rs[j].viewCount == r.n
  {
    var f := FindOwned(rs, id, pin);
    if f.None? then CountNotFound
    else
      var j :| 0 <= j < |rs| && rs[j] == f.value;
      Count(f.value.viewCount)
  }

  /** `get_shortlist_count`. */
  function GetShortlistCount(rs: seq<Request>, id: int, pin: int): (r: CountResult)
    requires StrictlyAscending(rs, RequestId)
    ensures r == CountNotFound <==> FindOwned(rs, id, pin).None?
    ensures r.Count? ==> exists j :: 0 <= j < |rs| && rs[j].id == id && rs[j].pinId == pin && rs[j].shortlistCount == r.n
  {
    var f := FindOwned(rs, id, pin);
    if f.None? then CountNotFound
    else
      var j :| 0 <= j < |rs| && rs[j] == f.value;
      Count(f.value.shortlistCount)
  }

  /** While the tables are consistent, the counters a PIN user reads are the numbers of view and shortlist rows. */
  lemma CountsAreRowCounts(rs: seq<Request>, views: seq<ViewRow>, sl: seq<ShortlistRow>, id: int, pin: int)
    requires StrictlyAscending(rs, RequestId) && TablesConsistent(rs, views, sl)
    requires FindOwned(rs, id, pin).Some?
    ensures GetViewCount(rs, id, pin) == Count(ViewsOf(views, id))
    ensures GetShortlistCount(rs, id, pin) == Count(ShortlistsOf(sl, id))
  {
    var j :| 0 <= j < |rs| && rs[j].id == id && rs[j].pinId == pin && rs[j].viewCount == GetViewCount(rs, id, pin).n;
    var k :| 0 <= k < |rs| && rs[k].id == id && rs[k].pinId == pin && rs[k].shortlistCount == GetShortlistCount(rs, id, pin).n;
  }

  // ----------------------------------------------------------------------
  // Completed matches
  // ----------------------------------------------------------------------

  /**
   * The `WHERE` of `search_completed_matches`: the owner's completed requests,
   * whose category contains a non-empty category term case-insensitively,
   * and whose preferred date equals a given date.
   */
  predicate CompletedMatch(x: Request, pin: int, category: Option<string>, date: Option<int>)
  {
    && x.pinId == pin && x.status == Completed
    && (Truthy(category) ==> ContainsFold(x.category, category.value))
    && (date.Some? ==> x.preferredDate == date)
  }

  /** `search_completed_matches`, newest first. */
  function SearchCompletedMatches(rs: seq<Request>, pin: int, category: Option<string>, date: Option<int>): (r: seq<Request>)
    ensures SortedDesc(r, CreatedAt)
    ensures Selects(r, rs, x => CompletedMatch(x, pin, category, date))
  {
    SelectDesc(rs, x => CompletedMatch(x, pin, category, date), CreatedAt)
  }

  /** The owner's completed requests. */
  predicate CompletedBy(x: Request, pin: int)
  {
    x.pinId == pin && x.status == Completed
  }

  /** `get_completed_matches_history`: the owner's completed requests, newest first. */
  function GetCompletedMatchesHistory(rs: seq<Request>, pin: int): (r: seq<Request>)
    ensures SortedDesc(r, CreatedAt)
    ensures Selects(r, rs, x => CompletedBy(x, pin))
  {
    SelectDesc(rs, x => CompletedBy(x, pin), CreatedAt)
  }

  /** Searching with neither a category nor a date gives the history. */
  lemma UnfilteredSearchIsHistory(rs: seq<Request>, pin: int)
    ensures SearchCompletedMatches(rs, pin, None, None) == GetCompletedMatchesHistory(rs, pin)
  {
    FilterCongruent(rs, x => CompletedMatch(x, pin, None, None), x => CompletedBy(x, pin));
  }

  /** An empty category term is falsy, so it filters nothing. */
  lemma EmptyCategoryIgnored(rs: seq<Request>, pin: int, date: Option<int>)
    ensures SearchCompletedMatches(rs, pin, Some(""), date) == SearchCompletedMatches(rs, pin, None, date)
  {
    FilterCongruent(rs, x => CompletedMatch(x, pin, Some(""), date), x => CompletedMatch(x, pin, None, date));
  }

  // ----------------------------------------------------------------------
  // Create
  // ----------------------------------------------------------------------

  datatype CreateResult = Created | NotNullFailed(column: string)
  {
    function Code(): string
    {
      if Created? then "success" else "error:(sqlite3.IntegrityError) NOT NULL constraint failed: requests." + column
    }
  }

  /**
   * The row `create_pin_request` stores. An urgency of `None` is left out of
   * the `INSERT`, so the column default `'medium'` applies.
   */
  function NewRequest(rs: seq<Request>, pin: int, title: string, description: string, category: string,
                      urgency: Option<string>, location: Option<string>, preferredDate: Option<int>, now: int): (r: Request)
    ensures r.status == Pending && r.viewCount == 0 && r.shortlistCount == 0
    ensures r.createdAt == now && r.updatedAt == now
    ensures forall j :: 0 <= j < |rs| ==> rs[j].id < r.id
    ensures r.urgency == GetOr(urgency, "medium") && r.location == location && r.preferredDate == preferredDate
    ensures r.pinId == pin && r.title == title && r.description == description && r.category == category
  {
    Insert(Draft(pin, title, description, category, GetOr(urgency, "medium"), location, preferredDate), NextId(rs, RequestId), now)
  }

  /**
   * `create_pin_request`. `pin_id`, title, description and category are
   * `NOT NULL` without a default: a missing one fails the insert, reported
   * for the first such column in table order, and nothing is stored.
   */
  method CreatePinRequest(db: Tables, pin: Option<int>, title: Option<string>, description: Option<string>, category: Option<string>,
                          urgency: Option<string>, location: Option<string>, preferredDate: Option<int>, now: int)
    returns (r: CreateResult)
    requires db.Valid()
    modifies db
    ensures db.Valid()
    ensures r == Created <==> pin.Some? && title.Some? && description.Some? && category.Some?
    ensures r.NotNullFailed? ==>
      db.requests == old(db.requests) &&
      r.column == (if pin.None? then "pin_id" else if title.None? then "title"
                   else if description.None? then "description" else "category")
    ensures r == Created ==>
      db.requests == old(db.requests) +
        [NewRequest(old(db.requests), pin.value, title.value, description.value, category.value, urgency, location, preferredDate, now)]
    ensures db.views == old(db.views) && db.shortlist == old(db.shortlist)
    ensures old(db.Consistent()) ==> db.Consistent()
  {
    if pin.None? {
      return NotNullFailed("pin_id");
    } else if title.None? {
      return NotNullFailed("title");
    } else if description.None? {
      return NotNullFailed("description");
    } else if category.None? {
      return NotNullFailed("category");
    }
    var row := NewRequest(db.requests, pin.value, title.value, description.value, category.value, urgency, location, preferredDate, now);
    AppendNextAscending(db.requests, RequestId, row);
    if db.Consistent() {
      ConsistentAfterInsert(db.requests, db.views, db.shortlist, row);
    }
    db.requests := db.requests + [row];
    r := Created;
  }

  // ----------------------------------------------------------------------
  // Active requests, history and search
  // ----------------------------------------------------------------------

  predicate OwnedBy(x: Request, pin: int)
  {
    x.pinId == pin
  }

  /** `status NOT IN ('completed', 'suspended')` of the owner's requests. */
  predicate ActiveOf(x: Request, pin: int)
  {
    x.pinId == pin && !IsClosed(x.status)
  }

  /** `status IN ('completed', 'suspended')` of the owner's requests. */
  predicate ClosedOf(x: Request, pin: int)
  {
    x.pinId == pin && IsClosed(x.status)
  }

  /** `title ILIKE '%term%'` of the owner's requests. */
  predicate TitleMatch(x: Request, pin: int, term: string)
  {
    x.pinId == pin && ContainsFold(x.title, term)
  }

  /** `get_active_requests`: the owner's requests that are neither completed nor suspended, in table order. */
  function GetActiveRequests(rs: seq<Request>, pin: int): (r: seq<Request>)
    requires StrictlyAscending(rs, RequestId)
    ensures Selects(r, rs, x => ActiveOf(x, pin))
    ensures StrictlyAscending(r, RequestId)
    ensures forall k :: 0 <= k < |r| ==> IsActive(r[k].status)
  {
    FilterKeepsAscending(rs, x => ActiveOf(x, pin), RequestId);
    var r := Filter(rs, x => ActiveOf(x, pin));
    SelectedMembers(r, rs, x => ActiveOf(x, pin));
    assert forall k :: 0 <= k < |r| ==> r[k] in r;
    r
  }

  /** `get_pin_request_history`: the owner's completed and suspended requests, newest first. */
  function GetPinRequestHistory(rs: seq<Request>, pin: int): (r: seq<Request>)
    ensures SortedDesc(r, CreatedAt)
    ensures Selects(r, rs, x => ClosedOf(x, pin))
  {
    SelectDesc(rs, x => ClosedOf(x, pin), CreatedAt)
  }

  /** Active requests and history split the owner's requests: each request is in exactly one of them. */
  lemma ActiveHistoryPartition(rs: seq<Request>, pin: int)
    requires StrictlyAscending(rs, RequestId)
    ensures multiset(GetActiveRequests(rs, pin)) + multiset(GetPinRequestHistory(rs, pin))
         == multiset(Filter(rs, x => OwnedBy(x, pin)))
    ensures forall x :: !(x in GetActiveRequests(rs, pin) && x in GetPinRequestHistory(rs, pin))
  {
    var a := GetActiveRequests(rs, pin);
    var h := GetPinRequestHistory(rs, pin);
    var o := Filter(rs, x => OwnedBy(x, pin));
    forall x ensures (multiset(a) + multiset(h))[x] == multiset(o)[x] {
      assert multiset(a)[x] == if ActiveOf(x, pin) then multiset(rs)[x] else 0;
      assert multiset(h)[x] == if ClosedOf(x, pin) then multiset(rs)[x] else 0;
      assert multiset(o)[x] == if OwnedBy(x, pin) then multiset(rs)[x] else 0;
    }
    assert multiset(a) + multiset(h) == multiset(o);
    forall x ensures !(x in a && x in h) {
      if x in a {
        assert multiset(a)[x] > 0;
      }
    }
  }

  /** The text `f"{term}"` puts between the `%` signs: `None` formats as the word `None`. */
  function Formatted(term: Option<string>): string
  {
    if term.Some? then term.value else "None"
  }

  /**
   * `search_pin_requests`: the owner's requests whose title contains the
   * formatted term case-insensitively, newest first.
   */
  function SearchPinRequests(rs: seq<Request>, pin: int, term: Option<string>): (r: seq<Request>)
    ensures SortedDesc(r, CreatedAt)
    ensures term.Some? ==> Selects(r, rs, x => TitleMatch(x, pin, term.value))
    ensures term.None? ==> Selects(r, rs, x => TitleMatch(x, pin, "None"))
  {
    SelectDesc(rs, x => TitleMatch(x, pin, Formatted(term)), CreatedAt)
  }

  /** The pattern `%%` matches every title: an empty term lists all of the owner's requests. */
  lemma EmptyTermFindsAll(rs: seq<Request>, pin: int)
    ensures SearchPinRequests(rs, pin, Some("")) == SelectDesc(rs, x => OwnedBy(x, pin), CreatedAt)
  {
    FilterCongruent(rs, x => TitleMatch(x, pin, Formatted(Some(""))), x => OwnedBy(x, pin));
  }

  /** A `None` term is not "no filter": it searches for the word `none`, in any case. */
  lemma NoneTermSearchesWord(rs: seq<Request>, pin: int)
    ensures SearchPinRequests(rs, pin, None) == SearchPinRequests(rs, pin, Some("none"))
  {
    FilterCongruent(rs, x => TitleMatch(x, pin, Formatted(None)), x => TitleMatch(x, pin, Formatted(Some("none"))));
    forall x: Request ensures TitleMatch(x, pin, "None") == TitleMatch(x, pin, "none") {
      ContainsFoldIgnoresCase(x.title, "None");
      assert Lower("None") == Lower("none");
    }
  }

  // ----------------------------------------------------------------------
  // Display, suspend and update
  // ----------------------------------------------------------------------

  datatype DisplayResult = Display(request: Request) | DisplayNotFound | CanOnlyEditActive
  {
    function Code(): string
      requires !Display?
    {
      if DisplayNotFound? then "not_found" else "can_only_edit_active"
    }
  }

  /** `get_request_for_display`: the owner's request, only while it is active. */
  function GetRequestForDisplay(rs: seq<Request>, id: int, pin: int): (r: DisplayResult)
    requires StrictlyAscending(rs, RequestId)
    ensures r == DisplayNotFound <==> FindOwned(rs, id, pin).None?
    ensures r == CanOnlyEditActive <==> FindOwned(rs, id, pin).Some? && !IsActive(FindOwned(rs, id, pin).value.status)
    ensures r.Display? ==> r.request in rs && r.request.id == id && r.request.pinId == pin && IsActive(r.request.status)
  {
    var f := FindOwned(rs, id, pin);
    if f.None? then DisplayNotFound
    else if !IsActive(f.value.status) then CanOnlyEditActive
    else Display(f.value)
  }

  datatype SuspendResult = SuspendSuccess | SuspendError(message: string)
  {
    function Code(): string
    {
      if SuspendSuccess? then "success" else "error:" + message
    }
  }

  /** The exception `request.status = ...` raises when the lookup found nothing. */
  const NoStatusOnNone := "'NoneType' object has no attribute 'status'"

  /** `request.status = 'suspended'`; `updated_at` is refreshed only when the status really changes. */
  function SuspendRow(x: Request, now: int): Request
  {
    if x.status == Suspended then x else x.(status := Suspended, updatedAt := now)
  }

  /** The `requests` table after request `id` is suspended. */
  function Suspend(rs: seq<Request>, id: int, now: int): (r: seq<Request>)
    ensures |r| == |rs|
    ensures forall j :: 0 <= j < |rs| ==> r[j] == if rs[j].id == id then SuspendRow(rs[j], now) else rs[j]
  {
    MapRow(rs, id, x => SuspendRow(x, now))
  }

  /**
   * `suspend_pin_request`: suspends the owner's request whatever its status;
   * with no such request the attribute access fails and nothing changes.
   */
  method SuspendPinRequest(db: Tables, requestId: int, pin: int, now: int) returns (r: SuspendResult)
    requires db.Valid()
    modifies db
    ensures db.Valid()
    ensures r == SuspendError(NoStatusOnNone) <==> old(FindOwned(db.requests, requestId, pin)).None?
    ensures r == SuspendSuccess <==> old(FindOwned(db.requests, requestId, pin)).Some?
    ensures r.SuspendError? ==> db.requests == old(db.requests)
    ensures r == SuspendSuccess ==> db.requests == Suspend(old(db.requests), requestId, now)
    ensures db.views == old(db.views) && db.shortlist == old(db.shortlist)
    ensures old(db.Consistent()) ==> db.Consistent()
  {
    var f := FindOwned(db.requests, requestId, pin);
    if f.None? {
      return SuspendError(NoStatusOnNone);
    }
    var i := IndexOf(db.requests, RequestId, requestId).value;
    var y := SuspendRow(db.requests[i], now);
    OnlyRowWithId(db.requests, i);
    ReplaceKeepsConsistent(db.requests, i, y, db.views, db.shortlist);
    assert db.requests[i := y] == Suspend(db.requests, requestId, now);
    db.requests := db.requests[i := y];
    r := SuspendSuccess;
  }

  /** After a suspension the request is still found, is suspended, and can no longer be edited. */
  lemma SuspendCloses(rs: seq<Request>, id: int, pin: int, now: int)
    requires StrictlyAscending(rs, RequestId)
    requires FindOwned(rs, id, pin).Some?
    ensures StrictlyAscending(Suspend(rs, id, now), RequestId)
    ensures FindOwned(Suspend(rs, id, now), id, pin).Some?
    ensures FindOwned(Suspend(rs, id, now), id, pin).value.status == Suspended
    ensures GetRequestForDisplay(Suspend(rs, id, now), id, pin) == CanOnlyEditActive
  {
    var j :| 0 <= j < |rs| && rs[j] == FindOwned(rs, id, pin).value;
    var y := SuspendRow(rs[j], now);
    OnlyRowWithId(rs, j);
    assert Suspend(rs, id, now) == rs[j := y];
    FoundAfterReplace(rs, j, y);
  }

  /** A value of `update_data`: `None`, a string, or a date (a day number). */
  datatype Value = NoValue | Text(text: string) | Day(day: int)

  /** One `field=value` keyword argument of `update_pin_request`. */
  datatype FieldUpdate = FieldUpdate(field: string, value: Value)

  /** The columns `update_pin_request` may change. */
  const AllowedFields: seq<string> := ["title", "description", "category", "urgency", "location", "preferred_date"]

  /** An allow-listed, non-`None` value has its column's type: a date for `preferred_date`, a string otherwise. */
  predicate WellTyped(u: FieldUpdate)
  {
    u.field in AllowedFields && u.value != NoValue ==>
      if u.field == "preferred_date" then u.value.Day? else u.value.Text?
  }

  /** The update entry takes effect: the field is allow-listed and the value is not `None`. */
  predicate Effective(u: FieldUpdate)
  {
    u.field in AllowedFields && u.value != NoValue
  }

  /** `setattr(request, field, value)` for an allow-listed field. */
  function SetField(x: Request, field: string, v: Value): Request
    requires field in AllowedFields && WellTyped(FieldUpdate(field, v)) && v != NoValue
  {
    if field == "title" then x.(title := v.text)
    else if field == "description" then x.(description := v.text)
    else if field == "category" then x.(category := v.text)
    else if field == "urgency" then x.(urgency := v.text)
    else if field == "location" then x.(location := Some(v.text))
    else x.(preferredDate := Some(v.day))
  }

  /** Every entry of `us` is well typed. */
  predicate AllWellTyped(us: seq<FieldUpdate>)
  {
    forall k :: 0 <= k < |us| ==> WellTyped(us[k])
  }

  /** The row after the loop of `update_pin_request` has gone through `us` in order. */
  function ApplyAll(x: Request, us: seq<FieldUpdate>): Request
    requires AllWellTyped(us)
  {
    if us == [] then x
    else
      var y := ApplyAll(x, us[..|us| - 1]);
      var u := us[|us| - 1];
      if Effective(u) then SetField(y, u.field, u.value) else y
  }

  /** The last effective value supplied for `field`, if any: the one that wins. */
  function Supplied(us: seq<FieldUpdate>, field: string): (r: Option<Value>)
    ensures r.Some? ==> exists k :: 0 <= k < |us| && us[k].field == field && Effective(us[k]) && us[k].value == r.value
                                   && forall j :: k < j < |us| ==> !(us[j].field == field && Effective(us[j]))
    ensures r.None? <==> forall k :: 0 <= k < |us| ==> !(us[k].field == field && Effective(us[k]))
  {
    if us == [] then None
    else if us[|us| - 1].field == field && Effective(us[|us| - 1]) then Some(us[|us| - 1].value)
    else
      var r := Supplied(us[..|us| - 1], field);
      assert forall k :: 0 <= k < |us| - 1 ==> us[..|us| - 1][k] == us[k];
      r
  }

  /** The text supplied last for `field`, or `d`. */
  function TextOr(us: seq<FieldUpdate>, field: string, d: string): string
  {
    var s := Supplied(us, field);
    if s.Some? && s.value.Text? then s.value.text else d
  }

  /** The text columns `update_pin_request` may change. */
  predicate TextField(field: string)
  {
    field == "title" || field == "description" || field == "category" || field == "urgency"
  }

  /** The value of text column `field` of `x`. */
  function TextColumn(x: Request, field: string): string
    requires TextField(field)
  {
    if field == "title" then x.title
    else if field == "description" then x.description
    else if field == "category" then x.category
    else x.urgency
  }

  /** `us` without its last entry is still well typed. */
  lemma WellTypedPrefix(us: seq<FieldUpdate>)
    requires us != [] && AllWellTyped(us)
    ensures AllWellTyped(us[..|us| - 1])
  {
    var us' := us[..|us| - 1];
    forall k | 0 <= k < |us'| ensures WellTyped(us'[k]) {
      assert us'[k] == us[k];
    }
  }

  /** A text column ends up with the last non-`None` value supplied for it, or keeps its value. */
  lemma {:induction false} ApplyAllText(x: Request, us: seq<FieldUpdate>, field: string)
    requires AllWellTyped(us) && TextField(field)
    ensures TextColumn(ApplyAll(x, us), field) == TextOr(us, field, TextColumn(x, field))
    decreases |us|
  {
    if us != [] {
      var us' := us[..|us| - 1];
      WellTypedPrefix(us);
      ApplyAllText(x, us', field);
      SetTextStep(ApplyAll(x, us'), us[|us| - 1], field);
    }
  }

  /** One step of the loop on a text column: it takes the entry's text when the entry is for it and takes effect. */
  lemma SetTextStep(y: Request, u: FieldUpdate, field: string)
    requires WellTyped(u) && TextField(field)
    ensures Effective(u) ==>
      (TextColumn(SetField(y, u.field, u.value), field) == if u.field == field then u.value.text else TextColumn(y, field))
  {
  }

  /** `location` ends up with the last non-`None` value supplied for it, or keeps its value. */
  lemma {:induction false} ApplyAllLocation(x: Request, us: seq<FieldUpdate>)
    requires AllWellTyped(us)
    ensures ApplyAll(x, us).location ==
      (if Supplied(us, "location").Some? then Some(Supplied(us, "location").value.text) else x.location)
    decreases |us|
  {
    if us != [] {
      WellTypedPrefix(us);
      ApplyAllLocation(x, us[..|us| - 1]);
      assert WellTyped(us[|us| - 1]);
    }
  }

  /** `preferred_date` ends up with the last non-`None` date supplied for it, or keeps its value. */
  lemma {:induction false} ApplyAllPreferredDate(x: Request, us: seq<FieldUpdate>)
    requires AllWellTyped(us)
    ensures ApplyAll(x, us).preferredDate ==
      (if Supplied(us, "preferred_date").Some? then Some(Supplied(us, "preferred_date").value.day) else x.preferredDate)
    decreases |us|
  {
    if us != [] {
      WellTypedPrefix(us);
      ApplyAllPreferredDate(x, us[..|us| - 1]);
      assert WellTyped(us[|us| - 1]);
    }
  }

  /** The update loop never touches the id, the owner, the status, the timestamps or the counters. */
  lemma {:induction false} ApplyAllKeeps(x: Request, us: seq<FieldUpdate>)
    requires AllWellTyped(us)
    ensures var y := ApplyAll(x, us);
      y.id == x.id && y.pinId == x.pinId && y.status == x.status && y.createdAt == x.createdAt &&
      y.updatedAt == x.updatedAt && y.viewCount == x.viewCount && y.shortlistCount == x.shortlistCount
    decreases |us|
  {
    if us != [] {
      WellTypedPrefix(us);
      ApplyAllKeeps(x, us[..|us| - 1]);
    }
  }

  /** The row a successful `update_pin_request` leaves: the loop's changes, then `updated_at = now`. */
  function Edited(x: Request, us: seq<FieldUpdate>, now: int): Request
    requires AllWellTyped(us)
  {
    ApplyAll(x, us).(updatedAt := now)
  }

  /** The `requests` table after a successful update of request `id`. */
  function Edit(rs: seq<Request>, id: int, us: seq<FieldUpdate>, now: int): (r: seq<Request>)
    requires AllWellTyped(us)
    ensures |r| == |rs|
    ensures forall j :: 0 <= j < |rs| ==> r[j] == if rs[j].id == id then Edited(rs[j], us, now) else rs[j]
  {
    MapRow(rs, id, x => Edited(x, us, now))
  }

  datatype UpdateResult = Updated | UpdateNotFound | CanOnlyUpdateActive
  {
    function Code(): string
    {
      match this
      case Updated => "success"
      case UpdateNotFound => "not_found"
      case CanOnlyUpdateActive => "can_only_update_active"
    }
  }

  /**
   * `update_pin_request`: fails with `"not_found"` or
   * `"can_only_update_active"` exactly where `get_request_for_display` does,
   * changing nothing; otherwise applies the allow-listed, non-`None` entries
   * in order and stamps `updated_at`.
   */
  method UpdatePinRequest(db: Tables, requestId: int, pin: int, updates: seq<FieldUpdate>, now: int) returns (r: UpdateResult)
    requires db.Valid()
    requires AllWellTyped(updates)
    modifies db
    ensures db.Valid()
    ensures r == UpdateNotFound <==> old(GetRequestForDisplay(db.requests, requestId, pin)) == DisplayNotFound
    ensures r == CanOnlyUpdateActive <==> old(GetRequestForDisplay(db.requests, requestId, pin)) == CanOnlyEditActive
    ensures r != Updated ==> db.requests == old(db.requests)
    ensures r == Updated ==> db.requests == Edit(old(db.requests), requestId, updates, now)
    ensures db.views == old(db.views) && db.shortlist == old(db.shortlist)
    ensures old(db.Consistent()) ==> db.Consistent()
  {
    var f := FindOwned(db.requests, requestId, pin);
    if f.None? {
      return UpdateNotFound;
    }
    if !IsActive(f.value.status) {
      return CanOnlyUpdateActive;
    }
    var row := f.value;
    var k := 0;
    while k < |updates|
      invariant 0 <= k <= |updates|
      invariant row == ApplyAll(f.value, updates[..k])
    {
      var u := updates[k];
      if u.field in AllowedFields && u.value != NoValue {
        row := SetField(row, u.field, u.value);
      }
      assert updates[..k + 1][..k] == updates[..k];
      k := k + 1;
    }
    assert updates[..|updates|] == updates;
    row := row.(updatedAt := now);
    var i := IndexOf(db.requests, RequestId, requestId).value;
    ApplyAllKeeps(f.value, updates);
    OnlyRowWithId(db.requests, i);
    ReplaceKeepsConsistent(db.requests, i, row, db.views, db.shortlist);
    assert db.requests[i := row] == Edit(db.requests, requestId, updates, now);
    db.requests := db.requests[i := row];
    r := Updated;
  }
}
