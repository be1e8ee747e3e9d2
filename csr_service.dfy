/**
 * `CSRService`: what a CSR (a company volunteering help) does — browse and
 * search the open requests, look at one, keep a shortlist of them, and look
 * back at the completed services it shortlisted. The shortlist operations are
 * methods on `Database.Tables`; the queries are functions over the tables.
 */
module CsrService {
  import opened Wrappers
  import opened Text
  import opened Rows
  import opened Requests
  import opened Database

  // ----------------------------------------------------------------------
  // Shortlist lookups
  // ----------------------------------------------------------------------

  /** Index of the first shortlist row for the pair, as `filter_by(...).first()` finds it. */
  function FindShortlist(sl: seq<ShortlistRow>, id: int, csr: int): (r: Option<nat>)
    ensures r.Some? ==> r.value < |sl| && sl[r.value].requestId == id && sl[r.value].csrCompanyId == csr
    ensures r.Some? ==> forall k :: 0 <= k < r.value ==> !(sl[k].requestId == id && sl[k].csrCompanyId == csr)
    ensures r.None? <==> !HasShortlist(sl, id, csr)
  {
    if sl == [] then None
    else if sl[0].requestId == id && sl[0].csrCompanyId == csr then Some(0)
    else
      var r := FindShortlist(sl[1..], id, csr);
      assert forall k :: 0 < k < |sl| ==> sl[k] == sl[1..][k - 1];
      if r.Some? then Some(r.value + 1) else None
  }

  /** When CSR `csr` shortlisted request `id` (the `added_at` the shortlist search orders by). */
  function ShortlistedAt(sl: seq<ShortlistRow>, id: int, csr: int): int
  {
    match FindShortlist(sl, id, csr)
    case Some(k) => sl[k].addedAt
    case None => 0
  }

  // ----------------------------------------------------------------------
  // Add and remove
  // ----------------------------------------------------------------------

  datatype AddResult = Added | AlreadyShortlisted | RequestNotFound
  {
    function Code(): string
    {
      match this
      case Added => "success"
      case AlreadyShortlisted => "already_shortlisted"
      case RequestNotFound => "request_not_found"
    }
  }

  /** `request.shortlist_count += 1`; the flush also refreshes `updated_at`. */
  function Shortlisted(x: Request, now: int): Request
  {
    x.(shortlistCount := x.shortlistCount + 1, updatedAt := now)
  }

  /** The `requests` table after the counter of request `id` goes up. */
  function RecordShortlist(rs: seq<Request>, id: int, now: int): (r: seq<Request>)
    ensures |r| == |rs|
    ensures forall j :: 0 <= j < |rs| ==> r[j] == if rs[j].id == id then Shortlisted(rs[j], now) else rs[j]
  {
    MapRow(rs, id, x => Shortlisted(x, now))
  }

  /**
   * `add_to_shortlist`: an existing pair is reported before a missing
   * request, and neither changes anything; otherwise one row is added and
   * the request's counter goes up by one.
   */
  method AddToShortlist(db: Tables, requestId: int, csr: int, now: int) returns (r: AddResult)
    requires db.Valid()
    modifies db
    ensures db.Valid()
    ensures r == AlreadyShortlisted <==> old(HasShortlist(db.shortlist, requestId, csr))
    ensures r == RequestNotFound <==> !old(HasShortlist(db.shortlist, requestId, csr)) && old(FindById(db.requests, requestId)).None?
    ensures r != Added ==> db.requests == old(db.requests) && db.shortlist == old(db.shortlist)
    ensures r == Added ==>
      db.shortlist == old(db.shortlist) + [ShortlistRow(requestId, csr, now)] &&
      db.requests == RecordShortlist(old(db.requests), requestId, now)
    ensures db.views == old(db.views)
    ensures old(db.Consistent()) ==> db.Consistent()
  {
    if HasShortlist(db.shortlist, requestId, csr) {
      return AlreadyShortlisted;
    }
    var found := IndexOf(db.requests, RequestId, requestId);
    if found.None? {
      return RequestNotFound;
    }
    ghost var rs, sl := db.requests, db.shortlist;
    var i := found.value;
    var y := Shortlisted(db.requests[i], now);
    OnlyRowWithId(db.requests, i);
    ReplaceKeepsAscending(db.requests, i, y);
    assert db.requests[i := y] == RecordShortlist(db.requests, requestId, now);
    db.requests := db.requests[i := y];
    db.shortlist := db.shortlist + [ShortlistRow(requestId, csr, now)];
    if TablesConsistent(rs, db.views, sl) {
      AddKeepsConsistent(rs, db.views, sl, requestId, csr, now);
    }
    r := Added;
  }

  /** Adding a new pair for an existing request keeps the counters equal to the row counts. */
  lemma AddKeepsConsistent(rs: seq<Request>, views: seq<ViewRow>, sl: seq<ShortlistRow>, id: int, csr: int, now: int)
    requires TablesConsistent(rs, views, sl)
    requires Exists(rs, id) && !HasShortlist(sl, id, csr)
    ensures TablesConsistent(RecordShortlist(rs, id, now), views, sl + [ShortlistRow(id, csr, now)])
  {
    var rs' := RecordShortlist(rs, id, now);
    var s := ShortlistRow(id, csr, now);
    var sl' := sl + [s];
    forall j | 0 <= j < |rs'|
      ensures rs'[j].viewCount == ViewsOf(views, rs'[j].id) && rs'[j].shortlistCount == ShortlistsOf(sl', rs'[j].id)
    {
      ShortlistsOfAppend(sl, s, rs[j].id);
    }
    assert forall j :: 0 <= j < |rs| ==> rs'[j].id == rs[j].id;
    SameIdsExist(rs, rs');
    forall a, b | 0 <= a < b < |sl'|
      ensures !(sl'[a].requestId == sl'[b].requestId && sl'[a].csrCompanyId == sl'[b].csrCompanyId)
    {
      if b == |sl| {
        assert sl'[a] == sl[a];
      }
    }
  }

  datatype RemoveResult = Removed | RemoveNotFound
  {
    function Code(): string
    {
      if Removed? then "success" else "not_found"
    }
  }

  /** `request.shortlist_count -= 1` only while it is positive; only a real change refreshes `updated_at`. */
  function Unshortlisted(x: Request, now: int): (y: Request)
    ensures x.shortlistCount > 0 ==> y.shortlistCount == x.shortlistCount - 1 && y.updatedAt == now
    ensures x.shortlistCount <= 0 ==> y == x
    ensures y.(shortlistCount := x.shortlistCount, updatedAt := x.updatedAt) == x
  {
    if x.shortlistCount > 0 then x.(shortlistCount := x.shortlistCount - 1, updatedAt := now) else x
  }

  /** The `requests` table after the counter of request `id` is released. */
  function ReleaseShortlist(rs: seq<Request>, id: int, now: int): (r: seq<Request>)
    ensures |r| == |rs|
    ensures forall j :: 0 <= j < |rs| ==> r[j] == if rs[j].id == id then Unshortlisted(rs[j], now) else rs[j]
  {
    MapRow(rs, id, x => Unshortlisted(x, now))
  }

  /** Releasing never drives a counter below zero. */
  lemma ReleaseKeepsCountersNatural(rs: seq<Request>, id: int, now: int)
    requires forall j :: 0 <= j < |rs| ==> rs[j].shortlistCount >= 0
    ensures forall j :: 0 <= j < |rs| ==> ReleaseShortlist(rs, id, now)[j].shortlistCount >= 0
  {
  }

  /**
   * `remove_from_shortlist`: an absent pair is `"not_found"` and changes
   * nothing; otherwise the first row for the pair is deleted and the
   * request's counter goes down by one unless it is already zero.
   */
  method RemoveFromShortlist(db: Tables, requestId: int, csr: int, now: int) returns (r: RemoveResult)
    requires db.Valid()
    modifies db
    ensures db.Valid()
    ensures r == RemoveNotFound <==> !old(HasShortlist(db.shortlist, requestId, csr))
    ensures r == RemoveNotFound ==> db.requests == old(db.requests) && db.shortlist == old(db.shortlist)
    ensures r == Removed ==>
      var k := FindShortlist(old(db.shortlist), requestId, csr).value;
      db.shortlist == old(db.shortlist)[..k] + old(db.shortlist)[k + 1..] &&
      db.requests == ReleaseShortlist(old(db.requests), requestId, now)
    ensures db.views == old(db.views)
    ensures old(db.Consistent()) ==> db.Consistent()
  {
    var at := FindShortlist(db.shortlist, requestId, csr);
    if at.None? {
      return RemoveNotFound;
    }
    ghost var rs, sl := db.requests, db.shortlist;
    var k := at.value;
    var found := IndexOf(db.requests, RequestId, requestId);
    if found.Some? {
      var i := found.value;
      var y := Unshortlisted(db.requests[i], now);
      OnlyRowWithId(db.requests, i);
      ReplaceKeepsAscending(db.requests, i, y);
      assert db.requests[i := y] == ReleaseShortlist(db.requests, requestId, now);
      db.requests := db.requests[i := y];
    } else {
      assert db.requests == ReleaseShortlist(db.requests, requestId, now);
    }
    db.shortlist := db.shortlist[..k] + db.shortlist[k + 1..];
    if TablesConsistent(rs, db.views, sl) {
      RemoveKeepsConsistent(rs, db.views, sl, requestId, csr, now);
    }
    r := Removed;
  }

  /** Deleting a shortlist row and releasing its counter keeps the counters equal to the row counts. */
  lemma RemoveKeepsConsistent(rs: seq<Request>, views: seq<ViewRow>, sl: seq<ShortlistRow>, id: int, csr: int, now: int)
    requires TablesConsistent(rs, views, sl)
    requires HasShortlist(sl, id, csr)
    ensures var k := FindShortlist(sl, id, csr).value;
      TablesConsistent(ReleaseShortlist(rs, id, now), views, sl[..k] + sl[k + 1..])
  {
    var k := FindShortlist(sl, id, csr).value;
    RemoveKeepsCounters(rs, views, sl, k, now);
    RemoveKeepsReferences(rs, views, sl, k, now);
    RemoveKeepsPairsUnique(sl, k);
  }

  /** Deleting row `k` and releasing its request's counter keeps every counter equal to its row count. */
  lemma RemoveKeepsCounters(rs: seq<Request>, views: seq<ViewRow>, sl: seq<ShortlistRow>, k: nat, now: int)
    requires CountersMatch(rs, views, sl)
    requires k < |sl|
    ensures CountersMatch(ReleaseShortlist(rs, sl[k].requestId, now), views, sl[..k] + sl[k + 1..])
  {
    var id := sl[k].requestId;
    var rs' := ReleaseShortlist(rs, id, now);
    var sl' := sl[..k] + sl[k + 1..];
    forall j | 0 <= j < |rs'|
      ensures rs'[j].viewCount == ViewsOf(views, rs'[j].id) && rs'[j].shortlistCount == ShortlistsOf(sl', rs'[j].id)
    {
      ShortlistsOfRemove(sl, k, rs[j].id);
    }
  }

  /** Deleting a shortlist row and releasing a counter keeps every remaining row pointing at a request. */
  lemma RemoveKeepsReferences(rs: seq<Request>, views: seq<ViewRow>, sl: seq<ShortlistRow>, k: nat, now: int)
    requires RowsReference(rs, views, sl)
    requires k < |sl|
    ensures RowsReference(ReleaseShortlist(rs, sl[k].requestId, now), views, sl[..k] + sl[k + 1..])
  {
    var rs' := ReleaseShortlist(rs, sl[k].requestId, now);
    var sl' := sl[..k] + sl[k + 1..];
    assert forall j :: 0 <= j < |rs| ==> rs'[j].id == rs[j].id;
    SameIdsExist(rs, rs');
    forall m | 0 <= m < |sl'| ensures Exists(rs', sl'[m].requestId) {
      assert sl'[m] == sl[if m < k then m else m + 1];
    }
  }

  /** Deleting a row keeps the pairs unique. */
  lemma RemoveKeepsPairsUnique(sl: seq<ShortlistRow>, k: nat)
    requires ShortlistPairsUnique(sl)
    requires k < |sl|
    ensures ShortlistPairsUnique(sl[..k] + sl[k + 1..])
  {
    var sl' := sl[..k] + sl[k + 1..];
    forall a, b | 0 <= a < b < |sl'|
      ensures !(sl'[a].requestId == sl'[b].requestId && sl'[a].csrCompanyId == sl'[b].csrCompanyId)
    {
      assert sl'[a] == sl[if a < k then a else a + 1] && sl'[b] == sl[if b < k then b else b + 1];
    }
  }

  /**
   * Adding a new pair and removing it again gives back the same shortlist
   * rows and the same counters; only the touched request's `updated_at`
   * differs.
   */
  lemma AddThenRemoveRestores(rs: seq<Request>, sl: seq<ShortlistRow>, id: int, csr: int, now: int, later: int)
    requires !HasShortlist(sl, id, csr)
    requires forall j :: 0 <= j < |rs| ==> rs[j].shortlistCount >= 0
    ensures var sl' := sl + [ShortlistRow(id, csr, now)];
      FindShortlist(sl', id, csr) == Some(|sl|) && sl'[..|sl|] + sl'[|sl| + 1..] == sl
    ensures var rs'' := ReleaseShortlist(RecordShortlist(rs, id, now), id, later);
      |rs''| == |rs| &&
      forall j :: 0 <= j < |rs| ==> rs''[j].(updatedAt := rs[j].updatedAt) == rs[j]
  {
    var sl' := sl + [ShortlistRow(id, csr, now)];
    assert sl'[..|sl|] == sl;
    assert HasShortlist(sl', id, csr) by {
      assert sl'[|sl|] == ShortlistRow(id, csr, now);
    }
  }

  /** Add and then remove, as a CSR does when changing their mind. */
  method AddThenRemove(db: Tables, requestId: int, csr: int, now: int, later: int) returns (added: AddResult, removed: RemoveResult)
    requires db.Valid()
    requires !HasShortlist(db.shortlist, requestId, csr) && FindById(db.requests, requestId).Some?
    requires forall j :: 0 <= j < |db.requests| ==> db.requests[j].shortlistCount >= 0
    modifies db
    ensures added == Added && removed == Removed
    ensures db.shortlist == old(db.shortlist) && db.views == old(db.views)
    ensures |db.requests| == |old(db.requests)|
    ensures forall j :: 0 <= j < |db.requests| ==> db.requests[j].(updatedAt := old(db.requests)[j].updatedAt) == old(db.requests)[j]
  {
    AddThenRemoveRestores(db.requests, db.shortlist, requestId, csr, now, later);
    added := AddToShortlist(db, requestId, csr, now);
    assert db.shortlist[|db.shortlist| - 1] == ShortlistRow(requestId, csr, now);
    removed := RemoveFromShortlist(db, requestId, csr, later);
  }

  // ----------------------------------------------------------------------
  // Details
  // ----------------------------------------------------------------------

  datatype DetailResult = Found(request: Request) | NotShortlisted | DetailNotFound
  {
    function Code(): string
      requires !Found?
    {
      if NotShortlisted? then "not_shortlisted" else "not_found"
    }
  }

  /** `get_request_details`: the request with that id, or `"not_found"`. */
  function GetRequestDetails(rs: seq<Request>, id: int): (r: DetailResult)
    ensures r != NotShortlisted
    ensures r == DetailNotFound <==> !Exists(rs, id)
    ensures r.Found? ==> r.request in rs && r.request.id == id
  {
    var f := FindById(rs, id);
    if f.Some? then Found(f.value) else DetailNotFound
  }

  /** `get_shortlisted_request_details`: the shortlist check comes first, then the lookup. */
  function GetShortlistedDetails(rs: seq<Request>, sl: seq<ShortlistRow>, id: int, csr: int): (r: DetailResult)
    ensures r == NotShortlisted <==> !HasShortlist(sl, id, csr)
    ensures r == DetailNotFound <==> HasShortlist(sl, id, csr) && !Exists(rs, id)
    ensures r.Found? ==> r.request in rs && r.request.id == id
  {
    if !HasShortlist(sl, id, csr) then NotShortlisted
    else GetRequestDetails(rs, id)
  }

  /** While every shortlist row references a request, a shortlisted pair never comes back `"not_found"`. */
  lemma ShortlistedIsFound(rs: seq<Request>, views: seq<ViewRow>, sl: seq<ShortlistRow>, id: int, csr: int)
    requires TablesConsistent(rs, views, sl)
    requires HasShortlist(sl, id, csr)
    ensures GetShortlistedDetails(rs, sl, id, csr).Found?
  {
    var k :| 0 <= k < |sl| && sl[k].requestId == id && sl[k].csrCompanyId == csr;
    assert Exists(rs, sl[k].requestId);
  }

  // ----------------------------------------------------------------------
  // Searches
  // ----------------------------------------------------------------------

  /** The `WHERE` of `search_shortlisted_requests`: shortlisted by `csr`, a non-empty term in title or description. */
  predicate ShortlistMatch(x: Request, sl: seq<ShortlistRow>, csr: int, term: Option<string>)
  {
    && HasShortlist(sl, x.id, csr)
    && (Truthy(term) ==> ContainsFold(x.title, term.value) || ContainsFold(x.description, term.value))
  }

  /** `search_shortlisted_requests`, most recently shortlisted first; each request once. */
  function SearchShortlisted(rs: seq<Request>, sl: seq<ShortlistRow>, csr: int, term: Option<string>): (r: seq<Request>)
    ensures SortedDesc(r, (x: Request) => ShortlistedAt(sl, x.id, csr))
    ensures Selects(r, rs, x => ShortlistMatch(x, sl, csr, term))
  {
    SelectDesc(rs, x => ShortlistMatch(x, sl, csr, term), (x: Request) => ShortlistedAt(sl, x.id, csr))
  }

  /** The `WHERE` of `search_available_requests`. */
  predicate AvailableMatch(x: Request, term: Option<string>, category: Option<string>, urgency: Option<string>)
  {
    && (x.status == Pending || x.status == Approved)
    && (Truthy(term) ==>
          ContainsFold(x.title, term.value) || ContainsFold(x.description, term.value) || ContainsFold(x.category, term.value))
    && (Truthy(category) ==> x.category == category.value)
    && (Truthy(urgency) ==> x.urgency == urgency.value)
  }

  /** `search_available_requests`, newest first. */
  function SearchAvailable(rs: seq<Request>, term: Option<string>, category: Option<string>, urgency: Option<string>): (r: seq<Request>)
    ensures SortedDesc(r, CreatedAt)
    ensures Selects(r, rs, x => AvailableMatch(x, term, category, urgency))
  {
    SelectDesc(rs, x => AvailableMatch(x, term, category, urgency), CreatedAt)
  }

  /** What a CSR can find is always an active request, never one in progress. */
  lemma AvailableIsActive(rs: seq<Request>, term: Option<string>, category: Option<string>, urgency: Option<string>)
    ensures forall x :: x in SearchAvailable(rs, term, category, urgency) ==>
      IsActive(x.status) && x.status != InProgress && x in rs
  {
    var r := SearchAvailable(rs, term, category, urgency);
    forall x | x in r ensures IsActive(x.status) && x.status != InProgress && x in rs {
      assert x in multiset(r);
    }
  }

  /** Completed requests that `csr` shortlisted. */
  predicate CompletedFor(x: Request, sl: seq<ShortlistRow>, csr: int)
  {
    HasShortlist(sl, x.id, csr) && x.status == Completed
  }

  /** `get_completed_services_history`, most recently updated first. */
  function CompletedServicesHistory(rs: seq<Request>, sl: seq<ShortlistRow>, csr: int): (r: seq<Request>)
    ensures SortedDesc(r, UpdatedAt)
    ensures Selects(r, rs, x => CompletedFor(x, sl, csr))
  {
    SelectDesc(rs, x => CompletedFor(x, sl, csr), UpdatedAt)
  }

  /** Seconds in a day: `timedelta(days=1)`. */
  const DaySeconds := 86400

  /**
   * The `WHERE` of `search_completed_services`: a non-empty title term, and
   * an `updated_at` inside the given day, `[date, date + 1 day)`.
   */
  predicate CompletedServiceMatch(x: Request, sl: seq<ShortlistRow>, csr: int, title: Option<string>, date: Option<int>)
  {
    && CompletedFor(x, sl, csr)
    && (Truthy(title) ==> ContainsFold(x.title, title.value))
    && (date.Some? ==> date.value * DaySeconds <= x.updatedAt < (date.value + 1) * DaySeconds)
  }

  /** `search_completed_services`, most recently updated first. */
  function SearchCompletedServices(rs: seq<Request>, sl: seq<ShortlistRow>, csr: int, title: Option<string>, date: Option<int>): (r: seq<Request>)
    ensures SortedDesc(r, UpdatedAt)
    ensures Selects(r, rs, x => CompletedServiceMatch(x, sl, csr, title, date))
  {
    SelectDesc(rs, x => CompletedServiceMatch(x, sl, csr, title, date), UpdatedAt)
  }

  /** Searching with neither a title nor a date gives the history. */
  lemma UnfilteredServiceSearchIsHistory(rs: seq<Request>, sl: seq<ShortlistRow>, csr: int)
    ensures SearchCompletedServices(rs, sl, csr, None, None) == CompletedServicesHistory(rs, sl, csr)
  {
    FilterCongruent(rs, x => CompletedServiceMatch(x, sl, csr, None, None), x => CompletedFor(x, sl, csr));
  }

  /** Every search result is in the history: the filters only narrow it. */
  lemma ServiceSearchWithinHistory(rs: seq<Request>, sl: seq<ShortlistRow>, csr: int, title: Option<string>, date: Option<int>)
    ensures forall x :: x in SearchCompletedServices(rs, sl, csr, title, date) ==> x in CompletedServicesHistory(rs, sl, csr)
  {
    var s := SearchCompletedServices(rs, sl, csr, title, date);
    var h := CompletedServicesHistory(rs, sl, csr);
    forall x | x in s ensures x in h {
      assert x in multiset(s);
      assert x in multiset(h);
    }
  }
}
