/**
 * The CSR controllers that do more than forward a call: the detail view,
 * which records a view of every request it shows to a CSR, and the
 * completed-service search, which hands its category argument to the
 * title filter.
 */
module CsrControllers {
  import opened Wrappers
  import opened Text
  import opened Rows
  import opened Requests
  import opened Database
  import PinService
  import CsrService

  /** Python truthiness of an optional id: not `None` and not 0. */
  predicate TruthyId(o: Option<int>)
  {
    o.Some? && o.value != 0
  }

  /**
   * `CSRViewRequestDetailsController.get_request_details`: looks the request
   * up and, when it was found and a CSR id is given, tracks the view. The
   * request returned is the session's live object, so it is read after the
   * tracking; whether the tracking reported a new or a repeated view does
   * not change what is returned.
   */
  method GetRequestDetails(db: Tables, requestId: int, csr: Option<int>, now: int) returns (r: CsrService.DetailResult)
    requires db.Valid()
    modifies db
    ensures db.Valid()
    ensures r == CsrService.GetRequestDetails(db.requests, requestId)
    ensures r.Found? <==> old(Exists(db.requests, requestId))
    ensures !(TruthyId(csr) && r.Found?) ==>
      db.requests == old(db.requests) && db.views == old(db.views)
    ensures TruthyId(csr) && r.Found? && !old(HasView(db.views, requestId, csr.value)) ==>
      db.views == old(db.views) + [ViewRow(requestId, csr.value, now)] &&
      db.requests == PinService.RecordView(old(db.requests), requestId, now)
    ensures TruthyId(csr) && r.Found? && old(HasView(db.views, requestId, csr.value)) ==>
      db.requests == old(db.requests) && db.views == old(db.views)
    ensures db.shortlist == old(db.shortlist)
    ensures old(db.Consistent()) ==> db.Consistent()
  {
    var result := CsrService.GetRequestDetails(db.requests, requestId);
    if TruthyId(csr) && result.Found? {
      ghost var rs := db.requests;
      var _ := PinService.TrackView(db, requestId, csr.value, now);
      TrackedRowStillFound(rs, requestId, now);
    }
    r := CsrService.GetRequestDetails(db.requests, requestId);
  }

  /** Tracking a view neither adds nor removes requests. */
  lemma TrackedRowStillFound(rs: seq<Request>, id: int, now: int)
    ensures Exists(PinService.RecordView(rs, id, now), id) == Exists(rs, id)
  {
    var rs' := PinService.RecordView(rs, id, now);
    assert forall j :: 0 <= j < |rs| ==> rs'[j].id == rs[j].id;
    SameIdsExist(rs, rs');
  }

  /**
   * `CSRSearchCompletedServicesController.search_completed_services`: the
   * `search_category` argument is passed on as the title filter, so it is
   * matched against titles, never against categories.
   */
  function SearchCompletedServices(rs: seq<Request>, sl: seq<ShortlistRow>, csr: int,
                                   searchCategory: Option<string>, searchDate: Option<int>): (r: seq<Request>)
    ensures Truthy(searchCategory) ==> forall x :: x in r ==> ContainsFold(x.title, searchCategory.value)
    ensures forall x :: x in r ==> x in rs && x.status == Completed && HasShortlist(sl, x.id, csr)
    ensures SortedDesc(r, UpdatedAt)
    ensures Selects(r, rs, x => CsrService.CompletedServiceMatch(x, sl, csr, searchCategory, searchDate))
  {
    var r := CsrService.SearchCompletedServices(rs, sl, csr, searchCategory, searchDate);
    SelectedMembers(r, rs, x => CsrService.CompletedServiceMatch(x, sl, csr, searchCategory, searchDate));
    r
  }
}
