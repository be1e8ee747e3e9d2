/**
 * The three tables the request lifecycle works on — `requests`,
 * `pin_request_views` and `csr_shortlist` — held together by one object
 * (`Tables`), with the lookups the services share and the invariant that
 * ties the denormalised counters of a request to the rows that reference it.
 */
module Database {
  import opened Wrappers
  import opened Rows
  import opened Requests

  /** A row of `csr_shortlist`: CSR `csrCompanyId` saved request `requestId` at `addedAt`. */
  datatype ShortlistRow = ShortlistRow(requestId: int, csrCompanyId: int, addedAt: int)

  function AddedAt(s: ShortlistRow): int { s.addedAt }

  /** `Request.query.get(id)`. */
  function FindById(rs: seq<Request>, id: int): (r: Option<Request>)
    ensures r.Some? ==> r.value in rs && r.value.id == id
    ensures r.None? <==> !Exists(rs, id)
  {
    match IndexOf(rs, RequestId, id)
    case None => None
    case Some(i) => Some(rs[i])
  }

  /** `Request.query.filter_by(id=id, pin_id=pinId).first()`: the request, if `pinId` owns it. */
  function FindOwned(rs: seq<Request>, id: int, pinId: int): (r: Option<Request>)
    requires StrictlyAscending(rs, RequestId)
    ensures r.Some? ==> r.value in rs && r.value.id == id && r.value.pinId == pinId
    ensures r.None? <==> forall j :: 0 <= j < |rs| ==> !(rs[j].id == id && rs[j].pinId == pinId)
  {
    var f := FindById(rs, id);
    if f.Some? && f.value.pinId == pinId then f else None
  }

  /** Some row of `rs` has id `id`. */
  ghost predicate Exists(rs: seq<Request>, id: int)
  {
    exists j :: 0 <= j < |rs| && rs[j].id == id
  }

  /** `PINRequestView.query.filter_by(request_id=..., csr_company_id=...).first()` finds a row. */
  predicate HasView(views: seq<ViewRow>, requestId: int, csr: int)
  {
    exists k :: 0 <= k < |views| && views[k].requestId == requestId && views[k].csrCompanyId == csr
  }

  /** `CSRService.query.filter_by(request_id=..., csr_company_id=...).first()` finds a row. */
  predicate HasShortlist(sl: seq<ShortlistRow>, requestId: int, csr: int)
  {
    exists k :: 0 <= k < |sl| && sl[k].requestId == requestId && sl[k].csrCompanyId == csr
  }

  /** The number of view rows that reference request `id`. */
  function ViewsOf(views: seq<ViewRow>, id: int): nat
  {
    if views == [] then 0
    else ViewsOf(views[..|views| - 1], id) + (if views[|views| - 1].requestId == id then 1 else 0)
  }

  /** The number of shortlist rows that reference request `id`. */
  function ShortlistsOf(sl: seq<ShortlistRow>, id: int): nat
  {
    if sl == [] then 0
    else ShortlistsOf(sl[..|sl| - 1], id) + (if sl[|sl| - 1].requestId == id then 1 else 0)
  }

  lemma ViewsOfAppend(views: seq<ViewRow>, v: ViewRow, id: int)
    ensures ViewsOf(views + [v], id) == ViewsOf(views, id) + (if v.requestId == id then 1 else 0)
  {
    assert (views + [v])[..|views|] == views;
  }

  lemma ShortlistsOfAppend(sl: seq<ShortlistRow>, s: ShortlistRow, id: int)
    ensures ShortlistsOf(sl + [s], id) == ShortlistsOf(sl, id) + (if s.requestId == id then 1 else 0)
  {
    assert (sl + [s])[..|sl|] == sl;
  }

  /** Counting distributes over concatenation. */
  lemma {:induction false} ShortlistsOfConcat(a: seq<ShortlistRow>, b: seq<ShortlistRow>, id: int)
    ensures ShortlistsOf(a + b, id) == ShortlistsOf(a, id) + ShortlistsOf(b, id)
    decreases |b|
  {
    if b != [] {
      var b' := b[..|b| - 1];
      assert a + b == (a + b') + [b[|b| - 1]];
      ShortlistsOfAppend(a + b', b[|b| - 1], id);
      ShortlistsOfConcat(a, b', id);
      assert b == b' + [b[|b| - 1]];
      ShortlistsOfAppend(b', b[|b| - 1], id);
    } else {
      assert a + b == a;
    }
  }

  /** Deleting row `k` lowers the count of its request by one and leaves the others alone. */
  lemma ShortlistsOfRemove(sl: seq<ShortlistRow>, k: nat, id: int)
    requires k < |sl|
    ensures ShortlistsOf(sl[..k] + sl[k + 1..], id) == ShortlistsOf(sl, id) - (if sl[k].requestId == id then 1 else 0)
  {
    assert sl == sl[..k] + ([sl[k]] + sl[k + 1..]);
    ShortlistsOfConcat(sl[..k], [sl[k]] + sl[k + 1..], id);
    ShortlistsOfConcat([sl[k]], sl[k + 1..], id);
    ShortlistsOfConcat(sl[..k], sl[k + 1..], id);
    assert ShortlistsOf([sl[k]], id) == (if sl[k].requestId == id then 1 else 0) by {
      assert [sl[k]] == [] + [sl[k]];
      ShortlistsOfAppend([], sl[k], id);
    }
  }

  /** The table after the row whose id is `id`, if any, is replaced by `f` of itself. */
  function MapRow(rs: seq<Request>, id: int, f: Request -> Request): (r: seq<Request>)
    ensures |r| == |rs|
    ensures forall j :: 0 <= j < |rs| ==> r[j] == if rs[j].id == id then f(rs[j]) else rs[j]
  {
    if rs == [] then []
    else [if rs[0].id == id then f(rs[0]) else rs[0]] + MapRow(rs[1..], id, f)
  }

  /** In ascending id order, row `i` is the only row with its id. */
  lemma OnlyRowWithId(rs: seq<Request>, i: int)
    requires StrictlyAscending(rs, RequestId) && 0 <= i < |rs|
    ensures forall j :: 0 <= j < |rs| && j != i ==> rs[j].id != rs[i].id
  {
  }

  /** Replacing row `i` by a row with the same id keeps the ids ascending. */
  lemma ReplaceKeepsAscending(rs: seq<Request>, i: int, y: Request)
    requires StrictlyAscending(rs, RequestId) && 0 <= i < |rs| && y.id == rs[i].id
    ensures StrictlyAscending(rs[i := y], RequestId)
  {
    var rs' := rs[i := y];
    forall a, b | 0 <= a < b < |rs'| ensures rs'[a].id < rs'[b].id {
      assert rs'[a].id == rs[a].id && rs'[b].id == rs[b].id;
    }
  }

  /** After row `i` is replaced by a row with the same id, the owner's lookup finds the new row. */
  lemma FoundAfterReplace(rs: seq<Request>, i: int, y: Request)
    requires StrictlyAscending(rs, RequestId) && 0 <= i < |rs| && y.id == rs[i].id
    ensures StrictlyAscending(rs[i := y], RequestId)
    ensures FindOwned(rs[i := y], y.id, y.pinId) == Some(y)
  {
    ReplaceKeepsAscending(rs, i, y);
    IndexOfUnique(rs[i := y], RequestId, y.id, i);
  }

  /** Two tables with the same ids, row for row, have the same ids. */
  lemma SameIdsExist(rs: seq<Request>, rs': seq<Request>)
    requires |rs'| == |rs| && forall j :: 0 <= j < |rs| ==> rs'[j].id == rs[j].id
    ensures forall x :: Exists(rs', x) == Exists(rs, x)
  {
    forall x ensures Exists(rs', x) == Exists(rs, x) {
      if Exists(rs, x) {
        var j :| 0 <= j < |rs| && rs[j].id == x;
        assert rs'[j].id == x;
      }
      if Exists(rs', x) {
        var j :| 0 <= j < |rs'| && rs'[j].id == x;
        assert rs[j].id == x;
      }
    }
  }

  /** Each request's counters equal the number of view and shortlist rows that reference it. */
  ghost predicate CountersMatch(rs: seq<Request>, views: seq<ViewRow>, sl: seq<ShortlistRow>)
  {
    forall j :: 0 <= j < |rs| ==>
      rs[j].viewCount == ViewsOf(views, rs[j].id) && rs[j].shortlistCount == ShortlistsOf(sl, rs[j].id)
  }

  /** Every view and shortlist row references an existing request. */
  ghost predicate RowsReference(rs: seq<Request>, views: seq<ViewRow>, sl: seq<ShortlistRow>)
  {
    && (forall k :: 0 <= k < |views| ==> Exists(rs, views[k].requestId))
    && (forall k :: 0 <= k < |sl| ==> Exists(rs, sl[k].requestId))
  }

  /** At most one view row per (request, CSR) pair. */
  ghost predicate ViewPairsUnique(views: seq<ViewRow>)
  {
    forall a, b :: 0 <= a < b < |views| ==>
      !(views[a].requestId == views[b].requestId && views[a].csrCompanyId == views[b].csrCompanyId)
  }

  /** At most one shortlist row per (request, CSR) pair. */
  ghost predicate ShortlistPairsUnique(sl: seq<ShortlistRow>)
  {
    forall a, b :: 0 <= a < b < |sl| ==>
      !(sl[a].requestId == sl[b].requestId && sl[a].csrCompanyId == sl[b].csrCompanyId)
  }

  /** The invariant the tracking operations keep. */
  ghost predicate TablesConsistent(rs: seq<Request>, views: seq<ViewRow>, sl: seq<ShortlistRow>)
  {
    CountersMatch(rs, views, sl) && RowsReference(rs, views, sl) && ViewPairsUnique(views) && ShortlistPairsUnique(sl)
  }

  /** `rs'` holds the same requests as `rs`, row for row, with only non-counter columns possibly changed. */
  ghost predicate SameIdsAndCounters(rs: seq<Request>, rs': seq<Request>)
  {
    |rs'| == |rs| &&
    forall j :: 0 <= j < |rs| ==>
      rs'[j].id == rs[j].id && rs'[j].viewCount == rs[j].viewCount && rs'[j].shortlistCount == rs[j].shortlistCount
  }

  /** Editing columns other than the id and the counters keeps the tables consistent. */
  lemma ConsistentAfterEdit(rs: seq<Request>, rs': seq<Request>, views: seq<ViewRow>, sl: seq<ShortlistRow>)
    requires TablesConsistent(rs, views, sl)
    requires SameIdsAndCounters(rs, rs')
    ensures TablesConsistent(rs', views, sl)
  {
    forall id | Exists(rs, id) ensures Exists(rs', id) {
      var j :| 0 <= j < |rs| && rs[j].id == id;
      assert rs'[j].id == id;
    }
  }

  /** Replacing row `i` by a row with the same id and counters keeps the ids ascending and the tables consistent. */
  lemma ReplaceKeepsConsistent(rs: seq<Request>, i: int, y: Request, views: seq<ViewRow>, sl: seq<ShortlistRow>)
    requires StrictlyAscending(rs, RequestId) && 0 <= i < |rs|
    requires y.id == rs[i].id && y.viewCount == rs[i].viewCount && y.shortlistCount == rs[i].shortlistCount
    ensures StrictlyAscending(rs[i := y], RequestId)
    ensures TablesConsistent(rs, views, sl) ==> TablesConsistent(rs[i := y], views, sl)
  {
    ReplaceKeepsAscending(rs, i, y);
    if TablesConsistent(rs, views, sl) {
      ConsistentAfterEdit(rs, rs[i := y], views, sl);
    }
  }

  /** A new request gets an id no tracking row mentions, so its zero counters are right. */
  lemma ConsistentAfterInsert(rs: seq<Request>, views: seq<ViewRow>, sl: seq<ShortlistRow>, r: Request)
    requires TablesConsistent(rs, views, sl)
    requires StrictlyAscending(rs, RequestId)
    requires r.id == NextId(rs, RequestId) && r.viewCount == 0 && r.shortlistCount == 0
    ensures TablesConsistent(rs + [r], views, sl)
  {
    var rs' := rs + [r];
    assert CountersMatch(rs', views, sl) by {
      NoRowsForFreshId(rs, views, sl, r.id, |views|, |sl|);
      assert views[..|views|] == views && sl[..|sl|] == sl;
      forall j | 0 <= j < |rs'|
        ensures rs'[j].viewCount == ViewsOf(views, rs'[j].id) && rs'[j].shortlistCount == ShortlistsOf(sl, rs'[j].id)
      {
        if j < |rs| {
          assert rs'[j] == rs[j];
        }
      }
    }
    assert RowsReference(rs', views, sl) by {
      forall id | Exists(rs, id) ensures Exists(rs', id) {
        var j :| 0 <= j < |rs| && rs[j].id == id;
        assert rs'[j].id == id;
      }
    }
  }

  /** No row among the first `n` view rows and `m` shortlist rows references an id larger than every request id. */
  lemma {:induction false} NoRowsForFreshId(rs: seq<Request>, views: seq<ViewRow>, sl: seq<ShortlistRow>, id: int, n: nat, m: nat)
    requires RowsReference(rs, views, sl)
    requires forall j :: 0 <= j < |rs| ==> rs[j].id < id
    requires n <= |views| && m <= |sl|
    ensures ViewsOf(views[..n], id) == 0 && ShortlistsOf(sl[..m], id) == 0
    decreases n + m
  {
    if n > 0 {
      assert views[..n][..n - 1] == views[..n - 1];
      NoRowsForFreshId(rs, views, sl, id, n - 1, m);
    }
    if m > 0 {
      assert sl[..m][..m - 1] == sl[..m - 1];
      NoRowsForFreshId(rs, views, sl, id, n, m - 1);
    }
    assert views[..|views|] == views;
    assert sl[..|sl|] == sl;
  }

  /** The three tables of the request lifecycle, as the database session sees them. */
  class Tables {
    var requests: seq<Request>
    var views: seq<ViewRow>
    var shortlist: seq<ShortlistRow>

    /** Request ids are a primary key: table order is ascending id order. */
    ghost predicate Valid()
      reads this
    {
      StrictlyAscending(requests, RequestId)
    }

    /** Counters agree with the tracking rows (see `TablesConsistent`). */
    ghost predicate Consistent()
      reads this
    {
      TablesConsistent(requests, views, shortlist)
    }

    /** Empty tables are valid and consistent. */
    constructor ()
      ensures requests == [] && views == [] && shortlist == []
      ensures Valid() && Consistent()
    {
      requests, views, shortlist := [], [], [];
    }
  }
}
