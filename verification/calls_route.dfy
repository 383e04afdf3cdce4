/** The call-list endpoint (app/api/calls/route.ts): request parameters with their defaults,
    the filter predicate the store applies, the sort, the inclusive `range` window, the exact
    count and the page count. The store's work is modelled as "filter, then sort, then slice"
    over the calls table. */
module CallsRoute {
  import opened Wrappers
  import opened Records
  import opened Seqs
  import opened Text
  import opened Paging
  import opened CallOrder

  const DefaultPage: int := 1
  const DefaultPageSize: int := 10

  /** The filtering query-string parameters, already read. `None` is an absent (or, for the
      string parameters, empty) parameter; dates are already instants. */
  datatype CallFilter = CallFilter(
    clinicId: Option<string>,
    assistantId: Option<string>,
    startDate: Option<Timestamp>,
    endDate: Option<Timestamp>,
    search: Option<string>,
    evaluationStatus: Option<string>)

  /** All query-string parameters of the list endpoint. */
  datatype ListParams = ListParams(
    page: Option<int>,
    pageSize: Option<int>,
    filter: CallFilter,
    sortBy: Option<SortField>,
    sortOrder: Option<string>)

  function PageOf(p: ListParams): int { p.page.GetOr(DefaultPage) }

  function PageSizeOf(p: ListParams): int { p.pageSize.GetOr(DefaultPageSize) }

  function SortFieldOf(p: ListParams): SortField { p.sortBy.GetOr(CallStartTime) }

  /** Only the literal "asc" sorts ascending; anything else, or nothing, sorts descending. */
  function SortOrderOf(p: ListParams): SortOrder
  {
    if p.sortOrder == Some("asc") then Asc else Desc
  }

  /** The four columns the search term is matched against, case-insensitively. */
  predicate SearchHit(c: Call, term: string)
  {
    || (c.transcript.Some? && ContainsInsensitive(c.transcript.value, term))
    || ContainsInsensitive(c.callId, term)
    || (c.assistant.Some? && ContainsInsensitive(c.assistant.value.name, term))
    || (c.clinic.Some? && ContainsInsensitive(c.clinic.value.name, term))
  }

  /** "pending" keeps rows whose human score is null, "evaluated" rows whose human score is
      not null (a zero score included); any other value keeps every row. */
  predicate StatusOk(status: Option<string>, c: Call)
  {
    if status == Some("pending") then c.humanScore.None?
    else if status == Some("evaluated") then c.humanScore.Some?
    else true
  }

  /** The conjunction of the filters the request carries. */
  predicate Matches(f: CallFilter, c: Call)
  {
    && (Given(f.clinicId) ==> c.clinicId == f.clinicId.value)
    && (Given(f.assistantId) ==> c.assistantId == f.assistantId.value)
    && WithinDates(c.callStartTime, f.startDate, f.endDate)
    && (Given(f.search) ==> SearchHit(c, f.search.value))
    && StatusOk(f.evaluationStatus, c)
  }

  function MatchesFn(f: CallFilter): Call -> bool
  {
    (c: Call) => Matches(f, c)
  }

  /** Every matching row of the table, in the requested order: what the pages slice. */
  function Listing(table: seq<Call>, p: ListParams): seq<Call>
  {
    SortCalls(Filter(table, MatchesFn(p.filter)), SortFieldOf(p), SortOrderOf(p))
  }

  datatype ListBody = ListBody(
    calls: seq<Call>,
    totalCalls: nat,
    page: int,
    pageSize: int,
    totalPages: nat)

  /** At most one page of matching table rows, in the order the request asks for. */
  predicate ServableRows(table: seq<Call>, p: ListParams, w: seq<Call>)
  {
    && |w| <= PageSizeOf(p)
    && (forall c :: c in w ==> c in table && Matches(p.filter, c))
    && (forall i, j :: 0 <= i < j < |w| ==>
          KeyLe(KeyOf(w[i], SortFieldOf(p)), KeyOf(w[j], SortFieldOf(p)), SortOrderOf(p)))
  }

  /** GET /api/calls. A store error becomes a 500 with no payload; `data: null` becomes an
      empty list with count 0. Otherwise the page is the inclusive window
      `[(page - 1) * pageSize, (page - 1) * pageSize + pageSize - 1]` of the listing, and the
      count covers every matching row, independent of the page. */
  function ListCalls(table: seq<Call>, p: ListParams, reply: Reply): (r: Response<ListBody>)
    requires PageOf(p) >= 1 && PageSizeOf(p) >= 1
    ensures reply == Errored <==> r.Failure?
    ensures r.Failure? ==> r.status == 500 && r.error == "Failed to fetch calls"
    ensures r.Ok? ==> r.body.page == PageOf(p) && r.body.pageSize == PageSizeOf(p)
    ensures r.Ok? ==> ServableRows(table, p, r.body.calls)
    ensures reply == Served ==> r.body.calls == Page(Listing(table, p), PageOf(p), PageSizeOf(p))
    ensures reply == Served ==> r.body.totalCalls == Count(table, MatchesFn(p.filter))
    ensures reply == NullData ==> r.body.calls == [] && r.body.totalCalls == 0
    ensures r.Ok? ==> PageCountFor(r.body.totalCalls, PageSizeOf(p), r.body.totalPages)
  {
    match reply
    case Errored => Failure(500, "Failed to fetch calls")
    case NullData => Ok(ListBody([], 0, PageOf(p), PageSizeOf(p), 0))
    case Served => Ok(ServedBody(table, p))
  }

  /** The body of a served request: the requested window of the listing, the exact count of
      matching rows and the number of pages that count needs. */
  function ServedBody(table: seq<Call>, p: ListParams): (b: ListBody)
    requires PageOf(p) >= 1 && PageSizeOf(p) >= 1
    ensures b.page == PageOf(p) && b.pageSize == PageSizeOf(p)
    ensures b.calls == Page(Listing(table, p), PageOf(p), PageSizeOf(p))
    ensures ServableRows(table, p, b.calls)
    ensures b.totalCalls == Count(table, MatchesFn(p.filter))
    ensures PageCountFor(b.totalCalls, PageSizeOf(p), b.totalPages)
  {
    var page, size := PageOf(p), PageSizeOf(p);
    var count := Count(table, MatchesFn(p.filter));
    var pages := CeilDiv(count, size);
    assert PageCountFor(count, size, pages);
    ServedWindow(table, p);
    ListBody(Page(Listing(table, p), page, size), count, page, size, pages)
  }

  /** What the requested window of the listing holds: at most a page of matching table rows,
      in listing order. */
  lemma {:induction false} ServedWindow(table: seq<Call>, p: ListParams)
    requires PageOf(p) >= 1 && PageSizeOf(p) >= 1
    ensures ServableRows(table, p, Page(Listing(table, p), PageOf(p), PageSizeOf(p)))
  {
    var f, o := SortFieldOf(p), SortOrderOf(p);
    var matching := Filter(table, MatchesFn(p.filter));
    var rows := Listing(table, p);
    assert forall c :: c in rows ==> c in matching by {
      assert multiset(rows) == multiset(matching);
      forall c | c in rows ensures c in matching {
        assert c in multiset(rows);
      }
    }
    PageContents(rows, PageOf(p), PageSizeOf(p));
    PageOrder(rows, PageOf(p), PageSizeOf(p), CallLe(f, o));
  }

  /** Changing only the page number keeps the listing, so a served request for page `n`
      returns the `n`-th window of the listing `p` selects. */
  lemma PageRowsAreServed(table: seq<Call>, p: ListParams, n: int)
    requires n >= 1 && PageSizeOf(p) >= 1
    ensures ListCalls(table, p.(page := Some(n)), Served).body.calls == Page(Listing(table, p), n, PageSizeOf(p))
  {
    var q := p.(page := Some(n));
    assert Listing(table, q) == Listing(table, p);
  }

  /** Requesting pages 1..totalPages, every other parameter fixed, serves the consecutive
      windows of one listing, and those windows read one after the other are the whole
      listing: every matching row exactly once (as a multiset, the matching rows of the
      table), in listing order. */
  lemma {:induction false} PagingCoversListing(table: seq<Call>, p: ListParams)
    requires PageOf(p) >= 1 && PageSizeOf(p) >= 1
    ensures forall n :: 1 <= n <= ListCalls(table, p, Served).body.totalPages ==>
              ListCalls(table, p.(page := Some(n)), Served).body.calls == Page(Listing(table, p), n, PageSizeOf(p))
    ensures Pages(Listing(table, p), PageSizeOf(p), ListCalls(table, p, Served).body.totalPages) == Listing(table, p)
    ensures multiset(Listing(table, p)) == multiset(Filter(table, MatchesFn(p.filter)))
  {
    var total := ListCalls(table, p, Served).body.totalPages;
    forall n | 1 <= n <= total
      ensures ListCalls(table, p.(page := Some(n)), Served).body.calls == Page(Listing(table, p), n, PageSizeOf(p))
    {
      PageRowsAreServed(table, p, n);
    }
    PagingComplete(Listing(table, p), PageSizeOf(p));
  }

  /** A request with no filter parameters counts, and pages through, the whole table. */
  lemma {:induction false} NoFiltersKeepAll(table: seq<Call>, p: ListParams)
    requires PageOf(p) >= 1 && PageSizeOf(p) >= 1
    requires !Given(p.filter.clinicId) && !Given(p.filter.assistantId) && !Given(p.filter.search)
    requires p.filter.startDate.None? && p.filter.endDate.None? && p.filter.evaluationStatus.None?
    ensures ListCalls(table, p, Served).body.totalCalls == |table|
    ensures multiset(Listing(table, p)) == multiset(table)
  {
    var fn := MatchesFn(p.filter);
    FilterAll(table, fn);
    assert ListCalls(table, p, Served).body.totalCalls == Count(table, fn) == |table|;
    assert multiset(Listing(table, p)) == multiset(Filter(table, fn));
  }

  /** When the store serves a page that starts at or past the last matching row, the page is
      empty and the count is still the full count. */
  lemma PastTheEndIsEmpty(table: seq<Call>, p: ListParams)
    requires PageOf(p) >= 1 && PageSizeOf(p) >= 1
    requires (PageOf(p) - 1) * PageSizeOf(p) >= Count(table, MatchesFn(p.filter))
    ensures ListCalls(table, p, Served) == Ok(ListBody([], Count(table, MatchesFn(p.filter)), PageOf(p), PageSizeOf(p),
                                                       ListCalls(table, p, Served).body.totalPages))
  {
    PageContents(Listing(table, p), PageOf(p), PageSizeOf(p));
  }

  /** The status filter against the truthiness test: a zero human score is "evaluated" here,
      while the table's score badge and the metrics' set of rows with both scores treat it as
      missing. (The metrics' evaluated rate reads the boolean `evaluated` column instead.) */
  lemma ZeroScoreIsEvaluated(c: Call)
    requires c.humanScore == Some(0)
    ensures StatusOk(Some("evaluated"), c) && !StatusOk(Some("pending"), c)
    ensures !Truthy(c.humanScore)
  {
  }
}
