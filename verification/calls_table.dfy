/** The calls table (components/calls-table.tsx): its fetch of one page of ten rows with the
    exact count of matching rows, the sort toggle, the page reset on a new filter, the
    previous/next buttons, and the status and score badges of each row. */
module CallsTable {
  import opened Wrappers
  import opened Records
  import opened Seqs
  import opened Text
  import opened Paging
  import opened CallOrder
  import opened CallsFilter
  import CallsRoute

  const ItemsPerPage: int := 10

  /** The component's state. `rows` is what the last successful page read returned. */
  datatype TableState = TableState(
    rows: seq<Call>,
    page: int,
    totalCount: nat,
    error: Option<string>,
    sortField: SortField,
    sortOrder: SortOrder,
    filters: FilterParams)

  const Initial: TableState := TableState([], 1, 0, None, CallStartTime, Desc, NoFilters)

  /** How the store reads a date-input string as an instant when comparing it with
      `call_start_time`; the conversion itself is outside the model. */
  type ToInstant = string -> Timestamp

  function Bound(x: Option<string>, toInstant: ToInstant): Option<Timestamp>
  {
    if Given(x) then Some(toInstant(x.value)) else None
  }

  /** The predicate both the count read and the page read apply: clinic, assistant, the
      inclusive start-time range, and a case-insensitive search on call id or phone number.
      The evaluation status in the filters plays no part. */
  predicate TableMatches(f: FilterParams, toInstant: ToInstant, c: Call)
  {
    && (Given(f.clinicId) ==> c.clinicId == f.clinicId.value)
    && (Given(f.assistantId) ==> c.assistantId == f.assistantId.value)
    && WithinDates(c.callStartTime, Bound(f.startDate, toInstant), Bound(f.endDate, toInstant))
    && (Given(f.searchQuery) ==>
          || ContainsInsensitive(c.callId, f.searchQuery.value)
          || (c.phoneNumber.Some? && ContainsInsensitive(c.phoneNumber.value, f.searchQuery.value)))
  }

  function TableMatchesFn(f: FilterParams, toInstant: ToInstant): Call -> bool
  {
    (c: Call) => TableMatches(f, toInstant, c)
  }

  /** Every matching row in the table's current order. */
  function TableListing(st: TableState, table: seq<Call>, toInstant: ToInstant): seq<Call>
  {
    SortCalls(Filter(table, TableMatchesFn(st.filters, toInstant)), st.sortField, st.sortOrder)
  }

  /** `fetchCalls`. The count read comes first; a failed or empty count reads as 0. Then the
      page read: on failure the error message is recorded and the rows stay as they were,
      otherwise the rows become `range((page - 1) * 10, page * 10 - 1)` of the listing
      (`data: null` reads as no rows) and the error is cleared. */
  function FetchCalls(st: TableState, table: seq<Call>, toInstant: ToInstant,
                      countReply: Reply, pageReply: Reply, message: string): (r: TableState)
    ensures r.page == st.page && r.sortField == st.sortField && r.sortOrder == st.sortOrder
    ensures r.filters == st.filters
    ensures r.totalCount == if countReply == Served then Count(table, TableMatchesFn(st.filters, toInstant)) else 0
    ensures r.error.Some? <==> pageReply == Errored
    ensures pageReply == Errored ==> r.rows == st.rows && r.error == Some(message)
    ensures pageReply == NullData ==> r.rows == []
    ensures pageReply == Served ==> r.rows == Page(TableListing(st, table, toInstant), st.page, ItemsPerPage)
    ensures pageReply == Served ==> |r.rows| <= ItemsPerPage
    ensures pageReply == Served ==> forall c :: c in r.rows ==> c in table && TableMatches(st.filters, toInstant, c)
    ensures pageReply == Served ==> forall i, j :: 0 <= i < j < |r.rows| ==>
              KeyLe(KeyOf(r.rows[i], st.sortField), KeyOf(r.rows[j], st.sortField), st.sortOrder)
  {
    var fn := TableMatchesFn(st.filters, toInstant);
    var count := if countReply == Served then Count(table, fn) else 0;
    match pageReply
    case Errored => st.(totalCount := count, error := Some(message))
    case NullData => st.(rows := [], totalCount := count, error := None)
    case Served =>
      TableWindow(st, table, toInstant);
      st.(rows := Page(TableListing(st, table, toInstant), st.page, ItemsPerPage), totalCount := count, error := None)
  }

  /** The window of the listing for the current page: at most ten matching table rows, in
      the table's order. */
  lemma TableWindow(st: TableState, table: seq<Call>, toInstant: ToInstant)
    ensures var w := Page(TableListing(st, table, toInstant), st.page, ItemsPerPage);
      && |w| <= ItemsPerPage
      && (forall c :: c in w ==> c in table && TableMatches(st.filters, toInstant, c))
      && (forall i, j :: 0 <= i < j < |w| ==>
            KeyLe(KeyOf(w[i], st.sortField), KeyOf(w[j], st.sortField), st.sortOrder))
  {
    var matching := Filter(table, TableMatchesFn(st.filters, toInstant));
    var rows := TableListing(st, table, toInstant);
    assert forall c :: c in rows ==> c in matching by {
      forall c | c in rows ensures c in matching {
        assert c in multiset(rows);
      }
    }
    PageOrder(rows, st.page, ItemsPerPage, CallLe(st.sortField, st.sortOrder));
  }

  /** `Math.ceil(totalCount / 10)`. */
  function TotalPages(st: TableState): (r: nat)
    ensures PageCountFor(st.totalCount, ItemsPerPage, r)
  {
    CeilDiv(st.totalCount, ItemsPerPage)
  }

  /** A new filter map from the panel: back to page 1. */
  function HandleFilter(st: TableState, f: FilterParams): (r: TableState)
    ensures r.filters == f && r.page == 1
    ensures r.rows == st.rows && r.totalCount == st.totalCount && r.error == st.error
    ensures r.sortField == st.sortField && r.sortOrder == st.sortOrder
  {
    st.(page := 1, filters := f)
  }

  function Flip(o: SortOrder): (r: SortOrder)
    ensures r != o
  {
    if o == Asc then Desc else Asc
  }

  /** A click on a column header: the current column flips its direction, another column
      becomes the sort column, ascending. The page is kept. */
  function HandleSort(st: TableState, field: SortField): (r: TableState)
    ensures r.sortField == field
    ensures field == st.sortField ==> r.sortOrder != st.sortOrder
    ensures field != st.sortField ==> r.sortOrder == Asc
    ensures r.page == st.page && r.filters == st.filters && r.rows == st.rows
    ensures r == st.(sortField := r.sortField, sortOrder := r.sortOrder)
  {
    if field == st.sortField then st.(sortOrder := Flip(st.sortOrder))
    else st.(sortField := field, sortOrder := Asc)
  }

  /** "Anterior": one page back, never below 1. */
  function Previous(st: TableState): (r: TableState)
    ensures r.page >= 1
    ensures st.page > 1 ==> r.page == st.page - 1
    ensures st.page <= 1 ==> r.page == 1
    ensures r == st.(page := r.page)
  {
    st.(page := Max(1, st.page - 1))
  }

  /** "Siguiente": one page on, never past the last page, so a table with no pages goes to
      page 0. */
  function Next(st: TableState): (r: TableState)
    ensures r.page <= TotalPages(st)
    ensures st.page < TotalPages(st) ==> r.page == st.page + 1
    ensures st.page >= TotalPages(st) ==> r.page == TotalPages(st)
    ensures TotalPages(st) == 0 && st.page >= 0 ==> r.page == 0
    ensures r == st.(page := r.page)
  {
    st.(page := Min(TotalPages(st), st.page + 1))
  }

  /** The status badge of a row. */
  datatype Badge = DefaultBadge | SecondaryBadge | DestructiveBadge

  datatype EvaluationLabel = Evaluado | EnProceso | Pendiente

  function LabelText(l: EvaluationLabel): string
  {
    match l
    case Evaluado => "Evaluado"
    case EnProceso => "En Proceso"
    case Pendiente => "Pendiente"
  }

  datatype StatusView = StatusView(text: EvaluationLabel, color: Badge, textColor: string)

  /** `getEvaluationStatus`: both scores truthy, only the human score truthy, or neither. */
  function EvaluationStatus(c: Call): (v: StatusView)
    ensures v.text == Evaluado <==> Truthy(c.humanScore) && Truthy(c.llmScore)
    ensures v.text == EnProceso <==> Truthy(c.humanScore) && !Truthy(c.llmScore)
    ensures v.text == Pendiente <==> !Truthy(c.humanScore)
    ensures v.color == DefaultBadge <==> v.text == Evaluado
    ensures v.color == DestructiveBadge <==> v.text == Pendiente
  {
    if Truthy(c.humanScore) && Truthy(c.llmScore) then StatusView(Evaluado, DefaultBadge, "text-green-600")
    else if Truthy(c.humanScore) then StatusView(EnProceso, SecondaryBadge, "text-blue-600")
    else StatusView(Pendiente, DestructiveBadge, "text-red-600")
  }

  /** `getScoreColor` of the table (a 0..100 score): missing or 0 is neutral, above 80 is the
      default badge, below 50 destructive, the rest neutral. */
  function ScoreBadge(score: Option<int>): (b: Badge)
    ensures b == DefaultBadge <==> Truthy(score) && score.value > 80
    ensures b == DestructiveBadge <==> Truthy(score) && score.value < 50
    ensures b == SecondaryBadge <==> !Truthy(score) || 50 <= score.value <= 80
  {
    if !Truthy(score) then SecondaryBadge
    else if score.value > 80 then DefaultBadge
    else if score.value < 50 then DestructiveBadge
    else SecondaryBadge
  }

  // ---------------------------------------------------------------------------------------
  // Properties

  /** Clicking the same header twice restores the state. */
  lemma SortTwiceRestores(st: TableState)
    ensures HandleSort(HandleSort(st, st.sortField), st.sortField) == st
  {
  }

  /** Reachable pages: the pager keeps the page at 0 or more; with at least one page it keeps
      the page within 1..TotalPages. */
  lemma PagerKeepsRange(st: TableState)
    requires st.page >= 0
    ensures Previous(st).page >= 0 && Next(st).page >= 0
    ensures 1 <= st.page <= TotalPages(st) ==>
              1 <= Previous(st).page <= TotalPages(st) && 1 <= Next(st).page <= TotalPages(st)
  {
  }

  /** Next then Previous returns to the same page whenever Next could move. */
  lemma NextThenPrevious(st: TableState)
    requires 1 <= st.page < TotalPages(st)
    ensures Previous(Next(st)) == st
  {
  }

  /** Fetching pages 1..TotalPages after a served count, every other part of the state
      fixed, shows the consecutive windows of one listing, and those windows read one after
      the other list every matching row exactly once, in the table's order. */
  lemma {:induction false} TablePagesComplete(st: TableState, table: seq<Call>, toInstant: ToInstant,
                                             countReply: Reply, message: string)
    requires st.totalCount == Count(table, TableMatchesFn(st.filters, toInstant))
    ensures forall k :: 1 <= k <= TotalPages(st) ==>
              FetchCalls(st.(page := k), table, toInstant, countReply, Served, message).rows
                == Page(TableListing(st, table, toInstant), k, ItemsPerPage)
    ensures Pages(TableListing(st, table, toInstant), ItemsPerPage, TotalPages(st)) == TableListing(st, table, toInstant)
    ensures multiset(TableListing(st, table, toInstant)) == multiset(Filter(table, TableMatchesFn(st.filters, toInstant)))
  {
    forall k | 1 <= k <= TotalPages(st)
      ensures FetchCalls(st.(page := k), table, toInstant, countReply, Served, message).rows
                == Page(TableListing(st, table, toInstant), k, ItemsPerPage)
    {
      assert TableListing(st.(page := k), table, toInstant) == TableListing(st, table, toInstant);
    }
    PagingComplete(TableListing(st, table, toInstant), ItemsPerPage);
  }

  /** The route's filter for the table's filter map, with the date strings read as instants. */
  function RouteFilter(f: FilterParams, toInstant: ToInstant): CallsRoute.CallFilter
  {
    CallsRoute.CallFilter(f.clinicId, f.assistantId, Bound(f.startDate, toInstant), Bound(f.endDate, toInstant), None, None)
  }

  /** Without a search term the table and the list endpoint select the same rows; the table
      never looks at the evaluation status. */
  lemma TableAgreesWithRoute(f: FilterParams, toInstant: ToInstant, c: Call)
    requires !Given(f.searchQuery)
    ensures TableMatches(f, toInstant, c) <==> CallsRoute.Matches(RouteFilter(f, toInstant), c)
    ensures forall s :: TableMatches(f.(evaluationStatus := s), toInstant, c) == TableMatches(f, toInstant, c)
  {
  }
}
