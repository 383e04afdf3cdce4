/** The filter panel (components/calls-filter.tsx): the selections it holds, how it derives
    them from the filters it is opened with, the sparse filter map it emits on "Filter", the
    reset on "Clear", and the assistant choices it offers for the selected clinic. */
module CallsFilter {
  import opened Wrappers
  import opened Records
  import opened Text
  import opened OptionsRoute

  /** The status select: one of its three values. */
  datatype Status = Pending | Evaluated | AllCalls

  /** The emitted filter map; `None` is a key the map does not carry. Dates are the strings
      of the date inputs. */
  datatype FilterParams = FilterParams(
    clinicId: Option<string>,
    assistantId: Option<string>,
    startDate: Option<string>,
    endDate: Option<string>,
    searchQuery: Option<string>,
    evaluationStatus: Option<Status>)

  const NoFilters: FilterParams := FilterParams(None, None, None, None, None, None)

  /** The panel's selections. */
  datatype Panel = Panel(
    selectedClinic: Option<string>,
    selectedAssistant: Option<string>,
    startDate: string,
    endDate: string,
    searchQuery: string,
    evaluationStatus: Status)

  /** `x || null` on an optional string: an empty string becomes null. */
  function NullIfEmpty(x: Option<string>): (r: Option<string>)
    ensures r.Some? <==> Given(x)
    ensures r.Some? ==> r == x
  {
    if Given(x) then x else None
  }

  /** `x || ""` on an optional string. */
  function EmptyIfAbsent(x: Option<string>): (r: string)
    ensures x.Some? ==> r == x.value
    ensures x.None? ==> r == ""
  {
    x.GetOr("")
  }

  /** The selections the panel starts with, read from the filters it is opened with. */
  function Init(f: FilterParams): (p: Panel)
    ensures p.selectedClinic.Some? <==> Given(f.clinicId)
    ensures p.selectedAssistant.Some? <==> Given(f.assistantId)
    ensures p.evaluationStatus == AllCalls <==> f.evaluationStatus.None? || f.evaluationStatus == Some(AllCalls)
    ensures Given(f.clinicId) ==> p.selectedClinic == f.clinicId
    ensures Given(f.assistantId) ==> p.selectedAssistant == f.assistantId
    ensures f.evaluationStatus.Some? ==> p.evaluationStatus == f.evaluationStatus.value
    ensures p.startDate == (if f.startDate.Some? then f.startDate.value else "")
    ensures p.endDate == (if f.endDate.Some? then f.endDate.value else "")
    ensures p.searchQuery == (if f.searchQuery.Some? then f.searchQuery.value else "")
  {
    Panel(
      NullIfEmpty(f.clinicId),
      NullIfEmpty(f.assistantId),
      EmptyIfAbsent(f.startDate),
      EmptyIfAbsent(f.endDate),
      EmptyIfAbsent(f.searchQuery),
      f.evaluationStatus.GetOr(AllCalls))
  }

  /** `...(value && { key: value })` for a nullable selection. */
  function KeepSelected(x: Option<string>): Option<string>
  {
    if Given(x) then x else None
  }

  /** `...(value && { key: value })` for a text input. */
  function KeepText(s: string): Option<string>
  {
    if s != "" then Some(s) else None
  }

  /** The map "Filter" emits: a key for each non-null selection and non-empty date, the status
      unless it is "all", and never the search text. */
  function HandleFilter(p: Panel): (f: FilterParams)
    ensures f.clinicId.Some? <==> Given(p.selectedClinic)
    ensures f.clinicId.Some? ==> f.clinicId == p.selectedClinic
    ensures f.assistantId.Some? <==> Given(p.selectedAssistant)
    ensures f.assistantId.Some? ==> f.assistantId == p.selectedAssistant
    ensures f.startDate.Some? <==> p.startDate != ""
    ensures f.startDate.Some? ==> f.startDate.value == p.startDate
    ensures f.endDate.Some? <==> p.endDate != ""
    ensures f.endDate.Some? ==> f.endDate.value == p.endDate
    ensures f.searchQuery.None?
    ensures f.evaluationStatus.Some? <==> p.evaluationStatus != AllCalls
    ensures f.evaluationStatus.Some? ==> f.evaluationStatus.value == p.evaluationStatus
  {
    FilterParams(
      KeepSelected(p.selectedClinic),
      KeepSelected(p.selectedAssistant),
      KeepText(p.startDate),
      KeepText(p.endDate),
      None,
      if p.evaluationStatus == AllCalls then None else Some(p.evaluationStatus))
  }

  /** "Clear": every selection back to its default except the search text (whose reset is
      disabled in the component), and the empty filter map emitted. */
  function HandleReset(p: Panel): (r: (Panel, FilterParams))
    ensures r.0.selectedClinic.None? && r.0.selectedAssistant.None?
    ensures r.0.startDate == "" && r.0.endDate == "" && r.0.evaluationStatus == AllCalls
    ensures r.0.searchQuery == p.searchQuery
    ensures r.1 == NoFilters
  {
    (Panel(None, None, "", "", p.searchQuery, AllCalls), NoFilters)
  }

  /** A select's value: "all" clears the selection. */
  function Choice(value: string): (r: Option<string>)
    ensures r.None? <==> value == "all"
    ensures r.Some? ==> r.value == value
  {
    if value == "all" then None else Some(value)
  }

  function SelectClinic(p: Panel, value: string): Panel
  {
    p.(selectedClinic := Choice(value))
  }

  function SelectAssistant(p: Panel, value: string): Panel
  {
    p.(selectedAssistant := Choice(value))
  }

  /** The assistant choices for the current clinic selection. Read errors and `data: null`
      both leave no choices. */
  function AssistantChoices(all: seq<Assistant>, p: Panel, reply: Reply): (r: seq<Named>)
    ensures reply != Served ==> r == []
    ensures reply == Served ==> forall x :: x in r <==>
              exists a :: a in all && (Given(p.selectedClinic) ==> a.clinicId == p.selectedClinic.value) && Project(a) == x
    ensures forall i, j :: 0 <= i < j < |r| ==> LexLe(r[i].name, r[j].name)
  {
    if reply == Served then
      var r := ScopedAssistants(all, p.selectedClinic);
      assert forall x :: x in r <==> exists a :: a in all && OfClinic(p.selectedClinic, a) && Project(a) == x by {
        forall x ensures x in r <==> exists a :: a in all && OfClinic(p.selectedClinic, a) && Project(a) == x {
          ScopedExactly(all, p.selectedClinic, x);
        }
      }
      r
    else []
  }

  /** The independent description of what opening the panel with `f` and pressing "Filter"
      emits: `f` without its search text, without an "all" status, and without empty values. */
  function Normalize(f: FilterParams): (g: FilterParams)
    ensures g.searchQuery.None?
    ensures g.evaluationStatus != Some(AllCalls)
  {
    FilterParams(
      NullIfEmpty(f.clinicId),
      NullIfEmpty(f.assistantId),
      NullIfEmpty(f.startDate),
      NullIfEmpty(f.endDate),
      None,
      if f.evaluationStatus == Some(AllCalls) then None else f.evaluationStatus)
  }

  /** Opening the panel with `f` and filtering right away emits `Normalize(f)`. */
  lemma InitThenFilter(f: FilterParams)
    ensures HandleFilter(Init(f)) == Normalize(f)
  {
  }

  /** Normalising twice changes nothing more. */
  lemma NormalizeIdempotent(f: FilterParams)
    ensures Normalize(Normalize(f)) == Normalize(f)
  {
  }

  /** An emitted map is already normal: reopening the panel with it and filtering again emits
      the same map. */
  lemma FilterRoundTrip(p: Panel)
    ensures Normalize(HandleFilter(p)) == HandleFilter(p)
    ensures HandleFilter(Init(HandleFilter(p))) == HandleFilter(p)
  {
    InitThenFilter(HandleFilter(p));
  }

  /** Choosing "all" in a select removes that key from the next emitted map. */
  lemma AllIsOmitted(p: Panel)
    ensures HandleFilter(SelectClinic(p, "all")).clinicId.None?
    ensures HandleFilter(SelectAssistant(p, "all")).assistantId.None?
  {
  }

  /** After "Clear", pressing "Filter" emits the same empty map "Clear" did. */
  lemma ResetThenFilter(p: Panel)
    ensures HandleFilter(HandleReset(p).0) == HandleReset(p).1
  {
  }
}
