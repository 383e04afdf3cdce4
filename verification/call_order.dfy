/** How the store orders call rows for `order(field, { ascending })`: the seven sortable
    columns of the calls table, PostgreSQL's default null placement (last when ascending,
    first when descending), and no tiebreak beyond the fixed order of `SortBy`. */
module CallOrder {
  import opened Wrappers
  import opened Records
  import opened Text
  import opened Sorting

  datatype SortField =
    | CallStartTime
    | AssistantName
    | ClinicName
    | Duration
    | HumanScore
    | LlmScore
    | AgentTypeField

  datatype SortOrder = Asc | Desc

  /** A column value as the store compares it. */
  datatype SortKey = NullKey | Num(n: int) | Str(s: string)

  function NumOrNull(v: Option<int>): SortKey
  {
    if v.Some? then Num(v.value) else NullKey
  }

  function NameOrNull(v: Option<Named>): SortKey
  {
    if v.Some? then Str(v.value.name) else NullKey
  }

  function KeyOf(c: Call, f: SortField): SortKey
  {
    match f
    case CallStartTime => NumOrNull(c.callStartTime)
    case AssistantName => NameOrNull(c.assistant)
    case ClinicName => NameOrNull(c.clinic)
    case Duration => NumOrNull(c.duration)
    case HumanScore => NumOrNull(c.humanScore)
    case LlmScore => NumOrNull(c.llmScore)
    case AgentTypeField => Str(if c.agentType == Inbound then "inbound" else "outbound")
  }

  /** Ascending order with nulls last. */
  predicate AscLe(a: SortKey, b: SortKey)
  {
    match (a, b)
    case (_, NullKey) => true
    case (NullKey, _) => false
    case (Num(x), Num(y)) => x <= y
    case (Num(_), Str(_)) => true
    case (Str(_), Num(_)) => false
    case (Str(x), Str(y)) => LexLe(x, y)
  }

  /** `a` may come before `b` in the requested direction; descending reverses the whole
      ascending order, which puts nulls first. */
  predicate KeyLe(a: SortKey, b: SortKey, o: SortOrder)
  {
    if o == Asc then AscLe(a, b) else AscLe(b, a)
  }

  function CallLe(f: SortField, o: SortOrder): (Call, Call) -> bool
  {
    (x: Call, y: Call) => KeyLe(KeyOf(x, f), KeyOf(y, f), o)
  }

  lemma AscLeTotal(a: SortKey, b: SortKey)
    ensures AscLe(a, b) || AscLe(b, a)
  {
    if a.Str? && b.Str? {
      LexLeTotal(a.s, b.s);
    }
  }

  lemma AscLeTransitive(a: SortKey, b: SortKey, c: SortKey)
    requires AscLe(a, b) && AscLe(b, c)
    ensures AscLe(a, c)
  {
    if a.Str? && b.Str? && c.Str? {
      LexLeTransitive(a.s, b.s, c.s);
    }
  }

  /** Every column order, in either direction, is a total preorder on calls. */
  lemma CallLeTotalPreorder(f: SortField, o: SortOrder)
    ensures TotalPreorder(CallLe(f, o))
  {
    var le := CallLe(f, o);
    forall x: Call, y: Call
      ensures le(x, y) || le(y, x)
    {
      AscLeTotal(KeyOf(x, f), KeyOf(y, f));
    }
    forall x: Call, y: Call, z: Call | le(x, y) && le(y, z)
      ensures le(x, z)
    {
      if o == Asc {
        AscLeTransitive(KeyOf(x, f), KeyOf(y, f), KeyOf(z, f));
      } else {
        AscLeTransitive(KeyOf(z, f), KeyOf(y, f), KeyOf(x, f));
      }
    }
  }

  /** The rows reordered by one column: a permutation whose keys never decrease in the
      requested direction. Rows with equal keys keep their relative order. */
  function SortCalls(cs: seq<Call>, f: SortField, o: SortOrder): (r: seq<Call>)
    ensures multiset(r) == multiset(cs)
    ensures forall i, j :: 0 <= i < j < |r| ==> KeyLe(KeyOf(r[i], f), KeyOf(r[j], f), o)
  {
    CallLeTotalPreorder(f, o);
    SortBySorted(cs, CallLe(f, o));
    SortBy(cs, CallLe(f, o))
  }
}
