/** The records the dashboard reads and writes (lib/supabase.ts), the store's reply to a
    read, and the JSON responses of the API routes. */
module Records {
  import opened Wrappers

  /** An instant, in milliseconds since the Unix epoch, UTC. The store compares instants
      in this order. */
  type Timestamp = int

  const MillisPerDay: int := 86_400_000

  /** The UTC calendar day of an instant, as days since the epoch. This is the day key that
      `new Date(t).toISOString().split("T")[0]` produces; Dafny's `/` rounds down for a
      positive divisor, as the calendar does for instants before the epoch. */
  function DayOf(t: Timestamp): (d: int)
    ensures d * MillisPerDay <= t < (d + 1) * MillisPerDay
  {
    t / MillisPerDay
  }

  datatype AgentType = Inbound | Outbound

  /** A clinic, or the `{id, name}` of a clinic or assistant joined onto a call row. */
  datatype Named = Named(id: string, name: string)

  datatype Assistant = Assistant(id: string, name: string, clinicId: string)

  /** One call row as the API returns it, joined with its clinic and assistant
      (`clinic` / `assistant` are `None` when the join finds nothing).
      `callStartTime` is declared twice in the source record type, once nullable;
      the model takes the nullable reading. `assistantId`, `createdAt` and `transcript` are
      columns the routes query but the record type omits; `phoneNumber` is the column the
      table's search consults. */
  datatype Call = Call(
    id: string,
    clinicId: string,
    assistantId: string,
    callId: string,
    agentType: AgentType,
    audioUrl: Option<string>,
    duration: Option<int>,
    callReason: Option<string>,
    summary: Option<string>,
    callEndedTime: Option<Timestamp>,
    evaluated: bool,
    qaCheck: bool,
    reviewer: Option<string>,
    commentsEngineer: Option<string>,
    humanScore: Option<int>,
    humanComment: Option<string>,
    llmScore: Option<int>,
    llmComment: Option<string>,
    callStartTime: Option<Timestamp>,
    createdAt: Timestamp,
    transcript: Option<string>,
    phoneNumber: Option<string>,
    clinic: Option<Named>,
    assistant: Option<Named>)

  /** Which joined record a per-assistant or per-clinic breakdown looks at. */
  datatype Dimension = ByAssistant | ByClinic

  /** The joined assistant or clinic of a call. */
  function Joined(c: Call, dim: Dimension): Option<Named>
  {
    if dim == ByAssistant then c.assistant else c.clinic
  }

  /** JavaScript truthiness of a nullable score: present and not zero. */
  predicate Truthy(score: Option<int>)
  {
    score.Some? && score.value != 0
  }

  /** `score || 0`: a missing score counts as zero (a zero score stays zero). */
  function OrZero(score: Option<int>): (v: int)
    ensures Truthy(score) ==> v == score.value
    ensures !Truthy(score) ==> v == 0
  {
    score.GetOr(0)
  }

  /** JavaScript truthiness of a nullable string parameter: present and non-empty. */
  predicate Given(s: Option<string>)
  {
    s.Some? && s.value != ""
  }

  /** The inclusive date-range conjuncts `gte(column, start)` and `lte(column, end)`: an absent
      bound imposes nothing, a present one excludes rows whose column is null. */
  predicate WithinDates(t: Option<Timestamp>, start: Option<Timestamp>, end: Option<Timestamp>)
  {
    && (start.Some? ==> t.Some? && start.value <= t.value)
    && (end.Some? ==> t.Some? && t.value <= end.value)
  }

  /** How the store answered one read: with rows, with `data: null` and no error, or with an
      error. The rows themselves are what the model computes from the table contents. */
  datatype Reply = Served | NullData | Errored

  /** A route's JSON answer: the payload with status 200, or `{ error }` with a status. */
  datatype Response<T> = Ok(body: T) | Failure(status: int, error: string)
}
