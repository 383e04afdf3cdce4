/** The dashboard metrics endpoint (app/api/metrics/route.ts): the calls in scope, the
    headline rates and averages, the score gap between human and automatic evaluation, the
    per-day series and the per-assistant and per-clinic averages. */
module MetricsRoute {
  import opened Wrappers
  import opened Records
  import opened Seqs
  import opened Sorting
  import opened Grouping

  /** The query-string parameters; the date bounds apply to `created_at`. */
  datatype MetricsParams = MetricsParams(
    clinicId: Option<string>,
    assistantId: Option<string>,
    startDate: Option<Timestamp>,
    endDate: Option<Timestamp>)

  predicate InScope(p: MetricsParams, c: Call)
  {
    && (Given(p.clinicId) ==> c.clinicId == p.clinicId.value)
    && (Given(p.assistantId) ==> c.assistantId == p.assistantId.value)
    && WithinDates(Some(c.createdAt), p.startDate, p.endDate)
  }

  function InScopeFn(p: MetricsParams): Call -> bool
  {
    (c: Call) => InScope(p, c)
  }

  /** One entry of `scoresOverTime`: a UTC day and the mean scores of that day's calls. */
  datatype DayPoint = DayPoint(day: int, humanScore: real, llmScore: real)

  /** One entry of `scoresByAssistant` or `scoresByClinic`. */
  datatype NameScore = NameScore(name: string, avgScore: real)

  datatype Metrics = Metrics(
    totalCalls: nat,
    successRate: real,
    avgHumanScore: real,
    avgLlmScore: real,
    evaluatedRate: real,
    avgScoreDifference: real,
    highDiscrepancyRate: real,
    scoresOverTime: seq<DayPoint>,
    scoresByAssistant: seq<NameScore>,
    scoresByClinic: seq<NameScore>)

  /** The all-zero answer for an empty scope. */
  const NoMetrics: Metrics := Metrics(0, 0.0, 0.0, 0.0, 0.0, 0.0, 0.0, [], [], [])

  function HumanOrZero(c: Call): int { OrZero(c.humanScore) }

  function LlmOrZero(c: Call): int { OrZero(c.llmScore) }

  /** A call counts as a success when its human score (missing read as 0) is at least 3. */
  predicate Succeeded(c: Call) { HumanOrZero(c) >= 3 }

  predicate WasEvaluated(c: Call) { c.evaluated }

  /** Both scores present and non-zero: only these calls enter the discrepancy figures. */
  predicate BothScored(c: Call) { Truthy(c.humanScore) && Truthy(c.llmScore) }

  function ScoreGap(c: Call): nat
  {
    var d := HumanOrZero(c) - LlmOrZero(c);
    if d < 0 then -d else d
  }

  function GapOf(c: Call): int { ScoreGap(c) }

  predicate HighDiscrepancy(c: Call) { ScoreGap(c) >= 2 }

  /** `n / d` as a proportion of a positive whole. */
  function Fraction(n: nat, d: nat): (r: real)
    requires 0 < d && n <= d
    ensures 0.0 <= r <= 1.0
    ensures r == 0.0 <==> n == 0
    ensures r == 1.0 <==> n == d
  {
    var q := n as real / d as real;
    DivisionBounds(n as real, d as real);
    q
  }

  /** A quotient of a part by a positive whole lies between 0 and 1, at 0 only for an empty
      part and at 1 only for the whole. */
  lemma DivisionBounds(a: real, b: real)
    requires 0.0 <= a <= b && b > 0.0
    ensures 0.0 <= a / b <= 1.0
    ensures a / b == 0.0 <==> a == 0.0
    ensures a / b == 1.0 <==> a == b
  {
    var q := a / b;
    assert q * b == a;
  }

  /** The share of `s` that satisfies `p`. */
  function Share(s: seq<Call>, p: Call -> bool): (r: real)
    requires |s| > 0
    ensures 0.0 <= r <= 1.0
    ensures r == 0.0 <==> forall i :: 0 <= i < |s| ==> !p(s[i])
    ensures r == 1.0 <==> forall i :: 0 <= i < |s| ==> p(s[i])
  {
    ShareBounds(s, p);
    Fraction(Count(s, p), |s|)
  }

  lemma ShareBounds(s: seq<Call>, p: Call -> bool)
    ensures Count(s, p) == 0 <==> forall i :: 0 <= i < |s| ==> !p(s[i])
    ensures Count(s, p) == |s| <==> forall i :: 0 <= i < |s| ==> p(s[i])
  {
    if forall i :: 0 <= i < |s| ==> !p(s[i]) {
      FilterNone(s, p);
    } else {
      var i :| 0 <= i < |s| && p(s[i]);
      assert s[i] in Filter(s, p);
    }
    if forall i :: 0 <= i < |s| ==> p(s[i]) {
      FilterAll(s, p);
    } else {
      var i :| 0 <= i < |s| && !p(s[i]);
      FilterDrops(s, p, i);
    }
  }

  /** The mean absolute difference between human and automatic scores. */
  function GapMean(calls: seq<Call>): (r: real)
    requires |calls| > 0
    ensures 0.0 <= r
    ensures r == 0.0 <==> forall i :: 0 <= i < |calls| ==> HumanOrZero(calls[i]) == LlmOrZero(calls[i])
  {
    SumByNonNegative(calls, GapOf);
    SumByZero(calls, GapOf);
    MeanZero(calls, GapOf);
    Mean(calls, GapOf)
  }

  /** The source's definitions of the headline figures: success and evaluated rates as counts
      over the scope size, averages with missing scores read as 0, and the gap figures over the
      calls with both scores (zero when there are none). */
  predicate HeadlineFigures(calls: seq<Call>, m: Metrics)
    requires |calls| > 0
  {
    var n := |calls| as real;
    var both := Filter(calls, BothScored);
    && m.successRate == Count(calls, Succeeded) as real / n
    && m.evaluatedRate == Count(calls, WasEvaluated) as real / n
    && m.avgHumanScore == SumBy(calls, HumanOrZero) as real / n
    && m.avgLlmScore == SumBy(calls, LlmOrZero) as real / n
    && (|both| == 0 ==> m.avgScoreDifference == 0.0 && m.highDiscrepancyRate == 0.0)
    && (|both| > 0 ==>
          && m.avgScoreDifference == SumBy(both, GapOf) as real / |both| as real
          && m.highDiscrepancyRate == Count(both, HighDiscrepancy) as real / |both| as real)
  }

  /** The headline figures over a non-empty scope. */
  function Headline(calls: seq<Call>): (m: Metrics)
    requires |calls| > 0
    ensures m.totalCalls == |calls|
    ensures 0.0 <= m.successRate <= 1.0 && 0.0 <= m.evaluatedRate <= 1.0
    ensures 0.0 <= m.highDiscrepancyRate <= 1.0 && 0.0 <= m.avgScoreDifference
    ensures m.scoresOverTime == [] && m.scoresByAssistant == [] && m.scoresByClinic == []
    ensures HeadlineFigures(calls, m)
  {
    var both := Filter(calls, BothScored);
    var gap := if |both| > 0 then GapMean(both) else 0.0;
    var high := if |both| > 0 then Share(both, HighDiscrepancy) else 0.0;
    Metrics(
      |calls|,
      Share(calls, Succeeded),
      Mean(calls, HumanOrZero),
      Mean(calls, LlmOrZero),
      Share(calls, WasEvaluated),
      gap,
      high,
      [], [], [])
  }

  // ---------------------------------------------------------------------------------------
  // Scores over time

  /** The UTC day of every call, in row order. */
  function CallDays(calls: seq<Call>): (ds: seq<int>)
    ensures |ds| == |calls|
    ensures forall i :: 0 <= i < |calls| ==> ds[i] == DayOf(calls[i].createdAt)
  {
    seq(|calls|, i requires 0 <= i < |calls| => DayOf(calls[i].createdAt))
  }

  function OnDay(d: int): Call -> bool
  {
    (c: Call) => DayOf(c.createdAt) == d
  }

  function IntLe(): (int, int) -> bool
  {
    (a: int, b: int) => a <= b
  }

  /** The mean of `f` over the calls of day `d` (zero when the day has none). */
  function DayMean(calls: seq<Call>, d: int, f: Call -> int): real
  {
    var dc := Filter(calls, OnDay(d));
    if |dc| == 0 then 0.0 else Mean(dc, f)
  }

  /** The distinct call days in ascending order: `new Set(...)` then the sort by date. */
  function SortedDays(calls: seq<Call>): (ds: seq<int>)
    ensures forall i, j :: 0 <= i < j < |ds| ==> ds[i] < ds[j]
    ensures forall d :: d in ds <==> d in CallDays(calls)
  {
    var distinct := Dedup(CallDays(calls));
    var ds := SortBy(distinct, IntLe());
    assert TotalPreorder(IntLe());
    SortBySorted(distinct, IntLe());
    PermutationDistinct(distinct, ds);
    assert forall d :: d in ds <==> d in multiset(distinct);
    ds
  }

  function DaysOf(ps: seq<DayPoint>): (ds: seq<int>)
    ensures |ds| == |ps|
    ensures forall k :: 0 <= k < |ps| ==> ds[k] == ps[k].day
  {
    seq(|ps|, k requires 0 <= k < |ps| => ps[k].day)
  }

  /** `pt` holds the means of the human and automatic scores over the calls of its day, of
      which there is at least one. */
  predicate IsDayMean(calls: seq<Call>, pt: DayPoint)
  {
    var dc := Filter(calls, OnDay(pt.day));
    && |dc| > 0
    && pt.humanScore == Mean(dc, HumanOrZero)
    && pt.llmScore == Mean(dc, LlmOrZero)
  }

  /** `scoresOverTime`: one point per UTC day on which some call was created, in strictly
      ascending day order, each carrying the means of that day's human and automatic scores
      (missing scores read as 0). */
  function Timeline(calls: seq<Call>): (r: seq<DayPoint>)
    ensures forall i, j :: 0 <= i < j < |r| ==> r[i].day < r[j].day
    ensures forall d :: d in DaysOf(r) <==> d in CallDays(calls)
    ensures forall k :: 0 <= k < |r| ==> IsDayMean(calls, r[k])
  {
    var ds := SortedDays(calls);
    PointsFacts(calls, ds);
    Points(calls, ds)
  }

  function Points(calls: seq<Call>, ds: seq<int>): (r: seq<DayPoint>)
    ensures DaysOf(r) == ds
  {
    var r := seq(|ds|, k requires 0 <= k < |ds| =>
               DayPoint(ds[k], DayMean(calls, ds[k], HumanOrZero), DayMean(calls, ds[k], LlmOrZero)));
    assert DaysOf(r) == ds;
    r
  }

  lemma PointsFacts(calls: seq<Call>, ds: seq<int>)
    requires forall d :: d in ds ==> d in CallDays(calls)
    ensures forall k :: 0 <= k < |ds| ==> IsDayMean(calls, Points(calls, ds)[k])
  {
    var r := Points(calls, ds);
    forall k | 0 <= k < |ds|
      ensures IsDayMean(calls, r[k])
    {
      assert r[k] == DayPoint(ds[k], DayMean(calls, ds[k], HumanOrZero), DayMean(calls, ds[k], LlmOrZero));
      PointFact(calls, ds[k]);
    }
  }

  lemma PointFact(calls: seq<Call>, d: int)
    requires d in CallDays(calls)
    ensures IsDayMean(calls, DayPoint(d, DayMean(calls, d, HumanOrZero), DayMean(calls, d, LlmOrZero)))
  {
    DayHasCalls(calls, d);
  }

  lemma DayHasCalls(calls: seq<Call>, d: int)
    requires d in CallDays(calls)
    ensures |Filter(calls, OnDay(d))| > 0
  {
    var i :| 0 <= i < |calls| && CallDays(calls)[i] == d;
    assert calls[i] in Filter(calls, OnDay(d));
  }

  // ---------------------------------------------------------------------------------------
  // Scores by assistant and by clinic

  /** A call enters the per-name averages when the joined record has a non-empty name and the
      human score is present and non-zero. */
  predicate Rated(dim: Dimension, c: Call)
  {
    Joined(c, dim).Some? && Joined(c, dim).value.name != "" && Truthy(c.humanScore)
  }

  /** Rated under the name `n`. */
  function RatedAs(dim: Dimension, n: string): Call -> bool
  {
    (c: Call) => Rated(dim, c) && Joined(c, dim).value.name == n
  }

  /** A rated call's row in the name-keyed `Map`: its name and its human score. */
  function EntryOf(dim: Dimension, c: Call): Entry<string, string>
    requires Rated(dim, c)
  {
    Entry(Joined(c, dim).value.name, Joined(c, dim).value.name, c.humanScore.value)
  }

  /** The rows fed to the name-keyed `Map`, one per rated call, in row order. */
  function Entries(calls: seq<Call>, dim: Dimension): seq<Entry<string, string>>
  {
    if |calls| == 0 then []
    else
      var c := calls[0];
      if Rated(dim, c) then [EntryOf(dim, c)] + Entries(calls[1..], dim)
      else Entries(calls[1..], dim)
  }

  /** The names the map is keyed by, one per rated call, in row order. */
  function RatedNames(calls: seq<Call>, dim: Dimension): seq<string>
  {
    KeySeq(Entries(calls, dim))
  }

  function NamesOf(r: seq<NameScore>): (ns: seq<string>)
    ensures |ns| == |r|
    ensures forall k :: 0 <= k < |r| ==> ns[k] == r[k].name
  {
    seq(|r|, k requires 0 <= k < |r| => r[k].name)
  }

  /** `ns` holds the mean human score over the calls rated under its name, of which there is
      at least one. */
  predicate IsNameMean(calls: seq<Call>, dim: Dimension, ns: NameScore)
  {
    var rc := Filter(calls, RatedAs(dim, ns.name));
    && |rc| > 0
    && ns.avgScore == Mean(rc, HumanOrZero)
  }

  /** `scoresByAssistant` / `scoresByClinic`: one entry per distinct name among the rated
      calls, in order of first appearance, each holding the mean human score of the calls
      rated under that name. */
  function ScoresBy(calls: seq<Call>, dim: Dimension): (r: seq<NameScore>)
    ensures NamesOf(r) == Dedup(RatedNames(calls, dim))
    ensures forall k :: 0 <= k < |r| ==> IsNameMean(calls, dim, r[k])
  {
    var es := Entries(calls, dim);
    GroupBySpec(es);
    ScoresFacts(calls, dim);
    Averages(GroupBy(es))
  }

  /** Each group's name and mean score. */
  function Averages(gs: seq<Group<string, string>>): (r: seq<NameScore>)
    requires forall g :: g in gs ==> g.count >= 1
    ensures NamesOf(r) == GroupKeys(gs)
  {
    var r := seq(|gs|, k requires 0 <= k < |gs| =>
               assert gs[k] in gs;
               NameScore(gs[k].key, gs[k].total as real / gs[k].count as real));
    assert NamesOf(r) == GroupKeys(gs);
    r
  }

  lemma ScoresFacts(calls: seq<Call>, dim: Dimension)
    ensures forall g :: g in GroupBy(Entries(calls, dim)) ==> g.count >= 1
    ensures forall k :: 0 <= k < |GroupBy(Entries(calls, dim))| ==>
              IsNameMean(calls, dim, Averages(GroupBy(Entries(calls, dim)))[k])
  {
    var es := Entries(calls, dim);
    var gs := GroupBy(es);
    GroupBySpec(es);
    var r := Averages(gs);
    forall k | 0 <= k < |gs|
      ensures IsNameMean(calls, dim, r[k])
    {
      assert gs[k] in gs;
      assert r[k] == NameScore(gs[k].key, gs[k].total as real / gs[k].count as real);
      GroupFact(calls, dim, gs[k]);
    }
  }

  lemma GroupFact(calls: seq<Call>, dim: Dimension, g: Group<string, string>)
    requires g in GroupBy(Entries(calls, dim))
    ensures g.count >= 1
    ensures IsNameMean(calls, dim, NameScore(g.key, g.total as real / g.count as real))
  {
    GroupByMember(Entries(calls, dim), g);
    EntriesCountTotal(calls, dim, g.key);
  }

  /** The entries under a name are exactly the calls rated under it: same number, same
      score total. */
  lemma {:induction false} EntriesCountTotal(calls: seq<Call>, dim: Dimension, n: string)
    ensures CountOf(Entries(calls, dim), n) == |Filter(calls, RatedAs(dim, n))|
    ensures TotalOf(Entries(calls, dim), n) == SumBy(Filter(calls, RatedAs(dim, n)), HumanOrZero)
  {
    if |calls| > 0 {
      EntriesCountTotal(calls[1..], dim, n);
      EntriesStep(calls, dim, n);
    }
  }

  /** One step of the induction: the first call adds to the name's count and total exactly
      when it is rated under that name. */
  lemma {:induction false} EntriesStep(calls: seq<Call>, dim: Dimension, n: string)
    requires |calls| > 0
    ensures var add := RatedAs(dim, n)(calls[0]);
      && CountOf(Entries(calls, dim), n) == (if add then 1 else 0) + CountOf(Entries(calls[1..], dim), n)
      && TotalOf(Entries(calls, dim), n) == (if add then HumanOrZero(calls[0]) else 0) + TotalOf(Entries(calls[1..], dim), n)
      && Filter(calls, RatedAs(dim, n)) == (if add then [calls[0]] else []) + Filter(calls[1..], RatedAs(dim, n))
  {
    var c := calls[0];
    var rest := Entries(calls[1..], dim);
    FilterCons(calls, RatedAs(dim, n));
    if Rated(dim, c) {
      var e := EntryOf(dim, c);
      assert Entries(calls, dim) == [e] + rest;
      assert RatedAs(dim, n)(c) <==> e.key == n;
      assert HumanOrZero(c) == e.score;
      CountTotalCons(e, rest, n);
    } else {
      assert Entries(calls, dim) == rest;
      assert !RatedAs(dim, n)(c);
    }
  }

  // ---------------------------------------------------------------------------------------
  // The endpoint

  /** The full answer over a non-empty scope. */
  function Compute(calls: seq<Call>): (m: Metrics)
    requires |calls| > 0
    ensures m.totalCalls == |calls|
    ensures 0.0 <= m.successRate <= 1.0 && 0.0 <= m.evaluatedRate <= 1.0
    ensures 0.0 <= m.highDiscrepancyRate <= 1.0 && 0.0 <= m.avgScoreDifference
    ensures m.scoresOverTime == Timeline(calls)
    ensures m.scoresByAssistant == ScoresBy(calls, ByAssistant)
    ensures m.scoresByClinic == ScoresBy(calls, ByClinic)
    ensures HeadlineFigures(calls, m)
  {
    Headline(calls).(
      scoresOverTime := Timeline(calls),
      scoresByAssistant := ScoresBy(calls, ByAssistant),
      scoresByClinic := ScoresBy(calls, ByClinic))
  }

  /** GET /api/metrics. A store error becomes a 500; no rows in scope (or `data: null`) give
      the all-zero answer; otherwise the figures are computed over the rows in scope. */
  function GetMetrics(table: seq<Call>, p: MetricsParams, reply: Reply): (r: Response<Metrics>)
    ensures reply == Errored <==> r.Failure?
    ensures r.Failure? ==> r.status == 500 && r.error == "Failed to fetch metrics"
    ensures r.Ok? ==> r.body.totalCalls == (if reply == Served then Count(table, InScopeFn(p)) else 0)
    ensures r.Ok? && r.body.totalCalls == 0 ==> r.body == NoMetrics
    ensures r.Ok? ==> 0.0 <= r.body.successRate <= 1.0 && 0.0 <= r.body.evaluatedRate <= 1.0
    ensures r.Ok? ==> 0.0 <= r.body.highDiscrepancyRate <= 1.0 && 0.0 <= r.body.avgScoreDifference
    ensures reply == Served && r.body.totalCalls > 0 ==>
              var calls := Filter(table, InScopeFn(p));
              (forall c :: c in calls ==> c in table && InScope(p, c)) && r.body == Compute(calls)
  {
    match reply
    case Errored => Failure(500, "Failed to fetch metrics")
    case NullData => Ok(NoMetrics)
    case Served =>
      var calls := Filter(table, InScopeFn(p));
      if |calls| == 0 then Ok(NoMetrics) else Ok(Compute(calls))
  }

  // ---------------------------------------------------------------------------------------
  // Properties

  /** Every call in scope succeeds exactly when the success rate is 1, and none does exactly
      when it is 0; the same holds for the evaluated rate. */
  lemma RatesExtremes(calls: seq<Call>)
    requires |calls| > 0
    ensures Compute(calls).successRate == 1.0 <==> forall i :: 0 <= i < |calls| ==> Succeeded(calls[i])
    ensures Compute(calls).successRate == 0.0 <==> forall i :: 0 <= i < |calls| ==> !Succeeded(calls[i])
    ensures Compute(calls).evaluatedRate == 1.0 <==> forall i :: 0 <= i < |calls| ==> calls[i].evaluated
  {
  }

  /** The average gap is zero exactly when every call with both scores has equal scores
      (vacuously so when there is none); with no such call the high-discrepancy rate is 0. */
  lemma NoGapIffAgreement(calls: seq<Call>)
    requires |calls| > 0
    ensures Compute(calls).avgScoreDifference == 0.0 <==>
              forall c :: c in calls && BothScored(c) ==> c.humanScore == c.llmScore
    ensures (forall c :: c in calls ==> !BothScored(c)) ==> Compute(calls).highDiscrepancyRate == 0.0
  {
    var both := Filter(calls, BothScored);
    if |both| > 0 {
      MeanZero(both, GapOf);
      SumByZero(both, GapOf);
      assert (forall i :: 0 <= i < |both| ==> GapOf(both[i]) == 0) <==>
             (forall c :: c in both ==> c.humanScore == c.llmScore);
    }
  }

  /** When every call's human score (missing read as 0) lies in [lo, hi], so does the average
      human score and every day's human mean. */
  lemma {:induction false} HumanAveragesWithin(calls: seq<Call>, lo: int, hi: int)
    requires |calls| > 0
    requires forall c :: c in calls ==> lo <= HumanOrZero(c) <= hi
    ensures lo as real <= Compute(calls).avgHumanScore <= hi as real
    ensures forall k :: 0 <= k < |Timeline(calls)| ==> lo as real <= Timeline(calls)[k].humanScore <= hi as real
  {
    MeanWithin(calls, HumanOrZero, lo, hi);
    var t := Timeline(calls);
    forall k | 0 <= k < |t|
      ensures lo as real <= t[k].humanScore <= hi as real
    {
      var dc := Filter(calls, OnDay(t[k].day));
      assert forall i :: 0 <= i < |dc| ==> dc[i] in calls;
      MeanWithin(dc, HumanOrZero, lo, hi);
    }
  }

  /** Per-name averages stay within the range of the human scores that feed them; a name
      never appears twice. */
  lemma {:induction false} NameAveragesWithin(calls: seq<Call>, dim: Dimension, lo: int, hi: int)
    requires forall c :: c in calls && Truthy(c.humanScore) ==> lo <= c.humanScore.value <= hi
    ensures Distinct(NamesOf(ScoresBy(calls, dim)))
    ensures forall k :: 0 <= k < |ScoresBy(calls, dim)| ==>
              lo as real <= ScoresBy(calls, dim)[k].avgScore <= hi as real
  {
    var r := ScoresBy(calls, dim);
    forall k | 0 <= k < |r|
      ensures lo as real <= r[k].avgScore <= hi as real
    {
      var rc := Filter(calls, RatedAs(dim, r[k].name));
      assert forall i :: 0 <= i < |rc| ==> rc[i] in calls && Truthy(rc[i].humanScore);
      MeanWithin(rc, HumanOrZero, lo, hi);
    }
  }

  /** A name is listed exactly when some call in scope is rated under it. */
  lemma NamesAreRatedNames(calls: seq<Call>, dim: Dimension, n: string)
    ensures n in NamesOf(ScoresBy(calls, dim)) <==> exists c :: c in calls && RatedAs(dim, n)(c)
  {
    RatedNamesIff(calls, dim, n);
  }

  lemma {:induction false} RatedNamesIff(calls: seq<Call>, dim: Dimension, n: string)
    ensures n in RatedNames(calls, dim) <==> exists c :: c in calls && RatedAs(dim, n)(c)
  {
    if |calls| > 0 {
      var c := calls[0];
      RatedNamesIff(calls[1..], dim, n);
      RatedNamesStep(calls, dim);
      assert calls == [c] + calls[1..];
      assert (exists x :: x in calls && RatedAs(dim, n)(x)) <==>
             RatedAs(dim, n)(c) || exists x :: x in calls[1..] && RatedAs(dim, n)(x);
    }
  }

  lemma RatedNamesStep(calls: seq<Call>, dim: Dimension)
    requires |calls| > 0
    ensures RatedNames(calls, dim) ==
            (if Rated(dim, calls[0]) then [Joined(calls[0], dim).value.name] else []) + RatedNames(calls[1..], dim)
  {
    var c := calls[0];
    var rest := Entries(calls[1..], dim);
    if Rated(dim, c) {
      var e := EntryOf(dim, c);
      assert Entries(calls, dim) == [e] + rest;
      var ks := RatedNames(calls, dim);
      assert ks == [e.key] + KeySeq(rest) by {
        assert forall i :: 0 < i < |ks| ==> ks[i] == rest[i - 1].key;
      }
    } else {
      assert Entries(calls, dim) == rest;
    }
  }
}
