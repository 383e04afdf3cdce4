/** The clinic and assistant rankings (app/clinics/page.tsx, app/assistants/page.tsx): the
    calls with a human score are grouped by the id of their joined clinic (or assistant), each
    group counts its calls and averages their scores, and the groups are listed by average,
    best first. */
module Rankings {
  import opened Wrappers
  import opened Records
  import opened Seqs
  import opened Sorting
  import opened Grouping

  /** One ranking row. */
  datatype RankEntry = RankEntry(id: string, name: string, calls: nat, avgScore: real)

  /** A row of the read contributes when its human score is not null (a zero included) and
      its joined record has a non-empty id and name. */
  predicate Contributes(dim: Dimension, c: Call)
  {
    && c.humanScore.Some?
    && Joined(c, dim).Some?
    && Joined(c, dim).value.id != ""
    && Joined(c, dim).value.name != ""
  }

  function ContributesFn(dim: Dimension): Call -> bool
  {
    (c: Call) => Contributes(dim, c)
  }

  /** Contributes under the joined id `id`. */
  function ContributesAs(dim: Dimension, id: string): Call -> bool
  {
    (c: Call) => Contributes(dim, c) && Joined(c, dim).value.id == id
  }

  /** The score a contributing row adds: `score || 0`. */
  function ContributedScore(c: Call): int
  {
    OrZero(c.humanScore)
  }

  /** A contributing row's entry: its joined id and name, and its score. */
  function ContributionOf(dim: Dimension, c: Call): Entry<string, string>
    requires Contributes(dim, c)
  {
    Entry(Joined(c, dim).value.id, Joined(c, dim).value.name, ContributedScore(c))
  }

  /** `es` holds one entry for every contributing row of `calls`, in row order. */
  predicate EntryPerContributor(calls: seq<Call>, dim: Dimension, es: seq<Entry<string, string>>)
  {
    var rows := Filter(calls, ContributesFn(dim));
    && |es| == |rows|
    && (forall i :: 0 <= i < |es| ==> es[i] == ContributionOf(dim, rows[i]))
  }

  /** The contributions of the rows, in row order (one entry per contributing row, as
      `ContributionsPinned` states). */
  function Contributions(calls: seq<Call>, dim: Dimension): (es: seq<Entry<string, string>>)
    ensures |es| <= |calls|
    ensures forall i :: 0 <= i < |es| ==> es[i].key != "" && es[i].name != ""
  {
    if |calls| == 0 then []
    else if Contributes(dim, calls[0]) then [ContributionOf(dim, calls[0])] + Contributions(calls[1..], dim)
    else Contributions(calls[1..], dim)
  }

  /** The contributions of the first row, then those of the others. */
  lemma ContributionsCons(calls: seq<Call>, dim: Dimension)
    requires |calls| > 0
    ensures Contributions(calls, dim) ==
              (if Contributes(dim, calls[0]) then [ContributionOf(dim, calls[0])] else []) + Contributions(calls[1..], dim)
  {
  }

  /** The contributions are exactly the contributing rows' entries, in row order. */
  lemma {:induction false} ContributionsPinned(calls: seq<Call>, dim: Dimension)
    ensures EntryPerContributor(calls, dim, Contributions(calls, dim))
  {
    if |calls| > 0 {
      var c := calls[0];
      var es := Contributions(calls, dim);
      var rest := Contributions(calls[1..], dim);
      var rows := Filter(calls, ContributesFn(dim));
      var tail := Filter(calls[1..], ContributesFn(dim));
      ContributionsPinned(calls[1..], dim);
      ContributionsCons(calls, dim);
      FilterCons(calls, ContributesFn(dim));
      if Contributes(dim, c) {
        assert rows == [c] + tail;
        assert es == [ContributionOf(dim, c)] + rest;
        forall i | 0 <= i < |es|
          ensures es[i] == ContributionOf(dim, rows[i])
        {
          if i > 0 {
            assert es[i] == rest[i - 1] && rows[i] == tail[i - 1];
          }
        }
      } else {
        assert rows == tail && es == rest;
      }
    }
  }

  /** Per id, the contributions count the contributing rows of that id and total their
      scores. */
  lemma {:induction false} ContributionsCountTotal(calls: seq<Call>, dim: Dimension, id: string)
    ensures CountOf(Contributions(calls, dim), id) == Count(calls, ContributesAs(dim, id))
    ensures TotalOf(Contributions(calls, dim), id) == SumBy(Filter(calls, ContributesAs(dim, id)), ContributedScore)
  {
    if |calls| > 0 {
      ContributionsCountTotal(calls[1..], dim, id);
      ContributionsStep(calls, dim, id);
    }
  }

  lemma {:induction false} ContributionsStep(calls: seq<Call>, dim: Dimension, id: string)
    requires |calls| > 0
    ensures var add := ContributesAs(dim, id)(calls[0]);
      && CountOf(Contributions(calls, dim), id) == (if add then 1 else 0) + CountOf(Contributions(calls[1..], dim), id)
      && TotalOf(Contributions(calls, dim), id) == (if add then ContributedScore(calls[0]) else 0) + TotalOf(Contributions(calls[1..], dim), id)
      && Filter(calls, ContributesAs(dim, id)) == (if add then [calls[0]] else []) + Filter(calls[1..], ContributesAs(dim, id))
  {
    var c := calls[0];
    var rest := Contributions(calls[1..], dim);
    FilterCons(calls, ContributesAs(dim, id));
    ContributionsCons(calls, dim);
    if Contributes(dim, c) {
      var e := ContributionOf(dim, c);
      assert Contributions(calls, dim) == [e] + rest;
      assert ContributesAs(dim, id)(c) <==> e.key == id;
      CountTotalCons(e, rest, id);
    } else {
      assert Contributions(calls, dim) == rest;
      assert !ContributesAs(dim, id)(c);
    }
  }

  /** An id appears among the contributions exactly when some row contributes under it. */
  lemma ContributionsKeys(calls: seq<Call>, dim: Dimension, id: string)
    ensures id in KeySeq(Contributions(calls, dim)) <==> exists c :: c in calls && ContributesAs(dim, id)(c)
  {
    ContributionsPinned(calls, dim);
    EntryKeys(calls, dim, Contributions(calls, dim), id);
  }

  lemma EntryKeys(calls: seq<Call>, dim: Dimension, es: seq<Entry<string, string>>, id: string)
    requires EntryPerContributor(calls, dim, es)
    ensures id in KeySeq(es) <==> exists c :: c in calls && ContributesAs(dim, id)(c)
  {
    if id in KeySeq(es) {
      RowOfKey(calls, dim, es, id);
    }
    if exists c :: c in calls && ContributesAs(dim, id)(c) {
      var c :| c in calls && ContributesAs(dim, id)(c);
      KeyOfRow(calls, dim, es, c, id);
    }
  }

  lemma RowOfKey(calls: seq<Call>, dim: Dimension, es: seq<Entry<string, string>>, id: string)
    requires EntryPerContributor(calls, dim, es) && id in KeySeq(es)
    ensures exists c :: c in calls && ContributesAs(dim, id)(c)
  {
    var rows := Filter(calls, ContributesFn(dim));
    var i :| 0 <= i < |es| && KeySeq(es)[i] == id;
    var c := rows[i];
    assert c in rows;
    assert es[i] == ContributionOf(dim, c);
    assert ContributesAs(dim, id)(c);
  }

  lemma KeyOfRow(calls: seq<Call>, dim: Dimension, es: seq<Entry<string, string>>, c: Call, id: string)
    requires EntryPerContributor(calls, dim, es) && c in calls && ContributesAs(dim, id)(c)
    ensures id in KeySeq(es)
  {
    var rows := Filter(calls, ContributesFn(dim));
    assert ContributesFn(dim)(c);
    assert c in rows;
    var j :| 0 <= j < |rows| && rows[j] == c;
    assert es[j] == ContributionOf(dim, c);
    assert KeySeq(es)[j] == id;
  }

  /** Row `i` is the first row that contributes under `id`. */
  predicate FirstContributor(calls: seq<Call>, dim: Dimension, id: string, i: int)
  {
    && 0 <= i < |calls|
    && ContributesAs(dim, id)(calls[i])
    && (forall j :: 0 <= j < i ==> !ContributesAs(dim, id)(calls[j]))
  }

  /** The first contribution of an id comes from the first row contributing under it. */
  lemma {:induction false} ContributionsFirst(calls: seq<Call>, dim: Dimension, id: string)
    requires id in KeySeq(Contributions(calls, dim))
    ensures exists i ::
              && FirstContributor(calls, dim, id, i)
              && Contributions(calls, dim)[FirstIndex(Contributions(calls, dim), id)].name == Joined(calls[i], dim).value.name
  {
    var es := Contributions(calls, dim);
    if ContributesAs(dim, id)(calls[0]) {
      FirstRowFirst(calls, dim, id);
    } else {
      FirstSkipsRow(calls, dim, id);
      ContributionsFirst(calls[1..], dim, id);
      var rest := Contributions(calls[1..], dim);
      var k :| && FirstContributor(calls[1..], dim, id, k)
               && rest[FirstIndex(rest, id)].name == Joined(calls[1..][k], dim).value.name;
      FirstContributorShift(calls, dim, id, k);
      assert es[FirstIndex(es, id)].name == Joined(calls[k + 1], dim).value.name;
      assert FirstContributor(calls, dim, id, k + 1);
    }
  }

  /** A first row that contributes under `id` gives the id's first contribution. */
  lemma FirstRowFirst(calls: seq<Call>, dim: Dimension, id: string)
    requires |calls| > 0 && ContributesAs(dim, id)(calls[0])
    ensures id in KeySeq(Contributions(calls, dim))
    ensures FirstContributor(calls, dim, id, 0)
    ensures Contributions(calls, dim)[FirstIndex(Contributions(calls, dim), id)] == ContributionOf(dim, calls[0])
  {
    var es := Contributions(calls, dim);
    ContributionsCons(calls, dim);
    assert es[0] == ContributionOf(dim, calls[0]);
    assert KeySeq(es)[0] == id;
  }

  /** A first row that does not contribute under `id` leaves the id's first contribution to
      the remaining rows. */
  lemma FirstSkipsRow(calls: seq<Call>, dim: Dimension, id: string)
    requires |calls| > 0 && !ContributesAs(dim, id)(calls[0])
    requires id in KeySeq(Contributions(calls, dim))
    ensures id in KeySeq(Contributions(calls[1..], dim))
    ensures Contributions(calls, dim)[FirstIndex(Contributions(calls, dim), id)]
         == Contributions(calls[1..], dim)[FirstIndex(Contributions(calls[1..], dim), id)]
  {
    var c := calls[0];
    ContributionsCons(calls, dim);
    if Contributes(dim, c) {
      FirstIndexCons(ContributionOf(dim, c), Contributions(calls[1..], dim), id);
    }
  }

  lemma FirstContributorShift(calls: seq<Call>, dim: Dimension, id: string, k: int)
    requires |calls| > 0 && !ContributesAs(dim, id)(calls[0])
    requires FirstContributor(calls[1..], dim, id, k)
    ensures FirstContributor(calls, dim, id, k + 1) && calls[k + 1] == calls[1..][k]
  {
    forall j | 0 <= j < k + 1
      ensures !ContributesAs(dim, id)(calls[j])
    {
      if j > 0 {
        assert calls[j] == calls[1..][j - 1];
      }
    }
  }

  function ToRank(g: Group<string, string>): RankEntry
    requires g.count >= 1
  {
    RankEntry(g.key, g.name, g.count, g.total as real / g.count as real)
  }

  /** Each group as a ranking row, in group order. */
  function Averages(gs: seq<Group<string, string>>): (r: seq<RankEntry>)
    requires forall g :: g in gs ==> g.count >= 1
    ensures |r| == |gs|
    ensures forall i :: 0 <= i < |gs| ==> r[i] == ToRank(gs[i])
  {
    if |gs| == 0 then [] else [ToRank(gs[0])] + Averages(gs[1..])
  }

  function DescLe(): (RankEntry, RankEntry) -> bool
  {
    (a: RankEntry, b: RankEntry) => a.avgScore >= b.avgScore
  }

  lemma DescLeTotalPreorder()
    ensures TotalPreorder(DescLe())
  {
  }

  function IdsOf(r: seq<RankEntry>): (ids: seq<string>)
    ensures |ids| == |r|
    ensures forall i :: 0 <= i < |r| ==> ids[i] == r[i].id
  {
    seq(|r|, i requires 0 <= i < |r| => r[i].id)
  }

  function CallsOf(e: RankEntry): int { e.calls }

  /** The groups of the contributions as ranking rows, in first-appearance order. */
  function Unsorted(calls: seq<Call>, dim: Dimension): (r: seq<RankEntry>)
    ensures forall e :: e in r ==> e.calls >= 1
  {
    var es := Contributions(calls, dim);
    GroupByCounts(es);
    Averages(GroupBy(es))
  }

  /** The ranking a page shows. The read's error is discarded by the page, so an error and
      `data: null` both show an empty ranking. */
  function Ranking(calls: seq<Call>, dim: Dimension, reply: Reply): (r: seq<RankEntry>)
    ensures reply != Served ==> r == []
    ensures forall i, j :: 0 <= i < j < |r| ==> r[i].avgScore >= r[j].avgScore
    ensures reply == Served ==> multiset(r) == multiset(Unsorted(calls, dim))
  {
    if reply != Served then []
    else
      DescLeTotalPreorder();
      SortBySorted(Unsorted(calls, dim), DescLe());
      SortBy(Unsorted(calls, dim), DescLe())
  }

  /** One row per distinct id among the contributions, that is, per id some row
      contributes under. */
  lemma {:induction false} RankingIds(calls: seq<Call>, dim: Dimension)
    ensures Distinct(IdsOf(Ranking(calls, dim, Served)))
    ensures forall id :: id in IdsOf(Ranking(calls, dim, Served)) <==> id in KeySeq(Contributions(calls, dim))
    ensures forall id :: id in IdsOf(Ranking(calls, dim, Served)) <==>
              exists c :: c in calls && Contributes(dim, c) && Joined(c, dim).value.id == id
  {
    forall id
      ensures id in KeySeq(Contributions(calls, dim)) <==>
              exists c :: c in calls && Contributes(dim, c) && Joined(c, dim).value.id == id
    {
      ContributionsKeys(calls, dim, id);
    }
    var es := Contributions(calls, dim);
    GroupBySpec(es);
    var avg := Unsorted(calls, dim);
    var r := Ranking(calls, dim, Served);
    assert IdsOf(avg) == GroupKeys(GroupBy(es));
    IdsPermuted(avg, r);
  }

  /** The row counts add up to the number of contributing rows. */
  lemma {:induction false} RankingSum(calls: seq<Call>, dim: Dimension)
    ensures SumBy(Ranking(calls, dim, Served), CallsOf) == |Contributions(calls, dim)|
    ensures SumBy(Ranking(calls, dim, Served), CallsOf) == Count(calls, ContributesFn(dim))
  {
    ContributionsPinned(calls, dim);
    var es := Contributions(calls, dim);
    GroupBySpec(es);
    SortBySum(Unsorted(calls, dim), DescLe(), CallsOf);
    AveragesCalls(GroupBy(es));
  }

  /** Each row carries the name of its id's first contribution, its number of contributions
      (at least one) and their mean score; read against the rows: the number of rows
      contributing under the id, the mean of their scores (a null score as 0) and the joined
      name of the first of them. */
  lemma {:induction false} RankingRows(calls: seq<Call>, dim: Dimension)
    ensures var es := Contributions(calls, dim);
            forall e :: e in Ranking(calls, dim, Served) ==>
              && e.id in KeySeq(es)
              && e.calls == CountOf(es, e.id) >= 1
              && e.avgScore == TotalOf(es, e.id) as real / CountOf(es, e.id) as real
              && e.name == es[FirstIndex(es, e.id)].name
    ensures forall e :: e in Ranking(calls, dim, Served) ==>
              && e.calls == Count(calls, ContributesAs(dim, e.id)) >= 1
              && e.avgScore == SumBy(Filter(calls, ContributesAs(dim, e.id)), ContributedScore) as real / e.calls as real
              && exists i :: FirstContributor(calls, dim, e.id, i) && e.name == Joined(calls[i], dim).value.name
  {
    var es := Contributions(calls, dim);
    var r := Ranking(calls, dim, Served);
    UnsortedRows(calls, dim);
    forall e | e in r
      ensures e in Unsorted(calls, dim)
    {
      assert e in multiset(r);
    }
    forall e | e in r
      ensures && e.calls == Count(calls, ContributesAs(dim, e.id)) >= 1
              && e.avgScore == SumBy(Filter(calls, ContributesAs(dim, e.id)), ContributedScore) as real / e.calls as real
              && exists i :: FirstContributor(calls, dim, e.id, i) && e.name == Joined(calls[i], dim).value.name
    {
      ContributionsCountTotal(calls, dim, e.id);
      ContributionsFirst(calls, dim, e.id);
    }
  }

  /** The same facts about the rows before sorting, one row per group. */
  lemma {:induction false} UnsortedRows(calls: seq<Call>, dim: Dimension)
    ensures var es := Contributions(calls, dim);
            forall e :: e in Unsorted(calls, dim) ==>
              && e.id in KeySeq(es)
              && e.calls == CountOf(es, e.id) >= 1
              && e.avgScore == TotalOf(es, e.id) as real / CountOf(es, e.id) as real
              && e.name == es[FirstIndex(es, e.id)].name
  {
    var es := Contributions(calls, dim);
    var gs := GroupBy(es);
    GroupBySpec(es);
    var avg := Unsorted(calls, dim);
    forall e | e in avg
      ensures && e.id in KeySeq(es)
              && e.calls == CountOf(es, e.id) >= 1
              && e.avgScore == TotalOf(es, e.id) as real / CountOf(es, e.id) as real
              && e.name == es[FirstIndex(es, e.id)].name
    {
      var i :| 0 <= i < |avg| && avg[i] == e;
      assert gs[i] in gs;
    }
  }

  lemma {:induction false} AveragesCalls(gs: seq<Group<string, string>>)
    requires forall g :: g in gs ==> g.count >= 1
    ensures SumBy(Averages(gs), CallsOf) == SumCounts(gs)
  {
    if |gs| > 0 {
      assert forall g :: g in gs[1..] ==> g in gs;
      AveragesCalls(gs[1..]);
      assert Averages(gs)[1..] == Averages(gs[1..]);
    }
  }

  /** Reordering rows with distinct ids keeps the ids distinct and the same. */
  lemma IdsPermuted(a: seq<RankEntry>, b: seq<RankEntry>)
    requires multiset(a) == multiset(b)
    requires Distinct(IdsOf(a))
    ensures Distinct(IdsOf(b))
    ensures forall id :: id in IdsOf(b) <==> id in IdsOf(a)
  {
    assert Distinct(a) by {
      forall i, j | 0 <= i < j < |a|
        ensures a[i] != a[j]
      {
        assert IdsOf(a)[i] != IdsOf(a)[j];
      }
    }
    PermutationDistinct(a, b);
    forall i, j | 0 <= i < j < |b|
      ensures IdsOf(b)[i] != IdsOf(b)[j]
    {
      assert b[i] in multiset(a) && b[j] in multiset(a);
      var p :| 0 <= p < |a| && a[p] == b[i];
      var q :| 0 <= q < |a| && a[q] == b[j];
      assert p != q;
      assert IdsOf(a)[p] != IdsOf(a)[q];
    }
    forall id
      ensures id in IdsOf(b) <==> id in IdsOf(a)
    {
      if id in IdsOf(b) {
        var i :| 0 <= i < |b| && IdsOf(b)[i] == id;
        assert b[i] in multiset(a);
        var p :| 0 <= p < |a| && a[p] == b[i];
        assert IdsOf(a)[p] == id;
      }
      if id in IdsOf(a) {
        var p :| 0 <= p < |a| && IdsOf(a)[p] == id;
        assert a[p] in multiset(b);
        var i :| 0 <= i < |b| && b[i] == a[p];
        assert IdsOf(b)[i] == id;
      }
    }
  }

  /** Every average lies between the lowest and the highest contributing score. */
  lemma RankingWithin(calls: seq<Call>, dim: Dimension, lo: int, hi: int)
    requires forall c :: c in calls && c.humanScore.Some? ==> lo <= c.humanScore.value <= hi
    ensures forall e :: e in Ranking(calls, dim, Served) ==> lo as real <= e.avgScore <= hi as real
  {
    var es := Contributions(calls, dim);
    RankingRows(calls, dim);
    ContributionScores(calls, dim, lo, hi);
    forall e | e in Ranking(calls, dim, Served)
      ensures lo as real <= e.avgScore <= hi as real
    {
      AverageWithin(es, e.id, lo, hi);
    }
  }

  /** Every contribution's score is one of the rows' human scores. */
  lemma {:induction false} ContributionScores(calls: seq<Call>, dim: Dimension, lo: int, hi: int)
    requires forall c :: c in calls && c.humanScore.Some? ==> lo <= c.humanScore.value <= hi
    ensures forall x :: x in Contributions(calls, dim) ==> lo <= x.score <= hi
  {
    if |calls| > 0 {
      assert forall c :: c in calls[1..] ==> c in calls;
      ContributionScores(calls[1..], dim, lo, hi);
      ContributionsCons(calls, dim);
      assert calls[0] in calls;
    }
  }
}
