/** Keyed accumulation in first-appearance order: the `reduce` into an object keyed by id
    on the ranking pages and the `forEach` into a `Map` keyed by name in the metrics route.
    Each row contributes an `Entry`; each distinct key ends up with one `Group` holding the
    name of its first row, its row count and its score total. */
module Grouping {
  import opened Seqs
  import opened Wrappers

  datatype Entry<K, L> = Entry(key: K, name: L, score: int)

  datatype Group<K, L> = Group(key: K, name: L, count: nat, total: int)

  /** The keys of `es`, in order. */
  function KeySeq<K(==,!new), L(!new)>(es: seq<Entry<K, L>>): (ks: seq<K>)
    ensures |ks| == |es|
    ensures forall i :: 0 <= i < |es| ==> ks[i] == es[i].key
  {
    if |es| == 0 then [] else KeySeq(Init(es)) + [Last(es).key]
  }

  function GroupKeys<K(==,!new), L(!new)>(gs: seq<Group<K, L>>): (ks: seq<K>)
    ensures |ks| == |gs|
    ensures forall i :: 0 <= i < |gs| ==> ks[i] == gs[i].key
  {
    if |gs| == 0 then [] else [gs[0].key] + GroupKeys(gs[1..])
  }

  /** Rows contributed under key `k`. */
  function CountOf<K(==,!new), L(!new)>(es: seq<Entry<K, L>>, k: K): nat
  {
    Count(es, KeyIs(k))
  }

  /** Score total of the rows contributed under key `k`. */
  function TotalOf<K(==,!new), L(!new)>(es: seq<Entry<K, L>>, k: K): int
  {
    SumBy(Filter(es, KeyIs(k)), EntryScore<K, L>)
  }

  /** Position of the first row with key `k`. */
  function FirstIndex<K(==,!new), L(!new)>(es: seq<Entry<K, L>>, k: K): (i: nat)
    requires k in KeySeq(es)
    ensures i < |es| && es[i].key == k
    ensures forall j :: 0 <= j < i ==> es[j].key != k
  {
    if es[0].key == k then 0
    else
      assert KeySeq(es) == [es[0].key] + KeySeq(es[1..]);
      1 + FirstIndex(es[1..], k)
  }

  /** The group with key `k`, if there is one. */
  function Find<K(==,!new), L(!new)>(gs: seq<Group<K, L>>, k: K): (r: Option<Group<K, L>>)
    ensures r.Some? <==> k in GroupKeys(gs)
    ensures r.Some? ==> r.value.key == k && r.value in gs
  {
    if |gs| == 0 then None
    else if gs[0].key == k then Some(gs[0])
    else Find(gs[1..], k)
  }


  /** `g` with one more row, scoring `e.score`. */
  function Bump<K, L>(g: Group<K, L>, e: Entry<K, L>): Group<K, L>
  {
    g.(count := g.count + 1, total := g.total + e.score)
  }

  /** One accumulation step: bump the group of `e.key`, or append a fresh one after the rest. */
  function Add<K(==,!new), L(!new)>(gs: seq<Group<K, L>>, e: Entry<K, L>): seq<Group<K, L>>
  {
    if |gs| == 0 then [Group(e.key, e.name, 1, e.score)]
    else if gs[0].key == e.key then [Bump(gs[0], e)] + gs[1..]
    else [gs[0]] + Add(gs[1..], e)
  }

  /** All rows accumulated left to right, starting from no groups. */
  function GroupBy<K(==,!new), L(!new)>(es: seq<Entry<K, L>>): seq<Group<K, L>>
  {
    if |es| == 0 then [] else Add(GroupBy(Init(es)), Last(es))
  }

  function GroupCount<K, L>(g: Group<K, L>): int { g.count }

  function EntryScore<K, L>(e: Entry<K, L>): int { e.score }

  /** Whether a row carries key `k`. */
  function KeyIs<K(==), L>(k: K): Entry<K, L> -> bool
  {
    (e: Entry<K, L>) => e.key == k
  }

  function SumCounts<K(==,!new), L(!new)>(gs: seq<Group<K, L>>): int
  {
    SumBy(gs, GroupCount<K, L>)
  }

  lemma {:induction false} AddKeys<K(!new), L(!new)>(gs: seq<Group<K, L>>, e: Entry<K, L>)
    ensures GroupKeys(Add(gs, e)) ==
            if e.key in GroupKeys(gs) then GroupKeys(gs) else GroupKeys(gs) + [e.key]
  {
    if |gs| > 0 {
      assert GroupKeys(gs) == [gs[0].key] + GroupKeys(gs[1..]);
      if gs[0].key != e.key {
        AddKeys(gs[1..], e);
        assert Add(gs, e)[1..] == Add(gs[1..], e);
      } else {
        assert Add(gs, e)[1..] == gs[1..];
      }
    }
  }

  lemma FindCons<K(!new), L(!new)>(g: Group<K, L>, rest: seq<Group<K, L>>, k: K)
    ensures Find([g] + rest, k) == if g.key == k then Some(g) else Find(rest, k)
  {
    assert ([g] + rest)[1..] == rest;
  }

  lemma {:induction false} AddFind<K(!new), L(!new)>(gs: seq<Group<K, L>>, e: Entry<K, L>, k: K)
    ensures k != e.key ==> Find(Add(gs, e), k) == Find(gs, k)
    ensures k == e.key && Find(gs, k).None? ==> Find(Add(gs, e), k) == Some(Group(k, e.name, 1, e.score))
    ensures k == e.key && Find(gs, k).Some? ==> Find(Add(gs, e), k) == Some(Bump(Find(gs, k).value, e))
  {
    if |gs| == 0 {
      FindCons(Group(e.key, e.name, 1, e.score), [], k);
    } else {
      var g, rest := gs[0], gs[1..];
      assert gs == [g] + rest;
      FindCons(g, rest, k);
      if g.key == e.key {
        FindCons(Bump(g, e), rest, k);
      } else {
        AddFind(rest, e, k);
        FindCons(g, Add(rest, e), k);
      }
    }
  }

  lemma {:induction false} AddSumCounts<K(!new), L(!new)>(gs: seq<Group<K, L>>, e: Entry<K, L>)
    ensures SumCounts(Add(gs, e)) == SumCounts(gs) + 1
  {
    var f := GroupCount<K, L>;
    if |gs| == 0 {
      assert [Group(e.key, e.name, 1, e.score)][1..] == [];
    } else {
      var g, rest := gs[0], gs[1..];
      assert gs == [g] + rest;
      SumByAppend([g], rest, f);
      if g.key == e.key {
        SumByAppend([Bump(g, e)], rest, f);
      } else {
        AddSumCounts(rest, e);
        SumByAppend([g], Add(rest, e), f);
      }
    }
  }

  lemma CountTotalSnoc<K(!new), L(!new)>(pre: seq<Entry<K, L>>, e: Entry<K, L>, k: K)
    ensures CountOf(pre + [e], k) == CountOf(pre, k) + (if e.key == k then 1 else 0)
    ensures TotalOf(pre + [e], k) == TotalOf(pre, k) + (if e.key == k then e.score else 0)
  {
    FilterAppend(pre, [e], KeyIs(k));
    assert [e][1..] == [];
    SumByAppend(Filter(pre, KeyIs(k)), Filter([e], KeyIs(k)), EntryScore<K, L>);
  }

  lemma CountTotalCons<K(!new), L(!new)>(e: Entry<K, L>, rest: seq<Entry<K, L>>, k: K)
    ensures CountOf([e] + rest, k) == (if e.key == k then 1 else 0) + CountOf(rest, k)
    ensures TotalOf([e] + rest, k) == (if e.key == k then e.score else 0) + TotalOf(rest, k)
  {
    FilterAppend([e], rest, KeyIs(k));
    assert [e][1..] == [];
    SumByAppend(Filter([e], KeyIs(k)), Filter(rest, KeyIs(k)), EntryScore<K, L>);
  }

  lemma CountTotalAbsent<K(!new), L(!new)>(es: seq<Entry<K, L>>, k: K)
    requires k !in KeySeq(es)
    ensures CountOf(es, k) == 0 && TotalOf(es, k) == 0
  {
    assert forall i :: 0 <= i < |es| ==> KeySeq(es)[i] == es[i].key;
    FilterNone(es, KeyIs(k));
  }

  lemma FirstIndexCons<K(!new), L(!new)>(e: Entry<K, L>, rest: seq<Entry<K, L>>, k: K)
    requires e.key != k && k in KeySeq([e] + rest)
    ensures k in KeySeq(rest)
    ensures ([e] + rest)[FirstIndex([e] + rest, k)] == rest[FirstIndex(rest, k)]
  {
    var es := [e] + rest;
    assert KeySeq(es) == [e.key] + KeySeq(rest);
    assert es[1..] == rest;
  }

  lemma FirstIndexSnoc<K(!new), L(!new)>(pre: seq<Entry<K, L>>, e: Entry<K, L>, k: K)
    requires k in KeySeq(pre) || k == e.key
    ensures KeySeq(pre + [e]) == KeySeq(pre) + [e.key]
    ensures FirstIndex(pre + [e], k) == if k in KeySeq(pre) then FirstIndex(pre, k) else |pre|
  {
    var es := pre + [e];
    assert Init(es) == pre;
    var j := FirstIndex(es, k);
    if k in KeySeq(pre) {
      var i := FirstIndex(pre, k);
      assert es[i] == pre[i];
      assert j <= i;
      assert es[j] == pre[j];
    } else {
      assert forall m :: 0 <= m < |pre| ==> es[m].key == KeySeq(pre)[m];
      assert es[|pre|].key == k;
    }
  }

  /** The group a key ends up with: `None` for a key no row carries, otherwise the first row's
      name, the number of rows, and their score total. */
  lemma {:induction false} GroupByFind<K(!new), L(!new)>(es: seq<Entry<K, L>>, k: K)
    ensures Find(GroupBy(es), k) ==
            if k !in KeySeq(es) then None
            else Some(Group(k, es[FirstIndex(es, k)].name, CountOf(es, k), TotalOf(es, k)))
  {
    if |es| > 0 {
      var pre, e := Init(es), Last(es);
      assert es == pre + [e];
      GroupByFind(pre, k);
      if k != e.key {
        GroupByFindOther(pre, e, k);
      } else if k in KeySeq(pre) {
        GroupByFindAgain(pre, e, k);
      } else {
        GroupByFindNew(pre, e, k);
      }
    }
  }

  lemma GroupByFindOther<K(!new), L(!new)>(pre: seq<Entry<K, L>>, e: Entry<K, L>, k: K)
    requires k != e.key
    requires Find(GroupBy(pre), k) ==
             if k !in KeySeq(pre) then None
             else Some(Group(k, pre[FirstIndex(pre, k)].name, CountOf(pre, k), TotalOf(pre, k)))
    ensures k in KeySeq(pre + [e]) <==> k in KeySeq(pre)
    ensures Find(GroupBy(pre + [e]), k) ==
            if k !in KeySeq(pre) then None
            else Some(Group(k, (pre + [e])[FirstIndex(pre + [e], k)].name, CountOf(pre + [e], k), TotalOf(pre + [e], k)))
  {
    var es := pre + [e];
    assert Init(es) == pre && Last(es) == e;
    assert KeySeq(es) == KeySeq(pre) + [e.key];
    AddFind(GroupBy(pre), e, k);
    CountTotalSnoc(pre, e, k);
    if k in KeySeq(pre) {
      FirstIndexSnoc(pre, e, k);
      assert es[FirstIndex(es, k)] == pre[FirstIndex(pre, k)];
    }
  }

  lemma GroupByFindAgain<K(!new), L(!new)>(pre: seq<Entry<K, L>>, e: Entry<K, L>, k: K)
    requires k == e.key && k in KeySeq(pre)
    requires Find(GroupBy(pre), k) ==
             Some(Group(k, pre[FirstIndex(pre, k)].name, CountOf(pre, k), TotalOf(pre, k)))
    ensures k in KeySeq(pre + [e])
    ensures Find(GroupBy(pre + [e]), k) ==
            Some(Group(k, (pre + [e])[FirstIndex(pre + [e], k)].name, CountOf(pre + [e], k), TotalOf(pre + [e], k)))
  {
    AddToGroup(pre, e);
    SnocTally(pre, e, k);
  }

  /** Appending a row whose key already has a group bumps that group. */
  lemma AddToGroup<K(!new), L(!new)>(pre: seq<Entry<K, L>>, e: Entry<K, L>)
    requires Find(GroupBy(pre), e.key).Some?
    ensures Find(GroupBy(pre + [e]), e.key) == Some(Bump(Find(GroupBy(pre), e.key).value, e))
  {
    var es := pre + [e];
    assert Init(es) == pre && Last(es) == e;
    assert GroupBy(es) == Add(GroupBy(pre), e);
    AddFind(GroupBy(pre), e, e.key);
  }

  /** The first row, count and total of a key already present, after one more row of it. */
  lemma SnocTally<K(!new), L(!new)>(pre: seq<Entry<K, L>>, e: Entry<K, L>, k: K)
    requires k == e.key && k in KeySeq(pre)
    ensures k in KeySeq(pre + [e])
    ensures Bump(Group(k, pre[FirstIndex(pre, k)].name, CountOf(pre, k), TotalOf(pre, k)), e)
         == Group(k, (pre + [e])[FirstIndex(pre + [e], k)].name, CountOf(pre + [e], k), TotalOf(pre + [e], k))
  {
    var es := pre + [e];
    var i := FirstIndex(pre, k);
    CountTotalSnoc(pre, e, k);
    FirstIndexSnoc(pre, e, k);
    assert FirstIndex(es, k) == i;
    assert es[i] == pre[i];
  }

  lemma GroupByFindNew<K(!new), L(!new)>(pre: seq<Entry<K, L>>, e: Entry<K, L>, k: K)
    requires k == e.key && k !in KeySeq(pre)
    requires Find(GroupBy(pre), k) == None
    ensures k in KeySeq(pre + [e])
    ensures Find(GroupBy(pre + [e]), k) ==
            Some(Group(k, (pre + [e])[FirstIndex(pre + [e], k)].name, CountOf(pre + [e], k), TotalOf(pre + [e], k)))
  {
    var es := pre + [e];
    assert Init(es) == pre && Last(es) == e;
    assert GroupBy(es) == Add(GroupBy(pre), e);
    AddFind(GroupBy(pre), e, k);
    assert Find(GroupBy(es), k) == Some(Group(k, e.name, 1, e.score));
    CountTotalAbsent(pre, k);
    CountTotalSnoc(pre, e, k);
    assert CountOf(es, k) == 1 && TotalOf(es, k) == e.score;
    FirstIndexSnoc(pre, e, k);
    assert FirstIndex(es, k) == |pre|;
    assert es[|pre|] == e;
  }

  /** Group keys are the distinct row keys in first-appearance order. */
  lemma {:induction false} GroupByKeys<K(!new), L(!new)>(es: seq<Entry<K, L>>)
    ensures GroupKeys(GroupBy(es)) == Dedup(KeySeq(es))
  {
    if |es| > 0 {
      var pre, e := Init(es), Last(es);
      GroupByKeys(pre);
      AddKeys(GroupBy(pre), e);
      assert KeySeq(es) == KeySeq(pre) + [e.key];
      assert Init(KeySeq(es)) == KeySeq(pre);
    }
  }

  /** Every row lands in exactly one group: the counts add up to the number of rows. */
  lemma {:induction false} GroupBySumCounts<K(!new), L(!new)>(es: seq<Entry<K, L>>)
    ensures SumCounts(GroupBy(es)) == |es|
  {
    if |es| > 0 {
      GroupBySumCounts(Init(es));
      AddSumCounts(GroupBy(Init(es)), Last(es));
    }
  }

  /** The accumulated groups: keys are the distinct row keys in first-appearance order; each
      group counts at least one row and carries exactly its key's count, total and first name;
      the counts add up to the number of rows. */
  lemma {:induction false} GroupBySpec<K(!new), L(!new)>(es: seq<Entry<K, L>>)
    ensures GroupKeys(GroupBy(es)) == Dedup(KeySeq(es))
    ensures SumCounts(GroupBy(es)) == |es|
    ensures forall g :: g in GroupBy(es) ==>
              && g.key in KeySeq(es)
              && g.count == CountOf(es, g.key) >= 1
              && g.total == TotalOf(es, g.key)
              && g.name == es[FirstIndex(es, g.key)].name
  {
    GroupByKeys(es);
    GroupBySumCounts(es);
    forall g | g in GroupBy(es)
      ensures && g.key in KeySeq(es)
              && g.count == CountOf(es, g.key) >= 1
              && g.total == TotalOf(es, g.key)
              && g.name == es[FirstIndex(es, g.key)].name
    {
      GroupByMember(es, g);
    }
  }

  /** Every group holds at least one row. */
  lemma GroupByCounts<K(!new), L(!new)>(es: seq<Entry<K, L>>)
    ensures forall g :: g in GroupBy(es) ==> g.count >= 1
  {
    forall g | g in GroupBy(es)
      ensures g.count >= 1
    {
      GroupByMember(es, g);
    }
  }

  lemma GroupByMember<K(!new), L(!new)>(es: seq<Entry<K, L>>, g: Group<K, L>)
    requires g in GroupBy(es)
    ensures && g.key in KeySeq(es)
            && g.count == CountOf(es, g.key) >= 1
            && g.total == TotalOf(es, g.key)
            && g.name == es[FirstIndex(es, g.key)].name
  {
    var gs := GroupBy(es);
    GroupByKeys(es);
    assert Distinct(GroupKeys(gs));
    var i :| 0 <= i < |gs| && gs[i] == g;
    FindDistinct(gs, i);
    assert Find(gs, g.key) == Some(g);
    GroupByFind(es, g.key);
    assert g.key in KeySeq(es);
    var j := FirstIndex(es, g.key);
    assert g == Group(g.key, es[j].name, CountOf(es, g.key), TotalOf(es, g.key));
    assert es[j] in Filter(es, KeyIs<K, L>(g.key));
  }

  /** With distinct keys, looking a group's key up finds that very group. */
  lemma {:induction false} FindDistinct<K(!new), L(!new)>(gs: seq<Group<K, L>>, i: int)
    requires 0 <= i < |gs|
    requires Distinct(GroupKeys(gs))
    ensures Find(gs, gs[i].key) == Some(gs[i])
  {
    if i > 0 {
      assert GroupKeys(gs)[0] != GroupKeys(gs)[i];
      assert GroupKeys(gs[1..]) == GroupKeys(gs)[1..];
      FindDistinct(gs[1..], i - 1);
    }
  }

  /** When every row under key `k` scores within [lo, hi], so does the key's average. */
  lemma AverageWithin<K(!new), L(!new)>(es: seq<Entry<K, L>>, k: K, lo: int, hi: int)
    requires CountOf(es, k) >= 1
    requires forall e :: e in es && e.key == k ==> lo <= e.score <= hi
    ensures lo as real <= TotalOf(es, k) as real / CountOf(es, k) as real <= hi as real
  {
    var rows := Filter(es, KeyIs<K, L>(k));
    forall i | 0 <= i < |rows|
      ensures lo <= EntryScore(rows[i]) <= hi
    {
      assert rows[i] in rows;
    }
    MeanWithin(rows, EntryScore<K, L>, lo, hi);
  }
}
