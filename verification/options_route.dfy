/** The filter-options endpoint (app/api/options/route.ts): every clinic, and the assistants
    of one clinic or of all clinics, each list ordered by name. The filter panel scopes its
    assistant choices with the same query. */
module OptionsRoute {
  import opened Wrappers
  import opened Records
  import opened Seqs
  import opened Text
  import opened Sorting

  function NameLe(): (Named, Named) -> bool
  {
    (a: Named, b: Named) => LexLe(a.name, b.name)
  }

  lemma NameLeTotalPreorder()
    ensures TotalPreorder(NameLe())
  {
    var le := NameLe();
    forall a: Named, b: Named
      ensures le(a, b) || le(b, a)
    {
      LexLeTotal(a.name, b.name);
    }
    forall a: Named, b: Named, c: Named | le(a, b) && le(b, c)
      ensures le(a, c)
    {
      LexLeTransitive(a.name, b.name, c.name);
    }
  }

  /** `order("name")`: the same rows, names never decreasing. */
  function SortByName(xs: seq<Named>): (r: seq<Named>)
    ensures multiset(r) == multiset(xs)
    ensures forall i, j :: 0 <= i < j < |r| ==> LexLe(r[i].name, r[j].name)
  {
    NameLeTotalPreorder();
    SortBySorted(xs, NameLe());
    SortBy(xs, NameLe())
  }

  /** The `id, name` columns of an assistant row. */
  function Project(a: Assistant): Named
  {
    Named(a.id, a.name)
  }

  function Projected(xs: seq<Assistant>): (r: seq<Named>)
    ensures |r| == |xs|
    ensures forall i :: 0 <= i < |xs| ==> r[i] == Project(xs[i])
  {
    seq(|xs|, i requires 0 <= i < |xs| => Project(xs[i]))
  }

  /** `eq("clinic_id", clinicId)` applied only when `clinicId` is truthy. */
  predicate OfClinic(clinicId: Option<string>, a: Assistant)
  {
    Given(clinicId) ==> a.clinicId == clinicId.value
  }

  function OfClinicFn(clinicId: Option<string>): Assistant -> bool
  {
    (a: Assistant) => OfClinic(clinicId, a)
  }

  /** The assistants of the given clinic (of every clinic when none is given), as `id, name`,
      ordered by name. */
  function ScopedAssistants(all: seq<Assistant>, clinicId: Option<string>): (r: seq<Named>)
    ensures multiset(r) == multiset(Projected(Filter(all, OfClinicFn(clinicId))))
    ensures forall i, j :: 0 <= i < j < |r| ==> LexLe(r[i].name, r[j].name)
  {
    SortByName(Projected(Filter(all, OfClinicFn(clinicId))))
  }

  datatype Options = Options(clinics: seq<Named>, assistants: seq<Named>)

  /** GET /api/options. An error on either read is a 500 with no lists; `data: null` on a read
      gives an empty list for it. */
  function GetOptions(clinics: seq<Named>, assistants: seq<Assistant>, clinicId: Option<string>,
                      clinicsReply: Reply, assistantsReply: Reply): (r: Response<Options>)
    ensures r.Failure? <==> clinicsReply == Errored || assistantsReply == Errored
    ensures r.Failure? ==> r.status == 500 && r.error == "Failed to fetch options"
    ensures r.Ok? ==> forall i, j :: 0 <= i < j < |r.body.clinics| ==>
              LexLe(r.body.clinics[i].name, r.body.clinics[j].name)
    ensures r.Ok? ==> forall i, j :: 0 <= i < j < |r.body.assistants| ==>
              LexLe(r.body.assistants[i].name, r.body.assistants[j].name)
    ensures r.Ok? ==> multiset(r.body.clinics) == if clinicsReply == Served then multiset(clinics) else multiset{}
    ensures r.Ok? && assistantsReply == NullData ==> r.body.assistants == []
    ensures r.Ok? && assistantsReply == Served ==> r.body.assistants == ScopedAssistants(assistants, clinicId)
  {
    if clinicsReply == Errored || assistantsReply == Errored then
      Failure(500, "Failed to fetch options")
    else
      Ok(Options(
        if clinicsReply == Served then SortByName(clinics) else [],
        if assistantsReply == Served then ScopedAssistants(assistants, clinicId) else []))
  }

  /** With a clinic given, an option is listed exactly when some assistant of that clinic has
      that id and name. */
  lemma ScopedExactly(all: seq<Assistant>, clinicId: Option<string>, x: Named)
    ensures x in ScopedAssistants(all, clinicId) <==>
            exists a :: a in all && OfClinic(clinicId, a) && Project(a) == x
  {
    if x in ScopedAssistants(all, clinicId) {
      ScopedSound(all, clinicId, x);
    }
    if a :| a in all && OfClinic(clinicId, a) && Project(a) == x {
      ScopedComplete(all, clinicId, a);
    }
  }

  /** Every listed option is the projection of an assistant of the clinic. */
  lemma {:induction false} ScopedSound(all: seq<Assistant>, clinicId: Option<string>, x: Named)
    requires x in ScopedAssistants(all, clinicId)
    ensures exists a :: a in all && OfClinic(clinicId, a) && Project(a) == x
  {
    var kept := Filter(all, OfClinicFn(clinicId));
    assert x in multiset(Projected(kept));
    var i :| 0 <= i < |kept| && Projected(kept)[i] == x;
    assert kept[i] in kept;
  }

  /** Every assistant of the clinic is listed. */
  lemma ScopedComplete(all: seq<Assistant>, clinicId: Option<string>, a: Assistant)
    requires a in all && OfClinic(clinicId, a)
    ensures Project(a) in ScopedAssistants(all, clinicId)
  {
    var kept := Filter(all, OfClinicFn(clinicId));
    assert a in kept;
    var i :| 0 <= i < |kept| && kept[i] == a;
    assert Projected(kept)[i] == Project(a);
    assert Project(a) in multiset(ScopedAssistants(all, clinicId));
  }

  /** With no clinic given, every assistant is offered, each exactly once per row. */
  lemma {:induction false} NoClinicOffersAll(all: seq<Assistant>, clinicId: Option<string>)
    requires !Given(clinicId)
    ensures multiset(ScopedAssistants(all, clinicId)) == multiset(Projected(all))
  {
    FilterAll(all, OfClinicFn(clinicId));
  }
}
