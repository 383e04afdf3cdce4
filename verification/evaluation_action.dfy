/** The evaluation write (app/actions/calls.ts): a reviewer's score and comments stored on the
    call rows whose id matches, with `evaluated` set, as one write that either happens in full
    or not at all. */
module EvaluationAction {
  import opened Wrappers
  import opened Records

  /** The calls table, keyed by row. */
  type Store = map<string, Call>

  /** The usual shape of the table: each row is stored under its own id. */
  predicate WellKeyed(store: Store)
  {
    forall k :: k in store ==> store[k].id == k
  }

  /** `UpdateCallEvaluation data`: the score is any number, with no range check. */
  datatype Evaluation = Evaluation(id: string, humanScore: int, humanComment: string, commentsEngineer: string)

  /** `{ success: true }` or `{ success: false, error }`. */
  datatype Outcome = Saved | NotSaved(error: string)

  /** The four columns the write sets on one row; every other column keeps its value. */
  function Evaluate(c: Call, e: Evaluation): (r: Call)
    ensures r.humanScore == Some(e.humanScore)
    ensures r.humanComment == Some(e.humanComment)
    ensures r.commentsEngineer == Some(e.commentsEngineer)
    ensures r.evaluated
    ensures r.id == c.id && r.llmScore == c.llmScore && r.llmComment == c.llmComment
    ensures r.reviewer == c.reviewer && r.qaCheck == c.qaCheck && r.createdAt == c.createdAt
    ensures r.(humanScore := c.humanScore, humanComment := c.humanComment,
               commentsEngineer := c.commentsEngineer, evaluated := c.evaluated) == c
  {
    c.(humanScore := Some(e.humanScore), humanComment := Some(e.humanComment),
       commentsEngineer := Some(e.commentsEngineer), evaluated := true)
  }

  /** `update(...).eq("id", data.id)`: every row whose id is the evaluation's id is evaluated,
      every other row is left alone, and no row is added or removed. */
  function Apply(store: Store, e: Evaluation): (r: Store)
    ensures r.Keys == store.Keys
    ensures forall k :: k in store && store[k].id == e.id ==> r[k] == Evaluate(store[k], e)
    ensures forall k :: k in store && store[k].id != e.id ==> r[k] == store[k]
  {
    map k | k in store :: if store[k].id == e.id then Evaluate(store[k], e) else store[k]
  }

  /** `updateCallEvaluation`. `writeError` is the error the store reports for the write, if
      any; with an error nothing is written and the error is handed back. */
  function UpdateCallEvaluation(store: Store, e: Evaluation, writeError: Option<string>): (r: (Store, Outcome))
    ensures r.1 == Saved <==> writeError.None?
    ensures writeError.Some? ==> r == (store, NotSaved(writeError.value))
    ensures writeError.None? ==> r.0 == Apply(store, e)
  {
    match writeError
    case Some(err) => (store, NotSaved(err))
    case None => (Apply(store, e), Saved)
  }

  // ---------------------------------------------------------------------------------------
  // Properties

  /** On a well-keyed table a saved evaluation is a single-row update: the row stored under
      the id, with the four columns set, and nothing else. */
  lemma SavedIsRowUpdate(store: Store, e: Evaluation)
    requires WellKeyed(store)
    ensures var r := UpdateCallEvaluation(store, e, None).0;
      && (e.id in store ==> r == store[e.id := Evaluate(store[e.id], e)])
      && (e.id !in store ==> r == store)
  {
    var r := Apply(store, e);
    if e.id in store {
      var u := store[e.id := Evaluate(store[e.id], e)];
      assert r.Keys == u.Keys;
      forall k | k in r
        ensures r[k] == u[k]
      {
        if k == e.id {
          assert store[k].id == e.id;
        } else {
          assert store[k].id == k;
        }
      }
    } else {
      assert r.Keys == store.Keys;
      forall k | k in r
        ensures r[k] == store[k]
      {
        assert store[k].id == k;
      }
    }
  }

  /** An id that no row carries leaves the table as it was, even though the write succeeds. */
  lemma MissingIdChangesNothing(store: Store, e: Evaluation)
    requires forall k :: k in store ==> store[k].id != e.id
    ensures UpdateCallEvaluation(store, e, None) == (store, Saved)
  {
    var r := Apply(store, e);
    assert r.Keys == store.Keys;
    assert forall k :: k in r ==> r[k] == store[k];
    assert r == store;
  }

  /** Saving the same evaluation twice leaves the table as saving it once. */
  lemma SaveTwiceIsSaveOnce(store: Store, e: Evaluation)
    ensures Apply(Apply(store, e), e) == Apply(store, e)
  {
    var once := Apply(store, e);
    var twice := Apply(once, e);
    forall k | k in once
      ensures twice[k] == once[k]
    {
      if store[k].id == e.id {
        assert once[k].id == e.id;
      }
    }
  }

  /** Rows keep their ids, so a well-keyed table stays well keyed. */
  lemma KeepsKeys(store: Store, e: Evaluation, writeError: Option<string>)
    requires WellKeyed(store)
    ensures WellKeyed(UpdateCallEvaluation(store, e, writeError).0)
  {
    var r := UpdateCallEvaluation(store, e, writeError).0;
    forall k | k in r
      ensures r[k].id == k
    {
      assert store[k].id == k;
    }
  }

  /** Writes to two different ids are independent: either order gives the same table. */
  lemma DifferentIdsCommute(store: Store, e: Evaluation, f: Evaluation)
    requires e.id != f.id
    ensures Apply(Apply(store, e), f) == Apply(Apply(store, f), e)
  {
    var ef := Apply(Apply(store, e), f);
    var fe := Apply(Apply(store, f), e);
    forall k | k in store
      ensures ef[k] == fe[k]
    {
      if store[k].id == e.id {
        assert Apply(store, e)[k].id == e.id;
      } else if store[k].id == f.id {
        assert Apply(store, f)[k].id == f.id;
      }
    }
  }
}
