/** How the worker adapter decides which store requests to report as finished: the engine must have
    reported the request and its store must be complete. */
module StoreCompletion {

  /** Request ids are only compared. */
  type Id = nat

  /** `futures` maps the leading id of each pending store to the ids merged with it. */
  datatype State = State(futures: map<Id, seq<Id>>, finished: set<Id>, previously: set<Id>)

  const START := State(map[], {}, {})

  function Submitted(s: State, lead: Id, others: seq<Id>): State {
    s.(futures := s.futures[lead := others])
  }

  /** The ids of the pending stores whose future is done. */
  function Done(s: State, done: set<Id>): set<Id> {
    set l, x | l in s.futures && l in done && x in [l] + s.futures[l] :: x
  }

  /** One call of `get_finished`: the new state and the ids it returns. */
  function Poll(s: State, reported: set<Id>, done: set<Id>): (State, set<Id>) {
    var now := Done(s, done);
    var futures := s.futures - now;
    var finished := s.finished + now;
    var known := set r | r in reported && (r in finished || r in futures);
    var previously := s.previously + known;
    var safe := finished * previously;
    (State(futures, finished - previously, previously - safe), (reported - known) + safe)
  }

  // ----- what happened so far

  /** The leading id of every submitted id, the submitted ids whose store is complete, and the ids the
      engine reported. */
  datatype History = History(lead: map<Id, Id>, complete: set<Id>, reported: set<Id>)

  const NOTHING := History(map[], {}, {})

  function LeadOf(lead: Id, others: seq<Id>): map<Id, Id> { map x | x in [lead] + others :: lead }

  function AfterSubmit(h: History, lead: Id, others: seq<Id>): History {
    h.(lead := h.lead + LeadOf(lead, others))
  }

  function CompleteAfter(h: History, done: set<Id>): set<Id> {
    h.complete + set x | x in h.lead && h.lead[x] in done
  }

  function AfterPoll(h: History, reported: set<Id>, done: set<Id>): History {
    h.(complete := CompleteAfter(h, done), reported := h.reported + reported)
  }

  /** An id is submitted once, and before the engine reports it. */
  predicate MaySubmit(h: History, lead: Id, others: seq<Id>) {
    lead !in others && forall x :: x in [lead] + others ==> x !in h.lead && x !in h.reported
  }

  /** Every submitted id has a submitted leading id, and a store is complete for all its ids at once. */
  ghost predicate Batches(h: History) {
    && (forall x :: x in h.lead ==> h.lead[x] in h.lead && h.lead[h.lead[x]] == h.lead[x])
    && (forall x :: x in h.complete <==> x in h.lead && h.lead[x] in h.complete)
  }

  /** What the adapter holds about one id. */
  ghost predicate Knows(s: State, h: History, x: Id) {
    && (x in s.futures <==> x in h.lead && h.lead[x] == x && x !in h.complete)
    && (x in s.finished <==> x in h.complete && x !in h.reported)
    && (x in s.previously <==> x in h.lead && x in h.reported && x !in h.complete)
  }

  ghost predicate Merged(s: State, h: History, l: Id)
    requires l in s.futures
  {
    forall x :: x in s.futures[l] <==> x in h.lead && h.lead[x] == l && x != l
  }

  /** The state the adapter is in when no merged id was reported before its store was complete. */
  ghost predicate Matches(s: State, h: History) {
    && Batches(h)
    && (forall x :: Knows(s, h, x))
    && (forall l :: l in s.futures ==> Merged(s, h, l))
  }

  lemma SubmitBatches(h: History, lead: Id, others: seq<Id>)
    requires Batches(h) && MaySubmit(h, lead, others)
    ensures Batches(AfterSubmit(h, lead, others))
  {
    assert lead in [lead] + others;
  }

  lemma SubmitMatches(s: State, h: History, lead: Id, others: seq<Id>)
    requires Matches(s, h) && MaySubmit(h, lead, others)
    ensures Matches(Submitted(s, lead, others), AfterSubmit(h, lead, others))
  {
    var s', h' := Submitted(s, lead, others), AfterSubmit(h, lead, others);
    SubmitBatches(h, lead, others);
    assert forall x :: x in [lead] + others <==> x == lead || x in others;
    forall x ensures Knows(s', h', x) { assert Knows(s, h, x); }
    forall l | l in s'.futures ensures Merged(s', h', l) {
      if l != lead { assert Knows(s, h, l) && Merged(s, h, l); } else { LeadIsNew(h, lead); }
    }
  }

  lemma LeadIsNew(h: History, lead: Id)
    requires Batches(h) && lead !in h.lead
    ensures forall x :: x in h.lead ==> h.lead[x] != lead
  {
  }

  /** The ids whose stores are found complete in this call. */
  lemma DoneIds(s: State, h: History, done: set<Id>, x: Id)
    requires Matches(s, h)
    ensures x in Done(s, done) <==> x in h.lead && x !in h.complete && h.lead[x] in done
  {
    if x in Done(s, done) {
      var l :| l in s.futures && l in done && x in [l] + s.futures[l];
      assert Knows(s, h, l) && Merged(s, h, l) && (x == l || x in s.futures[l]);
    }
    if x in h.lead && x !in h.complete && h.lead[x] in done {
      var l := h.lead[x];
      assert Knows(s, h, l);
      assert Merged(s, h, l);
      assert x in [l] + s.futures[l];
    }
  }

  /** A merged id is reported although its store is still pending. */
  predicate Early(h: History, done: set<Id>, x: Id) {
    x in h.lead && h.lead[x] != x && x !in CompleteAfter(h, done)
  }

  /** The ids a call should return: those submitted, now reported and now complete, for the first time;
      and those reported in this call that were never submitted or were returned before. */
  predicate Expected(h: History, reported: set<Id>, done: set<Id>, x: Id) {
    if x in h.lead && !(x in h.complete && x in h.reported)
    then x in CompleteAfter(h, done) && x in h.reported + reported
    else x in reported
  }

  /** A call returns exactly the expected ids, and besides them the merged ids reported too early. */
  lemma PollReturns(s: State, h: History, reported: set<Id>, done: set<Id>, x: Id)
    requires Matches(s, h)
    ensures x in Poll(s, reported, done).1 <==> Expected(h, reported, done, x) || (x in reported && Early(h, done, x))
  {
    DoneIds(s, h, done, x);
    assert Knows(s, h, x);
  }

  lemma PollKnows(s: State, h: History, reported: set<Id>, done: set<Id>, x: Id)
    requires Matches(s, h) && (x in reported ==> !Early(h, done, x))
    ensures Knows(Poll(s, reported, done).0, AfterPoll(h, reported, done), x)
  {
    DoneIds(s, h, done, x);
    assert Knows(s, h, x);
  }

  lemma PollMatches(s: State, h: History, reported: set<Id>, done: set<Id>)
    requires Matches(s, h) && forall x :: x in reported ==> !Early(h, done, x)
    ensures Matches(Poll(s, reported, done).0, AfterPoll(h, reported, done))
  {
    var s', h' := Poll(s, reported, done).0, AfterPoll(h, reported, done);
    forall x ensures Knows(s', h', x) { PollKnows(s, h, reported, done, x); }
    forall l | l in s'.futures ensures Merged(s', h', l) { assert Merged(s, h, l); }
  }

  // ----- whole runs

  datatype Event = Submit(lead: Id, others: seq<Id>) | Get(reported: set<Id>, done: set<Id>)

  function After(evs: seq<Event>): (State, History) {
    if evs == [] then (START, NOTHING)
    else
      var (s, h) := After(evs[..|evs| - 1]);
      match evs[|evs| - 1]
      case Submit(lead, others) => (Submitted(s, lead, others), AfterSubmit(h, lead, others))
      case Get(reported, done) => (Poll(s, reported, done).0, AfterPoll(h, reported, done))
  }

  /** Ids are submitted once and before they are reported, and no merged id is reported while its store
      is pending. */
  ghost predicate Orderly(evs: seq<Event>) {
    evs == [] ||
    (Orderly(evs[..|evs| - 1]) &&
     var h := After(evs[..|evs| - 1]).1;
     match evs[|evs| - 1]
     case Submit(lead, others) => MaySubmit(h, lead, others)
     case Get(reported, done) => forall x :: x in reported ==> !Early(h, done, x))
  }

  /** Everything returned during a run. */
  function Returned(evs: seq<Event>): set<Id> {
    if evs == [] then {}
    else
      Returned(evs[..|evs| - 1]) +
      match evs[|evs| - 1]
      case Submit(_, _) => {}
      case Get(reported, done) => Poll(After(evs[..|evs| - 1]).0, reported, done).1
  }

  lemma {:induction false} RunMatches(evs: seq<Event>)
    requires Orderly(evs)
    ensures Matches(After(evs).0, After(evs).1)
  {
    if evs != [] {
      RunMatches(evs[..|evs| - 1]);
      var (s, h) := After(evs[..|evs| - 1]);
      match evs[|evs| - 1]
      case Submit(lead, others) => SubmitMatches(s, h, lead, others);
      case Get(reported, done) => PollMatches(s, h, reported, done);
    }
  }

  /** What was returned so far: the submitted ids that are both reported and complete, and the reported
      ids that were never submitted. */
  lemma {:induction false} ReturnedSoFar(evs: seq<Event>, x: Id)
    requires Orderly(evs)
    ensures x in Returned(evs) <==> var h := After(evs).1; x in h.reported && (x in h.lead ==> x in h.complete)
  {
    if evs != [] {
      var pre := evs[..|evs| - 1];
      ReturnedSoFar(pre, x);
      RunMatches(pre);
      var (s, h) := After(pre);
      match evs[|evs| - 1]
      case Submit(lead, others) =>
        assert x in [lead] + others ==> x !in h.reported;
      case Get(reported, done) =>
        PollReturns(s, h, reported, done, x);
    }
  }

  // ----- the history, event by event

  predicate SubmitsAt(evs: seq<Event>, i: int, x: Id) {
    0 <= i < |evs| && evs[i].Submit? && x in [evs[i].lead] + evs[i].others
  }

  predicate ReportsAt(evs: seq<Event>, j: int, x: Id) { 0 <= j < |evs| && evs[j].Get? && x in evs[j].reported }

  /** The store of the request submitted at `i` is found done at `j`. */
  predicate CompletesAt(evs: seq<Event>, i: int, j: int) {
    0 <= i < j < |evs| && evs[i].Submit? && evs[j].Get? && evs[i].lead in evs[j].done
  }

  ghost predicate Told(evs: seq<Event>, h: History, x: Id) {
    && (x in h.lead <==> exists i :: SubmitsAt(evs, i, x))
    && (forall i :: SubmitsAt(evs, i, x) ==> x in h.lead && h.lead[x] == evs[i].lead)
    && (x in h.reported <==> exists j :: ReportsAt(evs, j, x))
    && (x in h.complete <==> exists i, j :: SubmitsAt(evs, i, x) && CompletesAt(evs, i, j))
  }

  lemma ToldSubmit(pre: seq<Event>, h: History, lead: Id, others: seq<Id>, x: Id)
    requires Told(pre, h, x) && MaySubmit(h, lead, others)
    ensures Told(pre + [Submit(lead, others)], AfterSubmit(h, lead, others), x)
  {
    var evs, h' := pre + [Submit(lead, others)], AfterSubmit(h, lead, others);
    var n := |pre|;
    assert forall i :: 0 <= i < n ==> evs[i] == pre[i];
    assert forall i :: i != n ==> (SubmitsAt(evs, i, x) <==> SubmitsAt(pre, i, x));
    assert forall j :: ReportsAt(evs, j, x) <==> ReportsAt(pre, j, x);
    assert forall i, j :: CompletesAt(evs, i, j) <==> CompletesAt(pre, i, j);
    if x in [lead] + others { assert SubmitsAt(evs, n, x); }
    if i :| SubmitsAt(pre, i, x) { assert SubmitsAt(evs, i, x); }
    if j :| ReportsAt(pre, j, x) { assert ReportsAt(evs, j, x); }
    if i, j :| SubmitsAt(pre, i, x) && CompletesAt(pre, i, j) { assert SubmitsAt(evs, i, x) && CompletesAt(evs, i, j); }
  }

  lemma ToldGet(pre: seq<Event>, h: History, reported: set<Id>, done: set<Id>, x: Id)
    requires Told(pre, h, x)
    ensures Told(pre + [Get(reported, done)], AfterPoll(h, reported, done), x)
  {
    var evs, h' := pre + [Get(reported, done)], AfterPoll(h, reported, done);
    var n := |pre|;
    assert forall i :: 0 <= i < n ==> evs[i] == pre[i];
    assert forall i :: SubmitsAt(evs, i, x) <==> SubmitsAt(pre, i, x);
    assert forall j :: j != n ==> (ReportsAt(evs, j, x) <==> ReportsAt(pre, j, x));
    assert forall i, j :: j != n ==> (CompletesAt(evs, i, j) <==> CompletesAt(pre, i, j));
    if x in reported { assert ReportsAt(evs, n, x); }
    if j :| ReportsAt(pre, j, x) { assert ReportsAt(evs, j, x); }
    if i :| SubmitsAt(pre, i, x) { assert SubmitsAt(evs, i, x); }
    if x in h.lead && h.lead[x] in done {
      var i :| SubmitsAt(pre, i, x);
      assert SubmitsAt(evs, i, x) && CompletesAt(evs, i, n);
    }
    if i, j :| SubmitsAt(pre, i, x) && CompletesAt(pre, i, j) { assert SubmitsAt(evs, i, x) && CompletesAt(evs, i, j); }
  }

  /** The history of an orderly run says, of every id, whether it was submitted and under which leading id,
      whether it was reported, and whether its store was found done after it was submitted. */
  lemma {:induction false} HistoryTells(evs: seq<Event>, x: Id)
    requires Orderly(evs)
    ensures Told(evs, After(evs).1, x)
    decreases |evs|
  {
    if evs != [] {
      var pre := evs[..|evs| - 1];
      HistoryTells(pre, x);
      assert evs == pre + [evs[|evs| - 1]];
      match evs[|evs| - 1]
      case Submit(lead, others) => ToldSubmit(pre, After(pre).1, lead, others, x);
      case Get(reported, done) => ToldGet(pre, After(pre).1, reported, done, x);
    }
  }

  /** In an orderly run every call returns only reported ids, no submitted id whose store is pending,
      every submitted id in the first call that finds it both reported and complete, and an id that was
      returned before exactly when it is reported once more. */
  lemma ReturnsWhenReportedAndComplete(evs: seq<Event>, reported: set<Id>, done: set<Id>, x: Id)
    requires Orderly(evs) && Orderly(evs + [Get(reported, done)])
    ensures var (s, h) := After(evs);
            var h', ret := AfterPoll(h, reported, done), Poll(s, reported, done).1;
            && (x in ret ==> x in h'.reported && (x in h.lead ==> x in h'.complete))
            && (x in h.lead && x in h'.reported && x in h'.complete && x !in Returned(evs) ==> x in ret)
            && (x in Returned(evs) ==> (x in ret <==> x in reported))
  {
    RunMatches(evs);
    ReturnedSoFar(evs, x);
    var (s, h) := After(evs);
    assert (evs + [Get(reported, done)])[..|evs|] == evs;
    PollReturns(s, h, reported, done, x);
  }

  /** A call hands back an id whose store is pending exactly when the engine reports, in that call, a
      merged id of a pending store. */
  lemma PendingReturnedIffMergedReported(evs: seq<Event>, reported: set<Id>, done: set<Id>)
    requires Orderly(evs)
    ensures var (s, h) := After(evs);
            (exists x :: x in Poll(s, reported, done).1 && x in h.lead && x !in CompleteAfter(h, done))
            <==> (exists x :: x in reported && Early(h, done, x))
  {
    RunMatches(evs);
    var (s, h) := After(evs);
    forall x ensures x in Poll(s, reported, done).1 <==> Expected(h, reported, done, x) || (x in reported && Early(h, done, x)) {
      PollReturns(s, h, reported, done, x);
    }
    if x :| x in reported && Early(h, done, x) {
      assert x in Poll(s, reported, done).1;
    }
  }

  /** Two stores merged under one leading id; the engine reports the merged one first. */
  lemma MergedIdReturnedTooEarly()
    ensures var evs := [Submit(1, [2])];
            Orderly(evs) && 2 in Poll(After(evs).0, {2}, {}).1 && 2 in After(evs).1.lead && 2 !in CompleteAfter(After(evs).1, {})
  {
    var evs := [Submit(1, [2])];
    assert evs[..0] == [];
    RunMatches(evs);
    PollReturns(After(evs).0, After(evs).1, {2}, {}, 2);
  }

  /** A request that was reported and returned is returned again when it is reported again. */
  lemma ReportedAgainReturnedAgain()
    ensures var evs := [Submit(1, []), Get({1}, {1})];
            Orderly(evs) && Orderly(evs + [Get({1}, {})]) && 1 in Returned(evs) && 1 in Poll(After(evs).0, {1}, {}).1
  {
    var first, evs, again := [Submit(1, [])], [Submit(1, []), Get({1}, {1})], Get({1}, {});
    assert first[..0] == [] && evs[..1] == first && (evs + [again])[..2] == evs;
    assert Orderly(first) && After(first).1.lead == map[1 := 1];
    ReturnedSoFar(evs, 1);
    ReturnsWhenReportedAndComplete(evs, {1}, {}, 1);
  }

  // ----- the adapter

  lemma OneMore(seen: set<Id>, known: set<Id>, r: Id)
    ensures (seen + {r}) - known == if r in known then seen - known else seen - known + {r}
    ensures (seen + {r}) * known == if r in known then seen * known + {r} else seen * known
  {
  }

  lemma PollAgrees(s: State, h: History, reported: set<Id>, done: set<Id>)
    ensures Matches(s, h) ==>
              forall x :: x in Poll(s, reported, done).1 <==> Expected(h, reported, done, x) || (x in reported && Early(h, done, x))
    ensures Matches(s, h) && (forall x :: x in reported ==> !Early(h, done, x)) ==>
              Matches(Poll(s, reported, done).0, AfterPoll(h, reported, done))
  {
    if Matches(s, h) {
      forall x ensures x in Poll(s, reported, done).1 <==> Expected(h, reported, done, x) || (x in reported && Early(h, done, x)) {
        PollReturns(s, h, reported, done, x);
      }
      if forall x :: x in reported ==> !Early(h, done, x) {
        PollMatches(s, h, reported, done);
      }
    }
  }

  class WorkerAdapter {
    var storeFutures: map<Id, seq<Id>>
    var finishedStores: set<Id>
    var previouslyFinished: set<Id>
    /** What was submitted, completed and reported so far. */
    ghost var history: History

    function Contents(): State
      reads this
    {
      State(storeFutures, finishedStores, previouslyFinished)
    }

    /** The containers hold what the history says. */
    ghost predicate Agrees()
      reads this
    {
      Matches(Contents(), history)
    }

    constructor ()
      ensures Contents() == START && history == NOTHING && Agrees()
    {
      storeFutures, finishedStores, previouslyFinished, history := map[], {}, {}, NOTHING;
    }

    /** A store under its own id: a new id, submitted before it is reported, keeps the agreement. */
    method SubmitStoreRequest(id: Id)
      modifies this
      ensures Contents() == Submitted(old(Contents()), id, []) && history == AfterSubmit(old(history), id, [])
      ensures old(Agrees()) && MaySubmit(old(history), id, []) ==> Agrees()
    {
      if Agrees() && MaySubmit(history, id, []) {
        SubmitMatches(Contents(), history, id, []);
      }
      storeFutures := storeFutures[id := []];
      history := AfterSubmit(history, id, []);
    }

    /** Several stores under the first id: the same. */
    method BatchedSubmitStoreRequests(ids: seq<Id>)
      requires ids != []
      modifies this
      ensures Contents() == Submitted(old(Contents()), ids[0], ids[1..])
      ensures history == AfterSubmit(old(history), ids[0], ids[1..])
      ensures old(Agrees()) && MaySubmit(old(history), ids[0], ids[1..]) ==> Agrees()
    {
      if Agrees() && MaySubmit(history, ids[0], ids[1..]) {
        SubmitMatches(Contents(), history, ids[0], ids[1..]);
      }
      storeFutures := storeFutures[ids[0] := ids[1..]];
      history := AfterSubmit(history, ids[0], ids[1..]);
    }

    /** `done` are the leading ids whose future answers that it is complete. While containers and history
        agree, the call returns the expected ids and the merged ones reported too early, and keeps the
        agreement when there are none of the latter. */
    method GetFinished(reported: set<Id>, done: set<Id>) returns (ret: set<Id>)
      modifies this
      ensures (Contents(), ret) == Poll(old(Contents()), reported, done)
      ensures history == AfterPoll(old(history), reported, done)
      ensures old(Agrees()) ==>
                forall x :: x in ret <==> Expected(old(history), reported, done, x) || (x in reported && Early(old(history), done, x))
      ensures old(Agrees()) && (forall x :: x in reported ==> !Early(old(history), done, x)) ==> Agrees()
    {
      PollAgrees(Contents(), history, reported, done);
      var now := CollectDone(done);
      storeFutures := storeFutures - now;
      finishedStores := finishedStores + now;
      ret := NoteReported(reported);
      var safe := UpdateAndGetFinished();
      ret := ret + safe;
      history := AfterPoll(history, reported, done);
    }

    /** Reported ids with a store are remembered; the others are returned at once. */
    method NoteReported(reported: set<Id>) returns (ret: set<Id>)
      modifies this`previouslyFinished
      ensures var known := set r | r in reported && (r in finishedStores || r in storeFutures);
              ret == reported - known && previouslyFinished == old(previouslyFinished) + known
    {
      ghost var known := set r | r in reported && (r in finishedStores || r in storeFutures);
      ret := {};
      var rest, noted := reported, previouslyFinished;
      ghost var seen := {};
      while rest != {}
        invariant seen + rest == reported && ret == seen - known && noted == previouslyFinished + seen * known
        invariant previouslyFinished == old(previouslyFinished)
        decreases |rest|
      {
        var r :| r in rest;
        OneMore(seen, known, r);
        if r in finishedStores || r in storeFutures {
          noted := noted + {r};
        } else {
          ret := ret + {r};
        }
        rest, seen := rest - {r}, seen + {r};
      }
      previouslyFinished := noted;
    }

    method CollectDone(done: set<Id>) returns (now: set<Id>)
      ensures now == Done(Contents(), done)
    {
      now := {};
      var rest := storeFutures.Keys;
      ghost var seen := {};
      while rest != {}
        invariant seen !! rest && seen + rest == storeFutures.Keys
        invariant now == set l, x | l in seen && l in done && x in [l] + storeFutures[l] :: x
        decreases |rest|
      {
        var l :| l in rest;
        if l in done {
          now := now + set x | x in [l] + storeFutures[l];
        }
        rest, seen := rest - {l}, seen + {l};
      }
    }

    method UpdateAndGetFinished() returns (safe: set<Id>)
      modifies this`finishedStores, this`previouslyFinished
      ensures safe == old(finishedStores) * old(previouslyFinished)
      ensures finishedStores == old(finishedStores) - old(previouslyFinished)
      ensures previouslyFinished == old(previouslyFinished) - safe
    {
      safe := finishedStores * previouslyFinished;
      finishedStores := finishedStores - previouslyFinished;
      previouslyFinished := previouslyFinished - safe;
    }
  }
}
