/** What the harvest coordinator promises its callers, told from the events alone
    (src/authoring/harvest_sched.rs): what it means for a call to be covered, that pokes
    wait for the window and a burst of them is one run, and that a forced call does not
    wait. */
module HarvestLaws {
  import opened Base
  import opened Harvest

  // ----- What covers a call ------------------------------------------------------------

  /** The `i`-th step is this call making its request visible. */
  predicate StoredAt(states: seq<State>, events: seq<Event>, i: nat, id: nat)
    requires |states| == |events| + 1 && i < |events|
  {
    Stores(states[i], events[i]) && events[i].id == id
  }

  /** Before the `k`-th step the call stored its request. */
  predicate Requested(states: seq<State>, events: seq<Event>, k: nat, id: nat)
    requires |states| == |events| + 1 && k <= |events|
  {
    exists i :: 0 <= i < k && StoredAt(states, events, i, id)
  }

  /** And after that a harvest cleared `dirty`, as it does when it starts. */
  predicate Observed(states: seq<State>, events: seq<Event>, k: nat, id: nat)
    requires |states| == |events| + 1 && k <= |events|
  {
    exists j :: 0 <= j < k && Clears(states[j], events[j]) && Requested(states, events, j, id)
  }

  /** And that harvest has ended. */
  predicate Harvested(states: seq<State>, events: seq<Event>, k: nat, id: nat)
    requires |states| == |events| + 1 && k <= |events|
  {
    exists m :: 0 <= m < k && Ends(states[m], events[m]) && Observed(states, events, m, id)
  }

  ghost predicate Told(states: seq<State>, events: seq<Event>, k: nat)
    requires |states| == |events| + 1 && k <= |events|
  {
    && (forall id :: id in states[k].pending ==> Requested(states, events, k, id))
    && (forall id :: id in states[k].inRun ==> Observed(states, events, k, id))
    && forall id :: id in states[k].covered ==> Harvested(states, events, k, id)
  }

  lemma ToldGrows(states: seq<State>, events: seq<Event>, k: nat, id: nat)
    requires |states| == |events| + 1 && k < |events|
    ensures Requested(states, events, k, id) ==> Requested(states, events, k + 1, id)
    ensures Observed(states, events, k, id) ==> Observed(states, events, k + 1, id)
    ensures Harvested(states, events, k, id) ==> Harvested(states, events, k + 1, id)
    ensures StoredAt(states, events, k, id) ==> Requested(states, events, k + 1, id)
    ensures Requested(states, events, k, id) && Clears(states[k], events[k]) ==> Observed(states, events, k + 1, id)
    ensures Observed(states, events, k, id) && Ends(states[k], events[k]) ==> Harvested(states, events, k + 1, id)
  {
    hide StoredAt, Clears, Ends;
  }

  /** Where a step puts a call: only its own store makes it pending, only the clearing
      of `dirty` moves it on, and only the end of a run covers it. */
  lemma WhereCallsMove(s: State, e: Event, id: nat)
    requires Step(s, e).Some?
    ensures var t := Step(s, e).value;
            && (id in t.pending ==> id in s.pending || (Stores(s, e) && e.id == id))
            && (id in t.inRun ==> id in s.inRun || (Clears(s, e) && id in s.pending))
            && (id in t.covered ==> id in s.covered || (Ends(s, e) && id in s.inRun))
  {
    if e.CallerStep? {
      CallMoves(s, e.id, id);
      hide CallStep;
    }
  }

  lemma CallMoves(s: State, caller: nat, id: nat)
    requires caller in s.callers && CallStep(s, caller).Some?
    ensures var t := CallStep(s, caller).value;
            && (id in t.pending ==> id in s.pending || (Stores(s, CallerStep(caller)) && caller == id))
            && t.inRun == s.inRun && t.covered == s.covered
  {
  }

  lemma {:induction false} RunIsTold(states: seq<State>, events: seq<Event>, k: nat)
    requires Trace(states, events) && states[0] == INIT && k <= |events|
    ensures Told(states, events, k)
  {
    if k > 0 {
      RunIsTold(states, events, k - 1);
      assert Step(states[k - 1], events[k - 1]) == Some(states[k]);
      forall id
        ensures id in states[k].pending ==> Requested(states, events, k, id)
        ensures id in states[k].inRun ==> Observed(states, events, k, id)
        ensures id in states[k].covered ==> Harvested(states, events, k, id)
      {
        hide Step, Trace, Stores, Clears, Ends, Requested, Observed, Harvested;
        WhereCallsMove(states[k - 1], events[k - 1], id);
        ToldGrows(states, events, k - 1, id);
        assert Stores(states[k - 1], events[k - 1]) && events[k - 1].id == id ==>
                 StoredAt(states, events, k - 1, id) by
        {
          StoredWhen(states, events, k - 1, id);
        }
      }
    }
  }

  lemma StoredWhen(states: seq<State>, events: seq<Event>, i: nat, id: nat)
    requires |states| == |events| + 1 && i < |events|
    ensures Stores(states[i], events[i]) && events[i].id == id ==> StoredAt(states, events, i, id)
  {
  }

  /** A settled answer, over every run: each call that had returned when the query began
      stored its request, a harvest started after that, and that harvest has ended. */
  lemma SettledMeansHarvested(states: seq<State>, events: seq<Event>, k: nat, q: nat, id: nat)
    requires Trace(states, events) && states[0] == INIT && k <= |events|
    requires q in states[k].queries && states[k].queries[q].at == Settled && id in states[k].queries[q].before
    ensures Harvested(states, events, k, id)
  {
    assert Inv(INIT) by { assert Stored(INIT) == {}; }
    TraceKeepsInv(states, events, k);
    RunIsTold(states, events, k);
    assert QueryGood(states[k], states[k].queries[q]);
    hide Harvested, Requested, Observed, Trace;
  }

  /** And the calls a query speaks of are those that had returned when it began, or began
      again. */
  lemma QueriesAskAboutReturned(s: State, e: Event, q: nat)
    requires (e == Ask(q) || e == Retry(q)) && Step(s, e).Some?
    ensures var t := Step(s, e).value;
            q in t.queries && t.queries[q].at == ReadDirty
            && forall id :: id in t.queries[q].before <==> id in s.callers && s.callers[id] == Returned
  {
  }

  /** What a step makes of a query: only its own read moves it on, to settled when it is
      the second read and finds no harvest running; only an unsettled one may ask again or
      give up; an answer is final. */
  lemma WhereQueriesMove(s: State, e: Event, q: nat)
    requires Step(s, e).Some? && q in s.queries
    ensures var (was, t) := (s.queries[q].at, Step(s, e).value);
            && q in t.queries
            && (t.queries[q] != s.queries[q] ==> e in {QueryStep(q), Retry(q), GiveUp(q)})
            && (e == QueryStep(q) ==>
                  && (was == ReadDirty || was == ReadRunning)
                  && t.queries[q].before == s.queries[q].before
                  && t.queries[q].at == (if was == ReadDirty && !s.dirty then ReadRunning
                                         else if was == ReadRunning && !s.running then Settled
                                         else Unsettled))
            && (e == Retry(q) || e == GiveUp(q) ==> was == Unsettled)
            && (e == GiveUp(q) ==> t.queries[q] == Query(GaveUp, s.queries[q].before))
  {
  }

  /** Over every run, what was answered stays answered. */
  lemma {:induction false} AnswersAreFinal(states: seq<State>, events: seq<Event>, j: nat, k: nat, q: nat)
    requires Trace(states, events) && j <= k <= |events|
    requires q in states[j].queries && states[j].queries[q].at in {Settled, GaveUp}
    ensures q in states[k].queries && states[k].queries[q] == states[j].queries[q]
    decreases k - j
  {
    if j < k {
      AnswersAreFinal(states, events, j, k - 1, q);
      assert Step(states[k - 1], events[k - 1]) == Some(states[k]);
      WhereQueriesMove(states[k - 1], events[k - 1], q);
    }
  }

  /** Nobody who asks or calls is ever kept waiting: each can always take its next step. */
  lemma NobodyWaits(s: State, q: nat, id: nat)
    ensures q !in s.queries ==> Step(s, Ask(q)).Some?
    ensures q in s.queries && s.queries[q].at in {ReadDirty, ReadRunning} ==> Step(s, QueryStep(q)).Some?
    ensures q in s.queries && s.queries[q].at == Unsettled ==> Step(s, Retry(q)).Some? && Step(s, GiveUp(q)).Some?
    ensures id !in s.callers ==> Step(s, CallPoke(id)).Some? && Step(s, CallForce(id)).Some?
    ensures id in s.callers && s.callers[id] != Returned ==> Step(s, CallerStep(id)).Some?
  {
  }

  // ----- Pokes wait for the window -------------------------------------------------------

  /** No forced call is about, and the worker is not past the window. */
  predicate Calm(s: State)
  {
    && !s.forceNow && (forall id :: id in s.callers ==> s.callers[id] != ForceStart && s.callers[id] != ForceFlag)
    && s.worker != SetRunning && s.worker != ClearDirty
  }

  /** Without a forced call, only the end of the window starts a harvest. */
  lemma OnlyTheWindowStartsOne(s: State, e: Event)
    requires Calm(s) && Step(s, e).Some? && !e.CallForce?
    ensures Calm(Step(s, e).value) <==> e != Timeout
    ensures Step(s, e).value.running ==> s.running
  {
  }

  lemma {:induction false} PokesWait(states: seq<State>, events: seq<Event>, k: nat)
    requires Trace(states, events) && Calm(states[0]) && !states[0].running && k <= |events|
    requires forall e :: e in events ==> !e.CallForce? && e != Timeout
    ensures Calm(states[k]) && !states[k].running
  {
    if k > 0 {
      PokesWait(states, events, k - 1);
      assert events[k - 1] in events && Step(states[k - 1], events[k - 1]) == Some(states[k]);
      hide Calm, Step, Trace;
      OnlyTheWindowStartsOne(states[k - 1], events[k - 1]);
    }
  }

  // ----- A burst is one run -----------------------------------------------------------------

  /** A poke during the window, and the worker woken by it. */
  function PokeAgain(id: nat): seq<Event>
  {
    [CallPoke(id), CallerStep(id), CallerStep(id), Wake, WorkerStep]
  }

  /** Waiting out the window, with nothing else on the way. */
  predicate Waiting(s: State)
  {
    s.worker == Debounce && !s.permit && !s.forceNow && !s.running
  }

  lemma PokeRestartsTheWindow(s: State, id: nat)
    requires Waiting(s) && id !in s.callers
    ensures var r := Run(s, PokeAgain(id));
            && r.Some? && Waiting(r.value) && r.value.dirty && r.value.pending == s.pending + {id}
            && r.value.callers == s.callers[id := Returned] && r.value.queries == s.queries
            && r.value.inRun == s.inRun && r.value.covered == s.covered
  {
    var s1 := s.(callers := s.callers[id := PokeStart]);
    var s2 := s1.(dirty := true, pending := s.pending + {id}, callers := s1.callers[id := Notifying(false)]);
    var s3 := s2.(permit := true, callers := s2.callers[id := Returned]);
    var s4 := s3.(permit := false, worker := SwapAgain);
    var s5 := s4.(worker := Debounce);
    assert Step(s, CallPoke(id)) == Some(s1);
    assert Step(s1, CallerStep(id)) == Some(s2) && Step(s2, CallerStep(id)) == Some(s3);
    assert Step(s3, Wake) == Some(s4) && Step(s4, WorkerStep) == Some(s5);
    hide Step;
    RunBy([s, s1, s2, s3, s4, s5], PokeAgain(id));
    assert s3.callers == s.callers[id := Returned];
  }

  function Burst(ids: seq<nat>): seq<Event>
  {
    if ids == [] then [] else PokeAgain(ids[0]) + Burst(ids[1..])
  }

  predicate Fresh(s: State, ids: seq<nat>)
  {
    (forall id :: id in ids ==> id !in s.callers) && forall i, j :: 0 <= i < j < |ids| ==> ids[i] != ids[j]
  }

  lemma {:induction false} BurstWaits(s: State, ids: seq<nat>)
    requires Waiting(s) && Fresh(s, ids)
    ensures var r := Run(s, Burst(ids));
            && r.Some? && Waiting(r.value) && r.value.pending == s.pending + (set id | id in ids)
    decreases |ids|
  {
    hide Step, Waiting, Run, PokeAgain;
    if ids == [] {
      assert Run(s, []) == Some(s) by { RunOfNothing(s); }
    } else {
      PokeRestartsTheWindow(s, ids[0]);
      var t := Run(s, PokeAgain(ids[0])).value;
      var rest := ids[1..];
      forall id | id in rest ensures id !in t.callers {
        var i :| 0 <= i < |rest| && rest[i] == id;
        assert ids[0] != ids[i + 1] && id in ids;
      }
      BurstWaits(t, rest);
      RunAppend(s, PokeAgain(ids[0]), Burst(rest));
      assert (set id | id in ids) == {ids[0]} + set id | id in rest by { assert ids == [ids[0]] + rest; }
    }
  }

  lemma RunOfNothing(s: State)
    ensures Run(s, []) == Some(s)
  {
  }

  /** However many pokes come while the window is open, one harvest runs when it closes,
      and it covers them all. */
  lemma BurstIsOneRun(s: State, ids: seq<nat>)
    requires Waiting(s) && Fresh(s, ids)
    ensures var r := Run(s, Burst(ids) + [Timeout, WorkerStep, WorkerStep]);
            && r.Some? && r.value.running && r.value.worker == Running && !r.value.dirty
            && forall id :: id in ids ==> id in r.value.inRun
  {
    BurstWaits(s, ids);
    var t := Run(s, Burst(ids)).value;
    var t1 := t.(worker := SetRunning);
    var t2 := t1.(running := true, worker := ClearDirty);
    var t3 := t2.(dirty := false, inRun := t.pending, pending := {}, worker := Running);
    assert Step(t, Timeout) == Some(t1) && Step(t1, WorkerStep) == Some(t2) && Step(t2, WorkerStep) == Some(t3);
    hide Step;
    RunBy([t, t1, t2, t3], [Timeout, WorkerStep, WorkerStep]);
    RunAppend(s, Burst(ids), [Timeout, WorkerStep, WorkerStep]);
    assert forall id :: id in ids ==> id in t.pending;
  }

  // ----- A forced call does not wait -----------------------------------------------------------

  /** A harvest is to start whether or not the window closes: the flag is set, or the
      worker has seen it. */
  predicate Urgent(s: State)
  {
    s.forceNow || s.worker == SetRunning || s.worker == ClearDirty
  }

  /** A forced call's flag makes it so. */
  lemma ForceIsUrgent(s: State, id: nat)
    requires id in s.callers && s.callers[id] == ForceFlag
    ensures Step(s, CallerStep(id)).Some? && Urgent(Step(s, CallerStep(id)).value)
    ensures Step(s, CallerStep(id)).value.forceNow
  {
  }

  /** It stays so until a harvest clears `dirty`. */
  lemma UrgentStays(s: State, e: Event)
    requires Urgent(s) && Step(s, e).Some?
    ensures Urgent(Step(s, e).value) || Clears(s, e)
  {
  }

  /** Over every run, from a forced call's flag until a harvest starts, a move other than
      the end of the window is open. */
  lemma {:induction false} ForcedNeverWaits(states: seq<State>, events: seq<Event>, k: nat, id: nat)
    requires Trace(states, events) && Inv(states[0]) && 1 <= k <= |events|
    requires id in states[0].callers && states[0].callers[id] == ForceFlag && events[0] == CallerStep(id)
    requires forall j :: 0 <= j < k ==> !Clears(states[j], events[j])
    ensures Urgent(states[k])
    ensures states[k].dirty ==> exists m :: Internal(m) && m != Timeout && Step(states[k], m).Some?
  {
    TraceKeepsInv(states, events, k);
    TraceKeepsInv(states, events, k - 1);
    assert Step(states[k - 1], events[k - 1]) == Some(states[k]);
    hide Step, Inv, Urgent, Clears;
    if k == 1 {
      ForceIsUrgent(states[0], id);
    } else {
      ForcedNeverWaits(states, events, k - 1, id);
      UrgentStays(states[k - 1], events[k - 1]);
    }
    UrgentMoves(states[k]);
  }

  lemma UrgentMoves(s: State)
    requires Inv(s) && Urgent(s)
    ensures s.dirty ==> exists m :: Internal(m) && m != Timeout && Step(s, m).Some?
  {
    if s.dirty {
      if s.forceNow {
        ForcedMovesAtOnce(s);
      } else {
        assert Internal(WorkerStep) && Step(s, WorkerStep).Some?;
      }
    }
  }

  /** Forced while idle: the harvest runs at once, the window never opens. */
  lemma ForceRunsAtOnce(s: State, id: nat)
    requires s.worker == Wait && !s.permit && id !in s.callers
    ensures var r := Run(s, [CallForce(id), CallerStep(id), CallerStep(id), CallerStep(id), Wake, WorkerStep,
                             WorkerStep, WorkerStep]);
            && r.Some? && r.value.running && r.value.worker == Running && id in r.value.inRun
            && !r.value.dirty && !r.value.forceNow
  {
    var s1 := s.(callers := s.callers[id := ForceStart]);
    var s2 := s1.(dirty := true, pending := s.pending + {id}, callers := s1.callers[id := ForceFlag]);
    var s3 := s2.(forceNow := true, callers := s2.callers[id := Notifying(true)]);
    var s4 := s3.(permit := true, callers := s3.callers[id := Returned]);
    var s5 := s4.(permit := false, worker := SwapFirst);
    var s6 := s5.(forceNow := false, worker := SetRunning);
    var s7 := s6.(running := true, worker := ClearDirty);
    var s8 := s7.(dirty := false, inRun := s7.pending, pending := {}, worker := Running);
    assert Step(s, CallForce(id)) == Some(s1) && Step(s1, CallerStep(id)) == Some(s2);
    assert Step(s2, CallerStep(id)) == Some(s3) && Step(s3, CallerStep(id)) == Some(s4);
    assert Step(s4, Wake) == Some(s5) && Step(s5, WorkerStep) == Some(s6);
    assert Step(s6, WorkerStep) == Some(s7) && Step(s7, WorkerStep) == Some(s8);
    hide Step;
    RunBy([s, s1, s2, s3, s4, s5, s6, s7, s8],
          [CallForce(id), CallerStep(id), CallerStep(id), CallerStep(id), Wake, WorkerStep, WorkerStep, WorkerStep]);
  }
}
