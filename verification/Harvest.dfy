/** The background harvest coordinator (src/authoring/harvest_sched.rs) as a step
    machine: callers in the middle of `poke` and `force`, builds in the middle of
    asking whether things are settled, the one-permit `Notify`, and the worker
    task. One event is one atomic access, so a run is one interleaving.

    `pending`, `inRun` and `covered` record which calls each harvest observes;
    no step reads them. */
module Harvest {
  import opened Base

  /** Where the worker stands, named by what it does next. */
  datatype Worker = Wait | SwapFirst | Debounce | SwapAgain | SetRunning | ClearDirty | Running

  /** Where a call of `poke` or `force` stands. */
  datatype Caller = PokeStart | ForceStart | ForceFlag | Notifying(forced: bool) | Returned

  /** `is_unsettled`, and `await_settled` around it. */
  datatype Asker = ReadDirty | ReadRunning | Unsettled | Settled | GaveUp

  /** One call of `is_unsettled`, and the calls that had returned when it began. */
  datatype Query = Query(at: Asker, before: set<nat>)

  datatype State = State(
    dirty: bool, forceNow: bool, permit: bool, running: bool, worker: Worker,
    callers: map<nat, Caller>, queries: map<nat, Query>,
    pending: set<nat>, inRun: set<nat>, covered: set<nat>)

  const INIT := State(false, false, false, false, Wait, map[], map[], {}, {}, {})

  datatype Event =
    | CallPoke(id: nat)
    | CallForce(id: nat)
    | CallerStep(id: nat)
    | Ask(q: nat)
    | QueryStep(q: nat)
    | Retry(q: nat)
    | GiveUp(q: nat)
    | Wake
    | Timeout
    | WorkerStep

  // ----- The steps ------------------------------------------------------------

  function Step(s: State, e: Event): Option<State>
  {
    match e
    case CallPoke(id) => if id in s.callers then None else Some(s.(callers := s.callers[id := PokeStart]))
    case CallForce(id) => if id in s.callers then None else Some(s.(callers := s.callers[id := ForceStart]))
    case CallerStep(id) => if id in s.callers then CallStep(s, id) else None
    case Ask(q) =>
      if q in s.queries then None else Some(s.(queries := s.queries[q := Query(ReadDirty, ReturnedCalls(s))]))
    case QueryStep(q) => if q in s.queries then AskStep(s, q) else None
    case Retry(q) =>
      if q in s.queries && s.queries[q].at == Unsettled
      then Some(s.(queries := s.queries[q := Query(ReadDirty, ReturnedCalls(s))])) else None
    case GiveUp(q) =>
      if q in s.queries && s.queries[q].at == Unsettled
      then Some(s.(queries := s.queries[q := s.queries[q].(at := GaveUp)])) else None
    case Wake =>
      if !s.permit then None
      else if s.worker == Wait then Some(s.(permit := false, worker := SwapFirst))
      else if s.worker == Debounce then Some(s.(permit := false, worker := SwapAgain))
      else None
    case Timeout => if s.worker == Debounce then Some(s.(worker := SetRunning)) else None
    case WorkerStep => WorkStep(s)
  }

  /** `dirty` first, `force_now` next for a forced call, the notification last. */
  function CallStep(s: State, id: nat): Option<State>
    requires id in s.callers
  {
    match s.callers[id]
    case PokeStart =>
      Some(s.(dirty := true, pending := s.pending + {id}, callers := s.callers[id := Notifying(false)]))
    case ForceStart =>
      Some(s.(dirty := true, pending := s.pending + {id}, callers := s.callers[id := ForceFlag]))
    case ForceFlag => Some(s.(forceNow := true, callers := s.callers[id := Notifying(true)]))
    case Notifying(_) => Some(s.(permit := true, callers := s.callers[id := Returned]))
    case Returned => None
  }

  /** Two reads in two steps, the second only when the first found nothing. */
  function AskStep(s: State, q: nat): Option<State>
    requires q in s.queries
  {
    var asked := s.queries[q];
    match asked.at
    case ReadDirty =>
      Some(s.(queries := s.queries[q := asked.(at := if s.dirty then Unsettled else ReadRunning)]))
    case ReadRunning =>
      Some(s.(queries := s.queries[q := asked.(at := if s.running then Unsettled else Settled)]))
    case _ => None
  }

  /** The worker loop; what was requested before it clears `dirty` is seen by
      the harvest that follows. */
  function WorkStep(s: State): Option<State>
  {
    match s.worker
    case SwapFirst => Some(s.(forceNow := false, worker := if s.forceNow then SetRunning else Debounce))
    case SwapAgain => Some(s.(forceNow := false, worker := if s.forceNow then SetRunning else Debounce))
    case SetRunning => Some(s.(running := true, worker := ClearDirty))
    case ClearDirty => Some(s.(dirty := false, inRun := s.pending, pending := {}, worker := Running))
    case Running => Some(s.(running := false, covered := s.covered + s.inRun, inRun := {}, worker := Wait))
    case _ => None
  }

  function ReturnedCalls(s: State): set<nat>
  {
    set id | id in s.callers && s.callers[id] == Returned
  }

  function Run(s: State, events: seq<Event>): Option<State>
    decreases |events|
  {
    if events == [] then Some(s)
    else match Step(s, events[0]) case None => None case Some(t) => Run(t, events[1..])
  }

  // ----- What every step keeps ---------------------------------------------------

  /** Calls that have made their request visible. */
  function Stored(s: State): set<nat>
  {
    set id | id in s.callers && s.callers[id] != PokeStart && s.callers[id] != ForceStart
  }

  predicate MidCall(s: State, id: nat)
  {
    id in s.callers && (s.callers[id] == ForceFlag || s.callers[id].Notifying?)
  }

  predicate ForceInFlight(s: State, id: nat)
  {
    id in s.callers && s.callers[id] == Notifying(true)
  }

  predicate Woken(w: Worker)
  {
    w != Wait && w != Running
  }

  /** A set `dirty` has someone who will act on it. */
  ghost predicate NotStranded(s: State)
  {
    s.dirty ==> s.permit || Woken(s.worker) || exists id :: MidCall(s, id)
  }

  /** So has a set `force_now`. */
  ghost predicate ForceNotStranded(s: State)
  {
    s.forceNow ==> s.permit || s.worker == SwapFirst || s.worker == SwapAgain || exists id :: ForceInFlight(s, id)
  }

  /** Every visible request is waiting for a run, in one, or covered by one that ended. */
  predicate Accounted(s: State)
  {
    && Stored(s) == s.pending + s.inRun + s.covered
    && (s.dirty <==> s.pending != {})
    && (s.inRun != {} ==> s.worker == Running)
    && (s.running <==> s.worker == ClearDirty || s.worker == Running)
  }

  predicate QueryGood(s: State, q: Query)
  {
    && q.before <= Stored(s)
    && (q.at == ReadRunning ==> q.before !! s.pending)
    && (q.at == Settled ==> q.before <= s.covered)
  }

  ghost predicate Inv(s: State)
  {
    && NotStranded(s) && ForceNotStranded(s) && Accounted(s)
    && forall q :: q in s.queries ==> QueryGood(s, s.queries[q])
  }

  /** Queries do not lose by a step that makes requests visible or covers them. */
  lemma QueriesKept(s: State, t: State)
    requires forall q :: q in s.queries ==> QueryGood(s, s.queries[q])
    requires t.queries == s.queries && Stored(s) <= Stored(t) && s.covered <= t.covered
    requires t.pending * Stored(s) <= s.pending
    ensures forall q :: q in t.queries ==> QueryGood(t, t.queries[q])
  {
    hide Stored;
    forall q | q in t.queries ensures QueryGood(t, t.queries[q]) {
      assert QueryGood(s, s.queries[q]);
    }
  }

  lemma CallKeepsInv(s: State, id: nat)
    requires Inv(s) && id in s.callers && CallStep(s, id).Some?
    ensures Inv(CallStep(s, id).value)
  {
    var t := CallStep(s, id).value;
    assert Stored(t) == Stored(s) + {id};
    assert s.callers[id].PokeStart? || s.callers[id].ForceStart? ==> id !in Stored(s);
    CallKeepsAccounts(s, id);
    CallStrandsNothing(s, id);
    assert t.queries == s.queries && s.covered <= t.covered && t.pending * Stored(s) <= s.pending;
    hide NotStranded, ForceNotStranded, Accounted, Stored, CallStep;
    QueriesKept(s, t);
  }

  lemma CallKeepsAccounts(s: State, id: nat)
    requires Accounted(s) && id in s.callers && CallStep(s, id).Some?
    requires Stored(CallStep(s, id).value) == Stored(s) + {id}
    requires s.callers[id].PokeStart? || s.callers[id].ForceStart? ==> id !in Stored(s)
    ensures Accounted(CallStep(s, id).value)
  {
    assert s.callers[id].PokeStart? || s.callers[id].ForceStart? || id in Stored(s);
    hide Stored;
    match s.callers[id]
    case PokeStart =>
    case ForceStart =>
    case ForceFlag => assert Stored(s) + {id} == Stored(s);
    case Notifying(_) => assert Stored(s) + {id} == Stored(s);
  }

  lemma CallStrandsNothing(s: State, id: nat)
    requires NotStranded(s) && ForceNotStranded(s) && id in s.callers && CallStep(s, id).Some?
    ensures NotStranded(CallStep(s, id).value) && ForceNotStranded(CallStep(s, id).value)
  {
    var t := CallStep(s, id).value;
    if !t.permit {
      assert MidCall(t, id);
      assert t.forceNow && !s.forceNow ==> ForceInFlight(t, id);
      if i :| i != id && ForceInFlight(s, i) {
        assert ForceInFlight(t, i);
      }
    }
  }

  lemma AskKeepsInv(s: State, q: nat)
    requires Inv(s) && q in s.queries && AskStep(s, q).Some?
    ensures Inv(AskStep(s, q).value)
  {
    var t := AskStep(s, q).value;
    Unchanged(s, t);
    hide Stored, MidCall, ForceInFlight;
    AskedStaysGood(s, q);
    forall r | r in t.queries ensures QueryGood(t, t.queries[r]) {
      assert r in s.queries && QueryGood(s, s.queries[r]);
    }
  }

  /** Reading `dirty` clear rules out waiting requests, reading `running` clear
      then rules out requests in a run. */
  lemma AskedStaysGood(s: State, q: nat)
    requires Accounted(s) && q in s.queries && QueryGood(s, s.queries[q]) && AskStep(s, q).Some?
    requires Stored(AskStep(s, q).value) == Stored(s)
    ensures q in AskStep(s, q).value.queries
    ensures QueryGood(AskStep(s, q).value, AskStep(s, q).value.queries[q])
  {
    hide Stored;
  }

  /** Steps that leave the calls alone leave the calls in flight alone. */
  lemma Unchanged(s: State, t: State)
    requires s.callers == t.callers
    ensures Stored(t) == Stored(s)
    ensures forall id :: MidCall(t, id) <==> MidCall(s, id)
    ensures forall id :: ForceInFlight(t, id) <==> ForceInFlight(s, id)
  {
  }

  /** What the worker does next when nobody else moves. */
  predicate WorkerMoves(s: State, e: Event)
  {
    e == Wake || e == Timeout || e == WorkerStep
  }

  lemma WorkKeepsAccounts(s: State, e: Event)
    requires Accounted(s) && WorkerMoves(s, e) && Step(s, e).Some?
    requires Stored(Step(s, e).value) == Stored(s)
    ensures var t := Step(s, e).value; Accounted(t) && s.covered <= t.covered && t.pending <= s.pending
  {
    hide Stored;
    if e == WorkerStep {
      match s.worker
      case SwapFirst =>
      case SwapAgain =>
      case SetRunning =>
      case ClearDirty =>
        assert s.inRun == {};
      case Running =>
    }
  }

  lemma WorkStrandsNothing(s: State, e: Event)
    requires NotStranded(s) && ForceNotStranded(s) && WorkerMoves(s, e) && Step(s, e).Some?
    requires forall id :: MidCall(s, id) ==> MidCall(Step(s, e).value, id)
    requires forall id :: ForceInFlight(s, id) ==> ForceInFlight(Step(s, e).value, id)
    ensures NotStranded(Step(s, e).value) && ForceNotStranded(Step(s, e).value)
  {
    hide MidCall, ForceInFlight;
  }

  lemma WorkKeepsInv(s: State, e: Event)
    requires Inv(s) && WorkerMoves(s, e) && Step(s, e).Some?
    ensures Inv(Step(s, e).value)
  {
    var t := Step(s, e).value;
    assert s.callers == t.callers && s.queries == t.queries;
    Unchanged(s, t);
    hide Stored, MidCall, ForceInFlight, Step, Accounted;
    WorkKeepsAccounts(s, e);
    WorkStrandsNothing(s, e);
    QueriesKept(s, t);
  }

  lemma StepKeepsInv(s: State, e: Event)
    requires Inv(s) && Step(s, e).Some?
    ensures Inv(Step(s, e).value)
  {
    var t := Step(s, e).value;
    match e
    case CallerStep(id) => CallKeepsInv(s, id);
    case QueryStep(q) => AskKeepsInv(s, q);
    case Ask(q) =>
      Unchanged(s, t);
      forall r | r in t.queries ensures QueryGood(t, t.queries[r]) {
        assert r in s.queries ==> QueryGood(s, s.queries[r]);
      }
    case Retry(q) => RelabelKeepsInv(s, q, t);
    case GiveUp(q) => RelabelKeepsInv(s, q, t);
    case CallPoke(id) => NewCallKeepsInv(s, id, t);
    case CallForce(id) => NewCallKeepsInv(s, id, t);
    case _ => WorkKeepsInv(s, e);
  }

  lemma RelabelKeepsInv(s: State, q: nat, t: State)
    requires Inv(s) && q in s.queries
    requires t == s.(queries := s.queries[q := Query(ReadDirty, ReturnedCalls(s))])
          || t == s.(queries := s.queries[q := s.queries[q].(at := GaveUp)])
    ensures Inv(t)
  {
    Unchanged(s, t);
    forall r | r in t.queries ensures QueryGood(t, t.queries[r]) {
      assert r in s.queries && QueryGood(s, s.queries[r]);
    }
  }

  lemma NewCallKeepsInv(s: State, id: nat, t: State)
    requires Inv(s) && id !in s.callers
    requires t == s.(callers := s.callers[id := PokeStart]) || t == s.(callers := s.callers[id := ForceStart])
    ensures Inv(t)
  {
    assert Stored(t) == Stored(s);
    assert forall i :: MidCall(s, i) ==> MidCall(t, i);
    assert forall i :: ForceInFlight(s, i) ==> ForceInFlight(t, i);
    forall q | q in t.queries ensures QueryGood(t, t.queries[q]) {
      assert QueryGood(s, s.queries[q]);
    }
  }

  lemma {:induction false} RunKeepsInv(s: State, events: seq<Event>, t: State)
    requires Inv(s) && Run(s, events) == Some(t)
    ensures Inv(t)
    decreases |events|
  {
    if events != [] {
      StepKeepsInv(s, events[0]);
      RunKeepsInv(Step(s, events[0]).value, events[1..], t);
    }
  }

  // ----- Safety over every interleaving --------------------------------------------

  /** However calls, queries and the worker interleave, a request is never lost:
      either somebody is about to act on it, or a harvest has observed it. */
  lemma NeverStranded(events: seq<Event>, s: State)
    requires Run(INIT, events) == Some(s)
    ensures NotStranded(s) && ForceNotStranded(s)
    ensures forall id :: id in Stored(s) && id !in s.inRun && id !in s.covered ==> s.dirty
  {
    assert Inv(INIT) by { assert Stored(INIT) == {}; }
    RunKeepsInv(INIT, events, s);
  }

  /** When a build is told things are settled, every call that had returned
      before it began asking is covered by a harvest that has ended. */
  lemma SettledMeansCovered(events: seq<Event>, s: State, q: nat)
    requires Run(INIT, events) == Some(s)
    requires q in s.queries && s.queries[q].at == Settled
    ensures s.queries[q].before <= s.covered
  {
    assert Inv(INIT) by { assert Stored(INIT) == {}; }
    RunKeepsInv(INIT, events, s);
    assert QueryGood(s, s.queries[q]);
  }

  predicate SettledNow(s: State)
  {
    !s.dirty && !s.running
  }

  predicate Trace(states: seq<State>, events: seq<Event>)
  {
    && |states| == |events| + 1
    && forall k :: 0 <= k < |events| ==> Step(states[k], events[k]) == Some(states[k + 1])
  }

  const BEFORE_QUERY: seq<Event> := [
    CallPoke(0), CallerStep(0), CallerStep(0), Wake, WorkerStep, Timeout, WorkerStep, WorkerStep, Ask(0)]
  const DURING_QUERY: seq<Event> := [QueryStep(0), CallPoke(1), CallerStep(1), WorkerStep, QueryStep(0)]

  const POKED := INIT.(dirty := true, pending := {0}, permit := true, callers := map[0 := Returned])
  const TAKEN_UP: seq<Event> := [Wake, WorkerStep, Timeout, WorkerStep, WorkerStep]

  lemma PokeReturns()
    ensures Run(INIT, [CallPoke(0), CallerStep(0), CallerStep(0)]) == Some(POKED)
  {
    var s1 := INIT.(callers := map[0 := PokeStart]);
    var s2 := s1.(dirty := true, pending := {0}, callers := map[0 := Notifying(false)]);
    assert s1.callers[0 := Notifying(false)] == s2.callers && s2.callers[0 := Returned] == POKED.callers;
    assert INIT.pending + {0} == {0};
    assert Step(INIT, CallPoke(0)) == Some(s1);
    assert Step(s1, CallerStep(0)) == Some(s2);
    assert Step(s2, CallerStep(0)) == Some(POKED);
    hide Step;
    RunBy([INIT, s1, s2, POKED], [CallPoke(0), CallerStep(0), CallerStep(0)]);
  }

  lemma WorkerTakesItUp(s: State, t: State)
    requires s.permit && s.worker == Wait && !s.forceNow && s.pending == {0}
    requires t == s.(permit := false, dirty := false, running := true, worker := Running, pending := {}, inRun := {0})
    ensures Run(s, TAKEN_UP) == Some(t)
  {
    var s1 := s.(permit := false, worker := SwapFirst);
    var s2 := s1.(worker := Debounce);
    var s3 := s2.(worker := SetRunning);
    var s4 := s3.(running := true, worker := ClearDirty);
    assert Step(s, Wake) == Some(s1) && Step(s1, WorkerStep) == Some(s2) && Step(s2, Timeout) == Some(s3);
    assert Step(s3, WorkerStep) == Some(s4) && Step(s4, WorkerStep) == Some(t);
    hide Step;
    RunBy([s, s1, s2, s3, s4, t], TAKEN_UP);
  }

  /** One poke, the worker takes it up, and a build asks while its harvest runs. */
  lemma HarvestUnderWay() returns (s: State)
    ensures Run(INIT, BEFORE_QUERY) == Some(s)
    ensures !s.dirty && s.running && s.worker == Running && 1 !in s.callers
    ensures s.queries == map[0 := Query(ReadDirty, {0})]
  {
    PokeReturns();
    var s8 := POKED.(permit := false, dirty := false, running := true, worker := Running, pending := {}, inRun := {0});
    WorkerTakesItUp(POKED, s8);
    s := s8.(queries := map[0 := Query(ReadDirty, {0})]);
    assert ReturnedCalls(s8) == {0};
    assert s8.queries[0 := Query(ReadDirty, {0})] == s.queries;
    assert Step(s8, Ask(0)) == Some(s);
    hide Step, Run;
    RunBy([s8, s], [Ask(0)]);
    var begin := [CallPoke(0), CallerStep(0), CallerStep(0)];
    RunAppend(INIT, begin, TAKEN_UP + [Ask(0)]);
    RunAppend(POKED, TAKEN_UP, [Ask(0)]);
    assert BEFORE_QUERY == begin + (TAKEN_UP + [Ask(0)]);
  }

  /** The stronger reading is false: a build can be told things are settled
      though at no instant of its query were they. It reads `dirty` while a
      harvest runs, a poke lands, the harvest ends, and it reads `running`. */
  lemma SettledWithoutASettledInstant() returns (asked: State, during: seq<State>)
    ensures Run(INIT, BEFORE_QUERY) == Some(asked)
    ensures Trace(during, DURING_QUERY) && during[0] == asked
    ensures 0 in asked.queries && asked.queries[0].at == ReadDirty
    ensures 0 in during[5].queries && during[5].queries[0].at == Settled
    ensures forall k :: 0 <= k <= 5 ==> !SettledNow(during[k])
  {
    asked := HarvestUnderWay();
    hide Run;
    during := AskedAndAnswered(asked);
  }

  lemma AskedAndAnswered(s: State) returns (during: seq<State>)
    requires !s.dirty && s.running && s.worker == Running && 1 !in s.callers
    requires s.queries == map[0 := Query(ReadDirty, {0})]
    ensures Trace(during, DURING_QUERY) && during[0] == s
    ensures 0 in during[5].queries && during[5].queries[0].at == Settled
    ensures forall k :: 0 <= k <= 5 ==> !SettledNow(during[k])
  {
    var t1 := Step(s, QueryStep(0)).value;
    assert t1 == s.(queries := t1.queries) && t1.queries[0].at == ReadRunning;
    var t2 := Step(t1, CallPoke(1)).value;
    assert t2 == t1.(callers := t2.callers) && t2.callers[1] == PokeStart;
    var t3 := Step(t2, CallerStep(1)).value;
    assert t3.dirty && t3.worker == Running && t3.queries == t1.queries;
    var t4 := Step(t3, WorkerStep).value;
    assert t4.dirty && !t4.running && t4.queries == t1.queries;
    var t5 := Step(t4, QueryStep(0)).value;
    assert t5.dirty && 0 in t5.queries && t5.queries[0].at == Settled;
    hide Step;
    during := [s, t1, t2, t3, t4, t5];
  }

  // ----- When the answer does hold of an instant --------------------------------------

  /** A call's request becoming visible. */
  predicate Stores(s: State, e: Event)
  {
    e.CallerStep? && e.id in s.callers && (s.callers[e.id] == PokeStart || s.callers[e.id] == ForceStart)
  }

  predicate Clears(s: State, e: Event)
  {
    e == WorkerStep && s.worker == ClearDirty
  }

  /** A harvest ending. */
  predicate Ends(s: State, e: Event)
  {
    e == WorkerStep && s.worker == Running
  }

  /** Only a call's store sets `dirty` and only the worker clears it; only the end of
      a harvest that finds it clear settles what was not settled. */
  lemma WhatSettles(s: State, e: Event)
    requires Accounted(s) && Step(s, e).Some?
    ensures var t := Step(s, e).value;
            && (t.dirty <==> Stores(s, e) || (s.dirty && !Clears(s, e)))
            && (Ends(s, e) ==> !t.running && t.dirty == s.dirty)
            && (SettledNow(t) ==> SettledNow(s) || (Ends(s, e) && !s.dirty))
  {
    hide Stored;
  }

  /** A call has stored its request before the `k`-th step and nothing has cleared it. */
  predicate StoreWaiting(states: seq<State>, events: seq<Event>, k: nat)
    requires |states| == |events| + 1 && k <= |events|
  {
    exists j :: 0 <= j < k && Stores(states[j], events[j]) && forall c :: j < c < k ==> !Clears(states[c], events[c])
  }

  ghost predicate AccountedTrace(states: seq<State>, events: seq<Event>)
  {
    Trace(states, events) && forall k :: 0 <= k < |states| ==> Accounted(states[k])
  }

  lemma WaitingNext(states: seq<State>, events: seq<Event>, k: nat)
    requires |states| == |events| + 1 && 1 <= k <= |events|
    ensures StoreWaiting(states, events, k)
       <==> Stores(states[k - 1], events[k - 1])
            || (StoreWaiting(states, events, k - 1) && !Clears(states[k - 1], events[k - 1]))
  {
    hide Stores, Clears;
    if StoreWaiting(states, events, k - 1) && !Clears(states[k - 1], events[k - 1]) {
      var j :| 0 <= j < k - 1 && Stores(states[j], events[j])
        && forall c :: j < c < k - 1 ==> !Clears(states[c], events[c]);
      assert forall c :: j < c < k ==> !Clears(states[c], events[c]);
    }
  }

  lemma {:induction false} DirtyIffStoreWaiting(states: seq<State>, events: seq<Event>, k: nat)
    requires AccountedTrace(states, events) && !states[0].dirty && k <= |events|
    ensures states[k].dirty <==> StoreWaiting(states, events, k)
  {
    if k > 0 {
      DirtyIffStoreWaiting(states, events, k - 1);
      assert Step(states[k - 1], events[k - 1]) == Some(states[k]) && Accounted(states[k - 1]);
      hide *;
      WhatSettles(states[k - 1], events[k - 1]);
      WaitingNext(states, events, k);
    }
  }

  /** Starting with `dirty` clear, some instant is settled exactly when no harvest was
      running at the start, or one ended with no call's store waiting. */
  lemma SettledInstantIff(states: seq<State>, events: seq<Event>)
    requires AccountedTrace(states, events) && !states[0].dirty
    ensures (exists k :: 0 <= k <= |events| && SettledNow(states[k]))
       <==> !states[0].running
            || exists k :: 0 <= k < |events| && Ends(states[k], events[k]) && !StoreWaiting(states, events, k)
  {
    if k :| 0 <= k < |events| && Ends(states[k], events[k]) && !StoreWaiting(states, events, k) {
      DirtyIffStoreWaiting(states, events, k);
      assert Step(states[k], events[k]) == Some(states[k + 1]);
      WhatSettles(states[k], events[k]);
      assert SettledNow(states[k + 1]);
    }
    if !states[0].running {
      assert SettledNow(states[0]);
    }
    if k :| 0 <= k <= |events| && SettledNow(states[k]) {
      FirstSettles(states, events, k);
    }
  }

  lemma {:induction false} FirstSettles(states: seq<State>, events: seq<Event>, k: nat)
    requires AccountedTrace(states, events) && !states[0].dirty
    requires k <= |events| && SettledNow(states[k])
    ensures !states[0].running
            || exists j :: 0 <= j < |events| && Ends(states[j], events[j]) && !StoreWaiting(states, events, j)
  {
    if k > 0 {
      assert Step(states[k - 1], events[k - 1]) == Some(states[k]);
      WhatSettles(states[k - 1], events[k - 1]);
      DirtyIffStoreWaiting(states, events, k - 1);
      hide Step, Accounted, Stores, Clears, Ends, StoreWaiting;
      if SettledNow(states[k - 1]) {
        FirstSettles(states, events, k - 1);
      }
    }
  }

  /** From the read of `dirty` that found it clear to the read of `running` that found
      it clear, on any run: the states at the two reads are the first and the last. */
  ghost predicate Window(before: seq<Event>, states: seq<State>, events: seq<Event>, q: nat)
  {
    && Trace(states, events) && Run(INIT, before) == Some(states[0])
    && q in states[0].queries && states[0].queries[q].at == ReadDirty
    && events != [] && events[0] == QueryStep(q) && states[1].queries[q].at == ReadRunning
    && var last := states[|events|];
       Step(last, QueryStep(q)).Some? && Step(last, QueryStep(q)).value.queries[q].at == Settled
  }

  lemma WindowReads(before: seq<Event>, states: seq<State>, events: seq<Event>, q: nat)
    requires Window(before, states, events, q)
    ensures AccountedTrace(states, events) && !states[0].dirty && !states[|events|].running
  {
    assert Inv(INIT) by { assert Stored(INIT) == {}; }
    RunKeepsInv(INIT, before, states[0]);
    forall k | 0 <= k < |states| ensures Accounted(states[k]) {
      TraceKeepsInv(states, events, k);
    }
    assert Step(states[0], QueryStep(q)) == Some(states[1]);
  }

  lemma {:induction false} TraceKeepsInv(states: seq<State>, events: seq<Event>, k: nat)
    requires Trace(states, events) && Inv(states[0]) && k <= |events|
    ensures Inv(states[k])
  {
    if k > 0 {
      TraceKeepsInv(states, events, k - 1);
      assert Step(states[k - 1], events[k - 1]) == Some(states[k]);
      hide Inv, Step;
      StepKeepsInv(states[k - 1], events[k - 1]);
    }
  }

  /** A settled answer holds of some instant of its query exactly when no harvest was
      running at the first read, or one ended between the reads with no store waiting. */
  lemma AnswerHoldsOfAnInstantIff(before: seq<Event>, states: seq<State>, events: seq<Event>, q: nat)
    requires Window(before, states, events, q)
    ensures (exists k :: 0 <= k <= |events| && SettledNow(states[k]))
       <==> !states[0].running
            || exists k :: 0 <= k < |events| && Ends(states[k], events[k]) && !StoreWaiting(states, events, k)
  {
    WindowReads(before, states, events, q);
    SettledInstantIff(states, events);
  }

  /** In particular, when no call's store falls between the reads, the instant of the
      second read is settled. */
  lemma NoStoreMeansSettled(before: seq<Event>, states: seq<State>, events: seq<Event>, q: nat)
    requires Window(before, states, events, q)
    requires forall k :: 0 <= k < |events| ==> !Stores(states[k], events[k])
    ensures SettledNow(states[|events|])
  {
    WindowReads(before, states, events, q);
    DirtyIffStoreWaiting(states, events, |events|);
  }

  /** A run told state by state. */
  lemma {:induction false} RunBy(states: seq<State>, events: seq<Event>)
    requires Trace(states, events)
    ensures Run(states[0], events) == Some(states[|events|])
    decreases |events|
  {
    hide Step;
    if events != [] {
      RunBy(states[1..], events[1..]);
    }
  }

  lemma {:induction false} RunAppend(s: State, first: seq<Event>, then_: seq<Event>)
    requires Run(s, first).Some?
    ensures Run(s, first + then_) == Run(Run(s, first).value, then_)
    decreases |first|
  {
    hide Step;
    if first == [] {
      assert first + then_ == then_;
    } else {
      assert (first + then_)[0] == first[0] && (first + then_)[1..] == first[1..] + then_;
      RunAppend(Step(s, first[0]).value, first[1..], then_);
    }
  }

  // ----- Progress -----------------------------------------------------------------------

  /** Steps of calls under way and of the worker: nothing new is asked for. */
  predicate Internal(e: Event)
  {
    e.CallerStep? || e.Wake? || e.Timeout? || e.WorkerStep?
  }

  function Left(c: Caller): nat
  {
    match c
    case ForceStart => 3
    case PokeStart => 2
    case ForceFlag => 2
    case Notifying(_) => 1
    case Returned => 0
  }

  function WithLeft(s: State, n: nat): set<nat>
  {
    set id | id in s.callers && Left(s.callers[id]) >= n
  }

  function Distance(w: Worker): nat
  {
    match w
    case Running => 8
    case Wait => 7
    case SwapFirst => 6
    case SwapAgain => 5
    case Debounce => 4
    case SetRunning => 3
    case ClearDirty => 2
  }

  /** Steps still owed by calls, a stored wake, and the worker's way to clearing. */
  function Rank(s: State): nat
  {
    3 * (|WithLeft(s, 1)| + |WithLeft(s, 2)| + |WithLeft(s, 3)|)
    + (if s.permit then 2 else 0) + Distance(s.worker)
  }

  lemma ForcedMovesAtOnce(s: State)
    requires ForceNotStranded(s) && s.forceNow
    ensures exists e :: Internal(e) && e != Timeout && Step(s, e).Some?
  {
    if s.permit && (s.worker == Wait || s.worker == Debounce) {
      assert Internal(Wake) && Step(s, Wake).Some?;
    } else if s.worker != Wait && s.worker != Debounce {
      assert Internal(WorkerStep) && Step(s, WorkerStep).Some?;
    } else {
      var id :| ForceInFlight(s, id);
      assert Internal(CallerStep(id)) && Step(s, CallerStep(id)).Some?;
    }
  }

  /** While a request is pending something can move, and a forced one need not
      wait for the debounce window. */
  lemma SomethingCanMove(s: State)
    requires Inv(s) && s.dirty
    ensures exists e :: Internal(e) && Step(s, e).Some?
    ensures s.forceNow ==> exists e :: Internal(e) && e != Timeout && Step(s, e).Some?
  {
    if s.forceNow {
      ForcedMovesAtOnce(s);
    }
    if s.worker == Debounce {
      assert Internal(Timeout) && Step(s, Timeout).Some?;
    } else if s.worker != Wait {
      assert Internal(WorkerStep) && Step(s, WorkerStep).Some?;
    } else if s.permit {
      assert Internal(Wake) && Step(s, Wake).Some?;
    } else {
      var id :| MidCall(s, id);
      assert Internal(CallerStep(id)) && Step(s, CallerStep(id)).Some?;
    }
  }

  lemma CallOwesOneLess(s: State, id: nat, t: State)
    requires id in s.callers && CallStep(s, id) == Some(t)
    ensures |WithLeft(t, 1)| + |WithLeft(t, 2)| + |WithLeft(t, 3)|
         == |WithLeft(s, 1)| + |WithLeft(s, 2)| + |WithLeft(s, 3)| - 1
    ensures t.worker == s.worker && (!s.permit || t.permit)
  {
    var l := Left(s.callers[id]);
    var after := t.callers[id];
    assert Left(after) == l - 1 && t.callers == s.callers[id := after];
    assert t.worker == s.worker && (!s.permit || t.permit);
    hide CallStep;
    OneLess(s, id, t, 1);
    OneLess(s, id, t, 2);
    OneLess(s, id, t, 3);
  }

  lemma OneLess(s: State, id: nat, t: State, n: nat)
    requires id in s.callers && id in t.callers && t.callers == s.callers[id := t.callers[id]]
    requires Left(t.callers[id]) == Left(s.callers[id]) - 1
    ensures |WithLeft(t, n)| == |WithLeft(s, n)| - if n == Left(s.callers[id]) then 1 else 0
  {
    if n == Left(s.callers[id]) {
      assert id in WithLeft(s, n);
      assert WithLeft(t, n) == WithLeft(s, n) - {id};
    } else {
      assert WithLeft(t, n) == WithLeft(s, n);
    }
  }

  lemma WorkerGetsCloser(s: State, e: Event)
    requires s.dirty && WorkerMoves(s, e) && Step(s, e).Some?
    ensures var t := Step(s, e).value;
            && t.callers == s.callers
            && (!t.dirty ||
                (if t.permit then 2 else 0) + Distance(t.worker) < (if s.permit then 2 else 0) + Distance(s.worker))
  {
  }

  /** Every such move either lets a harvest observe the request or brings that nearer. */
  lemma MovesBringItNearer(s: State, e: Event, t: State)
    requires s.dirty && Internal(e) && Step(s, e) == Some(t)
    ensures !t.dirty || Rank(t) < Rank(s)
  {
    if e.CallerStep? {
      CallOwesOneLess(s, e.id, t);
    } else {
      hide Step, WithLeft;
      WorkerGetsCloser(s, e);
      SameLeft(s, t);
    }
  }

  lemma SameLeft(s: State, t: State)
    requires s.callers == t.callers
    ensures WithLeft(t, 1) == WithLeft(s, 1) && WithLeft(t, 2) == WithLeft(s, 2) && WithLeft(t, 3) == WithLeft(s, 3)
  {
  }

  /** With no further pokes the worker clears the request: no run of `Rank` such
      moves, however chosen, keeps `dirty` set throughout. */
  lemma {:induction false} EventuallyObserved(s: State, events: seq<Event>)
    requires s.dirty && forall e :: e in events ==> Internal(e)
    requires Run(s, events).Some? && |events| >= Rank(s)
    ensures exists k :: 0 <= k <= |events| && Run(s, events[..k]).Some? && !Run(s, events[..k]).value.dirty
    decreases |events|
  {
    assert Rank(s) > 0;
    var t := Step(s, events[0]).value;
    MovesBringItNearer(s, events[0], t);
    if t.dirty {
      EventuallyObserved(t, events[1..]);
      var k :| 0 <= k <= |events| - 1 && Run(t, events[1..][..k]).Some? && !Run(t, events[1..][..k]).value.dirty;
      assert events[..k + 1][1..] == events[1..][..k] && events[..k + 1][0] == events[0];
      assert Run(s, events[..k + 1]) == Run(t, events[1..][..k]);
    } else {
      assert events[..1][1..] == [] && events[..1][0] == events[0];
      assert Run(s, events[..1]) == Run(t, []);
    }
  }
}
