/** Publishing builds (src/jobs.rs, src/storage.rs): real builds of one pack take
    its lock, number themselves against what is published, write the manifest and
    then move `latest`; deleting a pack takes no lock and unlinks one file after the
    other. One event is one step of one job or one file unlinked, so a run is one
    interleaving of any number of builds and deletions, finished or broken off. */
module Publish {
  import opened Base
  import opened Texts
  import opened Sorting
  import opened Versions

  // ----- The manifest directory ---------------------------------------------------------

  datatype Manifests = Manifests(published: map<string, string>, latest: Option<string>)

  const NONE_YET := Manifests(map[], None)

  predicate Refuses(m: Manifests, version: string, overwrite: bool)
  {
    !overwrite && version in m.published
  }

  /** The manifest files of one pack. */
  class ManifestDir {
    var published: map<string, string>
    var latest: Option<string>

    function Contents(): Manifests
      reads this
    {
      Manifests(published, latest)
    }

    constructor ()
      ensures Contents() == NONE_YET
    {
      published, latest := map[], None;
    }

    /** `save_manifest`: a published version is replaced only on request. */
    method SaveManifest(version: string, manifest: string, overwrite: bool) returns (saved: bool)
      modifies this
      ensures saved <==> !Refuses(old(Contents()), version, overwrite)
      ensures Contents() == if saved then old(Contents()).(published := old(published)[version := manifest])
                            else old(Contents())
    {
      if !overwrite && version in published {
        return false;
      }
      published := published[version := manifest];
      saved := true;
    }

    /** `set_latest_manifest`. */
    method SetLatest(version: string)
      modifies this
      ensures Contents() == old(Contents()).(latest := Some(version))
    {
      latest := Some(version);
    }
  }

  // ----- Jobs -------------------------------------------------------------------------------

  /** What a build was asked for; without a version it takes the next one of its base. */
  datatype Request = Request(pack: string, dryRun: bool, version: Option<string>, base: string, overwrite: bool)

  datatype Outcome = Published(version: string) | Previewed | Failed | Conflict

  /** Where a build stands; from `Building` to `Pointed` it holds its pack's lock. */
  datatype Stage =
    | Queued
    | Building
    | Numbered(version: string)
    | Saved(version: string)
    | Pointed(version: string)
    | Over(outcome: Outcome)

  datatype Job = Job(req: Request, stage: Stage)

  datatype Pack = Pack(lock: Option<nat>, dir: Manifests)

  datatype State = State(packs: map<string, Pack>, jobs: map<nat, Job>)

  datatype Event =
    | Spawn(id: nat, req: Request)
    | Acquire(id: nat)
    | Number(id: nat, listing: seq<string>)
    | Save(id: nat, manifest: string)
    | Point(id: nat)
    | Finish(id: nat)
    | Fail(id: nat)
    | Preview(id: nat)
    | UnlinkManifest(pack: string, version: string)
    | UnlinkLatest(pack: string)

  function PackOf(s: State, pack: string): Pack
  {
    if pack in s.packs then s.packs[pack] else Pack(None, NONE_YET)
  }

  predicate Holding(stage: Stage)
  {
    stage.Building? || stage.Numbered? || stage.Saved? || stage.Pointed?
  }

  /** The version a build takes, once it has listed what is published. */
  function VersionFor(req: Request, listing: seq<string>): Option<string>
  {
    if req.version.Some? then (if ValidVersion(req.version.value) then req.version else None)
    else if NextCounter(req.base, listing) < U64_LIMIT && ValidVersion(NextAutoVersion(req.base, listing))
    then Some(NextAutoVersion(req.base, listing))
    else None
  }

  function Move(s: State, id: nat, stage: Stage): State
    requires id in s.jobs
  {
    s.(jobs := s.jobs[id := s.jobs[id].(stage := stage)])
  }

  function WithPack(s: State, pack: string, p: Pack): State
  {
    s.(packs := s.packs[pack := p])
  }

  function Release(s: State, id: nat, outcome: Outcome): State
    requires id in s.jobs
  {
    var pack := s.jobs[id].req.pack;
    WithPack(Move(s, id, Over(outcome)), pack, PackOf(s, pack).(lock := None))
  }

  /** A listing holds what is published, and may hold what was unlinked while it was
      being read. */
  predicate Lists(m: Manifests, listing: seq<string>)
  {
    forall v :: v in m.published ==> v in listing
  }

  function JobStep(s: State, e: Event): Option<State>
    requires !e.Spawn? && !e.UnlinkManifest? && !e.UnlinkLatest? && e.id in s.jobs
  {
    var job := s.jobs[e.id];
    var req := job.req;
    var pack := PackOf(s, req.pack);
    match (e, job.stage)
    case (Acquire(id), Queued) =>
      if req.dryRun || pack.lock.Some? then None
      else Some(WithPack(Move(s, id, Building), req.pack, pack.(lock := Some(id))))
    case (Preview(id), Queued) => if req.dryRun then Some(Move(s, id, Over(Previewed))) else None
    case (Number(id, listing), Building) =>
      if !Lists(pack.dir, listing) || VersionFor(req, listing).None? then None
      else Some(Move(s, id, Numbered(VersionFor(req, listing).value)))
    case (Save(id, manifest), Numbered(v)) =>
      if Refuses(pack.dir, v, req.overwrite) then Some(Release(s, id, Conflict))
      else
        var dir := pack.dir.(published := pack.dir.published[v := manifest]);
        Some(WithPack(Move(s, id, Saved(v)), req.pack, pack.(dir := dir)))
    case (Point(id), Saved(v)) =>
      Some(WithPack(Move(s, id, Pointed(v)), req.pack, pack.(dir := pack.dir.(latest := Some(v)))))
    case (Finish(id), Pointed(v)) => Some(Release(s, id, Published(v)))
    case (Fail(id), stage) => if Holding(stage) then Some(Release(s, id, Failed)) else None
    case _ => None
  }

  /** `delete_pack` reaching one file of the manifest directory, whoever holds the
      pack's lock. */
  function UnlinkStep(s: State, e: Event): Option<State>
    requires e.UnlinkManifest? || e.UnlinkLatest?
  {
    var p := PackOf(s, e.pack);
    if e.UnlinkManifest? then
      if e.version !in p.dir.published then None
      else Some(WithPack(s, e.pack, p.(dir := p.dir.(published := p.dir.published - {e.version}))))
    else if p.dir.latest.None? then None
    else Some(WithPack(s, e.pack, p.(dir := p.dir.(latest := None))))
  }

  function Step(s: State, e: Event): Option<State>
  {
    if e.Spawn? then
      if e.id in s.jobs then None else Some(s.(jobs := s.jobs[e.id := Job(e.req, Queued)]))
    else if e.UnlinkManifest? || e.UnlinkLatest? then UnlinkStep(s, e)
    else if e.id in s.jobs then JobStep(s, e)
    else None
  }

  /** A run, with the states it goes through. */
  predicate Trace(states: seq<State>, events: seq<Event>)
  {
    && |states| == |events| + 1
    && forall k :: 0 <= k < |events| ==> Step(states[k], events[k]) == Some(states[k + 1])
  }

  // ----- What every step keeps ----------------------------------------------------------------

  /** Above every published counter of the base, and not published. */
  predicate Fresh(m: Manifests, base: string, v: string)
  {
    && v !in m.published && CounterOf(base, v).Some?
    && forall w :: w in m.published && CounterOf(base, w).Some? ==> CounterOf(base, w).value < CounterOf(base, v).value
  }

  predicate JobGood(s: State, id: nat)
    requires id in s.jobs
  {
    var job := s.jobs[id];
    var pack := PackOf(s, job.req.pack);
    && (Holding(job.stage) ==> pack.lock == Some(id))
    && (job.stage.Numbered? && job.req.version.Some? ==> job.req.version == Some(job.stage.version))
    && (job.stage.Numbered? && job.req.version.None? ==> Fresh(pack.dir, job.req.base, job.stage.version))
    && (job.req.version.None? ==> job.stage != Over(Conflict))
  }

  ghost predicate Inv(s: State)
  {
    forall id :: id in s.jobs ==> JobGood(s, id)
  }

  /** One job moved, and with it at most its own pack, which it or nobody holds. */
  predicate MovesOnly(s: State, t: State, id: nat)
  {
    && id in s.jobs && id in t.jobs && t.jobs == s.jobs[id := t.jobs[id]] && t.jobs[id].req == s.jobs[id].req
    && var p, q := PackOf(s, s.jobs[id].req.pack), PackOf(t, s.jobs[id].req.pack);
       && (p.lock == Some(id) || q.dir == p.dir)
       && (p.lock == Some(id) || p.lock.None? || q == p)
  }

  /** A step by one job leaves the jobs it does not touch good. */
  lemma MoverKeepsInv(s: State, t: State, id: nat)
    requires Inv(s) && MovesOnly(s, t, id) && JobGood(t, id)
    requires forall pack :: pack != s.jobs[id].req.pack ==> PackOf(t, pack) == PackOf(s, pack)
    ensures Inv(t)
  {
    hide Fresh;
    forall other | other in t.jobs ensures JobGood(t, other) {
      assert other != id ==> t.jobs[other] == s.jobs[other] && JobGood(s, other);
    }
  }

  /** Numbering against the listed versions gives a fresh one. */
  lemma AutoNumberIsFresh(m: Manifests, req: Request, listing: seq<string>)
    requires Lists(m, listing) && req.version.None? && VersionFor(req, listing).Some?
    ensures Fresh(m, req.base, VersionFor(req, listing).value)
  {
    NextIsFresh(req.base, listing);
    hide CounterOf, NextCounter, NextAutoVersion, ValidVersion;
  }

  lemma AcquireKeepsInv(s: State, id: nat)
    requires Inv(s) && id in s.jobs && JobStep(s, Acquire(id)).Some?
    ensures Inv(JobStep(s, Acquire(id)).value)
  {
    assert JobGood(s, id);
    MoverKeepsInv(s, JobStep(s, Acquire(id)).value, id);
  }

  lemma PreviewKeepsInv(s: State, id: nat)
    requires Inv(s) && id in s.jobs && JobStep(s, Preview(id)).Some?
    ensures Inv(JobStep(s, Preview(id)).value)
  {
    assert JobGood(s, id);
    MoverKeepsInv(s, JobStep(s, Preview(id)).value, id);
  }

  lemma NumberKeepsInv(s: State, id: nat, listing: seq<string>)
    requires Inv(s) && id in s.jobs && JobStep(s, Number(id, listing)).Some?
    ensures Inv(JobStep(s, Number(id, listing)).value)
  {
    var t := JobStep(s, Number(id, listing)).value;
    var req := s.jobs[id].req;
    assert JobGood(s, id);
    if req.version.None? {
      AutoNumberIsFresh(PackOf(s, req.pack).dir, req, listing);
    }
    hide VersionFor, Lists, Fresh;
    MoverKeepsInv(s, t, id);
  }

  lemma SaveKeepsInv(s: State, id: nat, manifest: string)
    requires Inv(s) && id in s.jobs && JobStep(s, Save(id, manifest)).Some?
    ensures Inv(JobStep(s, Save(id, manifest)).value)
  {
    assert JobGood(s, id);
    if Refuses(PackOf(s, s.jobs[id].req.pack).dir, s.jobs[id].stage.version, s.jobs[id].req.overwrite) {
      ReleaseKeepsInv(s, id, Conflict);
    } else {
      hide Fresh;
      MoverKeepsInv(s, JobStep(s, Save(id, manifest)).value, id);
    }
  }

  lemma PointKeepsInv(s: State, id: nat)
    requires Inv(s) && id in s.jobs && JobStep(s, Point(id)).Some?
    ensures Inv(JobStep(s, Point(id)).value)
  {
    assert JobGood(s, id);
    MoverKeepsInv(s, JobStep(s, Point(id)).value, id);
  }

  lemma ReleaseKeepsInv(s: State, id: nat, outcome: Outcome)
    requires Inv(s) && id in s.jobs && Holding(s.jobs[id].stage)
    requires outcome == Conflict ==> s.jobs[id].req.version.Some?
    ensures Inv(Release(s, id, outcome))
  {
    assert JobGood(s, id);
    MoverKeepsInv(s, Release(s, id, outcome), id);
  }

  /** Whatever is unlinked, every lock and every number stays good. */
  lemma UnlinkKeepsInv(s: State, e: Event)
    requires Inv(s) && (e.UnlinkManifest? || e.UnlinkLatest?) && UnlinkStep(s, e).Some?
    ensures Inv(UnlinkStep(s, e).value)
  {
    var t := UnlinkStep(s, e).value;
    forall id | id in t.jobs ensures JobGood(t, id) {
      assert JobGood(s, id);
      assert PackOf(t, s.jobs[id].req.pack).dir.published.Keys <= PackOf(s, s.jobs[id].req.pack).dir.published.Keys;
    }
    hide JobGood;
  }

  lemma SpawnKeepsInv(s: State, id: nat, req: Request)
    requires Inv(s) && id !in s.jobs
    ensures Inv(s.(jobs := s.jobs[id := Job(req, Queued)]))
  {
    var t := s.(jobs := s.jobs[id := Job(req, Queued)]);
    forall other | other in t.jobs ensures JobGood(t, other) {
      assert other != id ==> JobGood(s, other);
    }
  }

  lemma StepKeepsInv(s: State, e: Event)
    requires Inv(s) && Step(s, e).Some?
    ensures Inv(Step(s, e).value)
  {
    hide Inv;
    match e
    case Spawn(id, req) => SpawnKeepsInv(s, id, req);
    case Acquire(id) => AcquireKeepsInv(s, id);
    case Number(id, listing) => NumberKeepsInv(s, id, listing);
    case Save(id, manifest) => SaveKeepsInv(s, id, manifest);
    case Point(id) => PointKeepsInv(s, id);
    case Preview(id) => PreviewKeepsInv(s, id);
    case Finish(id) => ReleaseKeepsInv(s, id, Published(s.jobs[id].stage.version));
    case Fail(id) => ReleaseKeepsInv(s, id, Failed);
    case UnlinkManifest(_, _) => UnlinkKeepsInv(s, e);
    case UnlinkLatest(_) => UnlinkKeepsInv(s, e);
  }

  // ----- Over every interleaving -----------------------------------------------------------------

  /** Packs with whatever is published already, and no builds yet. */
  ghost predicate Start(s: State)
  {
    && s.jobs == map[]
    && forall pack :: PackOf(s, pack).lock.None? && LatestSound(s, pack)
  }

  /** `latest` leads somewhere, if it is there. */
  predicate LatestSound(s: State, pack: string)
  {
    var p := PackOf(s, pack);
    p.dir.latest.Some? ==> p.dir.latest.value in p.dir.published
  }

  lemma TraceSteps(states: seq<State>, events: seq<Event>, k: nat)
    requires Trace(states, events) && k < |events|
    ensures |states| == |events| + 1 && Step(states[k], events[k]) == Some(states[k + 1])
  {
  }

  lemma {:induction false} TraceKeepsInv(states: seq<State>, events: seq<Event>, k: nat)
    requires Trace(states, events) && Start(states[0]) && k <= |events|
    ensures Inv(states[k])
  {
    if k > 0 {
      TraceKeepsInv(states, events, k - 1);
      TraceSteps(states, events, k - 1);
      hide Inv, Step;
      StepKeepsInv(states[k - 1], events[k - 1]);
    }
  }

  /** Two builds of one pack, both in the middle of publishing. */
  predicate BothHold(a: Job, b: Job)
  {
    a.req.pack == b.req.pack && Holding(a.stage) && Holding(b.stage)
  }

  /** No auto-numbered build ever meets a conflict, and no two builds of a pack publish
      at once, deletions included. */
  lemma PublishingIsSafe(states: seq<State>, events: seq<Event>, k: nat)
    requires Trace(states, events) && Start(states[0]) && k <= |events|
    ensures var t := states[k];
            && (forall id :: id in t.jobs && t.jobs[id].req.version.None? ==> t.jobs[id].stage != Over(Conflict))
            && (forall i, j :: i in t.jobs && j in t.jobs && BothHold(t.jobs[i], t.jobs[j]) ==> i == j)
  {
    TraceKeepsInv(states, events, k);
    assert forall id :: id in states[k].jobs ==> JobGood(states[k], id);
  }

  /** At the moment an auto-numbered build writes its manifest, whatever other jobs did
      since it listed the versions, its number is above every published one. */
  lemma AutoSaveIsAbove(states: seq<State>, events: seq<Event>, k: nat)
    requires Trace(states, events) && Start(states[0]) && k < |events| && events[k].Save?
    requires var s := states[k]; events[k].id in s.jobs && s.jobs[events[k].id].req.version.None?
    ensures var s := states[k];
            var job := s.jobs[events[k].id];
            job.stage.Numbered? && Fresh(PackOf(s, job.req.pack).dir, job.req.base, job.stage.version)
  {
    TraceKeepsInv(states, events, k);
    TraceSteps(states, events, k);
    hide Fresh;
    assert JobGood(states[k], events[k].id);
  }

  // ----- What is published stays ------------------------------------------------------------------

  predicate Overwrites(req: Request, pack: string, v: string)
  {
    req.pack == pack && req.overwrite && req.version == Some(v)
  }

  /** Only unlinking it takes a published manifest away, and only a build asked to
      overwrite this version of this pack changes it. */
  lemma StepKeepsPublished(s: State, e: Event, pack: string, v: string)
    requires Inv(s) && Step(s, e).Some? && v in PackOf(s, pack).dir.published && e != UnlinkManifest(pack, v)
    ensures v in PackOf(Step(s, e).value, pack).dir.published
    ensures PackOf(Step(s, e).value, pack).dir.published[v] == PackOf(s, pack).dir.published[v]
            || (e.Save? && Overwrites(s.jobs[e.id].req, pack, v))
  {
    if e.Save? {
      assert JobGood(s, e.id);
    }
  }

  /** The manifest was unlinked after the `i`-th step and before the `k`-th. */
  predicate UnlinkedBetween(events: seq<Event>, i: nat, k: nat, pack: string, v: string)
    requires k <= |events|
  {
    exists d :: i < d < k && events[d] == UnlinkManifest(pack, v)
  }

  lemma {:induction false} StaysUntilUnlinked(
    states: seq<State>, events: seq<Event>, i: nat, k: nat, pack: string, v: string)
    requires Trace(states, events) && Start(states[0]) && i < k <= |events|
    requires v in PackOf(states[i + 1], pack).dir.published && !UnlinkedBetween(events, i, k, pack, v)
    ensures v in PackOf(states[k], pack).dir.published
  {
    if k > i + 1 {
      assert !UnlinkedBetween(events, i, k - 1, pack, v) && events[k - 1] != UnlinkManifest(pack, v);
      StaysUntilUnlinked(states, events, i, k - 1, pack, v);
      TraceKeepsInv(states, events, k - 1);
      TraceSteps(states, events, k - 1);
      hide *;
      StepKeepsPublished(states[k - 1], events[k - 1], pack, v);
    }
  }

  /** The `k`-th step writes this version of this pack. */
  predicate Writes(states: seq<State>, events: seq<Event>, k: nat, pack: string, v: string)
    requires |states| == |events| + 1 && k < |events|
  {
    && events[k].Save? && events[k].id in states[k].jobs && events[k].id in states[k + 1].jobs
    && states[k].jobs[events[k].id].req.pack == pack && states[k + 1].jobs[events[k].id].stage == Saved(v)
  }

  /** An auto-numbered build writes a version its pack wrote before only if that
      manifest was unlinked in between. */
  lemma AutoVersionsAreDistinct(states: seq<State>, events: seq<Event>, i: nat, k: nat, pack: string, v: string)
    requires Trace(states, events) && Start(states[0]) && i < k < |events|
    requires Writes(states, events, i, pack, v) && Writes(states, events, k, pack, v)
    requires states[k].jobs[events[k].id].req.version.None?
    ensures UnlinkedBetween(events, i, k, pack, v)
  {
    WrittenIsThere(states, events, i, pack, v);
    WrittenWasNumbered(states, events, k, pack, v);
    AutoSaveIsAbove(states, events, k);
    hide Trace, Start, UnlinkedBetween;
    if !UnlinkedBetween(events, i, k, pack, v) {
      StaysUntilUnlinked(states, events, i, k, pack, v);
    }
  }

  lemma WrittenIsThere(states: seq<State>, events: seq<Event>, i: nat, pack: string, v: string)
    requires Trace(states, events) && i < |events| && Writes(states, events, i, pack, v)
    ensures v in PackOf(states[i + 1], pack).dir.published
  {
    TraceSteps(states, events, i);
  }

  lemma WrittenWasNumbered(states: seq<State>, events: seq<Event>, k: nat, pack: string, v: string)
    requires Trace(states, events) && k < |events| && Writes(states, events, k, pack, v)
    ensures states[k].jobs[events[k].id].stage == Numbered(v)
  {
    TraceSteps(states, events, k);
  }

  predicate NoneOverwrites(s: State, pack: string, v: string)
  {
    forall id :: id in s.jobs ==> !Overwrites(s.jobs[id].req, pack, v)
  }

  lemma RequestsKept(s: State, e: Event)
    requires Step(s, e).Some?
    ensures var t := Step(s, e).value;
            && (forall id :: id in t.jobs ==>
                  (id in s.jobs && t.jobs[id].req == s.jobs[id].req) || (e.Spawn? && t.jobs[id].req == e.req))
            && forall id :: id in s.jobs ==> id in t.jobs
  {
  }

  lemma {:induction false} NobodyOverwrites(states: seq<State>, events: seq<Event>, k: nat, pack: string, v: string)
    requires Trace(states, events) && Start(states[0]) && k <= |events|
    requires forall e :: e in events && e.Spawn? ==> !Overwrites(e.req, pack, v)
    ensures NoneOverwrites(states[k], pack, v)
  {
    if k > 0 {
      NobodyOverwrites(states, events, k - 1, pack, v);
      TraceSteps(states, events, k - 1);
      RequestsKept(states[k - 1], events[k - 1]);
      assert events[k - 1] in events;
      hide Step, Overwrites;
    }
  }

  /** So unless it is unlinked, or a build asks to overwrite this very version, a
      published manifest never changes. */
  lemma {:induction false} RunKeepsPublished(states: seq<State>, events: seq<Event>, k: nat, pack: string, v: string)
    requires Trace(states, events) && Start(states[0]) && k <= |events|
    requires v in PackOf(states[0], pack).dir.published
    requires UnlinkManifest(pack, v) !in events
    requires forall e :: e in events && e.Spawn? ==> !Overwrites(e.req, pack, v)
    ensures v in PackOf(states[k], pack).dir.published
    ensures PackOf(states[k], pack).dir.published[v] == PackOf(states[0], pack).dir.published[v]
  {
    if k > 0 {
      RunKeepsPublished(states, events, k - 1, pack, v);
      TraceKeepsInv(states, events, k - 1);
      TraceSteps(states, events, k - 1);
      NobodyOverwrites(states, events, k - 1, pack, v);
      assert events[k - 1] in events;
      hide Trace, Start, Inv, Overwrites, PackOf;
      StepKeepsPublished(states[k - 1], events[k - 1], pack, v);
    }
  }

  // ----- Where `latest` leads ---------------------------------------------------------------------

  ghost predicate AllLatestSound(s: State)
  {
    forall pack :: LatestSound(s, pack)
  }

  /** The step unlinks the manifest `latest` names. */
  predicate UnlinksTarget(s: State, e: Event)
  {
    e.UnlinkManifest? && PackOf(s, e.pack).dir.latest == Some(e.version)
  }

  /** The build's manifest is not there. */
  predicate Orphaned(s: State, id: nat)
  {
    && id in s.jobs && s.jobs[id].stage.Saved?
    && s.jobs[id].stage.version !in PackOf(s, s.jobs[id].req.pack).dir.published
  }

  /** A step leaves `latest` of some pack dangling exactly when it unlinks the manifest
      that names, or moves the pointer to one that is gone. */
  lemma StepKeepsLatestIff(s: State, e: Event)
    requires AllLatestSound(s) && Step(s, e).Some?
    ensures AllLatestSound(Step(s, e).value) <==> !UnlinksTarget(s, e) && !(e.Point? && Orphaned(s, e.id))
  {
    var t := Step(s, e).value;
    if e.Point? {
      var pack := s.jobs[e.id].req.pack;
      assert LatestSound(t, pack) <==> !Orphaned(s, e.id);
      OthersLatest(s, t, pack);
    } else if e.Save? {
      OthersLatest(s, t, s.jobs[e.id].req.pack);
      assert LatestSound(s, s.jobs[e.id].req.pack);
    } else if e.UnlinkManifest? {
      assert LatestSound(s, e.pack);
      assert LatestSound(t, e.pack) <==> !UnlinksTarget(s, e);
      OthersLatest(s, t, e.pack);
    } else {
      forall pack ensures LatestSound(t, pack) {
        assert LatestSound(s, pack);
      }
    }
  }

  lemma OthersLatest(s: State, t: State, pack: string)
    requires AllLatestSound(s) && forall p :: p != pack ==> PackOf(t, p) == PackOf(s, p)
    ensures AllLatestSound(t) <==> LatestSound(t, pack)
  {
    forall p | p != pack ensures LatestSound(t, p) {
      assert LatestSound(s, p);
    }
  }

  /** The `i`-th step is the build writing its manifest. */
  predicate SavesAt(states: seq<State>, events: seq<Event>, i: nat, id: nat)
    requires |states| == |events| + 1 && i < |events|
  {
    && events[i].Save? && events[i].id == id && id in states[i].jobs && id in states[i + 1].jobs
    && states[i + 1].jobs[id].stage.Saved? && states[i + 1].jobs[id].req == states[i].jobs[id].req
  }

  predicate HasSaved(stage: Stage)
  {
    stage.Saved? || stage.Pointed? || stage.Over?
  }

  /** What a step can do to the stage of one build. */
  lemma StageMoves(s: State, e: Event, id: nat)
    requires Step(s, e).Some?
    ensures var t := Step(s, e).value;
            && (id !in s.jobs && id in t.jobs ==> t.jobs[id].stage == Queued)
            && (id in s.jobs ==> id in t.jobs && t.jobs[id].req == s.jobs[id].req)
            && (id in s.jobs && HasSaved(s.jobs[id].stage) ==>
                  HasSaved(t.jobs[id].stage) && (t.jobs[id].stage.Saved? ==> t.jobs[id].stage == s.jobs[id].stage))
            && (id in s.jobs && t.jobs[id].stage.Saved? ==>
                  s.jobs[id].stage == t.jobs[id].stage || (e.Save? && e.id == id))
  {
  }

  /** A build between its save and its pointer move did save. */
  lemma {:induction false} SavedBySave(states: seq<State>, events: seq<Event>, k: nat, id: nat) returns (i: nat)
    requires Trace(states, events) && states[0].jobs == map[] && k <= |events|
    requires id in states[k].jobs && states[k].jobs[id].stage.Saved?
    ensures i < k && SavesAt(states, events, i, id)
  {
    TraceSteps(states, events, k - 1);
    StageMoves(states[k - 1], events[k - 1], id);
    hide Step;
    if states[k - 1].jobs[id].stage.Saved? {
      i := SavedBySave(states, events, k - 1, id);
    } else {
      i := k - 1;
    }
  }

  /** While a build holds the lock of its pack, only unlinking touches what is
      published there, unless the build itself saves. */
  lemma HolderIsAlone(s: State, e: Event, id: nat, pack: string, v: string)
    requires Inv(s) && Step(s, e).Some? && id in s.jobs && s.jobs[id].stage.Saved? && s.jobs[id].req.pack == pack
    ensures v in PackOf(Step(s, e).value, pack).dir.published
       <==> v in PackOf(s, pack).dir.published && e != UnlinkManifest(pack, v)
  {
    assert JobGood(s, id);
    if e.Save? {
      assert JobGood(s, e.id);
    }
  }

  /** From its save to its pointer move the manifest of a build is there exactly as
      long as nobody unlinks it. */
  lemma {:induction false} ThereUntilUnlinked(states: seq<State>, events: seq<Event>, i: nat, k: nat, id: nat)
    requires Trace(states, events) && Start(states[0]) && i < k <= |events| && SavesAt(states, events, i, id)
    ensures var job := states[i + 1].jobs[id];
            && id in states[k].jobs && states[k].jobs[id].req == job.req && HasSaved(states[k].jobs[id].stage)
            && (states[k].jobs[id].stage.Saved? ==>
                  && states[k].jobs[id].stage == job.stage
                  && (Orphaned(states[k], id) <==> UnlinkedBetween(events, i, k, job.req.pack, job.stage.version)))
  {
    TraceSteps(states, events, k - 1);
    if k == i + 1 {
      JustWritten(states[i], events[i], id);
    } else {
      ThereUntilUnlinked(states, events, i, k - 1, id);
      TraceKeepsInv(states, events, k - 1);
      hide *;
      OneStepOn(states[k - 1], events[k - 1], id);
      UnlinkedGrows(events, i, k - 1, states[i + 1].jobs[id].req.pack, states[i + 1].jobs[id].stage.version);
    }
  }

  lemma JustWritten(s: State, e: Event, id: nat)
    requires Step(s, e).Some? && e.Save? && e.id == id && id in s.jobs
    requires var t := Step(s, e).value; id in t.jobs && t.jobs[id].stage.Saved?
    ensures !Orphaned(Step(s, e).value, id)
  {
  }

  lemma UnlinkedGrows(events: seq<Event>, i: nat, k: nat, pack: string, v: string)
    requires i < k < |events|
    ensures UnlinkedBetween(events, i, k + 1, pack, v)
       <==> UnlinkedBetween(events, i, k, pack, v) || events[k] == UnlinkManifest(pack, v)
  {
  }

  lemma OneStepOn(s: State, e: Event, id: nat)
    requires Inv(s) && Step(s, e).Some? && id in s.jobs && HasSaved(s.jobs[id].stage)
    ensures var t := Step(s, e).value;
            && id in t.jobs && t.jobs[id].req == s.jobs[id].req && HasSaved(t.jobs[id].stage)
            && (t.jobs[id].stage.Saved? ==>
                  && t.jobs[id].stage == s.jobs[id].stage
                  && (Orphaned(t, id) <==>
                        Orphaned(s, id) || e == UnlinkManifest(s.jobs[id].req.pack, s.jobs[id].stage.version)))
  {
    StageMoves(s, e, id);
    if s.jobs[id].stage.Saved? {
      HolderIsAlone(s, e, id, s.jobs[id].req.pack, s.jobs[id].stage.version);
    }
    hide Step, PackOf, Inv;
  }

  /** The `k`-th step moves the pointer to a manifest unlinked since the build wrote it. */
  predicate PointsAtUnlinked(states: seq<State>, events: seq<Event>, k: nat)
    requires |states| == |events| + 1 && k < |events|
  {
    && events[k].Point?
    && exists i :: 0 <= i < k && SavesAt(states, events, i, events[k].id)
         && var job := states[i + 1].jobs[events[k].id];
            UnlinkedBetween(events, i, k, job.req.pack, job.stage.version)
  }

  lemma PointsAtUnlinkedIff(states: seq<State>, events: seq<Event>, k: nat)
    requires Trace(states, events) && Start(states[0]) && k < |events|
    ensures PointsAtUnlinked(states, events, k) <==> events[k].Point? && Orphaned(states[k], events[k].id)
  {
    TraceSteps(states, events, k);
    if events[k].Point? {
      var id := events[k].id;
      assert states[k].jobs[id].stage.Saved?;
      hide Step, UnlinkedBetween, Orphaned;
      var i := SavedBySave(states, events, k, id);
      ThereUntilUnlinked(states, events, i, k, id);
      if PointsAtUnlinked(states, events, k) {
        var j :| 0 <= j < k && SavesAt(states, events, j, id)
          && UnlinkedBetween(events, j, k, states[j + 1].jobs[id].req.pack, states[j + 1].jobs[id].stage.version);
        ThereUntilUnlinked(states, events, j, k, id);
      }
    }
  }

  /** The `k`-th step unlinks the manifest `latest` names, or points at an unlinked one. */
  predicate Breaks(states: seq<State>, events: seq<Event>, k: nat)
    requires |states| == |events| + 1 && k < |events|
  {
    UnlinksTarget(states[k], events[k]) || PointsAtUnlinked(states, events, k)
  }

  lemma BreaksIff(states: seq<State>, events: seq<Event>, k: nat)
    requires Trace(states, events) && Start(states[0]) && k < |events| && AllLatestSound(states[k])
    ensures Breaks(states, events, k) <==> !AllLatestSound(states[k + 1])
  {
    TraceSteps(states, events, k);
    PointsAtUnlinkedIff(states, events, k);
    hide Trace, Step, Start, AllLatestSound, PointsAtUnlinked, UnlinksTarget, Orphaned;
    StepKeepsLatestIff(states[k], events[k]);
  }

  lemma {:induction false} LatestSoundUpTo(states: seq<State>, events: seq<Event>, k: nat)
    requires Trace(states, events) && Start(states[0]) && k <= |events|
    requires forall j :: 0 <= j < k ==> !Breaks(states, events, j)
    ensures AllLatestSound(states[k])
  {
    if k > 0 {
      LatestSoundUpTo(states, events, k - 1);
      hide *;
      BreaksIff(states, events, k - 1);
    }
  }

  /** Over every run `latest` always leads to a manifest exactly when no step unlinks
      the manifest it names, or moves it to one unlinked since its build saved. */
  lemma LatestAlwaysSoundIff(states: seq<State>, events: seq<Event>)
    requires Trace(states, events) && Start(states[0])
    ensures (forall k :: 0 <= k <= |events| ==> AllLatestSound(states[k]))
       <==> forall k :: 0 <= k < |events| ==> !Breaks(states, events, k)
  {
    assert |states| == |events| + 1;
    hide Trace, Start, Breaks, AllLatestSound;
    if forall k :: 0 <= k < |events| ==> !Breaks(states, events, k) {
      forall k | 0 <= k <= |events| ensures AllLatestSound(states[k]) {
        LatestSoundUpTo(states, events, k);
      }
    }
    if forall k :: 0 <= k <= |events| ==> AllLatestSound(states[k]) {
      forall k | 0 <= k < |events| ensures !Breaks(states, events, k) {
        BreaksIff(states, events, k);
      }
    }
  }

  /** In particular when no manifest is unlinked. */
  lemma NoDeletionKeepsLatest(states: seq<State>, events: seq<Event>)
    requires Trace(states, events) && Start(states[0])
    requires forall e :: e in events ==> !e.UnlinkManifest?
    ensures forall k :: 0 <= k <= |events| ==> AllLatestSound(states[k])
  {
    forall k | 0 <= k < |events| ensures !Breaks(states, events, k) {
      assert events[k] in events && forall d :: 0 <= d < k ==> events[d] in events;
    }
    LatestAlwaysSoundIff(states, events);
  }
}
