/** What publishing leaves in a pack's manifest directory, told from the events alone
    (src/jobs.rs, src/storage.rs): what `latest` names, what a version's manifest holds,
    who holds a lock, and what a build's outcome means. */
module PublishLaws {
  import opened Base
  import opened Versions
  import opened Publish

  // ----- What one step does to a directory ----------------------------------------------

  /** The step moves the pointer of this pack to this version. */
  predicate PointsTo(s: State, e: Event, pack: string, v: string)
  {
    && e.Point? && e.id in s.jobs && s.jobs[e.id].req.pack == pack
    && s.jobs[e.id].stage == Saved(v)
  }

  /** The step writes this manifest of this version of this pack. */
  predicate WritesManifest(s: State, e: Event, pack: string, v: string, manifest: string)
  {
    && e.Save? && e.id in s.jobs && s.jobs[e.id].req.pack == pack && s.jobs[e.id].stage == Numbered(v)
    && e.manifest == manifest
    && (v in PackOf(s, pack).dir.published ==> s.jobs[e.id].req.overwrite)
  }

  predicate Points(s: State, e: Event, pack: string)
  {
    e.Point? && e.id in s.jobs && s.jobs[e.id].req.pack == pack && s.jobs[e.id].stage.Saved?
  }

  /** After a step the pointer is where the step put it, or where it was. */
  lemma LatestAfter(s: State, e: Event, pack: string)
    requires Step(s, e).Some?
    ensures var (was, now) := (PackOf(s, pack).dir.latest, PackOf(Step(s, e).value, pack).dir.latest);
            && (forall v :: PointsTo(s, e, pack, v) ==> now == Some(v))
            && (e == UnlinkLatest(pack) ==> now == None)
            && (!Points(s, e, pack) && e != UnlinkLatest(pack) ==> now == was)
  {
  }

  predicate Touches(s: State, e: Event, pack: string, v: string)
  {
    || e == UnlinkManifest(pack, v)
    || (e.Save? && WritesManifest(s, e, pack, v, e.manifest))
  }

  /** After a step a version holds what the step wrote, or what it held. */
  lemma ManifestAfter(s: State, e: Event, pack: string, v: string)
    requires Step(s, e).Some?
    ensures var (was, now) := (PackOf(s, pack).dir.published, PackOf(Step(s, e).value, pack).dir.published);
            && (e.Save? && Touches(s, e, pack, v) ==> v in now && now[v] == e.manifest)
            && (e == UnlinkManifest(pack, v) ==> v !in now)
            && (!Touches(s, e, pack, v) ==> (v in now <==> v in was) && (v in was ==> now[v] == was[v]))
  {
  }

  // ----- Over a whole run ------------------------------------------------------------------

  /** `j` is the last step before the `k`-th that moved or unlinked the pointer. */
  predicate LastPointing(states: seq<State>, events: seq<Event>, j: nat, k: nat, pack: string)
    requires |states| == |events| + 1 && j < k <= |events|
  {
    && (Points(states[j], events[j], pack) || events[j] == UnlinkLatest(pack))
    && forall i :: j < i < k ==> !Points(states[i], events[i], pack) && events[i] != UnlinkLatest(pack)
  }

  /** `latest` names what the last pointer move named, unless it was unlinked since; a
      pointer nobody moved is where it was. */
  lemma {:induction false} LatestIsTheLastPointed(states: seq<State>, events: seq<Event>, j: nat, k: nat, pack: string)
    requires Trace(states, events) && j < k <= |events| && LastPointing(states, events, j, k, pack)
    ensures forall v :: PointsTo(states[j], events[j], pack, v) ==> PackOf(states[k], pack).dir.latest == Some(v)
    ensures events[j] == UnlinkLatest(pack) ==> PackOf(states[k], pack).dir.latest == None
  {
    hide *;
    TraceSteps(states, events, k - 1);
    PointedLast(states, events, j, k, pack);
    LatestAfter(states[k - 1], events[k - 1], pack);
    if k > j + 1 {
      LatestIsTheLastPointed(states, events, j, k - 1, pack);
    }
  }

  lemma PointedLast(states: seq<State>, events: seq<Event>, j: nat, k: nat, pack: string)
    requires |states| == |events| + 1 && j < k <= |events| && LastPointing(states, events, j, k, pack)
    ensures Points(states[j], events[j], pack) || events[j] == UnlinkLatest(pack)
    ensures k > j + 1 ==>
      && LastPointing(states, events, j, k - 1, pack)
      && !Points(states[k - 1], events[k - 1], pack) && events[k - 1] != UnlinkLatest(pack)
  {
    hide Points;
  }

  lemma {:induction false} LatestStays(states: seq<State>, events: seq<Event>, k: nat, pack: string)
    requires Trace(states, events) && k <= |events|
    requires forall i :: 0 <= i < k ==> !Points(states[i], events[i], pack) && events[i] != UnlinkLatest(pack)
    ensures PackOf(states[k], pack).dir.latest == PackOf(states[0], pack).dir.latest
  {
    if k > 0 {
      TraceSteps(states, events, k - 1);
      LatestAfter(states[k - 1], events[k - 1], pack);
      LatestStays(states, events, k - 1, pack);
    }
    hide Step, PackOf;
  }

  predicate LastTouch(states: seq<State>, events: seq<Event>, j: nat, k: nat, pack: string, v: string)
    requires |states| == |events| + 1 && j < k <= |events|
  {
    && Touches(states[j], events[j], pack, v)
    && forall i :: j < i < k ==> !Touches(states[i], events[i], pack, v)
  }

  /** A version holds what the last write of it wrote, unless it was unlinked since. */
  lemma {:induction false} ManifestIsTheLastWritten(
    states: seq<State>, events: seq<Event>, j: nat, k: nat, pack: string, v: string)
    requires Trace(states, events) && j < k <= |events| && LastTouch(states, events, j, k, pack, v)
    ensures var published := PackOf(states[k], pack).dir.published;
            && (events[j].Save? ==> v in published && published[v] == events[j].manifest)
            && (events[j] == UnlinkManifest(pack, v) ==> v !in published)
  {
    hide *;
    TraceSteps(states, events, k - 1);
    TouchedLast(states, events, j, k, pack, v);
    ManifestAfter(states[k - 1], events[k - 1], pack, v);
    if k > j + 1 {
      ManifestIsTheLastWritten(states, events, j, k - 1, pack, v);
    }
  }

  lemma TouchedLast(states: seq<State>, events: seq<Event>, j: nat, k: nat, pack: string, v: string)
    requires |states| == |events| + 1 && j < k <= |events| && LastTouch(states, events, j, k, pack, v)
    ensures Touches(states[j], events[j], pack, v)
    ensures k > j + 1 ==>
      LastTouch(states, events, j, k - 1, pack, v) && !Touches(states[k - 1], events[k - 1], pack, v)
  {
    hide Touches;
  }

  // ----- Locks ------------------------------------------------------------------------------

  /** A lock is held by a build of that pack in the middle of publishing, by nobody else. */
  predicate LockAccounted(s: State, pack: string)
  {
    var lock := PackOf(s, pack).lock;
    lock.Some? ==> lock.value in s.jobs && s.jobs[lock.value].req.pack == pack && Holding(s.jobs[lock.value].stage)
  }

  lemma StepKeepsLocks(s: State, e: Event, pack: string)
    requires Inv(s) && LockAccounted(s, pack) && Step(s, e).Some?
    ensures LockAccounted(Step(s, e).value, pack)
  {
    hide Fresh, VersionFor, Lists, Refuses;
    if !e.Spawn? && !e.UnlinkManifest? && !e.UnlinkLatest? {
      assert JobGood(s, e.id);
    }
  }

  lemma {:induction false} LocksAreAccounted(states: seq<State>, events: seq<Event>, k: nat, pack: string)
    requires Trace(states, events) && Start(states[0]) && k <= |events|
    ensures LockAccounted(states[k], pack)
  {
    if k > 0 {
      LocksAreAccounted(states, events, k - 1, pack);
      TraceKeepsInv(states, events, k - 1);
      TraceSteps(states, events, k - 1);
      hide Step, Inv, LockAccounted, Trace;
      StepKeepsLocks(states[k - 1], events[k - 1], pack);
    }
  }

  predicate Publishes(job: Job, pack: string)
  {
    job.req.pack == pack && Holding(job.stage)
  }

  /** Over every run a queued build can start exactly when it is no dry run and no other
      build of its pack is publishing: no finished or failed build keeps a lock. */
  lemma StartsIff(states: seq<State>, events: seq<Event>, k: nat, id: nat)
    requires Trace(states, events) && Start(states[0]) && k <= |events|
    requires id in states[k].jobs && states[k].jobs[id].stage == Queued
    ensures var s := states[k];
            Step(s, Acquire(id)).Some? <==>
              && !s.jobs[id].req.dryRun
              && forall other :: other in s.jobs ==> !Publishes(s.jobs[other], s.jobs[id].req.pack)
  {
    var s, pack := states[k], states[k].jobs[id].req.pack;
    LocksAreAccounted(states, events, k, pack);
    TraceKeepsInv(states, events, k);
    forall other | other in s.jobs && Publishes(s.jobs[other], pack) ensures PackOf(s, pack).lock == Some(other) {
      assert JobGood(s, other);
    }
    assert PackOf(s, pack).lock.Some? ==> Publishes(s.jobs[PackOf(s, pack).lock.value], pack);
  }

  // ----- What an outcome means ----------------------------------------------------------------

  /** Saving meets a conflict exactly when the version is published and may not be
      replaced; a conflict leaves the directory alone. */
  lemma ConflictIff(s: State, id: nat, manifest: string)
    requires id in s.jobs && s.jobs[id].stage.Numbered?
    ensures Step(s, Save(id, manifest)).Some?
    ensures var (t, job) := (Step(s, Save(id, manifest)).value, s.jobs[id]);
            var dir := PackOf(s, job.req.pack).dir;
            && (t.jobs[id].stage == Over(Conflict) <==> job.stage.version in dir.published && !job.req.overwrite)
            && (t.jobs[id].stage == Over(Conflict) <==> t.jobs[id].stage != Saved(job.stage.version))
            && (t.jobs[id].stage == Over(Conflict) ==>
                  PackOf(t, job.req.pack).dir == dir && PackOf(t, job.req.pack).lock == None)
  {
  }

  /** A build takes a number exactly when it was asked for a valid version, or the next
      counter of its base fits 64 bits and gives one; and that is the number it takes. */
  lemma NumberIff(s: State, id: nat, listing: seq<string>)
    requires id in s.jobs && s.jobs[id].stage == Building
    requires Lists(PackOf(s, s.jobs[id].req.pack).dir, listing)
    ensures var (r, req) := (Step(s, Number(id, listing)), s.jobs[id].req);
            && (req.version.Some? ==> (r.Some? <==> ValidVersion(req.version.value)))
            && (req.version.None? ==>
                  (r.Some? <==> NextCounter(req.base, listing) < U64_LIMIT
                                && ValidVersion(Render(req.base, NextCounter(req.base, listing)))))
            && (r.Some? ==>
                  r.value.jobs[id].stage
                  == Numbered(if req.version.Some? then req.version.value
                              else Render(req.base, NextCounter(req.base, listing))))
  {
    hide Render, NextCounter, ValidVersion;
  }

  /** A listing that misses a published version is none. */
  lemma NoNumberFromLess(s: State, id: nat, listing: seq<string>, v: string)
    requires id in s.jobs && v in PackOf(s, s.jobs[id].req.pack).dir.published && v !in listing
    ensures Step(s, Number(id, listing)).None?
  {
    hide VersionFor;
  }

  /** A build under way is never stuck: it can save, point or finish, and fail at any time. */
  lemma BuildsGoOn(s: State, id: nat, manifest: string)
    requires id in s.jobs
    ensures var stage := s.jobs[id].stage;
            && (stage.Numbered? ==> Step(s, Save(id, manifest)).Some?)
            && (stage.Saved? ==> Step(s, Point(id)).Some?)
            && (stage.Pointed? ==> Step(s, Finish(id)).Some?)
            && (Step(s, Fail(id)).Some? <==> stage.Building? || stage.Numbered? || stage.Saved? || stage.Pointed?)
            && (Step(s, Preview(id)).Some? <==> stage.Queued? && s.jobs[id].req.dryRun)
  {
  }

  /** A deletion can unlink exactly what is there, and nothing else goes with it. */
  lemma UnlinkIff(s: State, pack: string, v: string)
    ensures var (m, l) := (Step(s, UnlinkManifest(pack, v)), Step(s, UnlinkLatest(pack)));
            && (m.Some? <==> v in PackOf(s, pack).dir.published)
            && (l.Some? <==> PackOf(s, pack).dir.latest.Some?)
            && (m.Some? ==> m.value.jobs == s.jobs && v !in PackOf(m.value, pack).dir.published
                            && PackOf(m.value, pack).dir.latest == PackOf(s, pack).dir.latest
                            && PackOf(m.value, pack).lock == PackOf(s, pack).lock)
            && (l.Some? ==> l.value.jobs == s.jobs && PackOf(l.value, pack).dir.latest == None
                            && PackOf(l.value, pack).dir.published == PackOf(s, pack).dir.published
                            && PackOf(l.value, pack).lock == PackOf(s, pack).lock)
  {
  }

  /** The build wrote this version and then moved the pointer to it. */
  predicate Landed(states: seq<State>, events: seq<Event>, k: nat, id: nat, v: string)
    requires |states| == |events| + 1 && k <= |events|
  {
    exists i, j :: 0 <= i < j < k && events[i].Save? && events[i].id == id && id in states[i].jobs
      && states[i].jobs[id].stage == Numbered(v)
      && events[j] == Point(id) && id in states[j].jobs && states[j].jobs[id].stage == Saved(v)
  }

  predicate Wrote(states: seq<State>, events: seq<Event>, k: nat, id: nat, v: string)
    requires |states| == |events| + 1 && k <= |events|
  {
    exists i :: 0 <= i < k && events[i].Save? && events[i].id == id && id in states[i].jobs
      && states[i].jobs[id].stage == Numbered(v)
  }

  /** The build took the version it was asked for, or else the next one of its base over
      a listing of what was published. */
  predicate TookNumber(states: seq<State>, events: seq<Event>, k: nat, id: nat, v: string)
    requires |states| == |events| + 1 && k <= |events|
  {
    exists i :: 0 <= i < k && events[i].Number? && events[i].id == id && id in states[i].jobs
      && Lists(PackOf(states[i], states[i].jobs[id].req.pack).dir, events[i].listing)
      && v == (match states[i].jobs[id].req.version
               case Some(asked) => asked
               case None =>
                 var base := states[i].jobs[id].req.base;
                 Render(base, NextCounter(base, events[i].listing)))
  }

  /** How a build got where it is. */
  ghost predicate StageTold(states: seq<State>, events: seq<Event>, k: nat, id: nat)
    requires |states| == |events| + 1 && k <= |events|
  {
    id in states[k].jobs ==>
      match states[k].jobs[id].stage
      case Numbered(v) => TookNumber(states, events, k, id, v)
      case Saved(v) => TookNumber(states, events, k, id, v) && Wrote(states, events, k, id, v)
      case Pointed(v) => TookNumber(states, events, k, id, v) && Landed(states, events, k, id, v)
      case Over(Published(v)) => TookNumber(states, events, k, id, v) && Landed(states, events, k, id, v)
      case Over(Previewed) => states[k].jobs[id].req.dryRun
      case _ => true
  }

  lemma StageToldGrows(states: seq<State>, events: seq<Event>, k: nat, id: nat, v: string)
    requires |states| == |events| + 1 && k < |events|
    ensures TookNumber(states, events, k, id, v) ==> TookNumber(states, events, k + 1, id, v)
    ensures Wrote(states, events, k, id, v) ==> Wrote(states, events, k + 1, id, v)
    ensures Landed(states, events, k, id, v) ==> Landed(states, events, k + 1, id, v)
    ensures (events[k].Save? && events[k].id == id && id in states[k].jobs && states[k].jobs[id].stage == Numbered(v))
            ==> Wrote(states, events, k + 1, id, v)
    ensures (Wrote(states, events, k, id, v) && events[k] == Point(id) && id in states[k].jobs
             && states[k].jobs[id].stage == Saved(v))
            ==> Landed(states, events, k + 1, id, v)
  {
  }

  /** Where one step takes a build. */
  lemma WhereBuildsMove(s: State, e: Event, id: nat)
    requires Step(s, e).Some?
    ensures var t := Step(s, e).value;
            id in t.jobs ==>
              || (id in s.jobs && t.jobs[id] == s.jobs[id])
              || t.jobs[id].stage == Queued || t.jobs[id].stage == Building
              || (id in s.jobs && t.jobs[id].req == s.jobs[id].req
                  && match t.jobs[id].stage
                     case Numbered(v) => e.Number? && e.id == id && s.jobs[id].stage == Building
                                         && Lists(PackOf(s, s.jobs[id].req.pack).dir, e.listing)
                                         && VersionFor(s.jobs[id].req, e.listing) == Some(v)
                     case Saved(v) => e.Save? && e.id == id && s.jobs[id].stage == Numbered(v)
                     case Pointed(v) => e == Point(id) && s.jobs[id].stage == Saved(v)
                     case Over(Published(v)) => e == Finish(id) && s.jobs[id].stage == Pointed(v)
                     case Over(Previewed) => s.jobs[id].req.dryRun
                     case _ => true)
  {
    hide Lists, VersionFor, Refuses;
  }

  lemma NumberedNow(states: seq<State>, events: seq<Event>, k: nat, id: nat, v: string)
    requires |states| == |events| + 1 && k < |events| && events[k].Number? && events[k].id == id && id in states[k].jobs
    requires Lists(PackOf(states[k], states[k].jobs[id].req.pack).dir, events[k].listing)
    requires VersionFor(states[k].jobs[id].req, events[k].listing) == Some(v)
    ensures TookNumber(states, events, k + 1, id, v)
  {
    var req := states[k].jobs[id].req;
    assert v == match req.version
                case Some(asked) => asked
                case None => Render(req.base, NextCounter(req.base, events[k].listing));
    hide Lists, VersionFor, Render, NextCounter;
  }

  lemma {:induction false} BuildsAreTold(states: seq<State>, events: seq<Event>, k: nat, id: nat)
    requires Trace(states, events) && states[0].jobs == map[] && k <= |events|
    ensures StageTold(states, events, k, id)
  {
    if k > 0 {
      BuildsAreTold(states, events, k - 1, id);
      TraceSteps(states, events, k - 1);
      WhereBuildsMove(states[k - 1], events[k - 1], id);
      forall v {
        StageToldGrows(states, events, k - 1, id, v);
      }
      hide Step, Trace, TookNumber, Wrote, Landed, VersionFor, Lists, PackOf;
      if id in states[k].jobs && states[k].jobs[id].stage.Numbered? && id in states[k - 1].jobs
         && states[k].jobs[id] != states[k - 1].jobs[id] {
        NumberedNow(states, events, k - 1, id, states[k].jobs[id].stage.version);
      }
    }
  }

  /** Over every run a build that reports a version as published took it as its number,
      wrote its manifest and moved the pointer to it. */
  lemma PublishedMeansLanded(states: seq<State>, events: seq<Event>, k: nat, id: nat, v: string)
    requires Trace(states, events) && states[0].jobs == map[] && k <= |events|
    requires id in states[k].jobs && states[k].jobs[id].stage == Over(Published(v))
    ensures TookNumber(states, events, k, id, v) && Landed(states, events, k, id, v)
  {
    BuildsAreTold(states, events, k, id);
    hide TookNumber, Landed, Trace;
  }

  /** A dry run ends in a preview and never holds a lock, writes or points. */
  lemma {:induction false} DryRunsOnlyPreview(states: seq<State>, events: seq<Event>, k: nat, id: nat)
    requires Trace(states, events) && states[0].jobs == map[] && k <= |events|
    requires id in states[k].jobs && states[k].jobs[id].req.dryRun
    ensures states[k].jobs[id].stage == Queued || states[k].jobs[id].stage == Over(Previewed)
  {
    if k > 0 {
      TraceSteps(states, events, k - 1);
      RequestsKept(states[k - 1], events[k - 1]);
      if id in states[k - 1].jobs {
        DryRunsOnlyPreview(states, events, k - 1, id);
        DryStep(states[k - 1], events[k - 1], id);
      }
    }
  }

  lemma DryStep(s: State, e: Event, id: nat)
    requires Step(s, e).Some? && id in s.jobs && s.jobs[id].req.dryRun
    requires s.jobs[id].stage == Queued || s.jobs[id].stage == Over(Previewed)
    ensures var t := Step(s, e).value;
            id in t.jobs && (t.jobs[id].stage == Queued || t.jobs[id].stage == Over(Previewed))
  {
  }

  // ----- One build on its own --------------------------------------------------------------------

  /** An undisturbed build of a free pack publishes: its manifest is there, `latest`
      names it, the lock is free again. */
  lemma BuildPublishes(s: State, id: nat, req: Request, listing: seq<string>, manifest: string)
    returns (states: seq<State>)
    requires id !in s.jobs && !req.dryRun && PackOf(s, req.pack).lock == None
    requires Lists(PackOf(s, req.pack).dir, listing) && VersionFor(req, listing).Some?
    requires VersionFor(req, listing).value in PackOf(s, req.pack).dir.published ==> req.overwrite
    ensures Trace(states, [Spawn(id, req), Acquire(id), Number(id, listing), Save(id, manifest), Point(id), Finish(id)])
    ensures states[0] == s
    ensures var (t, v) := (states[6], VersionFor(req, listing).value);
            && id in t.jobs && t.jobs[id].stage == Over(Published(v))
            && PackOf(t, req.pack).lock == None && PackOf(t, req.pack).dir.latest == Some(v)
            && PackOf(t, req.pack).dir.published == PackOf(s, req.pack).dir.published[v := manifest]
  {
    var p, v := PackOf(s, req.pack), VersionFor(req, listing).value;
    hide *;
    var s1 := Spawned(s, id, req, p);
    var s2 := Acquired(s1, id, req, p);
    var q := p.(lock := Some(id));
    var s3 := TookIt(s2, id, req, q, listing, v);
    var s4 := WroteIt(s3, id, req, q, v, manifest);
    var r := q.(dir := q.dir.(published := q.dir.published[v := manifest]));
    var s5 := PointedIt(s4, id, req, r, v);
    var s6 := FinishedIt(s5, id, req, r.(dir := r.dir.(latest := Some(v))), v);
    states := [s, s1, s2, s3, s4, s5, s6];
    SixSteps(states, [Spawn(id, req), Acquire(id), Number(id, listing), Save(id, manifest), Point(id), Finish(id)]);
    StandsSo(s6, id, req, Over(Published(v)), r.(dir := r.dir.(latest := Some(v)), lock := None));
  }

  /** Where a build and its pack stand. */
  predicate Stands(s: State, id: nat, req: Request, stage: Stage, p: Pack)
  {
    id in s.jobs && s.jobs[id] == Job(req, stage) && PackOf(s, req.pack) == p
  }

  lemma StandsSo(s: State, id: nat, req: Request, stage: Stage, p: Pack)
    requires Stands(s, id, req, stage, p)
    ensures id in s.jobs && s.jobs[id].stage == stage && PackOf(s, req.pack) == p
  {
  }

  lemma SixSteps(states: seq<State>, events: seq<Event>)
    requires |states| == 7 && |events| == 6
    requires Step(states[0], events[0]) == Some(states[1]) && Step(states[1], events[1]) == Some(states[2])
    requires Step(states[2], events[2]) == Some(states[3]) && Step(states[3], events[3]) == Some(states[4])
    requires Step(states[4], events[4]) == Some(states[5]) && Step(states[5], events[5]) == Some(states[6])
    ensures Trace(states, events)
  {
    hide Step;
  }

  lemma Spawned(s: State, id: nat, req: Request, p: Pack) returns (t: State)
    requires id !in s.jobs && PackOf(s, req.pack) == p
    ensures Step(s, Spawn(id, req)) == Some(t) && Stands(t, id, req, Queued, p)
  {
    t := Step(s, Spawn(id, req)).value;
  }

  lemma Acquired(s: State, id: nat, req: Request, p: Pack) returns (t: State)
    requires Stands(s, id, req, Queued, p) && !req.dryRun && p.lock == None
    ensures Step(s, Acquire(id)) == Some(t) && Stands(t, id, req, Building, p.(lock := Some(id)))
  {
    t := Step(s, Acquire(id)).value;
  }

  lemma TookIt(s: State, id: nat, req: Request, p: Pack, listing: seq<string>, v: string) returns (t: State)
    requires Stands(s, id, req, Building, p) && Lists(p.dir, listing) && VersionFor(req, listing) == Some(v)
    ensures Step(s, Number(id, listing)) == Some(t) && Stands(t, id, req, Numbered(v), p)
  {
    hide Lists, VersionFor;
    t := Step(s, Number(id, listing)).value;
  }

  lemma WroteIt(s: State, id: nat, req: Request, p: Pack, v: string, manifest: string) returns (t: State)
    requires Stands(s, id, req, Numbered(v), p) && (v in p.dir.published ==> req.overwrite)
    ensures Step(s, Save(id, manifest)) == Some(t)
    ensures Stands(t, id, req, Saved(v), p.(dir := p.dir.(published := p.dir.published[v := manifest])))
  {
    t := Step(s, Save(id, manifest)).value;
  }

  lemma PointedIt(s: State, id: nat, req: Request, p: Pack, v: string) returns (t: State)
    requires Stands(s, id, req, Saved(v), p)
    ensures Step(s, Point(id)) == Some(t) && Stands(t, id, req, Pointed(v), p.(dir := p.dir.(latest := Some(v))))
  {
    t := Step(s, Point(id)).value;
  }

  lemma FinishedIt(s: State, id: nat, req: Request, p: Pack, v: string) returns (t: State)
    requires Stands(s, id, req, Pointed(v), p)
    ensures Step(s, Finish(id)) == Some(t) && Stands(t, id, req, Over(Published(v)), p.(lock := None))
  {
    t := Step(s, Finish(id)).value;
  }
}
