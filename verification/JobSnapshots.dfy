/** Job snapshots on disk (src/storage.rs): what a restart finds, marks and keeps. */
module JobSnapshots {
  import opened Base
  import opened Texts
  import opened Sorting
  import opened Jobs

  datatype JobSnapshot = JobSnapshot(jobId: string, kind: string, packId: string, status: Status, log: seq<string>)

  /** The files of the jobs directory by name; one that does not parse is unreadable. */
  datatype File = Readable(snapshot: JobSnapshot) | Unreadable

  type Files = map<string, File>

  datatype Sweep = Swept(interrupted: nat) | BadId(id: string)

  const INTERRUPTED := "interrupted by service restart"

  /** `is_safe_job_id`: what the registry mints, and nothing longer. */
  predicate IsSafeJobId(s: string)
  {
    s != "" && |s| <= 64 && forall c :: c in s ==> '0' <= c <= '9' || 'a' <= c <= 'f' || c == '-'
  }

  predicate IsRunning(f: File)
  {
    f.Readable? && f.snapshot.status == Running
  }

  predicate RunningAt(files: Files, id: string)
  {
    id in files && IsRunning(files[id])
  }

  function Mark(f: File): File
  {
    if IsRunning(f)
    then Readable(f.snapshot.(status := Failed, log := f.snapshot.log + [INTERRUPTED]))
    else f
  }

  // ----- The sweep, name by name -----------------------------------------------------

  /** A running snapshot is written back, marked, under the job it tells about. */
  function MarkNext(files: Files, id: string): Files
  {
    if RunningAt(files, id) then files[files[id].snapshot.jobId := Mark(files[id])] else files
  }

  function Marked(files: Files, ids: seq<string>): Files
  {
    if ids == [] then files else MarkNext(Marked(files, ids[..|ids| - 1]), ids[|ids| - 1])
  }

  /** How many of the names still ran when the sweep came to them. */
  function Interrupted(files: Files, ids: seq<string>): nat
  {
    if ids == [] then 0
    else
      Interrupted(files, ids[..|ids| - 1])
      + if RunningAt(Marked(files, ids[..|ids| - 1]), ids[|ids| - 1]) then 1 else 0
  }

  /** A name no registry mints stops the sweep, whether a file has it or a snapshot. */
  predicate Stops(files: Files, id: string)
  {
    !IsSafeJobId(id) || (RunningAt(files, id) && !IsSafeJobId(files[id].snapshot.jobId))
  }

  /** All but the last `keep` of these names in order. */
  function Excess(names: set<string>, keep: nat): seq<string>
  {
    var ids := SortedKeys(names);
    if |ids| > keep then ids[..|ids| - keep] else []
  }

  function Members(ids: seq<string>): set<string>
  {
    set id | id in ids
  }

  function Prune(files: Files, names: set<string>, keep: nat): Files
  {
    files - Members(Excess(names, keep))
  }

  lemma MarkedNext(files: Files, listed: seq<string>, k: nat)
    requires k < |listed|
    ensures Marked(files, listed[..k + 1]) == MarkNext(Marked(files, listed[..k]), listed[k])
    ensures Interrupted(files, listed[..k + 1])
         == Interrupted(files, listed[..k]) + if RunningAt(Marked(files, listed[..k]), listed[k]) then 1 else 0
  {
    assert listed[..k + 1][..k] == listed[..k];
  }

  /** The `k`-th listed name stopped the sweep, and none before it. */
  ghost predicate StoppedAt(files: Files, listed: seq<string>, k: nat)
  {
    && k < |listed| && Stops(Marked(files, listed[..k]), listed[k])
    && forall j :: 0 <= j < k ==> !Stops(Marked(files, listed[..j]), listed[j])
  }

  /** The name that stops it: the file's, or the one its snapshot tells. */
  function BadName(files: Files, id: string): string
  {
    if IsSafeJobId(id) && RunningAt(files, id) then files[id].snapshot.jobId else id
  }

  /** What a sweep leaves that was stopped at some listed name. */
  ghost predicate StoppedWith(files: Files, listed: seq<string>, left: Files, id: string)
  {
    exists k: nat :: StoppedAt(files, listed, k) && left == Marked(files, listed[..k]) && id == BadName(left, listed[k])
  }

  class SnapshotDir {
    var files: Files

    constructor ()
      ensures files == map[]
    {
      files := map[];
    }

    /** The marking loop of `sweep_job_snapshots`, on the names the directory listed. */
    method MarkInterrupted(listed: seq<string>) returns (r: Sweep)
      modifies this
      ensures r.Swept? ==> (forall k :: 0 <= k < |listed| ==> !Stops(Marked(old(files), listed[..k]), listed[k]))
                           && files == Marked(old(files), listed) && r.interrupted == Interrupted(old(files), listed)
      ensures r.BadId? ==> StoppedWith(old(files), listed, files, r.id)
    {
      ghost var given := files;
      var interrupted := 0;
      for k := 0 to |listed|
        invariant files == Marked(given, listed[..k]) && interrupted == Interrupted(given, listed[..k])
        invariant forall j :: 0 <= j < k ==> !Stops(Marked(given, listed[..j]), listed[j])
      {
        MarkedNext(given, listed, k);
        hide Marked, Interrupted, IsSafeJobId;
        var id := listed[k];
        if !IsSafeJobId(id) {
          assert StoppedAt(given, listed, k);
          return BadId(id);
        }
        if id in files && files[id].Readable? && files[id].snapshot.status == Running {
          var snap := files[id].snapshot;
          snap := snap.(status := Failed, log := snap.log + [INTERRUPTED]);
          if !IsSafeJobId(snap.jobId) {
            assert StoppedAt(given, listed, k);
            return BadId(snap.jobId);
          }
          files := files[snap.jobId := Readable(snap)];
          interrupted := interrupted + 1;
        }
      }
      assert listed[..|listed|] == listed;
      r := Swept(interrupted);
    }

    /** `sweep_job_snapshots`: mark, then remove all but the last `keep` of the names
        listed. A bad name stops it before anything is removed. */
    method SweepJobSnapshots(listed: seq<string>, keep: nat) returns (r: Sweep)
      modifies this
      ensures r.Swept? ==> (forall k :: 0 <= k < |listed| ==> !Stops(Marked(old(files), listed[..k]), listed[k]))
                           && files == Prune(Marked(old(files), listed), Members(listed), keep)
                           && r.interrupted == Interrupted(old(files), listed)
      ensures r.BadId? ==> StoppedWith(old(files), listed, files, r.id)
    {
      hide *;
      r := MarkInterrupted(listed);
      if r.Swept? {
        var ids := SortedKeys(Members(listed));
        PruneCuts(files, Members(listed), keep);
        if |ids| > keep {
          files := files - Members(ids[..|ids| - keep]);
        }
      }
    }
  }

  lemma PruneCuts(files: Files, names: set<string>, keep: nat)
    ensures var ids := SortedKeys(names);
            Prune(files, names, keep) == if |ids| > keep then files - Members(ids[..|ids| - keep]) else files
  {
    hide *;
    PruneIs(files, names, keep);
    ExcessCuts(names, keep);
    if |SortedKeys(names)| <= keep {
      NoMembers();
      assert files - {} == files;
    }
  }

  lemma PruneIs(files: Files, names: set<string>, keep: nat)
    ensures Prune(files, names, keep) == files - Members(Excess(names, keep))
  {
  }

  lemma ExcessCuts(names: set<string>, keep: nat)
    ensures var ids := SortedKeys(names);
            Excess(names, keep) == if |ids| > keep then ids[..|ids| - keep] else []
  {
  }

  lemma NoMembers()
    ensures Members([]) == {}
  {
  }

  // ----- Which sweeps leave nothing running ----------------------------------------------

  /** The directory listing, in whatever order, each name once. */
  ghost predicate Listing(files: Files, ids: seq<string>)
  {
    (forall id :: id in ids <==> id in files) && forall i, j :: 0 <= i < j < |ids| ==> ids[i] != ids[j]
  }

  /** Every snapshot that claims to run is filed under the job it tells about. */
  ghost predicate RunningAreFiled(files: Files)
  {
    forall id :: RunningAt(files, id) ==> files[id].snapshot.jobId == id
  }

  predicate NothingRuns(files: Files)
  {
    forall id :: id in files ==> !IsRunning(files[id])
  }

  function MarkAll(files: Files): (r: Files)
    ensures r.Keys == files.Keys && forall id :: id in r ==> r[id] == Mark(files[id])
  {
    map id | id in files :: Mark(files[id])
  }

  function Orphans(files: Files): set<string>
  {
    set id | id in files && IsRunning(files[id])
  }

  /** The files once the named ones are dealt with. */
  function MarkSome(files: Files, done: set<string>): (r: Files)
    ensures r.Keys == files.Keys
  {
    map id | id in files :: if id in done then Mark(files[id]) else files[id]
  }

  lemma MarkOne(files: Files, done: set<string>, id: string)
    requires RunningAreFiled(files) && id in files && id !in done
    ensures MarkNext(MarkSome(files, done), id) == MarkSome(files, done + {id})
    ensures RunningAt(MarkSome(files, done), id) <==> RunningAt(files, id)
  {
    assert MarkSome(files, done)[id] == files[id];
    if RunningAt(files, id) {
      assert files[id].snapshot.jobId == id;
    }
    hide Mark;
  }

  lemma CountOne(files: Files, done: set<string>, id: string)
    requires id in files && id !in done
    ensures |Orphans(files) * (done + {id})| == |Orphans(files) * done| + if RunningAt(files, id) then 1 else 0
  {
    var more := Orphans(files) * (done + {id});
    if RunningAt(files, id) {
      assert more == (Orphans(files) * done) + {id};
    } else {
      assert more == Orphans(files) * done;
    }
  }

  lemma ListedNext(files: Files, listed: seq<string>, k: nat)
    requires Listing(files, listed) && k < |listed|
    ensures listed[k] in files && listed[k] !in Members(listed[..k])
    ensures Members(listed[..k + 1]) == Members(listed[..k]) + {listed[k]}
  {
    assert listed[k] in listed;
    assert listed[..k + 1] == listed[..k] + [listed[k]];
  }

  lemma {:induction false} FiledAreMarked(files: Files, listed: seq<string>, k: nat)
    requires RunningAreFiled(files) && Listing(files, listed) && k <= |listed|
    ensures Marked(files, listed[..k]) == MarkSome(files, Members(listed[..k]))
    ensures Interrupted(files, listed[..k]) == |Orphans(files) * Members(listed[..k])|
  {
    hide *;
    if k == 0 {
      NoneListed(files, listed);
    } else {
      FiledAreMarked(files, listed, k - 1);
      ListedNext(files, listed, k - 1);
      MarkedNext(files, listed, k - 1);
      MarkOne(files, Members(listed[..k - 1]), listed[k - 1]);
      CountOne(files, Members(listed[..k - 1]), listed[k - 1]);
    }
  }

  lemma NoneListed(files: Files, listed: seq<string>)
    ensures Marked(files, listed[..0]) == MarkSome(files, Members(listed[..0]))
    ensures Interrupted(files, listed[..0]) == |Orphans(files) * Members(listed[..0])|
  {
    assert MarkSome(files, Members(listed[..0])) == files;
    assert Orphans(files) * Members(listed[..0]) == {};
  }

  /** Filed as the program files them, every running snapshot is marked, in any order
      of the listing, and counted once. */
  lemma SweepMarksAll(files: Files, listed: seq<string>)
    requires RunningAreFiled(files) && Listing(files, listed)
    ensures Marked(files, listed) == MarkAll(files)
    ensures Interrupted(files, listed) == |Orphans(files)|
  {
    FiledAreMarked(files, listed, |listed|);
    assert listed[..|listed|] == listed;
    hide Mark;
    assert MarkSome(files, Members(listed)) == MarkAll(files);
    assert Orphans(files) * Members(listed) == Orphans(files);
  }

  /** A running snapshot filed elsewhere outlives every step: what is written is
      another file, and never one that runs. */
  lemma {:induction false} MisfiledKeepsRunning(files: Files, listed: seq<string>)
    requires !RunningAreFiled(files)
    ensures !RunningAreFiled(Marked(files, listed))
  {
    if listed != [] {
      var init, last := listed[..|listed| - 1], listed[|listed| - 1];
      MisfiledKeepsRunning(files, init);
      hide Marked;
      MisfiledStays(Marked(files, init), last);
      assert Marked(files, listed) == MarkNext(Marked(files, init), last) by { MarkedLast(files, listed); }
    }
  }

  lemma MarkedLast(files: Files, listed: seq<string>)
    requires listed != []
    ensures Marked(files, listed) == MarkNext(Marked(files, listed[..|listed| - 1]), listed[|listed| - 1])
  {
  }

  lemma MisfiledStays(files: Files, id: string)
    requires !RunningAreFiled(files)
    ensures !RunningAreFiled(MarkNext(files, id))
  {
    var x :| RunningAt(files, x) && files[x].snapshot.jobId != x;
    var t := MarkNext(files, id);
    if RunningAt(files, id) && files[id].snapshot.jobId != id {
      assert RunningAt(t, id) && t[id] == files[id];
    } else {
      assert RunningAt(t, x) && t[x] == files[x];
    }
  }

  /** The marking leaves nothing running exactly when every running snapshot was filed
      under its own job, whatever the order of the listing. */
  lemma NothingRunsIff(files: Files, listed: seq<string>)
    requires Listing(files, listed)
    ensures NothingRuns(Marked(files, listed)) <==> RunningAreFiled(files)
  {
    if RunningAreFiled(files) {
      SweepMarksAll(files, listed);
    } else {
      MisfiledKeepsRunning(files, listed);
    }
    hide Marked;
  }

  // ----- Which sweeps are stopped --------------------------------------------------------

  /** Empty, longer than sixty-four, or with a character that is no small hexadecimal digit
      and no dash. */
  predicate Foreign(s: string)
  {
    s == "" || |s| > 64 || exists c :: c in s && c != '-' && !('0' <= c <= '9') && !('a' <= c <= 'f')
  }

  lemma SafeIff(s: string)
    ensures IsSafeJobId(s) <==> !Foreign(s)
  {
  }

  /** Filed as the program files them, the snapshots are swept to the end if and only if
      no file has a foreign name. */
  lemma SweepCompletesIff(files: Files, listed: seq<string>)
    requires RunningAreFiled(files) && Listing(files, listed)
    ensures (forall k :: 0 <= k < |listed| ==> !Stops(Marked(files, listed[..k]), listed[k]))
       <==> forall id :: id in files ==> !Foreign(id)
  {
    forall k | 0 <= k < |listed| ensures Stops(Marked(files, listed[..k]), listed[k]) <==> Foreign(listed[k]) {
      StopsAtForeign(files, listed, k);
    }
    hide Marked, Stops, Foreign;
    assert forall id :: id in files ==> id in listed;
    assert forall k :: 0 <= k < |listed| ==> listed[k] in listed;
  }

  lemma StopsAtForeign(files: Files, listed: seq<string>, k: nat)
    requires RunningAreFiled(files) && Listing(files, listed) && k < |listed|
    ensures Stops(Marked(files, listed[..k]), listed[k]) <==> Foreign(listed[k])
  {
    FiledAreMarked(files, listed, k);
    ListedNext(files, listed, k);
    SafeIff(listed[k]);
    var now := Marked(files, listed[..k]);
    assert listed[k] in now && now[listed[k]] == files[listed[k]];
    hide Marked, Foreign, IsSafeJobId, Interrupted;
  }

  /** Every directory can be listed, its names in order for one. */
  lemma DirectoriesList(files: Files)
    ensures Listing(files, SortedKeys(files.Keys))
  {
    IncreasingDistinct(SortedKeys(files.Keys));
  }

  // ----- What a restart leaves ---------------------------------------------------------

  /** A snapshot filed under its own job: one that ran stands again failed, its log one
      line longer; any other stands as it was; no name comes or goes. */
  lemma RestartSays(files: Files, listed: seq<string>, id: string)
    requires RunningAreFiled(files) && Listing(files, listed) && id in files
    ensures var after := Marked(files, listed);
            && after.Keys == files.Keys
            && (files[id] == Unreadable ==> after[id] == Unreadable)
            && (files[id].Readable? ==> (
                  var (was, now) := (files[id].snapshot, after[id]);
                  && (was.status == Running ==>
                        now == Readable(JobSnapshot(was.jobId, was.kind, was.packId, Failed,
                                                    was.log + ["interrupted by service restart"])))
                  && (was.status != Running ==> now == files[id])))
  {
    SweepMarksAll(files, listed);
    hide Marked;
  }

  /** What is removed sorts before all that is kept. */
  lemma SmallestGo(files: Files, keep: nat, gone: string, kept: string)
    requires gone in files && gone !in Prune(files, files.Keys, keep) && kept in Prune(files, files.Keys, keep)
    ensures Less(gone, kept)
  {
    var ids := SortedKeys(files.Keys);
    assert gone in Excess(files.Keys, keep) && kept in ids && kept !in Members(Excess(files.Keys, keep));
    var i :| 0 <= i < |ids| - keep && ids[i] == gone;
    var j :| 0 <= j < |ids| && ids[j] == kept;
    if j < |ids| - keep {
      KeptIsNoExcess(files.Keys, keep, j);
      assert false;
    }
    hide Less;
  }

  /** No name the registry mints within the widths stops a sweep. */
  lemma MintedNamesPass(files: Files, ms: nat, n: nat)
    requires ms < MS_LIMIT && n < COUNTER_LIMIT && RunningAreFiled(files)
    ensures !Stops(files, JobId(ms, n)) && |JobId(ms, n)| == 22
  {
    JobIdFixed(ms, n);
    FixedDigits(ms, 16, 13);
    FixedDigits(n, 10, 8);
    hide JobId, Fixed;
  }

  lemma {:induction false} FixedDigits(n: nat, base: nat, w: nat)
    requires 2 <= base <= 16
    ensures forall c :: c in Fixed(n, base, w) ==> '0' <= c <= '9' || 'a' <= c <= 'f'
  {
    if w > 0 {
      FixedDigits(Quotient(n, base), base, w - 1);
    }
  }

  /** After a whole sweep at most `keep` snapshots are left, each as it was or saying
      that it was interrupted, and none claims to run. */
  lemma SweepLeaves(files: Files, listed: seq<string>, keep: nat)
    requires RunningAreFiled(files) && Listing(files, listed)
    ensures var after := Prune(Marked(files, listed), Members(listed), keep);
            && NothingRuns(after) && |after| <= keep
            && (keep >= |files| ==> after == MarkAll(files))
            && forall id :: id in after ==> id in files && after[id] == Mark(files[id])
  {
    SweepMarksAll(files, listed);
    assert Members(listed) == files.Keys;
    assert |MarkAll(files)| == |MarkAll(files).Keys| && |files| == |files.Keys|;
    hide Marked, Excess;
    PruneSize(MarkAll(files), keep);
  }

  lemma ExcessIs(names: set<string>, keep: nat)
    ensures |Members(Excess(names, keep))| == if |names| > keep then |names| - keep else 0
    ensures Members(Excess(names, keep)) <= names
  {
    var ids, drop := SortedKeys(names), Excess(names, keep);
    forall id | id in drop ensures id in names {
      assert id in ids;
    }
    IncreasingDistinct(ids);
    forall i | 0 <= i < |drop| ensures drop[i] !in drop[..i] {
      assert drop[i] == ids[i] && drop[..i] == ids[..i];
    }
    hide SortedKeys, Increasing;
    DistinctSize(drop, Members(drop));
  }

  lemma PruneSize(files: Files, keep: nat)
    ensures |Prune(files, files.Keys, keep)| == if |files| > keep then keep else |files|
    ensures |files| <= keep ==> Prune(files, files.Keys, keep) == files
  {
    assert |files| == |files.Keys|;
    ExcessIs(files.Keys, keep);
    hide Excess;
    var drop := Members(Excess(files.Keys, keep));
    var left := Prune(files, files.Keys, keep);
    assert left.Keys == files.Keys - drop;
    assert |files.Keys - drop| == |files.Keys| - |drop|;
    assert |left| == |left.Keys|;
    if |files| <= keep {
      assert drop == {};
    }
  }

  /** Sweeping what a sweep left, in any order, finds nothing to mark or remove. */
  lemma SweepIsIdempotent(files: Files, listed: seq<string>, again: seq<string>, keep: nat)
    requires RunningAreFiled(files) && Listing(files, listed)
    requires Listing(Prune(Marked(files, listed), Members(listed), keep), again)
    ensures var once := Prune(Marked(files, listed), Members(listed), keep);
            Prune(Marked(once, again), Members(again), keep) == once && Interrupted(once, again) == 0
  {
    SweepLeaves(files, listed, keep);
    QuietSweep(Prune(Marked(files, listed), Members(listed), keep), again, keep);
  }

  lemma QuietSweep(files: Files, listed: seq<string>, keep: nat)
    requires NothingRuns(files) && |files| <= keep && Listing(files, listed)
    ensures Prune(Marked(files, listed), Members(listed), keep) == files && Interrupted(files, listed) == 0
  {
    hide Prune, Marked, Interrupted;
    SweepMarksAll(files, listed);
    assert Orphans(files) == {};
    assert MarkAll(files) == files;
    assert Members(listed) == files.Keys;
    PruneSize(files, keep);
  }

  /** While ids keep their widths, no removed snapshot is newer than one that is kept. */
  lemma PruneKeepsTheNewest(files: Files, keep: nat, ms1: nat, n1: nat, ms2: nat, n2: nat)
    requires ms1 < MS_LIMIT && ms2 < MS_LIMIT && n1 < COUNTER_LIMIT && n2 < COUNTER_LIMIT
    requires JobId(ms1, n1) in files && JobId(ms1, n1) !in Prune(files, files.Keys, keep)
    requires JobId(ms2, n2) in Prune(files, files.Keys, keep)
    ensures !Older(ms2, n2, ms1, n1)
  {
    SmallestGo(files, keep, JobId(ms1, n1), JobId(ms2, n2));
    hide JobId;
    if Older(ms2, n2, ms1, n1) {
      IdOrderIsAge(ms2, n2, ms1, n1);
      Trichotomy(JobId(ms1, n1), JobId(ms2, n2));
    }
  }

  lemma KeptIsNoExcess(names: set<string>, keep: nat, j: nat)
    requires j + keep < |SortedKeys(names)|
    ensures SortedKeys(names)[j] in Members(Excess(names, keep))
  {
    assert Excess(names, keep)[j] == SortedKeys(names)[j];
  }

  /** Below these bounds no pruning removes a snapshot newer than one it keeps. */
  ghost predicate NewestAreKept(m: nat, n: nat)
  {
    forall files: Files, keep: nat, ms1: nat, n1: nat, ms2: nat, n2: nat ::
      && ms1 < m && ms2 < m && n1 < n && n2 < n
      && JobId(ms1, n1) in files && JobId(ms1, n1) !in Prune(files, files.Keys, keep)
      && JobId(ms2, n2) in Prune(files, files.Keys, keep)
      ==> !Older(ms2, n2, ms1, n1)
  }

  /** Exactly when neither bound passes its width. */
  lemma NewestAreKeptIff(m: nat, n: nat)
    requires m >= 1 && n >= 2
    ensures NewestAreKept(m, n) <==> m <= MS_LIMIT && n <= COUNTER_LIMIT
  {
    if m <= MS_LIMIT && n <= COUNTER_LIMIT {
      forall files: Files, keep: nat, ms1: nat, n1: nat, ms2: nat, n2: nat
        | && ms1 < m && ms2 < m && n1 < n && n2 < n
          && JobId(ms1, n1) in files && JobId(ms1, n1) !in Prune(files, files.Keys, keep)
          && JobId(ms2, n2) in Prune(files, files.Keys, keep)
        ensures !Older(ms2, n2, ms1, n1)
      {
        PruneKeepsTheNewest(files, keep, ms1, n1, ms2, n2);
      }
    } else {
      var ms1, n1, ms2, n2 := PastTheWidths(m, n);
      NewerIsPruned(JobId(ms1, n1), JobId(ms2, n2));
    }
  }

  /** Of two names the one that sorts first goes. */
  lemma NewerIsPruned(a: string, b: string)
    requires Less(b, a)
    ensures var files := map[a := Unreadable, b := Unreadable];
            b in files && b !in Prune(files, files.Keys, 1) && a in Prune(files, files.Keys, 1)
  {
    Trichotomy(a, b);
    var files := map[a := Unreadable, b := Unreadable];
    assert files.Keys == {a, b};
    IncreasingUnique(SortedKeys({a, b}), [b, a]);
    assert Excess({a, b}, 1) == [b];
  }
}
