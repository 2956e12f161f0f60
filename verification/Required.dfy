/** Required-ness of the mods of a build (src/authoring/build.rs). A mod is locked
    when the server carries it or when a mod of the default install needs it;
    `DeriveRequired` finds the locked mods with a worklist over the pack's own
    dependency edges, in place. */
module RequiredMods {
  import opened Base
  import opened Sides
  import opened Manifest

  type Classes = map<string, Classification>

  datatype Derivation = Derived | Refused(filename: string)

  function SideOf(m: ModEntry, cls: Classes): Option<SideClass>
  {
    if m.filename in cls then cls[m.filename].side else None
  }

  predicate NonMod(m: ModEntry, cls: Classes)
  {
    m.filename in cls && cls[m.filename].IsNonMod()
  }

  predicate Soft(m: ModEntry, cls: Classes)
  {
    m.filename in cls && cls[m.filename].ClientVerdictIsSoft()
  }

  /** May a hard edge lock this mod? */
  predicate Lockable(m: ModEntry, cls: Classes)
  {
    m.filename in cls ==>
      !cls[m.filename].optionalBoth && (cls[m.filename].side != Some(Client) || cls[m.filename].ClientVerdictIsSoft())
  }

  function Requirements(m: ModEntry): seq<Requirement>
  {
    RequirementsOf(m.display)
  }

  // ----- What is locked -------------------------------------------------------------

  /** The last entry under a filename, which is the one an edge to it finds. */
  function LastNamed(mods: seq<ModEntry>, f: string): (r: Option<nat>)
    ensures r.Some? ==> r.value < |mods| && mods[r.value].filename == f
    ensures r.Some? ==> forall k :: r.value < k < |mods| ==> mods[k].filename != f
    ensures r.None? ==> forall k :: 0 <= k < |mods| ==> mods[k].filename != f
  {
    if mods == [] then None
    else if mods[|mods| - 1].filename == f then Some(|mods| - 1)
    else LastNamed(mods[..|mods| - 1], f)
  }

  /** `i` hard-requires `j`, and `j` may be locked. */
  predicate Edge(mods: seq<ModEntry>, cls: Classes, i: nat, j: nat)
    requires i < |mods|
  {
    && (exists r :: r in Requirements(mods[i]) && !r.optional && LastNamed(mods, r.filename) == Some(j))
    && Lockable(mods[j], cls)
  }

  /** A way along hard edges, at least one, from a mod of the default install. */
  predicate Way(mods: seq<ModEntry>, cls: Classes, p: seq<nat>)
  {
    && |p| >= 2
    && (forall k :: 0 <= k < |p| ==> p[k] < |mods|)
    && mods[p[0]].defaultEnabled
    && forall k :: 0 <= k < |p| - 1 ==> Edge(mods, cls, p[k], p[k + 1])
  }

  ghost predicate Reached(mods: seq<ModEntry>, cls: Classes, j: nat)
  {
    exists p :: Way(mods, cls, p) && p[|p| - 1] == j
  }

  predicate Seed(mods: seq<ModEntry>, cls: Classes, i: nat)
    requires i < |mods|
  {
    && mods[i].defaultEnabled && !NonMod(mods[i], cls)
    && mods[i].filename in cls && cls[mods[i].filename].policy == Some(MustMatch)
  }

  ghost predicate Candidate(mods: seq<ModEntry>, cls: Classes, i: nat)
  {
    i < |mods| && (Seed(mods, cls, i) || Reached(mods, cls, i))
  }

  ghost predicate Locked(mods: seq<ModEntry>, cls: Classes, i: nat)
  {
    Candidate(mods, cls, i) && SideOf(mods[i], cls) != Some(Server) && !NonMod(mods[i], cls)
  }

  /** A client mod that would be locked, with no soft verdict to excuse it. */
  ghost predicate Blocks(mods: seq<ModEntry>, cls: Classes, i: nat)
  {
    Locked(mods, cls, i) && SideOf(mods[i], cls) == Some(Client) && !Soft(mods[i], cls)
  }

  function OptOut(m: ModEntry, cls: Classes): ModEntry
  {
    if SideOf(m, cls) == Some(Server) then m.(defaultEnabled := false) else m
  }

  /** The first pass: a mod classified server side is no longer enabled by default. */
  function OptedOut(mods: seq<ModEntry>, cls: Classes): (r: seq<ModEntry>)
    ensures |r| == |mods|
    ensures forall i :: 0 <= i < |r| ==> r[i] == OptOut(mods[i], cls)
  {
    seq(|mods|, i requires 0 <= i < |mods| => OptOut(mods[i], cls))
  }

  function Presence(m: ModEntry, cls: Classes, locked: bool): Option<PresenceClass>
  {
    if m.filename !in cls then (if locked then Some(Required) else None)
    else if NonMod(m, cls) then Some(Coremod)
    else
      match SideOf(m, cls)
      case Some(Server) => Some(OptionalServer)
      case Some(Client) => Some(if locked then Required else OptionalClient)
      case Some(Both) => Some(if locked then Required else OptionalBoth)
      case None => if locked then Some(Required) else None
  }

  function Marked(m: ModEntry, cls: Classes, locked: bool): ModEntry
  {
    var presence := Presence(m, cls, locked);
    var display :=
      if m.display.Some? then Some(m.display.value.(presence := presence))
      else if presence.Some? then Some(DEFAULT_DISPLAY.(presence := presence))
      else None;
    m.(required := locked, display := display)
  }

  /** The pack as a successful derivation leaves it. */
  ghost function Derive(mods: seq<ModEntry>, cls: Classes): (r: seq<ModEntry>)
    ensures |r| == |mods|
    ensures forall i :: 0 <= i < |r| ==>
              r[i] == Marked(OptOut(mods[i], cls), cls, Locked(OptedOut(mods, cls), cls, i))
  {
    var rows := OptedOut(mods, cls);
    seq(|mods|, i requires 0 <= i < |mods| => Marked(rows[i], cls, Locked(rows, cls, i)))
  }

  // ----- The worklist --------------------------------------------------------------------

  function HardDeps(mods: seq<ModEntry>, cls: Classes, idx: map<string, nat>, requirements: seq<Requirement>)
    : (r: seq<nat>)
    requires forall f :: f in idx ==> idx[f] < |mods|
    ensures forall j: nat :: j in r <==>
              j < |mods| && Lockable(mods[j], cls)
              && exists q :: q in requirements && !q.optional && q.filename in idx && idx[q.filename] == j
  {
    if requirements == [] then []
    else
      var rest := HardDeps(mods, cls, idx, requirements[1..]);
      var q := requirements[0];
      assert forall x :: x in requirements <==> x == q || x in requirements[1..];
      if !q.optional && q.filename in idx && Lockable(mods[idx[q.filename]], cls)
      then [idx[q.filename]] + rest else rest
  }

  predicate Indexes(idx: map<string, nat>, mods: seq<ModEntry>)
  {
    && (forall f :: f in idx ==> LastNamed(mods, f) == Some(idx[f]))
    && forall k :: 0 <= k < |mods| ==> mods[k].filename in idx
  }

  lemma DepsAreEdges(mods: seq<ModEntry>, cls: Classes, idx: map<string, nat>, i: nat)
    requires Indexes(idx, mods) && i < |mods|
    ensures forall f :: f in idx ==> idx[f] < |mods|
    ensures forall j :: j in HardDeps(mods, cls, idx, Requirements(mods[i])) <==> Edge(mods, cls, i, j)
  {
    forall f ensures f in idx <==> LastNamed(mods, f).Some? {
    }
  }

  lemma ReachedFrom(mods: seq<ModEntry>, cls: Classes, i: nat, j: nat)
    requires i < |mods| && Edge(mods, cls, i, j)
    requires mods[i].defaultEnabled || Reached(mods, cls, i)
    ensures Reached(mods, cls, j)
  {
    if mods[i].defaultEnabled {
      assert Way(mods, cls, [i, j]);
    } else {
      var p :| Way(mods, cls, p) && p[|p| - 1] == i;
      assert Way(mods, cls, p + [j]);
    }
  }

  /** Nothing closed under edges out of the default install misses a reached mod. */
  lemma {:induction false} ClosedHoldsReached(mods: seq<ModEntry>, cls: Classes, s: set<nat>, p: seq<nat>)
    requires Way(mods, cls, p)
    requires forall i: nat, j: nat ::
      i < |mods| && (i in s || mods[i].defaultEnabled) && Edge(mods, cls, i, j) ==> j in s
    ensures p[|p| - 1] in s
  {
    var n := |p|;
    assert Edge(mods, cls, p[n - 2], p[n - 1]);
    if n > 2 {
      ClosedHoldsReached(mods, cls, s, p[..n - 1]);
    }
  }

  /** The loop has followed every edge out of what it holds, except those queued. */
  ghost predicate Frontier(mods: seq<ModEntry>, cls: Classes, held: set<nat>, queue: seq<nat>)
  {
    forall i: nat, j: nat :: i < |mods| && (i in held || mods[i].defaultEnabled) && Edge(mods, cls, i, j) ==>
      j in held || j in queue
  }

  ghost predicate AllCandidates(mods: seq<ModEntry>, cls: Classes, held: set<nat>, queue: seq<nat>)
  {
    && (forall i :: i in held ==> Candidate(mods, cls, i))
    && forall i :: i in queue ==> i < |mods| && Reached(mods, cls, i)
  }

  method SeedRequired(mods: array<ModEntry>, cls: Classes) returns (required: set<nat>)
    ensures forall i: nat :: i in required <==> i < mods.Length && Seed(mods[..], cls, i)
  {
    required := {};
    for k := 0 to mods.Length
      invariant forall i: nat :: i in required <==> i < k && Seed(mods[..], cls, i)
    {
      var m := mods[k];
      if m.defaultEnabled && !NonMod(m, cls) && m.filename in cls && cls[m.filename].policy == Some(MustMatch) {
        required := required + {k};
      }
    }
  }

  /** Everything the first `k` entries of the default install hard-require is queued,
      and nothing that is not reached. */
  ghost predicate QueuedUpTo(mods: seq<ModEntry>, cls: Classes, k: nat, queue: seq<nat>)
  {
    && (forall i :: i in queue ==> i < |mods| && Reached(mods, cls, i))
    && forall i: nat, j: nat :: i < k && i < |mods| && mods[i].defaultEnabled && Edge(mods, cls, i, j) ==> j in queue
  }

  lemma QueueNext(mods: seq<ModEntry>, cls: Classes, k: nat, queue: seq<nat>, deps: seq<nat>)
    requires QueuedUpTo(mods, cls, k, queue) && k < |mods| && mods[k].defaultEnabled
    requires forall j: nat :: j in deps <==> Edge(mods, cls, k, j)
    ensures QueuedUpTo(mods, cls, k + 1, queue + deps)
  {
    FollowEdges(mods, cls, k, deps);
    hide Edge, Reached;
  }

  method QueueDefaults(mods: array<ModEntry>, cls: Classes, idx: map<string, nat>, required: set<nat>)
    returns (queue: seq<nat>)
    requires Indexes(idx, mods[..])
    requires forall i: nat :: i in required <==> i < mods.Length && Seed(mods[..], cls, i)
    ensures QueuedUpTo(mods[..], cls, mods.Length, queue)
  {
    hide Edge, Reached, HardDeps;
    ghost var rows := mods[..];
    queue := [];
    for k := 0 to mods.Length
      invariant QueuedUpTo(rows, cls, k, queue)
    {
      if mods[k].defaultEnabled || k in required {
        DepsAreEdges(rows, cls, idx, k);
        var deps := HardDeps(mods[..], cls, idx, Requirements(mods[k]));
        assert rows[k].defaultEnabled;
        hide Indexes;
        QueueNext(rows, cls, k, queue, deps);
        queue := queue + deps;
      }
    }
  }

  lemma NothingMissing(mods: seq<ModEntry>, cls: Classes, required: set<nat>, queue: seq<nat>)
    requires forall i: nat :: i in required <==> i < |mods| && Seed(mods, cls, i)
    requires QueuedUpTo(mods, cls, |mods|, queue)
    ensures AllCandidates(mods, cls, required, queue) && Frontier(mods, cls, required, queue)
  {
    assert forall i: nat :: i in required ==> mods[i].defaultEnabled;
    hide Edge, Reached, Seed;
  }

  lemma FollowEdges(mods: seq<ModEntry>, cls: Classes, i: nat, deps: seq<nat>)
    requires i < |mods| && (mods[i].defaultEnabled || Reached(mods, cls, i))
    requires forall j: nat :: j in deps <==> Edge(mods, cls, i, j)
    ensures forall j :: j in deps ==> j < |mods| && Reached(mods, cls, j)
  {
    forall j | j in deps ensures j < |mods| && Reached(mods, cls, j) {
      ReachedFrom(mods, cls, i, j);
    }
  }

  /** Taking one mod off the queue, with its own edges put on, keeps the frontier. */
  lemma TakeUp(mods: seq<ModEntry>, cls: Classes, held: set<nat>, rest: seq<nat>, i: nat, deps: seq<nat>)
    requires AllCandidates(mods, cls, held, rest + [i]) && Frontier(mods, cls, held, rest + [i])
    requires i < |mods| && forall j: nat :: j in deps <==> Edge(mods, cls, i, j)
    ensures AllCandidates(mods, cls, held + {i}, rest + deps) && Frontier(mods, cls, held + {i}, rest + deps)
  {
    FrontierNext(mods, cls, held, rest, i, deps);
    CandidatesNext(mods, cls, held, rest, i, deps);
  }

  lemma FrontierNext(mods: seq<ModEntry>, cls: Classes, held: set<nat>, rest: seq<nat>, i: nat, deps: seq<nat>)
    requires Frontier(mods, cls, held, rest + [i])
    requires i < |mods| && forall j: nat :: j in deps <==> Edge(mods, cls, i, j)
    ensures Frontier(mods, cls, held + {i}, rest + deps)
  {
    hide Edge;
    forall a: nat, j: nat | a < |mods| && (a in held + {i} || mods[a].defaultEnabled) && Edge(mods, cls, a, j)
      ensures j in held + {i} || j in rest + deps
    {
      if a == i {
        assert j in deps;
      } else {
        assert a in held || mods[a].defaultEnabled;
        assert j in held || j in rest + [i];
        assert j in rest + [i] ==> j in rest || j == i;
      }
    }
  }

  lemma CandidatesNext(mods: seq<ModEntry>, cls: Classes, held: set<nat>, rest: seq<nat>, i: nat, deps: seq<nat>)
    requires AllCandidates(mods, cls, held, rest + [i])
    requires i < |mods| && forall j: nat :: j in deps <==> Edge(mods, cls, i, j)
    ensures AllCandidates(mods, cls, held + {i}, rest + deps)
  {
    hide Edge, Seed, Reached;
    assert i in rest + [i];
    FollowEdges(mods, cls, i, deps);
    forall q | q in rest + deps ensures q < |mods| && Reached(mods, cls, q) {
      assert q in rest ==> q in rest + [i];
    }
  }

  method WalkRequired(mods: array<ModEntry>, cls: Classes, idx: map<string, nat>) returns (required: set<nat>)
    requires Indexes(idx, mods[..])
    ensures forall i: nat :: i in required <==> Candidate(mods[..], cls, i)
  {
    ghost var rows := mods[..];
    required := SeedRequired(mods, cls);
    var queue: seq<nat> := QueueDefaults(mods, cls, idx, required);
    NothingMissing(rows, cls, required, queue);
    ghost var seeds := required;
    while queue != []
      invariant seeds <= required
      invariant AllCandidates(rows, cls, required, queue)
      invariant Frontier(rows, cls, required, queue)
      decreases |set i: nat | i < mods.Length && i !in required|, |queue|
    {
      hide Edge, Seed, Reached, Lockable, Indexes, Frontier, AllCandidates;
      var i: nat := queue[|queue| - 1];
      var rest: seq<nat> := queue[..|queue| - 1];
      assert queue == rest + [i];
      QueuedExists(rows, cls, required, queue, i);
      if i !in required {
        DepsAreEdges(rows, cls, idx, i);
        var deps := HardDeps(mods[..], cls, idx, Requirements(mods[i]));
        TakeUp(rows, cls, required, rest, i, deps);
        Fewer(mods.Length, required, i);
        rest, required := rest + deps, required + {i};
      } else {
        Skip(rows, cls, required, rest, i);
      }
      queue := rest;
    }
    ClosedHoldsAll(rows, cls, required);
  }

  lemma QueuedExists(mods: seq<ModEntry>, cls: Classes, held: set<nat>, queue: seq<nat>, i: nat)
    requires AllCandidates(mods, cls, held, queue) && i in queue
    ensures i < |mods|
  {
  }

  lemma Skip(mods: seq<ModEntry>, cls: Classes, held: set<nat>, rest: seq<nat>, i: nat)
    requires AllCandidates(mods, cls, held, rest + [i]) && Frontier(mods, cls, held, rest + [i]) && i in held
    ensures AllCandidates(mods, cls, held, rest) && Frontier(mods, cls, held, rest)
  {
    hide Edge, Seed, Reached;
  }

  lemma ClosedHoldsAll(mods: seq<ModEntry>, cls: Classes, held: set<nat>)
    requires Frontier(mods, cls, held, [])
    requires forall i: nat :: i < |mods| && Seed(mods, cls, i) ==> i in held
    ensures forall i: nat :: Candidate(mods, cls, i) ==> i in held
  {
    forall i: nat | Candidate(mods, cls, i) ensures i in held {
      if !Seed(mods, cls, i) {
        var p :| Way(mods, cls, p) && p[|p| - 1] == i;
        ClosedHoldsReached(mods, cls, held, p);
      }
    }
  }

  lemma Fewer(n: nat, held: set<nat>, i: nat)
    requires i < n && i !in held
    ensures |set k: nat | k < n && k !in held + {i}| < |set k: nat | k < n && k !in held|
  {
    var before := set k: nat | k < n && k !in held;
    assert (set k: nat | k < n && k !in held + {i}) == before - {i};
  }

  method BuildIndex(mods: array<ModEntry>) returns (idx: map<string, nat>)
    ensures Indexes(idx, mods[..])
  {
    idx := map[];
    for k := 0 to mods.Length
      invariant Indexes(idx, mods[..k])
    {
      idx := idx[mods[k].filename := k];
      assert mods[..k + 1][..k] == mods[..k];
    }
    assert mods[..mods.Length] == mods[..];
  }

  method OptOutServers(mods: array<ModEntry>, cls: Classes)
    modifies mods
    ensures mods[..] == OptedOut(old(mods[..]), cls)
  {
    for k := 0 to mods.Length
      invariant forall i :: 0 <= i < k ==> mods[i] == OptOut(old(mods[i]), cls)
      invariant forall i :: k <= i < mods.Length ==> mods[i] == old(mods[i])
    {
      if SideOf(mods[k], cls) == Some(Server) {
        mods[k] := mods[k].(defaultEnabled := false);
      }
    }
  }

  /** Drop what is never locked; stop at a client mod nothing excuses. */
  method DropUnlockable(mods: array<ModEntry>, cls: Classes, candidates: set<nat>)
    returns (required: set<nat>, r: Derivation)
    requires forall i: nat :: i in candidates <==> Candidate(mods[..], cls, i)
    ensures r == Derived ==> forall i: nat :: !Blocks(mods[..], cls, i) && (i in required <==> Locked(mods[..], cls, i))
    ensures r.Refused? ==> FirstBlocker(mods[..], cls, r.filename)
  {
    required := candidates;
    for k := 0 to mods.Length
      invariant forall i: nat :: i < k ==> (i in required <==> Locked(mods[..], cls, i)) && !Blocks(mods[..], cls, i)
      invariant forall i: nat :: i >= k ==> (i in required <==> Candidate(mods[..], cls, i))
    {
      var m := mods[k];
      if k in required {
        if SideOf(m, cls) == Some(Server) || NonMod(m, cls) {
          required := required - {k};
        } else if SideOf(m, cls) == Some(Client) && !Soft(m, cls) {
          assert Blocks(mods[..], cls, k);
          return required, Refused(m.filename);
        }
      }
    }
    r := Derived;
  }

  ghost predicate FirstBlocker(mods: seq<ModEntry>, cls: Classes, filename: string)
  {
    exists i: nat :: Blocks(mods, cls, i) && mods[i].filename == filename
                     && forall k: nat :: k < i ==> !Blocks(mods, cls, k)
  }

  /** `derive_required`: opt server-side mods out, walk, drop what may not be
      locked, refuse an inconsistent client mod, and mark every entry. */
  method DeriveRequired(mods: array<ModEntry>, cls: Classes) returns (r: Derivation)
    modifies mods
    ensures r == Derived ==> mods[..] == Derive(old(mods[..]), cls)
    ensures r == Derived ==> forall i: nat :: !Blocks(OptedOut(old(mods[..]), cls), cls, i)
    ensures r.Refused? ==> mods[..] == OptedOut(old(mods[..]), cls)
    ensures r.Refused? ==> FirstBlocker(OptedOut(old(mods[..]), cls), cls, r.filename)
  {
    var idx := BuildIndex(mods);
    ghost var given := mods[..];
    OptOutServers(mods, cls);
    ghost var rows := mods[..];
    SameIndex(given, rows, idx);
    var required := WalkRequired(mods, cls, idx);
    required, r := DropUnlockable(mods, cls, required);
    if r.Refused? {
      return;
    }
    MarkEntries(mods, cls, required);
    hide Locked, Blocks, Marked, FirstBlocker;
    assert mods[..] == Derive(given, cls);
  }

  method MarkEntries(mods: array<ModEntry>, cls: Classes, required: set<nat>)
    modifies mods
    ensures forall i :: 0 <= i < mods.Length ==> mods[i] == Marked(old(mods[i]), cls, i in required)
  {
    for k := 0 to mods.Length
      invariant forall i :: 0 <= i < k ==> mods[i] == Marked(old(mods[i]), cls, i in required)
      invariant forall i :: k <= i < mods.Length ==> mods[i] == old(mods[i])
    {
      mods[k] := Marked(mods[k], cls, k in required);
    }
  }

  lemma {:induction false} SameNames(a: seq<ModEntry>, b: seq<ModEntry>, f: string)
    requires |a| == |b| && forall i :: 0 <= i < |a| ==> a[i].filename == b[i].filename
    ensures LastNamed(a, f) == LastNamed(b, f)
  {
  }

  lemma SameIndex(a: seq<ModEntry>, b: seq<ModEntry>, idx: map<string, nat>)
    requires |a| == |b| && forall i :: 0 <= i < |a| ==> a[i].filename == b[i].filename
    requires Indexes(idx, a)
    ensures Indexes(idx, b)
  {
    forall f ensures LastNamed(a, f) == LastNamed(b, f) {
      SameNames(a, b, f);
    }
  }

  // ----- What a derived pack looks like ----------------------------------------------------

  /** Same names, same defaults, same edges: nothing the walk reads differs. */
  predicate SameGraph(a: seq<ModEntry>, b: seq<ModEntry>)
  {
    && |a| == |b|
    && forall i :: 0 <= i < |a| ==>
         a[i].filename == b[i].filename && a[i].defaultEnabled == b[i].defaultEnabled
           && Requirements(a[i]) == Requirements(b[i])
  }

  lemma SameGraphSameLocks(a: seq<ModEntry>, b: seq<ModEntry>, cls: Classes, i: nat)
    requires SameGraph(a, b)
    ensures Locked(a, cls, i) ==> Locked(b, cls, i)
  {
    forall f ensures LastNamed(a, f) == LastNamed(b, f) {
      SameNames(a, b, f);
    }
    if Locked(a, cls, i) && !Seed(a, cls, i) {
      var p :| Way(a, cls, p) && p[|p| - 1] == i;
      forall k | 0 <= k < |p| - 1 ensures Edge(b, cls, p[k], p[k + 1]) {
        assert Edge(a, cls, p[k], p[k + 1]);
      }
      assert Way(b, cls, p);
    }
  }

  lemma DerivedKeepsGraph(mods: seq<ModEntry>, cls: Classes)
    ensures SameGraph(OptedOut(mods, cls), OptedOut(Derive(mods, cls), cls))
    ensures SameGraph(OptedOut(Derive(mods, cls), cls), OptedOut(mods, cls))
  {
    hide Locked;
  }

  /** Deriving again changes nothing. */
  lemma DeriveIdempotent(mods: seq<ModEntry>, cls: Classes)
    ensures Derive(Derive(mods, cls), cls) == Derive(mods, cls)
  {
    var once := Derive(mods, cls);
    DerivedKeepsGraph(mods, cls);
    hide Locked, SameGraph;
    var rows, again := OptedOut(mods, cls), OptedOut(once, cls);
    forall i: nat | i < |mods| ensures Derive(once, cls)[i] == once[i] {
      SameGraphSameLocks(rows, again, cls, i);
      SameGraphSameLocks(again, rows, cls, i);
    }
  }

  /** What a launcher reads off a derived entry. */
  lemma DerivedEntriesAgree(mods: seq<ModEntry>, cls: Classes, i: nat)
    requires i < |mods|
    ensures var m := Derive(mods, cls)[i];
            && (m.required <==> m.display.Some? && m.display.value.presence == Some(Required))
            && (SideOf(m, cls) == Some(Server) ==> !m.required && !m.defaultEnabled)
            && (NonMod(m, cls) ==> !m.required && m.display.value.presence == Some(Coremod))
            && Requirements(m) == Requirements(mods[i])
            && (m.defaultEnabled ==> mods[i].defaultEnabled)
  {
  }

  /** A required mod, or one of the default install, never lacks a hard dependency
      that may be locked. */
  lemma RequiredBringsItsDependencies(mods: seq<ModEntry>, cls: Classes, i: nat, j: nat)
    requires i < |mods| && Edge(OptedOut(mods, cls), cls, i, j)
    requires Derive(mods, cls)[i].required || Derive(mods, cls)[i].defaultEnabled
    requires SideOf(mods[j], cls) != Some(Server) && !NonMod(mods[j], cls)
    ensures j < |mods| && Derive(mods, cls)[j].required
  {
    var rows := OptedOut(mods, cls);
    ReachedFrom(rows, cls, i, j);
  }

  // ----- Why the build is never refused -------------------------------------------------------

  /** Classifications that pair no client side with a policy that must match never
      refuse a build, and lock no client mod but a soft one. */
  lemma ConsistentClassesNeverRefuse(mods: seq<ModEntry>, cls: Classes)
    requires forall f :: f in cls ==> Consistent(cls[f])
    ensures forall i: nat :: !Blocks(OptedOut(mods, cls), cls, i)
    ensures forall i: nat :: i < |mods| && Derive(mods, cls)[i].required && SideOf(mods[i], cls) == Some(Client)
              ==> Soft(mods[i], cls)
  {
    var rows := OptedOut(mods, cls);
    forall i: nat | Locked(rows, cls, i) && SideOf(rows[i], cls) == Some(Client) ensures Soft(rows[i], cls) {
      if !Seed(rows, cls, i) {
        var p :| Way(rows, cls, p) && p[|p| - 1] == i;
        assert Edge(rows, cls, p[|p| - 2], p[|p| - 1]);
      }
    }
  }

  /** The refusal needs the pairing: a default-enabled client mod that must match
      is refused, alone in its pack, exactly when its verdict is not a soft one. */
  lemma InconsistentClassRefuses(m: ModEntry, cls: Classes)
    requires m.defaultEnabled && !NonMod(m, cls) && m.filename in cls && !Consistent(cls[m.filename])
    ensures Blocks(OptedOut([m], cls), cls, 0) <==> !Soft(m, cls)
  {
    assert Seed(OptedOut([m], cls), cls, 0);
  }
}
