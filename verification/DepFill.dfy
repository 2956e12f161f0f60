/** Dependency auto-fill (src/authoring/depfill.rs): the sticky merge before a save,
    the bounded fill passes, the requires edges written back, and the pruning of
    pulled rows nothing declared still reaches. */
module DepFill {
  import opened Base
  import opened Texts
  import opened Sorting
  import opened Manifest
  import opened PackConfigs

  // ----- The sticky merge -----------------------------------------------------------

  function SourceIdentity(s: SourceDecl): string
  {
    match s
    case ModrinthPin(p, _) => "m:" + p
    case CacheJar(x) => "c:" + x
    case StaticFile(x) => "s:" + x
  }

  lemma SourceIdentitySays(a: SourceDecl, b: SourceDecl)
    ensures SourceIdentity(a) == SourceIdentity(b) <==> SameArtifact(a, b)
  {
    assert SourceIdentity(a)[0] == if a.ModrinthPin? then 'm' else if a.CacheJar? then 'c' else 's';
    assert SourceIdentity(b)[0] == if b.ModrinthPin? then 'm' else if b.CacheJar? then 'c' else 's';
    match (a, b)
    case (ModrinthPin(p, _), ModrinthPin(q, _)) => AfterPrefix("m:", p, q);
    case (CacheJar(x), CacheJar(y)) => AfterPrefix("c:", x, y);
    case (StaticFile(x), StaticFile(y)) => AfterPrefix("s:", x, y);
    case _ =>
  }

  /** These rows already carry the mod, in some version or under its filename. */
  predicate Carries(mods: seq<DeclaredMod>, m: DeclaredMod)
  {
    exists n :: n in mods && (SameArtifact(n.source, m.source) || n.filename == m.filename)
  }

  /** The pulled rows of the saved config that the incoming one lacks, in order. */
  function Missed(saved: seq<DeclaredMod>, incoming: seq<DeclaredMod>): seq<DeclaredMod>
  {
    if saved == [] then []
    else
      var m := saved[|saved| - 1];
      Missed(saved[..|saved| - 1], incoming) + if m.pulled && !Carries(incoming, m) then [m] else []
  }

  lemma {:induction false} MissedMembers(saved: seq<DeclaredMod>, incoming: seq<DeclaredMod>, m: DeclaredMod)
    ensures m in Missed(saved, incoming) <==> m in saved && m.pulled && !Carries(incoming, m)
  {
    if saved != [] {
      MissedMembers(saved[..|saved| - 1], incoming, m);
      assert saved == saved[..|saved| - 1] + [saved[|saved| - 1]];
    }
  }

  function Names(m: DeclaredMod): set<string>
  {
    {SourceIdentity(m.source), "f:" + m.filename}
  }

  /** Looking both names up in one set of strings never confuses the two. */
  lemma NamesSay(m: DeclaredMod, n: DeclaredMod)
    ensures SourceIdentity(m.source) in Names(n) <==> SameArtifact(n.source, m.source)
    ensures "f:" + m.filename in Names(n) <==> n.filename == m.filename
  {
    SourceIdentitySays(n.source, m.source);
    AfterPrefix("f:", m.filename, n.filename);
    assert SourceIdentity(m.source)[0] != 'f' && SourceIdentity(n.source)[0] != 'f';
    assert ("f:" + m.filename)[0] == 'f' && ("f:" + n.filename)[0] == 'f';
  }

  function AllNames(mods: seq<DeclaredMod>): set<string>
  {
    if mods == [] then {} else AllNames(mods[..|mods| - 1]) + Names(mods[|mods| - 1])
  }

  lemma {:induction false} AllNamesMembers(mods: seq<DeclaredMod>, x: string)
    ensures x in AllNames(mods) <==> exists n :: n in mods && x in Names(n)
  {
    if mods != [] {
      AllNamesMembers(mods[..|mods| - 1], x);
      assert forall n :: n in mods <==> n in mods[..|mods| - 1] || n == mods[|mods| - 1];
      hide Names;
    }
  }

  lemma PresentSays(mods: seq<DeclaredMod>, m: DeclaredMod)
    ensures SourceIdentity(m.source) in AllNames(mods) || "f:" + m.filename in AllNames(mods) <==> Carries(mods, m)
  {
    AllNamesMembers(mods, SourceIdentity(m.source));
    AllNamesMembers(mods, "f:" + m.filename);
    forall n ensures SourceIdentity(m.source) in Names(n) <==> SameArtifact(n.source, m.source)
             ensures "f:" + m.filename in Names(n) <==> n.filename == m.filename {
      NamesSay(m, n);
    }
    hide Names, SourceIdentity, SameArtifact;
  }

  /** Some row has the filename or the artifact of this one. */
  predicate AlreadyPresent(mods: seq<DeclaredMod>, decl: DeclaredMod)
  {
    || (exists m :: m in mods && m.filename == decl.filename)
    || (!decl.source.StaticFile? && exists m :: m in mods && SameArtifact(m.source, decl.source))
  }

  // ----- The requires edges ------------------------------------------------------------

  function DepsOf(edges: seq<(string, string)>, from: string): seq<string>
  {
    if edges == [] then []
    else
      var e := edges[|edges| - 1];
      DepsOf(edges[..|edges| - 1], from) + if e.0 == from then [e.1] else []
  }

  lemma {:induction false} DepsOfMembers(edges: seq<(string, string)>, from: string, dep: string)
    ensures dep in DepsOf(edges, from) <==> (from, dep) in edges
  {
    if edges != [] {
      DepsOfMembers(edges[..|edges| - 1], from, dep);
      assert edges == edges[..|edges| - 1] + [edges[|edges| - 1]];
    }
  }

  /** `Vec::dedup`: runs of one value become one. */
  function Dedup(s: seq<string>): seq<string>
  {
    if |s| < 2 then s
    else if s[|s| - 2] == s[|s| - 1] then Dedup(s[..|s| - 1])
    else Dedup(s[..|s| - 1]) + [s[|s| - 1]]
  }

  lemma {:induction false} DedupIncreasing(s: seq<string>)
    requires Ordered(s)
    ensures Increasing(Dedup(s)) && forall x :: x in Dedup(s) <==> x in s
    ensures s != [] ==> Dedup(s) != [] && Dedup(s)[|Dedup(s)| - 1] == s[|s| - 1]
  {
    if |s| >= 2 {
      var n := |s| - 1;
      DedupIncreasing(s[..n]);
      assert s == s[..n] + [s[n]];
      var d := Dedup(s[..n]);
      if s[n - 1] != s[n] {
        forall i | 0 <= i < |d| ensures Less(d[i], s[n]) {
          if i < |d| - 1 {
            Transitive(d[i], s[n - 1], s[n]);
          }
        }
      }
    }
  }

  function Hard(filename: string): Requirement
  {
    Requirement(filename, None, false)
  }

  function HardAll(deps: seq<string>): (r: seq<Requirement>)
    ensures |r| == |deps| && forall i :: 0 <= i < |r| ==> r[i] == Hard(deps[i])
  {
    seq(|deps|, i requires 0 <= i < |deps| => Hard(deps[i]))
  }

  /** A row carrying exactly its edges of the plan. */
  function Linked(m: DeclaredMod, edges: seq<(string, string)>): DeclaredMod
  {
    var deps := Dedup(Sort(DepsOf(edges, m.filename)));
    if deps == [] then
      if m.display.Some? then m.(display := Some(m.display.value.(requirements := []))) else m
    else
      var display := if m.display.Some? then m.display.value else DEFAULT_DISPLAY;
      m.(display := Some(display.(requirements := HardAll(deps))))
  }

  function LinkedAll(mods: seq<DeclaredMod>, edges: seq<(string, string)>): (r: seq<DeclaredMod>)
    ensures |r| == |mods| && forall i :: 0 <= i < |r| ==> r[i] == Linked(mods[i], edges)
  {
    seq(|mods|, i requires 0 <= i < |mods| => Linked(mods[i], edges))
  }

  /** The hard targets of a row (`filter(|r| !r.optional)`). */
  function HardTargets(requirements: seq<Requirement>): (r: seq<string>)
    ensures forall f :: f in r <==> exists q :: q in requirements && !q.optional && q.filename == f
  {
    if requirements == [] then []
    else
      var q := requirements[0];
      assert forall x :: x in requirements <==> x == q || x in requirements[1..];
      (if q.optional then [] else [q.filename]) + HardTargets(requirements[1..])
  }

  /** The field mirrors the plan exactly, each target once and in order, and nothing
      a person wrote on the row moves. */
  lemma LinkedMirrorsThePlan(m: DeclaredMod, edges: seq<(string, string)>)
    ensures var r := Linked(m, edges);
            && (forall dep :: dep in HardTargets(RequirementsOf(r.display)) <==> (m.filename, dep) in edges)
            && Increasing(FilenamesOf(RequirementsOf(r.display)))
            && r.(display := m.display) == m
            && (m.display.Some? ==> r.display == Some(m.display.value.(requirements := RequirementsOf(r.display))))
            && (m.display.None? && r.display.Some? ==>
                  RequirementsOf(r.display) != []
                    && r.display.value == DEFAULT_DISPLAY.(requirements := RequirementsOf(r.display)))
  {
    var reqs := RequirementsOf(Linked(m, edges).display);
    var deps := Dedup(Sort(DepsOf(edges, m.filename)));
    assert reqs == HardAll(deps);
    assert FilenamesOf(reqs) == deps;
    forall dep ensures dep in HardTargets(reqs) <==> (m.filename, dep) in edges {
      DepsAsMembers(edges, m.filename, dep);
      HardTargetsOfAll(deps, dep);
    }
    DedupIncreasing(Sort(DepsOf(edges, m.filename)));
    hide HardTargets, DepsOf, Dedup, Sort, Increasing, FilenamesOf;
  }

  lemma DepsAsMembers(edges: seq<(string, string)>, from: string, dep: string)
    ensures dep in Dedup(Sort(DepsOf(edges, from))) <==> (from, dep) in edges
  {
    var sorted := Sort(DepsOf(edges, from));
    DedupIncreasing(sorted);
    SameCount(sorted, DepsOf(edges, from));
    DepsOfMembers(edges, from, dep);
  }

  lemma HardTargetsOfAll(deps: seq<string>, dep: string)
    ensures dep in HardTargets(HardAll(deps)) <==> dep in deps
  {
    var reqs := HardAll(deps);
    if dep in deps {
      var i :| 0 <= i < |deps| && deps[i] == dep;
      assert reqs[i] in reqs;
    }
  }

  function FilenamesOf(requirements: seq<Requirement>): seq<string>
  {
    seq(|requirements|, i requires 0 <= i < |requirements| => requirements[i].filename)
  }

  // ----- What a curator's rows reach ---------------------------------------------------------

  /** The last row of a filename, which is the one its edges are read from. */
  function LastRow(mods: seq<DeclaredMod>, f: string): (r: Option<DeclaredMod>)
    ensures r.Some? ==> r.value in mods && r.value.filename == f
    ensures r.None? ==> forall m :: m in mods ==> m.filename != f
  {
    if mods == [] then None
    else
      var m := mods[|mods| - 1];
      assert mods == mods[..|mods| - 1] + [m];
      if m.filename == f then Some(m) else LastRow(mods[..|mods| - 1], f)
  }

  function Targets(mods: seq<DeclaredMod>, f: string): seq<string>
  {
    var row := LastRow(mods, f);
    if row.Some? then HardTargets(RequirementsOf(row.value.display)) else []
  }

  predicate Curated(mods: seq<DeclaredMod>, f: string)
  {
    exists m :: m in mods && !m.pulled && m.filename == f
  }

  /** A way along hard edges from a filename a curator declared. */
  predicate Way(mods: seq<DeclaredMod>, p: seq<string>)
  {
    && p != []
    && Curated(mods, p[0])
    && forall k :: 0 <= k < |p| - 1 ==> p[k + 1] in Targets(mods, p[k])
  }

  ghost predicate Reachable(mods: seq<DeclaredMod>, f: string)
  {
    exists p :: Way(mods, p) && p[|p| - 1] == f
  }

  ghost predicate Survives(mods: seq<DeclaredMod>, m: DeclaredMod)
  {
    !m.pulled || Reachable(mods, m.filename)
  }

  /** The rows of `part` that survive in the pack `mods`, in order. */
  ghost function Survivors(mods: seq<DeclaredMod>, part: seq<DeclaredMod>): seq<DeclaredMod>
  {
    if part == [] then []
    else
      var m := part[|part| - 1];
      Survivors(mods, part[..|part| - 1]) + if Survives(mods, m) then [m] else []
  }

  ghost function Pruned(mods: seq<DeclaredMod>): seq<DeclaredMod>
  {
    Survivors(mods, mods)
  }

  lemma {:induction false} SurvivorsMembers(mods: seq<DeclaredMod>, part: seq<DeclaredMod>, m: DeclaredMod)
    ensures m in Survivors(mods, part) <==> m in part && Survives(mods, m)
  {
    if part != [] {
      SurvivorsMembers(mods, part[..|part| - 1], m);
      assert part == part[..|part| - 1] + [part[|part| - 1]];
    }
  }

  lemma {:induction false} ClosedHoldsReachable(mods: seq<DeclaredMod>, held: set<string>, p: seq<string>)
    requires Way(mods, p)
    requires forall f :: Curated(mods, f) ==> f in held
    requires forall f, g :: f in held && g in Targets(mods, f) ==> g in held
    ensures p[|p| - 1] in held
  {
    if |p| > 1 {
      var q := p[..|p| - 1];
      assert p[|p| - 1] in Targets(mods, q[|q| - 1]);
      ClosedHoldsReachable(mods, held, q);
    }
  }

  lemma ReachableFrom(mods: seq<DeclaredMod>, f: string, g: string)
    requires Reachable(mods, f) && g in Targets(mods, f)
    ensures Reachable(mods, g)
  {
    hide Targets, Curated;
    var p :| Way(mods, p) && p[|p| - 1] == f;
    assert Way(mods, p + [g]);
  }

  lemma CuratedReachable(mods: seq<DeclaredMod>, f: string)
    requires Curated(mods, f)
    ensures Reachable(mods, f)
  {
    assert Way(mods, [f]);
  }

  // ----- The walk ---------------------------------------------------------------------------------

  /** Every filename the rows name, themselves or as a hard target. */
  function Named(mods: seq<DeclaredMod>): set<string>
  {
    (set m | m in mods :: m.filename) + set m, f | m in mods && f in HardTargets(RequirementsOf(m.display)) :: f
  }

  /** The walk has followed every edge out of what it holds, except those queued. */
  ghost predicate Frontier(mods: seq<DeclaredMod>, held: set<string>, queue: seq<string>)
  {
    && (forall f :: Curated(mods, f) ==> f in held || f in queue)
    && forall f, g :: f in held && g in Targets(mods, f) ==> g in held || g in queue
  }

  ghost predicate AllReachable(mods: seq<DeclaredMod>, held: set<string>, queue: seq<string>)
  {
    && (forall f :: f in held || f in queue ==> Reachable(mods, f))
    && forall f :: f in queue ==> f in Named(mods)
  }

  lemma TargetsReachable(mods: seq<DeclaredMod>, f: string)
    requires Reachable(mods, f)
    ensures forall g :: g in Targets(mods, f) ==> Reachable(mods, g) && g in Named(mods)
  {
    forall g | g in Targets(mods, f) ensures Reachable(mods, g) && g in Named(mods) {
      ReachableFrom(mods, f, g);
      hide HardTargets, Reachable;
    }
  }

  lemma TakeUp(mods: seq<DeclaredMod>, held: set<string>, rest: seq<string>, f: string)
    requires Frontier(mods, held, rest + [f]) && AllReachable(mods, held, rest + [f])
    ensures f in Named(mods)
    ensures Frontier(mods, held + {f}, rest + Targets(mods, f))
    ensures AllReachable(mods, held + {f}, rest + Targets(mods, f))
  {
    assert f in rest + [f];
    TargetsReachable(mods, f);
    hide Targets, Reachable, Curated, Named;
    var next := rest + Targets(mods, f);
    forall a, g | a in held + {f} && g in Targets(mods, a) ensures g in held + {f} || g in next {
      if a != f {
        assert g in held || g in rest + [f];
      }
    }
    forall a | a in next ensures Reachable(mods, a) && a in Named(mods) {
      assert a in rest ==> a in rest + [f];
    }
  }

  lemma Skip(mods: seq<DeclaredMod>, held: set<string>, rest: seq<string>, f: string)
    requires Frontier(mods, held, rest + [f]) && AllReachable(mods, held, rest + [f]) && f in held
    ensures Frontier(mods, held, rest) && AllReachable(mods, held, rest)
  {
    hide Targets, Reachable, Curated, Named;
  }

  lemma Fewer(all: set<string>, held: set<string>, f: string)
    requires f in all && f !in held
    ensures |all - (held + {f})| < |all - held|
  {
    assert all - (held + {f}) == (all - held) - {f};
  }

  method CuratedNames(mods: seq<DeclaredMod>) returns (queue: seq<string>)
    ensures Frontier(mods, {}, queue) && AllReachable(mods, {}, queue)
  {
    queue := [];
    for k := 0 to |mods|
      invariant forall f :: f in queue <==> Curated(mods[..k], f)
    {
      assert forall m :: m in mods[..k + 1] <==> m in mods[..k] || m == mods[k];
      if !mods[k].pulled {
        queue := queue + [mods[k].filename];
      }
    }
    assert mods[..|mods|] == mods;
    WalkStarts(mods, queue);
  }

  function Found(edges: map<string, seq<string>>, f: string): seq<string>
  {
    if f in edges then edges[f] else []
  }

  ghost predicate Holds(edges: map<string, seq<string>>, mods: seq<DeclaredMod>)
  {
    forall f :: Found(edges, f) == Targets(mods, f)
  }

  /** A later row of a filename replaces an earlier one. */
  method HardEdges(mods: seq<DeclaredMod>) returns (edges: map<string, seq<string>>)
    ensures Holds(edges, mods)
  {
    edges := map[];
    for k := 0 to |mods|
      invariant Holds(edges, mods[..k])
    {
      hide HardTargets;
      var m := mods[k];
      var next := edges[m.filename := HardTargets(RequirementsOf(m.display))];
      assert mods[..k + 1][..k] == mods[..k];
      forall f ensures Found(next, f) == Targets(mods[..k + 1], f) {
        assert Found(edges, f) == Targets(mods[..k], f);
      }
      edges := next;
    }
    assert mods[..|mods|] == mods;
  }

  method WalkEdges(mods: seq<DeclaredMod>) returns (reachable: set<string>)
    ensures forall f :: f in reachable <==> Reachable(mods, f)
  {
    var hardEdges := HardEdges(mods);
    var queue := CuratedNames(mods);
    reachable := {};
    ghost var all := Named(mods);
    hide *;
    while queue != []
      invariant Frontier(mods, reachable, queue) && AllReachable(mods, reachable, queue)
      decreases |all - reachable|, |queue|
    {
      var f := queue[|queue| - 1];
      var rest := queue[..|queue| - 1];
      assert queue == rest + [f];
      if f !in reachable {
        TakeUp(mods, reachable, rest, f);
        Fewer(all, reachable, f);
        Lookup(hardEdges, mods, f);
        reachable, queue := reachable + {f}, rest + Found(hardEdges, f);
      } else {
        Skip(mods, reachable, rest, f);
        queue := rest;
      }
    }
    WalkEnds(mods, reachable);
  }

  lemma Lookup(edges: map<string, seq<string>>, mods: seq<DeclaredMod>, f: string)
    requires Holds(edges, mods)
    ensures Found(edges, f) == Targets(mods, f)
  {
  }

  lemma WalkStarts(mods: seq<DeclaredMod>, queue: seq<string>)
    requires forall f :: f in queue <==> Curated(mods, f)
    ensures Frontier(mods, {}, queue) && AllReachable(mods, {}, queue)
  {
    forall f | f in queue ensures Reachable(mods, f) && f in Named(mods) {
      CuratedReachable(mods, f);
    }
    hide Targets, Reachable;
  }

  lemma WalkEnds(mods: seq<DeclaredMod>, held: set<string>)
    requires Frontier(mods, held, []) && AllReachable(mods, held, [])
    ensures forall f :: f in held <==> Reachable(mods, f)
  {
    ClosedHoldsAll(mods, held);
    hide Reachable, Frontier;
  }

  lemma ClosedHoldsAll(mods: seq<DeclaredMod>, held: set<string>)
    requires Frontier(mods, held, [])
    ensures forall f :: Reachable(mods, f) ==> f in held
  {
    hide Targets, Curated;
    forall f | Reachable(mods, f) ensures f in held {
      var p :| Way(mods, p) && p[|p| - 1] == f;
      ClosedHoldsReachable(mods, held, p);
    }
  }

  // ----- The operations on a config being saved ----------------------------------------------

  datatype Target = Target(selector: string, versionRange: Option<string>, pinnedVersion: Option<string>)

  datatype Plan = Plan(missing: seq<Target>, edges: seq<(string, string)>)

  datatype FillResult = Filled(added: nat) | RegistryFailed

  const MAX_PASSES := 8

  /** What the registry and its sources answer on the `n`-th question; a target no
      source can provide, or whose lookup fails, resolves to nothing. */
  datatype Sources = Sources(
    plan: (nat, PackConfig) -> Option<Plan>,
    resolve: (nat, Target, PackConfig) -> Option<DeclaredMod>)
  {
    /** Everything resolution declares is a pulled Modrinth pin or cache jar. */
    ghost predicate PullsOnly()
    {
      forall n: nat, t: Target, c: PackConfig ::
        resolve(n, t, c).Some? ==> resolve(n, t, c).value.pulled && !resolve(n, t, c).value.source.StaticFile?
    }
  }

  /** Rows the fill put after the ones a config had. */
  predicate Extends(before: seq<DeclaredMod>, after: seq<DeclaredMod>)
  {
    && |before| <= |after| && after[..|before|] == before
    && forall i :: |before| <= i < |after| ==>
         after[i].pulled && !after[i].source.StaticFile? && !Carries(after[..i], after[i])
  }

  function WithRows(cfg: PackConfig, rows: seq<DeclaredMod>): PackConfig
  {
    cfg.(mods := rows)
  }

  /** The row the `k`-th target of a pass stands for, asked when `rows` were declared. */
  function Asked(sources: Sources, pass: nat, cfg: PackConfig, t: Target, rows: seq<DeclaredMod>): Option<DeclaredMod>
  {
    sources.resolve(pass, t, WithRows(cfg, rows))
  }

  /** A pass met every target in turn: before the `k`-th the rows were the first `at[k]`
      of `after`, and what it stands for, if anything, was there already or is the next. */
  predicate Passed(
    sources: Sources, pass: nat, missing: seq<Target>, cfg: PackConfig,
    before: seq<DeclaredMod>, after: seq<DeclaredMod>, at: seq<nat>)
  {
    && |at| == |missing| + 1 && at[0] == |before| && at[|missing|] == |after| && before <= after
    && forall k :: 0 <= k < |missing| ==> MetAt(sources, pass, cfg, missing, after, at, k)
  }

  predicate MetAt(
    sources: Sources, pass: nat, cfg: PackConfig, missing: seq<Target>, after: seq<DeclaredMod>, at: seq<nat>, k: nat)
    requires |at| == |missing| + 1 && k < |missing|
  {
    at[k] <= at[k + 1] <= |after| && Met(sources, pass, cfg, missing[k], after, at[k], at[k + 1])
  }

  predicate Met(
    sources: Sources, pass: nat, cfg: PackConfig, t: Target, after: seq<DeclaredMod>, n: nat, next: nat)
    requires n <= next <= |after|
  {
    var decl := Asked(sources, pass, cfg, t, after[..n]);
    if decl.None? || Carries(after[..n], decl.value) then next == n
    else next == n + 1 && after[n] == decl.value
  }

  /** No target is skipped: what any of them stands for at its turn is declared in the end. */
  lemma NoTargetSkipped(
    sources: Sources, pass: nat, missing: seq<Target>, cfg: PackConfig,
    before: seq<DeclaredMod>, after: seq<DeclaredMod>, at: seq<nat>, k: nat)
    requires Passed(sources, pass, missing, cfg, before, after, at) && k < |missing|
    ensures |before| <= at[k] <= |after| && before <= after[..at[k]]
    ensures var decl := Asked(sources, pass, cfg, missing[k], after[..at[k]]);
            decl.Some? ==> Carries(after, decl.value)
  {
    AscendsFrom(sources, pass, missing, cfg, before, after, at, k);
    var decl := Asked(sources, pass, cfg, missing[k], after[..at[k]]);
    assert MetAt(sources, pass, cfg, missing, after, at, k);
    hide SameArtifact;
    if decl.Some? {
      if Carries(after[..at[k]], decl.value) {
        assert forall n :: n in after[..at[k]] ==> n in after;
      } else {
        assert after[at[k]] in after;
      }
    }
  }

  lemma {:induction false} AscendsFrom(
    sources: Sources, pass: nat, missing: seq<Target>, cfg: PackConfig,
    before: seq<DeclaredMod>, after: seq<DeclaredMod>, at: seq<nat>, k: nat)
    requires Passed(sources, pass, missing, cfg, before, after, at) && k <= |missing|
    ensures |before| <= at[k] <= |after|
  {
    hide Met;
    if k > 0 {
      AscendsFrom(sources, pass, missing, cfg, before, after, at, k - 1);
      assert MetAt(sources, pass, cfg, missing, after, at, k - 1);
    }
  }

  /** One more target met. */
  lemma PassedOn(
    sources: Sources, pass: nat, missing: seq<Target>, k: nat, cfg: PackConfig, before: seq<DeclaredMod>,
    rows: seq<DeclaredMod>, at: seq<nat>, more: seq<DeclaredMod>)
    requires k < |missing| && Passed(sources, pass, missing[..k], cfg, before, rows, at)
    requires var decl := Asked(sources, pass, cfg, missing[k], rows);
             more == if decl.None? || Carries(rows, decl.value) then rows else rows + [decl.value]
    ensures Passed(sources, pass, missing[..k + 1], cfg, before, more, at + [|more|])
  {
    var next, done := at + [|more|], missing[..k + 1];
    assert rows <= more;
    forall i | 0 <= i < |done| ensures MetAt(sources, pass, cfg, done, more, next, i) {
      if i < k {
        assert done[i] == missing[..k][i] && MetAt(sources, pass, cfg, missing[..k], rows, at, i);
        assert more[..at[i]] == rows[..at[i]];
      } else {
        assert more[..|rows|] == rows;
      }
    }
  }

  /** Whole passes, one after another: after the `n`-th the fill had added the first
      `sizes[n]` rows of `pulled`; each met its whole plan, and each before the last
      added something. */
  ghost predicate Passes(sources: Sources, cfg: PackConfig, pulled: seq<DeclaredMod>, sizes: seq<nat>)
  {
    && sizes != [] && sizes[0] == 0 && sizes[|sizes| - 1] == |pulled|
    && (forall n :: 0 <= n < |sizes| ==> sizes[n] <= |pulled|)
    && forall n :: 0 <= n < |sizes| - 1 ==>
         && sizes[n] <= sizes[n + 1] && (n < |sizes| - 2 ==> sizes[n] < sizes[n + 1])
         && OnePass(sources, n, cfg, cfg.mods + pulled[..sizes[n]], cfg.mods + pulled[..sizes[n + 1]])
  }

  /** The plan was made, and all it missed was met. */
  ghost predicate OnePass(sources: Sources, n: nat, cfg: PackConfig, before: seq<DeclaredMod>, after: seq<DeclaredMod>)
  {
    var plan := sources.plan(n, WithRows(cfg, before));
    plan.Some? && exists at :: Passed(sources, n, plan.value.missing, cfg, before, after, at)
  }

  lemma PassesOn(sources: Sources, cfg: PackConfig, pulled: seq<DeclaredMod>, sizes: seq<nat>, more: seq<DeclaredMod>)
    requires Passes(sources, cfg, pulled, sizes) && pulled <= more
    requires |sizes| >= 2 ==> sizes[|sizes| - 2] < sizes[|sizes| - 1]
    requires OnePass(sources, |sizes| - 1, cfg, cfg.mods + pulled, cfg.mods + more)
    ensures Passes(sources, cfg, more, sizes + [|more|])
  {
    var next := sizes + [|more|];
    hide OnePass;
    assert pulled[..|pulled|] == pulled && more[..|more|] == more;
    forall n | 0 <= n < |next| - 1
      ensures next[n] <= next[n + 1] && (n < |next| - 2 ==> next[n] < next[n + 1])
      ensures OnePass(sources, n, cfg, cfg.mods + more[..next[n]], cfg.mods + more[..next[n + 1]])
    {
      if n < |sizes| - 1 {
        assert more[..sizes[n]] == pulled[..sizes[n]] && more[..sizes[n + 1]] == pulled[..sizes[n + 1]];
      } else {
        assert more[..|pulled|] == pulled;
      }
    }
  }

  lemma {:induction false} AlreadyPresentSays(mods: seq<DeclaredMod>, decl: DeclaredMod)
    requires !decl.source.StaticFile?
    ensures AlreadyPresent(mods, decl) <==> Carries(mods, decl)
  {
    hide SameArtifact;
  }

  method PresentNames(mods: seq<DeclaredMod>) returns (present: set<string>)
    ensures present == AllNames(mods)
  {
    present := {};
    for k := 0 to |mods|
      invariant present == AllNames(mods[..k])
    {
      assert mods[..k + 1][..k] == mods[..k];
      present := present + {SourceIdentity(mods[k].source)};
      present := present + {"f:" + mods[k].filename};
    }
    assert mods[..|mods|] == mods;
  }

  method GroupByRequirer(edges: seq<(string, string)>) returns (byFrom: map<string, seq<string>>)
    ensures forall f :: (if f in byFrom then byFrom[f] else []) == DepsOf(edges, f)
  {
    byFrom := map[];
    for k := 0 to |edges|
      invariant forall f :: (if f in byFrom then byFrom[f] else []) == DepsOf(edges[..k], f)
    {
      var (from, dep) := edges[k];
      assert edges[..k + 1][..k] == edges[..k];
      byFrom := byFrom[from := (if from in byFrom then byFrom[from] else []) + [dep]];
    }
    assert edges[..|edges|] == edges;
  }

  /** A row without edges keeps its display, if it has one, with none in it. */
  method Relink(m: DeclaredMod, named: seq<string>, ghost edges: seq<(string, string)>) returns (row: DeclaredMod)
    requires named == DepsOf(edges, m.filename)
    ensures row == Linked(m, edges)
  {
    var deps := Dedup(Sort(named));
    hide Dedup, Sort, DepsOf;
    row := m;
    if deps == [] {
      if m.display.Some? {
        row := m.(display := Some(m.display.value.(requirements := [])));
      }
    } else {
      var display := if m.display.Some? then m.display.value else DEFAULT_DISPLAY;
      row := m.(display := Some(display.(requirements := HardAll(deps))));
    }
  }

  class LiveConfig {
    var cfg: PackConfig

    constructor (cfg: PackConfig)
      ensures this.cfg == cfg
    {
      this.cfg := cfg;
    }

    /** `merge_pulled`, on the incoming config. */
    method MergePulled(saved: PackConfig)
      modifies this
      ensures cfg == old(cfg).(mods := old(cfg).mods + Missed(saved.mods, old(cfg).mods))
    {
      var present := PresentNames(cfg.mods);
      ghost var incoming := cfg.mods;
      hide SourceIdentity, Carries, AllNames;
      for k := 0 to |saved.mods|
        invariant cfg == old(cfg).(mods := incoming + Missed(saved.mods[..k], incoming))
      {
        var m := saved.mods[k];
        assert saved.mods[..k + 1][..k] == saved.mods[..k];
        PresentSays(incoming, m);
        if m.pulled && SourceIdentity(m.source) !in present && "f:" + m.filename !in present {
          cfg := cfg.(mods := cfg.mods + [m]);
        }
      }
      assert saved.mods[..|saved.mods|] == saved.mods;
    }

    /** `apply_requires`: group the edges by requirer, then rewrite each row. */
    method ApplyRequires(edges: seq<(string, string)>)
      modifies this
      ensures cfg == old(cfg).(mods := LinkedAll(old(cfg).mods, edges))
    {
      var byFrom := GroupByRequirer(edges);
      ghost var rows := cfg.mods;
      for k := 0 to |cfg.mods|
        invariant |cfg.mods| == |rows| && cfg == old(cfg).(mods := cfg.mods)
        invariant forall i :: 0 <= i < k ==> cfg.mods[i] == Linked(rows[i], edges)
        invariant forall i :: k <= i < |rows| ==> cfg.mods[i] == rows[i]
      {
        hide DepsOf, Linked;
        var m := cfg.mods[k];
        var row := Relink(m, if m.filename in byFrom then byFrom[m.filename] else [], edges);
        cfg := cfg.(mods := cfg.mods[k := row]);
      }
      assert cfg.mods == LinkedAll(rows, edges);
    }

    /** `prune_orphaned_pulled`: walk the edges, then retain. */
    method PruneOrphanedPulled()
      modifies this
      ensures cfg == old(cfg).(mods := Pruned(old(cfg).mods))
    {
      var reachable := WalkEdges(cfg.mods);
      ghost var rows := cfg.mods;
      var kept: seq<DeclaredMod> := [];
      for k := 0 to |cfg.mods|
        invariant kept == Survivors(rows, rows[..k])
        invariant cfg == old(cfg)
      {
        assert rows[..k + 1][..k] == rows[..k];
        if !cfg.mods[k].pulled || cfg.mods[k].filename in reachable {
          kept := kept + [cfg.mods[k]];
        }
      }
      assert rows[..|rows|] == rows;
      cfg := cfg.(mods := kept);
    }

    /** One pass: every target of the plan in turn, its row appended unless present. */
    method FillPass(sources: Sources, pass: nat, missing: seq<Target>) returns (added: nat, ghost at: seq<nat>)
      requires sources.PullsOnly()
      modifies this
      ensures cfg == old(cfg).(mods := cfg.mods) && Extends(old(cfg).mods, cfg.mods)
      ensures added == |cfg.mods| - |old(cfg).mods|
      ensures Passed(sources, pass, missing, old(cfg), old(cfg).mods, cfg.mods, at)
    {
      added := 0;
      at := [|cfg.mods|];
      for k := 0 to |missing|
        invariant cfg == old(cfg).(mods := cfg.mods) && Extends(old(cfg).mods, cfg.mods)
        invariant added == |cfg.mods| - |old(cfg).mods|
        invariant Passed(sources, pass, missing[..k], old(cfg), old(cfg).mods, cfg.mods, at)
      {
        hide Passed, Carries, AlreadyPresent, Extends;
        ghost var rows := cfg.mods;
        assert cfg == WithRows(old(cfg), rows);
        var decl := sources.resolve(pass, missing[k], cfg);
        if decl.Some? {
          AlreadyPresentSays(cfg.mods, decl.value);
          if !AlreadyPresent(cfg.mods, decl.value) {
            ExtendsBy(old(cfg).mods, cfg.mods, decl.value);
            cfg := cfg.(mods := cfg.mods + [decl.value]);
            added := added + 1;
          }
        }
        PassedOn(sources, pass, missing, k, old(cfg), old(cfg).mods, rows, at, cfg.mods);
        at := at + [|cfg.mods|];
      }
      assert missing[..|missing|] == missing;
    }

    /** The passes: until one adds nothing, at most eight; a registry error stops them. */
    method FillPasses(sources: Sources)
      returns (ok: bool, total: nat, pass: nat, ghost pulled: seq<DeclaredMod>, ghost sizes: seq<nat>)
      requires sources.PullsOnly()
      modifies this
      ensures cfg == old(cfg).(mods := old(cfg).mods + pulled) && total == |pulled|
      ensures Extends(old(cfg).mods, old(cfg).mods + pulled)
      ensures Passes(sources, old(cfg), pulled, sizes) && |sizes| == pass + 1 <= MAX_PASSES + 1
      ensures ok ==> Ended(sizes)
    {
      total, pass, pulled, sizes := 0, 0, [], [0];
      ghost var start := cfg;
      NoPassYet(sources, start);
      WithRowsIs(start);
      assert MAX_PASSES == 8;
      hide *;
      while pass < MAX_PASSES
        invariant pass <= MAX_PASSES && total == |pulled|
        invariant cfg == WithRows(start, start.mods + pulled)
        invariant Filling(sources, start, pulled, sizes, pass) && Growing(sizes)
        decreases MAX_PASSES - pass
      {
        ghost var before := cfg.mods;
        var plan := sources.plan(pass, cfg);
        if plan.None? {
          FillingMeans(sources, start, pulled, sizes, pass);
          ok := false;
          return;
        }
        ghost var at;
        var added;
        added, at := FillPass(sources, pass, plan.value.missing);
        ghost var more := cfg.mods[|start.mods|..];
        OneMorePass(sources, start, pulled, more, sizes, pass, plan.value.missing, before, cfg.mods, at);
        total, pass, sizes, pulled := total + added, pass + 1, sizes + [|more|], more;
        if added == 0 {
          break;
        }
        StillGrowing(sizes);
      }
      FillingMeans(sources, start, pulled, sizes, pass);
      EndedWhen(sizes);
      ok := true;
    }

    /** `fill_dependencies`: the passes, then the edges of the final plan and the
        pruning. A registry error stops it where it stands. */
    method FillDependencies(sources: Sources)
      returns (r: FillResult, ghost pulled: seq<DeclaredMod>, ghost edges: seq<(string, string)>, ghost sizes: seq<nat>)
      requires sources.PullsOnly()
      modifies this
      ensures Extends(old(cfg).mods, old(cfg).mods + pulled)
      ensures Passes(sources, old(cfg), pulled, sizes) && |sizes| <= MAX_PASSES + 1
      ensures r.Filled? ==> cfg == old(cfg).(mods := Pruned(LinkedAll(old(cfg).mods + pulled, edges)))
      ensures r.Filled? ==> r.added == |pulled|
      ensures r.RegistryFailed? ==> cfg == old(cfg).(mods := old(cfg).mods + pulled)
      ensures r.Filled? ==>
        Ended(sizes) && PlanEdges(sources, old(cfg).(mods := old(cfg).mods + pulled), |sizes| - 1, edges)
    {
      var ok, total, pass;
      ok, total, pass, pulled, sizes := FillPasses(sources);
      edges := [];
      hide *;
      if !ok {
        return RegistryFailed, pulled, edges, sizes;
      }
      var last := sources.plan(pass, cfg);
      if last.None? {
        return RegistryFailed, pulled, edges, sizes;
      }
      edges := last.value.edges;
      EdgesOf(sources, cfg, pass);
      ApplyRequires(last.value.edges);
      PruneOrphanedPulled();
      r := Filled(total);
    }
  }

  lemma WithRowsIs(cfg: PackConfig)
    ensures forall rows :: WithRows(cfg, rows) == cfg.(mods := rows)
  {
  }

  /** So many passes are done. */
  ghost predicate Filling(sources: Sources, cfg: PackConfig, pulled: seq<DeclaredMod>, sizes: seq<nat>, pass: nat)
  {
    |sizes| == pass + 1 && Extends(cfg.mods, cfg.mods + pulled) && Passes(sources, cfg, pulled, sizes)
  }

  /** The last pass added something, if there was one. */
  predicate Growing(sizes: seq<nat>)
  {
    |sizes| >= 2 ==> sizes[|sizes| - 2] < sizes[|sizes| - 1]
  }

  lemma NoPassYet(sources: Sources, cfg: PackConfig)
    ensures Filling(sources, cfg, [], [0], 0) && Growing([0]) && cfg == WithRows(cfg, cfg.mods + [])
  {
    assert cfg.mods + [] == cfg.mods;
  }

  lemma FillingMeans(sources: Sources, cfg: PackConfig, pulled: seq<DeclaredMod>, sizes: seq<nat>, pass: nat)
    requires Filling(sources, cfg, pulled, sizes, pass)
    ensures |sizes| == pass + 1 && Extends(cfg.mods, cfg.mods + pulled) && Passes(sources, cfg, pulled, sizes)
    ensures WithRows(cfg, cfg.mods + pulled) == cfg.(mods := cfg.mods + pulled)
  {
    hide Extends, Passes;
  }

  lemma StillGrowing(sizes: seq<nat>)
    requires |sizes| >= 2 && sizes[|sizes| - 2] < sizes[|sizes| - 1]
    ensures Growing(sizes)
  {
  }

  lemma EndedWhen(sizes: seq<nat>)
    ensures Ended(sizes) <==> |sizes| == 9 || (|sizes| >= 2 && sizes[|sizes| - 2] == sizes[|sizes| - 1])
  {
  }

  lemma EdgesOf(sources: Sources, cfg: PackConfig, n: nat)
    requires sources.plan(n, cfg).Some?
    ensures PlanEdges(sources, cfg, n, sources.plan(n, cfg).value.edges)
  {
  }

  lemma OneMorePass(
    sources: Sources, cfg: PackConfig, pulled: seq<DeclaredMod>, more: seq<DeclaredMod>, sizes: seq<nat>, pass: nat,
    missing: seq<Target>, before: seq<DeclaredMod>, after: seq<DeclaredMod>, at: seq<nat>)
    requires Filling(sources, cfg, pulled, sizes, pass) && Growing(sizes)
    requires before == cfg.mods + pulled && Extends(before, after) && more == after[|cfg.mods|..]
    requires sources.plan(pass, WithRows(cfg, before)).Some?
    requires missing == sources.plan(pass, WithRows(cfg, before)).value.missing
    requires Passed(sources, pass, missing, WithRows(cfg, before), before, after, at)
    ensures Filling(sources, cfg, more, sizes + [|more|], pass + 1) && |sizes| == pass + 1
    ensures after == cfg.mods + more && |pulled| == sizes[pass] && |more| == |pulled| + |after| - |before|
  {
    ExtendsThrough(cfg.mods, before, after);
    assert |before| <= |after|;
    hide Extends, Passed, OnePass;
    PassSeen(sources, pass, cfg, pulled, more, missing, before, after, at);
    PassesOn(sources, cfg, pulled, sizes, more);
  }

  /** The passes ended on one that added nothing, or with the eighth. */
  predicate Ended(sizes: seq<nat>)
  {
    |sizes| == MAX_PASSES + 1 || (|sizes| >= 2 && sizes[|sizes| - 2] == sizes[|sizes| - 1])
  }

  ghost predicate PlanEdges(sources: Sources, cfg: PackConfig, n: nat, edges: seq<(string, string)>)
  {
    sources.plan(n, cfg).Some? && sources.plan(n, cfg).value.edges == edges
  }

  lemma PassSeen(
    sources: Sources, pass: nat, cfg: PackConfig, pulled: seq<DeclaredMod>, more: seq<DeclaredMod>,
    missing: seq<Target>, before: seq<DeclaredMod>, after: seq<DeclaredMod>, at: seq<nat>)
    requires before == cfg.mods + pulled && |cfg.mods| <= |after| && more == after[|cfg.mods|..]
    requires sources.plan(pass, WithRows(cfg, before)).Some?
    requires missing == sources.plan(pass, WithRows(cfg, before)).value.missing
    requires Passed(sources, pass, missing, WithRows(cfg, before), before, after, at)
    ensures after == cfg.mods + more && pulled <= more
    ensures OnePass(sources, pass, cfg, cfg.mods + pulled, cfg.mods + more)
  {
    assert before <= after;
    assert after == cfg.mods + more;
    assert Passed(sources, pass, missing, cfg, before, after, at)
      by { SameAsked(sources, pass, missing, cfg, before, after, at); }
  }

  /** Only the rows of a config are asked about anew. */
  lemma SameAsked(
    sources: Sources, pass: nat, missing: seq<Target>, cfg: PackConfig,
    before: seq<DeclaredMod>, after: seq<DeclaredMod>, at: seq<nat>)
    requires Passed(sources, pass, missing, WithRows(cfg, before), before, after, at)
    ensures Passed(sources, pass, missing, cfg, before, after, at)
  {
    hide Carries;
    forall k | 0 <= k < |missing| ensures MetAt(sources, pass, cfg, missing, after, at, k) {
      assert MetAt(sources, pass, WithRows(cfg, before), missing, after, at, k);
      assert WithRows(WithRows(cfg, before), after[..at[k]]) == WithRows(cfg, after[..at[k]]);
    }
  }

  predicate PlanMisses(sources: Sources, n: nat, cfg: PackConfig, t: Target)
  {
    sources.plan(n, cfg).Some? && t in sources.plan(n, cfg).value.missing
  }

  /** After a pass that added nothing, no target of its plan stands for a row that is
      not declared. */
  lemma NothingLeftOver(sources: Sources, cfg: PackConfig, pulled: seq<DeclaredMod>, sizes: seq<nat>, t: Target)
    requires Passes(sources, cfg, pulled, sizes) && |sizes| >= 2 && sizes[|sizes| - 2] == sizes[|sizes| - 1]
    requires PlanMisses(sources, |sizes| - 2, WithRows(cfg, cfg.mods + pulled), t)
    ensures var decl := Asked(sources, |sizes| - 2, cfg, t, cfg.mods + pulled);
            decl.Some? ==> Carries(cfg.mods + pulled, decl.value)
  {
    var n, filled := |sizes| - 2, cfg.mods + pulled;
    assert pulled[..|pulled|] == pulled;
    assert OnePass(sources, n, cfg, filled, filled);
    var missing := sources.plan(n, WithRows(cfg, filled)).value.missing;
    var at :| Passed(sources, n, missing, cfg, filled, filled, at);
    var k :| 0 <= k < |missing| && missing[k] == t;
    NoTargetSkipped(sources, n, missing, cfg, filled, filled, at, k);
    assert filled[..at[k]] == filled;
  }

  lemma ExtendsBy(before: seq<DeclaredMod>, after: seq<DeclaredMod>, decl: DeclaredMod)
    requires Extends(before, after) && decl.pulled && !decl.source.StaticFile? && !Carries(after, decl)
    ensures Extends(before, after + [decl])
  {
    hide Carries;
    var next := after + [decl];
    forall i | |before| <= i < |next| ensures !Carries(next[..i], next[i]) {
      assert next[..i] == after[..i];
    }
  }

  lemma ExtendsThrough(a: seq<DeclaredMod>, b: seq<DeclaredMod>, c: seq<DeclaredMod>)
    requires Extends(a, b) && Extends(b, c)
    ensures Extends(a, c)
  {
    hide Carries;
    forall i | |a| <= i < |c| ensures c[i].pulled && !c[i].source.StaticFile? && !Carries(c[..i], c[i]) {
      if i < |b| {
        assert c[..|b|][i] == b[i] && c[..i] == b[..i];
      }
    }
    assert c[..|a|] == c[..|b|][..|a|];
  }

  // ----- What pruning keeps ---------------------------------------------------------------------

  /** Every curator row stays; of the pulled rows exactly those a curator row reaches. */
  lemma PrunedKeepsExactly(mods: seq<DeclaredMod>, m: DeclaredMod)
    ensures m in Pruned(mods) <==> m in mods && (!m.pulled || Reachable(mods, m.filename))
    ensures Declared(Pruned(mods)) == Declared(mods)
  {
    SurvivorsMembers(mods, mods, m);
    DeclaredSurvive(mods, mods);
  }

  lemma SurvivorsLast(mods: seq<DeclaredMod>, part: seq<DeclaredMod>, m: DeclaredMod)
    ensures Survivors(mods, part + [m]) == Survivors(mods, part) + if Survives(mods, m) then [m] else []
  {
    assert (part + [m])[..|part|] == part;
  }

  lemma LastRowLast(mods: seq<DeclaredMod>, m: DeclaredMod, f: string)
    ensures LastRow(mods + [m], f) == if m.filename == f then Some(m) else LastRow(mods, f)
  {
    assert (mods + [m])[..|mods|] == mods;
  }

  lemma DeclaredSurviveLast(mods: seq<DeclaredMod>, init: seq<DeclaredMod>, m: DeclaredMod)
    requires Declared(Survivors(mods, init)) == Declared(init)
    ensures Declared(Survivors(mods, init + [m])) == Declared(init + [m])
  {
    var kept := Survivors(mods, init);
    assert Survives(mods, m) || DeclaredRow(m) == [];
    SurvivorsLast(mods, init, m);
    DeclaredLast(kept, m);
    DeclaredLast(init, m);
    hide Declared, Survivors, Survives, DeclaredRow;
    if Survives(mods, m) {
      assert Survivors(mods, init + [m]) == kept + [m];
    } else {
      assert Survivors(mods, init + [m]) == kept;
    }
  }

  lemma {:induction false} DeclaredSurvive(mods: seq<DeclaredMod>, part: seq<DeclaredMod>)
    ensures Declared(Survivors(mods, part)) == Declared(part)
  {
    if part != [] {
      hide Declared, Survivors;
      var init, m := part[..|part| - 1], part[|part| - 1];
      assert part == init + [m];
      DeclaredSurvive(mods, init);
      DeclaredSurviveLast(mods, init, m);
    } else {
      assert Survivors(mods, part) == part;
    }
  }

  lemma LastRowSurvivesLast(mods: seq<DeclaredMod>, init: seq<DeclaredMod>, m: DeclaredMod, f: string)
    requires Reachable(mods, f) && LastRow(Survivors(mods, init), f) == LastRow(init, f)
    ensures LastRow(Survivors(mods, init + [m]), f) == LastRow(init + [m], f)
  {
    var kept := Survivors(mods, init);
    assert Survives(mods, m) || m.filename != f;
    SurvivorsLast(mods, init, m);
    LastRowLast(kept, m, f);
    LastRowLast(init, m, f);
    hide LastRow, Survivors, Survives, Reachable;
    if Survives(mods, m) {
      assert Survivors(mods, init + [m]) == kept + [m];
    } else {
      assert Survivors(mods, init + [m]) == kept;
    }
  }

  lemma {:induction false} LastRowSurvives(mods: seq<DeclaredMod>, part: seq<DeclaredMod>, f: string)
    requires Reachable(mods, f)
    ensures LastRow(Survivors(mods, part), f) == LastRow(part, f)
  {
    if part != [] {
      hide LastRow, Survivors, Reachable;
      var init, m := part[..|part| - 1], part[|part| - 1];
      assert part == init + [m];
      LastRowSurvives(mods, init, f);
      LastRowSurvivesLast(mods, init, m, f);
    } else {
      assert Survivors(mods, part) == part;
    }
  }

  lemma CuratedSame(mods: seq<DeclaredMod>, f: string)
    ensures Curated(Pruned(mods), f) <==> Curated(mods, f)
  {
    forall m ensures m in Pruned(mods) <==> m in mods && Survives(mods, m) {
      SurvivorsMembers(mods, mods, m);
    }
    hide Pruned, Reachable;
  }

  lemma {:induction false} WaySurvives(mods: seq<DeclaredMod>, p: seq<string>)
    requires p != [] && (Way(mods, p) || Way(Pruned(mods), p))
    ensures Way(mods, p) && Way(Pruned(mods), p)
    decreases |p|
  {
    hide Targets, Curated;
    CuratedSame(mods, p[0]);
    if |p| > 1 {
      var q := p[..|p| - 1];
      assert Way(mods, p) ==> Way(mods, q);
      assert Way(Pruned(mods), p) ==> Way(Pruned(mods), q);
      WaySurvives(mods, q);
      assert p == q + [p[|p| - 1]];
      TargetsSame(mods, q);
      assert p[|p| - 1] in Targets(mods, q[|q| - 1]);
      WayExtends(mods, q, p[|p| - 1]);
      WayExtends(Pruned(mods), q, p[|p| - 1]);
    }
  }

  lemma WayExtends(mods: seq<DeclaredMod>, q: seq<string>, f: string)
    requires Way(mods, q) && f in Targets(mods, q[|q| - 1])
    ensures Way(mods, q + [f])
  {
    hide Targets, Curated;
  }

  lemma TargetsSame(mods: seq<DeclaredMod>, q: seq<string>)
    requires Way(mods, q)
    ensures Targets(Pruned(mods), q[|q| - 1]) == Targets(mods, q[|q| - 1])
  {
    assert Reachable(mods, q[|q| - 1]);
    LastRowSurvives(mods, mods, q[|q| - 1]);
  }

  /** Pruning again drops nothing, whatever cycles the edges form. */
  lemma PruneIdempotent(mods: seq<DeclaredMod>)
    ensures Pruned(Pruned(mods)) == Pruned(mods)
  {
    var once := Pruned(mods);
    forall m | m in once ensures Survives(once, m) {
      SurvivorsMembers(mods, mods, m);
      if m.pulled {
        var p :| Way(mods, p) && p[|p| - 1] == m.filename;
        WaySurvives(mods, p);
        assert Way(once, p);
      }
    }
    AllSurvive(once, once);
  }

  lemma {:induction false} AllSurvive(mods: seq<DeclaredMod>, part: seq<DeclaredMod>)
    requires forall m :: m in part ==> Survives(mods, m)
    ensures Survivors(mods, part) == part
  {
    if part != [] {
      assert part == part[..|part| - 1] + [part[|part| - 1]];
      AllSurvive(mods, part[..|part| - 1]);
    }
  }

  // ----- No step declares anything twice -----------------------------------------------------------

  predicate Unique(mods: seq<DeclaredMod>)
  {
    UniqueFilenames(mods) && UniqueArtifacts(mods)
  }

  predicate Apart(m: DeclaredMod, n: DeclaredMod)
  {
    m.filename != n.filename && !SameArtifact(m.source, n.source)
  }

  lemma UniqueLast(mods: seq<DeclaredMod>, m: DeclaredMod)
    ensures Unique(mods + [m]) <==> Unique(mods) && forall n :: n in mods ==> Apart(n, m)
  {
    hide SameArtifact;
    var all := mods + [m];
    if Unique(all) {
      forall i, j | 0 <= i < j < |mods| ensures Apart(mods[i], mods[j]) {
        assert all[i] == mods[i] && all[j] == mods[j];
      }
      forall n | n in mods ensures Apart(n, m) {
        var i :| 0 <= i < |mods| && mods[i] == n;
        assert all[i] == n && all[|mods|] == m;
      }
    }
    if Unique(mods) && forall n :: n in mods ==> Apart(n, m) {
      forall i, j | 0 <= i < j < |all| ensures Apart(all[i], all[j]) {
        assert all[i] == mods[i] && mods[i] in mods;
      }
    }
  }

  lemma {:induction false} PruneKeepsUnique(mods: seq<DeclaredMod>, part: seq<DeclaredMod>)
    requires Unique(part)
    ensures Unique(Survivors(mods, part))
  {
    if part != [] {
      var init, m := part[..|part| - 1], part[|part| - 1];
      assert part == init + [m];
      UniqueLast(init, m);
      PruneKeepsUnique(mods, init);
      forall n | n in Survivors(mods, init) ensures n in init {
        SurvivorsMembers(mods, init, n);
      }
      hide Unique, Apart, Survives;
      UniqueLast(Survivors(mods, init), m);
    }
  }

  lemma {:induction false} ExtendKeepsUnique(before: seq<DeclaredMod>, after: seq<DeclaredMod>)
    requires Unique(before) && Extends(before, after)
    ensures Unique(after)
    decreases |after|
  {
    if |after| > |before| {
      var init, m := after[..|after| - 1], after[|after| - 1];
      assert after == init + [m];
      assert Extends(before, init) by {
        assert init[..|before|] == after[..|before|];
        forall i | |before| <= i < |init|
          ensures init[i].pulled && !init[i].source.StaticFile? && !Carries(init[..i], init[i]) {
          assert init[..i] == after[..i];
        }
      }
      ExtendKeepsUnique(before, init);
      assert !Carries(init, m);
      UniqueLast(init, m);
    } else {
      assert after == before;
    }
  }

  /** The fill never declares a mod or a filename twice: a config without duplicates
      has none after passes, edges and pruning. */
  lemma FillKeepsUnique(mods: seq<DeclaredMod>, pulled: seq<DeclaredMod>, edges: seq<(string, string)>)
    requires Unique(mods) && Extends(mods, mods + pulled)
    ensures Unique(Pruned(LinkedAll(mods + pulled, edges)))
  {
    ExtendKeepsUnique(mods, mods + pulled);
    var linked := LinkedAll(mods + pulled, edges);
    forall i | 0 <= i < |linked|
      ensures linked[i].filename == (mods + pulled)[i].filename && linked[i].source == (mods + pulled)[i].source
    {
    }
    assert Unique(linked) by {
      hide Linked, SameArtifact, Extends;
    }
    PruneKeepsUnique(linked, linked);
  }

  /** Nor does the merge. */
  lemma {:induction false} MergeKeepsUnique(saved: seq<DeclaredMod>, incoming: seq<DeclaredMod>)
    requires Unique(saved) && Unique(incoming)
    ensures Unique(incoming + Missed(saved, incoming))
  {
    if saved == [] {
      assert incoming + [] == incoming;
    } else {
      var init, m := saved[..|saved| - 1], saved[|saved| - 1];
      assert saved == init + [m];
      UniqueLast(init, m);
      MergeKeepsUnique(init, incoming);
      var merged := incoming + Missed(init, incoming);
      if m.pulled && !Carries(incoming, m) {
        forall n | n in merged ensures Apart(n, m) {
          if n !in incoming {
            MissedMembers(init, incoming, n);
          }
        }
        UniqueLast(merged, m);
        assert incoming + Missed(saved, incoming) == merged + [m];
      } else {
        assert Missed(saved, incoming) == Missed(init, incoming);
      }
    }
  }

  // ----- Pulled rows are sticky ------------------------------------------------------------------------

  /** After merge and prune, a saved pulled row is carried by the incoming config or
      is there exactly when a curator row still reaches it. */
  lemma MergedRowsStayWhileReached(saved: seq<DeclaredMod>, incoming: seq<DeclaredMod>, m: DeclaredMod)
    requires m in saved && m.pulled
    ensures var merged := incoming + Missed(saved, incoming);
            Carries(incoming, m) || (m in Pruned(merged) <==> Reachable(merged, m.filename))
  {
    MissedMembers(saved, incoming, m);
    PrunedKeepsExactly(incoming + Missed(saved, incoming), m);
  }

  lemma {:induction false} UniqueLastRow(mods: seq<DeclaredMod>, m: DeclaredMod)
    requires UniqueFilenames(mods) && m in mods
    ensures LastRow(mods, m.filename) == Some(m)
  {
    var i :| 0 <= i < |mods| && mods[i] == m;
    var r := LastRow(mods, m.filename).value;
    var j :| 0 <= j < |mods| && mods[j] == r;
    assert i == j;
  }

  /** Saving a config without its pulled rows, as from a stale page, loses none of
      them: the merge restores every row of the saved
      config and pruning drops nothing. */
  lemma StaleSaveLosesNothing(saved: seq<DeclaredMod>)
    requires Unique(saved) && Pruned(saved) == saved
    ensures var merged := Declared(saved) + Missed(saved, Declared(saved));
            && Pruned(merged) == merged
            && forall m :: m in merged <==> m in saved
  {
    var incoming := Declared(saved);
    var merged := incoming + Missed(saved, incoming);
    forall m ensures m in merged <==> m in saved {
      DeclaredMembers(saved, m);
      MissedMembers(saved, incoming, m);
      if m in saved && m.pulled {
        forall n | n in incoming ensures Apart(n, m) {
          DeclaredMembers(saved, n);
          UniqueRows(saved, n, m);
        }
      }
    }
    DeclaredUnique(saved);
    MergeKeepsUnique(saved, incoming);
    SameRowsSameWays(saved, merged);
    hide Pruned;
    forall m | m in merged ensures Survives(merged, m) {
      PrunedKeepsExactly(saved, m);
    }
    AllSurvive(merged, merged);
    assert Pruned(merged) == Survivors(merged, merged) by { PrunedIs(merged); }
  }

  lemma PrunedIs(mods: seq<DeclaredMod>)
    ensures Pruned(mods) == Survivors(mods, mods)
  {
  }

  lemma UniqueRows(mods: seq<DeclaredMod>, m: DeclaredMod, n: DeclaredMod)
    requires Unique(mods) && m in mods && n in mods && m != n
    ensures Apart(m, n)
  {
    var i :| 0 <= i < |mods| && mods[i] == m;
    var j :| 0 <= j < |mods| && mods[j] == n;
    assert SameArtifact(m.source, n.source) ==> SameArtifact(n.source, m.source);
    hide SameArtifact;
  }

  lemma {:induction false} DeclaredUnique(mods: seq<DeclaredMod>)
    requires Unique(mods)
    ensures Unique(Declared(mods))
  {
    if mods != [] {
      var init, m := mods[..|mods| - 1], mods[|mods| - 1];
      assert mods == init + [m];
      UniqueLast(init, m);
      DeclaredUnique(init);
      forall n | n in Declared(init) ensures n in init {
        DeclaredMembers(init, n);
      }
      hide Unique, Apart;
      UniqueLast(Declared(init), m);
    }
  }

  /** With unique filenames, only which rows there are matters to the walk. */
  lemma SameRowsSameWays(a: seq<DeclaredMod>, b: seq<DeclaredMod>)
    requires UniqueFilenames(a) && UniqueFilenames(b) && forall m :: m in a <==> m in b
    ensures forall f :: Reachable(a, f) ==> Reachable(b, f)
  {
    forall f ensures Targets(a, f) == Targets(b, f) {
      if LastRow(a, f).Some? {
        UniqueLastRow(a, LastRow(a, f).value);
        UniqueLastRow(b, LastRow(a, f).value);
      }
    }
    forall f | Reachable(a, f) ensures Reachable(b, f) {
      var p :| Way(a, p) && p[|p| - 1] == f;
      hide Targets;
      assert Way(b, p);
    }
  }
}
