/** What the dependency fill leaves of a config (src/authoring/depfill.rs), told from the
    rows alone: which are restored, which are pruned, and in what order they stand. */
module DepFillLaws {
  import opened Base
  import opened Manifest
  import opened PackConfigs
  import opened DepFill
  import opened Picking
  import opened Sorting

  /** The same project, the same jar or the same path. */
  predicate OneArtifact(a: SourceDecl, b: SourceDecl)
  {
    || (a.ModrinthPin? && b.ModrinthPin? && a.projectId == b.projectId)
    || (a.CacheJar? && b.CacheJar? && a.sha1 == b.sha1)
    || (a.StaticFile? && b.StaticFile? && a.relPath == b.relPath)
  }

  /** A pulled row that no incoming row stands for, by artifact or by filename. */
  predicate Lost(incoming: seq<DeclaredMod>, m: DeclaredMod)
  {
    m.pulled && forall n :: n in incoming ==> !OneArtifact(n.source, m.source) && n.filename != m.filename
  }

  /** The merge restores exactly the lost rows, in the order they were saved. */
  lemma {:induction false} MissedPicks(saved: seq<DeclaredMod>, incoming: seq<DeclaredMod>)
    ensures Picks(saved, (m: DeclaredMod) => Lost(incoming, m), Missed(saved, incoming))
  {
    var lost := (m: DeclaredMod) => Lost(incoming, m);
    if saved == [] {
      PicksNone(lost);
    } else {
      var init, m := saved[..|saved| - 1], saved[|saved| - 1];
      assert saved == init + [m];
      MissedPicks(init, incoming);
      LostIs(incoming, m);
      assert Missed(saved, incoming) == Missed(init, incoming) + if lost(m) then [m] else [];
      hide Missed, Lost, Picks;
      PicksNext(init, lost, Missed(init, incoming), m);
    }
  }

  lemma LostIs(incoming: seq<DeclaredMod>, m: DeclaredMod)
    ensures Lost(incoming, m) <==> m.pulled && !Carries(incoming, m)
  {
  }

  /** The rows a person declared, in order. */
  lemma {:induction false} DeclaredPicks(mods: seq<DeclaredMod>)
    ensures Picks(mods, (m: DeclaredMod) => !m.pulled, Declared(mods))
  {
    var own := (m: DeclaredMod) => !m.pulled;
    if mods == [] {
      PicksNone(own);
    } else {
      var init, m := mods[..|mods| - 1], mods[|mods| - 1];
      assert mods == init + [m];
      DeclaredPicks(init);
      assert Declared(mods) == Declared(init) + if own(m) then [m] else [];
      hide Declared, Picks;
      PicksNext(init, own, Declared(init), m);
    }
  }

  // ----- What a curator's rows reach ------------------------------------------------------

  /** The last row of its filename, which names `g` as a hard requirement. */
  predicate Needs(mods: seq<DeclaredMod>, i: nat, g: string)
  {
    && i < |mods| && (forall k :: i < k < |mods| ==> mods[k].filename != mods[i].filename)
    && mods[i].display.Some?
    && exists q :: q in mods[i].display.value.requirements && !q.optional && q.filename == g
  }

  /** Filenames that hold every curator's and with each what its row needs. */
  ghost predicate Closed(mods: seq<DeclaredMod>, s: set<string>)
  {
    && (forall m :: m in mods && !m.pulled ==> m.filename in s)
    && forall i: nat, g :: Needs(mods, i, g) && mods[i].filename in s ==> g in s
  }

  predicate LastAt(mods: seq<DeclaredMod>, f: string, i: nat)
  {
    i < |mods| && mods[i].filename == f && forall k :: i < k < |mods| ==> mods[k].filename != f
  }

  lemma {:induction false} LastRowAt(mods: seq<DeclaredMod>, f: string, i: nat)
    requires LastAt(mods, f, i)
    ensures LastRow(mods, f) == Some(mods[i])
  {
    if mods[|mods| - 1].filename != f {
      LastRowAt(mods[..|mods| - 1], f, i);
    }
  }

  lemma {:induction false} LastRowFound(mods: seq<DeclaredMod>, f: string) returns (i: nat)
    requires LastRow(mods, f).Some?
    ensures LastAt(mods, f, i) && mods[i] == LastRow(mods, f).value
  {
    if mods[|mods| - 1].filename == f {
      i := |mods| - 1;
    } else {
      i := LastRowFound(mods[..|mods| - 1], f);
    }
  }

  lemma TargetsAre(mods: seq<DeclaredMod>, f: string, g: string)
    ensures g in Targets(mods, f) <==> exists i: nat :: Needs(mods, i, g) && mods[i].filename == f
  {
    hide LastRow;
    if g in Targets(mods, f) {
      var i := LastRowFound(mods, f);
      assert Needs(mods, i, g);
    }
    if i: nat :| Needs(mods, i, g) && mods[i].filename == f {
      LastRowAt(mods, f, i);
    }
  }

  /** Reachable is what every such set holds. */
  lemma ReachableIff(mods: seq<DeclaredMod>, f: string)
    ensures Reachable(mods, f) <==> forall s: set<string> :: Closed(mods, s) ==> f in s
  {
    forall a, g ensures g in Targets(mods, a) <==> exists i: nat :: Needs(mods, i, g) && mods[i].filename == a {
      TargetsAre(mods, a, g);
    }
    hide Targets, Needs;
    if Reachable(mods, f) {
      var p :| Way(mods, p) && p[|p| - 1] == f;
      forall s: set<string> | Closed(mods, s) ensures f in s {
        ClosedHoldsReachable(mods, s, p);
      }
    }
    if forall s: set<string> :: Closed(mods, s) ==> f in s {
      ReachedIsClosed(mods);
      var s := set a | a in Named(mods) && Reachable(mods, a);
      assert f in s;
    }
  }

  lemma ReachedIsClosed(mods: seq<DeclaredMod>)
    ensures Closed(mods, set a | a in Named(mods) && Reachable(mods, a))
  {
    var s := set a | a in Named(mods) && Reachable(mods, a);
    forall m | m in mods && !m.pulled ensures m.filename in s {
      CuratedReachable(mods, m.filename);
    }
    forall i: nat, g | Needs(mods, i, g) && mods[i].filename in s ensures g in s {
      TargetsAre(mods, mods[i].filename, g);
      TargetsReachable(mods, mods[i].filename);
    }
  }

  /** Pruning keeps exactly the rows a person declared and the pulled ones in every
      closed set, in the order they stood. */
  lemma PrunedPicks(mods: seq<DeclaredMod>)
    ensures Picks(mods, (m: DeclaredMod) => !m.pulled || Reachable(mods, m.filename), Pruned(mods))
  {
    SurvivorsPick(mods, mods);
    PrunedIs(mods);
  }

  lemma {:induction false} SurvivorsPick(mods: seq<DeclaredMod>, part: seq<DeclaredMod>)
    ensures Picks(part, (m: DeclaredMod) => !m.pulled || Reachable(mods, m.filename), Survivors(mods, part))
  {
    var stays := (m: DeclaredMod) => !m.pulled || Reachable(mods, m.filename);
    if part == [] {
      PicksNone(stays);
    } else {
      var init, m := part[..|part| - 1], part[|part| - 1];
      assert part == init + [m];
      SurvivorsPick(mods, init);
      SurvivorsLast(mods, init, m);
      assert Survives(mods, m) == stays(m);
      hide Survivors, Reachable, Picks, Survives;
      PicksNext(init, stays, Survivors(mods, init), m);
    }
  }

  // ----- The edges written back -------------------------------------------------------------

  /** Every edge written is a hard one to any version. */
  lemma EdgesAreHard(m: DeclaredMod, edges: seq<(string, string)>, q: Requirement)
    requires q in RequirementsOf(Linked(m, edges).display)
    ensures !q.optional && q.versionRange == None && (m.filename, q.filename) in edges
  {
    var reqs := RequirementsOf(Linked(m, edges).display);
    assert reqs == HardAll(Dedup(Sort(DepsOf(edges, m.filename))));
    assert !q.optional;
    LinkedMirrorsThePlan(m, edges);
    hide Linked, DepsOf, Dedup, Sort;
    assert q.filename in HardTargets(reqs);
  }
}
