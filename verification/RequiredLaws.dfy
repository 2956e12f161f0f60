/** What `derive_required` writes, told from the pack and its classifications alone
    (src/authoring/build.rs): which entries are locked, what a launcher shows for them,
    and when the build is refused. */
module RequiredLaws {
  import opened Base
  import opened Sides
  import opened Manifest
  import opened RequiredMods

  // ----- Vocabulary of the pack ------------------------------------------------------

  /** Enabled by default, and not classified as running on servers alone. */
  predicate InDefaultInstall(mods: seq<ModEntry>, cls: Classes, i: nat)
    requires i < |mods|
  {
    mods[i].defaultEnabled && !(mods[i].filename in cls && cls[mods[i].filename].side == Some(Server))
  }

  predicate IsLibraryOrCoremod(cls: Classes, filename: string)
  {
    filename in cls && (cls[filename].kind == Some("library") || cls[filename].kind == Some("coremod"))
  }

  /** Entry `i` names entry `j` as a hard requirement, `j` being the last of its name. */
  predicate Requires(mods: seq<ModEntry>, i: nat, j: nat)
    requires i < |mods|
  {
    && j < |mods| && (forall k :: j < k < |mods| ==> mods[k].filename != mods[j].filename)
    && mods[i].display.Some?
    && exists q :: q in mods[i].display.value.requirements && !q.optional && q.filename == mods[j].filename
  }

  /** Nothing in the classification forbids that a dependent locks the mod: it is not
      optional on both sides, and a client side is at most a weak guess of the scan. */
  predicate GivesWay(cls: Classes, filename: string)
  {
    filename in cls ==>
      var c := cls[filename];
      !c.optionalBoth && (c.side == Some(Client) ==> c.provenance == Bytecode && c.sideConfidence == Some("low"))
  }

  /** A mod of the default install that the server demands too. */
  predicate MustMatchHere(mods: seq<ModEntry>, cls: Classes, i: nat)
    requires i < |mods|
  {
    && InDefaultInstall(mods, cls, i) && !IsLibraryOrCoremod(cls, mods[i].filename)
    && mods[i].filename in cls && cls[mods[i].filename].policy == Some(MustMatch)
  }

  /** Had `i`, `j` comes with it. */
  predicate Brings(mods: seq<ModEntry>, cls: Classes, i: nat, j: nat)
    requires i < |mods|
  {
    Requires(mods, i, j) && GivesWay(cls, mods[j].filename)
  }

  /** A set that holds what must match in the default install, and with the default
      install and its own members everything these require. */
  ghost predicate Closed(mods: seq<ModEntry>, cls: Classes, s: set<nat>)
  {
    && (forall i: nat :: i < |mods| && MustMatchHere(mods, cls, i) ==> i in s)
    && forall i: nat, j: nat ::
         i < |mods| && (i in s || InDefaultInstall(mods, cls, i)) && Brings(mods, cls, i, j) ==> j in s
  }

  /** In every such set. */
  ghost predicate Demanded(mods: seq<ModEntry>, cls: Classes, i: nat)
  {
    i < |mods| && forall s: set<nat> :: Closed(mods, cls, s) ==> i in s
  }

  /** Demanded, and a mod that a client can be asked to have. */
  ghost predicate MustHave(mods: seq<ModEntry>, cls: Classes, i: nat)
  {
    && Demanded(mods, cls, i)
    && !IsLibraryOrCoremod(cls, mods[i].filename)
    && !(mods[i].filename in cls && cls[mods[i].filename].side == Some(Server))
  }

  // ----- Which entries are locked ------------------------------------------------------

  lemma OptedOutIs(mods: seq<ModEntry>, cls: Classes, i: nat)
    requires i < |mods|
    ensures var m := OptedOut(mods, cls)[i];
            && m.filename == mods[i].filename && m.display == mods[i].display
            && (m.defaultEnabled <==> InDefaultInstall(mods, cls, i))
  {
  }

  lemma {:induction false} LastNamedIs(mods: seq<ModEntry>, f: string, j: nat)
    ensures LastNamed(mods, f) == Some(j) <==>
              j < |mods| && mods[j].filename == f && forall k :: j < k < |mods| ==> mods[k].filename != f
  {
    if mods != [] && mods[|mods| - 1].filename != f {
      LastNamedIs(mods[..|mods| - 1], f, j);
    }
  }

  lemma EdgeIs(mods: seq<ModEntry>, cls: Classes, i: nat, j: nat)
    requires i < |mods|
    ensures Edge(OptedOut(mods, cls), cls, i, j) <==> Brings(mods, cls, i, j)
  {
    var rows := OptedOut(mods, cls);
    OptedOutIs(mods, cls, i);
    forall f ensures LastNamed(rows, f) == LastNamed(mods, f) {
      SameNames(rows, mods, f);
    }
    forall f ensures LastNamed(mods, f) == Some(j) <==>
                       j < |mods| && mods[j].filename == f && forall k :: j < k < |mods| ==> mods[k].filename != f {
      LastNamedIs(mods, f, j);
    }
    hide LastNamed, OptedOut;
    if j < |mods| {
      OptedOutIs(mods, cls, j);
    }
  }

  lemma SeedIs(mods: seq<ModEntry>, cls: Classes, i: nat)
    requires i < |mods|
    ensures Seed(OptedOut(mods, cls), cls, i) <==> MustMatchHere(mods, cls, i)
  {
  }

  /** The walk's candidates are what every closed set holds. */
  lemma CandidatesAreDemanded(mods: seq<ModEntry>, cls: Classes, i: nat)
    ensures Candidate(OptedOut(mods, cls), cls, i) <==> Demanded(mods, cls, i)
  {
    var rows := OptedOut(mods, cls);
    if Candidate(rows, cls, i) {
      forall s: set<nat> | Closed(mods, cls, s) ensures i in s {
        CandidateInClosed(mods, cls, i, s);
      }
    }
    if Demanded(mods, cls, i) {
      var all := set k: nat | k < |mods| && Candidate(rows, cls, k);
      CandidatesAreClosed(mods, cls, all);
    }
  }

  lemma CandidateInClosed(mods: seq<ModEntry>, cls: Classes, i: nat, s: set<nat>)
    requires Candidate(OptedOut(mods, cls), cls, i) && Closed(mods, cls, s)
    ensures i in s
  {
    var rows := OptedOut(mods, cls);
    SeedIs(mods, cls, i);
    if !Seed(rows, cls, i) {
      var p :| Way(rows, cls, p) && p[|p| - 1] == i;
      forall a: nat, b: nat | a < |rows| && (a in s || rows[a].defaultEnabled) && Edge(rows, cls, a, b) ensures b in s {
        OptedOutIs(mods, cls, a);
        EdgeIs(mods, cls, a, b);
      }
      hide Edge, Closed, OptedOut;
      ClosedHoldsReached(rows, cls, s, p);
    }
  }

  lemma CandidatesAreClosed(mods: seq<ModEntry>, cls: Classes, all: set<nat>)
    requires all == set k: nat | k < |mods| && Candidate(OptedOut(mods, cls), cls, k)
    ensures Closed(mods, cls, all)
  {
    var rows := OptedOut(mods, cls);
    forall i: nat | i < |mods| && MustMatchHere(mods, cls, i) ensures i in all {
      SeedIs(mods, cls, i);
    }
    hide Seed;
    forall i: nat, j: nat | i < |mods| && (i in all || InDefaultInstall(mods, cls, i)) && Brings(mods, cls, i, j)
      ensures j in all
    {
      OptedOutIs(mods, cls, i);
      EdgeIs(mods, cls, i, j);
      hide Edge, OptedOut;
      SeedsAreInstalled(rows, cls, i);
      ReachedFrom(rows, cls, i, j);
    }
  }

  lemma SeedsAreInstalled(mods: seq<ModEntry>, cls: Classes, i: nat)
    ensures Candidate(mods, cls, i) ==> mods[i].defaultEnabled || Reached(mods, cls, i)
  {
  }

  /** An entry ends up locked exactly when it must be had. */
  lemma RequiredIff(mods: seq<ModEntry>, cls: Classes, i: nat)
    requires i < |mods|
    ensures Derive(mods, cls)[i].required <==> MustHave(mods, cls, i)
  {
    LockedIff(mods, cls, i);
    hide Locked, MustHave;
  }

  lemma LockedIff(mods: seq<ModEntry>, cls: Classes, i: nat)
    ensures Locked(OptedOut(mods, cls), cls, i) <==> MustHave(mods, cls, i)
  {
    CandidatesAreDemanded(mods, cls, i);
    hide Seed, Reached, Closed;
  }

  /** The derivation stops at the first entry that must be had, runs on clients alone
      and has no weak verdict to excuse it, and at nothing else. */
  lemma BlocksIff(mods: seq<ModEntry>, cls: Classes, i: nat)
    ensures Blocks(OptedOut(mods, cls), cls, i) <==>
              && MustHave(mods, cls, i) && mods[i].filename in cls && cls[mods[i].filename].side == Some(Client)
              && !(cls[mods[i].filename].provenance == Bytecode && cls[mods[i].filename].sideConfidence == Some("low"))
  {
    LockedIff(mods, cls, i);
    hide Seed, Reached, Closed;
  }

  // ----- What a launcher shows -----------------------------------------------------------

  function PresenceOf(m: ModEntry): Option<PresenceClass>
  {
    if m.display.Some? then m.display.value.presence else None
  }

  /** What an entry says of its presence, whatever it said before. */
  lemma DerivedPresence(mods: seq<ModEntry>, cls: Classes, i: nat)
    requires i < |mods|
    ensures var m := Derive(mods, cls)[i];
            var side := if m.filename in cls then cls[m.filename].side else None;
            var shelf := IsLibraryOrCoremod(cls, m.filename);
            && (PresenceOf(m) == Some(Coremod) <==> shelf)
            && (PresenceOf(m) == Some(OptionalServer) <==> !shelf && side == Some(Server))
            && (PresenceOf(m) == Some(Required) <==> m.required)
            && (PresenceOf(m) == Some(OptionalClient) <==> !shelf && side == Some(Client) && !m.required)
            && (PresenceOf(m) == Some(OptionalBoth) <==> !shelf && side == Some(Both) && !m.required)
            && (PresenceOf(m) == None <==> !shelf && side == None && !m.required)
  {
    hide Candidate;
  }

  /** Besides that and whether it is required, a derived entry keeps everything, but
      for a server-side mod's place in the default install. */
  lemma DerivedKeepsTheRest(mods: seq<ModEntry>, cls: Classes, i: nat)
    requires i < |mods|
    ensures var (was, now) := (mods[i], Derive(mods, cls)[i]);
            && now.(required := was.required, defaultEnabled := was.defaultEnabled, display := was.display) == was
            && (now.defaultEnabled <==> InDefaultInstall(mods, cls, i))
            && (was.display.Some? ==>
                  now.display.Some? && now.display.value.(presence := was.display.value.presence) == was.display.value)
            && (was.display.None? && now.display.Some? ==>
                  PresenceOf(now).Some? && now.display.value.(presence := None) == DEFAULT_DISPLAY)
  {
    hide Locked;
  }
}
