/** From jars to locked mods: what the jar scan may decide, carried through the
    registry into the build (src/authoring/bytecode.rs, src/registry/classify.rs,
    src/authoring/build.rs). */
module ClassifiedPacks {
  import opened Base
  import opened Sides
  import opened JarDerivation
  import opened Manifest
  import opened RequiredMods
  import opened RequiredLaws
  import opened SidesLaws
  import opened JarLaws

  /** A row one of the two writers stored: a harvest for a scanned jar, or an
      operator whose assertion the writer accepted. */
  ghost predicate StoredRow(row: JarClassRow)
  {
    || (exists jar: Jar :: row == HarvestedRow(jar.Decided()))
    || (exists kind, side, policy, modrinth :: AuthoredRow(kind, side, policy, modrinth) == Some(row))
  }

  /** A classification the decision layer produced from stored rows and flags. */
  ghost predicate Sourced(c: Classification)
  {
    exists row: Option<JarClassRow>, env ::
      (row.Some? ==> StoredRow(row.value)) && c == ClassifyArtifact(row, env)
  }

  lemma StoredRowConsistent(row: JarClassRow)
    requires StoredRow(row)
    ensures RowConsistent(row)
  {
    if jar: Jar :| row == HarvestedRow(jar.Decided()) {
      NeverClientMustMatch(jar);
    }
  }

  /** Every pack classified through the registry builds: derivation is never
      refused, and the only client mods it locks are soft ones. */
  lemma ClassifiedPackIsNeverRefused(mods: seq<ModEntry>, cls: Classes)
    requires forall f :: f in cls ==> Sourced(cls[f])
    ensures forall i: nat :: !Blocks(OptedOut(mods, cls), cls, i)
    ensures forall i: nat :: i < |mods| && Derive(mods, cls)[i].required && SideOf(mods[i], cls) == Some(Client)
              ==> Soft(mods[i], cls)
  {
    forall f | f in cls ensures Consistent(cls[f]) {
      var row: Option<JarClassRow>, env :|
        (row.Some? ==> StoredRow(row.value)) && cls[f] == ClassifyArtifact(row, env);
      if row.Some? {
        StoredRowConsistent(row.value);
      }
      ClassifiedConsistently(row, env);
    }
    ConsistentClassesNeverRefuse(mods, cls);
  }

  /** So a client side that the jar declares, that Modrinth declares or that an
      operator asserts is never force-installed, whatever depends on the mod. */
  lemma SolidClientIsNeverLocked(mods: seq<ModEntry>, cls: Classes, i: nat)
    requires forall f :: f in cls ==> Sourced(cls[f])
    requires i < |mods| && SideOf(mods[i], cls) == Some(Client)
    requires cls[mods[i].filename].provenance == ModrinthEnv || cls[mods[i].filename].sideConfidence == Some("high")
    ensures !Derive(mods, cls)[i].required
    ensures Derive(mods, cls)[i].display.value.presence
      == Some(if NonMod(mods[i], cls) then Coremod else OptionalClient)
  {
    ClassifiedPackIsNeverRefused(mods, cls);
  }

  /** In particular a jar whose `@Mod` flags say client side only: it stays a client's
      choice whatever depends on it. */
  lemma ClientOnlyJarIsNeverLocked(
      mods: seq<ModEntry>, cls: Classes, i: nat, classes: seq<ClassInfo>, signals: JarSignals)
    requires forall f :: f in cls ==> Sourced(cls[f])
    requires FlagsClient(classes) && !FlagsServer(classes)
    requires i < |mods| && mods[i].filename in cls
    requires cls[mods[i].filename] == ClassifyArtifact(Some(HarvestedRow(VerdictOf(classes, signals))), None)
    ensures !Derive(mods, cls)[i].required
    ensures PresenceOf(Derive(mods, cls)[i]) == Some(OptionalClient)
    ensures Derive(mods, cls)[i].defaultEnabled <==> mods[i].defaultEnabled
  {
    FlagDecides(classes, signals);
    ScannedRowSays(VerdictOf(classes, signals));
    hide VerdictOf, Derive, Sourced;
    SolidClientIsNeverLocked(mods, cls, i);
    DerivedPresence(mods, cls, i);
    DerivedKeepsTheRest(mods, cls, i);
  }

  /** One whose flags say server side only leaves the default install and is never
      asked of a client. */
  lemma ServerOnlyJarIsOptedOut(mods: seq<ModEntry>, cls: Classes, i: nat, classes: seq<ClassInfo>, signals: JarSignals)
    requires FlagsServer(classes) && !FlagsClient(classes)
    requires i < |mods| && mods[i].filename in cls
    requires cls[mods[i].filename] == ClassifyArtifact(Some(HarvestedRow(VerdictOf(classes, signals))), None)
    ensures !Derive(mods, cls)[i].required && !Derive(mods, cls)[i].defaultEnabled
    ensures PresenceOf(Derive(mods, cls)[i]) == Some(OptionalServer)
  {
    FlagDecides(classes, signals);
    ScannedRowSays(VerdictOf(classes, signals));
    hide VerdictOf, Derive;
    RequiredIff(mods, cls, i);
    DerivedPresence(mods, cls, i);
    DerivedKeepsTheRest(mods, cls, i);
  }

  /** A content jar without flags or waiver is locked wherever it is installed by
      default. */
  lemma ContentJarIsLocked(mods: seq<ModEntry>, cls: Classes, i: nat, classes: seq<ClassInfo>, signals: JarSignals)
    requires Open(classes, signals) && !Waives(classes, signals) && exists c :: c in classes && Registers(c)
    requires i < |mods| && mods[i].filename in cls && mods[i].defaultEnabled
    requires cls[mods[i].filename] == ClassifyArtifact(Some(HarvestedRow(VerdictOf(classes, signals))), None)
    ensures Derive(mods, cls)[i].required && PresenceOf(Derive(mods, cls)[i]) == Some(Required)
  {
    ContentDecides(classes, signals);
    ScannedRowSays(VerdictOf(classes, signals));
    hide VerdictOf, Derive, Registers, Waives;
    RequiredIff(mods, cls, i);
    MustMatchIsDemanded(mods, cls, i);
    DerivedPresence(mods, cls, i);
  }

  lemma MustMatchIsDemanded(mods: seq<ModEntry>, cls: Classes, i: nat)
    requires i < |mods| && MustMatchHere(mods, cls, i)
    ensures Demanded(mods, cls, i)
  {
  }
}
