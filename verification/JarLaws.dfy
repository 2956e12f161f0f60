/** What a jar's derivation says, told from its classes and signals alone
    (src/authoring/bytecode.rs): the verdict step by step, the evidence as numbers of
    classes, and where each package prefix ends up. */
module JarLaws {
  import opened Base
  import opened Texts
  import opened Sides
  import opened JarDerivation
  import CF = ClassFacts

  // ----- Vocabulary of a jar -----------------------------------------------------------

  predicate HasModClass(classes: seq<ClassInfo>)
  {
    exists c :: c in classes && c.modSides.Some?
  }

  predicate FlagsClient(classes: seq<ClassInfo>)
  {
    exists c :: c in classes && c.modSides.Some? && c.modSides.value.0
  }

  predicate FlagsServer(classes: seq<ClassInfo>)
  {
    exists c :: c in classes && c.modSides.Some? && c.modSides.value.1
  }

  predicate IsMod(classes: seq<ClassInfo>, signals: JarSignals)
  {
    HasModClass(classes) || signals.metaIdentity
  }

  /** Some class refers to a name that begins so. */
  predicate Touches(c: ClassInfo, front: string)
  {
    exists r :: r in c.referenced && StartsWith(r, front)
  }

  /** A name below one of the packages of blocks, items, entities and the like. */
  predicate BelowContent(name: string)
  {
    exists p :: p in CONTENT_SUPER_PREFIXES && StartsWith(name, p)
  }

  /** Not pinned to the client, and extends, implements or registers game content. */
  predicate Registers(c: ClassInfo)
  {
    && c.dist != Some(CF.Client)
    && (|| (c.superName.Some? && BelowContent(c.superName.value))
        || (exists i :: i in c.interfaces && BelowContent(i))
        || WORLD_GENERATOR in c.interfaces
        || exists r :: r in c.referenced && r in REGISTRY_REFS)
  }

  function ClientClasses(classes: seq<ClassInfo>): set<nat>
  {
    set i: nat | i < |classes| && (classes[i].dist == Some(CF.Client) || Touches(classes[i], "net/minecraft/client/"))
  }

  function MinecraftClasses(classes: seq<ClassInfo>): set<nat>
  {
    set i: nat | i < |classes| && (Touches(classes[i], "net/minecraft/")
      || (classes[i].superName.Some? && StartsWith(classes[i].superName.value, "net/minecraft/")))
  }

  function ModClasses(classes: seq<ClassInfo>): set<nat>
  {
    set i: nat | i < |classes| && classes[i].modSides.Some?
  }

  /** Classes that accept any version of themselves on the other side. */
  function AnyVersion(classes: seq<ClassInfo>): set<nat>
  {
    set i: nat | i < |classes| && classes[i].acceptableRemoteVersions == Some("*")
  }

  function IntegrationClasses(classes: seq<ClassInfo>): set<nat>
  {
    set i: nat | i < |classes| && IsIntegrationClass(classes[i].thisClass)
  }

  /** The jar waives the match with the server. */
  predicate Waives(classes: seq<ClassInfo>, signals: JarSignals)
  {
    || signals.displayTestTolerant
    || (HasModClass(classes) && |AnyVersion(classes)| == |ModClasses(classes)|)
  }

  // ----- Counting --------------------------------------------------------------------------

  function Showing(classes: seq<ClassInfo>, mark: Mark): set<nat>
  {
    set i: nat | i < |classes| && Shows(classes[i], mark)
  }

  lemma CountIs(classes: seq<ClassInfo>, mark: Mark)
    ensures Count(classes, mark) == |Showing(classes, mark)|
  {
    CountUpTo(classes, mark, |classes|);
    hide Shows, Count;
    assert classes[..|classes|] == classes;
    assert Showing(classes, mark) == ShowingBelow(classes, mark, |classes|);
  }

  function ShowingBelow(classes: seq<ClassInfo>, mark: Mark, n: nat): set<nat>
    requires n <= |classes|
  {
    set i: nat | i < n && Shows(classes[i], mark)
  }

  lemma {:induction false} CountUpTo(classes: seq<ClassInfo>, mark: Mark, n: nat)
    requires n <= |classes|
    ensures Count(classes[..n], mark) == |ShowingBelow(classes, mark, n)|
  {
    hide Shows;
    if n == 0 {
      assert ShowingBelow(classes, mark, 0) == {};
    } else {
      CountUpTo(classes, mark, n - 1);
      CountNext(classes, n - 1, mark);
      OneMoreShowing(classes, mark, n - 1);
      hide ShowingBelow;
    }
  }

  lemma OneMoreShowing(classes: seq<ClassInfo>, mark: Mark, n: nat)
    requires n < |classes|
    ensures |ShowingBelow(classes, mark, n + 1)|
         == |ShowingBelow(classes, mark, n)| + if Shows(classes[n], mark) then 1 else 0
  {
    hide Shows;
    var before := ShowingBelow(classes, mark, n);
    if Shows(classes[n], mark) {
      assert ShowingBelow(classes, mark, n + 1) == before + {n};
    } else {
      assert ShowingBelow(classes, mark, n + 1) == before;
    }
  }

  /** Every number of the evidence counts the classes that show it. */
  lemma EvidenceCounts(classes: seq<ClassInfo>)
    ensures var e := EvidenceOf(classes);
            && e.classes == |classes|
            && e.contentClasses == |set i: nat | i < |classes| && Registers(classes[i])|
            && e.clientClasses == |ClientClasses(classes)|
            && e.distClientClasses == |set i: nat | i < |classes| && classes[i].dist == Some(CF.Client)|
            && e.distServerClasses == |set i: nat | i < |classes| && classes[i].dist == Some(CF.Server)|
            && e.modAnnotations == |ModClasses(classes)|
            && e.arvStar == |AnyVersion(classes)|
            && (e.sidedProxy <==> exists c :: c in classes && c.sidedProxy)
            && e.loadingPluginClasses == |set i: nat | i < |classes| && classes[i].loadingPlugin|
            && e.mcTouching == |MinecraftClasses(classes)|
  {
    forall mark {
      CountIs(classes, mark);
    }
    ProxyShown(classes);
    ContentShown(classes);
    SidesShown(classes);
    DistsShown(classes);
    assert Showing(classes, Plugin) == set i: nat | i < |classes| && classes[i].loadingPlugin;
    hide Count, Showing, Registers, ClientClasses, MinecraftClasses;
  }

  lemma ContentShown(classes: seq<ClassInfo>)
    ensures Showing(classes, ContentClass) == set i: nat | i < |classes| && Registers(classes[i])
    ensures Showing(classes, ClientClass) == ClientClasses(classes)
    ensures Showing(classes, McTouching) == MinecraftClasses(classes)
  {
    forall c: ClassInfo ensures Shows(c, ContentClass) <==> Registers(c) {
      ContentIs(c);
    }
    forall c: ClassInfo, front ensures RefersTo(c, front) <==> Touches(c, front) {
    }
    hide Registers, IsContentClass, RefersTo, Touches, StartsWith;
  }

  lemma ContentIs(c: ClassInfo)
    ensures Shows(c, ContentClass) <==> Registers(c)
  {
    forall n ensures IsContentType(n) <==> BelowContent(n) {
    }
    hide IsContentType, BelowContent;
  }

  lemma SidesShown(classes: seq<ClassInfo>)
    ensures Showing(classes, ModAnnotated) == ModClasses(classes)
    ensures Showing(classes, ArvStar) == AnyVersion(classes)
  {
  }

  lemma DistsShown(classes: seq<ClassInfo>)
    ensures Showing(classes, DistClient) == set i: nat | i < |classes| && classes[i].dist == Some(CF.Client)
    ensures Showing(classes, DistServer) == set i: nat | i < |classes| && classes[i].dist == Some(CF.Server)
  {
  }

  // ----- The verdict -------------------------------------------------------------------------

  /** What each question of the verdict asks about the classes. */
  lemma Questions(jar: Jar)
    ensures jar.Shown(ModAnnotated) <==> HasModClass(jar.classes)
    ensures jar.Shown(SaysClient) <==> FlagsClient(jar.classes)
    ensures jar.Shown(SaysServer) <==> FlagsServer(jar.classes)
    ensures jar.Shown(ContentClass) <==> exists c :: c in jar.classes && Registers(c)
    ensures jar.Shown(Plugin) <==> exists c :: c in jar.classes && c.loadingPlugin
    ensures jar.Shown(DistServer) <==> exists c :: c in jar.classes && c.dist == Some(CF.Server)
    ensures jar.Tolerates() <==> Waives(jar.classes, jar.signals)
    ensures jar.ClientSurface() <==>
              && ClientClasses(jar.classes) != {} && !(exists c :: c in jar.classes && c.dist == Some(CF.Server))
              && 2 * |ClientClasses(jar.classes)| >= |MinecraftClasses(jar.classes)|
  {
    SomeShow(jar);
    Numbers(jar.classes);
    hide Count, Registers, ClientClasses, MinecraftClasses, ModClasses, AnyVersion, HasModClass, FlagsClient,
      FlagsServer;
  }

  lemma Numbers(classes: seq<ClassInfo>)
    ensures Count(classes, ArvStar) == |AnyVersion(classes)| && Count(classes, ModAnnotated) == |ModClasses(classes)|
    ensures Count(classes, ClientClass) == |ClientClasses(classes)|
    ensures Count(classes, McTouching) == |MinecraftClasses(classes)|
    ensures Count(classes, ClientClass) > 0 <==> ClientClasses(classes) != {}
  {
    forall mark {
      CountIs(classes, mark);
    }
    ContentShown(classes);
    SidesShown(classes);
    hide Count, Showing, ClientClasses, MinecraftClasses, ModClasses, AnyVersion;
  }

  lemma SomeShow(jar: Jar)
    ensures jar.Shown(ModAnnotated) <==> HasModClass(jar.classes)
    ensures jar.Shown(SaysClient) <==> FlagsClient(jar.classes)
    ensures jar.Shown(SaysServer) <==> FlagsServer(jar.classes)
    ensures jar.Shown(ContentClass) <==> exists c :: c in jar.classes && Registers(c)
    ensures jar.Shown(Plugin) <==> exists c :: c in jar.classes && c.loadingPlugin
    ensures jar.Shown(DistServer) <==> exists c :: c in jar.classes && c.dist == Some(CF.Server)
  {
    forall mark ensures jar.Shown(mark) <==> exists c :: c in jar.classes && Shows(c, mark) {
      CountPositive(jar.classes, mark);
    }
    forall c: ClassInfo ensures Shows(c, ContentClass) <==> Registers(c) {
      ContentIs(c);
    }
    ShownFlags(jar.classes);
    hide Count, Registers, HasModClass, FlagsClient, FlagsServer, IsContentClass, RefersTo;
  }

  lemma ShownFlags(classes: seq<ClassInfo>)
    ensures HasModClass(classes) <==> exists c :: c in classes && Shows(c, ModAnnotated)
    ensures FlagsClient(classes) <==> exists c :: c in classes && Shows(c, SaysClient)
    ensures FlagsServer(classes) <==> exists c :: c in classes && Shows(c, SaysServer)
  {
  }

  function VerdictOf(classes: seq<ClassInfo>, signals: JarSignals): Verdict
  {
    Derivation(classes, signals).verdict
  }

  /** Without an identity a jar has a kind and nothing else. */
  lemma NotAMod(classes: seq<ClassInfo>, signals: JarSignals)
    requires !IsMod(classes, signals)
    ensures VerdictOf(classes, signals) == Verdict(None, None, None,
              if signals.manifestCoremod || signals.manifestTweaker || signals.mixinConfigs > 0
                 || exists c :: c in classes && c.loadingPlugin then CoremodJar else Library)
  {
    Questions(Jar(classes, signals));
    hide Count, Registers;
  }

  /** One side flagged by `@Mod`, and not the other, is the side. */
  lemma FlagDecides(classes: seq<ClassInfo>, signals: JarSignals)
    requires FlagsClient(classes) != FlagsServer(classes)
    ensures FlagsClient(classes) ==>
              VerdictOf(classes, signals) == Verdict(Some(Client), Some(High), Some(Tolerant), Mod)
    ensures FlagsServer(classes) ==>
              VerdictOf(classes, signals) == Verdict(Some(Server), Some(High), Some(Tolerant), Mod)
  {
    Questions(Jar(classes, signals));
    assert HasModClass(classes);
    hide Count, Registers;
  }

  /** Else one side declared to Fabric. */
  lemma FabricDecides(classes: seq<ClassInfo>, signals: JarSignals)
    requires IsMod(classes, signals) && FlagsClient(classes) == FlagsServer(classes)
    ensures signals.fabricEnv == Some(Client) ==>
              VerdictOf(classes, signals) == Verdict(Some(Client), Some(High), Some(Tolerant), Mod)
    ensures signals.fabricEnv == Some(Server) ==>
              VerdictOf(classes, signals) == Verdict(Some(Server), Some(High), Some(Tolerant), Mod)
  {
    Questions(Jar(classes, signals));
    hide Count, Registers;
  }

  /** A mod that declares no single side. */
  predicate Open(classes: seq<ClassInfo>, signals: JarSignals)
  {
    && IsMod(classes, signals) && FlagsClient(classes) == FlagsServer(classes)
    && signals.fabricEnv != Some(Client) && signals.fabricEnv != Some(Server)
  }

  /** Then content puts it on both sides, and the server must have it unless waived. */
  lemma ContentDecides(classes: seq<ClassInfo>, signals: JarSignals)
    requires Open(classes, signals) && exists c :: c in classes && Registers(c)
    ensures VerdictOf(classes, signals)
         == Verdict(Some(Both), Some(High), Some(if Waives(classes, signals) then Tolerant else MustMatch), Mod)
  {
    Questions(Jar(classes, signals));
    hide Count, Registers, Waives;
  }

  /** No content, but a waiver: both sides, tolerant. */
  lemma WaiverDecides(classes: seq<ClassInfo>, signals: JarSignals)
    requires Open(classes, signals) && Waives(classes, signals) && forall c :: c in classes ==> !Registers(c)
    ensures VerdictOf(classes, signals) == Verdict(Some(Both), Some(High), Some(Tolerant), Mod)
  {
    Questions(Jar(classes, signals));
    hide Count, Registers, Waives;
  }

  /** Neither content nor waiver. */
  predicate Silent(classes: seq<ClassInfo>, signals: JarSignals)
  {
    Open(classes, signals) && !Waives(classes, signals) && forall c :: c in classes ==> !Registers(c)
  }

  /** Then a client entrypoint alone, */
  lemma EntrypointDecides(classes: seq<ClassInfo>, signals: JarSignals)
    requires Silent(classes, signals) && signals.fabricClientEntrypoint && !signals.fabricMainEntrypoint
    ensures VerdictOf(classes, signals) == Verdict(Some(Client), Some(High), Some(Tolerant), Mod)
  {
    Questions(Jar(classes, signals));
    hide Count, Registers, Waives;
  }

  /** At least half of what touches Minecraft touches its client, and nothing is pinned
      to the server. */
  predicate LooksClient(classes: seq<ClassInfo>)
  {
    && ClientClasses(classes) != {} && 2 * |ClientClasses(classes)| >= |MinecraftClasses(classes)|
    && forall c :: c in classes ==> c.dist != Some(CF.Server)
  }

  /** or else the look of the client, the one verdict of low confidence. */
  lemma SurfaceDecides(classes: seq<ClassInfo>, signals: JarSignals)
    requires Silent(classes, signals) && !(signals.fabricClientEntrypoint && !signals.fabricMainEntrypoint)
    requires LooksClient(classes)
    ensures VerdictOf(classes, signals) == Verdict(Some(Client), Some(Low), Some(Tolerant), Mod)
  {
    Questions(Jar(classes, signals));
    hide Count, Registers, Waives, ClientClasses, MinecraftClasses;
  }

  /** What is left keeps a declared pair of sides and decides no policy. */
  lemma NothingDecides(classes: seq<ClassInfo>, signals: JarSignals)
    requires Silent(classes, signals) && !(signals.fabricClientEntrypoint && !signals.fabricMainEntrypoint)
    requires !LooksClient(classes)
    ensures VerdictOf(classes, signals)
         == if (FlagsClient(classes) && FlagsServer(classes)) || signals.fabricEnv == Some(Both)
            then Verdict(Some(Both), Some(High), None, Mod) else Verdict(None, None, None, Mod)
  {
    Questions(Jar(classes, signals));
    hide Count, Registers, Waives, ClientClasses, MinecraftClasses;
  }

  // ----- Names -----------------------------------------------------------------------------------

  /** A class below the package of these segments. */
  function Path(segs: seq<string>, name: string): string
  {
    Join(segs, "/") + "/" + name
  }

  /** Segments of a package: none holds a slash, and they are not one empty segment. */
  predicate Segments(segs: seq<string>)
  {
    segs != [] && segs != [""] && forall s :: s in segs ==> '/' !in s
  }

  lemma {:induction false} LastSlashOfPath(front: string, name: string)
    requires '/' !in name
    ensures LastSlash(front + "/" + name) == Some(|front|)
    decreases |name|
  {
    var s := front + "/" + name;
    if name == "" {
      assert s[|s| - 1] == '/';
    } else {
      var init := name[..|name| - 1];
      assert s[..|s| - 1] == front + "/" + init && s[|s| - 1] == name[|name| - 1];
      LastSlashOfPath(front, init);
    }
  }

  lemma PathSplits(segs: seq<string>, name: string)
    requires Segments(segs) && '/' !in name
    ensures LastSlash(Path(segs, name)) == Some(|Join(segs, "/")|) && |Join(segs, "/")| > 0
    ensures Path(segs, name)[..|Join(segs, "/")|] == Join(segs, "/") && Split(Join(segs, "/"), '/') == segs
  {
    LastSlashOfPath(Join(segs, "/"), name);
    assert Split("", '/') == [""];
    SplitJoin(segs, '/');
    hide Join, Split;
  }

  /** A prefix is the first three segments below a broad root, else the first two, and
      what the package has when it is shorter. */
  lemma PrefixOfPath(segs: seq<string>, name: string)
    requires Segments(segs) && '/' !in name
    ensures var depth := if segs[0] in COMMON_ROOTS then 3 else 2;
            PackagePrefix(Path(segs, name))
            == Some(if |segs| <= depth then Join(segs, "/") else Join(segs[..depth], "/"))
  {
    PathSplits(segs, name);
    DepthIs(segs[0]);
    hide *;
    PrefixIs(Path(segs, name), Join(segs, "/"), segs);
    FirstOfAll(segs, Depth(segs[0]));
  }

  lemma PrefixIs(binary: string, pkg: string, segs: seq<string>)
    requires pkg != "" && segs != [] && Split(pkg, '/') == segs
    requires LastSlash(binary) == Some(|pkg|) && binary[..|pkg|] == pkg
    ensures PackagePrefix(binary) == Some(FirstOf(segs, Depth(segs[0])))
  {
    hide Split, LastSlash, FirstOf, Depth;
  }

  lemma FirstOfAll(segs: seq<string>, depth: nat)
    ensures FirstOf(segs, depth) == if |segs| <= depth then Join(segs, "/") else Join(segs[..depth], "/")
  {
    assert segs[..|segs|] == segs;
  }

  lemma DepthIs(root: string)
    ensures Depth(root) == if root in COMMON_ROOTS then 3 else 2
  {
  }

  lemma NoPackageNoPrefix(name: string)
    requires '/' !in name
    ensures PackagePrefix(name) == None && !IsIntegrationClass(name)
  {
  }

  /** A class is an integration class when some segment of its package says so. */
  lemma IntegrationIff(segs: seq<string>, name: string)
    requires Segments(segs) && '/' !in name
    ensures IsIntegrationClass(Path(segs, name)) <==> exists s :: s in segs && s in INTEGRATION_SEGMENTS
  {
    PathSplits(segs, name);
    hide Join, Split, LastSlash;
  }

  /** The platform's names are its packages and what is below them, whole segments. */
  lemma PlatformIff(name: string)
    ensures IsPlatform(name) <==>
              exists p :: p in STOP_PREFIXES && (name == p || (|name| > |p| && name[..|p|] == p && name[|p|] == '/'))
  {
    forall p
      ensures StartsWithSegment(name, p) <==> name == p || (|name| > |p| && name[..|p|] == p && name[|p|] == '/')
    {
      if |name| > |p| {
        assert name[..|p| + 1] == name[..|p|] + [name[|p|]];
        assert (p + "/")[..|p|] == p;
      }
    }
    hide StartsWithSegment;
  }

  lemma RuntimeIff(name: string)
    ensures RuntimeLang(name) == Some("scala") <==> name == "scala" || StartsWith(name, "scala/")
    ensures RuntimeLang(name) == Some("kotlin") <==> name == "kotlin" || StartsWith(name, "kotlin/")
    ensures RuntimeLang(name).Some? ==> RuntimeLang(name).value == "scala" || RuntimeLang(name).value == "kotlin"
  {
    assert "scala" + "/" == "scala/" && "kotlin" + "/" == "kotlin/";
    assert "scala"[0] == "scala/"[0] == 's' && "kotlin"[0] == "kotlin/"[0] == 'k';
    assert name == "kotlin" || StartsWith(name, "kotlin/") ==> name[0] == 'k';
    assert name == "scala" || StartsWith(name, "scala/") ==> name[0] == 's';
  }

  // ----- Where each prefix ends up --------------------------------------------------------------------

  /** Some class of the jar stands under the prefix. */
  predicate Ships(classes: seq<ClassInfo>, p: string)
  {
    exists c :: c in classes && !IsPlatform(c.thisClass) && PackagePrefix(c.thisClass) == Some(p)
  }

  /** The class refers to something under the prefix. */
  predicate PointsAt(c: ClassInfo, p: string)
  {
    exists r :: r in c.referenced && !IsPlatform(r) && PackagePrefix(r) == Some(p)
  }

  /** The class may go without what it refers to: it guards itself, or it is one of the
      few classes of the jar that integrate others. */
  predicate GoesWithout(classes: seq<ClassInfo>, c: ClassInfo)
  {
    || c.conditional
    || (2 * |IntegrationClasses(classes)| < |classes| && IsIntegrationClass(c.thisClass))
  }

  /** An `api` package shipped without anything else of its root. */
  ghost predicate LoneApi(classes: seq<ClassInfo>, p: string)
  {
    exists root :: p == root + "/api" && NothingElse(classes, root, p)
  }

  ghost predicate NothingElse(classes: seq<ClassInfo>, root: string, p: string)
  {
    forall s :: Ships(classes, s) && s != p ==> s != root && !StartsWith(s, root + "/")
  }

  lemma DefinedIs(classes: seq<ClassInfo>, p: string)
    ensures p in Defined(classes) <==> Ships(classes, p)
  {
    forall c: ClassInfo ensures IndexedPrefix(c.thisClass) == Some(p) <==>
                                  !IsPlatform(c.thisClass) && PackagePrefix(c.thisClass) == Some(p) {
    }
    hide IsPlatform, PackagePrefix, IndexedPrefix;
  }

  lemma ReferencesIs(c: ClassInfo, p: string)
    ensures p in References(c) <==> PointsAt(c, p)
  {
    forall r ensures IndexedPrefix(r) == Some(p) <==> !IsPlatform(r) && PackagePrefix(r) == Some(p) {
    }
    hide IsPlatform, PackagePrefix, IndexedPrefix;
  }

  lemma MinorityIs(classes: seq<ClassInfo>)
    ensures IntegrationIsMinority(classes) <==> 2 * |IntegrationClasses(classes)| < |classes|
  {
    CountIs(classes, Integration);
    assert Showing(classes, Integration) == IntegrationClasses(classes);
    hide Count, Showing, IntegrationClasses;
  }

  /** A jar owns what it ships, but for a lone foreign `api`. */
  lemma OwnedIff(classes: seq<ClassInfo>, signals: JarSignals, p: string)
    ensures p in Derivation(classes, signals).owned <==> Ships(classes, p) && !LoneApi(classes, p)
  {
    forall s ensures s in Defined(classes) <==> Ships(classes, s) {
      DefinedIs(classes, s);
    }
    LoneApiIs(classes, p);
    hide Ships, Defined, Unconditional, Referenced, Runtimes, Count;
  }

  lemma LoneApiIs(classes: seq<ClassInfo>, p: string)
    requires forall s :: s in Defined(classes) <==> Ships(classes, s)
    ensures BundledApi(Defined(classes), p) <==> LoneApi(classes, p)
  {
    hide Ships, Defined;
    if BundledApi(Defined(classes), p) {
      var root := p[..|p| - 4];
      assert p == root + "/api" && NothingElse(classes, root, p);
    }
    if root :| p == root + "/api" && NothingElse(classes, root, p) {
      assert p[..|p| - 4] == root && p[|p| - 4..] == "/api";
    }
  }

  /** A hard reference leaves the jar, and some class cannot go without it. */
  lemma HardIff(classes: seq<ClassInfo>, signals: JarSignals, p: string)
    ensures p in Derivation(classes, signals).hardRefs <==>
              !Ships(classes, p) && exists c :: c in classes && PointsAt(c, p) && !GoesWithout(classes, c)
  {
    DefinedIs(classes, p);
    MinorityIs(classes);
    forall c {
      ReferencesIs(c, p);
    }
    hide Ships, PointsAt, Defined, References, Referenced, Runtimes, Count, IntegrationClasses, IsIntegrationClass;
    hide IntegrationIsMinority, Bundled;
  }

  /** An optional one leaves the jar, and every class that has it can go without. */
  lemma OptionalIff(classes: seq<ClassInfo>, signals: JarSignals, p: string)
    ensures p in Derivation(classes, signals).optionalRefs <==>
              && !Ships(classes, p) && (exists c :: c in classes && PointsAt(c, p))
              && forall c :: c in classes && PointsAt(c, p) ==> GoesWithout(classes, c)
  {
    DefinedIs(classes, p);
    MinorityIs(classes);
    forall c {
      ReferencesIs(c, p);
    }
    hide Ships, PointsAt, Defined, References, Runtimes, Count, IntegrationClasses, IsIntegrationClass;
    hide IntegrationIsMinority, Bundled;
  }

  /** A runtime is needed when some class refers to it and the jar does not bring it. */
  lemma RuntimeNeededIff(classes: seq<ClassInfo>, signals: JarSignals, lang: string)
    ensures lang in Derivation(classes, signals).needsRuntime <==>
              && lang !in signals.providedRuntimes
              && exists c, r :: c in classes && r in c.referenced && RuntimeLang(r) == Some(lang)
    ensures Derivation(classes, signals).providesRuntime == signals.providedRuntimes
  {
    hide RuntimeLang, Defined, Bundled, Unconditional, Referenced, Count;
  }

  predicate FirstToName(classes: seq<ClassInfo>, i: nat)
    requires i < |classes|
  {
    classes[i].modId.Some? && forall k :: 0 <= k < i ==> classes[k].modId.None?
  }

  /** The mod id is that of the first class, in order, that has one. */
  lemma {:induction false} ModIdIsTheFirst(classes: seq<ClassInfo>)
    ensures FirstModId(classes).Some? <==> exists c :: c in classes && c.modId.Some?
    ensures forall i :: 0 <= i < |classes| && FirstToName(classes, i) ==> FirstModId(classes) == classes[i].modId
  {
    if classes != [] {
      ModIdIsTheFirst(classes[1..]);
      var rest := classes[1..];
      assert forall c :: c in classes <==> c == classes[0] || c in rest;
      forall i | 0 <= i < |classes| && FirstToName(classes, i) ensures FirstModId(classes) == classes[i].modId {
        if i > 0 {
          assert FirstToName(rest, i - 1);
        }
      }
    }
  }
}
