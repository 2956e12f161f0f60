/** Jar-level derivation (src/authoring/bytecode.rs): the package prefixes a jar
    owns, bundles and references, the runtimes it needs, and its side and policy,
    folded from its parsed classes. */
module JarDerivation {
  import opened Base
  import opened Texts
  import opened Sides
  import opened Sorting
  import CF = ClassFacts

  type ClassInfo = CF.ClassInfo

  datatype JarSignals = JarSignals(
    manifestCoremod: bool,
    manifestTweaker: bool,
    mixinConfigs: nat,
    fabricEnv: Option<SideClass>,
    fabricClientEntrypoint: bool,
    fabricMainEntrypoint: bool,
    metaIdentity: bool,
    displayTestTolerant: bool,
    providedRuntimes: set<string>)

  datatype Evidence = Evidence(
    classes: nat,
    contentClasses: nat,
    clientClasses: nat,
    distClientClasses: nat,
    distServerClasses: nat,
    modAnnotations: nat,
    arvStar: nat,
    sidedProxy: bool,
    loadingPluginClasses: nat,
    mcTouching: nat)

  datatype JarBytecode = JarBytecode(
    owned: set<string>,
    hardRefs: set<string>,
    optionalRefs: set<string>,
    needsRuntime: set<string>,
    providesRuntime: set<string>,
    verdict: Verdict,
    modId: Option<string>,
    evidence: Evidence)

  const COMMON_ROOTS: seq<string> := [
    "com", "net", "org", "io", "me", "dev", "gnu", "cpw", "cn", "ru", "pl", "fr", "de", "eu", "co",
    "uk", "tv", "xyz", "info", "mod", "mods", "cc", "gg", "app", "team", "site", "moe", "su"]

  const STOP_PREFIXES: seq<string> := [
    "java", "javax", "jdk", "sun", "com/sun", "kotlin", "scala", "groovy",
    "net/minecraft", "net/minecraftforge", "cpw/mods/fml", "cpw/mods/modlauncher",
    "net/neoforged", "net/fabricmc", "org/quiltmc", "com/mojang", "org/lwjgl", "org/lwjglx",
    "com/ibm/icu", "org/apache", "org/slf4j", "org/objectweb/asm", "org/ow2/asm",
    "org/spongepowered", "com/google", "io/netty", "it/unimi/dsi", "gnu/trove", "org/joml",
    "com/typesafe", "oshi", "org/jline", "joptsimple", "org/checkerframework", "org/intellij",
    "org/jetbrains", "javassist", "paulscode", "com/jcraft"]

  const CONTENT_SUPER_PREFIXES: seq<string> := [
    "net/minecraft/block/",
    "net/minecraft/item/",
    "net/minecraft/entity/",
    "net/minecraft/tileentity/",
    "net/minecraft/potion/",
    "net/minecraft/enchantment/",
    "net/minecraft/world/gen/",
    "net/minecraft/world/level/block/",
    "net/minecraft/world/item/",
    "net/minecraft/world/entity/",
    "net/minecraft/world/level/levelgen/"]

  const REGISTRY_REFS: seq<string> := [
    "net/minecraftforge/fml/common/registry/GameRegistry",
    "cpw/mods/fml/common/registry/GameRegistry",
    "net/minecraftforge/event/RegistryEvent",
    "net/minecraftforge/event/RegistryEvent$Register",
    "net/minecraftforge/registries/DeferredRegister",
    "net/neoforged/neoforge/registries/DeferredRegister"]

  const WORLD_GENERATOR := "net/minecraftforge/fml/common/IWorldGenerator"

  const INTEGRATION_SEGMENTS: seq<string> := [
    "integration", "integrations", "compat", "compatibility", "plugins", "modsupport"]

  // ----- Class names ---------------------------------------------------------------

  /** The position of the last slash (`rfind('/')`). */
  function LastSlash(s: string): (r: Option<nat>)
    ensures r.Some? ==> r.value < |s| && s[r.value] == '/' && '/' !in s[r.value + 1..]
    ensures r.None? ==> '/' !in s
  {
    if s == [] then None
    else if s[|s| - 1] == '/' then Some(|s| - 1)
    else LastSlash(s[..|s| - 1])
  }

  function Depth(root: string): nat
  {
    if root in COMMON_ROOTS then 3 else 2
  }

  function FirstOf(segs: seq<string>, depth: nat): string
  {
    Join(segs[..if depth < |segs| then depth else |segs|], "/")
  }

  /** The first segments of a class's package: three where the root is broad, else two. */
  function PackagePrefix(binary: string): Option<string>
  {
    var slash := LastSlash(binary);
    if slash.None? || slash.value == 0 then None
    else
      var segs := Split(binary[..slash.value], '/');
      Some(FirstOf(segs, Depth(segs[0])))
  }

  predicate StartsWithSegment(name: string, prefix: string)
  {
    name == prefix || StartsWith(name, prefix + "/")
  }

  predicate IsPlatform(binary: string)
  {
    exists p :: p in STOP_PREFIXES && StartsWithSegment(binary, p)
  }

  predicate IsIntegrationClass(binary: string)
  {
    var slash := LastSlash(binary);
    slash.Some? && exists seg :: seg in Split(binary[..slash.value], '/') && seg in INTEGRATION_SEGMENTS
  }

  function RuntimeLang(binary: string): Option<string>
  {
    if StartsWithSegment(binary, "scala") then Some("scala")
    else if StartsWithSegment(binary, "kotlin") then Some("kotlin")
    else None
  }

  /** A class with a package has a prefix, the class stands under it, and it is one
      to three segments. */
  lemma PrefixStandsOverItsClass(binary: string)
    ensures PackagePrefix(binary).None? <==> '/' !in binary || LastSlash(binary) == Some(0)
    ensures PackagePrefix(binary).Some? ==>
              StartsWith(binary, PackagePrefix(binary).value + "/")
                && 1 <= |Split(PackagePrefix(binary).value, '/')| <= 3
  {
    var slash := LastSlash(binary);
    if slash.Some? && slash.value > 0 {
      var pkg := binary[..slash.value];
      var segs := Split(pkg, '/');
      assert PackagePrefix(binary) == Some(FirstOf(segs, Depth(segs[0]))) && 2 <= Depth(segs[0]) <= 3;
      FirstSegments(pkg, Depth(segs[0]));
      assert binary[..slash.value + 1] == pkg + "/";
      StartsThrough(binary, pkg + "/", FirstOf(segs, Depth(segs[0])) + "/");
    }
  }

  lemma StartsThrough(s: string, mid: string, p: string)
    requires StartsWith(s, mid) && StartsWith(mid, p)
    ensures StartsWith(s, p)
  {
  }

  lemma FirstSegments(pkg: string, depth: nat)
    requires 0 < depth
    ensures var segs := Split(pkg, '/');
            var p := FirstOf(segs, depth);
            StartsWith(pkg + "/", p + "/") && 1 <= |Split(p, '/')| <= depth
  {
    var segs := Split(pkg, '/');
    JoinSplit(pkg, '/');
    hide Split, Join;
    if depth < |segs| {
      JoinFirst(segs, depth, "/");
      SplitJoin(segs[..depth], '/');
    } else {
      assert segs[..|segs|] == segs;
    }
  }

  // ----- What a class shows ------------------------------------------------------------

  datatype Mark =
    | ModAnnotated | SaysClient | SaysServer | ArvStar | Plugin | DistClient | DistServer
    | ClientClass | ContentClass | McTouching | Proxy | Integration

  predicate IsContentType(name: string)
  {
    exists p :: p in CONTENT_SUPER_PREFIXES && StartsWith(name, p)
  }

  predicate IsContentClass(c: ClassInfo)
  {
    || (c.superName.Some? && IsContentType(c.superName.value))
    || (exists i :: i in c.interfaces && (i == WORLD_GENERATOR || IsContentType(i)))
    || (exists r :: r in c.referenced && r in REGISTRY_REFS)
  }

  predicate Shows(c: ClassInfo, mark: Mark)
  {
    match mark
    case ModAnnotated => c.modSides.Some?
    case SaysClient => c.modSides.Some? && c.modSides.value.0
    case SaysServer => c.modSides.Some? && c.modSides.value.1
    case ArvStar => c.acceptableRemoteVersions == Some("*")
    case Plugin => c.loadingPlugin
    case DistClient => c.dist == Some(CF.Client)
    case DistServer => c.dist == Some(CF.Server)
    case ClientClass =>
      RefersTo(c, "net/minecraft/client/") || c.dist == Some(CF.Client)
    case ContentClass => c.dist != Some(CF.Client) && IsContentClass(c)
    case McTouching =>
      || RefersTo(c, "net/minecraft/")
      || (c.superName.Some? && StartsWith(c.superName.value, "net/minecraft/"))
    case Proxy => c.sidedProxy
    case Integration => IsIntegrationClass(c.thisClass)
  }

  function Count(classes: seq<ClassInfo>, mark: Mark): (n: nat)
    ensures n <= |classes|
  {
    if classes == [] then 0
    else Count(classes[..|classes| - 1], mark) + if Shows(classes[|classes| - 1], mark) then 1 else 0
  }

  lemma CountNext(classes: seq<ClassInfo>, k: nat, mark: Mark)
    requires k < |classes|
    ensures Count(classes[..k + 1], mark) == Count(classes[..k], mark) + if Shows(classes[k], mark) then 1 else 0
  {
    assert classes[..k + 1][..k] == classes[..k];
  }

  lemma CountsNext(classes: seq<ClassInfo>, k: nat)
    requires k < |classes|
    ensures forall mark ::
      Count(classes[..k + 1], mark) == Count(classes[..k], mark) + if Shows(classes[k], mark) then 1 else 0
  {
    hide Shows;
    forall mark {
      CountNext(classes, k, mark);
    }
  }

  lemma {:induction false} CountPositive(classes: seq<ClassInfo>, mark: Mark)
    ensures Count(classes, mark) > 0 <==> exists c :: c in classes && Shows(c, mark)
  {
    if classes != [] {
      var n := |classes| - 1;
      CountPositive(classes[..n], mark);
      hide Shows;
      assert forall c :: c in classes <==> c in classes[..n] || c == classes[n];
    }
  }

  function EvidenceOf(classes: seq<ClassInfo>): Evidence
  {
    Evidence(
      |classes|,
      Count(classes, ContentClass),
      Count(classes, ClientClass),
      Count(classes, DistClient),
      Count(classes, DistServer),
      Count(classes, ModAnnotated),
      Count(classes, ArvStar),
      Count(classes, Proxy) > 0,
      Count(classes, Plugin),
      Count(classes, McTouching))
  }

  // ----- The verdict, axis by axis -------------------------------------------------------

  /** What a jar's classes and signals add up to, each question answered on its own. */
  datatype Jar = Jar(classes: seq<ClassInfo>, signals: JarSignals) {
    predicate Shown(mark: Mark)
    {
      Count(classes, mark) > 0
    }

    function Kind(): JarKind
    {
      if Shown(ModAnnotated) || signals.metaIdentity then Mod
      else if signals.manifestCoremod || signals.manifestTweaker || signals.mixinConfigs > 0 || Shown(Plugin)
      then CoremodJar
      else Library
    }

    /** The one side the author declared, in `@Mod` flags first, then to Fabric. */
    function DeclaredSide(): Option<SideClass>
    {
      if Shown(SaysClient) != Shown(SaysServer) then Some(if Shown(SaysClient) then Client else Server)
      else if signals.fabricEnv == Some(Client) || signals.fabricEnv == Some(Server) then signals.fabricEnv
      else None
    }

    predicate Tolerates()
    {
      || (Shown(ModAnnotated) && Count(classes, ArvStar) == Count(classes, ModAnnotated))
      || signals.displayTestTolerant
    }

    predicate ClientEntrypointOnly()
    {
      signals.fabricClientEntrypoint && !signals.fabricMainEntrypoint
    }

    /** At least half of the classes touching Minecraft touch its client. */
    predicate ClientSurface()
    {
      Shown(ClientClass) && !Shown(DistServer) && 2 * Count(classes, ClientClass) >= Count(classes, McTouching)
    }

    predicate BothDeclared()
    {
      (Shown(SaysClient) && Shown(SaysServer)) || signals.fabricEnv == Some(Both)
    }

    function Side(): Option<SideClass>
    {
      if Kind() != Mod then None
      else if DeclaredSide().Some? then DeclaredSide()
      else if Shown(ContentClass) || Tolerates() then Some(Both)
      else if ClientEntrypointOnly() || ClientSurface() then Some(Client)
      else if BothDeclared() then Some(Both)
      else None
    }

    /** Only the surface heuristic is not sure of itself. */
    function Confidence(): Option<SideConfidence>
    {
      if Side().None? then None
      else if DeclaredSide().None? && !Shown(ContentClass) && !Tolerates() && !ClientEntrypointOnly() && ClientSurface()
      then Some(Low)
      else Some(High)
    }

    predicate MustMatchServer()
    {
      Kind() == Mod && DeclaredSide().None? && Shown(ContentClass) && !Tolerates()
    }

    function Policy(): Option<MatchPolicy>
    {
      if MustMatchServer() then Some(MustMatch)
      else if Side().Some? && (DeclaredSide().Some? || Side() == Some(Client) || Shown(ContentClass) || Tolerates())
      then Some(Tolerant)
      else None
    }

    function Decided(): Verdict
    {
      Verdict(Side(), Confidence(), Policy(), Kind())
    }
  }

  /** No path pairs a client side with a policy that must match, and a client side
      is soft only when nothing was declared and nothing is registered. */
  lemma NeverClientMustMatch(jar: Jar)
    ensures !(jar.Side() == Some(Client) && jar.Policy() == Some(MustMatch))
    ensures jar.Policy() == Some(MustMatch) ==> jar.Side() == Some(Both) && jar.Confidence() == Some(High)
    ensures jar.Confidence() == Some(Low) ==> jar.Side() == Some(Client) && !jar.Shown(ContentClass)
    ensures jar.Kind() != Mod ==> jar.Decided() == Verdict(None, None, None, jar.Kind())
  {
  }

  // ----- Classifying -----------------------------------------------------------------------

  lemma WhatClassShows(c: ClassInfo)
    ensures Shows(c, ModAnnotated) <==> c.modSides.Some?
    ensures Shows(c, SaysClient) <==> c.modSides.Some? && c.modSides.value.0
    ensures Shows(c, SaysServer) <==> c.modSides.Some? && c.modSides.value.1
    ensures Shows(c, ArvStar) <==> c.acceptableRemoteVersions == Some("*")
    ensures Shows(c, Plugin) <==> c.loadingPlugin
    ensures Shows(c, DistClient) <==> c.dist == Some(CF.Client)
    ensures Shows(c, DistServer) <==> c.dist == Some(CF.Server)
    ensures Shows(c, ContentClass) <==> c.dist != Some(CF.Client) && IsContentClass(c)
    ensures Shows(c, ClientClass) <==> RefersTo(c, "net/minecraft/client/") || c.dist == Some(CF.Client)
  {
  }

  predicate RefersTo(c: ClassInfo, prefix: string)
  {
    exists r :: r in c.referenced && StartsWith(r, prefix)
  }

  lemma ProxyShown(classes: seq<ClassInfo>)
    ensures (exists c :: c in classes && c.sidedProxy) <==> Count(classes, Proxy) > 0
  {
    CountPositive(classes, Proxy);
    assert forall c: ClassInfo :: Shows(c, Proxy) <==> c.sidedProxy;
  }

  /** The counting pass. */
  method Tally(classes: seq<ClassInfo>) returns (ev: Evidence, annClient: bool, annServer: bool)
    ensures ev == EvidenceOf(classes)
    ensures annClient <==> Count(classes, SaysClient) > 0
    ensures annServer <==> Count(classes, SaysServer) > 0
  {
    hide Count, Shows, IsContentClass, RefersTo, StartsWith;
    ProxyShown(classes);
    assert forall mark :: Count([], mark) == 0 by { CountNone(); }
    var proxy := exists c :: c in classes && c.sidedProxy;
    var mods, arv, plugins, distClient, distServer, client, content := 0, 0, 0, 0, 0, 0, 0;
    annClient, annServer := false, false;
    for k := 0 to |classes|
      invariant mods == Count(classes[..k], ModAnnotated)
      invariant arv == Count(classes[..k], ArvStar)
      invariant plugins == Count(classes[..k], Plugin)
      invariant distClient == Count(classes[..k], DistClient)
      invariant distServer == Count(classes[..k], DistServer)
      invariant client == Count(classes[..k], ClientClass)
      invariant content == Count(classes[..k], ContentClass)
      invariant annClient <==> Count(classes[..k], SaysClient) > 0
      invariant annServer <==> Count(classes[..k], SaysServer) > 0
    {
      var c := classes[k];
      CountsNext(classes, k);
      WhatClassShows(c);
      if c.modSides.Some? {
        mods := mods + 1;
        annClient := annClient || c.modSides.value.0;
        annServer := annServer || c.modSides.value.1;
      }
      if c.acceptableRemoteVersions == Some("*") {
        arv := arv + 1;
      }
      if c.loadingPlugin {
        plugins := plugins + 1;
      }
      match c.dist {
        case Some(Client) => distClient := distClient + 1;
        case Some(Server) => distServer := distServer + 1;
        case None =>
      }
      if RefersTo(c, "net/minecraft/client/") || c.dist == Some(CF.Client) {
        client := client + 1;
      }
      if c.dist != Some(CF.Client) && IsContentClass(c) {
        content := content + 1;
      }
    }
    assert classes[..|classes|] == classes;
    ev := Evidence(|classes|, content, client, distClient, distServer, mods, arv, proxy, plugins,
                   Count(classes, McTouching));
  }

  lemma CountNone()
    ensures forall mark :: Count([], mark) == 0
  {
  }

  /** `classify`: kind first, then the signals in their order of priority. */
  method Classify(classes: seq<ClassInfo>, signals: JarSignals) returns (v: Verdict, ev: Evidence)
    ensures v == Jar(classes, signals).Decided()
    ensures ev == EvidenceOf(classes)
  {
    var annClient, annServer;
    ev, annClient, annServer := Tally(classes);
    hide Count;
    var identity := ev.modAnnotations > 0 || signals.metaIdentity;
    var coremodMarkers := signals.manifestCoremod || signals.manifestTweaker || signals.mixinConfigs > 0
                          || ev.loadingPluginClasses > 0;
    var kind := if identity then Mod else if coremodMarkers then CoremodJar else Library;
    if kind != Mod {
      return Verdict(None, None, None, kind), ev;
    }
    var sidePin: Option<SideClass> := None;
    if annClient && !annServer {
      return Verdict(Some(Client), Some(High), Some(Tolerant), kind), ev;
    }
    if annServer && !annClient {
      return Verdict(Some(Server), Some(High), Some(Tolerant), kind), ev;
    }
    if annClient && annServer {
      sidePin := Some(Both);
    }
    match signals.fabricEnv {
      case Some(Client) => return Verdict(Some(Client), Some(High), Some(Tolerant), kind), ev;
      case Some(Server) => return Verdict(Some(Server), Some(High), Some(Tolerant), kind), ev;
      case _ =>
    }
    var tolerantMarker := (ev.modAnnotations > 0 && ev.arvStar == ev.modAnnotations) || signals.displayTestTolerant;
    if ev.contentClasses > 0 {
      return Verdict(Some(Both), Some(High), Some(if tolerantMarker then Tolerant else MustMatch), kind), ev;
    }
    if tolerantMarker {
      return Verdict(Some(Both), Some(High), Some(Tolerant), kind), ev;
    }
    if signals.fabricClientEntrypoint && !signals.fabricMainEntrypoint {
      return Verdict(Some(Client), Some(High), Some(Tolerant), kind), ev;
    }
    if ev.clientClasses > 0 && ev.distServerClasses == 0 && ev.clientClasses * 2 >= ev.mcTouching {
      return Verdict(Some(Client), Some(Low), Some(Tolerant), kind), ev;
    }
    if signals.fabricEnv == Some(Both) && sidePin.None? {
      sidePin := Some(Both);
    }
    return Verdict(sidePin, if sidePin.Some? then Some(High) else None, None, kind), ev;
  }

  // ----- Prefixes owned, bundled and referenced ------------------------------------------------

  /** The prefix a name stands for, unless it belongs to the platform. */
  function IndexedPrefix(name: string): Option<string>
  {
    if IsPlatform(name) then None else PackagePrefix(name)
  }

  function Defined(classes: seq<ClassInfo>): set<string>
  {
    set c | c in classes && IndexedPrefix(c.thisClass).Some? :: IndexedPrefix(c.thisClass).value
  }

  /** A foreign `<root>/api` with nothing else under its root. */
  predicate BundledApi(defined: set<string>, p: string)
  {
    && EndsWith(p, "/api")
    && forall s :: s in defined && s != p ==> s != p[..|p| - 4] && !StartsWith(s, p[..|p| - 4] + "/")
  }

  function Bundled(defined: set<string>): set<string>
  {
    set p | p in defined && BundledApi(defined, p)
  }

  function References(c: ClassInfo): set<string>
  {
    set r | r in c.referenced && IndexedPrefix(r).Some? :: IndexedPrefix(r).value
  }

  /** Integration packages excuse a reference only in a jar they are a minority of. */
  predicate Excused(c: ClassInfo, minority: bool)
  {
    c.conditional || (minority && IsIntegrationClass(c.thisClass))
  }

  predicate IntegrationIsMinority(classes: seq<ClassInfo>)
  {
    2 * Count(classes, Integration) < |classes|
  }

  function Referenced(classes: seq<ClassInfo>): set<string>
  {
    set c, p | c in classes && p in References(c) :: p
  }

  function Unconditional(classes: seq<ClassInfo>, minority: bool): set<string>
  {
    set c, p | c in classes && !Excused(c, minority) && p in References(c) :: p
  }

  function Runtimes(classes: seq<ClassInfo>): set<string>
  {
    set c, r | c in classes && r in c.referenced && RuntimeLang(r).Some? :: RuntimeLang(r).value
  }

  /** The first class that declares a mod id names the mod. */
  function FirstModId(classes: seq<ClassInfo>): Option<string>
  {
    if classes == [] then None
    else if classes[0].modId.Some? then classes[0].modId
    else FirstModId(classes[1..])
  }

  /** What one jar yields. */
  function Derivation(classes: seq<ClassInfo>, signals: JarSignals): JarBytecode
  {
    var defined := Defined(classes);
    var hard := Unconditional(classes, IntegrationIsMinority(classes));
    JarBytecode(
      defined - Bundled(defined),
      hard - defined,
      Referenced(classes) - hard - defined,
      Runtimes(classes) - signals.providedRuntimes,
      signals.providedRuntimes,
      Jar(classes, signals).Decided(),
      FirstModId(classes),
      EvidenceOf(classes))
  }

  method PrefixesOf(c: ClassInfo) returns (prefixes: set<string>)
    ensures prefixes == References(c)
  {
    prefixes := {};
    var referenced := c.referenced;
    var todo := referenced;
    while todo != {}
      invariant todo <= referenced
      invariant prefixes == set r | r in referenced - todo && IndexedPrefix(r).Some? :: IndexedPrefix(r).value
      decreases |todo|
    {
      var r :| r in todo;
      todo := todo - {r};
      assert referenced - todo == referenced - (todo + {r}) + {r};
      if !IsPlatform(r) {
        var p := PackagePrefix(r);
        if p.Some? {
          prefixes := prefixes + {p.value};
        }
      }
    }
  }

  method GatherReferences(classes: seq<ClassInfo>, minority: bool) returns (refAll: set<string>, refHard: set<string>)
    ensures refAll == Referenced(classes)
    ensures refHard == Unconditional(classes, minority)
  {
    refAll, refHard := {}, {};
    hide References, IsIntegrationClass;
    for k := 0 to |classes|
      invariant refAll == Referenced(classes[..k])
      invariant refHard == Unconditional(classes[..k], minority)
    {
      var c := classes[k];
      var prefixes := PrefixesOf(c);
      var conditional := c.conditional || (minority && IsIntegrationClass(c.thisClass));
      assert forall x :: x in classes[..k + 1] <==> x in classes[..k] || x == c;
      if !conditional {
        refHard := refHard + prefixes;
      }
      refAll := refAll + prefixes;
    }
    assert classes[..|classes|] == classes;
  }

  method GatherDefined(classes: seq<ClassInfo>) returns (owned: set<string>)
    ensures owned == Defined(classes)
  {
    owned := {};
    hide IsPlatform, PackagePrefix;
    for k := 0 to |classes|
      invariant owned == Defined(classes[..k])
    {
      var c := classes[k];
      assert forall x :: x in classes[..k + 1] <==> x in classes[..k] || x == c;
      if !IsPlatform(c.thisClass) {
        var p := PackagePrefix(c.thisClass);
        if p.Some? {
          owned := owned + {p.value};
        }
      }
    }
    assert classes[..|classes|] == classes;
  }

  function RuntimesOf(referenced: set<string>): set<string>
  {
    set r | r in referenced && RuntimeLang(r).Some? :: RuntimeLang(r).value
  }

  lemma RuntimesNext(classes: seq<ClassInfo>, k: nat)
    requires k < |classes|
    ensures Runtimes(classes[..k + 1]) == Runtimes(classes[..k]) + RuntimesOf(classes[k].referenced)
  {
    hide RuntimeLang;
    assert forall x :: x in classes[..k + 1] <==> x in classes[..k] || x == classes[k];
  }

  method NeededBy(referenced: set<string>, provided: set<string>) returns (needs: set<string>)
    ensures needs == RuntimesOf(referenced) - provided
  {
    needs := {};
    hide RuntimeLang;
    var todo := referenced;
    while todo != {}
      invariant todo <= referenced
      invariant needs == RuntimesOf(referenced - todo) - provided
      decreases |todo|
    {
      var r :| r in todo;
      todo := todo - {r};
      assert referenced - todo == referenced - (todo + {r}) + {r};
      var lang := RuntimeLang(r);
      if lang.Some? && lang.value !in provided {
        needs := needs + {lang.value};
      }
    }
  }

  /** Runtime languages referenced and not provided. */
  method GatherRuntimes(classes: seq<ClassInfo>, provided: set<string>) returns (needs: set<string>)
    ensures needs == Runtimes(classes) - provided
  {
    needs := {};
    for k := 0 to |classes|
      invariant needs == Runtimes(classes[..k]) - provided
    {
      hide Runtimes, RuntimesOf;
      RuntimesNext(classes, k);
      var more := NeededBy(classes[k].referenced, provided);
      needs := needs + more;
    }
    assert classes[..|classes|] == classes;
  }

  /** `aggregate`: the fold over all classes of a jar. */
  method Aggregate(classes: seq<ClassInfo>, signals: JarSignals) returns (r: JarBytecode)
    ensures r == Derivation(classes, signals)
  {
    var owned := GatherDefined(classes);
    ghost var defined := owned;
    var bundledApis := Bundled(owned);
    owned := owned - bundledApis;
    var minority := Count(classes, Integration) * 2 < |classes|;
    var refAll, refHard := GatherReferences(classes, minority);
    var hardRefs := refHard - owned;
    var optionalRefs := set p | p in refAll - refHard && p !in owned;
    hardRefs, optionalRefs := hardRefs - bundledApis, optionalRefs - bundledApis;
    assert hardRefs == refHard - defined && optionalRefs == refAll - refHard - defined;
    var needs := GatherRuntimes(classes, signals.providedRuntimes);
    var verdict, evidence := Classify(classes, signals);
    r := JarBytecode(
      owned, hardRefs, optionalRefs, needs, signals.providedRuntimes, verdict, FirstModId(classes), evidence);
  }

  // ----- Every prefix has one place ---------------------------------------------------------------

  /** Owned, bundled, hard and optional share no prefix, and together hold exactly
      the prefixes outside the platform that the jar's classes define or reference. */
  lemma EveryPrefixHasOnePlace(classes: seq<ClassInfo>, signals: JarSignals)
    ensures var d := Derivation(classes, signals);
            var bundled := Bundled(Defined(classes));
            && d.owned !! bundled && d.hardRefs !! d.optionalRefs
            && (d.owned + bundled) !! (d.hardRefs + d.optionalRefs)
            && d.owned + bundled + d.hardRefs + d.optionalRefs == Defined(classes) + Referenced(classes)
  {
    hide IndexedPrefix, Excused, BundledApi;
    assert Unconditional(classes, IntegrationIsMinority(classes)) <= Referenced(classes);
  }

  /** A hard reference has a class that needs it whatever else is installed; an
      optional one has none. */
  lemma HardMeansUnexcused(classes: seq<ClassInfo>, signals: JarSignals, p: string)
    requires p in Referenced(classes) && p !in Defined(classes)
    ensures p in Derivation(classes, signals).hardRefs <==>
              exists c :: c in classes && p in References(c) && !Excused(c, IntegrationIsMinority(classes))
    ensures p in Derivation(classes, signals).optionalRefs <==>
              forall c :: c in classes && p in References(c) ==> Excused(c, IntegrationIsMinority(classes))
  {
    hide References, Excused;
  }

  // ----- The order of the classes does not matter -----------------------------------------------------

  lemma {:induction false} CountWithout(classes: seq<ClassInfo>, i: nat, mark: Mark)
    requires i < |classes|
    ensures Count(classes, mark) == Count(classes[..i] + classes[i + 1..], mark)
      + if Shows(classes[i], mark) then 1 else 0
  {
    var n := |classes| - 1;
    if i < n {
      CountWithout(classes[..n], i, mark);
      var rest := classes[..i] + classes[i + 1..];
      assert rest[..n - 1] == classes[..n][..i] + classes[..n][i + 1..];
    } else {
      assert classes[..i] + classes[i + 1..] == classes[..n];
    }
  }

  lemma {:induction false} CountPermuted(a: seq<ClassInfo>, b: seq<ClassInfo>, mark: Mark)
    requires multiset(a) == multiset(b)
    ensures Count(a, mark) == Count(b, mark)
    decreases |a|
  {
    SameCount(a, b);
    if a != [] {
      var n := |a| - 1;
      var i := MatchLast(a, b);
      CountPermuted(a[..n], b[..i] + b[i + 1..], mark);
      CountWithout(b, i, mark);
    }
  }

  /** Everything a jar yields but its mod id is the same in any order of its classes. */
  lemma OrderDoesNotMatter(a: seq<ClassInfo>, b: seq<ClassInfo>, signals: JarSignals)
    requires multiset(a) == multiset(b)
    ensures Derivation(a, signals) == Derivation(b, signals).(modId := FirstModId(a))
  {
    SameCount(a, b);
    forall mark ensures Count(a, mark) == Count(b, mark) {
      CountPermuted(a, b, mark);
    }
    SameSets(a, b);
    SameDecision(a, b, signals);
  }

  lemma SameSets(a: seq<ClassInfo>, b: seq<ClassInfo>)
    requires forall c :: c in a <==> c in b
    ensures Defined(a) == Defined(b) && Referenced(a) == Referenced(b) && Runtimes(a) == Runtimes(b)
    ensures forall minority :: Unconditional(a, minority) == Unconditional(b, minority)
  {
    hide IndexedPrefix, References, Excused, RuntimeLang;
    forall minority ensures Unconditional(a, minority) == Unconditional(b, minority) {
    }
  }

  lemma SameDecision(a: seq<ClassInfo>, b: seq<ClassInfo>, signals: JarSignals)
    requires |a| == |b| && forall mark :: Count(a, mark) == Count(b, mark)
    ensures Jar(a, signals).Decided() == Jar(b, signals).Decided()
  {
    hide Count;
  }

  /** The mod id is the exception: two `@Mod` classes, and the first one names the jar. */
  lemma ModIdFollowsOrder(a: ClassInfo, b: ClassInfo)
    requires a.modId.Some? && b.modId.Some? && a.modId != b.modId
    ensures multiset([a, b]) == multiset([b, a]) && FirstModId([a, b]) != FirstModId([b, a])
  {
  }

  lemma {:induction false} FirstModIdIsOne(classes: seq<ClassInfo>)
    ensures FirstModId(classes).Some? ==> exists c :: c in classes && c.modId == FirstModId(classes)
    ensures FirstModId(classes).None? ==> forall c :: c in classes ==> c.modId.None?
  {
    if classes != [] {
      FirstModIdIsOne(classes[1..]);
      assert classes == [classes[0]] + classes[1..];
    }
  }

  /** No two of these classes declare different ids. */
  predicate ModIdsAgree(classes: seq<ClassInfo>)
  {
    forall c, d :: c in classes && d in classes && c.modId.Some? && d.modId.Some? ==> c.modId == d.modId
  }

  ghost predicate ModIdIndependent(classes: seq<ClassInfo>)
  {
    forall other :: multiset(other) == multiset(classes) ==> FirstModId(other) == FirstModId(classes)
  }

  /** The mod id is the same in every order exactly when all declared ids agree. */
  lemma ModIdIndependentIff(classes: seq<ClassInfo>)
    ensures ModIdIndependent(classes) <==> ModIdsAgree(classes)
  {
    if ModIdsAgree(classes) {
      forall other | multiset(other) == multiset(classes) ensures FirstModId(other) == FirstModId(classes) {
        SameCount(other, classes);
        FirstModIdIsOne(other);
        FirstModIdIsOne(classes);
      }
    }
    if ModIdIndependent(classes) {
      forall c, d | c in classes && d in classes && c.modId.Some? && d.modId.Some? ensures c.modId == d.modId {
        PutFirst(classes, c);
        PutFirst(classes, d);
      }
    }
  }

  lemma PutFirst(classes: seq<ClassInfo>, c: ClassInfo)
    requires ModIdIndependent(classes) && c in classes && c.modId.Some?
    ensures FirstModId(classes) == c.modId
  {
    var i :| 0 <= i < |classes| && classes[i] == c;
    var rest := classes[..i] + classes[i + 1..];
    Without(classes, i);
    assert multiset([c] + rest) == multiset(classes);
    assert FirstModId([c] + rest) == c.modId;
  }
}
