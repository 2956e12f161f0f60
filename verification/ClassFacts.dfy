/** What a parsed class file says (src/authoring/classfile.rs): the resolved
    constant pool and the facts read off a well-formed class file, defined on
    its structure and not on its bytes. */
module ClassFacts {
  import opened Base
  import opened Utf8Codec
  import G = ClassGrammar
  import D = Descriptors

  // ----- The resolved pool ---------------------------------------------------

  /** A pool slot, as far as the facts depend on it; `Skip` stands where no entry can
      be referred to, in slot 0 and behind a Long or Double. */
  datatype Cp =
    | Utf8(text: string)
    | Class(name: u16)
    | NameAndType(name: u16, descriptor: u16)
    | Ref(class_: u16, nameAndType: u16)
    | Integer(value: i32)
    | Other
    | Skip

  function Slots(c: G.Const): (s: seq<Cp>)
    ensures |s| == c.Width()
  {
    match c
    case Utf8(raw) => [Utf8(Lossy(raw))]
    case Integer(bits) => [Integer(Signed(bits))]
    case Wide(_, _, _) => [Other, Skip]
    case Class(name) => [Class(name)]
    case Member(_, cls, nt) => [Ref(cls, nt)]
    case NameAndType(name, desc) => [NameAndType(name, desc)]
    case _ => [Other]
  }

  function PoolSlots(pool: seq<G.Const>): seq<Cp>
  {
    if pool == [] then [] else PoolSlots(pool[..|pool| - 1]) + Slots(pool[|pool| - 1])
  }

  /** The pool as it is indexed: slot 0 is unused. */
  function Table(pool: seq<G.Const>): seq<Cp>
  {
    [Skip] + PoolSlots(pool)
  }

  lemma TableGrows(done: seq<G.Const>, e: G.Const)
    ensures Table(done + [e]) == Table(done) + Slots(e)
  {
    assert (done + [e])[..|done|] == done;
  }

  function Utf8At(cp: seq<Cp>, i: u16): Option<string>
  {
    if i < |cp| && cp[i].Utf8? then Some(cp[i].text) else None
  }

  function ClassNameAt(cp: seq<Cp>, i: u16): Option<string>
  {
    if i < |cp| && cp[i].Class? then Utf8At(cp, cp[i].name) else None
  }

  function NtNameAt(cp: seq<Cp>, i: u16): Option<string>
  {
    if i < |cp| && cp[i].NameAndType? then Utf8At(cp, cp[i].name) else None
  }

  function IntegerAt(cp: seq<Cp>, i: u16): Option<i32>
  {
    if i < |cp| && cp[i].Integer? then Some(cp[i].value) else None
  }

  // ----- Vocabulary ----------------------------------------------------------

  const MOD_DESCRIPTORS: seq<string> := [
    "Lnet/minecraftforge/fml/common/Mod;",
    "Lcpw/mods/fml/common/Mod;",
    "Lnet/neoforged/fml/common/Mod;"]

  const MIXIN_DESCRIPTOR: string := "Lorg/spongepowered/asm/mixin/Mixin;"

  const DIST_DESCRIPTORS: seq<string> := [
    "Lcpw/mods/fml/relauncher/SideOnly;",
    "Lnet/minecraftforge/fml/relauncher/SideOnly;",
    "Lnet/minecraftforge/api/distmarker/OnlyIn;",
    "Lnet/fabricmc/api/Environment;"]

  const SIDED_PROXY_DESCRIPTORS: seq<string> := [
    "Lnet/minecraftforge/fml/common/SidedProxy;",
    "Lcpw/mods/fml/common/SidedProxy;"]

  const LOADING_PLUGIN_INTERFACES: seq<string> := [
    "net/minecraftforge/fml/relauncher/IFMLLoadingPlugin",
    "cpw/mods/fml/relauncher/IFMLLoadingPlugin"]

  const OPTIONAL_MARKERS: seq<string> := [
    "Lnet/minecraftforge/fml/common/Optional$Interface;",
    "Lnet/minecraftforge/fml/common/Optional$Method;",
    "Lnet/minecraftforge/fml/common/Optional$InterfaceList;",
    "Lcpw/mods/fml/common/Optional$Interface;",
    "Lcpw/mods/fml/common/Optional$Method;",
    "Lcpw/mods/fml/common/Optional$InterfaceList;",
    "Lmezz/jei/api/JEIPlugin;",
    "Lmezz/jei/api/JeiPlugin;",
    "Lmcp/mobius/waila/api/WailaPlugin;",
    "Lsnownee/jade/api/WailaPlugin;",
    "Lcrafttweaker/annotations/ZenRegister;"]

  const MOD_LOADED_GUARDS: seq<(string, string)> := [
    ("cpw/mods/fml/common/Loader", "isModLoaded"),
    ("net/minecraftforge/fml/common/Loader", "isModLoaded"),
    ("net/minecraftforge/fml/ModList", "isLoaded"),
    ("net/neoforged/fml/ModList", "isLoaded"),
    ("net/fabricmc/loader/api/FabricLoader", "isModLoaded"),
    ("org/quiltmc/loader/api/QuiltLoader", "isModLoaded")]

  const OBJECT: string := "java/lang/Object"

  datatype Dist = Client | Server

  datatype ClassInfo = ClassInfo(
    thisClass: string,
    superName: Option<string>,
    interfaces: seq<string>,
    referenced: set<string>,
    conditional: bool,
    modSides: Option<(bool, bool)>,
    modId: Option<string>,
    acceptableRemoteVersions: Option<string>,
    dist: Option<Dist>,
    sidedProxy: bool,
    loadingPlugin: bool,
    mixinTargets: seq<string>)

  // ----- Element values as captured ------------------------------------------

  /** Enum type names and nested annotations are read past and not kept. */
  datatype ElemValue =
    | Prim(tag: byte, index: u16)
    | EnumName(index: u16)
    | ClassConst(index: u16)
    | Items(items: seq<Option<ElemValue>>)

  datatype CapturedPair = CapturedPair(name: u16, value: Option<ElemValue>)

  function Captured(e: G.Elem): Option<ElemValue>
    decreases e
  {
    match e
    case Const(tag, index) => Some(Prim(tag, index))
    case Enum(_, constName) => Some(EnumName(constName))
    case ClassInfo(index) => Some(ClassConst(index))
    case Nested(_) => None
    case Array(items) => Some(Items(CapturedAll(items)))
  }

  function CapturedAll(items: seq<G.Elem>): (r: seq<Option<ElemValue>>)
    ensures |r| == |items|
    decreases items
  {
    if items == [] then [] else [Captured(items[0])] + CapturedAll(items[1..])
  }

  function CapturedPairs(pairs: seq<G.Pair>): (r: seq<CapturedPair>)
    ensures |r| == |pairs|
  {
    seq(|pairs|, i requires 0 <= i < |pairs| => CapturedPair(pairs[i].name, Captured(pairs[i].value)))
  }

  function ClassIndices(v: ElemValue): seq<u16>
    decreases v
  {
    match v
    case ClassConst(i) => [i]
    case Items(items) => AllClassIndices(items)
    case _ => []
  }

  function AllClassIndices(items: seq<Option<ElemValue>>): seq<u16>
    decreases items
  {
    if items == [] then [] else ItemClassIndices(items[0]) + AllClassIndices(items[1..])
  }

  function ItemClassIndices(item: Option<ElemValue>): seq<u16>
    decreases item
  {
    match item case Some(v) => ClassIndices(v) case None => []
  }

  function StringIndices(v: ElemValue): seq<u16>
    decreases v
  {
    match v
    case Prim(tag, i) => if tag == G.TAG_STRING then [i] else []
    case Items(items) => AllStringIndices(items)
    case _ => []
  }

  function AllStringIndices(items: seq<Option<ElemValue>>): seq<u16>
    decreases items
  {
    if items == [] then [] else ItemStringIndices(items[0]) + AllStringIndices(items[1..])
  }

  function ItemStringIndices(item: Option<ElemValue>): seq<u16>
    decreases item
  {
    match item case Some(v) => StringIndices(v) case None => []
  }

  // ----- What one annotations attribute yields ---------------------------------

  datatype ModAnnotation = ModAnnotation(
    modid: Option<string>, client: bool, server: bool, acceptableRemoteVersions: Option<string>)

  datatype Scanned = Scanned(modAnnotation: Option<ModAnnotation>, dist: Option<Dist>, mixinTargets: seq<string>)

  const NO_MOD := ModAnnotation(None, false, false, None)
  const NOTHING := Scanned(None, None, [])

  function NonEmpty(s: Option<string>): Option<string>
  {
    if s.Some? && s.value == "" then None else s
  }

  function Flag(cp: seq<Cp>, i: u16): bool
  {
    match IntegerAt(cp, i) case Some(v) => v != 0 case None => false
  }

  /** One element of an `@Mod`; a later element of the same name replaces an earlier one. */
  function ModStep(ann: ModAnnotation, p: CapturedPair, cp: seq<Cp>): ModAnnotation
  {
    match (Utf8At(cp, p.name), p.value)
    case (Some(name), Some(Prim(tag, i))) =>
      if name == "modid" && tag == G.TAG_STRING then ann.(modid := NonEmpty(Utf8At(cp, i)))
      else if name == "clientSideOnly" && tag == G.TAG_BOOLEAN then ann.(client := Flag(cp, i))
      else if name == "serverSideOnly" && tag == G.TAG_BOOLEAN then ann.(server := Flag(cp, i))
      else if name == "acceptableRemoteVersions" && tag == G.TAG_STRING
        then ann.(acceptableRemoteVersions := NonEmpty(Utf8At(cp, i)))
      else ann
    case _ => ann
  }

  function ModFold(ann: ModAnnotation, pairs: seq<CapturedPair>, cp: seq<Cp>): ModAnnotation
    decreases |pairs|
  {
    if pairs == [] then ann else ModFold(ModStep(ann, pairs[0], cp), pairs[1..], cp)
  }

  /** `Lnet/foo/Bar;` names `net/foo/Bar`; arrays and primitives name nothing. */
  function BinaryName(descriptor: string): Option<string>
  {
    if |descriptor| > 2 && descriptor[0] == 'L' && descriptor[|descriptor| - 1] == ';'
    then Some(descriptor[1..|descriptor| - 1]) else None
  }

  function Slashed(s: string): (r: string)
    ensures |r| == |s|
  {
    seq(|s|, i requires 0 <= i < |s| => if s[i] == '.' then '/' else s[i])
  }

  function ClassTarget(cp: seq<Cp>, i: u16): seq<string>
  {
    match Utf8At(cp, i)
    case Some(d) => (match BinaryName(d) case Some(name) => [name] case None => [])
    case None => []
  }

  function StringTarget(cp: seq<Cp>, i: u16): seq<string>
  {
    match NonEmpty(Utf8At(cp, i)) case Some(s) => [Slashed(s)] case None => []
  }

  function ClassTargets(cp: seq<Cp>, indices: seq<u16>): seq<string>
  {
    if indices == [] then [] else ClassTarget(cp, indices[0]) + ClassTargets(cp, indices[1..])
  }

  function StringTargets(cp: seq<Cp>, indices: seq<u16>): seq<string>
  {
    if indices == [] then [] else StringTarget(cp, indices[0]) + StringTargets(cp, indices[1..])
  }

  function MixinStep(p: CapturedPair, cp: seq<Cp>): seq<string>
  {
    match (Utf8At(cp, p.name), p.value)
    case (Some(name), Some(v)) =>
      if name == "value" then ClassTargets(cp, ClassIndices(v))
      else if name == "targets" then StringTargets(cp, StringIndices(v))
      else []
    case _ => []
  }

  function MixinNames(pairs: seq<CapturedPair>, cp: seq<Cp>): seq<string>
  {
    if pairs == [] then [] else MixinStep(pairs[0], cp) + MixinNames(pairs[1..], cp)
  }

  function DistOf(name: Option<string>): Option<Dist>
  {
    if name == Some("CLIENT") then Some(Client)
    else if name == Some("SERVER") || name == Some("DEDICATED_SERVER") then Some(Server)
    else None
  }

  function DistFold(dist: Option<Dist>, pairs: seq<CapturedPair>, cp: seq<Cp>): Option<Dist>
    decreases |pairs|
  {
    if pairs == [] then dist
    else
      var next := match pairs[0].value
        case Some(EnumName(i)) => DistOf(Utf8At(cp, i))
        case _ => dist;
      DistFold(next, pairs[1..], cp)
  }

  function ScanOne(out: Scanned, typeIndex: u16, pairs: seq<CapturedPair>, cp: seq<Cp>): Scanned
  {
    match Utf8At(cp, typeIndex)
    case None => out
    case Some(desc) =>
      if desc in MOD_DESCRIPTORS then out.(modAnnotation := Some(ModFold(NO_MOD, pairs, cp)))
      else if desc == MIXIN_DESCRIPTOR then out.(mixinTargets := out.mixinTargets + MixinNames(pairs, cp))
      else if desc in DIST_DESCRIPTORS && out.dist.None? then out.(dist := DistFold(None, pairs, cp))
      else out
  }

  function ScanAll(out: Scanned, anns: seq<G.Annotation>, cp: seq<Cp>): Scanned
    decreases |anns|
  {
    if anns == [] then out
    else ScanAll(ScanOne(out, anns[0].typeIndex, CapturedPairs(anns[0].pairs), cp), anns[1..], cp)
  }

  /** The annotations of a body up to its count or the first malformed one. */
  function AnnotationPrefix(n: nat, b: seq<byte>): seq<G.Annotation>
  {
    if n == 0 then []
    else
      match G.ReadAnnotation(b)
      case Malformed => []
      case Parsed(a, rest) => [a] + AnnotationPrefix(n - 1, rest)
  }

  function ScanBody(body: seq<byte>, cp: seq<Cp>): Scanned
  {
    match G.ReadU2(body)
    case Malformed => NOTHING
    case Parsed(n, rest) => ScanAll(NOTHING, AnnotationPrefix(n, rest), cp)
  }

  // ----- What the class attributes yield ----------------------------------------

  datatype AttrFacts = AttrFacts(
    modSides: Option<(bool, bool)>, modId: Option<string>, acceptableRemoteVersions: Option<string>,
    dist: Option<Dist>, mixinTargets: seq<string>)

  const NO_FACTS := AttrFacts(None, None, None, None, [])

  predicate IsAnnotations(name: Option<string>)
  {
    name == Some("RuntimeVisibleAnnotations") || name == Some("RuntimeInvisibleAnnotations")
  }

  function OrElse<T>(a: Option<T>, b: Option<T>): Option<T>
  {
    if a.Some? then a else b
  }

  function AttrStep(f: AttrFacts, a: G.Attr, cp: seq<Cp>): AttrFacts
  {
    if !IsAnnotations(Utf8At(cp, a.name)) then f
    else
      var s := ScanBody(a.body, cp);
      var g := match s.modAnnotation
        case None => f
        case Some(ann) => f.(modSides := Some((ann.client, ann.server)),
                             modId := OrElse(f.modId, ann.modid),
                             acceptableRemoteVersions :=
                               OrElse(f.acceptableRemoteVersions, ann.acceptableRemoteVersions));
      g.(dist := OrElse(g.dist, s.dist), mixinTargets := g.mixinTargets + s.mixinTargets)
  }

  function AttrFold(f: AttrFacts, attrs: seq<G.Attr>, cp: seq<Cp>): AttrFacts
    decreases |attrs|
  {
    if attrs == [] then f else AttrFold(AttrStep(f, attrs[0], cp), attrs[1..], cp)
  }

  // ----- References and markers ------------------------------------------------

  function DescriptorTypes(cp: seq<Cp>, i: u16): set<string>
  {
    match Utf8At(cp, i) case Some(d) => D.ObjectTypes(d) case None => {}
  }

  function SlotTypes(cp: seq<Cp>, e: Cp): set<string>
  {
    match e
    case Class(name) => (match Utf8At(cp, name) case Some(n) => D.PushType(n) case None => {})
    case NameAndType(_, desc) => DescriptorTypes(cp, desc)
    case _ => {}
  }

  function PoolTypes(cp: seq<Cp>, k: nat): set<string>
    requires k <= |cp|
  {
    set i, n | 0 <= i < k && n in SlotTypes(cp, cp[i]) :: n
  }

  function MemberTypes(cp: seq<Cp>, ms: seq<G.MemberInfo>): set<string>
  {
    set i, n | 0 <= i < |ms| && n in DescriptorTypes(cp, ms[i].descriptor) :: n
  }

  predicate HasMarker(cp: seq<Cp>, descriptors: seq<string>)
  {
    exists i :: 0 <= i < |cp| && cp[i].Utf8? && cp[i].text in descriptors
  }

  predicate IsGuard(cp: seq<Cp>, e: Cp)
  {
    && e.Ref?
    && ClassNameAt(cp, e.class_).Some? && NtNameAt(cp, e.nameAndType).Some?
    && (ClassNameAt(cp, e.class_).value, NtNameAt(cp, e.nameAndType).value) in MOD_LOADED_GUARDS
  }

  predicate Conditional(cp: seq<Cp>)
  {
    HasMarker(cp, OPTIONAL_MARKERS) || exists i :: 0 <= i < |cp| && IsGuard(cp, cp[i])
  }

  function NamedInterfaces(cp: seq<Cp>, indices: seq<u16>): seq<string>
  {
    if indices == [] then []
    else NamedInterfaces(cp, indices[..|indices| - 1])
         + match ClassNameAt(cp, indices[|indices| - 1]) case Some(n) => [n] case None => []
  }

  /** A superclass worth recording: there is one, it resolves, and it is not Object. */
  function SuperName(cp: seq<Cp>, i: u16): Option<string>
  {
    if i == 0 || ClassNameAt(cp, i) == Some(OBJECT) then None else ClassNameAt(cp, i)
  }

  /** The facts of a class file; `None` when it does not name itself. */
  function Facts(cf: G.ClassFile): Option<ClassInfo>
  {
    var cp := Table(cf.pool);
    match ClassNameAt(cp, cf.thisClass)
    case None => None
    case Some(name) =>
      var a := AttrFold(NO_FACTS, cf.attributes, cp);
      var interfaces := NamedInterfaces(cp, cf.interfaces);
      Some(ClassInfo(
        name, SuperName(cp, cf.superClass), interfaces,
        PoolTypes(cp, |cp|) + MemberTypes(cp, cf.fields) + MemberTypes(cp, cf.methods) - {name},
        Conditional(cp), a.modSides, a.modId, a.acceptableRemoteVersions, a.dist,
        HasMarker(cp, SIDED_PROXY_DESCRIPTORS),
        exists i :: 0 <= i < |interfaces| && interfaces[i] in LOADING_PLUGIN_INTERFACES,
        a.mixinTargets))
  }
}
