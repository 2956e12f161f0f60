/** Building whole classes (src/authoring/classfile.rs `build_class_spec` and the
    small builders it uses) and the theorem that parsing what was built gives
    back exactly what was asked for. */
module ClassSpecs {
  import opened Base
  import opened Utf8Codec
  import G = ClassGrammar
  import D = Descriptors
  import opened ClassFacts
  import opened ClassWriter

  datatype ClassSpec = ClassSpec(
    this_: string,
    superName: Option<string>,
    interfaces: seq<string>,
    refs: seq<string>,
    conditional: bool,
    modSides: Option<(bool, bool)>,
    modid: Option<string>,
    arv: Option<string>,
    dist: Option<(string, string)>,
    sidedProxy: bool,
    mixinValue: seq<string>,
    mixinTargets: seq<string>)
  {
    predicate HasMod()
    {
      modSides.Some? || modid.Some? || arv.Some?
    }

    predicate HasMixin()
    {
      mixinValue != [] || mixinTargets != []
    }

    /** The pool slots the class takes. */
    function Slots(): nat
    {
      4 + (if superName.Some? then 2 else 0) + 2 * |interfaces| + 2 * |refs|
      + (if conditional then 1 else 0) + (if sidedProxy then 1 else 0)
      + (if HasMod() then ModSlots() else 0)
      + (if HasMixin() then MixinSlots() else 0)
      + (if dist.Some? then 4 else 0)
      + (if HasMod() || HasMixin() || dist.Some? then 1 else 0)
    }

    function ModSlots(): nat
    {
      1 + (if modid.Some? then 2 else 0) + (if modSides.Some? then 4 else 0) + (if arv.Some? then 2 else 0)
    }

    function MixinSlots(): nat
    {
      1 + (if mixinValue != [] then 1 + |mixinValue| else 0) + (if mixinTargets != [] then 1 + |mixinTargets| else 0)
    }

    /** Within the format's limits: every text fits a Utf8 entry and the pool its count. */
    predicate Fits()
    {
      && Utf8Fits(this_) && OptionFits(superName) && AllFit(interfaces) && AllFit(refs)
      && OptionFits(modid) && OptionFits(arv) && AllFit(mixinTargets)
      && (forall t :: t in mixinValue ==> Utf8Fits(ClassDescriptor(t)))
      && (dist.Some? ==> Utf8Fits(dist.value.0) && Utf8Fits(dist.value.1))
      && Slots() <= MAX_COUNT
    }
  }

  predicate OptionFits(s: Option<string>)
  {
    s.Some? ==> Utf8Fits(s.value)
  }

  predicate AllFit(texts: seq<string>)
  {
    forall t :: t in texts ==> Utf8Fits(t)
  }

  function ClassDescriptor(t: string): string
  {
    "L" + t + ";"
  }

  // ----- What the class should parse to -------------------------------------

  const MOD_DESCRIPTOR: string := "Lnet/minecraftforge/fml/common/Mod;"
  const FORGE_COMMON: string := "Lnet/minecraftforge/fml/common/"
  const OPTIONAL_MARKER: string := FORGE_COMMON + "Optional$Method;"
  const PROXY_MARKER: string := FORGE_COMMON + "SidedProxy;"
  const ANNOTATIONS: string := "RuntimeVisibleAnnotations"

  function AsSet(texts: seq<string>): set<string>
  {
    set i | 0 <= i < |texts| :: texts[i]
  }

  function AsTexts(s: Option<string>): set<string>
  {
    if s.Some? then {s.value} else {}
  }

  /** Every text the class's pool holds. */
  function SpecTexts(spec: ClassSpec): set<string>
  {
    HeadTexts(spec)
    + (if spec.HasMod() then ModTexts(spec) else {})
    + (if spec.HasMixin() then MixinTexts(spec) else {})
    + (if spec.dist.Some? then DistTexts(spec.dist.value) else {})
    + (if spec.HasMod() || spec.HasMixin() || spec.dist.Some? then {ANNOTATIONS} else {})
  }

  function HeadTexts(spec: ClassSpec): set<string>
  {
    {OBJECT, spec.this_} + AsTexts(spec.superName) + AsSet(spec.interfaces) + AsSet(spec.refs)
    + (if spec.conditional then {OPTIONAL_MARKER} else {})
    + (if spec.sidedProxy then {PROXY_MARKER} else {})
  }

  function ModTexts(spec: ClassSpec): set<string>
  {
    {MOD_DESCRIPTOR} + ModElementTexts(spec)
  }

  function ModElementTexts(spec: ClassSpec): set<string>
  {
    (if spec.modid.Some? then {"modid", spec.modid.value} else {})
    + (if spec.modSides.Some? then {"clientSideOnly", "serverSideOnly"} else {})
    + (if spec.arv.Some? then {"acceptableRemoteVersions", spec.arv.value} else {})
  }

  function MixinTexts(spec: ClassSpec): set<string>
  {
    {MIXIN_DESCRIPTOR} + MixinElementTexts(spec)
  }

  function MixinElementTexts(spec: ClassSpec): set<string>
  {
    (if spec.mixinValue != [] then {"value"} + AsSet(Descriptors(spec.mixinValue)) else {})
    + (if spec.mixinTargets != [] then {"targets"} + AsSet(spec.mixinTargets) else {})
  }

  function Descriptors(names: seq<string>): (r: seq<string>)
    ensures |r| == |names|
  {
    seq(|names|, i requires 0 <= i < |names| => ClassDescriptor(names[i]))
  }

  function DistTexts(d: (string, string)): set<string>
  {
    {d.0, "value", "Lenum/TypeDesc;", d.1}
  }

  /** Every class reference the pool holds. */
  function SpecTypes(spec: ClassSpec): set<string>
  {
    D.PushType(OBJECT) + D.PushType(spec.this_)
    + (if spec.superName.Some? then D.PushType(spec.superName.value) else {})
    + PushAll(spec.interfaces) + PushAll(spec.refs)
  }

  function PushAll(names: seq<string>): set<string>
  {
    set i, n | 0 <= i < |names| && n in D.PushType(names[i]) :: n
  }

  function SpecMod(spec: ClassSpec): ModAnnotation
  {
    var (client, server) := if spec.modSides.Some? then spec.modSides.value else (false, false);
    ModAnnotation(NonEmpty(spec.modid), client, server, NonEmpty(spec.arv))
  }

  function Named(names: seq<string>): seq<string>
  {
    if names == [] then []
    else Named(names[..|names| - 1]) + if names[|names| - 1] != "" then [names[|names| - 1]] else []
  }

  function SlashedNames(names: seq<string>): seq<string>
  {
    if names == [] then []
    else SlashedNames(names[..|names| - 1])
         + if names[|names| - 1] != "" then [Slashed(names[|names| - 1])] else []
  }

  function SpecMixins(spec: ClassSpec): seq<string>
  {
    Named(spec.mixinValue) + SlashedNames(spec.mixinTargets)
  }

  /** A dist marker whose type is one of the loaders' names the side; its type
      is the caller's own text, so it can also spell another annotation. */
  function SpecScan(spec: ClassSpec): Scanned
  {
    var s := Scanned(if spec.HasMod() then Some(SpecMod(spec)) else None, None, SpecMixins(spec));
    match spec.dist
    case None => s
    case Some((desc, name)) =>
      if desc in MOD_DESCRIPTORS then s.(modAnnotation := Some(NO_MOD))
      else if desc in DIST_DESCRIPTORS then s.(dist := DistOf(Some(name)))
      else s
  }

  predicate AnyIn(texts: set<string>, markers: seq<string>)
  {
    exists t :: t in texts && t in markers
  }

  function SpecInfo(spec: ClassSpec): ClassInfo
  {
    var s := SpecScan(spec);
    ClassInfo(
      spec.this_,
      if spec.superName == Some(OBJECT) then None else spec.superName,
      spec.interfaces,
      SpecTypes(spec) - {spec.this_},
      AnyIn(SpecTexts(spec), OPTIONAL_MARKERS),
      match s.modAnnotation case None => None case Some(m) => Some((m.client, m.server)),
      match s.modAnnotation case None => None case Some(m) => m.modid,
      match s.modAnnotation case None => None case Some(m) => m.acceptableRemoteVersions,
      s.dist,
      AnyIn(SpecTexts(spec), SIDED_PROXY_DESCRIPTORS),
      exists i :: 0 <= i < |spec.interfaces| && spec.interfaces[i] in LOADING_PLUGIN_INTERFACES,
      s.mixinTargets)
  }

  lemma LiteralsFit()
    ensures Utf8Fits(OBJECT) && Utf8Fits(MOD_DESCRIPTOR) && Utf8Fits(MIXIN_DESCRIPTOR)
    ensures Utf8Fits(PROXY_MARKER) && Utf8Fits(OPTIONAL_MARKER) && Utf8Fits(ANNOTATIONS)
    ensures Utf8Fits("modid") && Utf8Fits("acceptableRemoteVersions")
    ensures Utf8Fits("clientSideOnly") && Utf8Fits("serverSideOnly")
    ensures Utf8Fits("value") && Utf8Fits("targets") && Utf8Fits("Lenum/TypeDesc;")
  {
    hide Encode;
  }

  // ----- Bytes of element values and annotations ------------------------------

  /** `b` is the printed form of `e`. */
  ghost predicate Prints(e: G.Elem, b: seq<byte>)
  {
    forall tail :: G.PutElem(e, tail) == b + tail
  }

  ghost predicate PrintsAnnotation(a: G.Annotation, b: seq<byte>)
  {
    forall tail :: G.PutAnnotation(a, tail) == b + tail
  }

  method Prim(tag: byte, index: u16) returns (b: seq<byte>)
    ensures Prints(G.Const(tag, index), b) && |b| == 3
  {
    b := [tag] + U2(index);
    forall tail ensures G.PutElem(G.Const(tag, index), tail) == b + tail {
      U2Appends(index, tail);
    }
  }

  method ClassVal(index: u16) returns (b: seq<byte>)
    ensures Prints(G.Elem.ClassInfo(index), b) && |b| == 3
  {
    b := [99] + U2(index);
    forall tail ensures G.PutElem(G.Elem.ClassInfo(index), tail) == b + tail {
      U2Appends(index, tail);
    }
  }

  method EnumVal(typeName: u16, constName: u16) returns (b: seq<byte>)
    ensures Prints(G.Enum(typeName, constName), b) && |b| == 5
  {
    hide G.PutU2, U2;
    U2Size(typeName);
    U2Size(constName);
    b := [101] + U2(typeName) + U2(constName);
    forall tail ensures G.PutElem(G.Enum(typeName, constName), tail) == b + tail {
      U2Appends(typeName, G.PutU2(constName, tail));
      U2Appends(constName, tail);
      Assoc([101], U2(typeName), U2(constName) + tail);
      Assoc([101] + U2(typeName), U2(constName), tail);
    }
  }

  method ArrayVal(items: seq<seq<byte>>, ghost elems: seq<G.Elem>) returns (b: seq<byte>)
    requires |items| == |elems| < 0x1_0000
    requires forall i :: 0 <= i < |items| ==> Prints(elems[i], items[i])
    ensures Prints(G.Array(elems), b)
    ensures (forall i :: 0 <= i < |items| ==> |items[i]| == 3) ==> |b| == 3 + 3 * |items|
  {
    hide G.PutU2, U2, G.PutElem;
    var body: seq<byte> := [];
    for i := 0 to |items|
      invariant (forall k :: 0 <= k < |items| ==> |items[k]| == 3) ==> |body| == 3 * i
      invariant forall tail :: G.PutElems(elems, tail) == body + G.PutElems(elems[i..], tail)
    {
      assert elems[i..][1..] == elems[i + 1..];
      forall tail ensures G.PutElems(elems, tail) == (body + items[i]) + G.PutElems(elems[i + 1..], tail) {
        assert Prints(elems[i], items[i]);
        Assoc(body, items[i], G.PutElems(elems[i + 1..], tail));
      }
      body := body + items[i];
    }
    b := [91] + U2(|items|) + body;
    assert |U2(|items|)| == 2 by { U2Size(|items|); }
    assert forall tail :: G.PutElems(elems[|items|..], tail) == tail;
    ArrayPrinted(elems, body);
  }

  lemma {:induction false} ArrayPrinted(elems: seq<G.Elem>, body: seq<byte>)
    requires |elems| < 0x1_0000
    requires forall tail :: G.PutElems(elems, tail) == body + tail
    ensures Prints(G.Array(elems), [91] + U2(|elems|) + body)
  {
    hide G.PutU2, U2, G.PutElems;
    forall tail ensures G.PutElem(G.Array(elems), tail) == ([91] + U2(|elems|) + body) + tail {
      U2Appends(|elems|, body + tail);
      Assoc([91], U2(|elems|), body + tail);
      Assoc([91] + U2(|elems|), body, tail);
    }
  }

  ghost predicate PairsPrint(ps: seq<G.Pair>, pairs: seq<(u16, seq<byte>)>)
  {
    && |ps| == |pairs| < 0x1_0000
    && forall i :: 0 <= i < |pairs| ==> ps[i].name == pairs[i].0 && Prints(ps[i].value, pairs[i].1)
  }

  lemma U2Size(x: u16)
    ensures |U2(x)| == 2
  {
  }

  /** `annotation`: the type, the number of pairs and each pair in turn. */
  method AnnotationBytes(typeIndex: u16, pairs: seq<(u16, seq<byte>)>, ghost ps: seq<G.Pair>, ghost limit: nat)
    returns (b: seq<byte>)
    requires PairsPrint(ps, pairs)
    requires |pairs| <= 4 && forall i :: 0 <= i < |pairs| ==> |pairs[i].1| <= limit
    ensures PrintsAnnotation(G.Annotation(typeIndex, ps), b)
    ensures |b| <= 4 + 4 * (2 + limit)
  {
    hide G.PutU2, U2, G.PutElem;
    U2Size(typeIndex);
    U2Size(|pairs|);
    var body: seq<byte> := [];
    for i := 0 to |pairs|
      invariant |body| <= i * (2 + limit)
      invariant forall tail :: G.PutPairs(ps, tail) == body + G.PutPairs(ps[i..], tail)
    {
      assert ps[i..][1..] == ps[i + 1..];
      forall tail ensures G.PutPairs(ps, tail)
                       == (body + U2(pairs[i].0) + pairs[i].1) + G.PutPairs(ps[i + 1..], tail)
      {
        var more := G.PutPairs(ps[i + 1..], tail);
        assert Prints(ps[i].value, pairs[i].1);
        U2Appends(pairs[i].0, pairs[i].1 + more);
        Assoc(body, U2(pairs[i].0), pairs[i].1 + more);
        Assoc(body + U2(pairs[i].0), pairs[i].1, more);
      }
      U2Size(pairs[i].0);
      body := body + U2(pairs[i].0) + pairs[i].1;
    }
    b := U2(typeIndex) + U2(|pairs|) + body;
    forall tail ensures G.PutAnnotation(G.Annotation(typeIndex, ps), tail) == b + tail {
      assert G.PutPairs(ps, tail) == body + tail;
      U2Appends(typeIndex, G.PutU2(|ps|, body + tail));
      U2Appends(|ps|, body + tail);
      Assoc(U2(typeIndex), U2(|ps|), body + tail);
      Assoc(U2(typeIndex) + U2(|ps|), body, tail);
    }
  }

  // ----- What an annotation means in every later pool --------------------------

  /** In any pool grown from `cp`, scanning `a` turns `before` into `after`. */
  ghost predicate ScansTo(a: G.Annotation, cp: seq<Cp>, before: Scanned, after: Scanned)
  {
    forall more :: Extends(cp, more) ==> ScanOne(before, a.typeIndex, CapturedPairs(a.pairs), more) == after
  }

  ghost predicate FoldsTo(ps: seq<G.Pair>, cp: seq<Cp>, ann: ModAnnotation)
  {
    forall more :: Extends(cp, more) ==> ModFold(NO_MOD, CapturedPairs(ps), more) == ann
  }

  ghost predicate StepsTo(p: G.Pair, cp: seq<Cp>, ann: ModAnnotation, next: ModAnnotation)
  {
    forall more :: Extends(cp, more) ==> ModStep(ann, CapturedPair(p.name, Captured(p.value)), more) == next
  }

  lemma FoldsOn(ps: seq<G.Pair>, cp: seq<Cp>, ann: ModAnnotation, p: G.Pair, more: seq<Cp>, next: ModAnnotation)
    requires FoldsTo(ps, cp, ann) && Extends(cp, more) && StepsTo(p, more, ann, next)
    ensures FoldsTo(ps + [p], more, next)
  {
    hide ModStep, Captured;
    var c := CapturedPair(p.name, Captured(p.value));
    forall later | Extends(more, later) ensures ModFold(NO_MOD, CapturedPairs(ps + [p]), later) == next {
      assert Extends(cp, later);
      assert CapturedPairs(ps + [p]) == CapturedPairs(ps) + [c];
      ModFoldAppend(NO_MOD, CapturedPairs(ps), c, later);
    }
  }

  lemma {:induction false} ModFoldAppend(ann: ModAnnotation, ps: seq<CapturedPair>, p: CapturedPair, cp: seq<Cp>)
    ensures ModFold(ann, ps + [p], cp) == ModStep(ModFold(ann, ps, cp), p, cp)
    decreases |ps|
  {
    hide ModStep;
    if ps == [] {
      assert ps + [p] == [p] && [p][1..] == [];
    } else {
      assert (ps + [p])[1..] == ps[1..] + [p];
      ModFoldAppend(ModStep(ann, ps[0], cp), ps[1..], p, cp);
    }
  }

  // ----- The `@Mod` annotation ---------------------------------------------------

  /** A text element: its name, then its value. */
  method TextElement(w: ClassWriter, name: string, text: string)
    returns (pair: (u16, seq<byte>), ghost p: G.Pair)
    requires w.Valid() && w.count + 2 <= MAX_COUNT && Utf8Fits(name) && Utf8Fits(text)
    modifies w
    ensures w.Valid() && w.count == old(w.count) + 2
    ensures Grew(old(w.Cps()), w.Cps(), {name, text}, {})
    ensures p.name == pair.0 && Prints(p.value, pair.1) && |pair.1| == 3 && G.GoodPair(p)
    ensures p.value.Const? && p.value.tag == G.TAG_STRING
    ensures Utf8At(w.Cps(), p.name) == Some(name) && Utf8At(w.Cps(), p.value.index) == Some(text)
  {
    hide Texts, Types, G.PutPool, G.Fills, Table;
    var n := w.Utf8(name);
    label named:
    var v := w.Utf8(text);
    GrewOn(old(w.Cps()), old@named(w.Cps()), w.Cps(), {name}, {}, {text}, {});
    assert {name} + {text} == {name, text};
    var b := Prim(G.TAG_STRING, v);
    pair, p := (n, b), G.Pair(n, G.Const(G.TAG_STRING, v));
  }

  /** A boolean element: its name, then an Integer. */
  method FlagElement(w: ClassWriter, name: string, value: bool)
    returns (pair: (u16, seq<byte>), ghost p: G.Pair)
    requires w.Valid() && w.count + 2 <= MAX_COUNT && Utf8Fits(name)
    modifies w
    ensures w.Valid() && w.count == old(w.count) + 2
    ensures Grew(old(w.Cps()), w.Cps(), {name}, {})
    ensures p.name == pair.0 && Prints(p.value, pair.1) && |pair.1| == 3 && G.GoodPair(p)
    ensures p.value.Const? && p.value.tag == G.TAG_BOOLEAN
    ensures Utf8At(w.Cps(), p.name) == Some(name)
    ensures IntegerAt(w.Cps(), p.value.index) == Some(if value then 1 else 0)
  {
    hide Texts, Types, G.PutPool, G.Fills, Table;
    var n := w.Utf8(name);
    label named:
    var v := w.Integer(if value then 1 else 0);
    GrewOn(old(w.Cps()), old@named(w.Cps()), w.Cps(), {name}, {}, {}, {});
    assert {name} + {} == {name};
    var b := Prim(G.TAG_BOOLEAN, v);
    pair, p := (n, b), G.Pair(n, G.Const(G.TAG_BOOLEAN, v));
  }

  lemma {:induction false} GoodPairsGrow(ps: seq<G.Pair>, p: G.Pair)
    requires G.GoodPairs(ps) && G.GoodPair(p)
    ensures G.GoodPairs(ps + [p])
  {
    if ps == [] {
      assert ps + [p] == [p] && [p][1..] == [];
    } else {
      assert (ps + [p])[1..] == ps[1..] + [p];
      GoodPairsGrow(ps[1..], p);
    }
  }

  /** The pairs so far, as bytes and as structure, and what they fold to. */
  ghost predicate Collected(ps: seq<G.Pair>, pairs: seq<(u16, seq<byte>)>, cp: seq<Cp>, ann: ModAnnotation)
  {
    && PairsPrint(ps, pairs) && G.GoodPairs(ps) && FoldsTo(ps, cp, ann)
    && forall i :: 0 <= i < |pairs| ==> |pairs[i].1| == 3
  }

  lemma {:induction false} CollectedOn(ps: seq<G.Pair>, pairs: seq<(u16, seq<byte>)>, cp: seq<Cp>, ann: ModAnnotation,
                    p: G.Pair, pair: (u16, seq<byte>), more: seq<Cp>, next: ModAnnotation)
    requires Collected(ps, pairs, cp, ann) && |ps| < 0xFFFF
    requires p.name == pair.0 && Prints(p.value, pair.1) && |pair.1| == 3 && G.GoodPair(p)
    requires Extends(cp, more) && StepsTo(p, more, ann, next)
    ensures Collected(ps + [p], pairs + [pair], more, next)
  {
    hide StepsTo, FoldsTo, Prints, G.GoodPair;
    GoodPairsGrow(ps, p);
    FoldsOn(ps, cp, ann, p, more, next);
  }

  method AddText(w: ClassWriter, pairs: seq<(u16, seq<byte>)>, ghost ps: seq<G.Pair>, ghost ann: ModAnnotation,
                 name: string, text: string)
    returns (pairs': seq<(u16, seq<byte>)>, ghost ps': seq<G.Pair>, ghost next: ModAnnotation)
    requires w.Valid() && w.count + 2 <= MAX_COUNT && Utf8Fits(text)
    requires name == "modid" || name == "acceptableRemoteVersions"
    requires Collected(ps, pairs, w.Cps(), ann) && |ps| < 4
    modifies w
    ensures w.Valid() && w.count == old(w.count) + 2
    ensures Grew(old(w.Cps()), w.Cps(), {name, text}, {})
    ensures Collected(ps', pairs', w.Cps(), next) && |ps'| == |ps| + 1
    ensures next == if name == "modid" then ann.(modid := NonEmpty(Some(text)))
                    else ann.(acceptableRemoteVersions := NonEmpty(Some(text)))
  {
    LiteralsFit();
    hide Utf8Fits;
    hide Texts, Types, G.PutPool, G.Fills, Table, FoldsTo, Prints, G.GoodPairs;
    ghost var before := w.Cps();
    var pair, p := TextElement(w, name, text);
    next := if name == "modid" then ann.(modid := NonEmpty(Some(text)))
            else ann.(acceptableRemoteVersions := NonEmpty(Some(text)));
    CollectedOn(ps, pairs, before, ann, p, pair, w.Cps(), next);
    pairs', ps' := pairs + [pair], ps + [p];
  }

  method AddFlag(w: ClassWriter, pairs: seq<(u16, seq<byte>)>, ghost ps: seq<G.Pair>, ghost ann: ModAnnotation,
                 name: string, value: bool)
    returns (pairs': seq<(u16, seq<byte>)>, ghost ps': seq<G.Pair>, ghost next: ModAnnotation)
    requires w.Valid() && w.count + 2 <= MAX_COUNT
    requires name == "clientSideOnly" || name == "serverSideOnly"
    requires Collected(ps, pairs, w.Cps(), ann) && |ps| < 4
    modifies w
    ensures w.Valid() && w.count == old(w.count) + 2
    ensures Grew(old(w.Cps()), w.Cps(), {name}, {})
    ensures Collected(ps', pairs', w.Cps(), next) && |ps'| == |ps| + 1
    ensures next == if name == "clientSideOnly" then ann.(client := value) else ann.(server := value)
  {
    LiteralsFit();
    hide Utf8Fits;
    hide Texts, Types, G.PutPool, G.Fills, Table, FoldsTo, Prints, G.GoodPairs;
    ghost var before := w.Cps();
    var pair, p := FlagElement(w, name, value);
    next := if name == "clientSideOnly" then ann.(client := value) else ann.(server := value);
    CollectedOn(ps, pairs, before, ann, p, pair, w.Cps(), next);
    pairs', ps' := pairs + [pair], ps + [p];
  }

  /** The elements of the `@Mod`, in the builder's order. */
  method ModPairs(w: ClassWriter, spec: ClassSpec) returns (pairs: seq<(u16, seq<byte>)>, ghost ps: seq<G.Pair>)
    requires w.Valid() && spec.Fits() && w.count + spec.ModSlots() - 1 <= MAX_COUNT
    modifies w
    ensures w.Valid() && w.count == old(w.count) + spec.ModSlots() - 1
    ensures Grew(old(w.Cps()), w.Cps(), ModElementTexts(spec), {})
    ensures Collected(ps, pairs, w.Cps(), SpecMod(spec)) && |ps| <= 4
  {
    hide Utf8Fits;
    hide Texts, Types, G.PutPool, G.Fills, Table, FoldsTo, PairsPrint, G.GoodPairs, Extends;
    pairs, ps := [], [];
    ghost var ann := NO_MOD;
    assert Collected(ps, pairs, w.Cps(), ann) by {
      NothingCollected(w.Cps());
    }
    ghost var start := w.Cps();
    ghost var texts: set<string> := {};
    GrewNone(start);
    if spec.modid.Some? {
      ghost var here := w.Cps();
      pairs, ps, ann := AddText(w, pairs, ps, ann, "modid", spec.modid.value);
      GrewOn(start, here, w.Cps(), texts, {}, {"modid", spec.modid.value}, {});
      texts := texts + {"modid", spec.modid.value};
    }
    if spec.modSides.Some? {
      var (client, server) := spec.modSides.value;
      ghost var here := w.Cps();
      pairs, ps, ann := AddFlag(w, pairs, ps, ann, "clientSideOnly", client);
      GrewOn(start, here, w.Cps(), texts, {}, {"clientSideOnly"}, {});
      here := w.Cps();
      pairs, ps, ann := AddFlag(w, pairs, ps, ann, "serverSideOnly", server);
      GrewOn(start, here, w.Cps(), texts + {"clientSideOnly"}, {}, {"serverSideOnly"}, {});
      texts := texts + {"clientSideOnly"} + {"serverSideOnly"};
    }
    if spec.arv.Some? {
      ghost var here := w.Cps();
      pairs, ps, ann := AddText(w, pairs, ps, ann, "acceptableRemoteVersions", spec.arv.value);
      GrewOn(start, here, w.Cps(), texts, {}, {"acceptableRemoteVersions", spec.arv.value}, {});
      texts := texts + {"acceptableRemoteVersions", spec.arv.value};
    }
    assert ann == SpecMod(spec);
    assert texts == ModElementTexts(spec);
  }

  lemma NothingCollected(cp: seq<Cp>)
    ensures Collected([], [], cp, NO_MOD)
  {
  }

  lemma GrewNone(cp: seq<Cp>)
    ensures Grew(cp, cp, {}, {})
  {
  }

  /** The whole `@Mod` annotation: in every later pool it scans to what was asked. */
  method ModAnnotationOf(w: ClassWriter, spec: ClassSpec) returns (b: seq<byte>, ghost a: G.Annotation)
    requires w.Valid() && spec.Fits() && w.count + spec.ModSlots() <= MAX_COUNT
    modifies w
    ensures w.Valid() && w.count == old(w.count) + spec.ModSlots()
    ensures Grew(old(w.Cps()), w.Cps(), ModTexts(spec), {})
    ensures PrintsAnnotation(a, b) && G.GoodAnnotation(a) && |b| <= 0x100
    ensures forall s: Scanned :: ScansTo(a, w.Cps(), s, s.(modAnnotation := Some(SpecMod(spec))))
  {
    LiteralsFit();
    hide Utf8Fits;
    hide Texts, Types, G.PutPool, G.Fills, Table, G.GoodPairs, Prints, ModElementTexts, PrintsAnnotation, ScansTo,
         FoldsTo, PairsPrint, Collected;
    ghost var start := w.Cps();
    var desc := w.Utf8(MOD_DESCRIPTOR);
    ghost var here := w.Cps();
    assert Utf8At(here, desc) == Some(MOD_DESCRIPTOR);
    var pairs, ps := ModPairs(w, spec);
    GrewOn(start, here, w.Cps(), {MOD_DESCRIPTOR}, {}, ModElementTexts(spec), {});
    CollectedMeans(desc, ps, pairs, w.Cps(), SpecMod(spec));
    b := AnnotationBytes(desc, pairs, ps, 3);
    a := G.Annotation(desc, ps);
    ModScans(a, here, w.Cps(), SpecMod(spec));
  }

  lemma CollectedMeans(desc: u16, ps: seq<G.Pair>, pairs: seq<(u16, seq<byte>)>, cp: seq<Cp>, ann: ModAnnotation)
    requires Collected(ps, pairs, cp, ann)
    ensures |pairs| == |ps| && forall i :: 0 <= i < |pairs| ==> |pairs[i].1| == 3
    ensures PairsPrint(ps, pairs) && G.GoodAnnotation(G.Annotation(desc, ps)) && FoldsTo(ps, cp, ann)
  {
  }

  lemma ModScans(a: G.Annotation, cp: seq<Cp>, more: seq<Cp>, ann: ModAnnotation)
    requires Utf8At(cp, a.typeIndex) == Some(MOD_DESCRIPTOR) && Extends(cp, more)
    requires FoldsTo(a.pairs, more, ann)
    ensures forall s: Scanned :: ScansTo(a, more, s, s.(modAnnotation := Some(ann)))
  {
    hide ModFold;
    assert MOD_DESCRIPTORS[0] == MOD_DESCRIPTOR;
    forall s: Scanned, later | Extends(more, later)
      ensures ScanOne(s, a.typeIndex, CapturedPairs(a.pairs), later) == s.(modAnnotation := Some(ann))
    {
      assert Utf8At(later, a.typeIndex) == Some(MOD_DESCRIPTOR);
    }
  }

  // ----- The `@Mixin` annotation --------------------------------------------------

  /** `@Mixin(value = {...})`: the targets as class constants. */
  method ClassItems(w: ClassWriter, names: seq<string>)
    returns (items: seq<seq<byte>>, ghost elems: seq<G.Elem>)
    requires w.Valid() && w.count + |names| <= MAX_COUNT
    requires forall t :: t in names ==> Utf8Fits(ClassDescriptor(t))
    modifies w
    ensures w.Valid() && w.count == old(w.count) + |names|
    ensures Grew(old(w.Cps()), w.Cps(), AsSet(Descriptors(names)), {})
    ensures |items| == |elems| == |names| && G.GoodElems(elems)
    ensures forall i :: 0 <= i < |items| ==> Prints(elems[i], items[i]) && |items[i]| == 3
    ensures ClassesRead(elems, w.Cps(), names)
  {
    hide Texts, Types, G.PutPool, G.Fills, Table, Prints, Utf8Fits, ClassesRead, StringsRead, G.GoodElems;
    items, elems := [], [];
    ghost var start := w.Cps();
    GrewNone(start);
    NothingRead(start);
    for i := 0 to |names|
      invariant w.Valid() && w.count == old(w.count) + i
      invariant |items| == |elems| == i
      invariant G.GoodElems(elems)
      invariant Grew(start, w.Cps(), AsSet(Descriptors(names[..i])), {})
      invariant forall k :: 0 <= k < i ==> Prints(elems[k], items[k]) && |items[k]| == 3
      invariant ClassesRead(elems, w.Cps(), names[..i])
    {
      ghost var here := w.Cps();
      var v := w.Utf8(ClassDescriptor(names[i]));
      var b := ClassVal(v);
      GrewOn(start, here, w.Cps(), AsSet(Descriptors(names[..i])), {}, {ClassDescriptor(names[i])}, {});
      OneMore(names, i);
      ClassesReadOn(elems, here, names[..i], w.Cps(), v, names[i]);
      GoodElemsGrow(elems, G.Elem.ClassInfo(v));
      assert names[..i + 1] == names[..i] + [names[i]];
      items, elems := items + [b], elems + [G.Elem.ClassInfo(v)];
    }
    assert names[..|names|] == names;
  }

  ghost predicate ClassesRead(elems: seq<G.Elem>, cp: seq<Cp>, names: seq<string>)
  {
    forall more :: Extends(cp, more) ==>
      ClassTargets(more, AllClassIndices(CapturedAll(elems))) == Named(names)
  }

  lemma NothingRead(cp: seq<Cp>)
    ensures ClassesRead([], cp, []) && StringsRead([], cp, []) && G.GoodElems([])
  {
  }

  lemma OneMore(names: seq<string>, i: nat)
    requires i < |names|
    ensures AsSet(Descriptors(names[..i + 1])) == AsSet(Descriptors(names[..i])) + {ClassDescriptor(names[i])}
  {
    var all, some := Descriptors(names[..i + 1]), Descriptors(names[..i]);
    assert all == some + [ClassDescriptor(names[i])];
    AsSetGrows(some, ClassDescriptor(names[i]));
  }

  lemma AsSetGrows(texts: seq<string>, t: string)
    ensures AsSet(texts + [t]) == AsSet(texts) + {t}
  {
    var all := texts + [t];
    forall x | x in AsSet(texts) + {t} ensures x in AsSet(all) {
      if x in AsSet(texts) {
        var i :| 0 <= i < |texts| && texts[i] == x;
        assert all[i] == x;
      } else {
        assert all[|texts|] == x;
      }
    }
  }

  lemma ClassesReadOn(elems: seq<G.Elem>, cp: seq<Cp>, names: seq<string>, more: seq<Cp>, v: u16, name: string)
    requires ClassesRead(elems, cp, names) && Extends(cp, more)
    requires Utf8At(more, v) == Some(ClassDescriptor(name))
    ensures ClassesRead(elems + [G.Elem.ClassInfo(v)], more, names + [name])
  {
    hide ClassTargets, ClassTarget, ClassDescriptor, AllClassIndices, CapturedAll;
    var before := AllClassIndices(CapturedAll(elems));
    ClassIndicesGrow(elems, v);
    assert (names + [name])[..|names|] == names;
    forall later | Extends(more, later)
      ensures ClassTargets(later, before + [v]) == Named(names + [name])
    {
      assert Extends(cp, later);
      ClassTargetsAppend(later, before, v);
      DescriptorNames(later, v, name);
    }
  }

  lemma ClassIndicesGrow(elems: seq<G.Elem>, v: u16)
    ensures AllClassIndices(CapturedAll(elems + [G.Elem.ClassInfo(v)])) == AllClassIndices(CapturedAll(elems)) + [v]
  {
    IndicesGrow(elems, G.Elem.ClassInfo(v));
  }

  lemma DescriptorNames(cp: seq<Cp>, v: u16, name: string)
    requires Utf8At(cp, v) == Some(ClassDescriptor(name))
    ensures ClassTarget(cp, v) == if name != "" then [name] else []
  {
    var d := ClassDescriptor(name);
    assert d[0] == 'L' && d[|d| - 1] == ';' && d[1..|d| - 1] == name;
  }

  lemma {:induction false} IndicesGrow(elems: seq<G.Elem>, e: G.Elem)
    ensures AllClassIndices(CapturedAll(elems + [e]))
         == AllClassIndices(CapturedAll(elems)) + ItemClassIndices(Captured(e))
    ensures AllStringIndices(CapturedAll(elems + [e]))
         == AllStringIndices(CapturedAll(elems)) + ItemStringIndices(Captured(e))
  {
    hide Captured, ItemClassIndices, ItemStringIndices;
    if elems == [] {
      assert elems + [e] == [e] && [e][1..] == [];
      assert CapturedAll([e]) == [Captured(e)] && [Captured(e)][1..] == [];
    } else {
      assert (elems + [e])[1..] == elems[1..] + [e];
      IndicesGrow(elems[1..], e);
      var all, some := CapturedAll(elems + [e]), CapturedAll(elems);
      assert all[1..] == CapturedAll(elems[1..] + [e]) && some[1..] == CapturedAll(elems[1..]);
      assert all[0] == some[0];
    }
  }

  lemma {:induction false} ClassTargetsAppend(cp: seq<Cp>, indices: seq<u16>, v: u16)
    ensures ClassTargets(cp, indices + [v]) == ClassTargets(cp, indices) + ClassTarget(cp, v)
  {
    hide ClassTarget;
    if indices == [] {
      assert indices + [v] == [v] && [v][1..] == [];
    } else {
      assert (indices + [v])[1..] == indices[1..] + [v];
      ClassTargetsAppend(cp, indices[1..], v);
    }
  }

  lemma {:induction false} GoodElemsGrow(elems: seq<G.Elem>, e: G.Elem)
    requires G.GoodElems(elems) && G.GoodElem(e)
    ensures G.GoodElems(elems + [e])
  {
    if elems == [] {
      assert elems + [e] == [e] && [e][1..] == [];
    } else {
      assert (elems + [e])[1..] == elems[1..] + [e];
      GoodElemsGrow(elems[1..], e);
    }
  }

  /** `@Mixin(targets = {...})`: the targets as source names. */
  method StringItems(w: ClassWriter, names: seq<string>)
    returns (items: seq<seq<byte>>, ghost elems: seq<G.Elem>)
    requires w.Valid() && w.count + |names| <= MAX_COUNT && AllFit(names)
    modifies w
    ensures w.Valid() && w.count == old(w.count) + |names|
    ensures Grew(old(w.Cps()), w.Cps(), AsSet(names), {})
    ensures |items| == |elems| == |names| && G.GoodElems(elems)
    ensures forall i :: 0 <= i < |items| ==> Prints(elems[i], items[i]) && |items[i]| == 3
    ensures StringsRead(elems, w.Cps(), names)
  {
    hide Texts, Types, G.PutPool, G.Fills, Table, Prints, Utf8Fits, ClassesRead, StringsRead, G.GoodElems;
    items, elems := [], [];
    ghost var start := w.Cps();
    GrewNone(start);
    NothingRead(start);
    for i := 0 to |names|
      invariant w.Valid() && w.count == old(w.count) + i
      invariant |items| == |elems| == i
      invariant G.GoodElems(elems)
      invariant Grew(start, w.Cps(), AsSet(names[..i]), {})
      invariant forall k :: 0 <= k < i ==> Prints(elems[k], items[k]) && |items[k]| == 3
      invariant StringsRead(elems, w.Cps(), names[..i])
    {
      ghost var here := w.Cps();
      var v := w.Utf8(names[i]);
      var b := Prim(G.TAG_STRING, v);
      GrewOn(start, here, w.Cps(), AsSet(names[..i]), {}, {names[i]}, {});
      AsSetGrows(names[..i], names[i]);
      assert names[..i + 1] == names[..i] + [names[i]];
      StringsReadOn(elems, here, names[..i], w.Cps(), v, names[i]);
      GoodElemsGrow(elems, G.Const(G.TAG_STRING, v));
      items, elems := items + [b], elems + [G.Const(G.TAG_STRING, v)];
    }
    assert names[..|names|] == names;
  }

  ghost predicate StringsRead(elems: seq<G.Elem>, cp: seq<Cp>, names: seq<string>)
  {
    forall more :: Extends(cp, more) ==>
      StringTargets(more, AllStringIndices(CapturedAll(elems))) == SlashedNames(names)
  }

  lemma StringsReadOn(elems: seq<G.Elem>, cp: seq<Cp>, names: seq<string>, more: seq<Cp>, v: u16, name: string)
    requires StringsRead(elems, cp, names) && Extends(cp, more)
    requires Utf8At(more, v) == Some(name)
    ensures StringsRead(elems + [G.Const(G.TAG_STRING, v)], more, names + [name])
  {
    hide StringTargets, Slashed, AllStringIndices, CapturedAll;
    var before := AllStringIndices(CapturedAll(elems));
    StringIndicesGrow(elems, v);
    assert (names + [name])[..|names|] == names;
    forall later | Extends(more, later)
      ensures StringTargets(later, before + [v]) == SlashedNames(names + [name])
    {
      assert Extends(cp, later);
      StringTargetsAppend(later, before, v);
    }
  }

  lemma StringIndicesGrow(elems: seq<G.Elem>, v: u16)
    ensures AllStringIndices(CapturedAll(elems + [G.Const(G.TAG_STRING, v)]))
         == AllStringIndices(CapturedAll(elems)) + [v]
  {
    IndicesGrow(elems, G.Const(G.TAG_STRING, v));
  }

  lemma {:induction false} StringTargetsAppend(cp: seq<Cp>, indices: seq<u16>, v: u16)
    ensures StringTargets(cp, indices + [v]) == StringTargets(cp, indices) + StringTarget(cp, v)
  {
    hide StringTarget;
    if indices == [] {
      assert indices + [v] == [v] && [v][1..] == [];
    } else {
      assert (indices + [v])[1..] == indices[1..] + [v];
      StringTargetsAppend(cp, indices[1..], v);
    }
  }

  ghost predicate MixinsRead(ps: seq<G.Pair>, cp: seq<Cp>, names: seq<string>)
  {
    forall more :: Extends(cp, more) ==> MixinNames(CapturedPairs(ps), more) == names
  }

  lemma MixinsReadOn(ps: seq<G.Pair>, cp: seq<Cp>, names: seq<string>, p: G.Pair, more: seq<Cp>, found: seq<string>)
    requires MixinsRead(ps, cp, names) && Extends(cp, more)
    requires MixinsRead([p], more, found)
    ensures MixinsRead(ps + [p], more, names + found)
  {
    hide MixinStep, Captured;
    assert CapturedPairs(ps + [p]) == CapturedPairs(ps) + CapturedPairs([p]);
    forall later | Extends(more, later) ensures MixinNames(CapturedPairs(ps + [p]), later) == names + found {
      assert Extends(cp, later);
      MixinNamesAppend(CapturedPairs(ps), CapturedPairs([p]), later);
    }
  }

  lemma {:induction false} MixinNamesAppend(ps: seq<CapturedPair>, qs: seq<CapturedPair>, cp: seq<Cp>)
    ensures MixinNames(ps + qs, cp) == MixinNames(ps, cp) + MixinNames(qs, cp)
  {
    hide MixinStep;
    if ps == [] {
      assert ps + qs == qs;
    } else {
      assert (ps + qs)[1..] == ps[1..] + qs;
      MixinNamesAppend(ps[1..], qs, cp);
    }
  }

  lemma ValuePairRead(cp: seq<Cp>, n: u16, more: seq<Cp>, elems: seq<G.Elem>, names: seq<string>)
    requires Utf8At(cp, n) == Some("value") && Extends(cp, more) && ClassesRead(elems, more, names)
    ensures MixinsRead([G.Pair(n, G.Array(elems))], more, Named(names))
  {
    hide ClassTargets;
    var p := CapturedPair(n, Some(Items(CapturedAll(elems))));
    assert CapturedPairs([G.Pair(n, G.Array(elems))]) == [p] && [p][1..] == [];
    forall later | Extends(more, later) ensures MixinNames([p], later) == Named(names) {
      assert Utf8At(later, n) == Some("value");
      assert MixinStep(p, later) == Named(names);
    }
  }

  lemma TargetsPairRead(cp: seq<Cp>, n: u16, more: seq<Cp>, elems: seq<G.Elem>, names: seq<string>)
    requires Utf8At(cp, n) == Some("targets") && Extends(cp, more) && StringsRead(elems, more, names)
    ensures MixinsRead([G.Pair(n, G.Array(elems))], more, SlashedNames(names))
  {
    hide StringTargets;
    var p := CapturedPair(n, Some(Items(CapturedAll(elems))));
    assert CapturedPairs([G.Pair(n, G.Array(elems))]) == [p] && [p][1..] == [];
    forall later | Extends(more, later) ensures MixinNames([p], later) == SlashedNames(names) {
      assert Utf8At(later, n) == Some("targets");
      assert MixinStep(p, later) == SlashedNames(names);
    }
  }

  /** `value = {...}` as one element. */
  method ValuePair(w: ClassWriter, names: seq<string>) returns (pair: (u16, seq<byte>), ghost p: G.Pair)
    requires w.Valid() && w.count + 1 + |names| <= MAX_COUNT
    requires forall t :: t in names ==> Utf8Fits(ClassDescriptor(t))
    modifies w
    ensures w.Valid() && w.count == old(w.count) + 1 + |names|
    ensures Grew(old(w.Cps()), w.Cps(), {"value"} + AsSet(Descriptors(names)), {})
    ensures p.name == pair.0 && Prints(p.value, pair.1) && G.GoodPair(p) && |pair.1| == 3 + 3 * |names|
    ensures MixinsRead([p], w.Cps(), Named(names))
  {
    LiteralsFit();
    hide Texts, Types, G.PutPool, G.Fills, Table, Prints, Utf8Fits, ClassesRead, MixinsRead, G.GoodElems;
    ghost var start := w.Cps();
    var n := w.Utf8("value");
    ghost var here := w.Cps();
    assert Utf8At(here, n) == Some("value");
    var items, elems := ClassItems(w, names);
    GrewOn(start, here, w.Cps(), {"value"}, {}, AsSet(Descriptors(names)), {});
    var b := ArrayVal(items, elems);
    pair, p := (n, b), G.Pair(n, G.Array(elems));
    ValuePairRead(here, n, w.Cps(), elems, names);
  }

  method TargetsPair(w: ClassWriter, names: seq<string>) returns (pair: (u16, seq<byte>), ghost p: G.Pair)
    requires w.Valid() && w.count + 1 + |names| <= MAX_COUNT && AllFit(names)
    modifies w
    ensures w.Valid() && w.count == old(w.count) + 1 + |names|
    ensures Grew(old(w.Cps()), w.Cps(), {"targets"} + AsSet(names), {})
    ensures p.name == pair.0 && Prints(p.value, pair.1) && G.GoodPair(p) && |pair.1| == 3 + 3 * |names|
    ensures MixinsRead([p], w.Cps(), SlashedNames(names))
  {
    LiteralsFit();
    hide Texts, Types, G.PutPool, G.Fills, Table, Prints, Utf8Fits, StringsRead, MixinsRead, G.GoodElems;
    ghost var start := w.Cps();
    var n := w.Utf8("targets");
    ghost var here := w.Cps();
    assert Utf8At(here, n) == Some("targets");
    var items, elems := StringItems(w, names);
    GrewOn(start, here, w.Cps(), {"targets"}, {}, AsSet(names), {});
    var b := ArrayVal(items, elems);
    pair, p := (n, b), G.Pair(n, G.Array(elems));
    TargetsPairRead(here, n, w.Cps(), elems, names);
  }

  const MIXIN_LIMIT: nat := 0x4_0000

  ghost predicate MixinCollected(ps: seq<G.Pair>, pairs: seq<(u16, seq<byte>)>, cp: seq<Cp>, names: seq<string>)
  {
    && PairsPrint(ps, pairs) && G.GoodPairs(ps) && MixinsRead(ps, cp, names) && |pairs| <= 4
    && forall i :: 0 <= i < |pairs| ==> |pairs[i].1| <= MIXIN_LIMIT
  }

  lemma {:induction false} MixinCollectedOn(
      ps: seq<G.Pair>, pairs: seq<(u16, seq<byte>)>, cp: seq<Cp>, names: seq<string>,
      p: G.Pair, pair: (u16, seq<byte>), more: seq<Cp>, found: seq<string>)
    requires MixinCollected(ps, pairs, cp, names) && |ps| < 4
    requires p.name == pair.0 && Prints(p.value, pair.1) && G.GoodPair(p) && |pair.1| <= MIXIN_LIMIT
    requires Extends(cp, more) && MixinsRead([p], more, found)
    ensures MixinCollected(ps + [p], pairs + [pair], more, names + found)
  {
    hide MixinsRead, Prints, G.GoodPair;
    GoodPairsGrow(ps, p);
    MixinsReadOn(ps, cp, names, p, more, found);
  }

  method MixinPairs(w: ClassWriter, spec: ClassSpec) returns (pairs: seq<(u16, seq<byte>)>, ghost ps: seq<G.Pair>)
    requires w.Valid() && spec.Fits() && w.count + spec.MixinSlots() - 1 <= MAX_COUNT
    modifies w
    ensures w.Valid() && w.count == old(w.count) + spec.MixinSlots() - 1
    ensures Grew(old(w.Cps()), w.Cps(), MixinElementTexts(spec), {})
    ensures MixinCollected(ps, pairs, w.Cps(), SpecMixins(spec))
  {
    hide Texts, Types, G.PutPool, G.Fills, Table, PairsPrint, G.GoodPairs, Extends, MixinsRead, Prints, Utf8Fits;
    pairs, ps := [], [];
    ghost var start := w.Cps();
    ghost var texts: set<string> := {};
    ghost var names: seq<string> := [];
    NoMixins(start);
    GrewNone(start);
    if spec.mixinValue != [] {
      var pair, p := ValuePair(w, spec.mixinValue);
      GrewOn(start, start, w.Cps(), texts, {}, {"value"} + AsSet(Descriptors(spec.mixinValue)), {});
      MixinCollectedOn(ps, pairs, start, names, p, pair, w.Cps(), Named(spec.mixinValue));
      pairs, ps, names := pairs + [pair], ps + [p], names + Named(spec.mixinValue);
      texts := texts + ({"value"} + AsSet(Descriptors(spec.mixinValue)));
    }
    assert names == Named(spec.mixinValue);
    if spec.mixinTargets != [] {
      ghost var here := w.Cps();
      var pair, p := TargetsPair(w, spec.mixinTargets);
      GrewOn(start, here, w.Cps(), texts, {}, {"targets"} + AsSet(spec.mixinTargets), {});
      MixinCollectedOn(ps, pairs, here, names, p, pair, w.Cps(), SlashedNames(spec.mixinTargets));
      pairs, ps, names := pairs + [pair], ps + [p], names + SlashedNames(spec.mixinTargets);
      texts := texts + ({"targets"} + AsSet(spec.mixinTargets));
    }
    assert names == SpecMixins(spec);
    assert texts == MixinElementTexts(spec);
  }

  lemma NoMixins(cp: seq<Cp>)
    ensures MixinCollected([], [], cp, [])
  {
  }

  method MixinAnnotationOf(w: ClassWriter, spec: ClassSpec) returns (b: seq<byte>, ghost a: G.Annotation)
    requires w.Valid() && spec.Fits() && w.count + spec.MixinSlots() <= MAX_COUNT
    modifies w
    ensures w.Valid() && w.count == old(w.count) + spec.MixinSlots()
    ensures Grew(old(w.Cps()), w.Cps(), MixinTexts(spec), {})
    ensures PrintsAnnotation(a, b) && G.GoodAnnotation(a) && |b| <= 0x20_0000
    ensures forall s: Scanned :: ScansTo(a, w.Cps(), s, s.(mixinTargets := s.mixinTargets + SpecMixins(spec)))
  {
    LiteralsFit();
    hide Utf8Fits, Texts, Types, G.PutPool, G.Fills, Table, G.GoodPairs, Prints, MixinElementTexts;
    hide PrintsAnnotation, ScansTo, MixinsRead, PairsPrint, MixinCollected;
    ghost var start := w.Cps();
    var desc := w.Utf8(MIXIN_DESCRIPTOR);
    ghost var here := w.Cps();
    assert Utf8At(here, desc) == Some(MIXIN_DESCRIPTOR);
    var pairs, ps := MixinPairs(w, spec);
    GrewOn(start, here, w.Cps(), {MIXIN_DESCRIPTOR}, {}, MixinElementTexts(spec), {});
    MixinCollectedMeans(desc, ps, pairs, w.Cps(), SpecMixins(spec));
    b := AnnotationBytes(desc, pairs, ps, MIXIN_LIMIT);
    a := G.Annotation(desc, ps);
    MixinScans(a, here, w.Cps(), SpecMixins(spec));
  }

  lemma MixinCollectedMeans(desc: u16, ps: seq<G.Pair>, pairs: seq<(u16, seq<byte>)>, cp: seq<Cp>,
                            names: seq<string>)
    requires MixinCollected(ps, pairs, cp, names)
    ensures |pairs| <= 4 && forall i :: 0 <= i < |pairs| ==> |pairs[i].1| <= MIXIN_LIMIT
    ensures PairsPrint(ps, pairs) && G.GoodAnnotation(G.Annotation(desc, ps)) && MixinsRead(ps, cp, names)
  {
  }

  lemma MixinScans(a: G.Annotation, cp: seq<Cp>, more: seq<Cp>, names: seq<string>)
    requires Utf8At(cp, a.typeIndex) == Some(MIXIN_DESCRIPTOR) && Extends(cp, more)
    requires MixinsRead(a.pairs, more, names)
    ensures forall s: Scanned :: ScansTo(a, more, s, s.(mixinTargets := s.mixinTargets + names))
  {
    hide MixinNames;
    assert MIXIN_DESCRIPTOR !in MOD_DESCRIPTORS;
    forall s: Scanned, later | Extends(more, later)
      ensures ScanOne(s, a.typeIndex, CapturedPairs(a.pairs), later)
           == s.(mixinTargets := s.mixinTargets + names)
    {
      assert Utf8At(later, a.typeIndex) == Some(MIXIN_DESCRIPTOR);
    }
  }

  // ----- The dist annotation --------------------------------------------------------

  /** What a dist annotation of type `d.0` does to a scan. */
  function DistEffect(s: Scanned, d: (string, string)): Scanned
  {
    if d.0 in MOD_DESCRIPTORS then s.(modAnnotation := Some(NO_MOD))
    else if d.0 in DIST_DESCRIPTORS && s.dist.None? then s.(dist := DistOf(Some(d.1)))
    else s
  }

  method DistAnnotationOf(w: ClassWriter, d: (string, string)) returns (b: seq<byte>, ghost a: G.Annotation)
    requires w.Valid() && w.count + 4 <= MAX_COUNT && Utf8Fits(d.0) && Utf8Fits(d.1)
    modifies w
    ensures w.Valid() && w.count == old(w.count) + 4
    ensures Grew(old(w.Cps()), w.Cps(), DistTexts(d), {})
    ensures PrintsAnnotation(a, b) && G.GoodAnnotation(a) && |b| <= 0x100
    ensures forall s: Scanned :: ScansTo(a, w.Cps(), s, DistEffect(s, d))
  {
    LiteralsFit();
    hide Utf8Fits, Texts, Types, G.PutPool, G.Fills, Table, Prints, DistEffect, PrintsAnnotation, ScansTo;
    ghost var start := w.Cps();
    var desc := w.Utf8(d.0);
    ghost var one := w.Cps();
    var name := w.Utf8("value");
    ghost var two := w.Cps();
    GrewOn(start, one, two, {d.0}, {}, {"value"}, {});
    var tname := w.Utf8("Lenum/TypeDesc;");
    ghost var three := w.Cps();
    GrewOn(start, two, three, {d.0} + {"value"}, {}, {"Lenum/TypeDesc;"}, {});
    var cname := w.Utf8(d.1);
    GrewOn(start, three, w.Cps(), {d.0} + {"value"} + {"Lenum/TypeDesc;"}, {}, {d.1}, {});
    assert {d.0} + {"value"} + {"Lenum/TypeDesc;"} + {d.1} == DistTexts(d);
    var v := EnumVal(tname, cname);
    ghost var ps := [G.Pair(name, G.Enum(tname, cname))];
    a := G.Annotation(desc, ps);
    b := AnnotationBytes(desc, [(name, v)], ps, 5);
    GoodPairsGrow([], ps[0]);
    assert [] + [ps[0]] == ps;
    DistScans(a, w.Cps(), tname, cname, name, d);
  }

  lemma DistScans(a: G.Annotation, cp: seq<Cp>, tname: u16, cname: u16, name: u16, d: (string, string))
    requires a.pairs == [G.Pair(name, G.Enum(tname, cname))]
    requires Utf8At(cp, a.typeIndex) == Some(d.0) && Utf8At(cp, cname) == Some(d.1)
    requires Utf8At(cp, name) == Some("value")
    ensures forall s: Scanned :: ScansTo(a, cp, s, DistEffect(s, d))
  {
    var p := CapturedPair(name, Some(EnumName(cname)));
    assert CapturedPairs(a.pairs) == [p] && [p][1..] == [];
    forall s: Scanned, more | Extends(cp, more)
      ensures ScanOne(s, a.typeIndex, [p], more) == DistEffect(s, d)
    {
      hide MOD_DESCRIPTORS, DIST_DESCRIPTORS, MIXIN_DESCRIPTOR;
      assert Utf8At(more, a.typeIndex) == Some(d.0) && Utf8At(more, cname) == Some(d.1);
      assert Utf8At(more, name) == Some("value");
      EnumReads(p, more, s);
    }
  }

  lemma EnumReads(p: CapturedPair, cp: seq<Cp>, s: Scanned)
    requires p.value.Some? && p.value.value.EnumName?
    ensures ModFold(NO_MOD, [p], cp) == NO_MOD
    ensures Utf8At(cp, p.name) == Some("value") ==> s.mixinTargets + MixinNames([p], cp) == s.mixinTargets
    ensures DistFold(None, [p], cp) == DistOf(Utf8At(cp, p.value.value.index))
    ensures MIXIN_DESCRIPTOR !in DIST_DESCRIPTORS
  {
    assert [p][1..] == [];
  }

  // ----- The annotations attribute ------------------------------------------------

  ghost predicate GoodAnnotations(anns: seq<G.Annotation>)
  {
    forall a :: a in anns ==> G.GoodAnnotation(a)
  }

  /** The attribute holding `annotations`: its body scans, in any pool, to the
      annotations one after the other. */
  method AnnotationsAttr(w: ClassWriter, annotations: seq<seq<byte>>, ghost anns: seq<G.Annotation>)
    returns (b: seq<byte>, ghost attr: G.Attr)
    requires w.Valid() && w.count < MAX_COUNT
    requires |annotations| == |anns| <= 3 && GoodAnnotations(anns)
    requires forall i :: 0 <= i < |anns| ==> PrintsAnnotation(anns[i], annotations[i]) && |annotations[i]| <= 0x20_0000
    modifies w
    ensures w.Valid() && w.count == old(w.count) + 1
    ensures Grew(old(w.Cps()), w.Cps(), {ANNOTATIONS}, {})
    ensures |attr.body| < 0x1_0000_0000 && Utf8At(w.Cps(), attr.name) == Some(ANNOTATIONS)
    ensures b == G.PutMany([attr], G.PutAttr, [])
    ensures forall cp :: ScanBody(attr.body, cp) == ScanAll(NOTHING, anns, cp)
  {
    LiteralsFit();
    hide Utf8Fits, Texts, Types, G.PutPool, G.Fills, Table, PrintsAnnotation, G.PutU2, G.PutU4, U2, U4, ScanBody;
    var name := w.Utf8(ANNOTATIONS);
    var rest := Concat(annotations, anns);
    var body := U2(|annotations|) + rest;
    U2Size(|annotations|);
    b := U2(name) + U4(|body|) + body;
    attr := G.Attr(name, body);
    AttrPrinted(attr);
    BodyScans(anns, rest, body);
  }

  method Concat(annotations: seq<seq<byte>>, ghost anns: seq<G.Annotation>) returns (rest: seq<byte>)
    requires |annotations| == |anns| <= 3
    requires forall i :: 0 <= i < |anns| ==> PrintsAnnotation(anns[i], annotations[i]) && |annotations[i]| <= 0x20_0000
    ensures G.PutMany(anns, G.PutAnnotation, []) == rest && |rest| <= 3 * 0x20_0000
  {
    hide G.PutAnnotation;
    rest := [];
    for i := 0 to |annotations|
      invariant |rest| <= i * 0x20_0000
      invariant G.PutMany(anns, G.PutAnnotation, []) == rest + G.PutMany(anns[i..], G.PutAnnotation, [])
    {
      assert anns[i..][1..] == anns[i + 1..];
      assert PrintsAnnotation(anns[i], annotations[i]);
      Assoc(rest, annotations[i], G.PutMany(anns[i + 1..], G.PutAnnotation, []));
      rest := rest + annotations[i];
    }
  }

  lemma AttrPrinted(attr: G.Attr)
    requires |attr.body| < 0x1_0000_0000
    ensures G.PutMany([attr], G.PutAttr, []) == U2(attr.name) + U4(|attr.body|) + attr.body
  {
    hide G.PutU2, G.PutU4, U2, U4;
    assert [attr][1..] == [];
    assert attr.body + [] == attr.body;
    U2Appends(attr.name, G.PutU4(|attr.body|, attr.body));
    U4Appends(|attr.body|, attr.body);
    Assoc(U2(attr.name), U4(|attr.body|), attr.body);
  }

  lemma BodyScans(anns: seq<G.Annotation>, rest: seq<byte>, body: seq<byte>)
    requires |anns| <= 3 && GoodAnnotations(anns)
    requires rest == G.PutMany(anns, G.PutAnnotation, []) && body == U2(|anns|) + rest
    ensures forall cp :: ScanBody(body, cp) == ScanAll(NOTHING, anns, cp)
  {
    hide G.PutU2, U2, G.ReadU2, ScanAll;
    U2Appends(|anns|, rest);
    G.U2Law(|anns|, rest);
    PrefixRead(anns);
  }

  lemma {:induction false} PrefixRead(anns: seq<G.Annotation>)
    requires GoodAnnotations(anns)
    ensures AnnotationPrefix(|anns|, G.PutMany(anns, G.PutAnnotation, [])) == anns
  {
    hide G.PutAnnotation, G.ReadAnnotation;
    if anns != [] {
      assert anns[0] in anns;
      G.AnnotationLaw(anns[0], G.PutMany(anns[1..], G.PutAnnotation, []));
      PrefixRead(anns[1..]);
      assert anns == [anns[0]] + anns[1..];
    }
  }

  // ----- The class ------------------------------------------------------------------

  /** The class and its superclass; the Object entry stands in when there is none. */
  method Names(w: ClassWriter, spec: ClassSpec) returns (thisIndex: u16, superIndex: u16)
    requires w.Valid() && w.count == 0 && w.entries == [] && spec.Fits()
    modifies w
    ensures w.Valid() && w.count == 4 + (if spec.superName.Some? then 2 else 0)
    ensures Grew(Table([]), w.Cps(), NameTexts(spec), NameTypes(spec))
    ensures Resolves(w.Cps(), thisIndex, spec.this_)
    ensures superIndex != 0
    ensures Resolves(w.Cps(), superIndex, if spec.superName.Some? then spec.superName.value else OBJECT)
  {
    LiteralsFit();
    hide Utf8Fits, Texts, Types, G.PutPool, G.Fills, Table, D.PushType;
    ghost var start := w.Cps();
    var obj := w.Class(OBJECT);
    ghost var texts, types := {OBJECT}, D.PushType(OBJECT);
    ghost var here := w.Cps();
    assert Resolves(here, obj, OBJECT);
    thisIndex := w.Class(spec.this_);
    GrewOn(start, here, w.Cps(), texts, types, {spec.this_}, D.PushType(spec.this_));
    texts, types := texts + {spec.this_}, types + D.PushType(spec.this_);
    here := w.Cps();
    assert Resolves(here, thisIndex, spec.this_);
    superIndex := obj;
    if spec.superName.Some? {
      superIndex := w.Class(spec.superName.value);
      GrewOn(start, here, w.Cps(), texts, types, {spec.superName.value}, D.PushType(spec.superName.value));
      texts, types := texts + {spec.superName.value}, types + D.PushType(spec.superName.value);
    }
    assert texts == NameTexts(spec) && types == NameTypes(spec);
  }

  function NameTexts(spec: ClassSpec): set<string>
  {
    {OBJECT, spec.this_} + AsTexts(spec.superName)
  }

  function NameTypes(spec: ClassSpec): set<string>
  {
    D.PushType(OBJECT) + D.PushType(spec.this_)
    + (if spec.superName.Some? then D.PushType(spec.superName.value) else {})
  }

  /** The class, its supertypes, its references and its markers. */
  method Head(w: ClassWriter, spec: ClassSpec)
    returns (thisIndex: u16, superIndex: u16, interfaces: seq<u16>)
    requires w.Valid() && w.count == 0 && w.entries == [] && spec.Fits()
    modifies w
    ensures w.Valid() && w.count == HeadSlots(spec)
    ensures Texts(w.Cps()) == HeadTexts(spec) && Types(w.Cps()) == SpecTypes(spec) && Plain(w.Cps())
    ensures Resolves(w.Cps(), thisIndex, spec.this_)
    ensures superIndex != 0
    ensures Resolves(w.Cps(), superIndex, if spec.superName.Some? then spec.superName.value else OBJECT)
    ensures AllResolve(w.Cps(), interfaces, spec.interfaces)
  {
    hide Utf8Fits, Texts, Types, G.PutPool, G.Fills, Table, PushAll, AsSet, NameTexts, NameTypes, Plain, Resolves,
         AllResolve, HeadTexts, SpecTypes, MarkerTexts, Grew, Extends, Encode;
    ghost var start := Table([]);
    thisIndex, superIndex := Names(w, spec);
    ghost var texts, types := NameTexts(spec), NameTypes(spec);
    ghost var named := w.Cps();
    interfaces := ClassList(w, spec.interfaces);
    GrewExtends(named, w.Cps(), AsSet(spec.interfaces), PushAll(spec.interfaces));
    GrewOn(start, named, w.Cps(), texts, types, AsSet(spec.interfaces), PushAll(spec.interfaces));
    texts, types := texts + AsSet(spec.interfaces), types + PushAll(spec.interfaces);
    ghost var listed := w.Cps();
    var refs := ClassList(w, spec.refs);
    GrewExtends(listed, w.Cps(), AsSet(spec.refs), PushAll(spec.refs));
    GrewOn(start, listed, w.Cps(), texts, types, AsSet(spec.refs), PushAll(spec.refs));
    texts, types := texts + AsSet(spec.refs), types + PushAll(spec.refs);
    ghost var here := w.Cps();
    Markers(w, spec);
    GrewExtends(here, w.Cps(), MarkerTexts(spec), {});
    GrewOn(start, here, w.Cps(), texts, types, MarkerTexts(spec), {});
    texts := texts + MarkerTexts(spec);
    ExtendsOn(listed, here, w.Cps());
    ExtendsOn(named, listed, w.Cps());
    AllResolveOn(listed, w.Cps(), interfaces, spec.interfaces);
    ResolvesOn(named, w.Cps(), thisIndex, spec.this_);
    ResolvesOn(named, w.Cps(), superIndex, if spec.superName.Some? then spec.superName.value else OBJECT);
    HeadUnion(w.Cps(), spec);
  }

  lemma GrewExtends(cp: seq<Cp>, more: seq<Cp>, texts: set<string>, types: set<string>)
    requires Grew(cp, more, texts, types)
    ensures Extends(cp, more)
  {
  }

  lemma ExtendsOn(a: seq<Cp>, b: seq<Cp>, c: seq<Cp>)
    requires Extends(a, b) && Extends(b, c)
    ensures Extends(a, c)
  {
  }

  lemma ResolvesOn(cp: seq<Cp>, more: seq<Cp>, i: u16, name: string)
    requires Resolves(cp, i, name) && Extends(cp, more)
    ensures Resolves(more, i, name)
  {
  }

  lemma HeadUnion(cp: seq<Cp>, spec: ClassSpec)
    requires Grew(Table([]), cp, NameTexts(spec) + AsSet(spec.interfaces) + AsSet(spec.refs) + MarkerTexts(spec),
                  NameTypes(spec) + PushAll(spec.interfaces) + PushAll(spec.refs) + {})
    ensures Texts(cp) == HeadTexts(spec) && Types(cp) == SpecTypes(spec) && Plain(cp)
  {
    EmptyPool();
    hide Texts, Types, AsSet, PushAll, Table, Plain;
  }

  lemma EmptyPool()
    ensures Texts(Table([])) == {} && Types(Table([])) == {} && Plain(Table([]))
  {
  }

  function MarkerTexts(spec: ClassSpec): set<string>
  {
    (if spec.conditional then {OPTIONAL_MARKER} else {}) + (if spec.sidedProxy then {PROXY_MARKER} else {})
  }

  method Markers(w: ClassWriter, spec: ClassSpec)
    requires w.Valid() && w.count + 2 <= MAX_COUNT + (if spec.conditional then 0 else 1)
      + (if spec.sidedProxy then 0 else 1)
    modifies w
    ensures w.Valid()
    ensures w.count == old(w.count) + (if spec.conditional then 1 else 0) + (if spec.sidedProxy then 1 else 0)
    ensures Grew(old(w.Cps()), w.Cps(), MarkerTexts(spec), {})
  {
    LiteralsFit();
    hide Utf8Fits, Texts, Types, G.PutPool, G.Fills, Table;
    ghost var start := w.Cps();
    ghost var texts: set<string> := {};
    GrewNone(start);
    if spec.conditional {
      var i := w.Utf8(OPTIONAL_MARKER);
      GrewOn(start, start, w.Cps(), {}, {}, {OPTIONAL_MARKER}, {});
      texts := {} + {OPTIONAL_MARKER};
    }
    if spec.sidedProxy {
      ghost var here := w.Cps();
      var i := w.Utf8(PROXY_MARKER);
      GrewOn(start, here, w.Cps(), texts, {}, {PROXY_MARKER}, {});
      texts := texts + {PROXY_MARKER};
    }
    assert texts == MarkerTexts(spec);
  }

  function HeadSlots(spec: ClassSpec): nat
  {
    4 + (if spec.superName.Some? then 2 else 0) + 2 * |spec.interfaces| + 2 * |spec.refs|
    + (if spec.conditional then 1 else 0) + (if spec.sidedProxy then 1 else 0)
  }

  ghost predicate Resolves(cp: seq<Cp>, i: u16, name: string)
  {
    ClassNameAt(cp, i) == Some(name)
  }

  ghost predicate AllResolve(cp: seq<Cp>, indices: seq<u16>, names: seq<string>)
  {
    |indices| == |names| && forall i :: 0 <= i < |names| ==> Resolves(cp, indices[i], names[i])
  }

  lemma AllResolveOn(cp: seq<Cp>, more: seq<Cp>, indices: seq<u16>, names: seq<string>)
    requires AllResolve(cp, indices, names) && Extends(cp, more)
    ensures AllResolve(more, indices, names)
  {
    forall i | 0 <= i < |names| ensures Resolves(more, indices[i], names[i]) {
      assert Resolves(cp, indices[i], names[i]);
    }
  }

  method ClassList(w: ClassWriter, names: seq<string>) returns (indices: seq<u16>)
    requires w.Valid() && w.count + 2 * |names| <= MAX_COUNT && AllFit(names)
    modifies w
    ensures w.Valid() && w.count == old(w.count) + 2 * |names|
    ensures Grew(old(w.Cps()), w.Cps(), AsSet(names), PushAll(names))
    ensures AllResolve(w.Cps(), indices, names)
  {
    hide Utf8Fits, Texts, Types, G.PutPool, G.Fills, Table, D.PushType;
    ghost var start := w.Cps();
    GrewNone(start);
    indices := [];
    for i := 0 to |names|
      invariant w.Valid() && w.count == old(w.count) + 2 * i
      invariant Grew(start, w.Cps(), AsSet(names[..i]), PushAll(names[..i]))
      invariant AllResolve(w.Cps(), indices, names[..i])
    {
      ghost var here := w.Cps();
      var index := w.Class(names[i]);
      GrewOn(start, here, w.Cps(), AsSet(names[..i]), PushAll(names[..i]), {names[i]}, D.PushType(names[i]));
      assert names[..i + 1] == names[..i] + [names[i]];
      AsSetGrows(names[..i], names[i]);
      PushAllGrows(names[..i], names[i]);
      AllResolveOn(here, w.Cps(), indices, names[..i]);
      indices := indices + [index];
    }
    assert names[..|names|] == names;
  }

  lemma PushAllGrows(names: seq<string>, name: string)
    ensures PushAll(names + [name]) == PushAll(names) + D.PushType(name)
  {
    hide D.PushType;
    var all := names + [name];
    forall n | n in PushAll(names) + D.PushType(name) ensures n in PushAll(all) {
      if n in PushAll(names) {
        var i :| 0 <= i < |names| && n in D.PushType(names[i]);
        assert all[i] == names[i];
      } else {
        assert all[|names|] == name;
      }
    }
  }

  /** The annotations asked for, in order: the mod, the mixin, the dist. */
  method Annotations(w: ClassWriter, spec: ClassSpec) returns (bytes: seq<seq<byte>>, ghost anns: seq<G.Annotation>)
    requires w.Valid() && spec.Fits() && w.count == HeadSlots(spec)
    modifies w
    ensures w.Valid() && w.count == spec.Slots() - (if anns != [] then 1 else 0)
    ensures anns != [] <==> spec.HasMod() || spec.HasMixin() || spec.dist.Some?
    ensures Grew(old(w.Cps()), w.Cps(), AnnotationTexts(spec), {})
    ensures |bytes| == |anns| <= 3 && GoodAnnotations(anns)
    ensures forall i :: 0 <= i < |anns| ==> PrintsAnnotation(anns[i], bytes[i]) && |bytes[i]| <= 0x20_0000
    ensures AllScan(anns, w.Cps(), SpecScan(spec))
  {
    hide Utf8Fits, Texts, Types, G.PutPool, G.Fills, Table, PrintsAnnotation, ScansTo, AllScan, Extends,
         G.GoodAnnotation;
    hide ModTexts, MixinTexts, DistTexts, SpecMod, SpecMixins, DistEffect;
    bytes, anns := [], [];
    ghost var start := w.Cps();
    ghost var texts: set<string> := {};
    ghost var s := NOTHING;
    GrewNone(start);
    NoneScan(start);
    if spec.HasMod() {
      var b, a := ModAnnotationOf(w, spec);
      GrewOn(start, start, w.Cps(), {}, {}, ModTexts(spec), {});
      ghost var next := s.(modAnnotation := Some(SpecMod(spec)));
      AllScanOn(anns, start, s, a, w.Cps(), next);
      bytes, anns, s, texts := bytes + [b], anns + [a], next, {} + ModTexts(spec);
    }
    if spec.HasMixin() {
      ghost var here := w.Cps();
      var b, a := MixinAnnotationOf(w, spec);
      GrewOn(start, here, w.Cps(), texts, {}, MixinTexts(spec), {});
      ghost var next := s.(mixinTargets := s.mixinTargets + SpecMixins(spec));
      AllScanOn(anns, here, s, a, w.Cps(), next);
      bytes, anns, s, texts := bytes + [b], anns + [a], next, texts + MixinTexts(spec);
    }
    assert s == BeforeDist(spec) by { MixinsOrNone(spec); }
    if spec.dist.Some? {
      ghost var here := w.Cps();
      var b, a := DistAnnotationOf(w, spec.dist.value);
      GrewOn(start, here, w.Cps(), texts, {}, DistTexts(spec.dist.value), {});
      ghost var next := DistEffect(s, spec.dist.value);
      AllScanOn(anns, here, s, a, w.Cps(), next);
      bytes, anns, s, texts := bytes + [b], anns + [a], next, texts + DistTexts(spec.dist.value);
    }
    assert texts == AnnotationTexts(spec);
    assert s == SpecScan(spec) by { DistLast(spec); }
  }

  function AnnotationTexts(spec: ClassSpec): set<string>
  {
    (if spec.HasMod() then ModTexts(spec) else {})
    + (if spec.HasMixin() then MixinTexts(spec) else {})
    + (if spec.dist.Some? then DistTexts(spec.dist.value) else {})
  }

  function BeforeDist(spec: ClassSpec): Scanned
  {
    Scanned(if spec.HasMod() then Some(SpecMod(spec)) else None, None, SpecMixins(spec))
  }

  lemma MixinsOrNone(spec: ClassSpec)
    ensures !spec.HasMixin() ==> SpecMixins(spec) == []
    ensures [] + SpecMixins(spec) == SpecMixins(spec)
  {
  }

  lemma DistLast(spec: ClassSpec)
    ensures SpecScan(spec)
         == if spec.dist.Some? then DistEffect(BeforeDist(spec), spec.dist.value) else BeforeDist(spec)
  {
  }

  /** In every later pool the annotations scan to `after`. */
  ghost predicate AllScan(anns: seq<G.Annotation>, cp: seq<Cp>, after: Scanned)
  {
    forall more :: Extends(cp, more) ==> ScanAll(NOTHING, anns, more) == after
  }

  lemma NoneScan(cp: seq<Cp>)
    ensures AllScan([], cp, NOTHING)
  {
  }

  lemma AllScanOn(anns: seq<G.Annotation>, cp: seq<Cp>, before: Scanned, a: G.Annotation, more: seq<Cp>, after: Scanned)
    requires AllScan(anns, cp, before) && Extends(cp, more) && ScansTo(a, more, before, after)
    ensures AllScan(anns + [a], more, after)
  {
    hide ScanOne, ScanAll;
    forall later | Extends(more, later) ensures ScanAll(NOTHING, anns + [a], later) == after {
      assert Extends(cp, later);
      ScanAllAppend(NOTHING, anns, a, later);
    }
  }

  lemma {:induction false} ScanAllAppend(s: Scanned, anns: seq<G.Annotation>, a: G.Annotation, cp: seq<Cp>)
    ensures ScanAll(s, anns + [a], cp)
         == ScanOne(ScanAll(s, anns, cp), a.typeIndex, CapturedPairs(a.pairs), cp)
    decreases |anns|
  {
    hide ScanOne, CapturedPairs;
    if anns == [] {
      assert anns + [a] == [a] && [a][1..] == [];
    } else {
      assert (anns + [a])[1..] == anns[1..] + [a];
      ScanAllAppend(ScanOne(s, anns[0].typeIndex, CapturedPairs(anns[0].pairs), cp), anns[1..], a, cp);
    }
  }

  /** `build_class_spec`: for every spec within the format's limits the bytes are
      one class file with nothing after it, and its facts are exactly what the
      spec says, the empty and repeated cases included. */
  method BuildClassSpec(spec: ClassSpec) returns (bytes: seq<byte>)
    requires spec.Fits()
    ensures G.ReadClass(bytes).Parsed? && G.ReadClass(bytes).rest == []
    ensures Facts(G.ReadClass(bytes).value) == Some(SpecInfo(spec))
  {
    hide Utf8Fits, Texts, Types, G.PutPool, G.Fills, Table, PrintsAnnotation, AllScan, G.GoodAnnotation;
    hide Facts, G.ReadClass, SpecInfo, SpecScan, AnnotationTexts, HeadTexts, SpecTypes, Extends;
    var w := new ClassWriter();
    var thisIndex, superIndex, interfaces := Head(w, spec);
    ghost var headed := w.Cps();
    var anns, scanned := Annotations(w, spec);
    ghost var annotated := w.Cps();
    var attrBytes: seq<byte>, n: u16 := [], 0;
    ghost var attrs: seq<G.Attr> := [];
    if anns != [] {
      var b, attr := AnnotationsAttr(w, anns, scanned);
      GrewOn(headed, annotated, w.Cps(), AnnotationTexts(spec), {}, {ANNOTATIONS}, {});
      attrBytes, n, attrs := b, 1, [attr];
    }
    bytes := w.BuildWith(thisIndex, superIndex, interfaces, attrBytes, n, attrs);
    ghost var cf := G.ReadClass(bytes).value;
    FactsOfSpec(spec, headed, annotated, w.Cps(), cf, scanned);
  }

  lemma FactsOfSpec(spec: ClassSpec, headed: seq<Cp>, annotated: seq<Cp>, cp: seq<Cp>, cf: G.ClassFile,
                    anns: seq<G.Annotation>)
    requires Texts(headed) == HeadTexts(spec) && Types(headed) == SpecTypes(spec) && Plain(headed)
    requires Resolves(headed, cf.thisClass, spec.this_) && cf.superClass != 0
    requires Resolves(headed, cf.superClass, if spec.superName.Some? then spec.superName.value else OBJECT)
    requires AllResolve(headed, cf.interfaces, spec.interfaces)
    requires Grew(headed, annotated, AnnotationTexts(spec), {}) && AllScan(anns, annotated, SpecScan(spec))
    requires anns != [] <==> spec.HasMod() || spec.HasMixin() || spec.dist.Some?
    requires cp == Table(cf.pool) && cf.fields == [] && cf.methods == []
    requires if anns == [] then cp == annotated && cf.attributes == []
             else Grew(headed, cp, AnnotationTexts(spec) + {ANNOTATIONS}, {}) && Extends(annotated, cp)
                  && |cf.attributes| == 1 && Utf8At(cp, cf.attributes[0].name) == Some(ANNOTATIONS)
                  && ScanBody(cf.attributes[0].body, cp) == ScanAll(NOTHING, anns, cp)
    ensures Facts(cf) == Some(SpecInfo(spec))
  {
    hide Texts, Types, Table, ScanBody, ScanAll, AnnotationTexts, HeadTexts, SpecTypes, SpecScan, Conditional;
    hide HasMarker, AttrFold, PoolTypes, MemberTypes, NamedInterfaces, AnyIn, SpecTexts, Plain;
    AllResolveOn(headed, cp, cf.interfaces, spec.interfaces);
    NamedAll(cp, cf.interfaces, spec.interfaces);
    SupersKept(headed, cp, cf, spec);
    TextsUnion(spec);
    assert Texts(cp) == SpecTexts(spec);
    NoGuards(cp, OPTIONAL_MARKERS);
    MarkersAreTexts(cp, OPTIONAL_MARKERS);
    MarkersAreTexts(cp, SIDED_PROXY_DESCRIPTORS);
    NoMembers(cp);
    TypesArePoolTypes(cp);
    AttributesFold(spec, cf, cp, anns);
  }

  lemma SupersKept(headed: seq<Cp>, cp: seq<Cp>, cf: G.ClassFile, spec: ClassSpec)
    requires Extends(headed, cp) && cf.superClass != 0
    requires Resolves(headed, cf.thisClass, spec.this_)
    requires Resolves(headed, cf.superClass, if spec.superName.Some? then spec.superName.value else OBJECT)
    ensures ClassNameAt(cp, cf.thisClass) == Some(spec.this_)
    ensures SuperName(cp, cf.superClass) == if spec.superName == Some(OBJECT) then None else spec.superName
  {
  }

  lemma NoMembers(cp: seq<Cp>)
    ensures MemberTypes(cp, []) == {}
  {
  }

  lemma TypesArePoolTypes(cp: seq<Cp>)
    ensures Types(cp) == PoolTypes(cp, |cp|)
  {
  }

  lemma TextsUnion(spec: ClassSpec)
    ensures SpecTexts(spec) == HeadTexts(spec) + AnnotationTexts(spec)
              + (if spec.HasMod() || spec.HasMixin() || spec.dist.Some? then {ANNOTATIONS} else {})
  {
    hide HeadTexts, ModTexts, MixinTexts, DistTexts;
  }

  lemma AttributesFold(spec: ClassSpec, cf: G.ClassFile, cp: seq<Cp>, anns: seq<G.Annotation>)
    requires if anns == [] then cf.attributes == []
             else |cf.attributes| == 1 && Utf8At(cp, cf.attributes[0].name) == Some(ANNOTATIONS)
                  && ScanBody(cf.attributes[0].body, cp) == ScanAll(NOTHING, anns, cp)
    requires ScanAll(NOTHING, anns, cp) == SpecScan(spec)
    ensures var s, f := SpecScan(spec), AttrFold(NO_FACTS, cf.attributes, cp);
            && f.dist == s.dist && f.mixinTargets == s.mixinTargets
            && f.modSides == (match s.modAnnotation case None => None case Some(m) => Some((m.client, m.server)))
            && f.modId == (match s.modAnnotation case None => None case Some(m) => m.modid)
            && f.acceptableRemoteVersions
               == (match s.modAnnotation case None => None case Some(m) => m.acceptableRemoteVersions)
  {
    hide ScanBody, SpecScan;
    if anns != [] {
      assert cf.attributes == [cf.attributes[0]] && cf.attributes[1..] == [];
      assert AttrFold(NO_FACTS, cf.attributes, cp) == AttrStep(NO_FACTS, cf.attributes[0], cp);
      assert [] + SpecScan(spec).mixinTargets == SpecScan(spec).mixinTargets;
    }
  }

  lemma {:induction false} NamedAll(cp: seq<Cp>, indices: seq<u16>, names: seq<string>)
    requires AllResolve(cp, indices, names)
    ensures NamedInterfaces(cp, indices) == names
  {
    if indices != [] {
      var n := |indices| - 1;
      forall i | 0 <= i < n ensures Resolves(cp, indices[..n][i], names[..n][i]) {
        assert Resolves(cp, indices[i], names[i]);
      }
      NamedAll(cp, indices[..n], names[..n]);
      assert Resolves(cp, indices[n], names[n]);
      assert names == names[..n] + [names[n]];
    }
  }

  lemma MarkersAreTexts(cp: seq<Cp>, markers: seq<string>)
    ensures HasMarker(cp, markers) <==> AnyIn(Texts(cp), markers)
  {
    if AnyIn(Texts(cp), markers) {
      var t :| t in Texts(cp) && t in markers;
      var i :| 0 <= i < |cp| && cp[i].Utf8? && cp[i].text == t;
      assert cp[i].text in markers;
    }
    if HasMarker(cp, markers) {
      var i :| 0 <= i < |cp| && cp[i].Utf8? && cp[i].text in markers;
      assert cp[i].text in Texts(cp);
    }
  }

  lemma NoGuards(cp: seq<Cp>, markers: seq<string>)
    requires Plain(cp)
    ensures Conditional(cp) <==> HasMarker(cp, OPTIONAL_MARKERS)
  {
  }
}
