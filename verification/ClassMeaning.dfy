/** What the facts of a class file mean, told from its resolved pool, members and
    attributes (src/authoring/classfile.rs): each field of the facts on its own. */
module ClassMeaning {
  import opened Base
  import opened Picking
  import G = ClassGrammar
  import D = Descriptors
  import opened ClassFacts

  // ----- The pool ----------------------------------------------------------------------

  /** Entry `i` names a class. */
  predicate NamesClass(cp: seq<Cp>, i: nat, name: string)
  {
    && i < |cp| && cp[i].Class? && cp[i].name < |cp|
    && cp[cp[i].name] == Cp.Utf8(name)
  }

  /** Entry `i` names a member of some class. */
  predicate NamesMember(cp: seq<Cp>, i: nat, name: string)
  {
    && i < |cp| && cp[i].NameAndType? && cp[i].name < |cp|
    && cp[cp[i].name] == Cp.Utf8(name)
  }

  /** Some entry is a reference to this member of this class. */
  predicate RefersToMember(cp: seq<Cp>, owner: string, member: string)
  {
    exists i :: 0 <= i < |cp| && RefersAt(cp, cp[i], owner, member)
  }

  predicate RefersAt(cp: seq<Cp>, e: Cp, owner: string, member: string)
  {
    e.Ref? && NamesClass(cp, e.class_, owner) && NamesMember(cp, e.nameAndType, member)
  }

  lemma NamesAgree(cp: seq<Cp>)
    ensures forall i: u16, name :: NamesClass(cp, i, name) <==> ClassNameAt(cp, i) == Some(name)
    ensures forall i: u16, name :: NamesMember(cp, i, name) <==> NtNameAt(cp, i) == Some(name)
  {
  }

  /** A class counts as conditional exactly when its pool holds one of the optional
      markers, or a reference to one of the mod-loaded guards. */
  lemma ConditionalIff(cf: G.ClassFile, info: ClassInfo)
    requires Facts(cf) == Some(info)
    ensures var cp := Table(cf.pool);
            info.conditional <==>
              || (exists t :: t in OPTIONAL_MARKERS && Cp.Utf8(t) in cp)
              || exists owner, member :: (owner, member) in MOD_LOADED_GUARDS && RefersToMember(cp, owner, member)
  {
    var cp := Table(cf.pool);
    assert info.conditional == Conditional(cp);
    MarkerIff(cp, OPTIONAL_MARKERS);
    GuardIff(cp);
    hide Facts, HasMarker, IsGuard, RefersToMember, Table;
  }

  lemma MarkerIff(cp: seq<Cp>, markers: seq<string>)
    ensures HasMarker(cp, markers) <==> exists t :: t in markers && Cp.Utf8(t) in cp
  {
    if t :| t in markers && Cp.Utf8(t) in cp {
      var i :| 0 <= i < |cp| && cp[i] == Cp.Utf8(t);
      assert cp[i].Utf8? && cp[i].text in markers;
    }
    if HasMarker(cp, markers) {
      var i :| 0 <= i < |cp| && cp[i].Utf8? && cp[i].text in markers;
      assert Cp.Utf8(cp[i].text) in cp;
    }
  }

  lemma GuardIff(cp: seq<Cp>)
    ensures (exists i :: 0 <= i < |cp| && IsGuard(cp, cp[i])) <==>
            exists owner, member :: (owner, member) in MOD_LOADED_GUARDS && RefersToMember(cp, owner, member)
  {
    forall e ensures IsGuard(cp, e) <==>
                       exists owner, member :: (owner, member) in MOD_LOADED_GUARDS && RefersAt(cp, e, owner, member) {
      GuardAt(cp, e);
    }
    hide IsGuard, RefersAt, MOD_LOADED_GUARDS;
  }

  lemma GuardAt(cp: seq<Cp>, e: Cp)
    ensures IsGuard(cp, e) <==>
              exists owner, member :: (owner, member) in MOD_LOADED_GUARDS && RefersAt(cp, e, owner, member)
  {
    NamesAgree(cp);
    hide MOD_LOADED_GUARDS, NamesClass, NamesMember, ClassNameAt, NtNameAt;
    if IsGuard(cp, e) {
      var owner, member := ClassNameAt(cp, e.class_).value, NtNameAt(cp, e.nameAndType).value;
      assert (owner, member) in MOD_LOADED_GUARDS && RefersAt(cp, e, owner, member);
    }
  }

  lemma SidedProxyIff(cf: G.ClassFile, info: ClassInfo)
    requires Facts(cf) == Some(info)
    ensures info.sidedProxy <==> exists t :: t in SIDED_PROXY_DESCRIPTORS && Cp.Utf8(t) in Table(cf.pool)
  {
    MarkerIff(Table(cf.pool), SIDED_PROXY_DESCRIPTORS);
    assert info.sidedProxy == HasMarker(Table(cf.pool), SIDED_PROXY_DESCRIPTORS);
  }

  // ----- Names and references ----------------------------------------------------------------

  /** The class names itself; a superclass is told unless there is none, it does not
      resolve, or it is Object. */
  lemma NamesAre(cf: G.ClassFile)
    ensures Facts(cf).Some? <==> exists name :: NamesClass(Table(cf.pool), cf.thisClass, name)
    ensures Facts(cf).Some? ==> NamesClass(Table(cf.pool), cf.thisClass, Facts(cf).value.thisClass)
    ensures Facts(cf).Some? ==> forall name ::
              Facts(cf).value.superName == Some(name) <==>
                cf.superClass != 0 && name != OBJECT && NamesClass(Table(cf.pool), cf.superClass, name)
  {
    var cp := Table(cf.pool);
    ClassNameMeans(cp, cf.thisClass);
    SuperNameMeans(cp, cf.superClass);
    FactsExist(cf);
    if Facts(cf).Some? {
      FactsName(cf);
    }
    hide *;
  }

  lemma ClassNameMeans(cp: seq<Cp>, i: u16)
    ensures ClassNameAt(cp, i).Some? <==> exists name :: NamesClass(cp, i, name)
    ensures ClassNameAt(cp, i).Some? ==> NamesClass(cp, i, ClassNameAt(cp, i).value)
  {
    assert ClassNameAt(cp, i).Some? ==> NamesClass(cp, i, ClassNameAt(cp, i).value);
  }

  lemma SuperNameMeans(cp: seq<Cp>, i: u16)
    ensures forall name :: SuperName(cp, i) == Some(name) <==> i != 0 && name != OBJECT && NamesClass(cp, i, name)
  {
    hide OBJECT;
  }

  lemma FactsExist(cf: G.ClassFile)
    ensures Facts(cf).Some? <==> ClassNameAt(Table(cf.pool), cf.thisClass).Some?
  {
  }

  lemma FactsName(cf: G.ClassFile)
    requires Facts(cf).Some?
    ensures var cp := Table(cf.pool);
            && ClassNameAt(cp, cf.thisClass) == Some(Facts(cf).value.thisClass)
            && Facts(cf).value.superName == SuperName(cp, cf.superClass)
  {
  }

  /** The interfaces are the listed ones that resolve, in order: each listed one that
      does stands behind those before it. */
  lemma InterfacesAre(cp: seq<Cp>, indices: seq<u16>, more: seq<u16>, i: u16)
    ensures NamedInterfaces(cp, []) == []
    ensures forall name :: NamesClass(cp, i, name) ==>
              NamedInterfaces(cp, indices + [i] + more)
              == NamedInterfaces(cp, indices) + [name] + NamedInterfaces(cp, more)
    ensures (forall name :: !NamesClass(cp, i, name)) ==>
              NamedInterfaces(cp, indices + [i] + more) == NamedInterfaces(cp, indices) + NamedInterfaces(cp, more)
  {
    OneInterface(cp, i);
    NamedAppend(cp, indices + [i], more);
    NamedAppend(cp, indices, [i]);
    hide *;
    assert forall a: seq<string> :: a + [] == a;
  }

  lemma OneInterface(cp: seq<Cp>, i: u16)
    ensures NamedInterfaces(cp, []) == []
    ensures forall name :: NamesClass(cp, i, name) ==> NamedInterfaces(cp, [i]) == [name]
    ensures (forall name :: !NamesClass(cp, i, name)) ==> NamedInterfaces(cp, [i]) == []
  {
    NamesAgree(cp);
    assert NamedInterfaces(cp, [i])
        == NamedInterfaces(cp, []) + match ClassNameAt(cp, i) case Some(n) => [n] case None => [];
    hide NamesClass, ClassNameAt;
    if ClassNameAt(cp, i).Some? {
      assert NamesClass(cp, i, ClassNameAt(cp, i).value);
    }
  }

  lemma {:induction false} NamedAppend(cp: seq<Cp>, a: seq<u16>, b: seq<u16>)
    ensures NamedInterfaces(cp, a + b) == NamedInterfaces(cp, a) + NamedInterfaces(cp, b)
  {
    if b == [] {
      assert a + b == a;
    } else {
      var init, last := b[..|b| - 1], b[|b| - 1];
      assert (a + b)[..|a + b| - 1] == a + init && (a + b)[|a + b| - 1] == last;
      NamedAppend(cp, a, init);
    }
  }

  lemma LoadingPluginIff(cf: G.ClassFile, info: ClassInfo)
    requires Facts(cf) == Some(info)
    ensures info.interfaces == NamedInterfaces(Table(cf.pool), cf.interfaces)
    ensures info.loadingPlugin <==> exists i :: i in info.interfaces && i in LOADING_PLUGIN_INTERFACES
  {
    hide LOADING_PLUGIN_INTERFACES;
    var list := NamedInterfaces(Table(cf.pool), cf.interfaces);
    if i :| i in list && i in LOADING_PLUGIN_INTERFACES {
      var k :| 0 <= k < |list| && list[k] == i;
    }
  }

  /** Some class entry holds this raw text. */
  predicate ClassEntry(cp: seq<Cp>, raw: string)
  {
    exists i: nat :: i < |cp| && NamesClass(cp, i, raw)
  }

  /** The index leads to this descriptor. */
  predicate Describes(cp: seq<Cp>, i: nat, desc: string)
  {
    i < |cp| && cp[i] == Cp.Utf8(desc)
  }

  /** Some name-and-type entry, field or method has this descriptor. */
  predicate Described(cf: G.ClassFile, desc: string)
  {
    var cp := Table(cf.pool);
    || (exists e :: e in cp && e.NameAndType? && Describes(cp, e.descriptor, desc))
    || (exists m :: m in cf.fields && Describes(cp, m.descriptor, desc))
    || (exists m :: m in cf.methods && Describes(cp, m.descriptor, desc))
  }

  /** A class refers to what its class entries hold and what any descriptor of its pool,
      fields and methods names, itself excepted. */
  lemma ReferencedIff(cf: G.ClassFile, info: ClassInfo, n: string)
    requires Facts(cf) == Some(info)
    ensures n in info.referenced <==>
              && n != info.thisClass
              && (|| (exists raw :: ClassEntry(Table(cf.pool), raw) && n in D.PushType(raw))
                  || exists desc :: Described(cf, desc) && n in D.ObjectTypes(desc))
  {
    var cp := Table(cf.pool);
    FactsRefer(cf, info);
    PoolTypesIff(cp, n);
    MemberTypesIff(cp, cf.fields, n);
    MemberTypesIff(cp, cf.methods, n);
    hide Facts, PoolTypes, MemberTypes, Table, ClassEntry, Describes, D.PushType, D.ObjectTypes;
  }

  lemma FactsRefer(cf: G.ClassFile, info: ClassInfo)
    requires Facts(cf) == Some(info)
    ensures var cp := Table(cf.pool);
            info.referenced
            == PoolTypes(cp, |cp|) + MemberTypes(cp, cf.fields) + MemberTypes(cp, cf.methods) - {info.thisClass}
  {
    hide PoolTypes, MemberTypes, Table;
  }

  lemma PoolTypesIff(cp: seq<Cp>, n: string)
    ensures n in PoolTypes(cp, |cp|) <==>
              || (exists raw :: ClassEntry(cp, raw) && n in D.PushType(raw))
              || (exists e, desc ::
                    e in cp && e.NameAndType? && Describes(cp, e.descriptor, desc) && n in D.ObjectTypes(desc))
  {
    hide D.PushType, D.ObjectTypes;
    if n in PoolTypes(cp, |cp|) {
      var i :| 0 <= i < |cp| && n in SlotTypes(cp, cp[i]);
      if cp[i].Class? {
        var raw := Utf8At(cp, cp[i].name).value;
        assert NamesClass(cp, i, raw) && ClassEntry(cp, raw);
      } else {
        var desc := Utf8At(cp, cp[i].descriptor).value;
        assert cp[i] in cp && Describes(cp, cp[i].descriptor, desc);
      }
    }
    if raw :| ClassEntry(cp, raw) && n in D.PushType(raw) {
      var i: nat :| i < |cp| && NamesClass(cp, i, raw);
      assert n in SlotTypes(cp, cp[i]);
    }
    if e, desc :| e in cp && e.NameAndType? && Describes(cp, e.descriptor, desc) && n in D.ObjectTypes(desc) {
      var i :| 0 <= i < |cp| && cp[i] == e;
      assert n in SlotTypes(cp, cp[i]);
    }
  }

  lemma MemberTypesIff(cp: seq<Cp>, ms: seq<G.MemberInfo>, n: string)
    ensures n in MemberTypes(cp, ms) <==>
              exists m, desc :: m in ms && Describes(cp, m.descriptor, desc) && n in D.ObjectTypes(desc)
  {
    hide D.ObjectTypes;
    if n in MemberTypes(cp, ms) {
      var i :| 0 <= i < |ms| && n in DescriptorTypes(cp, ms[i].descriptor);
      var desc := Utf8At(cp, ms[i].descriptor).value;
      assert ms[i] in ms && Describes(cp, ms[i].descriptor, desc);
    }
    if m, desc :| m in ms && Describes(cp, m.descriptor, desc) && n in D.ObjectTypes(desc) {
      var i :| 0 <= i < |ms| && ms[i] == m;
      assert n in DescriptorTypes(cp, ms[i].descriptor);
    }
  }

  // ----- Folds over elements, annotations and attributes ------------------------------------------

  lemma {:induction false} ModFoldAppend(ann: ModAnnotation, a: seq<CapturedPair>, b: seq<CapturedPair>, cp: seq<Cp>)
    ensures ModFold(ann, a + b, cp) == ModFold(ModFold(ann, a, cp), b, cp)
    decreases |a|
  {
    hide ModStep;
    if a == [] {
      assert a + b == b;
    } else {
      assert (a + b)[1..] == a[1..] + b && (a + b)[0] == a[0];
      ModFoldAppend(ModStep(ann, a[0], cp), a[1..], b, cp);
    }
  }

  /** The pair sets this element to a constant of this kind. */
  predicate Sets(p: CapturedPair, cp: seq<Cp>, name: string, tag: byte, index: u16)
  {
    Utf8At(cp, p.name) == Some(name) && p.value == Some(Prim(tag, index))
  }

  /** The last pair, if any, that sets this element so. */
  predicate LastSets(pairs: seq<CapturedPair>, cp: seq<Cp>, name: string, tag: byte, k: nat)
  {
    && k < |pairs| && (exists index: u16 :: Sets(pairs[k], cp, name, tag, index))
    && forall j, index: u16 :: k < j < |pairs| ==> !Sets(pairs[j], cp, name, tag, index)
  }

  predicate NeverSets(pairs: seq<CapturedPair>, cp: seq<Cp>, name: string, tag: byte)
  {
    forall j, index: u16 :: 0 <= j < |pairs| ==> !Sets(pairs[j], cp, name, tag, index)
  }

  function TextSet(p: CapturedPair, cp: seq<Cp>): Option<string>
  {
    match p.value
    case Some(Prim(_, i)) => if Utf8At(cp, i) == Some("") then None else Utf8At(cp, i)
    case _ => None
  }

  /** An integer constant that is not zero. */
  predicate FlagSet(p: CapturedPair, cp: seq<Cp>)
  {
    match p.value
    case Some(Prim(_, i)) => i < |cp| && cp[i].Integer? && cp[i].value != 0
    case _ => false
  }

  lemma ModStepReads(ann: ModAnnotation, p: CapturedPair, cp: seq<Cp>)
    ensures var next := ModStep(ann, p, cp);
            && next.modid
               == (if exists i: u16 :: Sets(p, cp, "modid", G.TAG_STRING, i) then TextSet(p, cp) else ann.modid)
            && next.acceptableRemoteVersions
               == (if exists i: u16 :: Sets(p, cp, "acceptableRemoteVersions", G.TAG_STRING, i)
                   then TextSet(p, cp) else ann.acceptableRemoteVersions)
            && (next.client <==>
                  if exists i: u16 :: Sets(p, cp, "clientSideOnly", G.TAG_BOOLEAN, i) then FlagSet(p, cp)
                    else ann.client)
            && (next.server <==>
                  if exists i: u16 :: Sets(p, cp, "serverSideOnly", G.TAG_BOOLEAN, i) then FlagSet(p, cp)
                    else ann.server)
  {
    assert |"modid"| == 5 && |"clientSideOnly"| == 14 && "clientSideOnly"[0] == 'c' && "serverSideOnly"[0] == 's';
    assert |"acceptableRemoteVersions"| == 24;
    if p.value.Some? && p.value.value.Prim? {
      var tag, i := p.value.value.tag, p.value.value.index;
      assert forall name :: Utf8At(cp, p.name) == Some(name) ==> Sets(p, cp, name, tag, i);
    }
  }

  /** Of an `@Mod` the last element of a name counts, if its constant has the right kind;
      an empty text says nothing, an absent flag says no. */
  lemma {:induction false} ModReads(pairs: seq<CapturedPair>, cp: seq<Cp>)
    ensures var ann := ModFold(NO_MOD, pairs, cp);
            && (forall k: nat :: LastSets(pairs, cp, "modid", G.TAG_STRING, k) ==> ann.modid == TextSet(pairs[k], cp))
            && (NeverSets(pairs, cp, "modid", G.TAG_STRING) ==> ann.modid == None)
            && (forall k: nat :: LastSets(pairs, cp, "acceptableRemoteVersions", G.TAG_STRING, k)
                  ==> ann.acceptableRemoteVersions == TextSet(pairs[k], cp))
            && (NeverSets(pairs, cp, "acceptableRemoteVersions", G.TAG_STRING) ==> ann.acceptableRemoteVersions == None)
            && (forall k: nat :: LastSets(pairs, cp, "clientSideOnly", G.TAG_BOOLEAN, k)
                  ==> (ann.client <==> FlagSet(pairs[k], cp)))
            && (NeverSets(pairs, cp, "clientSideOnly", G.TAG_BOOLEAN) ==> !ann.client)
            && (forall k: nat :: LastSets(pairs, cp, "serverSideOnly", G.TAG_BOOLEAN, k)
                  ==> (ann.server <==> FlagSet(pairs[k], cp)))
            && (NeverSets(pairs, cp, "serverSideOnly", G.TAG_BOOLEAN) ==> !ann.server)
  {
    if pairs != [] {
      var init, last := pairs[..|pairs| - 1], pairs[|pairs| - 1];
      assert pairs == init + [last];
      ModReads(init, cp);
      ModFoldAppend(NO_MOD, init, [last], cp);
      assert ModFold(ModFold(NO_MOD, init, cp), [last], cp) == ModStep(ModFold(NO_MOD, init, cp), last, cp) by {
        assert [last][1..] == [];
      }
      ModStepReads(ModFold(NO_MOD, init, cp), last, cp);
      hide *;
      LastSetsNext(init, last, cp, "modid", G.TAG_STRING);
      LastSetsNext(init, last, cp, "acceptableRemoteVersions", G.TAG_STRING);
      LastSetsNext(init, last, cp, "clientSideOnly", G.TAG_BOOLEAN);
      LastSetsNext(init, last, cp, "serverSideOnly", G.TAG_BOOLEAN);
    } else {
      hide Sets;
    }
  }

  lemma LastSetsNext(init: seq<CapturedPair>, last: CapturedPair, cp: seq<Cp>, name: string, tag: byte)
    ensures var pairs := init + [last];
            var here := exists i: u16 :: Sets(last, cp, name, tag, i);
            && (forall k: nat :: LastSets(pairs, cp, name, tag, k) <==>
                  k < |pairs| && if here then k == |init| else k < |init| && LastSets(init, cp, name, tag, k))
            && (forall k: nat :: k < |init| ==> pairs[k] == init[k]) && pairs[|init|] == last
            && (NeverSets(pairs, cp, name, tag) <==> NeverSets(init, cp, name, tag) && !here)
  {
    hide Sets;
    var pairs := init + [last];
    assert forall k :: 0 <= k < |init| ==> pairs[k] == init[k];
    assert pairs[|init|] == last;
  }

  predicate NamesDist(p: CapturedPair)
  {
    p.value.Some? && p.value.value.EnumName?
  }

  /** The side an enum constant stands for. */
  predicate Stands(cp: seq<Cp>, p: CapturedPair, dist: Option<Dist>)
  {
    && NamesDist(p)
    && var name := Utf8At(cp, p.value.value.index);
       && (dist == Some(Client) <==> name == Some("CLIENT"))
       && (dist == Some(Server) <==> name == Some("SERVER") || name == Some("DEDICATED_SERVER"))
  }

  lemma {:induction false} DistFoldAppend(dist: Option<Dist>, a: seq<CapturedPair>, b: seq<CapturedPair>, cp: seq<Cp>)
    ensures DistFold(dist, a + b, cp) == DistFold(DistFold(dist, a, cp), b, cp)
    decreases |a|
  {
    if a == [] {
      assert a + b == b;
    } else {
      assert (a + b)[1..] == a[1..] + b && (a + b)[0] == a[0];
      var next := match a[0].value
        case Some(EnumName(i)) => DistOf(Utf8At(cp, i))
        case _ => dist;
      hide DistOf;
      DistFoldAppend(next, a[1..], b, cp);
    }
  }

  lemma DistOfMeans(cp: seq<Cp>, p: CapturedPair)
    requires NamesDist(p)
    ensures Stands(cp, p, DistOf(Utf8At(cp, p.value.value.index)))
  {
    assert "CLIENT"[0] == 'C' && "SERVER"[0] == 'S' && "DEDICATED_SERVER"[0] == 'D';
  }

  /** Of a dist marker the last enum constant counts. */
  lemma {:induction false} DistReads(pairs: seq<CapturedPair>, cp: seq<Cp>)
    ensures forall k: nat :: Last(pairs, NamesDist, k) ==> Stands(cp, pairs[k], DistFold(None, pairs, cp))
    ensures Never(pairs, NamesDist) ==> DistFold(None, pairs, cp) == None
  {
    if pairs != [] {
      var init, last := pairs[..|pairs| - 1], pairs[|pairs| - 1];
      assert pairs == init + [last];
      DistReads(init, cp);
      DistFoldAppend(None, init, [last], cp);
      var before := DistFold(None, init, cp);
      assert [last][1..] == [];
      assert DistFold(before, [last], cp)
          == match last.value case Some(EnumName(i)) => DistOf(Utf8At(cp, i)) case _ => before;
      if NamesDist(last) {
        DistOfMeans(cp, last);
      }
      hide DistOf, DistFold, Stands, Last, Never;
      OneMore(init, last, NamesDist);
    }
  }

  // ----- What a body's annotations yield -------------------------------------------------------------

  function IsMod(cp: seq<Cp>): G.Annotation -> bool
  {
    (a: G.Annotation) => exists d :: d in MOD_DESCRIPTORS && Utf8At(cp, a.typeIndex) == Some(d)
  }

  function MarksDist(cp: seq<Cp>): G.Annotation -> bool
  {
    (a: G.Annotation) => (exists d :: d in DIST_DESCRIPTORS && Utf8At(cp, a.typeIndex) == Some(d))
         && DistFold(None, CapturedPairs(a.pairs), cp).Some?
  }

  function MixinsOf(cp: seq<Cp>, a: G.Annotation): seq<string>
  {
    if Utf8At(cp, a.typeIndex) == Some(MIXIN_DESCRIPTOR) then MixinNames(CapturedPairs(a.pairs), cp) else []
  }

  lemma {:induction false} ScanAppend(out: Scanned, a: seq<G.Annotation>, b: seq<G.Annotation>, cp: seq<Cp>)
    ensures ScanAll(out, a + b, cp) == ScanAll(ScanAll(out, a, cp), b, cp)
    decreases |a|
  {
    hide ScanOne;
    if a == [] {
      assert a + b == b;
    } else {
      assert (a + b)[1..] == a[1..] + b && (a + b)[0] == a[0];
      ScanAppend(ScanOne(out, a[0].typeIndex, CapturedPairs(a[0].pairs), cp), a[1..], b, cp);
    }
  }

  lemma OneScan(out: Scanned, a: G.Annotation, cp: seq<Cp>)
    ensures ScanAll(out, [a], cp) == ScanOne(out, a.typeIndex, CapturedPairs(a.pairs), cp)
  {
    hide ScanOne;
    assert [a][1..] == [];
  }

  lemma KindsApart()
    ensures MIXIN_DESCRIPTOR !in MOD_DESCRIPTORS && MIXIN_DESCRIPTOR !in DIST_DESCRIPTORS
    ensures forall d :: d in MOD_DESCRIPTORS ==> d !in DIST_DESCRIPTORS
  {
    assert |MIXIN_DESCRIPTOR| == 35 && MIXIN_DESCRIPTOR[1] == 'o';
    assert |MOD_DESCRIPTORS[0]| == 35 && |MOD_DESCRIPTORS[1]| == 25 && |MOD_DESCRIPTORS[2]| == 30;
    assert MOD_DESCRIPTORS[0][1] == 'n' && MOD_DESCRIPTORS[2][5] == 'n' && DIST_DESCRIPTORS[3][5] == 'f';
    assert |DIST_DESCRIPTORS[0]| == 34 && |DIST_DESCRIPTORS[1]| == 44 && |DIST_DESCRIPTORS[2]| == 42;
    assert |DIST_DESCRIPTORS[3]| == 30;
  }

  lemma ScanOneReads(out: Scanned, a: G.Annotation, cp: seq<Cp>)
    ensures var next := ScanOne(out, a.typeIndex, CapturedPairs(a.pairs), cp);
            && next.modAnnotation
               == (if IsMod(cp)(a) then Some(ModFold(NO_MOD, CapturedPairs(a.pairs), cp)) else out.modAnnotation)
            && next.dist == (if out.dist.None? && MarksDist(cp)(a)
                             then DistFold(None, CapturedPairs(a.pairs), cp) else out.dist)
            && next.mixinTargets == out.mixinTargets + MixinsOf(cp, a)
  {
    KindsApart();
    hide MOD_DESCRIPTORS, DIST_DESCRIPTORS, MIXIN_DESCRIPTOR, ModFold, DistFold, MixinNames;
    assert out.mixinTargets + [] == out.mixinTargets;
  }

  function AllMixins(cp: seq<Cp>, anns: seq<G.Annotation>): seq<string>
  {
    if anns == [] then [] else AllMixins(cp, anns[..|anns| - 1]) + MixinsOf(cp, anns[|anns| - 1])
  }

  /** The last `@Mod` speaks for the body, the first dist marker that names a side for
      its dist, and every mixin, in order, for its targets. */
  lemma {:induction false} ScanReads(anns: seq<G.Annotation>, cp: seq<Cp>)
    ensures var s := ScanAll(NOTHING, anns, cp);
            && (forall k: nat :: Last(anns, IsMod(cp), k) ==>
                  s.modAnnotation == Some(ModFold(NO_MOD, CapturedPairs(anns[k].pairs), cp)))
            && (Never(anns, IsMod(cp)) ==> s.modAnnotation == None)
            && (forall k: nat :: First(anns, MarksDist(cp), k) ==>
                  s.dist == DistFold(None, CapturedPairs(anns[k].pairs), cp))
            && (Never(anns, MarksDist(cp)) <==> s.dist == None)
            && s.mixinTargets == AllMixins(cp, anns)
  {
    if anns != [] {
      var init, last := anns[..|anns| - 1], anns[|anns| - 1];
      assert anns == init + [last];
      ScanReads(init, cp);
      ScanAppend(NOTHING, init, [last], cp);
      OneScan(ScanAll(NOTHING, init, cp), last, cp);
      ScanOneReads(ScanAll(NOTHING, init, cp), last, cp);
      DistMarked(cp, last);
      AllMixinsLast(cp, init, last);
      hide *;
      OneMore(init, last, IsMod(cp));
      OneMore(init, last, MarksDist(cp));
    } else {
      hide MOD_DESCRIPTORS, DIST_DESCRIPTORS;
    }
  }

  lemma DistMarked(cp: seq<Cp>, a: G.Annotation)
    ensures MarksDist(cp)(a) ==> DistFold(None, CapturedPairs(a.pairs), cp).Some?
  {
  }

  lemma AllMixinsLast(cp: seq<Cp>, init: seq<G.Annotation>, last: G.Annotation)
    ensures AllMixins(cp, init + [last]) == AllMixins(cp, init) + MixinsOf(cp, last)
  {
    assert (init + [last])[..|init|] == init;
  }

  /** A body is read annotation by annotation until its count is reached or one is
      malformed; what was read so far stands printed at its front. */
  lemma {:induction false} PrefixReads(n: nat, b: seq<byte>)
    ensures var anns := AnnotationPrefix(n, b);
            |anns| <= n && exists rest :: b == G.PutMany(anns, G.PutAnnotation, rest)
                                          && (|anns| == n || G.ReadAnnotation(rest).Malformed?)
  {
    hide G.PutAnnotation, G.ReadAnnotation;
    if n > 0 && G.ReadAnnotation(b).Parsed? {
      var a := G.ReadAnnotation(b);
      G.AnnotationInverse(b);
      PrefixReads(n - 1, a.rest);
      var more := AnnotationPrefix(n - 1, a.rest);
      var rest :| a.rest == G.PutMany(more, G.PutAnnotation, rest)
                  && (|more| == n - 1 || G.ReadAnnotation(rest).Malformed?);
      assert ([a.value] + more)[1..] == more;
      assert b == G.PutMany([a.value] + more, G.PutAnnotation, rest);
    } else {
      assert b == G.PutMany([], G.PutAnnotation, b);
    }
  }

  // ----- What the attributes yield ---------------------------------------------------------------------

  /** What the annotations in an attribute say, nothing if it holds none. */
  function AttrScan(cp: seq<Cp>, a: G.Attr): Scanned
  {
    if || Utf8At(cp, a.name) == Some("RuntimeVisibleAnnotations")
       || Utf8At(cp, a.name) == Some("RuntimeInvisibleAnnotations")
    then ScanBody(a.body, cp) else NOTHING
  }

  function TellsMod(cp: seq<Cp>): G.Attr -> bool
  {
    (a: G.Attr) => AttrScan(cp, a).modAnnotation.Some?
  }

  function TellsModId(cp: seq<Cp>): G.Attr -> bool
  {
    (a: G.Attr) => AttrScan(cp, a).modAnnotation.Some? && AttrScan(cp, a).modAnnotation.value.modid.Some?
  }

  function TellsRange(cp: seq<Cp>): G.Attr -> bool
  {
    (a: G.Attr) => AttrScan(cp, a).modAnnotation.Some?
                   && AttrScan(cp, a).modAnnotation.value.acceptableRemoteVersions.Some?
  }

  function TellsDist(cp: seq<Cp>): G.Attr -> bool
  {
    (a: G.Attr) => AttrScan(cp, a).dist.Some?
  }

  function AttrMixins(cp: seq<Cp>, attrs: seq<G.Attr>): seq<string>
  {
    if attrs == [] then []
    else AttrMixins(cp, attrs[..|attrs| - 1]) + AttrScan(cp, attrs[|attrs| - 1]).mixinTargets
  }

  lemma {:induction false} AttrFoldAppend(f: AttrFacts, a: seq<G.Attr>, b: seq<G.Attr>, cp: seq<Cp>)
    ensures AttrFold(f, a + b, cp) == AttrFold(AttrFold(f, a, cp), b, cp)
    decreases |a|
  {
    hide AttrStep;
    if a == [] {
      assert a + b == b;
    } else {
      assert (a + b)[1..] == a[1..] + b && (a + b)[0] == a[0];
      AttrFoldAppend(AttrStep(f, a[0], cp), a[1..], b, cp);
    }
  }

  lemma OneAttr(f: AttrFacts, a: G.Attr, cp: seq<Cp>)
    ensures AttrFold(f, [a], cp) == AttrStep(f, a, cp)
  {
    hide AttrStep;
    assert [a][1..] == [];
  }

  lemma AttrStepReads(f: AttrFacts, a: G.Attr, cp: seq<Cp>)
    ensures var (next, s) := (AttrStep(f, a, cp), AttrScan(cp, a));
            && next.modSides
               == (if TellsMod(cp)(a) then Some((s.modAnnotation.value.client, s.modAnnotation.value.server))
                   else f.modSides)
            && next.modId == (if f.modId.None? && TellsModId(cp)(a) then s.modAnnotation.value.modid else f.modId)
            && next.acceptableRemoteVersions
               == (if f.acceptableRemoteVersions.None? && TellsRange(cp)(a)
                   then s.modAnnotation.value.acceptableRemoteVersions else f.acceptableRemoteVersions)
            && next.dist == (if f.dist.None? && TellsDist(cp)(a) then s.dist else f.dist)
            && next.mixinTargets == f.mixinTargets + s.mixinTargets
  {
    hide ScanBody;
    assert f.mixinTargets + [] == f.mixinTargets;
  }

  /** Over the attributes of a class the last `@Mod` gives the flags, the first with an
      id the id, the first with a range the range, the first dist the dist, and every
      mixin its targets, in order. */
  lemma {:induction false} AttributesRead(attrs: seq<G.Attr>, cp: seq<Cp>)
    ensures var f := AttrFold(NO_FACTS, attrs, cp);
            && (forall k: nat :: Last(attrs, TellsMod(cp), k) ==>
                  var ann := AttrScan(cp, attrs[k]).modAnnotation.value; f.modSides == Some((ann.client, ann.server)))
            && (Never(attrs, TellsMod(cp)) ==> f.modSides == None)
            && (forall k: nat :: First(attrs, TellsModId(cp), k) ==>
                  f.modId.Some? && f.modId == AttrScan(cp, attrs[k]).modAnnotation.value.modid)
            && (Never(attrs, TellsModId(cp)) <==> f.modId == None)
            && (forall k: nat :: First(attrs, TellsRange(cp), k) ==>
                  f.acceptableRemoteVersions.Some?
                  && f.acceptableRemoteVersions == AttrScan(cp, attrs[k]).modAnnotation.value.acceptableRemoteVersions)
            && (Never(attrs, TellsRange(cp)) <==> f.acceptableRemoteVersions == None)
            && (forall k: nat :: First(attrs, TellsDist(cp), k) ==>
                  f.dist.Some? && f.dist == AttrScan(cp, attrs[k]).dist)
            && (Never(attrs, TellsDist(cp)) <==> f.dist == None)
            && f.mixinTargets == AttrMixins(cp, attrs)
  {
    if attrs != [] {
      var init, last := attrs[..|attrs| - 1], attrs[|attrs| - 1];
      assert attrs == init + [last];
      AttributesRead(init, cp);
      AttrFoldAppend(NO_FACTS, init, [last], cp);
      OneAttr(AttrFold(NO_FACTS, init, cp), last, cp);
      AttrStepReads(AttrFold(NO_FACTS, init, cp), last, cp);
      assert AttrMixins(cp, init + [last]) == AttrMixins(cp, init) + AttrScan(cp, last).mixinTargets by {
        assert (init + [last])[..|init|] == init;
      }
      TellsMean(cp, last);
      hide *;
      OneMore(init, last, TellsMod(cp));
      OneMore(init, last, TellsModId(cp));
      OneMore(init, last, TellsRange(cp));
      OneMore(init, last, TellsDist(cp));
    }
  }

  lemma TellsMean(cp: seq<Cp>, a: G.Attr)
    ensures TellsMod(cp)(a) ==> AttrScan(cp, a).modAnnotation.Some?
    ensures TellsModId(cp)(a) ==>
              AttrScan(cp, a).modAnnotation.Some? && AttrScan(cp, a).modAnnotation.value.modid.Some?
    ensures TellsRange(cp)(a) ==>
              AttrScan(cp, a).modAnnotation.Some?
              && AttrScan(cp, a).modAnnotation.value.acceptableRemoteVersions.Some?
    ensures TellsDist(cp)(a) ==> AttrScan(cp, a).dist.Some?
  {
  }

  /** These are the facts of the class. */
  lemma AttributesSpeak(cf: G.ClassFile, info: ClassInfo)
    requires Facts(cf) == Some(info)
    ensures AttrFold(NO_FACTS, cf.attributes, Table(cf.pool))
         == AttrFacts(info.modSides, info.modId, info.acceptableRemoteVersions, info.dist, info.mixinTargets)
  {
    hide AttrFold, Table;
  }

  // ----- What a mixin names ----------------------------------------------------------------

  /** The element holds the leaf, under arrays alone. */
  predicate Holds(v: ElemValue, leaf: ElemValue)
    decreases v
  {
    v == leaf || (v.Items? && exists i :: 0 <= i < |v.items| && v.items[i].Some? && Holds(v.items[i].value, leaf))
  }

  /** A mixin names a class by a class constant of its `value` or by a text of its
      `targets`, dots read as slashes. */
  ghost predicate Targets(cp: seq<Cp>, p: CapturedPair, t: string)
  {
    && p.value.Some? && t != ""
    && (|| (Utf8At(cp, p.name) == Some("value")
            && exists i: u16 :: Holds(p.value.value, ClassConst(i)) && Utf8At(cp, i) == Some("L" + t + ";"))
        || (Utf8At(cp, p.name) == Some("targets")
            && exists i: u16, s ::
                 Holds(p.value.value, Prim(G.TAG_STRING, i)) && Utf8At(cp, i) == Some(s) && t == Slashed(s)))
  }

  /** It names what any of its elements does, and nothing else. */
  lemma {:induction false} MixinNamesIff(pairs: seq<CapturedPair>, cp: seq<Cp>, t: string)
    ensures t in MixinNames(pairs, cp) <==> exists p :: p in pairs && Targets(cp, p, t)
  {
    if pairs != [] {
      MixinNamesIff(pairs[1..], cp, t);
      MixinStepIff(pairs[0], cp, t);
      assert forall p :: p in pairs <==> p == pairs[0] || p in pairs[1..];
      hide Targets, MixinStep;
    }
  }

  lemma MixinStepIff(p: CapturedPair, cp: seq<Cp>, t: string)
    ensures t in MixinStep(p, cp) <==> Targets(cp, p, t)
  {
    assert |"value"| == 5 && |"targets"| == 7;
    if p.value.Some? {
      var v := p.value.value;
      ClassTargetsIff(cp, ClassIndices(v), t);
      StringTargetsIff(cp, StringIndices(v), t);
      forall i: u16 ensures i in ClassIndices(v) <==> Holds(v, ClassConst(i)) {
        ClassIndicesIff(v, i);
      }
      forall i: u16 ensures i in StringIndices(v) <==> Holds(v, Prim(G.TAG_STRING, i)) {
        StringIndicesIff(v, i);
      }
    }
    hide Holds, ClassIndices, StringIndices, ClassTargets, StringTargets, Slashed;
  }

  lemma {:induction false} ClassTargetsIff(cp: seq<Cp>, indices: seq<u16>, t: string)
    ensures t in ClassTargets(cp, indices) <==>
              t != "" && exists i: u16 :: i in indices && Utf8At(cp, i) == Some("L" + t + ";")
  {
    if indices != [] {
      ClassTargetsIff(cp, indices[1..], t);
      ClassTargetIff(cp, indices[0], t);
      assert forall i :: i in indices <==> i == indices[0] || i in indices[1..];
      hide ClassTarget, Utf8At;
    }
  }

  lemma ClassTargetIff(cp: seq<Cp>, i: u16, t: string)
    ensures t in ClassTarget(cp, i) <==> t != "" && Utf8At(cp, i) == Some("L" + t + ";")
  {
    var d := Utf8At(cp, i);
    assert ("L" + t + ";")[1..|t| + 1] == t;
    if d.Some? && BinaryName(d.value).Some? {
      assert d.value == "L" + d.value[1..|d.value| - 1] + ";";
    }
  }

  lemma {:induction false} StringTargetsIff(cp: seq<Cp>, indices: seq<u16>, t: string)
    ensures t in StringTargets(cp, indices) <==>
              t != "" && exists i: u16, s :: i in indices && Utf8At(cp, i) == Some(s) && t == Slashed(s)
  {
    if indices != [] {
      StringTargetsIff(cp, indices[1..], t);
      assert forall i :: i in indices <==> i == indices[0] || i in indices[1..];
      var first := Utf8At(cp, indices[0]);
      assert t in StringTarget(cp, indices[0]) <==> first.Some? && t != "" && t == Slashed(first.value);
      hide StringTarget, Utf8At, Slashed;
    }
  }

  lemma {:induction false} ClassIndicesIff(v: ElemValue, i: u16)
    ensures i in ClassIndices(v) <==> Holds(v, ClassConst(i))
    decreases v
  {
    if v.Items? {
      forall k | 0 <= k < |v.items| && v.items[k].Some?
        ensures i in ClassIndices(v.items[k].value) <==> Holds(v.items[k].value, ClassConst(i))
      {
        ClassIndicesIff(v.items[k].value, i);
      }
      AllClassIndicesIff(v.items, i);
    }
  }

  lemma {:induction false} AllClassIndicesIff(items: seq<Option<ElemValue>>, i: u16)
    ensures i in AllClassIndices(items) <==>
              exists k :: 0 <= k < |items| && items[k].Some? && i in ClassIndices(items[k].value)
  {
    if items != [] {
      AllClassIndicesIff(items[1..], i);
      hide ClassIndices;
      assert forall k :: 0 <= k < |items| - 1 ==> items[1..][k] == items[k + 1];
      if k :| 0 <= k < |items| && items[k].Some? && i in ClassIndices(items[k].value) {
        assert k > 0 ==> items[1..][k - 1] == items[k];
      }
    }
  }

  lemma {:induction false} StringIndicesIff(v: ElemValue, i: u16)
    ensures i in StringIndices(v) <==> Holds(v, Prim(G.TAG_STRING, i))
    decreases v
  {
    if v.Items? {
      forall k | 0 <= k < |v.items| && v.items[k].Some?
        ensures i in StringIndices(v.items[k].value) <==> Holds(v.items[k].value, Prim(G.TAG_STRING, i))
      {
        StringIndicesIff(v.items[k].value, i);
      }
      AllStringIndicesIff(v.items, i);
    }
  }

  lemma {:induction false} AllStringIndicesIff(items: seq<Option<ElemValue>>, i: u16)
    ensures i in AllStringIndices(items) <==>
              exists k :: 0 <= k < |items| && items[k].Some? && i in StringIndices(items[k].value)
  {
    if items != [] {
      AllStringIndicesIff(items[1..], i);
      hide StringIndices;
      assert forall k :: 0 <= k < |items| - 1 ==> items[1..][k] == items[k + 1];
      if k :| 0 <= k < |items| && items[k].Some? && i in StringIndices(items[k].value) {
        assert k > 0 ==> items[1..][k - 1] == items[k];
      }
    }
  }

  /** And in the order its elements stand. */
  lemma {:induction false} MixinNamesInOrder(a: seq<CapturedPair>, b: seq<CapturedPair>, cp: seq<Cp>)
    ensures MixinNames(a + b, cp) == MixinNames(a, cp) + MixinNames(b, cp)
  {
    hide MixinStep;
    if a == [] {
      assert a + b == b;
    } else {
      assert (a + b)[1..] == a[1..] + b;
      MixinNamesInOrder(a[1..], b, cp);
    }
  }

  lemma {:induction false} ItemsInOrder(a: seq<Option<ElemValue>>, b: seq<Option<ElemValue>>)
    ensures AllClassIndices(a + b) == AllClassIndices(a) + AllClassIndices(b)
    ensures AllStringIndices(a + b) == AllStringIndices(a) + AllStringIndices(b)
  {
    hide ItemClassIndices, ItemStringIndices;
    if a == [] {
      assert a + b == b;
    } else {
      assert (a + b)[1..] == a[1..] + b;
      ItemsInOrder(a[1..], b);
    }
  }

  /** A dotted target becomes a binary name, character by character. */
  lemma SlashedReads(s: string, i: nat)
    requires i < |s|
    ensures Slashed(s)[i] == (if s[i] == '.' then '/' else s[i])
  {
  }
}
