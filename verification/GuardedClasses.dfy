/** A class that calls a method of another, as the assembler of
    src/authoring/classfile.rs builds it: `build` after a `methodref`. */
module GuardedClasses {
  import opened Base
  import opened Utf8Codec
  import G = ClassGrammar
  import D = Descriptors
  import opened ClassFacts
  import opened ClassMeaning
  import opened ClassWriter

  /** The pool of such a class. */
  function CallingPool(binary: string, owner: string, name: string, desc: string): seq<Cp>
  {
    [Cp.Skip, Cp.Utf8(OBJECT), Cp.Class(1), Cp.Utf8(binary), Cp.Class(3), Cp.Utf8(owner), Cp.Class(5),
     Cp.Utf8(name), Cp.Utf8(desc), Cp.NameAndType(7, 8), Cp.Ref(6, 9)]
  }

  lemma CallingRefers(cp: seq<Cp>, binary: string, owner: string, name: string, desc: string, o: string, m: string)
    requires cp == CallingPool(binary, owner, name, desc)
    ensures RefersToMember(cp, o, m) <==> o == owner && m == name
  {
    assert cp[10] == Cp.Ref(6, 9);
    if o == owner && m == name {
      assert RefersAt(cp, cp[10], owner, name);
    }
    if RefersToMember(cp, o, m) {
      var i :| 0 <= i < |cp| && RefersAt(cp, cp[i], o, m);
      assert i == 10;
    }
  }

  lemma CallingTypes(cp: seq<Cp>, binary: string, owner: string, name: string, desc: string)
    requires cp == CallingPool(binary, owner, name, desc)
    ensures PoolTypes(cp, |cp|)
         == D.PushType(OBJECT) + D.PushType(binary) + D.PushType(owner) + D.ObjectTypes(desc)
  {
    hide D.PushType, D.ObjectTypes, OBJECT;
    assert SlotTypes(cp, cp[2]) == D.PushType(OBJECT) && SlotTypes(cp, cp[4]) == D.PushType(binary);
    assert SlotTypes(cp, cp[6]) == D.PushType(owner) && SlotTypes(cp, cp[9]) == D.ObjectTypes(desc);
    assert forall i :: 0 <= i < 11 && i != 2 && i != 4 && i != 6 && i != 9 ==> SlotTypes(cp, cp[i]) == {};
  }

  /** What `build` is asked for: a class with this name, Object above it, and one call. */
  predicate Calling(cf: G.ClassFile, binary: string, owner: string, name: string, desc: string)
  {
    && Table(cf.pool) == CallingPool(binary, owner, name, desc)
    && cf.thisClass == 4 && cf.superClass == 2 && cf.interfaces == [] && cf.fields == [] && cf.methods == []
    && cf.attributes == []
  }

  lemma CallingFacts(cf: G.ClassFile, binary: string, owner: string, name: string, desc: string)
    requires Calling(cf, binary, owner, name, desc)
    ensures Facts(cf).Some?
    ensures var info := Facts(cf).value;
            && info.thisClass == binary && info.superName == None
            && info.referenced
               == D.PushType(OBJECT) + D.PushType(binary) + D.PushType(owner) + D.ObjectTypes(desc) - {binary}
  {
    var cp := Table(cf.pool);
    CallingTypes(cp, binary, owner, name, desc);
    CallingNames(cp, binary, owner, name, desc);
    NoMembers(cp);
    FactsExist(cf);
    hide Facts, D.PushType, D.ObjectTypes, OBJECT, PoolTypes, MemberTypes, ClassNameAt, SuperName, Table, CallingPool;
    FactsName(cf);
    FactsRefer(cf, Facts(cf).value);
  }

  lemma NoMembers(cp: seq<Cp>)
    ensures MemberTypes(cp, []) == {}
  {
  }

  lemma CallingNames(cp: seq<Cp>, binary: string, owner: string, name: string, desc: string)
    requires cp == CallingPool(binary, owner, name, desc)
    ensures ClassNameAt(cp, 4) == Some(binary) && SuperName(cp, 2) == None
  {
    hide OBJECT;
  }

  lemma CallingGuards(cf: G.ClassFile, binary: string, owner: string, name: string, desc: string)
    requires Calling(cf, binary, owner, name, desc) && Facts(cf).Some?
    ensures Facts(cf).value.conditional <==>
              || (owner, name) in MOD_LOADED_GUARDS
              || exists t :: t in OPTIONAL_MARKERS && t in {OBJECT, binary, owner, name, desc}
  {
    var cp := Table(cf.pool);
    ConditionalIff(cf, Facts(cf).value);
    forall o, m ensures RefersToMember(cp, o, m) <==> o == owner && m == name {
      CallingRefers(cp, binary, owner, name, desc, o, m);
    }
    forall t ensures Cp.Utf8(t) in cp <==> t in {OBJECT, binary, owner, name, desc} {
      CallingTexts(cp, binary, owner, name, desc, t);
    }
    hide Facts, Table, RefersToMember, OBJECT, OPTIONAL_MARKERS, MOD_LOADED_GUARDS, Calling;
  }

  lemma CallingTexts(cp: seq<Cp>, binary: string, owner: string, name: string, desc: string, t: string)
    requires cp == CallingPool(binary, owner, name, desc)
    ensures Cp.Utf8(t) in cp <==> t in {OBJECT, binary, owner, name, desc}
  {
    hide OBJECT;
    assert cp[1] in cp && cp[3] in cp && cp[5] in cp && cp[7] in cp && cp[8] in cp;
  }

  /** The class parses with the call's owner and descriptor among its references, and as
      conditional when the call asks whether a mod is loaded. */
  method BuildCalling(binary: string, owner: string, name: string, desc: string) returns (bytes: seq<byte>)
    requires Utf8Fits(binary) && Utf8Fits(owner) && Utf8Fits(name) && Utf8Fits(desc)
    ensures G.ReadClass(bytes).Parsed? && G.ReadClass(bytes).rest == []
    ensures Facts(G.ReadClass(bytes).value).Some?
    ensures var info := Facts(G.ReadClass(bytes).value).value;
            && info.thisClass == binary && info.superName == None
            && info.referenced
               == D.PushType(OBJECT) + D.PushType(binary) + D.PushType(owner) + D.ObjectTypes(desc) - {binary}
            && (info.conditional <==>
                  || (owner, name) in MOD_LOADED_GUARDS
                  || exists t :: t in OPTIONAL_MARKERS && t in {OBJECT, binary, owner, name, desc})
  {
    hide Utf8Fits, Texts, Types, G.PutPool, G.Fills, Table, Grew, Facts, G.ReadClass, D.PushType, D.ObjectTypes;
    ObjectFits();
    var w := new ClassWriter();
    EmptyTable();
    var obj := w.Class(OBJECT);
    var this_ := w.Class(binary);
    var call := w.Methodref(owner, name, desc);
    assert w.Cps() == CallingPool(binary, owner, name, desc);
    bytes := w.BuildWith(this_, obj, [], [], 0, []);
    ghost var cf := G.ReadClass(bytes).value;
    assert Calling(cf, binary, owner, name, desc);
    CallingFacts(cf, binary, owner, name, desc);
    CallingGuards(cf, binary, owner, name, desc);
  }

  lemma ObjectFits()
    ensures Utf8Fits(OBJECT)
  {
    hide Encode;
  }

  lemma EmptyTable()
    ensures Table([]) == [Cp.Skip]
  {
  }
}
