/** The assembler that src/authoring/classfile.rs keeps beside its reader
    (`fixtures::ClassWriter`, `build_class_spec`): it appends bytes, and is proved
    to append printed structures, so that what it builds parses back to what it
    was asked for. */
module ClassWriter {
  import opened Base
  import opened Utf8Codec
  import G = ClassGrammar
  import D = Descriptors
  import opened ClassFacts

  // ----- Text and bytes -------------------------------------------------------

  predicate Utf8Fits(s: string)
  {
    |Encode(s)| < 0x1_0000
  }

  function U2(x: u16): seq<byte>
  {
    G.PutU2(x, [])
  }

  lemma U2Appends(x: u16, tail: seq<byte>)
    ensures G.PutU2(x, tail) == U2(x) + tail
  {
  }

  function U4(x: u32): seq<byte>
  {
    G.PutU4(x, [])
  }

  lemma U4Appends(x: u32, tail: seq<byte>)
    ensures G.PutU4(x, tail) == U4(x) + tail
  {
  }

  // ----- How the pool grows ---------------------------------------------------

  /** No entry points past the pool as it stands. */
  predicate Closed(cp: seq<Cp>)
  {
    forall i :: 0 <= i < |cp| ==> Inside(cp[i], |cp|)
  }

  predicate Inside(e: Cp, n: nat)
  {
    match e
    case Class(name) => name < n
    case NameAndType(name, desc) => name < n && desc < n
    case Ref(cls, nt) => cls < n && nt < n
    case _ => true
  }

  predicate Plain(cp: seq<Cp>)
  {
    forall i :: 0 <= i < |cp| ==> !cp[i].Ref?
  }

  function Texts(cp: seq<Cp>): set<string>
  {
    set i | 0 <= i < |cp| && cp[i].Utf8? :: cp[i].text
  }

  function Types(cp: seq<Cp>): set<string>
  {
    PoolTypes(cp, |cp|)
  }

  predicate Extends(cp: seq<Cp>, more: seq<Cp>)
  {
    cp <= more
  }

  /** `more` is `cp` with entries added that bring these texts and class references. */
  predicate Grew(cp: seq<Cp>, more: seq<Cp>, texts: set<string>, types: set<string>)
  {
    && Extends(cp, more)
    && Texts(more) == Texts(cp) + texts
    && Types(more) == Types(cp) + types
    && (Plain(cp) ==> Plain(more))
  }

  lemma GrewOn(a: seq<Cp>, b: seq<Cp>, c: seq<Cp>, texts: set<string>, types: set<string>,
               texts2: set<string>, types2: set<string>)
    requires Grew(a, b, texts, types) && Grew(b, c, texts2, types2)
    ensures Grew(a, c, texts + texts2, types + types2)
  {
    hide Texts, Types;
  }

  /** One slot added: what was resolved stays resolved, and only the new slot speaks. */
  lemma SlotAdded(cp: seq<Cp>, e: Cp)
    requires Closed(cp) && Inside(e, |cp|)
    ensures Closed(cp + [e])
    ensures Texts(cp + [e]) == Texts(cp) + (if e.Utf8? then {e.text} else {})
    ensures Types(cp + [e]) == Types(cp) + SlotTypes(cp, e)
  {
    var more := cp + [e];
    forall i | 0 <= i < |cp|
      ensures more[i] == cp[i] && SlotTypes(more, more[i]) == SlotTypes(cp, cp[i])
    {
      assert more[i] == cp[i];
    }
    assert more[|cp|] == e && SlotTypes(more, e) == SlotTypes(cp, e);
    forall t | t in Texts(cp) ensures t in Texts(more) {
      var i :| 0 <= i < |cp| && cp[i].Utf8? && cp[i].text == t;
      assert more[i].Utf8?;
    }
    forall n | n in Types(cp) ensures n in Types(more) {
      var i :| 0 <= i < |cp| && n in SlotTypes(cp, cp[i]);
      assert n in SlotTypes(more, more[i]);
    }
  }

  // ----- The writer -----------------------------------------------------------

  const MAX_COUNT: nat := 0xFFFE

  class ClassWriter {
    var pool: seq<byte>
    var count: nat  // the last index taken; slot 0 is reserved
    ghost var entries: seq<G.Const>

    constructor ()
      ensures Valid() && count == 0 && entries == []
    {
      pool := [];
      count := 0;
      entries := [];
    }

    ghost function Cps(): seq<Cp>
      reads this
    {
      Table(entries)
    }

    /** The bytes are the printed entries, and the count is their last slot. */
    ghost predicate Valid()
      reads this
    {
      && count <= MAX_COUNT && |Cps()| == count + 1
      && G.GoodPool(entries) && G.Fills(entries, 1, count + 1)
      && (forall tail :: G.PutPool(entries, tail) == pool + tail)
      && Closed(Cps())
    }

    method Add(entry: seq<byte>, ghost e: G.Const) returns (index: u16)
      requires Valid() && count < MAX_COUNT
      requires e.Good() && !e.Wide?
      requires Inside(Slots(e)[0], count + 1)
      requires forall tail :: G.PutConst(e, tail) == entry + tail
      modifies this
      ensures Valid() && index == count == old(count) + 1
      ensures entries == old(entries) + [e] && Cps() == old(Cps()) + Slots(e)
    {
      hide G.PutConst, G.PutPool, G.Fills, Texts, Types, SlotTypes, Table;
      TableGrows(entries, e);
      SlotAdded(Cps(), Slots(e)[0]);
      PoolAdded(entries, e, pool, entry, count);
      assert Slots(e) == [Slots(e)[0]];
      entries := entries + [e];
      pool := pool + entry;
      count := count + 1;
      index := count;
    }

    method Utf8(s: string) returns (index: u16)
      requires Valid() && count < MAX_COUNT && Utf8Fits(s)
      modifies this
      ensures Valid() && index == count == old(count) + 1
      ensures Cps() == old(Cps()) + [Cp.Utf8(s)]
      ensures Grew(old(Cps()), Cps(), {s}, {})
    {
      hide G.PutPool, G.Fills, Texts, Types, Table, U2, G.PutU2, Closed;
      hide Encode, Lossy;
      var raw := Encode(s);
      LossyOfEncoded(s);
      ghost var e := G.Utf8(raw);
      var entry := [1] + U2(|raw|) + raw;
      forall tail ensures G.PutConst(e, tail) == entry + tail {
        U2Appends(|raw|, raw + tail);
      }
      SlotAdded(Cps(), Cp.Utf8(s));
      index := Add(entry, e);
    }

    method Class(binary: string) returns (index: u16)
      requires Valid() && count + 1 < MAX_COUNT && Utf8Fits(binary)
      modifies this
      ensures Valid() && index == count == old(count) + 2
      ensures Cps() == old(Cps()) + [Cp.Utf8(binary), Cp.Class(index - 1)]
      ensures Grew(old(Cps()), Cps(), {binary}, D.PushType(binary))
    {
      hide G.PutPool, G.Fills, Texts, Types, Table, U2, G.PutU2, Closed, D.PushType;
      var n := Utf8(binary);
      label named:
      forall tail ensures G.PutConst(G.Class(n), tail) == ([7] + U2(n)) + tail {
        U2Appends(n, tail);
      }
      SlotAdded(Cps(), Cp.Class(n));
      index := Add([7] + U2(n), G.Class(n));
      GrewOn(old(Cps()), old@named(Cps()), Cps(), {binary}, {}, {}, D.PushType(binary));
      assert {binary} + {} == {binary};
    }

    method Integer(v: i32) returns (index: u16)
      requires Valid() && count < MAX_COUNT
      modifies this
      ensures Valid() && index == count == old(count) + 1
      ensures Cps() == old(Cps()) + [Cp.Integer(v)]
      ensures Grew(old(Cps()), Cps(), {}, {})
    {
      hide G.PutPool, G.Fills, Texts, Types, Table, U4, G.PutU4, Closed;
      ghost var e := G.Integer(Bits(v));
      forall tail ensures G.PutConst(e, tail) == ([3] + U4(Bits(v))) + tail {
        U4Appends(Bits(v), tail);
      }
      SlotAdded(Cps(), Cp.Integer(v));
      assert Signed(Bits(v)) == v;
      index := Add([3] + U4(Bits(v)), e);
    }

    /** A Long takes two slots, the second of them unusable. */
    method Long(high: u32, low: u32) returns (index: u16)
      requires Valid() && count + 1 < MAX_COUNT
      modifies this
      ensures Valid() && index == old(count) + 1 && count == old(count) + 2
      ensures Cps() == old(Cps()) + [Cp.Other, Cp.Skip]
    {
      hide G.PutPool, G.Fills, Texts, Types, Table, U4, G.PutU4, Closed;
      ghost var e := G.Wide(5, high, low);
      var entry := [5] + U4(high) + U4(low);
      forall tail ensures G.PutConst(e, tail) == entry + tail {
        U4Appends(high, G.PutU4(low, tail));
        U4Appends(low, tail);
      }
      TableGrows(entries, e);
      SlotAdded(Cps(), Cp.Other);
      SlotAdded(Cps() + [Cp.Other], Cp.Skip);
      assert Cps() + [Cp.Other, Cp.Skip] == (Cps() + [Cp.Other]) + [Cp.Skip];
      PoolAdded(entries, e, pool, entry, count);
      entries := entries + [e];
      pool := pool + entry;
      count := count + 1;
      index := count;
      count := count + 1;
    }

    method NameAndType(name: string, desc: string) returns (index: u16)
      requires Valid() && count + 2 < MAX_COUNT && Utf8Fits(name) && Utf8Fits(desc)
      modifies this
      ensures Valid() && index == count == old(count) + 3
      ensures Cps() == old(Cps()) + [Cp.Utf8(name), Cp.Utf8(desc), Cp.NameAndType(index - 2, index - 1)]
    {
      hide G.PutPool, G.Fills, Texts, Types, Table, U2, G.PutU2, Closed, Grew;
      var n := Utf8(name);
      var d := Utf8(desc);
      var entry := [12] + U2(n) + U2(d);
      forall tail ensures G.PutConst(G.NameAndType(n, d), tail) == entry + tail {
        U2Appends(n, G.PutU2(d, tail));
        U2Appends(d, tail);
      }
      index := Add(entry, G.NameAndType(n, d));
    }

    /** A method reference resolves to the owner and the method it was given. */
    method Methodref(owner: string, name: string, desc: string) returns (index: u16)
      requires Valid() && count + 5 < MAX_COUNT && Utf8Fits(owner) && Utf8Fits(name) && Utf8Fits(desc)
      modifies this
      ensures Valid() && index == count == old(count) + 6
      ensures Cps() == old(Cps())
                + [Cp.Utf8(owner), Cp.Class(index - 5), Cp.Utf8(name), Cp.Utf8(desc),
                   Cp.NameAndType(index - 3, index - 2), Cp.Ref(index - 4, index - 1)]
      ensures var cp := Cps();
              && cp[index].Ref?
              && ClassNameAt(cp, cp[index].class_) == Some(owner)
              && NtNameAt(cp, cp[index].nameAndType) == Some(name)
    {
      hide G.PutPool, G.Fills, Texts, Types, Table, U2, G.PutU2, Closed, Grew;
      var c := Class(owner);
      var nt := NameAndType(name, desc);
      var entry := [10] + U2(c) + U2(nt);
      forall tail ensures G.PutConst(G.Member(10, c, nt), tail) == entry + tail {
        U2Appends(c, G.PutU2(nt, tail));
        U2Appends(nt, tail);
      }
      index := Add(entry, G.Member(10, c, nt));
    }

    /** `build_with`: the header, the pool and the class-level attributes; no
        fields and no methods. */
    method BuildWith(thisIndex: u16, superIndex: u16, interfaces: seq<u16>, classAttrs: seq<byte>,
                     attrN: u16, ghost attrs: seq<G.Attr>) returns (out: seq<byte>)
      requires Valid() && |interfaces| < 0x1_0000 && G.GoodAttrs(attrs)
      requires classAttrs == G.PutMany(attrs, G.PutAttr, []) && attrN == |attrs|
      ensures G.ReadClass(out) == Parsed(Assembled(entries, count, thisIndex, superIndex, interfaces, attrs), [])
    {
      hide G.PutClass, G.ReadClass, U2, U4;
      ghost var cf := Assembled(entries, count, thisIndex, superIndex, interfaces, attrs);
      out := U4(G.MAGIC) + U2(0) + U2(52) + U2(count + 1) + pool;
      out := out + U2(0x21) + U2(thisIndex) + U2(superIndex) + U2(|interfaces|);
      var listed := ListIndices(interfaces);
      out := out + listed + U2(0) + U2(0) + U2(attrN) + classAttrs;
      Layout(cf, pool, listed, classAttrs);
      G.ClassLaw(cf, []);
    }
  }

  method ListIndices(interfaces: seq<u16>) returns (b: seq<byte>)
    ensures forall tail :: G.PutMany(interfaces, G.PutU2, tail) == b + tail
  {
    hide G.PutU2, U2;
    b := [];
    for i := 0 to |interfaces|
      invariant forall tail :: G.PutMany(interfaces, G.PutU2, tail) == b + G.PutMany(interfaces[i..], G.PutU2, tail)
    {
      assert interfaces[i..][1..] == interfaces[i + 1..];
      forall tail ensures G.PutMany(interfaces, G.PutU2, tail)
                       == (b + U2(interfaces[i])) + G.PutMany(interfaces[i + 1..], G.PutU2, tail)
      {
        var more := G.PutMany(interfaces[i + 1..], G.PutU2, tail);
        U2Appends(interfaces[i], more);
        Assoc(b, U2(interfaces[i]), more);
      }
      b := b + U2(interfaces[i]);
    }
  }

  /** The pieces in the order the writer appends them are the printed file. */
  lemma Layout(cf: G.ClassFile, pool: seq<byte>, listed: seq<byte>, attrs: seq<byte>)
    requires cf.minor == 0 && cf.major == 52 && cf.fields == [] && cf.methods == []
    requires |cf.interfaces| < 0x1_0000 && |cf.attributes| < 0x1_0000
    requires forall tail :: G.PutPool(cf.pool, tail) == pool + tail
    requires forall tail :: G.PutMany(cf.interfaces, G.PutU2, tail) == listed + tail
    requires attrs == G.PutMany(cf.attributes, G.PutAttr, [])
    ensures G.PutClass(cf, [])
         == (((U4(G.MAGIC) + U2(0) + U2(52) + U2(cf.poolCount) + pool)
              + U2(cf.access) + U2(cf.thisClass) + U2(cf.superClass) + U2(|cf.interfaces|))
             + listed) + U2(0) + U2(0) + U2(|cf.attributes|) + attrs
  {
    hide G.PutU2, G.PutU4, U2, U4, G.PutPool;
    var n := U2(|cf.attributes|);
    var members := G.PutU2(0, G.PutU2(0, G.PutU2(|cf.attributes|, attrs)));
    U2Appends(|cf.attributes|, attrs);
    U2Appends(0, n + attrs);
    U2Appends(0, U2(0) + (n + attrs));
    assert members == U2(0) + (U2(0) + (n + attrs));
    assert G.PutMembers(cf.methods, G.PutAttrs(cf.attributes, [])) == U2(0) + (n + attrs);
    assert G.PutMembers(cf.fields, G.PutMembers(cf.methods, G.PutAttrs(cf.attributes, []))) == members;
    var body := G.PutBody(cf, []);
    Extend3(G.MAGIC, 0, 52, cf.poolCount, pool, body);
    var head := U4(G.MAGIC) + U2(0) + U2(52) + U2(cf.poolCount) + pool;
    assert G.PutClass(cf, []) == head + body;
    Extend4(head, cf.access, cf.thisClass, cf.superClass, |cf.interfaces|, listed + members);
    var h := head + U2(cf.access) + U2(cf.thisClass) + U2(cf.superClass) + U2(|cf.interfaces|);
    Tail(h, listed, U2(0), n, attrs);
  }

  lemma Tail(h: seq<byte>, listed: seq<byte>, z: seq<byte>, n: seq<byte>, attrs: seq<byte>)
    ensures h + (listed + (z + (z + (n + attrs)))) == ((((h + listed) + z) + z) + n) + attrs
  {
    Assoc(h, listed, z + (z + (n + attrs)));
    Assoc(h + listed, z, z + (n + attrs));
    Assoc((h + listed) + z, z, n + attrs);
    Assoc(((h + listed) + z) + z, n, attrs);
  }

  lemma Assoc(a: seq<byte>, b: seq<byte>, c: seq<byte>)
    ensures a + (b + c) == (a + b) + c
  {
  }

  lemma Extend3(magic: u32, a: u16, b: u16, c: u16, pool: seq<byte>, body: seq<byte>)
    ensures G.PutU4(magic, G.PutU2(a, G.PutU2(b, G.PutU2(c, pool + body))))
         == (U4(magic) + U2(a) + U2(b) + U2(c) + pool) + body
  {
    U4Appends(magic, G.PutU2(a, G.PutU2(b, G.PutU2(c, pool + body))));
    hide G.PutU4, U4, G.PutU2, U2;
    U2Appends(c, pool + body);
    U2Appends(b, G.PutU2(c, pool + body));
    U2Appends(a, G.PutU2(b, G.PutU2(c, pool + body)));
    Assoc(U4(magic), U2(a), U2(b) + (U2(c) + (pool + body)));
    Assoc(U4(magic) + U2(a), U2(b), U2(c) + (pool + body));
    Assoc(U4(magic) + U2(a) + U2(b), U2(c), pool + body);
    Assoc(U4(magic) + U2(a) + U2(b) + U2(c), pool, body);
  }

  lemma Extend4(h: seq<byte>, a: u16, b: u16, c: u16, d: u16, tail: seq<byte>)
    ensures h + G.PutU2(a, G.PutU2(b, G.PutU2(c, G.PutU2(d, tail))))
         == (h + U2(a) + U2(b) + U2(c) + U2(d)) + tail
  {
    hide G.PutU2, U2;
    U2Appends(a, G.PutU2(b, G.PutU2(c, G.PutU2(d, tail))));
    U2Appends(b, G.PutU2(c, G.PutU2(d, tail)));
    U2Appends(c, G.PutU2(d, tail));
    U2Appends(d, tail);
    Assoc(h, U2(a), U2(b) + (U2(c) + (U2(d) + tail)));
    Assoc(h + U2(a), U2(b), U2(c) + (U2(d) + tail));
    Assoc(h + U2(a) + U2(b), U2(c), U2(d) + tail);
    Assoc(h + U2(a) + U2(b) + U2(c), U2(d), tail);
  }

  ghost function Assembled(entries: seq<G.Const>, count: nat, thisIndex: u16, superIndex: u16,
                           interfaces: seq<u16>, attrs: seq<G.Attr>): (cf: G.ClassFile)
    requires count <= MAX_COUNT
    requires G.GoodPool(entries) && G.Fills(entries, 1, count + 1)
    requires |interfaces| < 0x1_0000 && G.GoodAttrs(attrs)
    ensures cf.Good()
  {
    G.ClassFile(0, 52, count + 1, entries, 0x21, thisIndex, superIndex, interfaces, [], [], attrs)
  }

  lemma PoolAdded(entries: seq<G.Const>, e: G.Const, pool: seq<byte>, entry: seq<byte>, count: nat)
    requires G.GoodPool(entries) && e.Good() && G.Fills(entries, 1, count + 1)
    requires |Table(entries)| == count + 1 && count + 1 + e.Width() < 0x1_0000
    requires forall tail :: G.PutPool(entries, tail) == pool + tail
    requires forall tail :: G.PutConst(e, tail) == entry + tail
    ensures G.GoodPool(entries + [e])
    ensures G.Fills(entries + [e], 1, count + 1 + e.Width())
    ensures forall tail :: G.PutPool(entries + [e], tail) == (pool + entry) + tail
  {
    hide G.PutConst;
    SlotCount(entries);
    FillsGrows(entries, e, 1, count + 1);
    forall tail ensures G.PutPool(entries + [e], tail) == (pool + entry) + tail {
      PoolAppend(entries, e, tail);
      assert pool + (entry + tail) == (pool + entry) + tail;
    }
  }

  function Widths(entries: seq<G.Const>): nat
  {
    if entries == [] then 0 else entries[0].Width() + Widths(entries[1..])
  }

  lemma {:induction false} SlotCount(entries: seq<G.Const>)
    ensures |PoolSlots(entries)| == Widths(entries)
  {
    if entries != [] {
      var n := |entries| - 1;
      SlotCount(entries[..n]);
      WidthsSplit(entries[..n], entries[n]);
      assert entries == entries[..n] + [entries[n]];
    }
  }

  lemma {:induction false} WidthsSplit(entries: seq<G.Const>, e: G.Const)
    ensures Widths(entries + [e]) == Widths(entries) + e.Width()
  {
    if entries == [] {
      assert [e][1..] == [];
    } else {
      assert (entries + [e])[1..] == entries[1..] + [e];
      WidthsSplit(entries[1..], e);
    }
  }

  lemma {:induction false} FillsGrows(entries: seq<G.Const>, e: G.Const, next: nat, count: nat)
    requires next + Widths(entries) == count && count + e.Width() < 0x1_0000
    ensures G.Fills(entries + [e], next, count + e.Width())
  {
    if entries == [] {
      assert ([] + [e])[1..] == [];
    } else {
      var rest := entries[1..] + [e];
      assert (entries + [e])[1..] == rest && (entries + [e])[0] == entries[0];
      FillsGrows(entries[1..], e, next + entries[0].Width(), count);
      assert G.Next(next, entries[0]) == next + entries[0].Width();
      hide Widths;
    }
  }

  lemma {:induction false} PoolAppend(entries: seq<G.Const>, e: G.Const, tail: seq<byte>)
    ensures G.PutPool(entries + [e], tail) == G.PutPool(entries, G.PutConst(e, tail))
  {
    hide G.PutConst;
    if entries == [] {
      assert entries + [e] == [e] && [e][1..] == [];
      assert G.PutMany([e], G.PutConst, tail) == G.PutConst(e, tail);
    } else {
      assert (entries + [e])[1..] == entries[1..] + [e];
      PoolAppend(entries[1..], e, tail);
    }
  }
}
