/** Where the numbers of a class file stand, byte by byte (sections 4.1 to 4.7.16 of
    the Java Virtual Machine Specification, SE 8): what the printers of the grammar
    write, said by position. */
module ClassLayout {
  import opened Base
  import U = Utf8Codec
  import G = ClassGrammar
  import F = ClassFacts

  // ----- Numbers ---------------------------------------------------------------------

  /** Two bytes, the high one first. */
  predicate U2At(b: seq<byte>, i: nat, x: int)
  {
    i + 2 <= |b| && (b[i] as int) * 0x100 + (b[i + 1] as int) == x
  }

  predicate U4At(b: seq<byte>, i: nat, x: int)
  {
    && i + 4 <= |b|
    && (b[i] as int) * 0x100_0000 + (b[i + 1] as int) * 0x1_0000 + (b[i + 2] as int) * 0x100 + (b[i + 3] as int) == x
  }

  lemma U2Layout(x: u16, tail: seq<byte>)
    ensures U2At(G.PutU2(x, tail), 0, x) && G.PutU2(x, tail)[2..] == tail
  {
  }

  lemma U4Layout(x: u32, tail: seq<byte>)
    ensures U4At(G.PutU4(x, tail), 0, x) && G.PutU4(x, tail)[4..] == tail
  {
    var hi, lo := x / 0x1_0000, x % 0x1_0000;
    U2Layout(lo, tail);
    U2Layout(hi, G.PutU2(lo, tail));
    assert G.PutU4(x, tail)[4..] == G.PutU2(lo, tail)[2..];
  }

  /** One number, then a text that starts at `i`. */
  lemma U2Behind(front: seq<byte>, x: u16, tail: seq<byte>)
    ensures var b := front + G.PutU2(x, tail); U2At(b, |front|, x) && b[|front| + 2..] == tail
  {
    U2Layout(x, tail);
  }

  lemma U4Behind(front: seq<byte>, x: u32, tail: seq<byte>)
    ensures var b := front + G.PutU4(x, tail); U4At(b, |front|, x) && b[|front| + 4..] == tail
  {
    U4Layout(x, tail);
  }

  lemma TwoU2Behind(front: seq<byte>, x: u16, y: u16, tail: seq<byte>)
    ensures var b := front + G.PutU2(x, G.PutU2(y, tail));
            U2At(b, |front|, x) && U2At(b, |front| + 2, y) && b[|front| + 4..] == tail
  {
    U2Behind(front, x, G.PutU2(y, tail));
    U2Layout(y, tail);
    var b := front + G.PutU2(x, G.PutU2(y, tail));
    assert b[|front| + 2..] == G.PutU2(y, tail) && b[|front| + 4..] == G.PutU2(y, tail)[2..];
  }

  lemma Behind(front: seq<byte>, rest: seq<byte>, i: nat, x: int)
    requires U2At(rest, i, x)
    ensures U2At(front + rest, |front| + i, x)
  {
  }

  // ----- Constants -------------------------------------------------------------------

  /** A tag, then what section 4.4 puts behind it. */
  lemma ConstLayout(c: G.Const, tail: seq<byte>)
    requires c.Good()
    ensures var b := G.PutConst(c, tail);
            && |b| > 2
            && match c
               case Utf8(raw) => b[0] == 1 && U2At(b, 1, |raw|) && b[3..] == raw + tail
               case Integer(bits) => b[0] == 3 && U4At(b, 1, bits) && b[5..] == tail
               case Float(bits) => b[0] == 4 && U4At(b, 1, bits) && b[5..] == tail
               case Wide(tag, high, low) =>
                 b[0] == tag && 5 <= b[0] <= 6 && U4At(b, 1, high) && U4At(b, 5, low) && b[9..] == tail
               case Class(name) => b[0] == 7 && U2At(b, 1, name) && b[3..] == tail
               case String(text) => b[0] == 8 && U2At(b, 1, text) && b[3..] == tail
               case Member(tag, owner, nt) =>
                 b[0] == tag && 9 <= b[0] <= 11 && U2At(b, 1, owner) && U2At(b, 3, nt) && b[5..] == tail
               case NameAndType(name, desc) => b[0] == 12 && U2At(b, 1, name) && U2At(b, 3, desc) && b[5..] == tail
               case MethodHandle(kind, index) => b[0] == 15 && b[1] == kind && U2At(b, 2, index) && b[4..] == tail
               case MethodType(desc) => b[0] == 16 && U2At(b, 1, desc) && b[3..] == tail
               case Dynamic(tag, boot, nt) =>
                 b[0] == tag && 17 <= b[0] <= 18 && U2At(b, 1, boot) && U2At(b, 3, nt) && b[5..] == tail
               case Unit(tag, name) => b[0] == tag && 19 <= b[0] <= 20 && U2At(b, 1, name) && b[3..] == tail
  {
    hide G.PutU2, G.PutU4, U2At, U4At;
    match c
    case Utf8(raw) => U2Behind([1], |raw|, raw + tail); U2At2(G.PutConst(c, tail), 1, |raw|);
    case Integer(bits) => U4Behind([3], bits, tail); U4At4(G.PutConst(c, tail), 1, bits);
    case Float(bits) => U4Behind([4], bits, tail); U4At4(G.PutConst(c, tail), 1, bits);
    case Wide(tag, high, low) =>
      U4Behind([tag], high, G.PutU4(low, tail));
      var b := G.PutConst(c, tail);
      assert b[..5] + G.PutU4(low, tail) == b;
      U4At4(b, 1, high);
      U4Behind(b[..5], low, tail);
    case Class(name) => U2Behind([7], name, tail); U2At2(G.PutConst(c, tail), 1, name);
    case String(text) => U2Behind([8], text, tail); U2At2(G.PutConst(c, tail), 1, text);
    case Member(tag, owner, nt) => TwoU2Behind([tag], owner, nt, tail); U2At2(G.PutConst(c, tail), 1, owner);
    case NameAndType(name, desc) => TwoU2Behind([12], name, desc, tail); U2At2(G.PutConst(c, tail), 1, name);
    case MethodHandle(kind, index) =>
      assert G.PutConst(c, tail) == [15, kind] + G.PutU2(index, tail);
      U2Behind([15, kind], index, tail);
      U2At2(G.PutConst(c, tail), 2, index);
    case MethodType(desc) => U2Behind([16], desc, tail); U2At2(G.PutConst(c, tail), 1, desc);
    case Dynamic(tag, boot, nt) => TwoU2Behind([tag], boot, nt, tail); U2At2(G.PutConst(c, tail), 1, boot);
    case Unit(tag, name) => U2Behind([tag], name, tail); U2At2(G.PutConst(c, tail), 1, name);
  }

  lemma U2At2(b: seq<byte>, i: nat, x: int)
    requires U2At(b, i, x)
    ensures i + 2 <= |b|
  {
  }

  lemma U4At4(b: seq<byte>, i: nat, x: int)
    requires U4At(b, i, x)
    ensures i + 4 <= |b|
  {
  }

  /** What an entry is as its slots show it, from the bytes it was read off: which number
      is the owner and which the member. */
  lemma SlotsOfBytes(b: seq<byte>)
    requires G.ReadConst(b).Parsed?
    ensures var s := F.Slots(G.ReadConst(b).value);
            && |b| > 2
            && (b[0] == 1 ==> exists n: nat :: U2At(b, 1, n) && 3 + n <= |b| && s == [F.Cp.Utf8(U.Lossy(b[3..3 + n]))])
            && (b[0] == 3 ==> exists v: i32 :: U4At(b, 1, Bits(v)) && s == [F.Integer(v)])
            && (b[0] == 5 || b[0] == 6 ==> s == [F.Other, F.Skip])
            && (b[0] == 7 ==> exists i: u16 :: U2At(b, 1, i) && s == [F.Cp.Class(i)])
            && (9 <= b[0] <= 11 ==> exists i: u16, j: u16 :: U2At(b, 1, i) && U2At(b, 3, j) && s == [F.Ref(i, j)])
            && (b[0] == 12 ==> exists i: u16, j: u16 ::
                  U2At(b, 1, i) && U2At(b, 3, j) && s == [F.Cp.NameAndType(i, j)])
            && (b[0] in {4, 8, 15, 16, 17, 18, 19, 20} ==> s == [F.Other])
            && b[0] in {1, 3, 4, 5, 6, 7, 8, 9, 10, 11, 12, 15, 16, 17, 18, 19, 20}
  {
    var c, rest := G.ReadConst(b).value, G.ReadConst(b).rest;
    G.ConstInverse(b);
    ConstLayout(c, rest);
    hide G.ReadConst, G.PutConst, U2At, U4At, U.Lossy;
    if c.Utf8? {
      U2At2(b, 1, |c.raw|);
      assert b[3..3 + |c.raw|] == c.raw;
    }
    if c.Integer? {
      assert U4At(b, 1, Bits(Signed(c.bits)));
    }
  }

  // ----- Attributes and members ----------------------------------------------------------

  lemma AttrLayout(a: G.Attr, tail: seq<byte>)
    requires |a.body| < 0x1_0000_0000
    ensures var b := G.PutAttr(a, tail); U2At(b, 0, a.name) && U4At(b, 2, |a.body|) && b[6..] == a.body + tail
  {
    var inner := G.PutU4(|a.body|, a.body + tail);
    var b := G.PutU2(a.name, inner);
    U2Layout(a.name, inner);
    assert b[..2] + inner == b;
    hide G.PutU2, G.PutU4;
    U4Behind(b[..2], |a.body|, a.body + tail);
  }

  /** Any table is its number of rows, then the rows. */
  lemma AttrsLayout(attrs: seq<G.Attr>, tail: seq<byte>)
    requires |attrs| < 0x1_0000
    ensures var b := G.PutAttrs(attrs, tail); U2At(b, 0, |attrs|) && b[2..] == G.PutMany(attrs, G.PutAttr, tail)
  {
    hide G.PutAttr, G.PutMany;
    U2Layout(|attrs|, G.PutMany(attrs, G.PutAttr, tail));
  }

  lemma MembersLayout(ms: seq<G.MemberInfo>, tail: seq<byte>)
    requires |ms| < 0x1_0000
    ensures var b := G.PutMembers(ms, tail); U2At(b, 0, |ms|) && b[2..] == G.PutMany(ms, G.PutMember, tail)
  {
    hide G.PutMember, G.PutMany;
    U2Layout(|ms|, G.PutMany(ms, G.PutMember, tail));
  }

  /** Rows follow one another in their order. */
  lemma {:induction false} ManyInOrder<T>(a: seq<T>, b: seq<T>, put: (T, seq<byte>) -> seq<byte>, tail: seq<byte>)
    ensures G.PutMany(a + b, put, tail) == G.PutMany(a, put, G.PutMany(b, put, tail))
  {
    if a == [] {
      assert a + b == b;
    } else {
      assert (a + b)[1..] == a[1..] + b;
      ManyInOrder(a[1..], b, put, tail);
    }
  }

  lemma MemberLayout(m: G.MemberInfo, tail: seq<byte>)
    ensures var b := G.PutMember(m, tail);
            && U2At(b, 0, m.access) && U2At(b, 2, m.name) && U2At(b, 4, m.descriptor)
            && b[6..] == G.PutAttrs(m.attributes, tail)
  {
    Three(m.access, m.name, m.descriptor, G.PutAttrs(m.attributes, tail));
  }

  lemma Three(x: u16, y: u16, z: u16, tail: seq<byte>)
    ensures var b := G.PutU2(x, G.PutU2(y, G.PutU2(z, tail)));
            U2At(b, 0, x) && U2At(b, 2, y) && U2At(b, 4, z) && b[6..] == tail
  {
    var two := G.PutU2(z, tail);
    TwoU2Behind([], x, y, two);
    var b := G.PutU2(x, G.PutU2(y, two));
    assert [] + b == b && b[..4] + two == b;
    U2Behind(b[..4], z, tail);
  }

  // ----- The file ----------------------------------------------------------------------------

  /** The magic number, two versions and the pool's count, then the pool. */
  lemma HeadLayout(cf: G.ClassFile, tail: seq<byte>)
    ensures var b := G.PutClass(cf, tail);
            && |b| >= 10 && b[..4] == [0xCA, 0xFE, 0xBA, 0xBE]
            && U2At(b, 4, cf.minor) && U2At(b, 6, cf.major) && U2At(b, 8, cf.poolCount)
            && b[10..] == G.PutPool(cf.pool, G.PutBody(cf, tail))
  {
    var pool := G.PutPool(cf.pool, G.PutBody(cf, tail));
    var rest := G.PutU2(cf.minor, G.PutU2(cf.major, G.PutU2(cf.poolCount, pool)));
    Three(cf.minor, cf.major, cf.poolCount, pool);
    var b := G.PutU4(G.MAGIC, rest);
    assert b == G.PutClass(cf, tail);
    U4Layout(G.MAGIC, rest);
    assert b == [0xCA, 0xFE, 0xBA, 0xBE] + rest;
    hide G.PutU2, G.PutU4, G.PutPool, G.PutBody, G.PutClass;
    Behind([0xCA, 0xFE, 0xBA, 0xBE], rest, 0, cf.minor);
    Behind([0xCA, 0xFE, 0xBA, 0xBE], rest, 2, cf.major);
    Behind([0xCA, 0xFE, 0xBA, 0xBE], rest, 4, cf.poolCount);
    assert b[10..] == rest[6..];
  }

  /** Flags, this class, its super class, the interfaces, fields, methods and the
      attributes of the class. */
  lemma BodyLayout(cf: G.ClassFile, tail: seq<byte>)
    requires |cf.interfaces| < 0x1_0000
    ensures var (b, n) := (G.PutBody(cf, tail), |cf.interfaces|);
            && |b| >= 8 + 2 * n
            && U2At(b, 0, cf.access) && U2At(b, 2, cf.thisClass) && U2At(b, 4, cf.superClass) && U2At(b, 6, n)
            && (forall i :: 0 <= i < n ==> U2At(b, 8 + 2 * i, cf.interfaces[i]))
            && b[8 + 2 * n..] == G.PutMembers(cf.fields, G.PutMembers(cf.methods, G.PutAttrs(cf.attributes, tail)))
  {
    var n := |cf.interfaces|;
    var rest := G.PutMembers(cf.fields, G.PutMembers(cf.methods, G.PutAttrs(cf.attributes, tail)));
    var names := G.PutMany(cf.interfaces, G.PutU2, rest);
    var b := G.PutBody(cf, tail);
    hide G.PutMembers, G.PutAttrs;
    Three(cf.access, cf.thisClass, cf.superClass, G.PutU2(n, names));
    assert b[..6] + G.PutU2(n, names) == b;
    hide G.PutU2, G.PutMany, G.PutMembers, G.PutAttrs, G.PutBody;
    U2Behind(b[..6], n, names);
    InterfacesLayout(cf.interfaces, rest);
    assert b[..8] + names == b;
    hide U2At;
    forall i | 0 <= i < n ensures U2At(b, 8 + 2 * i, cf.interfaces[i]) {
      Behind(b[..8], names, 2 * i, cf.interfaces[i]);
    }
    assert b[8 + 2 * n..] == names[2 * n..];
  }

  lemma {:induction false} InterfacesLayout(names: seq<u16>, rest: seq<byte>)
    ensures var b := G.PutMany(names, G.PutU2, rest);
            && |b| == 2 * |names| + |rest| && b[2 * |names|..] == rest
            && forall i :: 0 <= i < |names| ==> U2At(b, 2 * i, names[i])
  {
    if names != [] {
      var b, more := G.PutMany(names, G.PutU2, rest), G.PutMany(names[1..], G.PutU2, rest);
      InterfacesLayout(names[1..], rest);
      U2Layout(names[0], more);
      hide G.PutU2;
      forall i | 0 <= i < |names| ensures U2At(b, 2 * i, names[i]) {
        if i > 0 {
          assert U2At(more, 2 * (i - 1), names[1..][i - 1]);
          assert b[2..][2 * (i - 1)] == b[2 * i] && b[2..][2 * (i - 1) + 1] == b[2 * i + 1];
        }
      }
      assert b[2 * |names|..] == b[2..][2 * (|names| - 1)..];
    }
  }

  // ----- Annotations ---------------------------------------------------------------------------

  /** The letters of constant elements. */
  lemma ConstLetters(tag: byte)
    ensures G.ConstTag(tag) <==> tag in {'B' as int, 'C' as int, 'D' as int, 'F' as int, 'I' as int, 'J' as int,
                                         'S' as int, 'Z' as int, 's' as int}
  {
  }

  /** Section 4.7.16.1: the tag is the letter the specification gives. */
  lemma ElemLayout(e: G.Elem, tail: seq<byte>)
    requires G.GoodElem(e)
    ensures var b := G.PutElem(e, tail);
            && |b| > 0
            && (e.Const? ==> b[0] == e.tag && (b[0] as char) in "BCDFIJSZs" && U2At(b, 1, e.index) && b[3..] == tail)
            && (e.Enum? ==>
                  b[0] == 'e' as int && U2At(b, 1, e.typeName) && U2At(b, 3, e.constName) && b[5..] == tail)
            && (e.ClassInfo? ==> b[0] == 'c' as int && U2At(b, 1, e.index) && b[3..] == tail)
            && (e.Nested? ==> b[0] == '@' as int && b[1..] == G.PutAnnotation(e.annotation, tail))
            && (e.Array? ==> b[0] == '[' as int && U2At(b, 1, |e.items|) && b[3..] == G.PutElems(e.items, tail))
  {
    var b := G.PutElem(e, tail);
    hide G.PutU2, U2At;
    match e
    case Const(tag, index) => U2Behind([tag], index, tail); U2At2(b, 1, index);
    case Enum(t, c) => TwoU2Behind([101], t, c, tail); U2At2(b, 1, t);
    case ClassInfo(index) => U2Behind([99], index, tail); U2At2(b, 1, index);
    case Nested(a) =>
    case Array(items) => U2Behind([91], |items|, G.PutElems(items, tail)); U2At2(b, 1, |items|);
  }

  /** What is kept of an element, from the bytes it was read off: of an enum constant the
      second number, its name; of a nested annotation nothing. */
  lemma CapturedOfBytes(b: seq<byte>)
    requires G.ReadElem(b).Parsed?
    ensures var v := F.Captured(G.ReadElem(b).value);
            && (b[0] == 'e' as int ==> exists i: u16 :: U2At(b, 3, i) && v == Some(F.EnumName(i)))
            && (b[0] == 'c' as int ==> exists i: u16 :: U2At(b, 1, i) && v == Some(F.ClassConst(i)))
            && (b[0] == '@' as int ==> v == None)
            && (b[0] == '[' as int ==> v.Some? && v.value.Items? && U2At(b, 1, |v.value.items|))
            && (v.Some? && v.value.Prim? <==> (b[0] as char) in "BCDFIJSZs")
            && (v.Some? && v.value.Prim? ==> v.value.tag == b[0] && U2At(b, 1, v.value.index))
  {
    var e, rest := G.ReadElem(b).value, G.ReadElem(b).rest;
    G.ElemInverse(b);
    ElemLayout(e, rest);
    hide G.ReadElem, G.PutElem, U2At, G.GoodElem;
  }

  lemma AnnotationLayout(a: G.Annotation, p: G.Pair, tail: seq<byte>)
    requires |a.pairs| < 0x1_0000
    ensures var b := G.PutAnnotation(a, tail);
            U2At(b, 0, a.typeIndex) && U2At(b, 2, |a.pairs|) && b[4..] == G.PutPairs(a.pairs, tail)
    ensures var b := G.PutPair(p, tail); U2At(b, 0, p.name) && b[2..] == G.PutElem(p.value, tail)
  {
    var rest := G.PutPairs(a.pairs, tail);
    TwoU2Behind([], a.typeIndex, |a.pairs|, rest);
    assert [] + G.PutAnnotation(a, tail) == G.PutAnnotation(a, tail);
    U2Layout(p.name, G.PutElem(p.value, tail));
  }
}
