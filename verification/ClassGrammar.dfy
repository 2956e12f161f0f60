/** The class-file format as a grammar: every structure of the Java Virtual
    Machine Specification (SE 8) that src/authoring/classfile.rs reads, a printer
    `Put*` and a parser `Read*` for each, and the proof that the two are inverse
    in both directions.

    A printer takes the bytes that follow, so the two laws read
        Read(Put(x, tail)) == Parsed(x, tail)      and
        Read(b) == Parsed(x, tail)  ==>  b == Put(x, tail). */
module ClassGrammar {
  import opened Base

  // ----- Big-endian numbers and raw bytes ----------------------------------

  function PutU2(x: u16, tail: seq<byte>): seq<byte>
  {
    [x / 0x100, x % 0x100] + tail
  }

  function PutU4(x: u32, tail: seq<byte>): seq<byte>
  {
    PutU2(x / 0x1_0000, PutU2(x % 0x1_0000, tail))
  }

  function ReadU1(b: seq<byte>): (r: Parsed<byte>)
    ensures r.Parsed? ==> |r.rest| == |b| - 1
  {
    if b == [] then Malformed else Parsed(b[0], b[1..])
  }

  function ReadU2(b: seq<byte>): (r: Parsed<u16>)
    ensures r.Parsed? ==> |r.rest| == |b| - 2
  {
    var (hi, b1) :- ReadU1(b);
    var (lo, b2) :- ReadU1(b1);
    Parsed(hi * 0x100 + lo, b2)
  }

  function ReadU4(b: seq<byte>): (r: Parsed<u32>)
    ensures r.Parsed? ==> |r.rest| == |b| - 4
  {
    var (hi, b1) :- ReadU2(b);
    var (lo, b2) :- ReadU2(b1);
    Parsed(hi * 0x1_0000 + lo, b2)
  }

  function ReadBytes(n: nat, b: seq<byte>): (r: Parsed<seq<byte>>)
    ensures r.Parsed? ==> |r.value| == n && |r.rest| == |b| - n && b == r.value + r.rest
  {
    if |b| < n then Malformed else Parsed(b[..n], b[n..])
  }

  lemma U2Law(x: u16, tail: seq<byte>)
    ensures ReadU2(PutU2(x, tail)) == Parsed(x, tail)
  {
    assert PutU2(x, tail)[1..][1..] == tail;
  }

  lemma U2Inverse(b: seq<byte>)
    ensures ReadU2(b).Parsed? ==> b == PutU2(ReadU2(b).value, ReadU2(b).rest)
  {
  }

  lemma U4Law(x: u32, tail: seq<byte>)
    ensures ReadU4(PutU4(x, tail)) == Parsed(x, tail)
  {
    U2Law(x / 0x1_0000, PutU2(x % 0x1_0000, tail));
    U2Law(x % 0x1_0000, tail);
  }

  lemma U4Inverse(b: seq<byte>)
    ensures ReadU4(b).Parsed? ==> b == PutU4(ReadU4(b).value, ReadU4(b).rest)
  {
    hide ReadU2, PutU2;
    if ReadU4(b).Parsed? {
      U2Inverse(b);
      U2Inverse(ReadU2(b).rest);
    }
  }

  lemma BytesLaw(raw: seq<byte>, tail: seq<byte>)
    ensures ReadBytes(|raw|, raw + tail) == Parsed(raw, tail)
  {
    assert (raw + tail)[..|raw|] == raw;
  }

  // ----- Counted repetition -------------------------------------------------

  function ReadMany<T>(n: nat, read: seq<byte> -> Parsed<T>, b: seq<byte>): Parsed<seq<T>>
  {
    if n == 0 then Parsed([], b)
    else
      var (x, b1) :- read(b);
      var (xs, b2) :- ReadMany(n - 1, read, b1);
      Parsed([x] + xs, b2)
  }

  function PutMany<T>(xs: seq<T>, put: (T, seq<byte>) -> seq<byte>, tail: seq<byte>): seq<byte>
  {
    if xs == [] then tail else put(xs[0], PutMany(xs[1..], put, tail))
  }

  lemma {:induction false} ManyLaw<T(!new)>(
      xs: seq<T>, read: seq<byte> -> Parsed<T>, put: (T, seq<byte>) -> seq<byte>, tail: seq<byte>)
    requires forall x, t :: x in xs ==> read(put(x, t)) == Parsed(x, t)
    ensures ReadMany(|xs|, read, PutMany(xs, put, tail)) == Parsed(xs, tail)
  {
    if xs != [] {
      ManyLaw(xs[1..], read, put, tail);
      assert xs == [xs[0]] + xs[1..];
    }
  }

  lemma {:induction false} ManyInverse<T(!new)>(
      n: nat, read: seq<byte> -> Parsed<T>, put: (T, seq<byte>) -> seq<byte>, b: seq<byte>)
    requires forall c :: read(c).Parsed? ==> c == put(read(c).value, read(c).rest)
    ensures var r := ReadMany(n, read, b);
            r.Parsed? ==> |r.value| == n && b == PutMany(r.value, put, r.rest)
  {
    if n > 0 && ReadMany(n, read, b).Parsed? {
      ManyInverse(n - 1, read, put, read(b).rest);
      var r := ReadMany(n, read, b);
      assert r.value[1..] == ReadMany(n - 1, read, read(b).rest).value;
    }
  }

  // ----- Constant pool entries (section 4.4) --------------------------------

  datatype Const =
    | Utf8(raw: seq<byte>)
    | Integer(bits: u32)
    | Float(bits: u32)
    | Wide(tag: byte, high: u32, low: u32)
    | Class(name: u16)
    | String(text: u16)
    | Member(tag: byte, class_: u16, nameAndType: u16)
    | NameAndType(name: u16, descriptor: u16)
    | MethodHandle(kind: byte, index: u16)
    | MethodType(descriptor: u16)
    | Dynamic(tag: byte, bootstrap: u16, nameAndType: u16)
    | Unit(tag: byte, name: u16)
  {
    predicate Good()
    {
      match this
      case Utf8(raw) => |raw| < 0x1_0000
      case Wide(tag, _, _) => tag == 5 || tag == 6
      case Member(tag, _, _) => 9 <= tag <= 11
      case Dynamic(tag, _, _) => tag == 17 || tag == 18
      case Unit(tag, _) => tag == 19 || tag == 20
      case _ => true
    }

    /** Long and Double take two pool slots (section 4.4.5). */
    function Width(): nat
    {
      if Wide? then 2 else 1
    }
  }

  function PutConst(c: Const, tail: seq<byte>): seq<byte>
  {
    match c
    case Utf8(raw) => [1] + PutU2(|raw| % 0x1_0000, raw + tail)
    case Integer(bits) => [3] + PutU4(bits, tail)
    case Float(bits) => [4] + PutU4(bits, tail)
    case Wide(tag, high, low) => [tag] + PutU4(high, PutU4(low, tail))
    case Class(name) => [7] + PutU2(name, tail)
    case String(text) => [8] + PutU2(text, tail)
    case Member(tag, cls, nt) => [tag] + PutU2(cls, PutU2(nt, tail))
    case NameAndType(name, desc) => [12] + PutU2(name, PutU2(desc, tail))
    case MethodHandle(kind, index) => [15] + ([kind] + PutU2(index, tail))
    case MethodType(desc) => [16] + PutU2(desc, tail)
    case Dynamic(tag, boot, nt) => [tag] + PutU2(boot, PutU2(nt, tail))
    case Unit(tag, name) => [tag] + PutU2(name, tail)
  }

  function ReadConst(b: seq<byte>): (r: Parsed<Const>)
    ensures r.Parsed? ==> |r.rest| < |b|
  {
    var (tag, b1) :- ReadU1(b);
    if tag == 1 then
      var (len, b2) :- ReadU2(b1);
      var (raw, b3) :- ReadBytes(len, b2);
      Parsed(Utf8(raw), b3)
    else if tag == 3 then
      var (bits, b2) :- ReadU4(b1);
      Parsed(Integer(bits), b2)
    else if tag == 4 then
      var (bits, b2) :- ReadU4(b1);
      Parsed(Float(bits), b2)
    else if tag == 5 || tag == 6 then
      var (high, b2) :- ReadU4(b1);
      var (low, b3) :- ReadU4(b2);
      Parsed(Wide(tag, high, low), b3)
    else if tag == 7 then
      var (name, b2) :- ReadU2(b1);
      Parsed(Class(name), b2)
    else if tag == 8 then
      var (text, b2) :- ReadU2(b1);
      Parsed(String(text), b2)
    else if 9 <= tag <= 11 then
      var (cls, b2) :- ReadU2(b1);
      var (nt, b3) :- ReadU2(b2);
      Parsed(Member(tag, cls, nt), b3)
    else if tag == 12 then
      var (name, b2) :- ReadU2(b1);
      var (desc, b3) :- ReadU2(b2);
      Parsed(NameAndType(name, desc), b3)
    else if tag == 15 then
      var (kind, b2) :- ReadU1(b1);
      var (index, b3) :- ReadU2(b2);
      Parsed(MethodHandle(kind, index), b3)
    else if tag == 16 then
      var (desc, b2) :- ReadU2(b1);
      Parsed(MethodType(desc), b2)
    else if tag == 17 || tag == 18 then
      var (boot, b2) :- ReadU2(b1);
      var (nt, b3) :- ReadU2(b2);
      Parsed(Dynamic(tag, boot, nt), b3)
    else if tag == 19 || tag == 20 then
      var (name, b2) :- ReadU2(b1);
      Parsed(Unit(tag, name), b2)
    else
      Malformed
  }

  lemma ConstLaw(c: Const, tail: seq<byte>)
    requires c.Good()
    ensures ReadConst(PutConst(c, tail)) == Parsed(c, tail)
  {
    hide PutU2, PutU4, ReadU2, ReadU4;
    var after := PutConst(c, tail)[1..];
    match c
    case Utf8(raw) =>
      assert after == PutU2(|raw|, raw + tail);
      U2Law(|raw|, raw + tail);
      BytesLaw(raw, tail);
    case Integer(bits) => assert after == PutU4(bits, tail); U4Law(bits, tail);
    case Float(bits) => assert after == PutU4(bits, tail); U4Law(bits, tail);
    case Wide(_, high, low) =>
      assert after == PutU4(high, PutU4(low, tail));
      U4Law(high, PutU4(low, tail));
      U4Law(low, tail);
    case Class(name) => assert after == PutU2(name, tail); U2Law(name, tail);
    case String(text) => assert after == PutU2(text, tail); U2Law(text, tail);
    case Member(_, cls, nt) => assert after == PutU2(cls, PutU2(nt, tail)); TwoU2Law(cls, nt, tail);
    case NameAndType(name, desc) => assert after == PutU2(name, PutU2(desc, tail)); TwoU2Law(name, desc, tail);
    case MethodHandle(kind, index) =>
      assert after == [kind] + PutU2(index, tail);
      assert after[1..] == PutU2(index, tail);
      U2Law(index, tail);
    case MethodType(desc) => assert after == PutU2(desc, tail); U2Law(desc, tail);
    case Dynamic(_, boot, nt) => assert after == PutU2(boot, PutU2(nt, tail)); TwoU2Law(boot, nt, tail);
    case Unit(_, name) => assert after == PutU2(name, tail); U2Law(name, tail);
  }

  lemma TwoU2Law(x: u16, y: u16, tail: seq<byte>)
    ensures ReadU2(PutU2(x, PutU2(y, tail))) == Parsed(x, PutU2(y, tail))
    ensures ReadU2(PutU2(y, tail)) == Parsed(y, tail)
  {
    U2Law(x, PutU2(y, tail));
    U2Law(y, tail);
  }

  lemma ConstInverse(b: seq<byte>)
    ensures var r := ReadConst(b); r.Parsed? ==> r.value.Good() && b == PutConst(r.value, r.rest)
  {
    hide PutU2, PutU4, ReadU2, ReadU4;
    var r := ReadConst(b);
    if r.Parsed? {
      var tag, b1 := b[0], b[1..];
      assert b == [tag] + b1;
      if tag == 3 || tag == 4 {
        U4Inverse(b1);
      } else if tag == 5 || tag == 6 {
        U4Inverse(b1);
        U4Inverse(ReadU4(b1).rest);
      } else if tag == 15 {
        assert b1 == [b1[0]] + b1[1..];
        U2Inverse(b1[1..]);
      } else {
        U2Inverse(b1);
        if 9 <= tag <= 12 || 17 <= tag <= 18 {
          U2Inverse(ReadU2(b1).rest);
        }
      }
    }
  }

  // ----- The pool: entries until the index reaches the count ----------------

  /** The index behind an entry: sixteen bits, so a wide entry in slot 65534 leads
      back to 0. */
  function Next(index: nat, c: Const): nat
  {
    (index + c.Width()) % 0x1_0000
  }

  function ReadPool(next: nat, count: nat, b: seq<byte>): Parsed<seq<Const>>
    decreases |b|
  {
    if next >= count then Parsed([], b)
    else
      var (c, b1) :- ReadConst(b);
      var (cs, b2) :- ReadPool(Next(next, c), count, b1);
      Parsed([c] + cs, b2)
  }

  /** The entries take the slots from `next` on until the index is no longer below
      `count`. */
  predicate Fills(pool: seq<Const>, next: nat, count: nat)
  {
    if pool == [] then next >= count
    else next < count && Fills(pool[1..], Next(next, pool[0]), count)
  }

  predicate GoodPool(pool: seq<Const>)
  {
    forall c :: c in pool ==> c.Good()
  }

  function PutPool(pool: seq<Const>, tail: seq<byte>): seq<byte>
  {
    PutMany(pool, PutConst, tail)
  }

  lemma {:induction false} PoolLaw(pool: seq<Const>, next: nat, count: nat, tail: seq<byte>)
    requires GoodPool(pool) && Fills(pool, next, count)
    ensures ReadPool(next, count, PutPool(pool, tail)) == Parsed(pool, tail)
  {
    hide ReadConst, PutConst;
    if pool != [] {
      ConstLaw(pool[0], PutPool(pool[1..], tail));
      PoolLaw(pool[1..], Next(next, pool[0]), count, tail);
      assert pool == [pool[0]] + pool[1..];
    }
  }

  lemma {:induction false} PoolInverse(next: nat, count: nat, b: seq<byte>)
    ensures var r := ReadPool(next, count, b);
            r.Parsed? ==> GoodPool(r.value) && Fills(r.value, next, count) && b == PutPool(r.value, r.rest)
    decreases |b|
  {
    hide ReadConst, PutConst;
    if next < count && ReadPool(next, count, b).Parsed? {
      ConstInverse(b);
      var c := ReadConst(b);
      PoolInverse(Next(next, c.value), count, c.rest);
      var r := ReadPool(next, count, b);
      assert r.value[1..] == ReadPool(Next(next, c.value), count, c.rest).value;
    }
  }

  // ----- Attributes and members ---------------------------------------------

  datatype Attr = Attr(name: u16, body: seq<byte>)

  function PutAttr(a: Attr, tail: seq<byte>): seq<byte>
  {
    PutU2(a.name, PutU4(|a.body| % 0x1_0000_0000, a.body + tail))
  }

  function ReadAttr(b: seq<byte>): Parsed<Attr>
  {
    var (name, b1) :- ReadU2(b);
    var (len, b2) :- ReadU4(b1);
    var (body, b3) :- ReadBytes(len, b2);
    Parsed(Attr(name, body), b3)
  }

  function PutAttrs(attrs: seq<Attr>, tail: seq<byte>): seq<byte>
  {
    PutU2(|attrs| % 0x1_0000, PutMany(attrs, PutAttr, tail))
  }

  function ReadAttrs(b: seq<byte>): Parsed<seq<Attr>>
  {
    var (n, b1) :- ReadU2(b);
    ReadMany(n, ReadAttr, b1)
  }

  predicate GoodAttrs(attrs: seq<Attr>)
  {
    |attrs| < 0x1_0000 && forall a :: a in attrs ==> |a.body| < 0x1_0000_0000
  }

  lemma AttrLaw(a: Attr, tail: seq<byte>)
    requires |a.body| < 0x1_0000_0000
    ensures ReadAttr(PutAttr(a, tail)) == Parsed(a, tail)
  {
    hide PutU2, PutU4, ReadU2, ReadU4;
    U2Law(a.name, PutU4(|a.body|, a.body + tail));
    U4Law(|a.body|, a.body + tail);
    BytesLaw(a.body, tail);
  }

  lemma AttrInverse(b: seq<byte>)
    ensures var r := ReadAttr(b);
            r.Parsed? ==> |r.value.body| < 0x1_0000_0000 && b == PutAttr(r.value, r.rest)
  {
    hide PutU2, PutU4, ReadU2, ReadU4;
    if ReadAttr(b).Parsed? {
      U2Inverse(b);
      U4Inverse(ReadU2(b).rest);
    }
  }

  lemma AttrsLaw(attrs: seq<Attr>, tail: seq<byte>)
    requires GoodAttrs(attrs)
    ensures ReadAttrs(PutAttrs(attrs, tail)) == Parsed(attrs, tail)
  {
    hide PutU2, PutU4, ReadU2, ReadU4, ReadAttr, PutAttr;
    U2Law(|attrs|, PutMany(attrs, PutAttr, tail));
    forall a, t | a in attrs ensures ReadAttr(PutAttr(a, t)) == Parsed(a, t) {
      AttrLaw(a, t);
    }
    ManyLaw(attrs, ReadAttr, PutAttr, tail);
  }

  lemma AttrsInverse(b: seq<byte>)
    ensures var r := ReadAttrs(b); r.Parsed? ==> GoodAttrs(r.value) && b == PutAttrs(r.value, r.rest)
  {
    hide PutU2, PutU4, ReadU2, ReadU4, ReadAttr, PutAttr;
    if ReadAttrs(b).Parsed? {
      U2Inverse(b);
      var n := ReadU2(b);
      forall c ensures ReadAttr(c).Parsed? ==> c == PutAttr(ReadAttr(c).value, ReadAttr(c).rest) {
        AttrInverse(c);
      }
      ManyInverse(n.value, ReadAttr, PutAttr, n.rest);
      ManyAttrsGood(n.value, n.rest);
    }
  }

  lemma {:induction false} ManyAttrsGood(n: nat, b: seq<byte>)
    ensures var r := ReadMany(n, ReadAttr, b);
            r.Parsed? ==> forall a :: a in r.value ==> |a.body| < 0x1_0000_0000
  {
    hide PutAttr, PutU2, PutU4, ReadU2, ReadU4;
    if n > 0 && ReadMany(n, ReadAttr, b).Parsed? {
      ManyAttrsGood(n - 1, ReadAttr(b).rest);
    }
  }

  /** A field or method: flags, name, descriptor, attributes (sections 4.5, 4.6). */
  datatype MemberInfo = MemberInfo(access: u16, name: u16, descriptor: u16, attributes: seq<Attr>)

  function PutMember(m: MemberInfo, tail: seq<byte>): seq<byte>
  {
    PutU2(m.access, PutU2(m.name, PutU2(m.descriptor, PutAttrs(m.attributes, tail))))
  }

  function ReadMember(b: seq<byte>): Parsed<MemberInfo>
  {
    var (access, b1) :- ReadU2(b);
    var (name, b2) :- ReadU2(b1);
    var (desc, b3) :- ReadU2(b2);
    var (attrs, b4) :- ReadAttrs(b3);
    Parsed(MemberInfo(access, name, desc, attrs), b4)
  }

  predicate GoodMembers(ms: seq<MemberInfo>)
  {
    |ms| < 0x1_0000 && forall m :: m in ms ==> GoodAttrs(m.attributes)
  }

  lemma MemberLaw(m: MemberInfo, tail: seq<byte>)
    requires GoodAttrs(m.attributes)
    ensures ReadMember(PutMember(m, tail)) == Parsed(m, tail)
  {
    var b3 := PutAttrs(m.attributes, tail);
    U2Law(m.access, PutU2(m.name, PutU2(m.descriptor, b3)));
    U2Law(m.name, PutU2(m.descriptor, b3));
    U2Law(m.descriptor, b3);
    AttrsLaw(m.attributes, tail);
  }

  lemma MemberInverse(b: seq<byte>)
    ensures var r := ReadMember(b);
            r.Parsed? ==> GoodAttrs(r.value.attributes) && b == PutMember(r.value, r.rest)
  {
    if ReadMember(b).Parsed? {
      var b1 := ReadU2(b).rest;
      var b2 := ReadU2(b1).rest;
      U2Inverse(b);
      U2Inverse(b1);
      U2Inverse(b2);
      AttrsInverse(ReadU2(b2).rest);
    }
  }

  function PutMembers(ms: seq<MemberInfo>, tail: seq<byte>): seq<byte>
  {
    PutU2(|ms| % 0x1_0000, PutMany(ms, PutMember, tail))
  }

  function ReadMembers(b: seq<byte>): Parsed<seq<MemberInfo>>
  {
    var (n, b1) :- ReadU2(b);
    ReadMany(n, ReadMember, b1)
  }

  lemma MembersLaw(ms: seq<MemberInfo>, tail: seq<byte>)
    requires GoodMembers(ms)
    ensures ReadMembers(PutMembers(ms, tail)) == Parsed(ms, tail)
  {
    hide PutU2, PutU4, ReadU2, ReadU4, ReadMember, PutMember;
    U2Law(|ms|, PutMany(ms, PutMember, tail));
    forall m, t | m in ms ensures ReadMember(PutMember(m, t)) == Parsed(m, t) {
      MemberLaw(m, t);
    }
    ManyLaw(ms, ReadMember, PutMember, tail);
  }

  lemma MembersInverse(b: seq<byte>)
    ensures var r := ReadMembers(b); r.Parsed? ==> GoodMembers(r.value) && b == PutMembers(r.value, r.rest)
  {
    hide PutU2, PutU4, ReadU2, ReadU4, ReadMember, PutMember;
    if ReadMembers(b).Parsed? {
      U2Inverse(b);
      var n := ReadU2(b);
      forall c ensures ReadMember(c).Parsed? ==> c == PutMember(ReadMember(c).value, ReadMember(c).rest) {
        MemberInverse(c);
      }
      ManyInverse(n.value, ReadMember, PutMember, n.rest);
      ManyMembersGood(n.value, n.rest);
    }
  }

  lemma {:induction false} ManyMembersGood(n: nat, b: seq<byte>)
    ensures var r := ReadMany(n, ReadMember, b);
            r.Parsed? ==> forall m :: m in r.value ==> GoodAttrs(m.attributes)
  {
    hide ReadMember, PutMember;
    if n > 0 && ReadMany(n, ReadMember, b).Parsed? {
      MemberInverse(b);
      ManyMembersGood(n - 1, ReadMember(b).rest);
    }
  }

  // ----- The whole file (section 4.1) ---------------------------------------

  const MAGIC: u32 := 0xCAFE_BABE

  datatype ClassFile = ClassFile(
    minor: u16, major: u16, poolCount: u16, pool: seq<Const>,
    access: u16, thisClass: u16, superClass: u16, interfaces: seq<u16>,
    fields: seq<MemberInfo>, methods: seq<MemberInfo>, attributes: seq<Attr>)
  {
    predicate Good()
    {
      && GoodPool(pool) && Fills(pool, 1, poolCount)
      && |interfaces| < 0x1_0000
      && GoodMembers(fields) && GoodMembers(methods) && GoodAttrs(attributes)
    }
  }

  function PutClass(cf: ClassFile, tail: seq<byte>): seq<byte>
  {
    PutU4(MAGIC, PutU2(cf.minor, PutU2(cf.major, PutU2(cf.poolCount, PutPool(cf.pool, PutBody(cf, tail))))))
  }

  function PutBody(cf: ClassFile, tail: seq<byte>): seq<byte>
  {
    PutU2(cf.access, PutU2(cf.thisClass, PutU2(cf.superClass,
      PutU2(|cf.interfaces| % 0x1_0000, PutMany(cf.interfaces, PutU2,
        PutMembers(cf.fields, PutMembers(cf.methods, PutAttrs(cf.attributes, tail))))))))
  }

  function ReadClass(b: seq<byte>): Parsed<ClassFile>
  {
    var (magic, b1) :- ReadU4(b);
    if magic != MAGIC then Malformed
    else
      var (minor, b2) :- ReadU2(b1);
      var (major, b3) :- ReadU2(b2);
      var (count, b4) :- ReadU2(b3);
      var (pool, b5) :- ReadPool(1, count, b4);
      ReadBody(ClassFile(minor, major, count, pool, 0, 0, 0, [], [], [], []), b5)
  }

  /** Everything past the pool, completing `head`. */
  function ReadBody(head: ClassFile, b: seq<byte>): Parsed<ClassFile>
  {
    var (access, b1) :- ReadU2(b);
    var (thisClass, b2) :- ReadU2(b1);
    var (superClass, b3) :- ReadU2(b2);
    var (n, b4) :- ReadU2(b3);
    var (interfaces, b5) :- ReadMany(n, ReadU2, b4);
    var (fields, b6) :- ReadMembers(b5);
    var (methods, b7) :- ReadMembers(b6);
    var (attributes, b8) :- ReadAttrs(b7);
    Parsed(head.(access := access, thisClass := thisClass, superClass := superClass, interfaces := interfaces,
                 fields := fields, methods := methods, attributes := attributes), b8)
  }

  /** Every well-formed class file reads back as itself, whatever follows it. */
  lemma ClassLaw(cf: ClassFile, tail: seq<byte>)
    requires cf.Good()
    ensures ReadClass(PutClass(cf, tail)) == Parsed(cf, tail)
  {
    var body := PutBody(cf, tail);
    var b4 := PutPool(cf.pool, body);
    U4Law(MAGIC, PutU2(cf.minor, PutU2(cf.major, PutU2(cf.poolCount, b4))));
    TwoU2Law(cf.minor, cf.major, PutU2(cf.poolCount, b4));
    U2Law(cf.poolCount, b4);
    PoolLaw(cf.pool, 1, cf.poolCount, body);
    BodyLaw(ClassFile(cf.minor, cf.major, cf.poolCount, cf.pool, 0, 0, 0, [], [], [], []), cf, tail);
  }

  lemma BodyLaw(head: ClassFile, cf: ClassFile, tail: seq<byte>)
    requires cf.Good()
    requires head == cf.(access := head.access, thisClass := head.thisClass, superClass := head.superClass,
                         interfaces := head.interfaces, fields := head.fields, methods := head.methods,
                         attributes := head.attributes)
    ensures ReadBody(head, PutBody(cf, tail)) == Parsed(cf, tail)
  {
    hide PutU2, PutU4, ReadU2, ReadU4, ReadMembers, PutMembers, ReadAttrs, PutAttrs, ReadMany, PutMany;
    var b7 := PutAttrs(cf.attributes, tail);
    var b6 := PutMembers(cf.methods, b7);
    var b5 := PutMembers(cf.fields, b6);
    var b4 := PutMany(cf.interfaces, PutU2, b5);
    var b3 := PutU2(|cf.interfaces|, b4);
    TwoU2Law(cf.access, cf.thisClass, PutU2(cf.superClass, b3));
    TwoU2Law(cf.superClass, |cf.interfaces|, b4);
    forall x: u16, t ensures ReadU2(PutU2(x, t)) == Parsed(x, t) {
      U2Law(x, t);
    }
    ManyLaw(cf.interfaces, ReadU2, PutU2, b5);
    MembersLaw(cf.fields, b6);
    MembersLaw(cf.methods, b7);
    AttrsLaw(cf.attributes, tail);
  }

  /** Whatever is read is a well-formed class file, and printing it gives the
      bytes back: the reader accepts nothing but printed class files. */
  lemma ClassInverse(b: seq<byte>)
    ensures var r := ReadClass(b); r.Parsed? ==> r.value.Good() && b == PutClass(r.value, r.rest)
  {
    if ReadClass(b).Parsed? {
      U4Inverse(b);
      var b1 := ReadU4(b).rest;
      var b2 := ReadU2(b1).rest;
      var b3 := ReadU2(b2).rest;
      var count := ReadU2(b3);
      U2Inverse(b1);
      U2Inverse(b2);
      U2Inverse(b3);
      PoolInverse(1, count.value, count.rest);
      var pool := ReadPool(1, count.value, count.rest);
      BodyInverse(ClassFile(ReadU2(b1).value, ReadU2(b2).value, count.value, pool.value, 0, 0, 0, [], [], [], []),
                  pool.rest);
    }
  }

  lemma BodyInverse(head: ClassFile, b: seq<byte>)
    requires GoodPool(head.pool) && Fills(head.pool, 1, head.poolCount)
    ensures var r := ReadBody(head, b);
            r.Parsed? ==>
              && r.value.Good() && b == PutBody(r.value, r.rest)
              && r.value.pool == head.pool && r.value.poolCount == head.poolCount
              && r.value.minor == head.minor && r.value.major == head.major
  {
    hide PutU2, PutU4, ReadU2, ReadU4, ReadMembers, PutMembers, ReadAttrs, PutAttrs, ReadMany, PutMany;
    if ReadBody(head, b).Parsed? {
      var b1 := ReadU2(b).rest;
      var b2 := ReadU2(b1).rest;
      var b3 := ReadU2(b2).rest;
      var n := ReadU2(b3);
      U2Inverse(b);
      U2Inverse(b1);
      U2Inverse(b2);
      U2Inverse(b3);
      forall c ensures ReadU2(c).Parsed? ==> c == PutU2(ReadU2(c).value, ReadU2(c).rest) {
        U2Inverse(c);
      }
      ManyInverse(n.value, ReadU2, PutU2, n.rest);
      var b5 := ReadMany(n.value, ReadU2, n.rest).rest;
      MembersInverse(b5);
      var b6 := ReadMembers(b5).rest;
      MembersInverse(b6);
      AttrsInverse(ReadMembers(b6).rest);
    }
  }

  // ----- Annotations (sections 4.7.16, 4.7.16.1) -----------------------------

  datatype Elem =
    | Const(tag: byte, index: u16)
    | Enum(typeName: u16, constName: u16)
    | ClassInfo(index: u16)
    | Nested(annotation: Annotation)
    | Array(items: seq<Elem>)

  datatype Pair = Pair(name: u16, value: Elem)
  datatype Annotation = Annotation(typeIndex: u16, pairs: seq<Pair>)

  /** The tags of constant elements: B C D F I J S Z s. */
  predicate ConstTag(tag: byte)
  {
    tag == 66 || tag == 67 || tag == 68 || tag == 70 || tag == 73 || tag == 74
    || tag == 83 || tag == 90 || tag == 115
  }

  const TAG_STRING: byte := 115
  const TAG_BOOLEAN: byte := 90

  predicate GoodElem(e: Elem)
  {
    match e
    case Const(tag, _) => ConstTag(tag)
    case Nested(a) => GoodAnnotation(a)
    case Array(items) => |items| < 0x1_0000 && GoodElems(items)
    case _ => true
  }

  predicate GoodElems(items: seq<Elem>)
  {
    items == [] || (GoodElem(items[0]) && GoodElems(items[1..]))
  }

  predicate GoodAnnotation(a: Annotation)
  {
    |a.pairs| < 0x1_0000 && GoodPairs(a.pairs)
  }

  predicate GoodPairs(pairs: seq<Pair>)
  {
    pairs == [] || (GoodPair(pairs[0]) && GoodPairs(pairs[1..]))
  }

  predicate GoodPair(p: Pair)
  {
    GoodElem(p.value)
  }

  function PutElem(e: Elem, tail: seq<byte>): seq<byte>
    decreases e
  {
    match e
    case Const(tag, index) => [tag] + PutU2(index, tail)
    case Enum(typeName, constName) => [101] + PutU2(typeName, PutU2(constName, tail))
    case ClassInfo(index) => [99] + PutU2(index, tail)
    case Nested(a) => [64] + PutAnnotation(a, tail)
    case Array(items) => [91] + PutU2(|items| % 0x1_0000, PutElems(items, tail))
  }

  function PutElems(items: seq<Elem>, tail: seq<byte>): seq<byte>
    decreases items
  {
    if items == [] then tail else PutElem(items[0], PutElems(items[1..], tail))
  }

  function PutAnnotation(a: Annotation, tail: seq<byte>): seq<byte>
    decreases a
  {
    PutU2(a.typeIndex, PutU2(|a.pairs| % 0x1_0000, PutPairs(a.pairs, tail)))
  }

  function PutPairs(pairs: seq<Pair>, tail: seq<byte>): seq<byte>
    decreases pairs
  {
    if pairs == [] then tail else PutPair(pairs[0], PutPairs(pairs[1..], tail))
  }

  function PutPair(p: Pair, tail: seq<byte>): seq<byte>
    decreases p
  {
    PutU2(p.name, PutElem(p.value, tail))
  }

  function ReadElem(b: seq<byte>): (r: Parsed<Elem>)
    ensures r.Parsed? ==> |r.rest| < |b|
    decreases |b|, 0, 0
  {
    var (tag, b1) :- ReadU1(b);
    if ConstTag(tag) then
      var (index, b2) :- ReadU2(b1);
      Parsed(Const(tag, index), b2)
    else if tag == 101 then
      var (typeName, b2) :- ReadU2(b1);
      var (constName, b3) :- ReadU2(b2);
      Parsed(Enum(typeName, constName), b3)
    else if tag == 99 then
      var (index, b2) :- ReadU2(b1);
      Parsed(ClassInfo(index), b2)
    else if tag == 64 then
      var (a, b2) :- ReadAnnotation(b1);
      Parsed(Nested(a), b2)
    else if tag == 91 then
      var (n, b2) :- ReadU2(b1);
      var (items, b3) :- ReadElems(n, b2);
      Parsed(Array(items), b3)
    else
      Malformed
  }

  function ReadElems(n: nat, b: seq<byte>): (r: Parsed<seq<Elem>>)
    ensures r.Parsed? ==> |r.rest| <= |b| && |r.value| == n
    decreases |b|, 1, n
  {
    if n == 0 then Parsed([], b)
    else
      var (e, b1) :- ReadElem(b);
      var (es, b2) :- ReadElems(n - 1, b1);
      Parsed([e] + es, b2)
  }

  function ReadAnnotation(b: seq<byte>): (r: Parsed<Annotation>)
    ensures r.Parsed? ==> |r.rest| < |b|
    decreases |b|, 0, 0
  {
    var (typeIndex, b1) :- ReadU2(b);
    var (n, b2) :- ReadU2(b1);
    var (pairs, b3) :- ReadPairs(n, b2);
    Parsed(Annotation(typeIndex, pairs), b3)
  }

  function ReadPairs(n: nat, b: seq<byte>): (r: Parsed<seq<Pair>>)
    ensures r.Parsed? ==> |r.rest| <= |b| && |r.value| == n
    decreases |b|, 1, n
  {
    if n == 0 then Parsed([], b)
    else
      var (p, b1) :- ReadPair(b);
      var (ps, b2) :- ReadPairs(n - 1, b1);
      Parsed([p] + ps, b2)
  }

  function ReadPair(b: seq<byte>): (r: Parsed<Pair>)
    ensures r.Parsed? ==> |r.rest| < |b|
    decreases |b|, 0, 0
  {
    var (name, b1) :- ReadU2(b);
    var (value, b2) :- ReadElem(b1);
    Parsed(Pair(name, value), b2)
  }

  /** Every element value, however deeply nested, is read back and the reader
      stops exactly at the tail. */
  lemma {:induction false} ElemLaw(e: Elem, tail: seq<byte>)
    requires GoodElem(e)
    ensures ReadElem(PutElem(e, tail)) == Parsed(e, tail)
    decreases e
  {
    hide PutU2, PutU4, ReadU2, ReadU4;
    var after := PutElem(e, tail)[1..];
    match e
    case Const(_, index) => assert after == PutU2(index, tail); U2Law(index, tail);
    case Enum(typeName, constName) =>
      assert after == PutU2(typeName, PutU2(constName, tail));
      TwoU2Law(typeName, constName, tail);
    case ClassInfo(index) => assert after == PutU2(index, tail); U2Law(index, tail);
    case Nested(a) => assert after == PutAnnotation(a, tail); AnnotationLaw(a, tail);
    case Array(items) =>
      assert after == PutU2(|items|, PutElems(items, tail));
      U2Law(|items|, PutElems(items, tail));
      ElemsLaw(items, tail);
  }

  lemma {:induction false} ElemsLaw(items: seq<Elem>, tail: seq<byte>)
    requires GoodElems(items)
    ensures ReadElems(|items|, PutElems(items, tail)) == Parsed(items, tail)
    decreases items
  {
    if items != [] {
      ElemLaw(items[0], PutElems(items[1..], tail));
      ElemsLaw(items[1..], tail);
      assert items == [items[0]] + items[1..];
    }
  }

  lemma {:induction false} AnnotationLaw(a: Annotation, tail: seq<byte>)
    requires GoodAnnotation(a)
    ensures ReadAnnotation(PutAnnotation(a, tail)) == Parsed(a, tail)
    decreases a
  {
    hide PutU2, PutU4, ReadU2, ReadU4;
    TwoU2Law(a.typeIndex, |a.pairs|, PutPairs(a.pairs, tail));
    PairsLaw(a.pairs, tail);
  }

  lemma {:induction false} PairsLaw(pairs: seq<Pair>, tail: seq<byte>)
    requires GoodPairs(pairs)
    ensures ReadPairs(|pairs|, PutPairs(pairs, tail)) == Parsed(pairs, tail)
    decreases pairs
  {
    hide PutU2, PutU4, ReadU2, ReadU4;
    if pairs != [] {
      PairLaw(pairs[0], PutPairs(pairs[1..], tail));
      PairsLaw(pairs[1..], tail);
      assert pairs == [pairs[0]] + pairs[1..];
    }
  }

  lemma {:induction false} PairLaw(p: Pair, tail: seq<byte>)
    requires GoodPair(p)
    ensures ReadPair(PutPair(p, tail)) == Parsed(p, tail)
    decreases p
  {
    U2Law(p.name, PutElem(p.value, tail));
    ElemLaw(p.value, tail);
  }

  lemma {:induction false} ElemInverse(b: seq<byte>)
    ensures var r := ReadElem(b); r.Parsed? ==> GoodElem(r.value) && b == PutElem(r.value, r.rest)
    decreases |b|, 0, 0
  {
    hide PutU2, PutU4, ReadU2, ReadU4;
    if ReadElem(b).Parsed? {
      var b1 := b[1..];
      assert b == [b[0]] + b1;
      if b[0] == 64 {
        AnnotationInverse(b1);
      } else {
        U2Inverse(b1);
        if b[0] == 101 {
          U2Inverse(ReadU2(b1).rest);
        } else if b[0] == 91 {
          ElemsInverse(ReadU2(b1).value, ReadU2(b1).rest);
        }
      }
    }
  }

  lemma {:induction false} ElemsInverse(n: nat, b: seq<byte>)
    ensures var r := ReadElems(n, b); r.Parsed? ==> GoodElems(r.value) && b == PutElems(r.value, r.rest)
    decreases |b|, 1, n
  {
    hide ReadElem, PutElem;
    if n > 0 && ReadElems(n, b).Parsed? {
      ElemInverse(b);
      ElemsInverse(n - 1, ReadElem(b).rest);
      assert ReadElems(n, b).value[1..] == ReadElems(n - 1, ReadElem(b).rest).value;
    }
  }

  lemma {:induction false} AnnotationInverse(b: seq<byte>)
    ensures var r := ReadAnnotation(b); r.Parsed? ==> GoodAnnotation(r.value) && b == PutAnnotation(r.value, r.rest)
    decreases |b|, 0, 0
  {
    hide PutU2, PutU4, ReadU2, ReadU4;
    if ReadAnnotation(b).Parsed? {
      U2Inverse(b);
      var n := ReadU2(ReadU2(b).rest);
      U2Inverse(ReadU2(b).rest);
      PairsInverse(n.value, n.rest);
    }
  }

  lemma {:induction false} PairsInverse(n: nat, b: seq<byte>)
    ensures var r := ReadPairs(n, b); r.Parsed? ==> GoodPairs(r.value) && b == PutPairs(r.value, r.rest)
    decreases |b|, 1, n
  {
    hide ReadPair, PutPair;
    if n > 0 && ReadPairs(n, b).Parsed? {
      PairInverse(b);
      PairsInverse(n - 1, ReadPair(b).rest);
      assert ReadPairs(n, b).value[1..] == ReadPairs(n - 1, ReadPair(b).rest).value;
    }
  }

  lemma {:induction false} PairInverse(b: seq<byte>)
    ensures var r := ReadPair(b); r.Parsed? ==> GoodPair(r.value) && b == PutPair(r.value, r.rest)
    decreases |b|, 0, 0
  {
    if ReadPair(b).Parsed? {
      U2Inverse(b);
      ElemInverse(ReadU2(b).rest);
    }
  }
}
