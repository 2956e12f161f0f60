/** The reader of src/authoring/classfile.rs as it runs: a cursor that only moves
    forward, loops that push into the pool and the sets, and early exits. Each
    method is proved to answer what the grammar and the facts say. */
module ClassReader {
  import opened Base
  import opened Utf8Codec
  import G = ClassGrammar
  import D = Descriptors
  import opened ClassFacts

  /** `r` is the value `want` reads, and `rest` is what it leaves. */
  ghost predicate Took<T>(r: Option<T>, want: Parsed<T>, rest: seq<byte>)
  {
    match want
    case Malformed => r == None
    case Parsed(x, tail) => r == Some(x) && rest == tail
  }

  /** Reads numbers, high byte first, and never moves past the end. */
  class Cur {
    const b: seq<byte>
    var p: nat

    constructor (bytes: seq<byte>)
      ensures Valid() && b == bytes && Rest() == bytes
    {
      b := bytes;
      p := 0;
    }

    ghost predicate Valid()
      reads this
    {
      p <= |b|
    }

    ghost function Rest(): seq<byte>
      requires Valid()
      reads this
    {
      b[p..]
    }

    method U1() returns (r: Option<byte>)
      requires Valid()
      modifies this
      ensures Valid() && old(p) <= p
      ensures Took(r, G.ReadU1(old(Rest())), Rest())
    {
      if p < |b| {
        r := Some(b[p]);
        p := p + 1;
      } else {
        r := None;
      }
    }

    method U2() returns (r: Option<u16>)
      requires Valid()
      modifies this
      ensures Valid() && old(p) <= p
      ensures Took(r, G.ReadU2(old(Rest())), Rest())
    {
      var hi := U1();
      if hi.None? {
        return None;
      }
      var lo := U1();
      if lo.None? {
        return None;
      }
      var high: int := hi.value;
      r := Some(high * 0x100 + lo.value);
    }

    method U4() returns (r: Option<u32>)
      requires Valid()
      modifies this
      ensures Valid() && old(p) <= p
      ensures Took(r, G.ReadU4(old(Rest())), Rest())
    {
      hide G.ReadU2;
      var hi := U2();
      if hi.None? {
        return None;
      }
      var lo := U2();
      if lo.None? {
        return None;
      }
      var high: int := hi.value;
      r := Some(high * 0x1_0000 + lo.value);
    }

    method Bytes(n: nat) returns (r: Option<seq<byte>>)
      requires Valid()
      modifies this
      ensures Valid() && old(p) <= p
      ensures Took(r, G.ReadBytes(n, old(Rest())), Rest())
    {
      if p + n > |b| {
        return None;
      }
      assert b[p..][..n] == b[p..p + n];
      r := Some(b[p..p + n]);
      p := p + n;
    }

    method Skip(n: nat) returns (ok: bool)
      requires Valid()
      modifies this
      ensures Valid() && old(p) <= p
      ensures ok <==> G.ReadBytes(n, old(Rest())).Parsed?
      ensures ok ==> Rest() == G.ReadBytes(n, old(Rest())).rest
    {
      if p + n > |b| {
        return false;
      }
      p := p + n;
      ok := true;
    }
  }

  // ----- Loops over counted structures --------------------------------------

  function Prepend<T>(xs: seq<T>, r: Parsed<seq<T>>): (p: Parsed<seq<T>>)
    ensures xs == [] ==> p == r
    ensures r.Parsed? && r.value == [] ==> p == Parsed(xs, r.rest)
  {
    assert r.Parsed? ==> [] + r.value == r.value && xs + [] == xs;
    match r case Malformed => Malformed case Parsed(ys, rest) => Parsed(xs + ys, rest)
  }

  /** One turn of a counted loop: `done` items are read, `left` remain. */
  lemma ManyTurn<T>(done: seq<T>, left: nat, read: seq<byte> -> Parsed<T>, b: seq<byte>)
    requires left > 0
    ensures read(b).Malformed? ==> Prepend(done, G.ReadMany(left, read, b)).Malformed?
    ensures read(b).Parsed? ==>
              Prepend(done, G.ReadMany(left, read, b))
              == Prepend(done + [read(b).value], G.ReadMany(left - 1, read, read(b).rest))
  {
    if read(b).Parsed? && G.ReadMany(left - 1, read, read(b).rest).Parsed? {
      var ys := G.ReadMany(left - 1, read, read(b).rest).value;
      assert done + ([read(b).value] + ys) == (done + [read(b).value]) + ys;
    }
  }

  method SkipAttribute(c: Cur) returns (ok: bool)
    requires c.Valid()
    modifies c
    ensures c.Valid() && old(c.p) <= c.p
    ensures ok <==> G.ReadAttr(old(c.Rest())).Parsed?
    ensures ok ==> c.Rest() == G.ReadAttr(old(c.Rest())).rest
  {
    hide G.ReadU2, G.ReadU4;
    var name := c.U2();
    if name.None? {
      return false;
    }
    var len := c.U4();
    if len.None? {
      return false;
    }
    ok := c.Skip(len.value);
  }

  method TakeAttribute(c: Cur) returns (r: Option<G.Attr>)
    requires c.Valid()
    modifies c
    ensures c.Valid() && old(c.p) <= c.p
    ensures Took(r, G.ReadAttr(old(c.Rest())), c.Rest())
  {
    hide G.ReadU2, G.ReadU4;
    var name := c.U2();
    if name.None? {
      return None;
    }
    var len := c.U4();
    if len.None? {
      return None;
    }
    var body := c.Bytes(len.value);
    if body.None? {
      return None;
    }
    r := Some(G.Attr(name.value, body.value));
  }

  /** `skip_attributes`: past the block without keeping it. */
  method SkipAttributes(c: Cur) returns (ok: bool)
    requires c.Valid()
    modifies c
    ensures c.Valid() && old(c.p) <= c.p
    ensures ok <==> G.ReadAttrs(old(c.Rest())).Parsed?
    ensures ok ==> c.Rest() == G.ReadAttrs(old(c.Rest())).rest
  {
    hide G.ReadU2, G.ReadAttr;
    var count := c.U2();
    if count.None? {
      return false;
    }
    ghost var start := c.Rest();
    ghost var done: seq<G.Attr> := [];
    for i := 0 to count.value
      invariant c.Valid() && old(c.p) <= c.p
      invariant G.ReadMany(count.value, G.ReadAttr, start)
             == Prepend(done, G.ReadMany(count.value - i, G.ReadAttr, c.Rest()))
    {
      ghost var here := c.Rest();
      ManyTurn(done, count.value - i, G.ReadAttr, here);
      ok := SkipAttribute(c);
      if !ok {
        return;
      }
      done := done + [G.ReadAttr(here).value];
    }
    ok := true;
  }

  // ----- The pool -------------------------------------------------------------

  /** One entry, pushed as one slot or two. */
  method ReadEntry(c: Cur) returns (r: Option<seq<Cp>>)
    requires c.Valid()
    modifies c
    ensures c.Valid() && old(c.p) <= c.p
    ensures match G.ReadConst(old(c.Rest()))
            case Malformed => r == None
            case Parsed(e, rest) => r == Some(Slots(e)) && c.Rest() == rest
  {
    hide G.ReadU1, G.ReadU2, G.ReadU4, G.ReadBytes, Lossy, Signed;
    var tag := c.U1();
    if tag.None? {
      return None;
    }
    var t := tag.value;
    if t == 1 {
      var len := c.U2();
      if len.None? {
        return None;
      }
      var raw := c.Bytes(len.value);
      return if raw.None? then None else Some([Utf8(Lossy(raw.value))]);
    } else if t == 7 {
      var name := c.U2();
      return if name.None? then None else Some([Class(name.value)]);
    } else if t == 8 || t == 16 || t == 19 || t == 20 {
      var index := c.U2();
      return if index.None? then None else Some([Other]);
    } else if 9 <= t <= 12 || t == 17 || t == 18 {
      var x := c.U2();
      if x.None? {
        return None;
      }
      var y := c.U2();
      if y.None? {
        return None;
      }
      return Some([if t == 12 then NameAndType(x.value, y.value)
                   else if t <= 11 then Ref(x.value, y.value) else Other]);
    } else if t == 3 || t == 4 {
      var bits := c.U4();
      return if bits.None? then None else Some([if t == 3 then Integer(Signed(bits.value)) else Other]);
    } else if t == 5 || t == 6 {
      var high := c.U4();
      if high.None? {
        return None;
      }
      var low := c.U4();
      return if low.None? then None else Some([Other, Cp.Skip]);
    } else if t == 15 {
      var kind := c.U1();
      if kind.None? {
        return None;
      }
      var index := c.U2();
      return if index.None? then None else Some([Other]);
    } else {
      return None;
    }
  }

  /** The pool loop. Until it wraps, the next index is the number of slots pushed, so
      an entry lands in the slot the file gives it, wide entries included. */
  method ReadPoolLoop(c: Cur, cpCount: nat) returns (r: Option<seq<Cp>>)
    requires c.Valid()
    modifies c
    ensures c.Valid() && old(c.p) <= c.p
    ensures match G.ReadPool(1, cpCount, old(c.Rest()))
            case Malformed => r == None
            case Parsed(pool, rest) => r == Some(Table(pool)) && c.Rest() == rest
  {
    hide G.ReadConst;
    ghost var start := c.Rest();
    ghost var done: seq<G.Const> := [];
    var cp: seq<Cp> := [Cp.Skip];
    var idx := 1;
    while idx < cpCount
      invariant c.Valid() && old(c.p) <= c.p
      invariant |cp| % 0x1_0000 == idx
      invariant cp == Table(done)
      invariant G.ReadPool(1, cpCount, start) == Prepend(done, G.ReadPool(idx, cpCount, c.Rest()))
      decreases |c.b| - c.p
    {
      ghost var here := c.Rest();
      PoolTurn(done, idx, cpCount, here);
      var slots := ReadEntry(c);
      if slots.None? {
        return None;
      }
      ghost var e := G.ReadConst(here).value;
      TableGrows(done, e);
      done := done + [e];
      cp := cp + slots.value;
      idx := (idx + |slots.value|) % 0x1_0000;
    }
    r := Some(cp);
  }

  lemma PoolTurn(done: seq<G.Const>, next: nat, count: nat, b: seq<byte>)
    requires next < count
    ensures G.ReadConst(b).Malformed? ==> Prepend(done, G.ReadPool(next, count, b)).Malformed?
    ensures G.ReadConst(b).Parsed? ==>
              var e := G.ReadConst(b).value;
              Prepend(done, G.ReadPool(next, count, b))
              == Prepend(done + [e], G.ReadPool(G.Next(next, e), count, G.ReadConst(b).rest))
  {
    hide G.ReadConst;
    if G.ReadConst(b).Parsed? {
      var e := G.ReadConst(b);
      var more := G.ReadPool(G.Next(next, e.value), count, e.rest);
      if more.Parsed? {
        assert done + ([e.value] + more.value) == (done + [e.value]) + more.value;
      }
    }
  }

  // ----- Supertypes and references ----------------------------------------------

  method ReadInterfaces(c: Cur, cp: seq<Cp>) returns (r: Option<seq<string>>, ghost indices: seq<u16>)
    requires c.Valid()
    modifies c
    ensures c.Valid() && old(c.p) <= c.p
    ensures var n := G.ReadU2(old(c.Rest()));
            match (if n.Malformed? then Malformed else G.ReadMany(n.value, G.ReadU2, n.rest))
            case Malformed => r == None
            case Parsed(read, rest) => indices == read && r == Some(NamedInterfaces(cp, read)) && c.Rest() == rest
  {
    hide G.ReadU2;
    indices := [];
    var count := c.U2();
    if count.None? {
      return None, [];
    }
    ghost var start := c.Rest();
    var interfaces: seq<string> := [];
    for i := 0 to count.value
      invariant c.Valid() && old(c.p) <= c.p
      invariant interfaces == NamedInterfaces(cp, indices)
      invariant G.ReadMany(count.value, G.ReadU2, start)
             == Prepend(indices, G.ReadMany(count.value - i, G.ReadU2, c.Rest()))
    {
      ManyTurn(indices, count.value - i, G.ReadU2, c.Rest());
      var idx := c.U2();
      if idx.None? {
        return None, [];
      }
      var name := ClassNameAt(cp, idx.value);
      if name.Some? {
        interfaces := interfaces + [name.value];
      }
      assert (indices + [idx.value])[..|indices|] == indices;
      indices := indices + [idx.value];
    }
    r := Some(interfaces);
  }

  /** Class entries and descriptors behind every name-and-type. */
  method CollectPoolTypes(cp: seq<Cp>) returns (referenced: set<string>)
    ensures referenced == PoolTypes(cp, |cp|)
  {
    referenced := {};
    for k := 0 to |cp|
      invariant referenced == PoolTypes(cp, k)
    {
      PoolTypesGrow(cp, k);
      match cp[k] {
        case Class(name) =>
          var n := Utf8At(cp, name);
          if n.Some? {
            referenced := referenced + D.PushType(n.value);
          }
        case NameAndType(_, desc) =>
          var d := Utf8At(cp, desc);
          if d.Some? {
            referenced := D.ExtractObjectTypes(d.value, referenced);
          }
        case _ =>
      }
    }
  }

  lemma PoolTypesGrow(cp: seq<Cp>, k: nat)
    requires k < |cp|
    ensures PoolTypes(cp, k + 1) == PoolTypes(cp, k) + SlotTypes(cp, cp[k])
  {
  }

  lemma NoMemberTypes(cp: seq<Cp>)
    ensures MemberTypes(cp, []) == {}
  {
  }

  /** Past one field or method, keeping its descriptor index. */
  method MemberDescriptor(c: Cur) returns (r: Option<u16>)
    requires c.Valid()
    modifies c
    ensures c.Valid() && old(c.p) <= c.p
    ensures match G.ReadMember(old(c.Rest()))
            case Malformed => r == None
            case Parsed(m, rest) => r == Some(m.descriptor) && c.Rest() == rest
  {
    hide G.ReadU2, G.ReadAttrs;
    var access := c.U2();
    if access.None? {
      return None;
    }
    var name := c.U2();
    if name.None? {
      return None;
    }
    var desc := c.U2();
    if desc.None? {
      return None;
    }
    var ok := SkipAttributes(c);
    r := if ok then desc else None;
  }

  /** The fields or the methods: descriptors kept, attributes skipped. */
  method CollectMemberTypes(c: Cur, cp: seq<Cp>, found: set<string>)
    returns (ok: bool, referenced: set<string>)
    requires c.Valid()
    modifies c
    ensures c.Valid() && old(c.p) <= c.p
    ensures match G.ReadMembers(old(c.Rest()))
            case Malformed => !ok
            case Parsed(ms, rest) => ok && referenced == found + MemberTypes(cp, ms) && c.Rest() == rest
  {
    hide G.ReadU2, G.ReadMember, MemberTypes;
    referenced := found;
    assert MemberTypes(cp, []) == {} by { NoMemberTypes(cp); }
    var count := c.U2();
    if count.None? {
      return false, {};
    }
    ghost var start := c.Rest();
    ghost var done: seq<G.MemberInfo> := [];
    for i := 0 to count.value
      invariant c.Valid() && old(c.p) <= c.p
      invariant referenced == found + MemberTypes(cp, done)
      invariant G.ReadMany(count.value, G.ReadMember, start)
             == Prepend(done, G.ReadMany(count.value - i, G.ReadMember, c.Rest()))
    {
      ghost var here := c.Rest();
      ManyTurn(done, count.value - i, G.ReadMember, here);
      var desc := MemberDescriptor(c);
      if desc.None? {
        return false, {};
      }
      var d := Utf8At(cp, desc.value);
      if d.Some? {
        referenced := D.ExtractObjectTypes(d.value, referenced);
      }
      ghost var m := G.ReadMember(here).value;
      MemberTypesGrow(cp, done, m);
      done := done + [m];
    }
    ok := true;
  }

  lemma MemberTypesGrow(cp: seq<Cp>, done: seq<G.MemberInfo>, m: G.MemberInfo)
    ensures MemberTypes(cp, done + [m]) == MemberTypes(cp, done) + DescriptorTypes(cp, m.descriptor)
  {
    var all := done + [m];
    forall n | n in MemberTypes(cp, done) + DescriptorTypes(cp, m.descriptor)
      ensures n in MemberTypes(cp, all)
    {
      if n in MemberTypes(cp, done) {
        var i :| 0 <= i < |done| && n in DescriptorTypes(cp, done[i].descriptor);
        assert all[i] == done[i];
      } else {
        assert all[|done|] == m;
      }
    }
  }

  // ----- Annotations ------------------------------------------------------------

  /** `read_annotation`: past the whole structure, keeping the pairs. */
  method ReadAnnotation(c: Cur) returns (r: Option<(u16, seq<CapturedPair>)>)
    requires c.Valid()
    modifies c
    ensures c.Valid() && old(c.p) <= c.p
    ensures match G.ReadAnnotation(old(c.Rest()))
            case Malformed => r == None
            case Parsed(a, rest) => r == Some((a.typeIndex, CapturedPairs(a.pairs))) && c.Rest() == rest
    decreases |c.b| - c.p, 0
  {
    hide G.ReadU2, G.ReadElem;
    var typeIndex := c.U2();
    if typeIndex.None? {
      return None;
    }
    var numPairs := c.U2();
    if numPairs.None? {
      return None;
    }
    ghost var start := c.Rest();
    ghost var done: seq<G.Pair> := [];
    var pairs: seq<CapturedPair> := [];
    for i := 0 to numPairs.value
      invariant c.Valid() && old(c.p) < c.p
      invariant pairs == CapturedPairs(done)
      invariant G.ReadPairs(numPairs.value, start)
             == Prepend(done, G.ReadPairs(numPairs.value - i, c.Rest()))
    {
      ghost var here := c.Rest();
      PairsTurn(done, numPairs.value - i, here);
      var name := c.U2();
      if name.None? {
        return None;
      }
      var value := ReadElementValue(c);
      if value.None? {
        return None;
      }
      done := done + [G.ReadPair(here).value];
      pairs := pairs + [CapturedPair(name.value, value.value)];
    }
    r := Some((typeIndex.value, pairs));
  }

  /** `read_element_value`: exactly one value, whatever its shape. */
  method ReadElementValue(c: Cur) returns (r: Option<Option<ElemValue>>)
    requires c.Valid()
    modifies c
    ensures c.Valid() && old(c.p) <= c.p
    ensures match G.ReadElem(old(c.Rest()))
            case Malformed => r == None
            case Parsed(e, rest) => r == Some(Captured(e)) && c.Rest() == rest
    decreases |c.b| - c.p, 1
  {
    hide G.ReadU2;
    var tag := c.U1();
    if tag.None? {
      return None;
    }
    if G.ConstTag(tag.value) {
      var index := c.U2();
      return if index.None? then None else Some(Some(Prim(tag.value, index.value)));
    } else if tag.value == 101 {
      var typeName := c.U2();
      if typeName.None? {
        return None;
      }
      var constName := c.U2();
      return if constName.None? then None else Some(Some(EnumName(constName.value)));
    } else if tag.value == 99 {
      var index := c.U2();
      return if index.None? then None else Some(Some(ClassConst(index.value)));
    } else if tag.value == 64 {
      var nested := ReadAnnotation(c);
      return if nested.None? then None else Some(None);
    } else if tag.value == 91 {
      var n := c.U2();
      if n.None? {
        return None;
      }
      var items := ReadItems(c, n.value);
      return if items.None? then None else Some(Some(Items(items.value)));
    } else {
      return None;
    }
  }

  /** The items of an array value. */
  method ReadItems(c: Cur, n: nat) returns (r: Option<seq<Option<ElemValue>>>)
    requires c.Valid()
    modifies c
    ensures c.Valid() && old(c.p) <= c.p
    ensures match G.ReadElems(n, old(c.Rest()))
            case Malformed => r == None
            case Parsed(es, rest) => r == Some(CapturedAll(es)) && c.Rest() == rest
    decreases |c.b| - c.p, 2
  {
    hide G.ReadElem;
    ghost var start := c.Rest();
    ghost var done: seq<G.Elem> := [];
    var items: seq<Option<ElemValue>> := [];
    for i := 0 to n
      invariant c.Valid() && old(c.p) <= c.p
      invariant items == CapturedAll(done)
      invariant G.ReadElems(n, start) == Prepend(done, G.ReadElems(n - i, c.Rest()))
    {
      ghost var here := c.Rest();
      ElemsTurn(done, n - i, here);
      var item := ReadElementValue(c);
      if item.None? {
        return None;
      }
      CapturedGrows(done, G.ReadElem(here).value);
      done := done + [G.ReadElem(here).value];
      items := items + [item.value];
    }
    r := Some(items);
  }

  lemma PairsTurn(done: seq<G.Pair>, left: nat, b: seq<byte>)
    requires left > 0
    ensures G.ReadPair(b).Malformed? ==> Prepend(done, G.ReadPairs(left, b)).Malformed?
    ensures G.ReadPair(b).Parsed? ==>
              Prepend(done, G.ReadPairs(left, b))
              == Prepend(done + [G.ReadPair(b).value], G.ReadPairs(left - 1, G.ReadPair(b).rest))
  {
    hide G.ReadPair;
    var p := G.ReadPair(b);
    if p.Parsed? && G.ReadPairs(left - 1, p.rest).Parsed? {
      var ys := G.ReadPairs(left - 1, p.rest).value;
      assert done + ([p.value] + ys) == (done + [p.value]) + ys;
    }
  }

  lemma ElemsTurn(done: seq<G.Elem>, left: nat, b: seq<byte>)
    requires left > 0
    ensures G.ReadElem(b).Malformed? ==> Prepend(done, G.ReadElems(left, b)).Malformed?
    ensures G.ReadElem(b).Parsed? ==>
              Prepend(done, G.ReadElems(left, b))
              == Prepend(done + [G.ReadElem(b).value], G.ReadElems(left - 1, G.ReadElem(b).rest))
  {
    hide G.ReadElem;
    var e := G.ReadElem(b);
    if e.Parsed? && G.ReadElems(left - 1, e.rest).Parsed? {
      var ys := G.ReadElems(left - 1, e.rest).value;
      assert done + ([e.value] + ys) == (done + [e.value]) + ys;
    }
  }

  lemma {:induction false} CapturedGrows(done: seq<G.Elem>, e: G.Elem)
    ensures CapturedAll(done + [e]) == CapturedAll(done) + [Captured(e)]
  {
    if done == [] {
      assert [e][1..] == [];
    } else {
      assert (done + [e])[1..] == done[1..] + [e];
      CapturedGrows(done[1..], e);
    }
  }

  lemma ScanStep(out: Scanned, n: nat, b: seq<byte>, cp: seq<Cp>)
    requires n > 0
    ensures match G.ReadAnnotation(b)
            case Malformed => ScanAll(out, AnnotationPrefix(n, b), cp) == out
            case Parsed(a, rest) =>
              ScanAll(out, AnnotationPrefix(n, b), cp)
              == ScanAll(ScanOne(out, a.typeIndex, CapturedPairs(a.pairs), cp), AnnotationPrefix(n - 1, rest), cp)
  {
    hide G.ReadAnnotation, ScanOne, CapturedPairs;
    if G.ReadAnnotation(b).Parsed? {
      var a, rest := G.ReadAnnotation(b).value, AnnotationPrefix(n - 1, G.ReadAnnotation(b).rest);
      assert ([a] + rest)[1..] == rest && AnnotationPrefix(n, b) == [a] + rest;
    }
  }

  lemma ScanDone(out: Scanned, b: seq<byte>, cp: seq<Cp>)
    ensures ScanAll(out, AnnotationPrefix(0, b), cp) == out
  {
  }

  method ScanCounted(c: Cur, num: nat, cp: seq<Cp>) returns (out: Scanned)
    requires c.Valid()
    modifies c
    ensures out == ScanAll(NOTHING, AnnotationPrefix(num, old(c.Rest())), cp)
  {
    hide *;
    out := NOTHING;
    ghost var all := AnnotationPrefix(num, c.Rest());
    for i := 0 to num
      invariant c.Valid()
      invariant ScanAll(NOTHING, all, cp) == ScanAll(out, AnnotationPrefix(num - i, c.Rest()), cp)
    {
      ScanStep(out, num - i, c.Rest(), cp);
      var ann := ReadAnnotation(c);
      if ann.None? {
        return;
      }
      out := ScanOneLoop(out, ann.value.0, ann.value.1, cp);
    }
    ScanDone(out, c.Rest(), cp);
  }

  /** `scan_annotations`: a malformed tail keeps what was already scanned. */
  method ScanAnnotations(body: seq<byte>, cp: seq<Cp>) returns (out: Scanned)
    ensures out == ScanBody(body, cp)
  {
    hide G.ReadU2, AnnotationPrefix, ScanAll;
    out := NOTHING;
    var c := new Cur(body);
    var num := c.U2();
    if num.Some? {
      out := ScanCounted(c, num.value, cp);
    }
  }

  /** The branch over one annotation's type, with a loop over its pairs in each arm. */
  method ScanOneLoop(before: Scanned, typeIndex: u16, pairs: seq<CapturedPair>, cp: seq<Cp>)
    returns (out: Scanned)
    ensures out == ScanOne(before, typeIndex, pairs, cp)
  {
    out := before;
    var desc := Utf8At(cp, typeIndex);
    if desc.None? {
      return;
    }
    if desc.value in MOD_DESCRIPTORS {
      var ann := NO_MOD;
      for i := 0 to |pairs|
        invariant ModFold(NO_MOD, pairs, cp) == ModFold(ann, pairs[i..], cp)
      {
        assert pairs[i..][1..] == pairs[i + 1..];
        ann := ModStep(ann, pairs[i], cp);
      }
      out := out.(modAnnotation := Some(ann));
    } else if desc.value == MIXIN_DESCRIPTOR {
      var targets := out.mixinTargets;
      for i := 0 to |pairs|
        invariant before.mixinTargets + MixinNames(pairs, cp) == targets + MixinNames(pairs[i..], cp)
      {
        assert pairs[i..][1..] == pairs[i + 1..];
        var found := MixinTargetsOf(pairs[i], cp);
        assert targets + (found + MixinNames(pairs[i + 1..], cp)) == (targets + found) + MixinNames(pairs[i + 1..], cp);
        targets := targets + found;
      }
      out := out.(mixinTargets := targets);
    } else if desc.value in DIST_DESCRIPTORS && out.dist.None? {
      var dist: Option<Dist> := None;
      for i := 0 to |pairs|
        invariant DistFold(None, pairs, cp) == DistFold(dist, pairs[i..], cp)
      {
        assert pairs[i..][1..] == pairs[i + 1..];
        match pairs[i].value {
          case Some(EnumName(index)) => dist := DistOf(Utf8At(cp, index));
          case _ =>
        }
      }
      out := out.(dist := dist);
    }
  }

  method MixinTargetsOf(p: CapturedPair, cp: seq<Cp>) returns (found: seq<string>)
    ensures found == MixinStep(p, cp)
  {
    found := [];
    var name := Utf8At(cp, p.name);
    if name.None? || p.value.None? {
      return;
    }
    if name.value == "value" {
      found := ClassTargetsLoop(cp, ClassIndices(p.value.value));
    } else if name.value == "targets" {
      found := StringTargetsLoop(cp, StringIndices(p.value.value));
    }
  }

  method ClassTargetsLoop(cp: seq<Cp>, indices: seq<u16>) returns (found: seq<string>)
    ensures found == ClassTargets(cp, indices)
  {
    hide ClassTarget;
    found := [];
    for i := 0 to |indices|
      invariant ClassTargets(cp, indices) == found + ClassTargets(cp, indices[i..])
    {
      assert indices[i..][1..] == indices[i + 1..];
      found := found + ClassTarget(cp, indices[i]);
    }
  }

  method StringTargetsLoop(cp: seq<Cp>, indices: seq<u16>) returns (found: seq<string>)
    ensures found == StringTargets(cp, indices)
  {
    hide StringTarget;
    found := [];
    for i := 0 to |indices|
      invariant StringTargets(cp, indices) == found + StringTargets(cp, indices[i..])
    {
      assert indices[i..][1..] == indices[i + 1..];
      found := found + StringTarget(cp, indices[i]);
    }
  }

  // ----- Class attributes and markers ----------------------------------------------

  /** The attribute loop: bodies are taken, only annotation blocks are scanned. */
  method ReadClassAttributes(c: Cur, cp: seq<Cp>) returns (r: Option<AttrFacts>)
    requires c.Valid()
    modifies c
    ensures c.Valid() && old(c.p) <= c.p
    ensures match G.ReadAttrs(old(c.Rest()))
            case Malformed => r == None
            case Parsed(attrs, rest) => r == Some(AttrFold(NO_FACTS, attrs, cp)) && c.Rest() == rest
  {
    hide G.ReadU2, G.ReadAttr, ScanBody;
    var count := c.U2();
    if count.None? {
      return None;
    }
    ghost var start := c.Rest();
    ghost var done: seq<G.Attr> := [];
    var facts := NO_FACTS;
    for i := 0 to count.value
      invariant c.Valid() && old(c.p) <= c.p
      invariant facts == AttrFold(NO_FACTS, done, cp)
      invariant G.ReadMany(count.value, G.ReadAttr, start)
             == Prepend(done, G.ReadMany(count.value - i, G.ReadAttr, c.Rest()))
    {
      ghost var here := c.Rest();
      ManyTurn(done, count.value - i, G.ReadAttr, here);
      var taken := TakeAttribute(c);
      if taken.None? {
        return None;
      }
      var a := taken.value;
      AttrFoldGrows(NO_FACTS, done, a, cp);
      done := done + [a];
      if IsAnnotations(Utf8At(cp, a.name)) {
        var s := ScanAnnotations(a.body, cp);
        if s.modAnnotation.Some? {
          var ann := s.modAnnotation.value;
          facts := facts.(modSides := Some((ann.client, ann.server)),
                          modId := OrElse(facts.modId, ann.modid),
                          acceptableRemoteVersions :=
                            OrElse(facts.acceptableRemoteVersions, ann.acceptableRemoteVersions));
        }
        facts := facts.(dist := OrElse(facts.dist, s.dist), mixinTargets := facts.mixinTargets + s.mixinTargets);
      }
    }
    r := Some(facts);
  }

  lemma {:induction false} AttrFoldGrows(f: AttrFacts, attrs: seq<G.Attr>, a: G.Attr, cp: seq<Cp>)
    ensures AttrFold(f, attrs + [a], cp) == AttrStep(AttrFold(f, attrs, cp), a, cp)
    decreases |attrs|
  {
    hide AttrStep;
    if attrs == [] {
      assert [a][1..] == [];
    } else {
      assert (attrs + [a])[1..] == attrs[1..] + [a];
      AttrFoldGrows(AttrStep(f, attrs[0], cp), attrs[1..], a, cp);
    }
  }

  /** `is_conditional`: the first marker or guard decides. */
  method IsConditional(cp: seq<Cp>) returns (r: bool)
    ensures r <==> Conditional(cp)
  {
    for i := 0 to |cp|
      invariant forall k :: 0 <= k < i ==> !(cp[k].Utf8? && cp[k].text in OPTIONAL_MARKERS) && !IsGuard(cp, cp[k])
    {
      if cp[i].Utf8? && cp[i].text in OPTIONAL_MARKERS {
        return true;
      }
      if IsGuard(cp, cp[i]) {
        return true;
      }
    }
    r := false;
  }

  // ----- The whole class --------------------------------------------------------------

  /** `parse_class`: on every byte string it ends, and answers the facts of the
      class file the bytes print, or nothing when they print none. */
  method ParseClass(bytes: seq<byte>) returns (r: Option<ClassInfo>)
    ensures r == match G.ReadClass(bytes) case Malformed => None case Parsed(cf, _) => Facts(cf)
  {
    hide G.ReadU2, G.ReadU4, G.ReadPool, G.ReadMembers, G.ReadAttrs;
    var c := new Cur(bytes);
    var magic := c.U4();
    if magic.None? || magic.value != G.MAGIC {
      return None;
    }
    var minor := c.U2();
    if minor.None? {
      return None;
    }
    var major := c.U2();
    if major.None? {
      return None;
    }
    var cpCount := c.U2();
    if cpCount.None? {
      return None;
    }
    ghost var pool := G.ReadPool(1, cpCount.value, c.Rest());
    var cp := ReadPoolLoop(c, cpCount.value);
    if cp.None? {
      return None;
    }
    ghost var head := G.ClassFile(minor.value, major.value, cpCount.value, pool.value, 0, 0, 0, [], [], [], []);
    r := ParseBody(c, cp.value, head);
  }

  /** Everything past the pool. */
  method ParseBody(c: Cur, cp: seq<Cp>, ghost head: G.ClassFile) returns (r: Option<ClassInfo>)
    requires c.Valid() && cp == Table(head.pool)
    modifies c
    ensures r == match G.ReadBody(head, old(c.Rest())) case Malformed => None case Parsed(cf, _) => Facts(cf)
  {
    hide G.ReadU2, G.ReadMembers, G.ReadAttrs, Table, PoolTypes, MemberTypes, AttrFold, Conditional, HasMarker,
         NamedInterfaces;
    var access := c.U2();
    if access.None? {
      return None;
    }
    var thisIndex := c.U2();
    if thisIndex.None? {
      return None;
    }
    var thisClass := ClassNameAt(cp, thisIndex.value);
    if thisClass.None? {
      return None;
    }
    var superIndex := c.U2();
    if superIndex.None? {
      return None;
    }
    var interfaces, indices := ReadInterfaces(c, cp);
    if interfaces.None? {
      return None;
    }
    var referenced := CollectPoolTypes(cp);
    var ok;
    ok, referenced := CollectMemberTypes(c, cp, referenced);
    if !ok {
      return None;
    }
    ok, referenced := CollectMemberTypes(c, cp, referenced);
    if !ok {
      return None;
    }
    var facts := ReadClassAttributes(c, cp);
    if facts.None? {
      return None;
    }
    referenced := referenced - {thisClass.value};
    var conditional := IsConditional(cp);
    var a, named := facts.value, interfaces.value;
    r := Some(ClassInfo(
      thisClass.value, SuperName(cp, superIndex.value), named, referenced, conditional,
      a.modSides, a.modId, a.acceptableRemoteVersions, a.dist,
      HasMarker(cp, SIDED_PROXY_DESCRIPTORS),
      exists i :: 0 <= i < |named| && named[i] in LOADING_PLUGIN_INTERFACES,
      a.mixinTargets));
  }

  /** A printed class file is parsed to its facts, whatever follows it, and a
      parse that answers anything answers the facts of a class file the bytes
      print. */
  lemma ParseMeaning(bytes: seq<byte>, info: ClassInfo)
    ensures (match G.ReadClass(bytes) case Malformed => None case Parsed(cf, _) => Facts(cf)) == Some(info)
       <==> exists cf: G.ClassFile, tail: seq<byte> ::
              cf.Good() && bytes == G.PutClass(cf, tail) && Facts(cf) == Some(info)
  {
    hide G.ReadClass, G.PutClass, Facts;
    G.ClassInverse(bytes);
    forall cf: G.ClassFile, tail: seq<byte> | cf.Good() && bytes == G.PutClass(cf, tail)
      ensures G.ReadClass(bytes) == Parsed(cf, tail)
    {
      G.ClassLaw(cf, tail);
    }
  }
}
