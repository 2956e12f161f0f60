/** Pulling class names out of field and method descriptors
    (src/authoring/classfile.rs `extract_object_types`, `push_type`), against the
    descriptor grammar of sections 4.3.2 and 4.3.3 of the Java Virtual Machine
    Specification (SE 8). */
module Descriptors {
  import opened Base
  import opened Utf8Codec

  // ----- The grammar ---------------------------------------------------------

  datatype FieldType = Primitive(code: char) | Object(name: string) | ArrayOf(element: FieldType)

  datatype Descriptor = Field(t: FieldType) | Method(params: seq<FieldType>, result: Option<FieldType>)

  /** A class name is not empty and cannot hold the terminator. */
  predicate Good(t: FieldType)
  {
    match t
    case Primitive(code) => code in "BCDFIJSZ"
    case Object(name) => name != "" && ';' !in name
    case ArrayOf(element) => Good(element)
  }

  predicate GoodDescriptor(d: Descriptor)
  {
    match d
    case Field(t) => Good(t)
    case Method(params, result) =>
      && (forall p :: p in params ==> Good(p))
      && (result.Some? ==> Good(result.value))
  }

  function Render(t: FieldType): string
  {
    match t
    case Primitive(code) => [code]
    case Object(name) => "L" + name + ";"
    case ArrayOf(element) => "[" + Render(element)
  }

  function RenderAll(ts: seq<FieldType>): string
  {
    if ts == [] then "" else Render(ts[0]) + RenderAll(ts[1..])
  }

  function RenderDescriptor(d: Descriptor): string
  {
    match d
    case Field(t) => Render(t)
    case Method(params, result) =>
      "(" + (RenderAll(params) + (")" + match result case None => "V" case Some(t) => Render(t)))
  }

  function Classes(t: FieldType): set<string>
  {
    match t
    case Primitive(_) => {}
    case Object(name) => {name}
    case ArrayOf(element) => Classes(element)
  }

  function AllClasses(ts: seq<FieldType>): set<string>
  {
    if ts == [] then {} else Classes(ts[0]) + AllClasses(ts[1..])
  }

  function DescriptorClasses(d: Descriptor): set<string>
  {
    match d
    case Field(t) => Classes(t)
    case Method(params, result) =>
      AllClasses(params) + match result case None => {} case Some(t) => Classes(t)
  }

  // ----- The scanner -----------------------------------------------------------

  /** The first `close` of `d` at or after `from`, or the end of `d`. */
  function Until<T(==)>(d: seq<T>, close: T, from: nat): (j: nat)
    requires from <= |d|
    ensures from <= j <= |d|
    ensures j < |d| ==> d[j] == close
    ensures forall k :: from <= k < j ==> d[k] != close
    decreases |d| - from
  {
    if from < |d| && d[from] != close then Until(d, close, from + 1) else from
  }

  /** What stands between an `open` and the next `close`, nothing counted twice. */
  function Scan<T(==)>(d: seq<T>, open: T, close: T): set<seq<T>>
  {
    if d == [] then {}
    else if d[0] != open then Scan(d[1..], open, close)
    else
      var j := Until(d, close, 1);
      if j == |d| then {} else (if j > 1 then {d[1..j]} else {}) + Scan(d[j + 1..], open, close)
  }

  /** The names scanned out of a descriptor. */
  function ObjectTypes(d: string): set<string>
  {
    Scan(d, 'L', ';')
  }

  const L_BYTE: byte := 0x4C
  const SEMICOLON_BYTE: byte := 0x3B

  function ObjectBytes(b: seq<byte>): set<seq<byte>>
  {
    Scan(b, L_BYTE, SEMICOLON_BYTE)
  }

  /** The scanner itself, over bytes; it ends on every string, descriptor or not, and
      what it cuts out is text. */
  method ExtractObjectTypes(desc: string, found: set<string>) returns (out: set<string>)
    ensures out == found + ObjectTypes(desc)
  {
    out := found;
    var bytes := Encode(desc);
    ghost var cut: set<seq<byte>> := {};
    ScanEncoded(desc);
    hide Encode, Scan, Decode;
    var i := 0;
    while i < |bytes|
      invariant 0 <= i
      invariant cut + (if i <= |bytes| then ObjectBytes(bytes[i..]) else {}) == ObjectBytes(bytes)
      invariant Cuts(out, found, desc, cut)
    {
      ScanStep(bytes[i..], L_BYTE, SEMICOLON_BYTE);
      if bytes[i] == L_BYTE {
        ghost var tail := bytes[i..];
        var start := i + 1;
        var j := start;
        while j < |bytes| && bytes[j] != SEMICOLON_BYTE
          invariant start <= j <= |bytes|
          invariant Until(tail, SEMICOLON_BYTE, 1) == Until(tail, SEMICOLON_BYTE, j - i)
        {
          j := j + 1;
        }
        assert Until(tail, SEMICOLON_BYTE, 1) == j - i;
        assert tail[1..j - i] == bytes[start..j];
        if j < |bytes| && j > start {
          var name := bytes[start..j];
          CutIsText(desc, name);
          CutOneMore(out, found, desc, cut, name);
          out := out + {Decode(name).value};
          cut := cut + {name};
        }
        if j < |bytes| {
          assert tail[j - i + 1..] == bytes[j + 1..];
        }
        i := j + 1;
      } else {
        assert bytes[i..][1..] == bytes[i + 1..];
        i := i + 1;
      }
    }
    ScanStep(bytes[|bytes|..], L_BYTE, SEMICOLON_BYTE);
    assert i > |bytes| || bytes[i..] == bytes[|bytes|..];
    AllCut(out, found, desc, cut);
  }

  lemma ScanStep<T>(d: seq<T>, open: T, close: T)
    ensures d == [] ==> Scan(d, open, close) == {}
    ensures d != [] && d[0] != open ==> Scan(d, open, close) == Scan(d[1..], open, close)
    ensures d != [] && d[0] == open ==>
              var j := Until(d, close, 1);
              Scan(d, open, close)
              == if j == |d| then {} else (if j > 1 then {d[1..j]} else {}) + Scan(d[j + 1..], open, close)
  {
  }

  /** Out of `found` and the names whose bytes were cut so far. */
  ghost predicate Cuts(out: set<string>, found: set<string>, desc: string, cut: set<seq<byte>>)
  {
    out == found + set c | c in ObjectTypes(desc) && Encode(c) in cut
  }

  lemma CutIsText(desc: string, name: seq<byte>)
    requires name in ObjectBytes(Encode(desc))
    ensures Decode(name).Some? && Decode(name).value in ObjectTypes(desc)
  {
    ScanEncoded(desc);
    var c :| c in ObjectTypes(desc) && Encode(c) == name;
    DecodeIff(name, c);
  }

  lemma CutOneMore(out: set<string>, found: set<string>, desc: string, cut: set<seq<byte>>, name: seq<byte>)
    requires Cuts(out, found, desc, cut) && Decode(name).Some? && Decode(name).value in ObjectTypes(desc)
    ensures Cuts(out + {Decode(name).value}, found, desc, cut + {name})
  {
    hide Encode, Decode, Scan;
    forall c ensures Encode(c) == name <==> c == Decode(name).value {
      DecodeIff(name, c);
    }
  }

  lemma AllCut(out: set<string>, found: set<string>, desc: string, cut: set<seq<byte>>)
    requires Cuts(out, found, desc, cut) && cut == ObjectBytes(Encode(desc))
    ensures out == found + ObjectTypes(desc)
  {
    ScanEncoded(desc);
  }

  // ----- Scanning bytes is scanning text -----------------------------------------

  /** In UTF-8 a byte below 0x80 is a character, and part of no other. */
  lemma EncodeCharParts(c: char)
    ensures (c as int) < 0x80 ==> EncodeChar(c) == [c as int]
    ensures (c as int) >= 0x80 ==> forall x :: x in EncodeChar(c) ==> x >= 0x80
  {
  }

  lemma {:induction false} EncodeAvoids(s: string)
    requires ';' !in s
    ensures SEMICOLON_BYTE !in Encode(s)
  {
    if s != [] {
      EncodeAvoids(s[1..]);
      EncodeCharParts(s[0]);
      assert s[0] != ';';
      hide EncodeChar;
    }
  }

  lemma {:induction false} SkipHigh(p: seq<byte>, b: seq<byte>)
    requires forall x :: x in p ==> x >= 0x80
    ensures ObjectBytes(p + b) == ObjectBytes(b)
  {
    if p == [] {
      assert p + b == b;
    } else {
      assert (p + b)[1..] == p[1..] + b && (p + b)[0] == p[0] && p[0] in p;
      assert forall x :: x in p[1..] ==> x in p;
      SkipHigh(p[1..], b);
    }
  }

  function Encoded(names: set<string>): set<seq<byte>>
  {
    set c | c in names :: Encode(c)
  }

  lemma EncodedMore(name: string, rest: set<string>)
    ensures Encoded({}) == {} && Encoded({name} + rest) == {Encode(name)} + Encoded(rest)
  {
  }

  /** The bytes cut out of a string's encoding are the encodings of what is cut out of
      the string. */
  lemma {:induction false} ScanEncoded(s: string)
    ensures ObjectBytes(Encode(s)) == Encoded(ObjectTypes(s))
    decreases |s|
  {
    if s != [] {
      EncodeCharParts(s[0]);
      var more := Encode(s[1..]);
      if s[0] == 'L' {
        ScanName(s);
      } else {
        ScanEncoded(s[1..]);
        hide EncodeChar;
        if (s[0] as int) >= 0x80 {
          SkipHigh(EncodeChar(s[0]), more);
        } else {
          assert ([s[0] as int] + more)[1..] == more;
        }
      }
    }
  }

  lemma {:induction false} ScanName(s: string)
    requires s != [] && s[0] == 'L'
    ensures ObjectBytes(Encode(s)) == Encoded(ObjectTypes(s))
    decreases |s|, 0
  {
    var j := Until(s, ';', 1);
    var name := s[1..j];
    ScanStep(s, 'L', ';');
    EncodeAvoids(name);
    if j < |s| {
      var rest := s[j + 1..];
      assert s == ['L'] + (name + ([';'] + rest));
      hide Scan, Encode, Encoded, Until;
      ScanEncoded(rest);
      EncodedMore(name, ObjectTypes(rest));
      EncodeClosed(name, rest);
      NameCut(Encode(name), Encode(rest));
    } else {
      assert s == ['L'] + name;
      hide Scan, Encode, Encoded, Until;
      EncodedMore(name, {});
      EncodeOpen(name);
      NoName(Encode(name));
    }
  }

  lemma EncodeOpen(name: string)
    ensures Encode(['L'] + name) == [L_BYTE] + Encode(name)
  {
    assert (['L'] + name)[1..] == name;
    EncodeCharParts('L');
  }

  lemma EncodeClosed(name: string, rest: string)
    ensures Encode(['L'] + (name + ([';'] + rest))) == [L_BYTE] + (Encode(name) + ([SEMICOLON_BYTE] + Encode(rest)))
  {
    EncodeOpen(name + ([';'] + rest));
    EncodeAppend(name, [';'] + rest);
    assert ([';'] + rest)[1..] == rest;
    EncodeCharParts(';');
  }

  lemma NameCut(name: seq<byte>, rest: seq<byte>)
    requires SEMICOLON_BYTE !in name
    ensures ObjectBytes([L_BYTE] + (name + ([SEMICOLON_BYTE] + rest)))
         == (if name != [] then {name} else {}) + ObjectBytes(rest)
  {
    var b := [L_BYTE] + (name + ([SEMICOLON_BYTE] + rest));
    var j := 1 + |name|;
    assert b[j] == SEMICOLON_BYTE && forall k :: 1 <= k < j ==> b[k] == name[k - 1];
    assert Until(b, SEMICOLON_BYTE, 1) == j;
    assert b[1..j] == name && b[j + 1..] == rest;
  }

  lemma NoName(name: seq<byte>)
    requires SEMICOLON_BYTE !in name
    ensures ObjectBytes([L_BYTE] + name) == {}
  {
    var b := [L_BYTE] + name;
    assert forall k :: 1 <= k < |b| ==> b[k] == name[k - 1];
    assert Until(b, SEMICOLON_BYTE, 1) == |b|;
  }

  lemma {:induction false} ScanField(t: FieldType, tail: string)
    requires Good(t)
    ensures ObjectTypes(Render(t) + tail) == Classes(t) + ObjectTypes(tail)
  {
    var d := Render(t) + tail;
    match t
    case Primitive(code) => assert code != 'L' && d[0] == code && d[1..] == tail;
    case Object(name) =>
      var j := |name| + 1;
      assert d[j] == ';' && forall k :: 1 <= k < j ==> d[k] == name[k - 1];
      assert Until(d, ';', 1) == j;
      assert d[1..j] == name && d[j + 1..] == tail;
    case ArrayOf(element) =>
      assert d[0] == '[' && d[1..] == Render(element) + tail;
      ScanField(element, tail);
  }

  lemma {:induction false} ScanFields(ts: seq<FieldType>, tail: string)
    requires forall t :: t in ts ==> Good(t)
    ensures ObjectTypes(RenderAll(ts) + tail) == AllClasses(ts) + ObjectTypes(tail)
  {
    if ts == [] {
      assert RenderAll(ts) + tail == tail;
    } else {
      var more := RenderAll(ts[1..]) + tail;
      assert RenderAll(ts) + tail == Render(ts[0]) + more;
      ScanField(ts[0], more);
      ScanFields(ts[1..], tail);
    }
  }

  /** On every well-formed descriptor the scan finds exactly the classes of its derivation. */
  lemma ScanFindsClasses(d: Descriptor)
    requires GoodDescriptor(d)
    ensures ObjectTypes(RenderDescriptor(d)) == DescriptorClasses(d)
  {
    match d
    case Field(t) =>
      ScanField(t, "");
      assert Render(t) + "" == Render(t);
    case Method(params, result) =>
      var ret := match result case None => "V" case Some(t) => Render(t);
      var closing := ")" + ret;
      assert RenderDescriptor(d)[1..] == RenderAll(params) + closing;
      ScanFields(params, closing);
      assert closing[0] == ')' && closing[1..] == ret;
      assert ObjectTypes(closing) == ObjectTypes(ret);
      match result {
        case None =>
          assert ret[0] == 'V' && ret[1..] == "";
          assert ObjectTypes(ret[1..]) == {} && ObjectTypes(ret) == {};
        case Some(t) =>
          ScanField(t, "");
          assert Render(t) + "" == Render(t);
      }
  }

  // ----- Class entries ---------------------------------------------------------

  function TrimBrackets(s: string): string
  {
    if s != "" && s[0] == '[' then TrimBrackets(s[1..]) else s
  }

  /** `L` and `;` come off together or not at all. */
  function Unwrapped(s: string): string
  {
    if |s| >= 2 && s[0] == 'L' && s[|s| - 1] == ';' then s[1..|s| - 1] else s
  }

  /** What one `Class` entry contributes: its element class, one-letter names dropped. */
  function PushType(raw: string): set<string>
  {
    var name := Unwrapped(TrimBrackets(raw));
    if |Encode(name)| > 1 then {name} else {}
  }

  /** An array class contributes the class at the bottom of it, and a primitive
      array nothing; a class whose name is one letter long is lost. */
  lemma {:induction false} PushArray(element: FieldType)
    requires Good(element)
    ensures PushType(Render(ArrayOf(element))) == set c | c in Classes(element) && |Encode(c)| > 1
  {
    var r := Render(ArrayOf(element));
    assert r[0] == '[' && r[1..] == Render(element);
    match element
    case Primitive(code) =>
      OneByte(code);
      hide Encode;
      assert TrimBrackets([code]) == [code];
    case Object(name) =>
      hide Encode;
      var inner := Render(element);
      assert TrimBrackets(inner) == inner;
      assert Unwrapped(inner) == name;
    case ArrayOf(e) =>
      hide Encode;
      PushArray(e);
  }

  lemma OneByte(code: char)
    requires code in "BCDFIJSZ"
    ensures |Encode([code])| == 1
  {
    assert (code as int) < 0x80;
    EncodeCharParts(code);
    hide EncodeChar;
    assert Encode([code][1..]) == [];
  }

  /** A plain class name contributes itself, exactly when it is longer than one
      letter. */
  lemma PushPlain(name: string)
    requires name != "" && name[0] != '[' && ';' !in name
    ensures PushType(name) == if |Encode(name)| > 1 then {name} else {}
  {
    assert |name| >= 2 ==> name[|name| - 1] in name;
  }
}
