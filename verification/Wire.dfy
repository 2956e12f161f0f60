/** The Minecraft status wire format (src/authoring/mcping.rs): varints, strings
    and length-prefixed packets.

    A varint is little-endian base 128 over the 32-bit two's-complement pattern,
    the high bit of a byte saying that another one follows (unsigned LEB128,
    section 7.6 of DWARF Version 5). The OR of disjoint bit groups is written as
    their sum. */
module Wire {
  import opened Base
  import opened Utf8Codec

  const MAX_GROUPS := 5
  const MAX_RESPONSE := 4 * 1024 * 1024

  datatype ReadError = RanOff | TooLong | Overrun | NotUtf8
  datatype Result<+T> = Ok(value: T) | Err(error: ReadError)

  // ----- What a varint is -----------------------------------------------

  /** The first `n` bytes of `b` are one complete varint. */
  predicate IsVarint(b: seq<byte>, n: nat)
  {
    && 1 <= n <= MAX_GROUPS && n <= |b|
    && (forall i :: 0 <= i < n - 1 ==> b[i] >= 0x80)
    && b[n - 1] < 0x80
  }

  /** The number the low seven bits of each byte spell, least significant first. */
  function Payload(b: seq<byte>): nat
  {
    if b == [] then 0 else b[0] % 0x80 + 0x80 * Payload(b[1..])
  }

  function Varint(u: u32): (s: seq<byte>)
  {
    if u < 0x80 then [u] else [u % 0x80 + 0x80] + Varint(u / 0x80)
  }

  /** The size of a varint is its number of seven-bit groups. */
  function Groups(u: u32): nat
  {
    if u < 0x80 then 1 else if u < 0x4000 then 2 else if u < 0x20_0000 then 3
    else if u < 0x1000_0000 then 4 else 5
  }

  lemma {:induction false} VarintIsVarint(u: u32, tail: seq<byte>)
    ensures |Varint(u)| == Groups(u)
    ensures IsVarint(Varint(u) + tail, |Varint(u)|)
    ensures Payload(Varint(u)) == u
  {
    if u >= 0x80 {
      VarintIsVarint(u / 0x80, tail);
      var inner := Varint(u / 0x80);
      assert Varint(u)[1..] == inner;
      forall i | 0 <= i < |inner| ensures (Varint(u) + tail)[i + 1] == (inner + tail)[i] {
      }
      assert forall i :: 0 <= i < |inner| ==> (Varint(u) + tail)[i + 1] == (inner + tail)[i];
      forall i | 0 <= i < |inner| ensures (Varint(u) + tail)[i] >= 0x80 {
        if i > 0 {
          assert (Varint(u) + tail)[i] == (inner + tail)[i - 1];
        }
      }
    }
  }

  /** The `i`-th byte carries the `i`-th seven bits from the bottom, and the high bit of
      every byte but the last says that another follows. */
  lemma VarintBytes(u: u32)
    ensures var b := Varint(u);
            && b[0] % 0x80 == u % 0x80
            && (|b| > 1 ==> b[1] % 0x80 == u / 0x80 % 0x80)
            && (|b| > 2 ==> b[2] % 0x80 == u / 0x4000 % 0x80)
            && (|b| > 3 ==> b[3] % 0x80 == u / 0x20_0000 % 0x80)
            && (|b| > 4 ==> b[4] % 0x80 == u / 0x1000_0000)
            && forall i :: 0 <= i < |b| ==> (b[i] >= 0x80 <==> i < |b| - 1)
  {
    VarintIsVarint(u, []);
    assert Varint(u) + [] == Varint(u);
    hide Varint, Payload;
    var u1 := u / 0x80;
    var u2 := u1 / 0x80;
    var u3 := u2 / 0x80;
    var u4 := u3 / 0x80;
    VarintHead(u);
    VarintHead(u1);
    VarintHead(u2);
    VarintHead(u3);
    VarintHead(u4);
    Quotients(u);
  }

  lemma Quotients(u: u32)
    ensures u / 0x80 / 0x80 == u / 0x4000
    ensures u / 0x4000 / 0x80 == u / 0x20_0000
    ensures u / 0x20_0000 / 0x80 == u / 0x1000_0000 < 0x10
  {
  }

  lemma VarintHead(u: u32)
    ensures |Varint(u)| >= 1 && Varint(u)[0] % 0x80 == u % 0x80
    ensures |Varint(u)| > 1 ==> Varint(u)[1..] == Varint(u / 0x80)
  {
  }

  /** Payload is positional: appending a byte adds its seven bits at the top. */
  lemma {:induction false} PayloadAppend(b: seq<byte>, x: byte)
    ensures Payload(b + [x]) == Payload(b) + Pow(|b|) * (x % 0x80)
  {
    if b == [] {
      assert [x][1..] == [];
    } else {
      assert (b + [x])[1..] == b[1..] + [x];
      PayloadAppend(b[1..], x);
      var p, t := Pow(|b| - 1), x % 0x80;
      assert 0x80 * (Payload(b[1..]) + p * t) == 0x80 * Payload(b[1..]) + (0x80 * p) * t;
    }
  }

  lemma {:induction false} PayloadBound(b: seq<byte>)
    ensures Payload(b) < Pow(|b|)
  {
    if b != [] {
      PayloadBound(b[1..]);
    }
  }

  function Pow(k: nat): (p: nat)
    ensures p > 0
  {
    if k == 0 then 1 else 0x80 * Pow(k - 1)
  }

  lemma Powers()
    ensures Pow(0) == 1 && Pow(1) == 0x80 && Pow(2) == 0x4000 && Pow(3) == 0x20_0000
    ensures Pow(4) == 0x1000_0000 && Pow(5) == 0x8_0000_0000
  {
    assert Pow(2) == 0x80 * Pow(1) && Pow(3) == 0x80 * Pow(2);
    assert Pow(4) == 0x80 * Pow(3) && Pow(5) == 0x80 * Pow(4);
  }

  // ----- Reading one back ------------------------------------------------

  /** Where the varint at the front of `b` ends, looking from byte `k` on; 0 if it never does. */
  function VarintEnd(b: seq<byte>, k: nat): (n: nat)
    decreases MAX_GROUPS - k
  {
    if k >= MAX_GROUPS || k >= |b| then 0
    else if b[k] < 0x80 then k + 1
    else VarintEnd(b, k + 1)
  }

  lemma {:induction false} VarintEndFinds(b: seq<byte>, k: nat)
    requires k <= MAX_GROUPS && k <= |b|
    requires forall i :: 0 <= i < k ==> b[i] >= 0x80
    ensures VarintEnd(b, k) == 0 ==> forall n :: !IsVarint(b, n)
    ensures VarintEnd(b, k) != 0 ==> forall n :: IsVarint(b, n) <==> n == VarintEnd(b, k)
    decreases MAX_GROUPS - k
  {
    if k < MAX_GROUPS && k < |b| && b[k] >= 0x80 {
      VarintEndFinds(b, k + 1);
    }
  }

  /** What a reader answers on `b`: five bytes hold 35 bits, of which the i32 keeps 32. */
  function DecodeVarint(b: seq<byte>): Result<i32>
  {
    var n := VarintEnd(b, 0);
    if n != 0 && n <= |b| then Ok(Signed(Payload(b[..n]) % 0x1_0000_0000))
    else Err(if |b| < MAX_GROUPS then RanOff else TooLong)
  }

  /** What a reader leaves of `b`; a failed read has used up the bytes it looked at. */
  function AfterVarint(b: seq<byte>): seq<byte>
  {
    var n := VarintEnd(b, 0);
    if 0 < n <= |b| then b[n..] else b[if |b| < MAX_GROUPS then |b| else MAX_GROUPS..]
  }

  /** The number a reader takes is the low 32 bits, as a signed number, of what the varint at
      the front spells; it fails when the first five bytes all promise another one, or when
      all there are do and they are fewer. */
  lemma DecodeVarintIff(b: seq<byte>)
    ensures forall v: i32 ::
              DecodeVarint(b) == Ok(v) <==>
                exists n: nat :: IsVarint(b, n) && Bits(v) == Payload(b[..n]) % 0x1_0000_0000
    ensures DecodeVarint(b) == Err(RanOff) <==> |b| < 5 && forall i :: 0 <= i < |b| ==> b[i] >= 0x80
    ensures DecodeVarint(b) == Err(TooLong) <==> |b| >= 5 && forall i :: 0 <= i < 5 ==> b[i] >= 0x80
    ensures DecodeVarint(b).Err? ==> DecodeVarint(b).error in {RanOff, TooLong}
  {
    VarintEndFinds(b, 0);
    var n := VarintEnd(b, 0);
    if n != 0 {
      assert IsVarint(b, n);
      forall v: i32 ensures DecodeVarint(b) == Ok(v) <==> Bits(v) == Payload(b[..n]) % 0x1_0000_0000 {
      }
      assert b[n - 1] < 0x80;
    } else {
      NoEnd(b, 0);
    }
    hide Payload, VarintEnd;
  }

  lemma {:induction false} NoEnd(b: seq<byte>, k: nat)
    requires k <= MAX_GROUPS && VarintEnd(b, k) == 0
    ensures forall i :: k <= i < |b| && i < MAX_GROUPS ==> b[i] >= 0x80
    decreases MAX_GROUPS - k
  {
    if k < MAX_GROUPS && k < |b| {
      NoEnd(b, k + 1);
    }
  }

  /** Every 32-bit value, negative ones included, survives the wire, whatever follows it. */
  lemma VarintRoundTrip(v: i32, tail: seq<byte>)
    ensures DecodeVarint(Varint(Bits(v)) + tail) == Ok(v)
    ensures AfterVarint(Varint(Bits(v)) + tail) == tail
    ensures 1 <= |Varint(Bits(v))| <= MAX_GROUPS
    ensures v < 0 ==> |Varint(Bits(v))| == MAX_GROUPS
  {
    hide Varint, Payload, VarintEnd;
    var enc := Varint(Bits(v));
    VarintIsVarint(Bits(v), tail);
    VarintEndFinds(enc + tail, 0);
    assert (enc + tail)[|enc|..] == tail;
    assert IsVarint(enc + tail, |enc|);
    assert (enc + tail)[..|enc|] == enc;
  }

  /** The writer emits the shortest spelling: anything the reader takes for `v` is at least as long. */
  lemma WriterIsShortest(b: seq<byte>, n: nat, v: i32)
    requires IsVarint(b, n)
    requires DecodeVarint(b) == Ok(v)
    ensures |Varint(Bits(v))| <= n
  {
    hide Pow, Payload, Varint, VarintEnd;
    VarintEndFinds(b, 0);
    VarintIsVarint(Bits(v), []);
    Powers();
    PayloadBound(b[..n]);
  }

  // ----- The buffer being filled and the buffer being read ----------------

  /** `out: &mut Vec<u8>`. */
  class Buffer {
    var bytes: seq<byte>

    constructor ()
      ensures bytes == []
    {
      bytes := [];
    }

    method WriteVarint(value: i32)
      modifies this
      ensures bytes == old(bytes) + Varint(Bits(value))
    {
      var v := Bits(value);
      while true
        invariant bytes + Varint(v) == old(bytes) + Varint(Bits(value))
        decreases v
      {
        var low := v % 0x80;
        ghost var whole := v;
        v := v / 0x80;
        if v == 0 {
          bytes := bytes + [low];
          break;
        }
        assert bytes + Varint(whole) == (bytes + [low + 0x80]) + Varint(v);
        bytes := bytes + [low + 0x80];
      }
    }

    method WriteString(s: string)
      modifies this
      ensures bytes == old(bytes) + WireString(s)
    {
      var text := Encode(s);
      WriteVarint(LengthAsI32(text));
      bytes := bytes + text;
    }

    /** `write_packet`: the frame is assembled and handed to the stream in one piece. */
    method WritePacket(body: seq<byte>)
      modifies this
      ensures bytes == old(bytes) + Frame(body)
    {
      WriteVarint(LengthAsI32(body));
      bytes := bytes + body;
    }
  }

  /** `len as i32`: the length modulo 2^32, read as a signed number. */
  function LengthAsI32(s: seq<byte>): i32
  {
    Signed(|s| % 0x1_0000_0000)
  }

  function Frame(body: seq<byte>): seq<byte>
  {
    Varint(Bits(LengthAsI32(body))) + body
  }

  function WireString(s: string): seq<byte>
  {
    Frame(Encode(s))
  }

  /** `buf: &mut &[u8]` and the TCP stream: both are what is left to read. */
  class Slice {
    var rest: seq<byte>

    constructor (bytes: seq<byte>)
      ensures rest == bytes
    {
      rest := bytes;
    }

    method ReadVarint() returns (r: Result<i32>)
      modifies this
      ensures r == DecodeVarint(old(rest))
      ensures rest == AfterVarint(old(rest))
    {
      ghost var input := rest;
      var acc: u32 := 0;
      Powers();
      for shift := 0 to MAX_GROUPS
        invariant shift <= |input| && rest == input[shift..]
        invariant acc == Payload(input[..shift]) % 0x1_0000_0000
        invariant forall i :: 0 <= i < shift ==> input[i] >= 0x80
        invariant VarintEnd(input, 0) == VarintEnd(input, shift)
      {
        if rest == [] {
          return Err(RanOff);
        }
        var b := rest[0];
        rest := rest[1..];
        GroupLands(input, shift, acc);
        acc := acc + Pow(shift) * (b % 0x80) % 0x1_0000_0000;
        if b < 0x80 {
          return Ok(Signed(acc));
        }
      }
      return Err(TooLong);
    }

    method ReadString() returns (r: Result<string>)
      modifies this
      ensures r == DecodeString(old(rest))
      ensures r.Ok? ==> AfterVarint(old(rest)) == Encode(r.value) + rest
    {
      var len := ReadVarint();
      if len.Err? {
        return Err(len.error);
      }
      if len.value < 0 || len.value > |rest| {
        return Err(Overrun);
      }
      var raw := rest[..len.value];
      assert rest == raw + rest[len.value..];
      rest := rest[len.value..];
      var text := Decode(raw);
      if text.None? {
        return Err(NotUtf8);
      }
      DecodeIff(raw, text.value);
      r := Ok(text.value);
    }

    /** `read_packet`: single bytes up to the end of the length, which the buffer
        reader then decodes. */
    method ReadPacket() returns (r: Result<seq<byte>>)
      modifies this
      ensures r == DecodePacket(old(rest))
      ensures r.Ok? ==> rest == AfterVarint(old(rest))[|r.value|..]
    {
      hide Payload;
      ghost var input := rest;
      var lenBytes: seq<byte> := [];
      while true
        invariant |lenBytes| < MAX_GROUPS && |lenBytes| <= |input|
        invariant lenBytes == input[..|lenBytes|] && rest == input[|lenBytes|..]
        invariant forall i :: 0 <= i < |lenBytes| ==> input[i] >= 0x80
        invariant VarintEnd(input, 0) == VarintEnd(input, |lenBytes|)
        decreases MAX_GROUPS - |lenBytes|
      {
        if rest == [] {
          return Err(RanOff);
        }
        var b := rest[0];
        rest := rest[1..];
        lenBytes := lenBytes + [b];
        if b < 0x80 {
          break;
        }
        if |lenBytes| == MAX_GROUPS {
          return Err(TooLong);
        }
      }
      SameOnPrefix(input, |lenBytes|);
      assert lenBytes == input[..|lenBytes|] && rest == AfterVarint(input);
      var slice := new Slice(lenBytes);
      var len := slice.ReadVarint();
      assert len.Ok?;  // bytes collected up to a terminator always read back
      if len.value < 0 || len.value > MAX_RESPONSE || |rest| < len.value {
        return Err(Overrun);
      }
      r := Ok(rest[..len.value]);
      rest := rest[len.value..];
    }
  }

  /** One turn of the accumulation: shift the seven bits into place, drop what
      falls off the top of 32 bits, and OR them onto bits that were clear. */
  lemma GroupLands(input: seq<byte>, shift: nat, acc: u32)
    requires shift < MAX_GROUPS && shift < |input|
    requires acc == Payload(input[..shift]) % 0x1_0000_0000
    ensures acc + Pow(shift) * (input[shift] % 0x80) % 0x1_0000_0000
         == Payload(input[..shift + 1]) % 0x1_0000_0000
  {
    PayloadAppend(input[..shift], input[shift]);
    assert input[..shift + 1] == input[..shift] + [input[shift]];
    PayloadBound(input[..shift]);
    Powers();
    ShiftIn(shift, Payload(input[..shift]), input[shift] % 0x80);
  }

  /** Seven bits land above the bits already read, or are cut at bit 32. */
  lemma ShiftIn(shift: nat, p: nat, t: nat)
    requires shift < MAX_GROUPS && p < Pow(shift) && t < 0x80
    ensures p % 0x1_0000_0000 + Pow(shift) * t % 0x1_0000_0000 == (p + Pow(shift) * t) % 0x1_0000_0000
  {
    hide Pow;
    Powers();
    if shift == 4 {
      TopGroup(p, t);
    } else {
      assert shift == 0 || shift == 1 || shift == 2 || shift == 3;
      LowGroup(Pow(shift), p, t);
    }
  }

  lemma LowGroup(q: nat, p: nat, t: nat)
    requires q <= 0x20_0000 && p < 0x20_0000 && t < 0x80
    ensures p % 0x1_0000_0000 + q * t % 0x1_0000_0000 == (p + q * t) % 0x1_0000_0000
  {
    Product(q, t, 0x7f);
  }

  lemma Product(q: nat, t: nat, n: nat)
    requires t <= n
    ensures 0 <= q * t <= q * n
  {
  }

  lemma TopGroup(p: nat, t: nat)
    requires p < 0x1000_0000 && t < 0x80
    ensures p % 0x1_0000_0000 + 0x1000_0000 * t % 0x1_0000_0000 == (p + 0x1000_0000 * t) % 0x1_0000_0000
  {
    var high, low := t / 16, t % 16;
    assert 0x1000_0000 * t == 0x1_0000_0000 * high + 0x1000_0000 * low;
  }

  /** The buffer reader given only the varint's own bytes agrees with it given all of them. */
  lemma SameOnPrefix(b: seq<byte>, n: nat)
    requires IsVarint(b, n)
    ensures DecodeVarint(b[..n]) == DecodeVarint(b)
    ensures AfterVarint(b) == b[n..]
  {
    VarintEndFinds(b, 0);
    VarintEndFinds(b[..n], 0);
    assert IsVarint(b[..n], n);
    assert b[..n][..n] == b[..n];
  }

  // ----- Strings and packets on the wire ----------------------------------

  function DecodeString(b: seq<byte>): Result<string>
  {
    match DecodeVarint(b)
    case Err(e) => Err(e)
    case Ok(len) =>
      var rest := AfterVarint(b);
      if len < 0 || len > |rest| then Err(Overrun)
      else match Decode(rest[..len]) case None => Err(NotUtf8) case Some(s) => Ok(s)
  }

  function DecodePacket(b: seq<byte>): Result<seq<byte>>
  {
    match DecodeVarint(b)
    case Err(e) => Err(e)
    case Ok(len) =>
      var rest := AfterVarint(b);
      if len < 0 || len > MAX_RESPONSE || |rest| < len then Err(Overrun) else Ok(rest[..len])
  }

  /** What is decoded off the front is the encoding of the answer, never another
      spelling of it. */
  lemma DecodeStringIff(b: seq<byte>, s: string)
    ensures DecodeString(b) == Ok(s)
       <==> DecodeVarint(b) == Ok(|Encode(s)|) && Encode(s) <= AfterVarint(b)
  {
    var rest, len := AfterVarint(b), DecodeVarint(b);
    hide Encode, Decode, DecodeVarint, AfterVarint;
    if len.Ok? && 0 <= len.value <= |rest| {
      DecodeIff(rest[..len.value], s);
    }
  }

  /** Why a string is refused: its length is no varint, negative or past what follows, or
      the bytes it frames are no text's. */
  lemma StringRefusedIff(b: seq<byte>)
    ensures var (len, rest) := (DecodeVarint(b), AfterVarint(b));
            && (len.Err? ==> DecodeString(b) == Err(len.error))
            && (DecodeString(b) == Err(Overrun) <==> len.Ok? && !(0 <= len.value <= |rest|))
            && (DecodeString(b) == Err(NotUtf8) <==>
                  len.Ok? && 0 <= len.value <= |rest| && forall s :: rest[..len.value] != Encode(s))
  {
    DecodeVarintIff(b);
    var (len, rest) := (DecodeVarint(b), AfterVarint(b));
    hide Encode, Decode, DecodeVarint, AfterVarint, Payload;
    if len.Ok? && 0 <= len.value <= |rest| {
      var raw := rest[..len.value];
      forall s ensures Decode(raw) == Some(s) <==> raw == Encode(s) {
        DecodeIff(raw, s);
      }
      assert Decode(raw).Some? ==> raw == Encode(Decode(raw).value);
    }
  }

  /** A packet's length may not pass the limit either; within it the body is what follows. */
  lemma PacketIff(b: seq<byte>, body: seq<byte>)
    ensures var (len, rest) := (DecodeVarint(b), AfterVarint(b));
            && (len.Err? ==> DecodePacket(b) == Err(len.error))
            && (DecodePacket(b) == Err(Overrun) <==>
                  len.Ok? && (len.value < 0 || len.value > |rest| || len.value > 0x40_0000))
            && (DecodePacket(b) == Ok(body) <==>
                  len.Ok? && len.value == |body| && |body| <= 0x40_0000 && body <= rest)
  {
    DecodeVarintIff(b);
    var (len, rest) := (DecodeVarint(b), AfterVarint(b));
    hide DecodeVarint, AfterVarint, Payload;
    assert body <= rest <==> |body| <= |rest| && rest[..|body|] == body;
    if len.Ok? && 0 <= len.value <= |rest| {
      assert |rest[..len.value]| == len.value;
    }
  }

  /** Any string comes back exactly when its bytes are few enough for an i32: a longer
      one writes a length that reads back as another. */
  lemma StringRoundTrip(s: string, tail: seq<byte>)
    ensures DecodeString(WireString(s) + tail) == Ok(s) <==> |Encode(s)| < 0x8000_0000
    ensures AfterVarint(WireString(s) + tail) == Encode(s) + tail
  {
    LengthPrefix(Encode(s), tail);
    DecodeStringIff(WireString(s) + tail, s);
    hide Encode, DecodeVarint, AfterVarint, DecodeString, Frame;
  }

  lemma LengthPrefix(body: seq<byte>, tail: seq<byte>)
    ensures DecodeVarint(Frame(body) + tail) == Ok(LengthAsI32(body))
    ensures AfterVarint(Frame(body) + tail) == body + tail
    ensures (body + tail)[..|body|] == body && (body + tail)[|body|..] == tail
  {
    VarintRoundTrip(LengthAsI32(body), body + tail);
    assert Frame(body) + tail == Varint(Bits(LengthAsI32(body))) + (body + tail);
  }

  /** A framed body comes back exactly when it is within the response limit;
      the reader refuses or misreads every longer one. */
  lemma PacketRoundTrip(body: seq<byte>, tail: seq<byte>)
    ensures DecodePacket(Frame(body) + tail) == Ok(body) <==> |body| <= MAX_RESPONSE
    ensures AfterVarint(Frame(body) + tail) == body + tail
  {
    LengthPrefix(body, tail);
  }

  function Frames(bodies: seq<seq<byte>>): seq<byte>
  {
    if bodies == [] then [] else Frame(bodies[0]) + Frames(bodies[1..])
  }

  /** What reading packet after packet until one fails collects. */
  function ReadAll(b: seq<byte>, limit: nat): seq<seq<byte>>
  {
    match DecodePacket(b)
    case Err(_) => []
    case Ok(body) => if limit == 0 then [] else [body] + ReadAll(AfterVarint(b)[|body|..], limit - 1)
  }

  /** A conversation of framed packets reads back as the same bodies in the same order. */
  lemma {:induction false} FramesRoundTrip(bodies: seq<seq<byte>>, tail: seq<byte>)
    requires forall i :: 0 <= i < |bodies| ==> |bodies[i]| <= MAX_RESPONSE
    ensures ReadAll(Frames(bodies) + tail, |bodies|) == bodies
  {
    if bodies == [] {
    } else {
      var more := Frames(bodies[1..]) + tail;
      assert Frames(bodies) + tail == Frame(bodies[0]) + more;
      PacketRoundTrip(bodies[0], more);
      assert (bodies[0] + more)[|bodies[0]|..] == more;
      FramesRoundTrip(bodies[1..], tail);
    }
  }
}
