/** Text as bytes: UTF-8 (RFC 3629), its strict decoder (`String::from_utf8`) and its
    lossy one (`String::from_utf8_lossy`). */
module Utf8Codec {
  import opened Base

  // ----- Six bits at a time ------------------------------------------------------------

  /** A byte that carries six bits of a character. */
  predicate Trails(x: byte)
  {
    0x80 <= x < 0xC0
  }

  function High(n: nat): nat
  {
    n / 0x40
  }

  function Low(n: nat): (x: byte)
    ensures Trails(x)
  {
    0x80 + n % 0x40
  }

  function Push(n: nat, x: byte): nat
    requires Trails(x)
  {
    n * 0x40 + ((x as int) - 0x80)
  }

  lemma PushLow(n: nat)
    ensures Push(High(n), Low(n)) == n
    ensures forall k: nat :: n < 0x40 * k ==> High(n) < k
    ensures forall k: nat :: 0x40 * k <= n ==> k <= High(n)
  {
  }

  lemma LowPush(n: nat, x: byte)
    requires Trails(x)
    ensures High(Push(n, x)) == n && Low(Push(n, x)) == x
    ensures 0x40 * n <= Push(n, x) < 0x40 * n + 0x40
  {
  }

  // ----- One character --------------------------------------------------------------

  /** Section 3 of RFC 3629. */
  function EncodeChar(c: char): (b: seq<byte>)
    ensures 1 <= |b| <= 4
  {
    var n := c as int;
    if n < 0x80 then [n]
    else if n < 0x800 then
      PushLow(n);
      [0xC0 + High(n), Low(n)]
    else if n < 0x1_0000 then
      PushLow(n);
      PushLow(High(n));
      [0xE0 + High(High(n)), Low(High(n)), Low(n)]
    else
      PushLow(n);
      PushLow(High(n));
      PushLow(High(High(n)));
      [0xF0 + High(High(High(n))), Low(High(High(n))), Low(High(n)), Low(n)]
  }

  /** What stands at the front: a character, or bytes no character begins with. */
  datatype Piece = Char(c: char, size: nat) | Bad(size: nat)

  predicate Continues(b: seq<byte>, i: nat)
  {
    i < |b| && Trails(b[i])
  }

  /** May the second byte follow the first? Overlong forms, surrogates and numbers past
      the last one are kept out here. */
  predicate Second(b: seq<byte>)
  {
    && Continues(b, 1)
    && (b[0] == 0xE0 ==> b[1] >= 0xA0) && (b[0] == 0xED ==> b[1] < 0xA0)
    && (b[0] == 0xF0 ==> b[1] >= 0x90) && (b[0] == 0xF4 ==> b[1] < 0x90)
  }

  function Front(b: seq<byte>): (p: Piece)
    requires b != []
    ensures 1 <= p.size <= |b|
  {
    if b[0] < 0x80 then Char(b[0] as char, 1)
    else if b[0] < 0xC2 || b[0] > 0xF4 || !Second(b) then Bad(1)
    else if b[0] < 0xE0 then
      var lead: nat := (b[0] as int) - 0xC0;
      LowPush(lead, b[1]);
      Char(Push(lead, b[1]) as char, 2)
    else if !Continues(b, 2) then Bad(2)
    else if b[0] < 0xF0 then
      var lead: nat := (b[0] as int) - 0xE0;
      LowPush(lead, b[1]);
      LowPush(Push(lead, b[1]), b[2]);
      Char(Push(Push(lead, b[1]), b[2]) as char, 3)
    else if !Continues(b, 3) then Bad(3)
    else
      var lead: nat := (b[0] as int) - 0xF0;
      LowPush(lead, b[1]);
      LowPush(Push(lead, b[1]), b[2]);
      LowPush(Push(Push(lead, b[1]), b[2]), b[3]);
      Char(Push(Push(Push(lead, b[1]), b[2]), b[3]) as char, 4)
  }

  lemma FrontOfEncoded(c: char, tail: seq<byte>)
    ensures Front(EncodeChar(c) + tail) == Char(c, |EncodeChar(c)|)
  {
    var n := c as int;
    hide High, Low;
    PushLow(n);
    PushLow(High(n));
    PushLow(High(High(n)));
  }

  lemma FrontEncodes(b: seq<byte>)
    requires b != [] && Front(b).Char?
    ensures EncodeChar(Front(b).c) == b[..Front(b).size]
  {
    hide High, Low;
    if b[0] >= 0x80 {
      var lead: nat := (b[0] as int) - (if b[0] < 0xE0 then 0xC0 else if b[0] < 0xF0 then 0xE0 else 0xF0);
      LowPush(lead, b[1]);
      if b[0] >= 0xE0 {
        LowPush(Push(lead, b[1]), b[2]);
        if b[0] >= 0xF0 {
          LowPush(Push(Push(lead, b[1]), b[2]), b[3]);
        }
      }
    }
  }

  /** Some character's encoding begins like this. */
  ghost predicate Begins(p: seq<byte>)
  {
    exists c :: Starts(EncodeChar(c), p)
  }

  predicate Starts(b: seq<byte>, p: seq<byte>)
  {
    |p| <= |b| && b[..|p|] == p
  }

  /** A stretch that is no character is one byte, or goes as far as a character could have
      gone on; one byte more, and no character begins like that. */
  lemma BadIsMaximal(b: seq<byte>)
    requires b != [] && Front(b).Bad?
    ensures var n := Front(b).size;
            (n > 1 ==> Begins(b[..n])) && (n < |b| ==> !Begins(b[..n + 1]))
  {
    var n := Front(b).size;
    if n > 1 {
      BadBegins(b);
    }
    if n < |b| && Begins(b[..n + 1]) {
      var c :| Starts(EncodeChar(c), b[..n + 1]);
      FrontOfEncoded(c, []);
      assert EncodeChar(c) + [] == EncodeChar(c);
      PartsThere(b, EncodeChar(c));
    }
  }

  lemma BadBegins(b: seq<byte>)
    requires b != [] && Front(b).Bad? && Front(b).size > 1
    ensures Begins(b[..Front(b).size])
  {
    var n := Front(b).size;
    var e := b[..n] + if b[0] < 0xF0 || n == 3 then [0x80] else [0x80, 0x80];
    hide High, Low, Push;
    assert Front(e).Char? && Front(e).size == |e|;
    FrontEncodes(e);
    assert Starts(EncodeChar(Front(e).c), b[..n]);
  }

  /** With the byte behind a bad stretch, every character's bytes part from `b`. */
  lemma PartsThere(b: seq<byte>, e: seq<byte>)
    requires b != [] && Front(b).Bad? && Front(b).size < |b|
    requires e != [] && Front(e).Char? && Front(e).size == |e|
    ensures !Starts(e, b[..Front(b).size + 1])
  {
    var n := Front(b).size;
    if Starts(e, b[..n + 1]) {
      assert forall i :: 0 <= i <= n ==> e[i] == e[..n + 1][i] == b[i];
    }
    hide High, Low, Push;
  }

  // ----- Whole strings ----------------------------------------------------------------

  function Encode(s: string): (b: seq<byte>)
    ensures |s| <= |b| <= 4 * |s|
  {
    if s == [] then [] else EncodeChar(s[0]) + Encode(s[1..])
  }

  lemma {:induction false} EncodeAppend(a: string, b: string)
    ensures Encode(a + b) == Encode(a) + Encode(b)
  {
    if a == [] {
      assert a + b == b;
    } else {
      assert (a + b)[1..] == a[1..] + b;
      EncodeAppend(a[1..], b);
    }
  }

  /** `String::from_utf8`: nothing unless every piece is a character. */
  function Decode(b: seq<byte>): Option<string>
    decreases |b|
  {
    if b == [] then Some([])
    else
      var p := Front(b);
      if p.Bad? then None
      else match Decode(b[p.size..]) case None => None case Some(s) => Some([p.c] + s)
  }

  const REPLACEMENT: char := '\U{FFFD}'

  /** `String::from_utf8_lossy`: a replacement character for each stretch that began
      like a character and did not become one. */
  function Lossy(b: seq<byte>): string
    decreases |b|
  {
    if b == [] then []
    else
      var p := Front(b);
      [if p.Bad? then REPLACEMENT else p.c] + Lossy(b[p.size..])
  }

  /** Bytes decode to a string exactly when they are its encoding. */
  lemma {:induction false} DecodeIff(b: seq<byte>, s: string)
    ensures Decode(b) == Some(s) <==> b == Encode(s)
    decreases |b| + |s|
  {
    hide EncodeChar, Front;
    if b != [] && Front(b).Char? {
      var p := Front(b);
      FrontEncodes(b);
      assert b == b[..p.size] + b[p.size..];
      if s != [] {
        DecodeIff(b[p.size..], s[1..]);
        if b == Encode(s) {
          FrontOfEncoded(s[0], Encode(s[1..]));
          assert (EncodeChar(s[0]) + Encode(s[1..]))[|EncodeChar(s[0])|..] == Encode(s[1..]);
        }
        assert s == [s[0]] + s[1..];
      }
    } else if s != [] {
      FrontOfEncoded(s[0], Encode(s[1..]));
    }
  }

  /** Nothing is lost of what is text. */
  lemma {:induction false} LossyDecodes(b: seq<byte>)
    ensures Decode(b).Some? ==> Lossy(b) == Decode(b).value
    decreases |b|
  {
    hide EncodeChar, Front;
    if b != [] && Front(b).Char? {
      LossyDecodes(b[Front(b).size..]);
    }
  }

  lemma LossyOfEncoded(s: string)
    ensures Lossy(Encode(s)) == s
  {
    DecodeIff(Encode(s), s);
    LossyDecodes(Encode(s));
  }
}
