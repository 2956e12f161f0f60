/** Vocabulary shared by every module: optional values, machine-sized integers
    and the result of reading a value off the front of a byte string. */
module Base {
  datatype Option<+T> = None | Some(value: T)

  type byte = b: int | 0 <= b < 0x100
  type u16 = x: int | 0 <= x < 0x1_0000
  type u32 = x: int | 0 <= x < 0x1_0000_0000
  type i32 = x: int | -0x8000_0000 <= x < 0x8000_0000

  /** The two's-complement bit pattern of a signed integer (`as u32`). */
  function Bits(v: i32): (u: u32)
  {
    if v < 0 then v + 0x1_0000_0000 else v
  }

  /** The signed reading of a bit pattern (`as i32`). */
  function Signed(u: u32): (v: i32)
    ensures Bits(v) == u
  {
    if u < 0x8000_0000 then u else u - 0x1_0000_0000
  }

  /** A value read off the front of a byte string, with what is left of it. */
  datatype Parsed<+T> = Parsed(value: T, rest: seq<byte>) | Malformed {
    predicate IsFailure() {
      Malformed?
    }

    function PropagateFailure<U>(): Parsed<U>
      requires Malformed?
    {
      Malformed
    }

    function Extract(): (T, seq<byte>)
      requires Parsed?
    {
      (value, rest)
    }
  }
}
