/** Exceptions that the JavaScript runtime raises in the modelled code,
    and the outcome of an operation that may raise one. */
module Outcomes {
  datatype Fault =
    | TypeError       // a property read on `undefined`
    | ReferenceError  // an unbound identifier
    | RangeError      // a DataView access past the end of the buffer

  datatype Outcome<+T> = Ok(value: T) | Throws(fault: Fault)

  datatype Option<+T> = None | Some(value: T)
}

/** Big-endian reads over a byte buffer, as done by a JavaScript DataView
    with its default byte order. */
module DataView {
  /** `getUint32(o)`: the four bytes at `o`, most significant first. */
  function Uint32(s: seq<bv8>, o: nat): (w: bv32)
    requires o + 4 <= |s|
    ensures w >> 24 == s[o] as bv32 && w & 0xFF == s[o + 3] as bv32
  {
    (s[o] as bv32 << 24) | (s[o + 1] as bv32 << 16) | (s[o + 2] as bv32 << 8) | s[o + 3] as bv32
  }

  /** Four bytes are determined by the word they read as. */
  lemma Uint32Injective(a: seq<bv8>, b: seq<bv8>)
    requires |a| == 4 && |b| == 4 && Uint32(a, 0) == Uint32(b, 0)
    ensures a == b
  {
    Uint32Middle(a);
    Uint32Middle(b);
    assert a[0] as bv32 == b[0] as bv32 && a[1] as bv32 == b[1] as bv32;
    assert a[2] as bv32 == b[2] as bv32 && a[3] as bv32 == b[3] as bv32;
  }

  /** The two middle bytes of a word, recovered by shifting and masking. */
  lemma Uint32Middle(a: seq<bv8>)
    requires |a| == 4
    ensures (Uint32(a, 0) >> 16) & 0xFF == a[1] as bv32
    ensures (Uint32(a, 0) >> 8) & 0xFF == a[2] as bv32
  {
  }

  /** `getUint32(o, true)`: the four bytes at `o`, least significant first. */
  function Uint32LE(s: seq<bv8>, o: nat): (w: bv32)
    requires o + 4 <= |s|
    ensures w >> 24 == s[o + 3] as bv32 && w & 0xFF == s[o] as bv32
  {
    (s[o + 3] as bv32 << 24) | (s[o + 2] as bv32 << 16) | (s[o + 1] as bv32 << 8) | s[o] as bv32
  }

  /** `getUint16(o)`. */
  function Uint16(s: seq<bv8>, o: nat): (h: int)
    requires o + 2 <= |s|
    ensures 0 <= h < 0x10000
  {
    (s[o] as int) * 0x100 + s[o + 1] as int
  }

  /** `getUint16(o, true)`: the two bytes at `o`, least significant first. */
  function Uint16LE(s: seq<bv8>, o: nat): (h: int)
    requires o + 2 <= |s|
    ensures 0 <= h < 0x10000
  {
    (s[o + 1] as int) * 0x100 + s[o] as int
  }

  /** `getInt16(o)`: the same halfword read as two's complement. */
  function Int16(s: seq<bv8>, o: nat): (h: int)
    requires o + 2 <= |s|
    ensures -0x8000 <= h < 0x8000
    ensures h < 0 <==> s[o] >= 0x80
    ensures h % 0x10000 == Uint16(s, o)
  {
    var u := Uint16(s, o);
    if u >= 0x8000 then u - 0x10000 else u
  }
}
