/** The streaming CRC-32 of crc32.js: the reflected, table-driven CRC with
    generator 0xEDB88320 (the Frame Check Sequence of IEEE 802.3 clause
    3.2.9, also ISO/IEC 3309 and ITU-T V.42). The state is a 32-bit word;
    every `>>> 0` of the source is the wrap-around of `bv32`. */
module Crc {

  /** The generator polynomial, bit-reflected. */
  const POLY: bv32 := 0xEDB8_8320

  /** The running state after construction and after `reset`. */
  const INIT: bv32 := 0xFFFF_FFFF

  /** One shift/xor round of bit-serial polynomial division. */
  function Round(c: bv32): bv32 {
    if c & 1 == 1 then (c >> 1) ^ POLY else c >> 1
  }

  /** `n` rounds. */
  function Rounds(c: bv32, n: nat): bv32 {
    if n == 0 then c else Round(Rounds(c, n - 1))
  }

  /** Entry `i` of `CRC32.TABLE`: the index after eight rounds. */
  function TableEntry(i: bv8): bv32 {
    Rounds(i as bv32, 8)
  }

  /** One pass of the loop in `read`: byte `b` folded into state `c`
      through the table. */
  function Step(c: bv32, b: bv8): bv32 {
    TableEntry(((c & 0xFF) as bv8) ^ b) ^ (c >> 8)
  }

  /** The state after folding every byte of `s`, first to last, into `c`. */
  function Update(c: bv32, s: seq<bv8>): bv32
    decreases |s|
  {
    if s == [] then c else Update(Step(c, s[0]), s[1..])
  }

  /** The finished CRC-32 of `s`: the complement of the state after
      folding `s` into the initial state. */
  function Checksum(s: seq<bv8>): bv32 {
    !Update(INIT, s)
  }

  // ---------------------------------------------------------------------
  // Streaming composition.

  /** Folding `a` and then `b` is folding `a + b`: reads of adjacent
      ranges compose into one read of their union. */
  lemma {:induction false} UpdateAppend(c: bv32, a: seq<bv8>, b: seq<bv8>)
    ensures Update(c, a + b) == Update(Update(c, a), b)
    decreases |a|
  {
    if a == [] {
      assert a + b == b;
    } else {
      assert (a + b)[1..] == a[1..] + b;
      UpdateAppend(Step(c, a[0]), a[1..], b);
    }
  }

  /** Folding one more byte is one more step. */
  lemma UpdateSnoc(c: bv32, s: seq<bv8>, b: bv8)
    ensures Update(c, s + [b]) == Step(Update(c, s), b)
  {
    UpdateAppend(c, s, [b]);
  }

  // ---------------------------------------------------------------------
  // Known answers of the standard CRC-32.

  /** A table entry can be read off a trace of its eight rounds. */
  lemma EntryByTrace(i: bv8, t: seq<bv32>)
    requires |t| == 8 && t[0] == Round(i as bv32)
    requires forall k :: 0 < k < 8 ==> t[k] == Round(t[k - 1])
    ensures TableEntry(i) == t[7]
  {
    var c := i as bv32;
    assert Rounds(c, 1) == t[0];
    assert Rounds(c, 2) == t[1];
    assert Rounds(c, 3) == t[2];
    assert Rounds(c, 4) == t[3];
    assert Rounds(c, 5) == t[4];
    assert Rounds(c, 6) == t[5];
    assert Rounds(c, 7) == t[6];
  }

  /** Entries 1, 128 and 255 of the table are those of the IEEE 802.3
      CRC-32 table. */
  lemma StandardTableEntries()
    ensures TableEntry(0x01) == 0x7707_3096
    ensures TableEntry(0x80) == 0xEDB8_8320
    ensures TableEntry(0xFF) == 0x2D02_EF8D
  {
    EntryByTrace(0x01, [0xEDB88320, 0x76DC4190, 0x3B6E20C8, 0x1DB71064, 0x0EDB8832, 0x076DC419, 0xEE0E612C, 0x77073096]);
    EntryByTrace(0x80, [0x00000040, 0x00000020, 0x00000010, 0x00000008, 0x00000004, 0x00000002, 0x00000001, 0xEDB88320]);
    EntryByTrace(0xFF, [0xEDB8835F, 0x9B64C28F, 0xA00AE267, 0xBDBDF213, 0xB3667A29, 0xB40BBE34, 0x5A05DF1A, 0x2D02EF8D]);
  }

  /** The ASCII digits "123456789". */
  const CHECK_STRING: seq<bv8> := [0x31, 0x32, 0x33, 0x34, 0x35, 0x36, 0x37, 0x38, 0x39]

  /** The running state after each prefix of `CHECK_STRING`. */
  const CHECK_STATES: seq<bv32> := [0xFFFFFFFF, 0x7C231048, 0xB0ACBB32, 0x77B79C2D, 0x641C1F5C, 0x340AC5E3, 0xF68D2C9E, 0xAFFC9660, 0x651F2550, 0x340BC6D9]

  /** Digits 123 of the check string, folded one table lookup at a time. */
  lemma CheckDigits123()
    ensures Update(CHECK_STATES[0], CHECK_STRING[0..3]) == CHECK_STATES[3]
  {
    EntryByTrace(0xCE, [0x00000067, 0xEDB88313, 0x9B64C2A9, 0xA00AE274, 0x5005713A, 0x2802B89D, 0xF9B9DF6E, 0x7CDCEFB7]);
    EntryByTrace(0x7A, [0x0000003D, 0xEDB8833E, 0x76DC419F, 0xD6D6A3EF, 0x86D3D2D7, 0xAED16A4B, 0xBAD03605, 0xB0D09822]);
    EntryByTrace(0x01, [0xEDB88320, 0x76DC4190, 0x3B6E20C8, 0x1DB71064, 0x0EDB8832, 0x076DC419, 0xEE0E612C, 0x77073096]);
    assert CHECK_STATES[0] == 0xFFFFFFFF && CHECK_STATES[3] == 0x77B79C2D;
    assert Update(0xB0ACBB32, [0x33]) == 0x77B79C2D;
    assert Update(0x7C231048, [0x32, 0x33]) == 0x77B79C2D;
    assert CHECK_STRING[0..3] == [0x31, 0x32, 0x33];
    assert [0x31, 0x32, 0x33][1..] == [0x32, 0x33];
    assert [0x32, 0x33][1..] == [0x33];
  }

  /** Digits 456 of the check string, folded one table lookup at a time. */
  lemma CheckDigits456()
    ensures Update(CHECK_STATES[3], CHECK_STRING[3..6]) == CHECK_STATES[6]
  {
    EntryByTrace(0x19, [0xEDB8832C, 0x76DC4196, 0x3B6E20CB, 0xF00F9345, 0x95BF4A82, 0x4ADFA541, 0xC8D75180, 0x646BA8C0]);
    EntryByTrace(0x69, [0xEDB88314, 0x76DC418A, 0x3B6E20C5, 0xF00F9342, 0x7807C9A1, 0xD1BB67F0, 0x68DDB3F8, 0x346ED9FC]);
    EntryByTrace(0xD5, [0xEDB8834A, 0x76DC41A5, 0xD6D6A3F2, 0x6B6B51F9, 0xD80D2BDC, 0x6C0695EE, 0x36034AF7, 0xF6B9265B]);
    assert CHECK_STATES[3] == 0x77B79C2D && CHECK_STATES[6] == 0xF68D2C9E;
    assert Update(0x340AC5E3, [0x36]) == 0xF68D2C9E;
    assert Update(0x641C1F5C, [0x35, 0x36]) == 0xF68D2C9E;
    assert CHECK_STRING[3..6] == [0x34, 0x35, 0x36];
    assert [0x34, 0x35, 0x36][1..] == [0x35, 0x36];
    assert [0x35, 0x36][1..] == [0x36];
  }

  /** Digits 789 of the check string, folded one table lookup at a time. */
  lemma CheckDigits789()
    ensures Update(CHECK_STATES[6], CHECK_STRING[6..9]) == CHECK_STATES[9]
  {
    EntryByTrace(0xA9, [0xEDB88374, 0x76DC41BA, 0x3B6E20DD, 0xF00F934E, 0x7807C9A7, 0xD1BB67F3, 0x856530D9, 0xAF0A1B4C]);
    EntryByTrace(0x58, [0x0000002C, 0x00000016, 0x0000000B, 0xEDB88325, 0x9B64C2B2, 0x4DB26159, 0xCB61B38C, 0x65B0D9C6]);
    EntryByTrace(0x69, [0xEDB88314, 0x76DC418A, 0x3B6E20C5, 0xF00F9342, 0x7807C9A1, 0xD1BB67F0, 0x68DDB3F8, 0x346ED9FC]);
    assert CHECK_STATES[6] == 0xF68D2C9E && CHECK_STATES[9] == 0x340BC6D9;
    assert Update(0x651F2550, [0x39]) == 0x340BC6D9;
    assert Update(0xAFFC9660, [0x38, 0x39]) == 0x340BC6D9;
    assert CHECK_STRING[6..9] == [0x37, 0x38, 0x39];
    assert [0x37, 0x38, 0x39][1..] == [0x38, 0x39];
    assert [0x38, 0x39][1..] == [0x39];
  }

  /** The check value of the CRC-32 of IEEE 802.3 (ISO/IEC 3309, ITU-T
      V.42): the checksum of the ASCII digits "123456789" is 0xCBF43926. */
  lemma CheckValue()
    ensures Checksum(CHECK_STRING) == 0xCBF4_3926
  {
    CheckDigits123();
    CheckDigits456();
    CheckDigits789();
    assert CHECK_STRING == CHECK_STRING[0..3] + CHECK_STRING[3..6] + CHECK_STRING[6..9];
    UpdateAppend(INIT, CHECK_STRING[0..3], CHECK_STRING[3..6]);
    UpdateAppend(INIT, CHECK_STRING[0..3] + CHECK_STRING[3..6], CHECK_STRING[6..9]);
  }

  // ---------------------------------------------------------------------
  // The table, as crc32.js builds it at load time.

  /** The nested loops that fill `CRC32.TABLE`: 256 entries, each its
      index after eight rounds. */
  method BuildTable() returns (table: seq<bv32>)
    ensures |table| == 256
    ensures forall i :: 0 <= i < 256 ==> table[i] == TableEntry(i as bv8)
  {
    table := [];
    for i := 0 to 256
      invariant |table| == i
      invariant forall k :: 0 <= k < i ==> table[k] == TableEntry(k as bv8)
    {
      var crc: bv32 := i as bv32;
      for j := 0 to 8
        invariant crc == Rounds(i as bv32, j)
      {
        crc := if crc & 1 == 1 then (crc >> 1) ^ POLY else crc >> 1;
      }
      assert (i as bv8) as bv32 == i as bv32;
      table := table + [crc];
    }
  }

  // ---------------------------------------------------------------------
  // The `CRC32` object.

  class Crc32 {
    /** The running state. */
    var crc: bv32
    /** The finished value as of the last `read`. */
    var result: bv32

    constructor ()
      ensures crc == INIT && result == 0
      ensures Folded(this, [])
    {
      crc := INIT;
      result := 0;
    }

    /** `reset`: back to the initial state; `result` keeps its value. */
    method Reset()
      modifies this`crc
      ensures crc == INIT && result == old(result)
    {
      crc := INIT;
    }

    /** `read(arr, offs, length)`: fold `length` bytes starting at `offs`
        into the state, then finish it into `result`. */
    method Read(arr: seq<bv8>, offs: nat, length: nat)
      requires offs + length <= |arr|
      modifies this
      ensures crc == Update(old(crc), arr[offs..offs + length])
      ensures result == !crc
    {
      for i := 0 to length
        invariant crc == Update(old(crc), arr[offs..offs + i])
      {
        assert arr[offs..offs + i + 1] == arr[offs..offs + i] + [arr[offs + i]];
        UpdateSnoc(old(crc), arr[offs..offs + i], arr[offs + i]);
        crc := Step(crc, arr[offs + i]);
      }
      result := !crc;
    }
  }

  /** `crc` has read exactly `s` since it was made, and its `result` is
      the finished checksum of `s`. */
  ghost predicate Folded(crc: Crc32, s: seq<bv8>)
    reads crc
  {
    crc.crc == Update(INIT, s) && crc.result == !crc.crc
  }

  /** The `result` of an object that has read `s` is the checksum of `s`. */
  lemma FoldedResult(crc: Crc32, s: seq<bv8>)
    requires Folded(crc, s)
    ensures crc.result == Checksum(s)
  {
  }

  /** `crc32(arr, offs, size)`: a fresh object, one read, its result. */
  method Crc32Of(arr: seq<bv8>, offs: nat, size: nat) returns (r: bv32)
    requires offs + size <= |arr|
    ensures r == Checksum(arr[offs..offs + size])
  {
    var crc := new Crc32();
    crc.Read(arr, offs, size);
    r := crc.result;
  }
}
