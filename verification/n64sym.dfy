/** The coordinator of a scan (n64sym.js): byte-order normalisation of the
    ROM image, entry-point and boot-code resolution, candidate function
    offsets, the split of the signature list among workers, and the handling
    of the messages the workers post back. */
module Coordinator {
  import opened Outcomes
  import opened DataView
  import Crc
  import opened Matcher

  // ---------------------------------------------------------------------
  // Byte order.

  /** The first word of an image in each of the three byte orders. */
  const NATIVE: bv32 := 0x8037_1240        // big-endian (.z64)
  const WORD_SWAPPED: bv32 := 0x4012_3780  // every word reversed (.n64)
  const HALF_SWAPPED: bv32 := 0x3780_4012  // every halfword reversed (.v64)

  /** Every complete word byte-reversed; a trailing partial word untouched. */
  function SwapWords(s: seq<bv8>): (t: seq<bv8>)
    ensures |t| == |s|
  {
    seq(|s|, k requires 0 <= k < |s| => if k < |s| - |s| % 4 then s[k - k % 4 + (3 - k % 4)] else s[k])
  }

  /** Every complete halfword byte-reversed; a trailing odd byte untouched. */
  function SwapHalves(s: seq<bv8>): (t: seq<bv8>)
    ensures |t| == |s|
  {
    seq(|s|, k requires 0 <= k < |s| => if k < |s| - |s| % 2 then s[k - k % 2 + (1 - k % 2)] else s[k])
  }

  /** Writing `getUint32(o, true)` back with `setUint32(o, _)` is what
      `SwapWords` does to the word at `o`. */
  lemma SwapWordsReadsLE(s: seq<bv8>, o: nat)
    requires o % 4 == 0 && o + 4 <= |s|
    ensures Uint32(SwapWords(s), o) == Uint32LE(s, o)
  {
    SwapWordsAt(s, o);
    hide SwapWords;
    var t := SwapWords(s);
    assert t[o] == s[o + 3] && t[o + 1] == s[o + 2] && t[o + 2] == s[o + 1] && t[o + 3] == s[o];
  }

  /** The four bytes of the complete word at `o`, reversed. */
  lemma SwapWordsAt(s: seq<bv8>, o: nat)
    requires o % 4 == 0 && o + 4 <= |s|
    ensures SwapWords(s)[o] == s[o + 3] && SwapWords(s)[o + 1] == s[o + 2]
    ensures SwapWords(s)[o + 2] == s[o + 1] && SwapWords(s)[o + 3] == s[o]
  {
    assert o + 4 <= |s| - |s| % 4;
    assert (o + 1) % 4 == 1 && (o + 2) % 4 == 2 && (o + 3) % 4 == 3;
  }

  /** Writing `getUint16(o, true)` back with `setUint16(o, _)` is what
      `SwapHalves` does to the halfword at `o`. */
  lemma SwapHalvesReadsLE(s: seq<bv8>, o: nat)
    requires o % 2 == 0 && o + 2 <= |s|
    ensures Uint16(SwapHalves(s), o) == Uint16LE(s, o)
  {
    var t := SwapHalves(s);
    assert t[o] == s[o + 1] && t[o + 1] == s[o];
  }

  /** Swapping twice restores the image. */
  lemma SwapWordsInvolution(s: seq<bv8>)
    ensures SwapWords(SwapWords(s)) == s
  {
    var t := SwapWords(s);
    forall k | 0 <= k < |s| ensures SwapWords(t)[k] == s[k] {
      if k < |s| - |s| % 4 {
        var j := k - k % 4 + (3 - k % 4);
        MirrorInWord(k, |s|);
        assert SwapWords(t)[k] == t[j];
        assert t[j] == s[k];
      }
    }
  }

  /** The byte a word swap moves to position `k` of a complete word lies in
      the same word, and is moved back to `k` by a second swap. */
  lemma MirrorInWord(k: nat, len: nat)
    requires k < len - len % 4
    ensures var j := k - k % 4 + (3 - k % 4);
      j < len - len % 4 && j - j % 4 + (3 - j % 4) == k
  {
    var q, r := k / 4, k % 4;
    assert k == 4 * q + r;
    var j := 4 * q + (3 - r);
    assert j / 4 == q && j % 4 == 3 - r;
    assert len - len % 4 == 4 * (len / 4);
  }

  lemma SwapHalvesInvolution(s: seq<bv8>)
    ensures SwapHalves(SwapHalves(s)) == s
  {
    var t := SwapHalves(s);
    forall k | 0 <= k < |s| ensures SwapHalves(t)[k] == s[k] {
      if k < |s| - |s| % 2 {
        var j := k - k % 2 + (1 - k % 2);
        MirrorInHalf(k, |s|);
        assert SwapHalves(t)[k] == t[j];
        assert t[j] == s[k];
      }
    }
  }

  /** The halfword analogue of `MirrorInWord`. */
  lemma MirrorInHalf(k: nat, len: nat)
    requires k < len - len % 2
    ensures var j := k - k % 2 + (1 - k % 2);
      j < len - len % 2 && j - j % 2 + (1 - j % 2) == k
  {
    var q, r := k / 2, k % 2;
    assert k == 2 * q + r;
    var j := 2 * q + (1 - r);
    assert j / 2 == q && j % 2 == 1 - r;
    assert len - len % 2 == 2 * (len / 2);
  }

  /** What `romEndianCheck` leaves behind: the buffer, whether it sets
      `bRom`, and what it throws, if anything. */
  datatype Normalised = Normalised(bytes: seq<bv8>, rom: bool, fault: Option<Fault>)

  /** `romEndianCheck` with the halfword branch reading the object's own
      view, as evidently intended. `getUint32(0)` throws on a buffer shorter
      than a word; a swap loop throws on a trailing partial unit after
      swapping every complete one, so `bRom` stays as it was. */
  function EndianCheck(s: seq<bv8>): Normalised {
    if |s| < 4 then Normalised(s, false, Some(RangeError))
    else if Uint32(s, 0) == NATIVE then Normalised(s, true, None)
    else if Uint32(s, 0) == WORD_SWAPPED then
      Normalised(SwapWords(s), |s| % 4 == 0, if |s| % 4 == 0 then None else Some(RangeError))
    else if Uint32(s, 0) == HALF_SWAPPED then
      Normalised(SwapHalves(s), |s| % 2 == 0, if |s| % 2 == 0 then None else Some(RangeError))
    else Normalised(s, false, None)
  }

  /** `romEndianCheck` as written: the halfword branch names `dvBinary`
      without `this.`, an unbound identifier, and throws before touching
      the buffer. */
  function EndianCheckAsWritten(s: seq<bv8>): Normalised {
    if |s| >= 4 && Uint32(s, 0) == HALF_SWAPPED then Normalised(s, false, Some(ReferenceError))
    else EndianCheck(s)
  }

  /** A byte-swapped image: as written the check throws a ReferenceError;
      corrected, it comes out in native order. */
  lemma HalfSwappedCounterexample()
    ensures EndianCheckAsWritten([0x37, 0x80, 0x40, 0x12]) == Normalised([0x37, 0x80, 0x40, 0x12], false, Some(ReferenceError))
    ensures EndianCheck([0x37, 0x80, 0x40, 0x12]) == Normalised([0x80, 0x37, 0x12, 0x40], true, None)
  {
    var s: seq<bv8> := [0x37, 0x80, 0x40, 0x12];
    assert Uint32(s, 0) == HALF_SWAPPED;
    assert SwapHalves(s) == [0x80, 0x37, 0x12, 0x40];
  }

  /** An image recognised as a ROM starts with the native magic word
      afterwards; one that is not recognised and does not throw is left
      as it was; a second check of a recognised image changes nothing. */
  lemma EndianCheckNormalises(s: seq<bv8>)
    ensures |EndianCheck(s).bytes| == |s|
    ensures EndianCheck(s).rom ==> EndianCheck(s).fault.None? && Uint32(EndianCheck(s).bytes, 0) == NATIVE
    ensures EndianCheck(s).rom <==>
      |s| >= 4 && (Uint32(s, 0) == NATIVE || (Uint32(s, 0) == WORD_SWAPPED && |s| % 4 == 0)
                   || (Uint32(s, 0) == HALF_SWAPPED && |s| % 2 == 0))
    ensures !EndianCheck(s).rom && EndianCheck(s).fault.None? ==> EndianCheck(s).bytes == s
    ensures EndianCheck(s).rom ==> EndianCheck(EndianCheck(s).bytes) == Normalised(EndianCheck(s).bytes, true, None)
  {
    if |s| >= 4 && Uint32(s, 0) == WORD_SWAPPED && |s| % 4 == 0 {
      SwapWordsReadsLE(s, 0);
      Uint32Middle(s[0..4]);
      assert Uint32(s[0..4], 0) == Uint32(s, 0);
    } else if |s| >= 4 && Uint32(s, 0) == HALF_SWAPPED && |s| % 2 == 0 {
      var t := SwapHalves(s);
      Uint32Middle(s[0..4]);
      assert Uint32(s[0..4], 0) == Uint32(s, 0);
      assert t[0] == s[1] && t[1] == s[0] && t[2] == s[3] && t[3] == s[2];
    }
  }

  /** Bytes past the last complete word stay where they are. */
  lemma SwapWordsTail(s: seq<bv8>, i: nat)
    requires i % 4 == 0 && i <= |s| < i + 4
    ensures i == |s| - |s| % 4
    ensures forall k :: i <= k < |s| ==> SwapWords(s)[k] == s[k]
  {
  }

  /** The word-swapping loop (n64sym.js:75-77): every complete word
      reversed in place, in order; on a trailing partial word `getUint32`
      throws after all complete words are swapped. */
  method SwapWordsInPlace(a: array<bv8>) returns (fault: Option<Fault>)
    modifies a
    ensures a[..] == SwapWords(old(a[..]))
    ensures fault == if a.Length % 4 == 0 then None else Some(RangeError)
  {
    ghost var s := a[..];
    hide SwapWords;
    var i := 0;
    while i < a.Length && a.Length - i >= 4
      invariant i <= a.Length && i % 4 == 0
      invariant forall k :: 0 <= k < i ==> a[k] == SwapWords(s)[k]
      invariant forall k :: i <= k < a.Length ==> a[k] == s[k]
    {
      ReverseWordAt(a, i, s);
      i := i + 4;
    }
    SwapWordsTail(s, i);
    assert a[..] == SwapWords(s);
    // the loop test `i < byteLength` still holds on a trailing partial word,
    // whose `getUint32` throws
    fault := if i < a.Length then Some(RangeError) else None;
  }

  /** `setUint32(i, getUint32(i, true))`: the four bytes at `i` reversed,
      so the swapped prefix of the buffer grows by one word. */
  method ReverseWordAt(a: array<bv8>, i: nat, ghost s: seq<bv8>)
    requires i % 4 == 0 && i + 4 <= a.Length == |s|
    requires forall k :: 0 <= k < i ==> a[k] == SwapWords(s)[k]
    requires forall k :: i <= k < a.Length ==> a[k] == s[k]
    modifies a
    ensures forall k :: 0 <= k < i + 4 ==> a[k] == SwapWords(s)[k]
    ensures forall k :: i + 4 <= k < a.Length ==> a[k] == s[k]
  {
    SwapWordsAt(s, i);
    hide SwapWords;
    a[i], a[i + 1], a[i + 2], a[i + 3] := a[i + 3], a[i + 2], a[i + 1], a[i];
    forall k | i <= k < i + 4 ensures a[k] == SwapWords(s)[k] {
      assert k == i || k == i + 1 || k == i + 2 || k == i + 3;
    }
  }

  /** The two bytes of the complete halfword at `o`, swapped. */
  lemma SwapHalvesAt(s: seq<bv8>, o: nat)
    requires o % 2 == 0 && o + 2 <= |s|
    ensures SwapHalves(s)[o] == s[o + 1] && SwapHalves(s)[o + 1] == s[o]
  {
    assert o + 2 <= |s| - |s| % 2;
    assert (o + 1) % 2 == 1;
  }

  /** A trailing odd byte stays where it is. */
  lemma SwapHalvesTail(s: seq<bv8>, i: nat)
    requires i % 2 == 0 && i < |s| < i + 2
    ensures |s| % 2 == 1 && SwapHalves(s)[i] == s[i]
  {
  }

  /** The halfword-swapping loop (n64sym.js:81-83), likewise; an odd
      trailing byte makes `getUint16` throw. */
  method SwapHalvesInPlace(a: array<bv8>) returns (fault: Option<Fault>)
    modifies a
    ensures a[..] == SwapHalves(old(a[..]))
    ensures fault == if a.Length % 2 == 0 then None else Some(RangeError)
  {
    ghost var s := a[..];
    hide SwapHalves;
    var i := 0;
    while i < a.Length
      invariant i <= a.Length && i % 2 == 0
      invariant forall k :: 0 <= k < i ==> a[k] == SwapHalves(s)[k]
      invariant forall k :: i <= k < a.Length ==> a[k] == s[k]
    {
      if a.Length - i < 2 {
        SwapHalvesTail(s, i);
        assert a[..] == SwapHalves(s);
        return Some(RangeError);
      }
      ReverseHalfAt(a, i, s);
      i := i + 2;
    }
    assert a[..] == SwapHalves(s);
    return None;
  }

  /** `setUint16(i, getUint16(i, true))`: the two bytes at `i` swapped, so
      the swapped prefix of the buffer grows by one halfword. */
  method ReverseHalfAt(a: array<bv8>, i: nat, ghost s: seq<bv8>)
    requires i % 2 == 0 && i + 2 <= a.Length == |s|
    requires forall k :: 0 <= k < i ==> a[k] == SwapHalves(s)[k]
    requires forall k :: i <= k < a.Length ==> a[k] == s[k]
    modifies a
    ensures forall k :: 0 <= k < i + 2 ==> a[k] == SwapHalves(s)[k]
    ensures forall k :: i + 2 <= k < a.Length ==> a[k] == s[k]
  {
    SwapHalvesAt(s, i);
    hide SwapHalves;
    a[i], a[i + 1] := a[i + 1], a[i];
  }

  // ---------------------------------------------------------------------
  // Boot code.

  /** A CIC boot chip: the checksum of the IPL3 boot code it expects, its
      number, and how far it moves the entry point. */
  datatype BootChip = BootChip(check: bv32, code: int, shift: int)

  const CHIPS: seq<BootChip> := [
    BootChip(0x6170_A4A1, 6101, 0),
    BootChip(0x90BB_6CB5, 6102, 0),
    BootChip(0x0B05_0EE0, 6103, 0x10_0000),
    BootChip(0x98BC_2C86, 6105, 0),
    BootChip(0xACC8_580A, 6106, 0x20_0000)
  ]

  /** The boot code spans bytes 0x40 to 0x1000 of the image. */
  const BOOT_START: nat := 0x40
  const BOOT_SIZE: nat := 0xFC0

  /** What `locateEntryPoint` records for a ROM `bytes`: the checksum of
      its boot code, the number of the chip expecting that checksum (0
      for none), and the entry point read from the header, moved by that
      chip. */
  predicate BootResolved(bytes: seq<bv8>, bootcheck: bv32, bootcode: int, entryPoint: int)
    requires |bytes| >= BOOT_START + BOOT_SIZE
  {
    bootcheck == Crc.Checksum(bytes[BOOT_START..BOOT_START + BOOT_SIZE])
    && (bootcode != 0 <==> exists k :: 0 <= k < |CHIPS| && CHIPS[k].check == bootcheck)
    && (forall k :: 0 <= k < |CHIPS| && CHIPS[k].check == bootcheck ==>
          bootcode == CHIPS[k].code && entryPoint == Uint32(bytes, 8) as int - 0x1000 - CHIPS[k].shift)
    && (bootcode == 0 ==> entryPoint == Uint32(bytes, 8) as int - 0x1000)
  }

  // ---------------------------------------------------------------------
  // Candidate function offsets.

  const JR_RA: bv32 := 0x03E0_0008  // jr ra

  /** An `addiu sp, sp, -n` at the word-aligned `o`. */
  predicate Prologue(s: seq<bv8>, o: nat) {
    o % 4 == 0 && o + 4 <= |s| && Uint32(s, o) & 0xFFFF_0000 == 0x27BD_0000 && Int16(s, o + 2) < 0
  }

  /** A `jr ra` at the word-aligned `o`. */
  predicate Return(s: seq<bv8>, o: nat) {
    o % 4 == 0 && o + 4 <= |s| && Uint32(s, o) == JR_RA
  }

  /** The words at `p`, `p + 4`, ... below `x` that lie in the buffer are
      all zero. */
  predicate ZeroWords(s: seq<bv8>, p: nat, x: nat) {
    forall q :: p <= q < x && (q - p) % 4 == 0 && q + 4 <= |s| ==> Uint32(s, q) == 0
  }

  /** `x` is the first non-zero word at 8 or more bytes after the `jr ra`
      at `o`: the likely start of the next function. */
  predicate AfterReturn(s: seq<bv8>, o: nat, x: nat) {
    Return(s, o) && o + 8 <= x && (x - o) % 4 == 0 && x + 4 <= |s| && Uint32(s, x) != 0
    && ZeroWords(s, o + 8, x)
  }

  /** A `jr ra` followed by nothing but zero words to the end: the
      lookahead runs off the buffer. */
  predicate Dangling(s: seq<bv8>, o: nat) {
    Return(s, o) && ZeroWords(s, o + 8, |s|)
  }

  /** An offset the collection keeps. */
  ghost predicate Likely(s: seq<bv8>, x: nat) {
    Prologue(s, x) || exists o: nat :: AfterReturn(s, o, x)
  }

  /** Both kinds of candidate are word-aligned. */
  lemma LikelyAligned(s: seq<bv8>, x: nat)
    requires Likely(s, x)
    ensures x % 4 == 0 && x + 4 <= |s|
  {
  }

  /** A `jr ra` has at most one next function. */
  lemma AfterReturnUnique(s: seq<bv8>, o: nat, x: nat, y: nat)
    requires AfterReturn(s, o, x) && AfterReturn(s, o, y)
    ensures x == y
  {
  }

  /** A `jr ra` either has a next function or runs off the buffer, never
      both. */
  lemma AfterReturnNotDangling(s: seq<bv8>, o: nat, x: nat)
    requires AfterReturn(s, o, x)
    ensures !Dangling(s, o)
  {
  }

  /** `offsets` holds exactly the candidates found by a scan of the words
      below `offset`: prologues there and the functions after the returns
      there (which may lie further on). */
  ghost predicate Collected(s: seq<bv8>, offset: nat, offsets: seq<nat>) {
    forall x: nat :: x in offsets <==> (Prologue(s, x) && x < offset) || exists o: nat :: o < offset && AfterReturn(s, o, x)
  }

  /** The only word-aligned offset in a word is its start. */
  lemma AlignedInWord(x: nat, offset: nat)
    requires x % 4 == 0 && offset % 4 == 0 && offset <= x < offset + 4
    ensures x == offset
  {
  }

  /** No element occurs twice. */
  predicate Distinct(xs: seq<nat>) {
    forall i, j :: 0 <= i < j < |xs| ==> xs[i] != xs[j]
  }

  /** `Set.prototype.add`: a new element goes to the end, a present one is
      ignored. */
  function SetAdd(xs: seq<nat>, x: nat): (ys: seq<nat>)
    requires Distinct(xs)
    ensures Distinct(ys) && forall y :: y in ys <==> y in xs || y == x
    ensures x in xs ==> ys == xs
    ensures x !in xs ==> ys == xs + [x]
  {
    if x in xs then xs else xs + [x]
  }

  // ---------------------------------------------------------------------
  // Results.

  /** A result as posted back: `{name, offset}` from a match, or
      `{name, address}` from a relocation. */
  datatype Entry = Located(name: string, offset: nat) | Addressed(name: string, address: int)

  /** `address || entryPoint + offset` is a number: an `Addressed` entry
      with address 0 falls through to `entryPoint + undefined`, NaN. */
  predicate Resolvable(e: Entry) {
    e.Addressed? ==> e.address != 0
  }

  /** The address a result stands for. */
  function Resolve(e: Entry, entryPoint: int): int {
    if e.Addressed? then e.address else entryPoint + e.offset
  }

  /** Every entry resolves, in strictly increasing order of address. */
  predicate Ordered(rs: seq<Entry>, entryPoint: int) {
    (forall i :: 0 <= i < |rs| ==> Resolvable(rs[i]))
    && forall i, j :: 0 <= i < j < |rs| ==> Resolve(rs[i], entryPoint) < Resolve(rs[j], entryPoint)
  }

  /** The addresses the results stand for. */
  function Addresses(rs: seq<Entry>, entryPoint: int): set<int> {
    set i | 0 <= i < |rs| :: Resolve(rs[i], entryPoint)
  }

  /** Two lists ordered by resolved address that hold the same entries are
      the same list: sorting after a push has only one possible outcome. */
  lemma {:induction false} OrderedUnique(a: seq<Entry>, b: seq<Entry>, entryPoint: int)
    requires Ordered(a, entryPoint) && Ordered(b, entryPoint) && multiset(a) == multiset(b)
    ensures a == b
    decreases |a|
  {
    hide Ordered, Resolve;
    if a != [] {
      OrderedHeads(a, b, entryPoint);
      assert a == [a[0]] + a[1..] && b == [b[0]] + b[1..];
      assert multiset(a) == multiset{a[0]} + multiset(a[1..]);
      assert multiset(b) == multiset{b[0]} + multiset(b[1..]);
      OrderedTail(a, entryPoint);
      OrderedTail(b, entryPoint);
      assert multiset(a[1..]) == multiset(a) - multiset{a[0]};
      assert multiset(b[1..]) == multiset(b) - multiset{b[0]};
      OrderedUnique(a[1..], b[1..], entryPoint);
    }
  }

  /** Two ordered lists with the same entries start with the same one:
      each head is the least of both lists. */
  lemma OrderedHeads(a: seq<Entry>, b: seq<Entry>, entryPoint: int)
    requires Ordered(a, entryPoint) && Ordered(b, entryPoint) && multiset(a) == multiset(b) && a != []
    ensures b != [] && a[0] == b[0]
  {
    assert a[0] in multiset(b);
    var i :| 0 <= i < |b| && b[i] == a[0];
    assert b[0] in multiset(a);
    var j :| 0 <= j < |a| && a[j] == b[0];
    assert Resolve(b[0], entryPoint) <= Resolve(b[i], entryPoint);
    assert Resolve(a[0], entryPoint) <= Resolve(a[j], entryPoint);
  }

  lemma OrderedTail(a: seq<Entry>, entryPoint: int)
    requires Ordered(a, entryPoint) && a != []
    ensures Ordered(a[1..], entryPoint)
  {
    assert forall i :: 0 <= i < |a| - 1 ==> a[1..][i] == a[i + 1];
  }

  /** The address a `result` or `reloc_result` message adds. */
  function MessageEntry(m: Message): Entry
    requires m.ResultMsg? || m.RelocResultMsg?
  {
    if m.ResultMsg? then Located(m.name, m.offset) else Addressed(m.name, m.address)
  }

  /** The addresses of the results in a sequence of messages. */
  function Posted(ms: seq<Message>, entryPoint: int): set<int> {
    set i | 0 <= i < |ms| && (ms[i].ResultMsg? || ms[i].RelocResultMsg?) :: Resolve(MessageEntry(ms[i]), entryPoint)
  }

  /** The entries of the results in a sequence of messages. */
  function PostedEntries(ms: seq<Message>): set<Entry> {
    set i | 0 <= i < |ms| && (ms[i].ResultMsg? || ms[i].RelocResultMsg?) :: MessageEntry(ms[i])
  }

  /** The entries a batch of messages adds, one more message at a time. */
  lemma PostedEntriesSnoc(ms: seq<Message>, m: Message)
    ensures PostedEntries(ms + [m]) ==
      PostedEntries(ms) + if m.ResultMsg? || m.RelocResultMsg? then {MessageEntry(m)} else {}
  {
    var ms' := ms + [m];
    assert forall i :: 0 <= i < |ms| ==> ms'[i] == ms[i];
    assert ms'[|ms|] == m;
  }

  /** `rs` keeps every entry of `rs0`, and every other entry it holds is
      one of `es`. */
  predicate DrawnFrom(rs: seq<Entry>, rs0: seq<Entry>, es: set<Entry>) {
    multiset(rs0) <= multiset(rs) && forall e :: e in rs ==> e in rs0 || e in es
  }

  /** A list that is unchanged or gains the entry `e` stays drawn from
      `rs0` and the entries seen so far. */
  lemma DrawnFromGrow(prev: seq<Entry>, rs: seq<Entry>, rs0: seq<Entry>, es: set<Entry>, e: Entry)
    requires DrawnFrom(prev, rs0, es)
    requires rs == prev || multiset(rs) == multiset(prev) + multiset{e}
    ensures DrawnFrom(rs, rs0, es + {e})
  {
    forall x | x in rs ensures x in rs0 || x in es + {e} {
      assert x in multiset(rs);
    }
  }

  /** Seeing more entries keeps a list drawn from them. */
  lemma DrawnFromWiden(rs: seq<Entry>, rs0: seq<Entry>, es: set<Entry>, es': set<Entry>)
    requires DrawnFrom(rs, rs0, es) && es <= es'
    ensures DrawnFrom(rs, rs0, es')
  {
  }

  /** The results `rs` and callback lists `ds` after some messages, from
      results `rs0` and lists `d0`, having seen the entries `es`: earlier
      lists untouched, and every list, the current one and each newly
      delivered, drawn from `rs0` and `es`, the delivered ones ordered. */
  predicate Kept(rs: seq<Entry>, ds: seq<seq<Entry>>, rs0: seq<Entry>, d0: seq<seq<Entry>>, es: set<Entry>, entryPoint: int) {
    DrawnFrom(rs, rs0, es)
    && |d0| <= |ds| && ds[..|d0|] == d0
    && forall j :: |d0| <= j < |ds| ==> Ordered(ds[j], entryPoint) && DrawnFrom(ds[j], rs0, es)
  }

  /** One handled message keeps `Kept`: the results are unchanged or gain
      a seen entry, and at most the current, ordered list is delivered. */
  lemma KeptStep(prev: seq<Entry>, rs: seq<Entry>, dprev: seq<seq<Entry>>, ds: seq<seq<Entry>>,
                 rs0: seq<Entry>, d0: seq<seq<Entry>>, es: set<Entry>, es': set<Entry>, e: Entry, entryPoint: int)
    requires Kept(prev, dprev, rs0, d0, es, entryPoint) && es <= es'
    requires rs == prev || (e in es' && multiset(rs) == multiset(prev) + multiset{e})
    requires Ordered(rs, entryPoint) && (ds == dprev || ds == dprev + [rs])
    ensures Kept(rs, ds, rs0, d0, es', entryPoint)
  {
    hide Ordered;
    if rs == prev {
      DrawnFromWiden(rs, rs0, es, es');
    } else {
      DrawnFromGrow(prev, rs, rs0, es, e);
      DrawnFromWiden(rs, rs0, es + {e}, es');
    }
    forall j | |d0| <= j < |ds|
      ensures Ordered(ds[j], entryPoint) && DrawnFrom(ds[j], rs0, es')
    {
      if j < |dprev| {
        assert ds[j] == dprev[j];
        DrawnFromWiden(dprev[j], rs0, es, es');
      } else {
        assert ds[j] == rs;
      }
    }
    assert ds[..|d0|] == dprev[..|d0|];
  }

  /** How many times the `done` handler finds the counter, starting at
      `active`, brought to zero while handling `ms`. */
  function Callbacks(active: int, ms: seq<Message>): nat
    decreases |ms|
  {
    if ms == [] then 0
    else
      var init := ms[..|ms| - 1];
      Callbacks(active, init) + if ms[|ms| - 1] == DoneMsg && active - multiset(ms)[DoneMsg] == 0 then 1 else 0
  }

  /** With `n` workers running, the callback runs once, on the `n`-th
      `done`, and never before. */
  lemma {:induction false} CallbackOnce(n: int, ms: seq<Message>)
    requires n > 0
    ensures Callbacks(n, ms) == if multiset(ms)[DoneMsg] >= n then 1 else 0
    decreases |ms|
  {
    if ms != [] {
      var init := ms[..|ms| - 1];
      assert ms == init + [ms[|ms| - 1]];
      CallbackOnce(n, init);
    }
  }

  /** Callbacks counted one more message at a time. */
  lemma CallbacksSnoc(active: int, ms: seq<Message>, m: Message)
    ensures Callbacks(active, ms + [m]) ==
      Callbacks(active, ms) + if m == DoneMsg && active - multiset(ms)[DoneMsg] - 1 == 0 then 1 else 0
  {
    assert (ms + [m])[..|ms|] == ms;
  }

  /** The addresses a batch of messages adds, one more message at a time. */
  lemma PostedSnoc(ms: seq<Message>, m: Message, entryPoint: int)
    ensures Posted(ms + [m], entryPoint) ==
      Posted(ms, entryPoint) + if m.ResultMsg? || m.RelocResultMsg? then {Resolve(MessageEntry(m), entryPoint)} else {}
  {
    var ms' := ms + [m];
    assert forall i :: 0 <= i < |ms| ==> ms'[i] == ms[i];
    assert ms'[|ms|] == m;
  }

  // ---------------------------------------------------------------------
  // Shards.

  /** The number of workers: `os.cpus().length || 1`. */
  function Workers(cpus: nat): (n: nat)
    ensures n > 0
  {
    if cpus == 0 then 1 else cpus
  }

  /** The shards as the launch loop hands them out: the first takes the
      quotient and the remainder, every other one the quotient, each
      starting where the one before it ends, the last ending at `count`. */
  predicate Partitioned(ws: seq<WorkerData>, n: nat, count: nat) {
    |ws| == n > 0
    && ws[0].sigIndex == 0 && ws[0].sigCount == count / n + count % n
    && (forall k :: 0 < k < n ==> ws[k].sigCount == count / n)
    && (forall k :: 0 <= k < n - 1 ==> ws[k + 1].sigIndex == ws[k].sigIndex + ws[k].sigCount)
    && ws[n - 1].sigIndex + ws[n - 1].sigCount == count
  }

  /** A shard ends no later than any later shard starts. */
  lemma {:induction false} ShardsInOrder(ws: seq<WorkerData>, n: nat, count: nat, k: nat, l: nat)
    requires Partitioned(ws, n, count) && k < l < n
    ensures ws[k].sigIndex + ws[k].sigCount <= ws[l].sigIndex
    decreases l - k
  {
    if k + 1 < l {
      ShardsInOrder(ws, n, count, k + 1, l);
    }
  }

  /** Signature `x` is in the shard of `w`. */
  predicate InShard(w: WorkerData, x: int) {
    w.sigIndex <= x < w.sigIndex + w.sigCount
  }

  /** Some shard among the first `n` holds `x`. */
  ghost predicate Covered(ws: seq<WorkerData>, n: nat, x: int)
    requires n <= |ws|
  {
    exists k :: 0 <= k < n && InShard(ws[k], x)
  }

  /** The shards lie in the list and every signature lies in exactly one
      shard: shards are contiguous, disjoint, and cover `[0, count)`. */
  lemma ShardsCover(ws: seq<WorkerData>, n: nat, count: nat)
    requires Partitioned(ws, n, count)
    ensures forall k :: 0 <= k < n ==> ws[k].sigIndex + ws[k].sigCount <= count
    ensures forall x :: 0 <= x < count ==> Covered(ws, n, x)
    ensures forall x, k, l :: 0 <= k < n && 0 <= l < n && InShard(ws[k], x) && InShard(ws[l], x) ==> k == l
  {
    forall k | 0 <= k < n - 1 ensures ws[k].sigIndex + ws[k].sigCount <= count {
      ShardsInOrder(ws, n, count, k, n - 1);
    }
    forall x | 0 <= x < count ensures Covered(ws, n, x) {
      ShardOf(ws, n, count, x, n - 1);
    }
    forall x, k, l | 0 <= k < n && 0 <= l < n && InShard(ws[k], x) && InShard(ws[l], x)
      ensures k == l
    {
      if k < l {
        ShardsInOrder(ws, n, count, k, l);
      } else if l < k {
        ShardsInOrder(ws, n, count, l, k);
      }
    }
  }

  /** The shard holding `x`, searched from shard `k` down. */
  lemma {:induction false} ShardOf(ws: seq<WorkerData>, n: nat, count: nat, x: nat, k: nat)
    requires Partitioned(ws, n, count) && k < n && x < ws[k].sigIndex + ws[k].sigCount
    ensures exists j :: 0 <= j <= k && InShard(ws[j], x)
    decreases k
  {
    if x < ws[k].sigIndex {
      ShardOf(ws, n, count, x, k - 1);
    } else {
      assert InShard(ws[k], x);
    }
  }

  /** The total size of the first `k` shards. */
  function ShardTotal(ws: seq<WorkerData>, k: nat): nat
    requires k <= |ws|
  {
    if k == 0 then 0 else ShardTotal(ws, k - 1) + ws[k - 1].sigCount
  }

  /** Each shard starts after all the ones before it; together they hold
      exactly `count` signatures. */
  lemma {:induction false} ShardTotals(ws: seq<WorkerData>, n: nat, count: nat, k: nat)
    requires Partitioned(ws, n, count) && k <= n
    ensures k < n ==> ShardTotal(ws, k) == ws[k].sigIndex
    ensures k == n ==> ShardTotal(ws, k) == count
  {
    if k > 0 {
      ShardTotals(ws, n, count, k - 1);
    }
  }

  /** A shard of a list of well-formed signatures can be scanned. */
  lemma ShardsScannable(ws: seq<WorkerData>, n: nat, signatures: seq<Signature>)
    requires Partitioned(ws, n, |signatures|)
    requires forall k :: 0 <= k < n ==> ws[k].signatures == signatures
    requires forall i :: 0 <= i < |signatures| ==> WellFormed(signatures[i])
    requires forall k, i :: 0 <= k < n && 0 <= i < |signatures| && !ws[k].thorough ==> Fits(ws[k].binary, signatures[i], ws[k].offsets)
    ensures forall k :: 0 <= k < n ==> Scannable(ws[k])
  {
    ShardsCover(ws, n, |signatures|);
  }

  /** Every message of every worker, one worker after another. */
  function AllEvents(ws: seq<WorkerData>): seq<Message>
    requires forall k :: 0 <= k < |ws| ==> Scannable(ws[k])
  {
    if ws == [] then [] else AllEvents(ws[..|ws| - 1]) + WorkerEvents(ws[|ws| - 1])
  }

  /** All workers together post one `progress` per signature of their
      shards and one `done` each. */
  lemma {:induction false} AllEventsCounts(ws: seq<WorkerData>)
    requires forall k :: 0 <= k < |ws| ==> Scannable(ws[k])
    ensures multiset(AllEvents(ws))[ProgressMsg] == ShardTotal(ws, |ws|)
    ensures multiset(AllEvents(ws))[DoneMsg] == |ws|
  {
    if ws != [] {
      var init, last := ws[..|ws| - 1], ws[|ws| - 1];
      assert forall k :: 0 <= k < |init| ==> init[k] == ws[k];
      assert AllEvents(ws) == AllEvents(init) + WorkerEvents(last);
      hide AllEvents, WorkerEvents, Scannable;
      AllEventsCounts(init);
      WorkerEventsCounts(last);
      ShardTotalPrefix(ws, |ws| - 1, |ws| - 1);
    }
  }

  /** The first shards of a list total the same as in its prefix. */
  lemma {:induction false} ShardTotalPrefix(ws: seq<WorkerData>, m: nat, k: nat)
    requires k <= m <= |ws|
    ensures ShardTotal(ws[..m], k) == ShardTotal(ws, k)
    decreases k
  {
    if k > 0 {
      ShardTotalPrefix(ws, m, k - 1);
      assert ws[..m][k - 1] == ws[k - 1];
    }
  }

  /** However the workers' messages interleave, once all of them are
      handled every signature has been counted once and the callback has
      run exactly once. */
  lemma ScanCompletes(ws: seq<WorkerData>, n: nat, count: nat, ms: seq<Message>)
    requires Partitioned(ws, n, count) && forall k :: 0 <= k < n ==> Scannable(ws[k])
    requires multiset(ms) == multiset(AllEvents(ws))
    ensures multiset(ms)[ProgressMsg] == count
    ensures multiset(ms)[DoneMsg] == n
    ensures Callbacks(n, ms) == 1
  {
    AllEventsCounts(ws);
    ShardTotals(ws, n, count, n);
    CallbackOnce(n, ms);
  }

  // ---------------------------------------------------------------------
  // The coordinator.

  class N64Sym {
    var binary: array<bv8>
    var results: seq<Entry>
    var likelyFunctionOffsets: seq<nat>
    var numActiveWorkers: int
    var numSignaturesScanned: int
    var entryPoint: int
    var endianCheck: bv32
    var bRom: bool
    var bootcheck: bv32
    var bootcode: int
    var bThoroughScan: bool
    /** The argument of every call of the completion callback, in order. */
    var delivered: seq<seq<Entry>>

    constructor ()
      ensures binary.Length == 0 && results == [] && likelyFunctionOffsets == []
      ensures numActiveWorkers == 0 && numSignaturesScanned == 0 && entryPoint == 0
      ensures endianCheck == 0 && !bRom && bootcheck == 0 && bootcode == 0 && bThoroughScan
      ensures delivered == []
    {
      binary := new bv8[0];
      results := [];
      likelyFunctionOffsets := [];
      numActiveWorkers := 0;
      numSignaturesScanned := 0;
      entryPoint := 0;
      endianCheck := 0;
      bRom := false;
      bootcheck := 0;
      bootcode := 0;
      bThoroughScan := true;
      delivered := [];
    }

    /** Brings the image into native byte order in place and records
        whether it is a ROM (corrected halfword branch). */
    method RomEndianCheck() returns (fault: Option<Fault>)
      modifies this`endianCheck, this`bRom, binary
      ensures binary[..] == EndianCheck(old(binary[..])).bytes
      ensures fault == EndianCheck(old(binary[..])).fault
      ensures bRom == (old(bRom) || EndianCheck(old(binary[..])).rom)
      ensures fault.Some? ==> bRom == old(bRom)
      ensures endianCheck == if binary.Length < 4 then old(endianCheck) else Uint32(old(binary[..]), 0)
    {
      fault := None;
      if binary.Length < 4 {
        return Some(RangeError);
      }
      endianCheck := Uint32(binary[..], 0);
      if endianCheck == NATIVE {
        bRom := true;
      } else if endianCheck == WORD_SWAPPED {
        fault := SwapWordsInPlace(binary);
        if fault.Some? {
          return;
        }
        bRom := true;
      } else if endianCheck == HALF_SWAPPED {
        fault := SwapHalvesInPlace(binary);
        if fault.Some? {
          return;
        }
        bRom := true;
      }
    }

    /** Reads the entry point from the header and identifies the boot chip
        from the checksum of the boot code; a ROM only. */
    method LocateEntryPoint()
      requires bRom ==> binary.Length >= BOOT_START + BOOT_SIZE
      modifies this`entryPoint, this`bootcheck, this`bootcode
      ensures !bRom ==> entryPoint == old(entryPoint) && bootcheck == old(bootcheck) && bootcode == old(bootcode)
      ensures bRom ==> BootResolved(binary[..], bootcheck, bootcode, entryPoint)
    {
      if bRom {
        entryPoint := Uint32(binary[..], 8) as int - 0x1000;
        bootcheck := Crc.Crc32Of(binary[..], BOOT_START, BOOT_SIZE);
        bootcode := 0;
        assert CHIPS[0].check == 0x6170_A4A1 && CHIPS[1].check == 0x90BB_6CB5 && CHIPS[2].check == 0x0B05_0EE0;
        assert CHIPS[3].check == 0x98BC_2C86 && CHIPS[4].check == 0xACC8_580A;
        if bootcheck == 0x6170_A4A1 {
          bootcode := 6101;
        } else if bootcheck == 0x90BB_6CB5 {
          bootcode := 6102;
        } else if bootcheck == 0x0B05_0EE0 {
          bootcode := 6103;
          entryPoint := entryPoint - 0x10_0000;
        } else if bootcheck == 0x98BC_2C86 {
          bootcode := 6105;
        } else if bootcheck == 0xACC8_580A {
          bootcode := 6106;
          entryPoint := entryPoint - 0x20_0000;
        }
      }
    }

    /** The unbounded lookahead after the `jr ra` at `offset`: the first
        non-zero word from 8 bytes on, or a RangeError when only zero
        words remain. */
    method Lookahead(offset: nat) returns (target: Outcome<nat>)
      requires Return(binary[..], offset)
      ensures target.Ok? ==> AfterReturn(binary[..], offset, target.value)
      ensures target.Throws? ==> target.fault == RangeError && Dangling(binary[..], offset)
    {
      var i := 8;
      while true
        invariant i >= 8 && i % 4 == 0 && offset + i <= binary.Length + 4
        invariant ZeroWords(binary[..], offset + 8, offset + i)
        decreases binary.Length + 4 - offset - i
      {
        if binary.Length < offset + i + 4 {
          return Throws(RangeError);
        }
        if Uint32(binary[..], offset + i) != 0 {
          return Ok(offset + i);
        }
        i := i + 4;
      }
    }

    /** Collects the offsets of likely function starts, in the order they
        are first found, into `likelyFunctionOffsets`. */
    method CollectLikelyFunctionOffsets() returns (fault: Option<Fault>)
      modifies this`likelyFunctionOffsets
      ensures fault.Some? <==> binary.Length % 4 != 0 || exists o: nat :: Dangling(binary[..], o)
      ensures fault.Some? ==> fault == Some(RangeError) && likelyFunctionOffsets == old(likelyFunctionOffsets)
      ensures fault.None? ==> Distinct(likelyFunctionOffsets)
      ensures fault.None? ==> forall x: nat :: x in likelyFunctionOffsets <==> Likely(binary[..], x)
    {
      ghost var s := binary[..];
      var offsets: seq<nat> := [];
      var offset := 0;
      while offset < binary.Length
        invariant offset % 4 == 0 && offset <= binary.Length
        invariant Distinct(offsets) && Collected(s, offset, offsets)
        invariant forall o: nat :: o < offset ==> !Dangling(s, o)
        invariant likelyFunctionOffsets == old(likelyFunctionOffsets)
      {
        if binary.Length - offset < 4 {
          assert binary.Length % 4 == binary.Length - offset;
          return Some(RangeError);
        }
        var next := CollectWord(offset, offsets);
        if next.Throws? {
          return Some(next.fault);
        }
        offsets := next.value;
        offset := offset + 4;
      }
      forall o: nat ensures !Dangling(s, o) {
        if o >= offset {
          assert !Return(s, o);
        }
      }
      likelyFunctionOffsets := offsets;
      return None;
    }

    /** One pass of the collection loop: the word at `offset` (n64sym.js,
        lines 121-139). */
    method CollectWord(offset: nat, offsets: seq<nat>) returns (next: Outcome<seq<nat>>)
      requires offset % 4 == 0 && offset + 4 <= binary.Length
      requires Distinct(offsets) && Collected(binary[..], offset, offsets)
      ensures next.Ok? ==> Distinct(next.value) && Collected(binary[..], offset + 4, next.value) && !Dangling(binary[..], offset)
      ensures next.Throws? ==> next.fault == RangeError && Dangling(binary[..], offset)
    {
      ghost var s := binary[..];
      var found := offsets;
      var word := Uint32(binary[..], offset);
      ghost var target: Option<nat> := None;
      if word == JR_RA {
        var ahead := Lookahead(offset);
        if ahead.Throws? {
          return Throws(ahead.fault);
        }
        found := SetAdd(found, ahead.value);
        target := Some(ahead.value);
        AfterReturnNotDangling(s, offset, ahead.value);
      }
      var prologue := word & 0xFFFF_0000 == 0x27BD_0000 && Int16(binary[..], offset + 2) < 0;
      if prologue {
        found := SetAdd(found, offset);
      }
      assert prologue <==> Prologue(s, offset);
      forall x: nat ensures x in found <==> (Prologue(s, x) && x < offset + 4) || exists o: nat :: o < offset + 4 && AfterReturn(s, o, x) {
        if Prologue(s, x) && offset <= x < offset + 4 {
          AlignedInWord(x, offset);
        }
        if o: nat :| offset <= o < offset + 4 && AfterReturn(s, o, x) {
          AlignedInWord(o, offset);
          if target.Some? {
            AfterReturnUnique(s, offset, x, target.value);
          }
        }
      }
      return Ok(found);
    }

    /** Loads an image and prepares the scan: normalises the byte order,
        resolves the entry point, collects candidate offsets and launches
        one worker per core. An exception from a stage ends the scan. */
    method Scan(buffer: array<bv8>, signatures: seq<Signature>, cpus: nat)
      returns (workers: seq<WorkerData>, fault: Option<Fault>)
      requires |signatures| < 0x8000_0000
      requires EndianCheck(buffer[..]).rom ==> buffer.Length >= BOOT_START + BOOT_SIZE
      modifies this, buffer
      ensures binary == buffer && buffer[..] == EndianCheck(old(buffer[..])).bytes
      ensures results == [] && numSignaturesScanned == 0 && delivered == old(delivered)
      ensures bThoroughScan == old(bThoroughScan)
      ensures fault.Some? <==>
        EndianCheck(old(buffer[..])).fault.Some? || buffer.Length % 4 != 0 || exists o: nat :: Dangling(buffer[..], o)
      ensures fault.Some? ==> workers == [] && numActiveWorkers == old(numActiveWorkers) && likelyFunctionOffsets == []
      ensures bRom == EndianCheck(old(buffer[..])).rom
      ensures endianCheck == if buffer.Length < 4 then old(endianCheck) else Uint32(old(buffer[..]), 0)
      ensures !bRom ==> entryPoint == old(entryPoint) && bootcheck == old(bootcheck) && bootcode == old(bootcode)
      ensures bRom ==> BootResolved(buffer[..], bootcheck, bootcode, entryPoint)
      ensures fault.None? ==> Distinct(likelyFunctionOffsets)
      ensures fault.None? ==> forall x: nat :: x in likelyFunctionOffsets <==> Likely(buffer[..], x)
      ensures fault.None? ==>
        numActiveWorkers == old(numActiveWorkers) + Workers(cpus) && Partitioned(workers, Workers(cpus), |signatures|)
      ensures fault.None? ==> forall k :: 0 <= k < |workers| ==>
        workers[k].binary == buffer[..] && workers[k].signatures == signatures
        && workers[k].offsets == likelyFunctionOffsets && workers[k].thorough == bThoroughScan
    {
      hide EndianCheck, Likely, Dangling, Partitioned, BootResolved, Distinct, Workers, Uint32, Crc.Checksum;
      ghost var e := EndianCheck(buffer[..]);
      binary := buffer;
      results := [];
      likelyFunctionOffsets := [];
      numSignaturesScanned := 0;
      bRom := false;
      workers := [];
      fault := RomEndianCheck();
      assert buffer[..] == e.bytes && bRom == e.rom;
      if fault.Some? {
        return;
      }
      LocateEntryPoint();
      ghost var bytes := buffer[..];
      fault := CollectLikelyFunctionOffsets();
      assert buffer[..] == bytes;
      if fault.Some? {
        return;
      }
      workers := LaunchWorkers(signatures, cpus);
    }

    /** Adds a result unless one resolving to the same address is already
        there; the list stays ordered by resolved address. The push and
        sort are an insertion before the first larger address, the only
        order the sort can produce (`OrderedUnique`). */
    method AddResult(r: Entry)
      requires Resolvable(r) && Ordered(results, entryPoint)
      modifies this`results
      ensures Ordered(results, entryPoint)
      ensures Addresses(results, entryPoint) == Addresses(old(results), entryPoint) + {Resolve(r, entryPoint)}
      ensures Resolve(r, entryPoint) in Addresses(old(results), entryPoint) ==> results == old(results)
      ensures Resolve(r, entryPoint) !in Addresses(old(results), entryPoint) ==>
        multiset(results) == multiset(old(results)) + multiset{r}
    {
      var resAddr := Resolve(r, entryPoint);
      var i := 0;
      while i < |results|
        invariant i <= |results|
        invariant forall k :: 0 <= k < i ==> Resolve(results[k], entryPoint) != resAddr
      {
        if Resolve(results[i], entryPoint) == resAddr {
          return;
        }
        i := i + 1;
      }
      var k := 0;
      while k < |results| && Resolve(results[k], entryPoint) < resAddr
        invariant k <= |results|
        invariant forall j :: 0 <= j < k ==> Resolve(results[j], entryPoint) < resAddr
      {
        k := k + 1;
      }
      ghost var rs := results;
      results := results[..k] + [r] + results[k..];
      assert rs == rs[..k] + rs[k..];
      InsertAddresses(rs, k, r, entryPoint);
    }

    /** Handles one message from a worker. */
    method Dispatch(m: Message)
      requires Ordered(results, entryPoint)
      requires m.RelocResultMsg? ==> m.address != 0
      modifies this`results, this`numSignaturesScanned, this`numActiveWorkers, this`delivered
      ensures Ordered(results, entryPoint)
      ensures numSignaturesScanned == old(numSignaturesScanned) + if m == ProgressMsg then 1 else 0
      ensures numActiveWorkers == old(numActiveWorkers) - if m == DoneMsg then 1 else 0
      ensures delivered == old(delivered) + if m == DoneMsg && numActiveWorkers == 0 then [results] else []
      ensures m.ResultMsg? || m.RelocResultMsg? ==>
        Addresses(results, entryPoint) == Addresses(old(results), entryPoint) + {Resolve(MessageEntry(m), entryPoint)}
      ensures m.ResultMsg? || m.RelocResultMsg? ==>
        (Resolve(MessageEntry(m), entryPoint) in Addresses(old(results), entryPoint) ==> results == old(results))
      ensures m.ResultMsg? || m.RelocResultMsg? ==>
        (Resolve(MessageEntry(m), entryPoint) !in Addresses(old(results), entryPoint) ==>
           multiset(results) == multiset(old(results)) + multiset{MessageEntry(m)})
      ensures !(m.ResultMsg? || m.RelocResultMsg?) ==> results == old(results)
    {
      match m
      case ResultMsg(name, offset) =>
        AddResult(Located(name, offset));
      case RelocResultMsg(name, address) =>
        AddResult(Addressed(name, address));
      case ProgressMsg =>
        numSignaturesScanned := numSignaturesScanned + 1;
      case DoneMsg =>
        numActiveWorkers := numActiveWorkers - 1;
        if numActiveWorkers == 0 {
          delivered := delivered + [results];
        }
    }

    /** Handles a sequence of messages, in any interleaving of the
        workers' streams. */
    method ProcessMessages(ms: seq<Message>)
      requires Ordered(results, entryPoint)
      requires forall i :: 0 <= i < |ms| && ms[i].RelocResultMsg? ==> ms[i].address != 0
      modifies this`results, this`numSignaturesScanned, this`numActiveWorkers, this`delivered
      ensures Ordered(results, entryPoint)
      ensures numSignaturesScanned == old(numSignaturesScanned) + multiset(ms)[ProgressMsg]
      ensures numActiveWorkers == old(numActiveWorkers) - multiset(ms)[DoneMsg]
      ensures |delivered| == |old(delivered)| + Callbacks(old(numActiveWorkers), ms)
      ensures delivered[..|old(delivered)|] == old(delivered)
      ensures Addresses(results, entryPoint) == Addresses(old(results), entryPoint) + Posted(ms, entryPoint)
      ensures DrawnFrom(results, old(results), PostedEntries(ms))
      ensures forall j :: |old(delivered)| <= j < |delivered| ==>
        Ordered(delivered[j], entryPoint) && DrawnFrom(delivered[j], old(results), PostedEntries(ms))
    {
      ghost var scanned0, active0, d0, rs0 := numSignaturesScanned, numActiveWorkers, delivered, results;
      for i := 0 to |ms|
        invariant Handled(ms, i, scanned0, active0, d0, rs0)
      {
        HandleNext(ms, i, scanned0, active0, d0, rs0);
      }
      assert ms[..|ms|] == ms;
    }

    /** The state after the first `i` messages, from counters `scanned0`
        and `active0`, callback lists `d0` and results `rs0`. */
    ghost predicate Handled(ms: seq<Message>, i: nat, scanned0: int, active0: int, d0: seq<seq<Entry>>, rs0: seq<Entry>)
      requires i <= |ms|
      reads this
    {
      Ordered(results, entryPoint)
      && numSignaturesScanned == scanned0 + multiset(ms[..i])[ProgressMsg]
      && numActiveWorkers == active0 - multiset(ms[..i])[DoneMsg]
      && |delivered| == |d0| + Callbacks(active0, ms[..i])
      && delivered[..|d0|] == d0
      && Addresses(results, entryPoint) == Addresses(rs0, entryPoint) + Posted(ms[..i], entryPoint)
      && Kept(results, delivered, rs0, d0, PostedEntries(ms[..i]), entryPoint)
    }

    /** Handling message `i` extends `Handled` by one message. */
    method HandleNext(ms: seq<Message>, i: nat, ghost scanned0: int, ghost active0: int, ghost d0: seq<seq<Entry>>, ghost rs0: seq<Entry>)
      requires i < |ms| && (ms[i].RelocResultMsg? ==> ms[i].address != 0)
      requires Handled(ms, i, scanned0, active0, d0, rs0)
      modifies this`results, this`numSignaturesScanned, this`numActiveWorkers, this`delivered
      ensures Handled(ms, i + 1, scanned0, active0, d0, rs0)
    {
      assert ms[..i + 1] == ms[..i] + [ms[i]];
      PostedSnoc(ms[..i], ms[i], entryPoint);
      CallbacksSnoc(active0, ms[..i], ms[i]);
      PostedEntriesSnoc(ms[..i], ms[i]);
      ghost var prev, dprev := results, delivered;
      ghost var es, es' := PostedEntries(ms[..i]), PostedEntries(ms[..i + 1]);
      ghost var e := if ms[i].ResultMsg? || ms[i].RelocResultMsg? then MessageEntry(ms[i]) else Located("", 0);
      hide Callbacks, Posted, Addresses, Ordered, DrawnFrom, PostedEntries, Kept;
      Dispatch(ms[i]);
      KeptStep(prev, results, dprev, delivered, rs0, d0, es, es', e, entryPoint);
    }

    /** Starts one worker per core on contiguous shards of the signature
        list (n64sym.js, lines 157-179). */
    method LaunchWorkers(signatures: seq<Signature>, cpus: nat) returns (workers: seq<WorkerData>)
      requires |signatures| < 0x8000_0000
      modifies this`numActiveWorkers
      ensures numActiveWorkers == old(numActiveWorkers) + Workers(cpus)
      ensures Partitioned(workers, Workers(cpus), |signatures|)
      ensures forall k :: 0 <= k < |workers| ==>
        workers[k].binary == binary[..] && workers[k].signatures == signatures
        && workers[k].offsets == likelyFunctionOffsets && workers[k].thorough == bThoroughScan
    {
      var n := Workers(cpus);
      var sigIndex := 0;
      var sigsPerThread := |signatures| / n;
      var remainder := |signatures| % n;
      var bytes, offsets, thorough := binary[..], likelyFunctionOffsets, bThoroughScan;
      ghost var r0 := remainder;
      workers := [];
      hide ShardStart, ShardSize, Partitioned, Launched;
      for i := 0 to n
        invariant numActiveWorkers == old(numActiveWorkers) + i
        invariant remainder == if i == 0 then r0 else 0
        invariant sigIndex == ShardStart(sigsPerThread, r0, i)
        invariant Launched(workers, i, sigsPerThread, r0, WorkerData(bytes, signatures, 0, 0, offsets, thorough))
      {
        ShardNext(sigsPerThread, r0, i);
        LaunchedSnoc(workers, i, sigsPerThread, r0, WorkerData(bytes, signatures, 0, 0, offsets, thorough));
        workers := workers + [WorkerData(bytes, signatures, sigIndex, sigsPerThread + remainder, offsets, thorough)];
        numActiveWorkers := numActiveWorkers + 1;
        sigIndex := sigIndex + sigsPerThread + remainder;
        if remainder > 0 {
          remainder := 0;
        }
      }
      LaunchedPartitioned(workers, n, |signatures|, WorkerData(bytes, signatures, 0, 0, offsets, thorough));
    }
  }

  /** The first `i` shards have been handed out, each a copy of `proto`
      with its own range of the signature list. */
  predicate Launched(ws: seq<WorkerData>, i: nat, q: nat, r: nat, proto: WorkerData) {
    |ws| == i
    && forall k :: 0 <= k < i ==> ws[k] == proto.(sigIndex := ShardStart(q, r, k), sigCount := ShardSize(q, r, k))
  }

  lemma LaunchedSnoc(ws: seq<WorkerData>, i: nat, q: nat, r: nat, proto: WorkerData)
    requires Launched(ws, i, q, r, proto)
    ensures Launched(ws + [proto.(sigIndex := ShardStart(q, r, i), sigCount := ShardSize(q, r, i))], i + 1, q, r, proto)
  {
  }

  /** Where shard `i` starts when the first takes `q + r` signatures and
      every other `q`. */
  function ShardStart(q: nat, r: nat, i: nat): nat {
    if i == 0 then 0 else q * i + r
  }

  function ShardSize(q: nat, r: nat, i: nat): nat {
    if i == 0 then q + r else q
  }

  /** Each shard starts where the one before it ends. */
  lemma ShardNext(q: nat, r: nat, i: nat)
    ensures ShardStart(q, r, 0) == 0 && ShardSize(q, r, 0) == q + r
    ensures i > 0 ==> ShardSize(q, r, i) == q
    ensures ShardStart(q, r, i + 1) == ShardStart(q, r, i) + ShardSize(q, r, i)
  {
    assert q * (i + 1) == q * i + q;
  }

  /** The shards the launch loop builds form a partition of the list, and
      each worker receives the same image, signatures and candidates. */
  lemma LaunchedPartitioned(ws: seq<WorkerData>, n: nat, count: nat, proto: WorkerData)
    requires n > 0 && Launched(ws, n, count / n, count % n, proto)
    ensures Partitioned(ws, n, count)
    ensures forall k :: 0 <= k < n ==> (ws[k].binary == proto.binary && ws[k].signatures == proto.signatures
      && ws[k].offsets == proto.offsets && ws[k].thorough == proto.thorough)
  {
    var q, r := count / n, count % n;
    forall k | 0 <= k < n - 1 ensures ws[k + 1].sigIndex == ws[k].sigIndex + ws[k].sigCount {
      ShardNext(q, r, k);
    }
    ShardNext(q, r, 0);
    ShardNext(q, r, n - 1);
    assert count == q * n + r;
    assert q * (n - 1) + q == q * n;
  }

  /** Inserting at the first position whose address is larger keeps the
      list ordered and adds exactly the new entry and its address. */
  lemma InsertAddresses(rs: seq<Entry>, k: nat, r: Entry, entryPoint: int)
    requires Ordered(rs, entryPoint) && Resolvable(r) && k <= |rs|
    requires forall j :: 0 <= j < k ==> Resolve(rs[j], entryPoint) < Resolve(r, entryPoint)
    requires k < |rs| ==> Resolve(r, entryPoint) < Resolve(rs[k], entryPoint)
    ensures Ordered(rs[..k] + [r] + rs[k..], entryPoint)
    ensures Addresses(rs[..k] + [r] + rs[k..], entryPoint) == Addresses(rs, entryPoint) + {Resolve(r, entryPoint)}
    ensures multiset(rs[..k] + [r] + rs[k..]) == multiset(rs) + multiset{r}
  {
    var t := rs[..k] + [r] + rs[k..];
    InsertShape(rs, k, r);
    hide Ordered, Addresses, Resolve;
    InsertOrdered(rs, k, r, entryPoint, t);
    InsertSet(rs, k, r, entryPoint, t);
  }

  /** Where the entries of `rs` sit after the insertion. */
  lemma InsertShape(rs: seq<Entry>, k: nat, r: Entry)
    requires k <= |rs|
    ensures |rs[..k] + [r] + rs[k..]| == |rs| + 1
    ensures forall j :: 0 <= j < k ==> (rs[..k] + [r] + rs[k..])[j] == rs[j]
    ensures (rs[..k] + [r] + rs[k..])[k] == r
    ensures forall j :: k < j <= |rs| ==> (rs[..k] + [r] + rs[k..])[j] == rs[j - 1]
    ensures multiset(rs[..k] + [r] + rs[k..]) == multiset(rs) + multiset{r}
  {
    assert rs == rs[..k] + rs[k..];
  }

  lemma InsertOrdered(rs: seq<Entry>, k: nat, r: Entry, entryPoint: int, t: seq<Entry>)
    requires Ordered(rs, entryPoint) && Resolvable(r) && k <= |rs|
    requires forall j :: 0 <= j < k ==> Resolve(rs[j], entryPoint) < Resolve(r, entryPoint)
    requires k < |rs| ==> Resolve(r, entryPoint) < Resolve(rs[k], entryPoint)
    requires |t| == |rs| + 1 && t[k] == r
    requires forall j :: 0 <= j < k ==> t[j] == rs[j]
    requires forall j :: k < j <= |rs| ==> t[j] == rs[j - 1]
    ensures Ordered(t, entryPoint)
  {
    forall i, j | 0 <= i < j < |t| ensures Resolve(t[i], entryPoint) < Resolve(t[j], entryPoint) {
      if j < k {
      } else if j == k {
      } else if i < k {
        assert Resolve(t[i], entryPoint) < Resolve(r, entryPoint) < Resolve(rs[k], entryPoint);
      } else if i == k {
        assert Resolve(rs[k], entryPoint) <= Resolve(rs[j - 1], entryPoint);
      }
    }
  }

  lemma InsertSet(rs: seq<Entry>, k: nat, r: Entry, entryPoint: int, t: seq<Entry>)
    requires k <= |rs|
    requires |t| == |rs| + 1 && t[k] == r
    requires forall j :: 0 <= j < k ==> t[j] == rs[j]
    requires forall j :: k < j <= |rs| ==> t[j] == rs[j - 1]
    ensures Addresses(t, entryPoint) == Addresses(rs, entryPoint) + {Resolve(r, entryPoint)}
  {
    forall a | a in Addresses(rs, entryPoint) ensures a in Addresses(t, entryPoint) {
      var j :| 0 <= j < |rs| && a == Resolve(rs[j], entryPoint);
      if j < k {
        assert a == Resolve(t[j], entryPoint);
      } else {
        assert a == Resolve(t[j + 1], entryPoint);
      }
    }
    assert Resolve(r, entryPoint) == Resolve(t[k], entryPoint);
  }
}
