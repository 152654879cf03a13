/** The signature matcher of worker.js: relocation records, the stripping of
    relocated MIPS words, the two-stage CRC comparison of `testSymbol`,
    the recovery of link-time addresses on a match, and the per-signature
    scan loop of one worker. The relocation kinds are R_MIPS_26 ("targ26"),
    R_MIPS_HI16 and R_MIPS_LO16 of the System V ABI MIPS Processor
    Supplement, section "Relocation". */
module Matcher {
  import opened Outcomes
  import opened DataView
  import opened Crc

  // ---------------------------------------------------------------------
  // Signatures and messages.

  /** The `type` string of a relocation group. */
  datatype RelocKind = Targ26 | Hi16 | Lo16 | Other(tag: string)

  /** One group of a signature's relocation list: `[type, name, offsets]`. */
  datatype RelocGroup = RelocGroup(kind: RelocKind, name: string, offsets: seq<nat>)

  /** One entry of the flattened relocation list of `testSymbol`. */
  datatype Reloc = Reloc(kind: RelocKind, name: string, offset: nat)

  /** A signature record `[name, size, crcA, crcB, relocs]`. */
  datatype Signature = Signature(name: string, size: nat, crcA: bv32, crcB: bv32, relocs: seq<RelocGroup>)

  /** What a worker posts to its parent, by `status`. */
  datatype Message =
    | ResultMsg(name: string, offset: nat)             // "result"
    | RelocResultMsg(name: string, address: int)       // "reloc_result"
    | ProgressMsg                                      // "progress"
    | DoneMsg                                          // "done"

  function Min(a: int, b: int): int { if a < b then a else b }

  // ---------------------------------------------------------------------
  // Stripping relocated words.

  /** The word a relocation of kind `k` keeps: the opcode bits of a jump,
      the upper halfword of a hi16/lo16 instruction, all of any other. */
  function Mask(k: RelocKind): bv32 {
    match k
    case Targ26 => 0xFC00_0000
    case Hi16 => 0xFFFF_0000
    case Lo16 => 0xFFFF_0000
    case Other(_) => 0xFFFF_FFFF
  }

  /** The four bytes `readStrippedOpcode` hands to the CRC for the word `w`
      under a relocation of kind `k`. */
  function Stripped(w: seq<bv8>, k: RelocKind): (r: seq<bv8>)
    requires |w| == 4
    ensures |r| == 4
  {
    match k
    case Targ26 => [w[0] & 0xFC, 0, 0, 0]
    case Hi16 => [w[0], w[1], 0, 0]
    case Lo16 => [w[0], w[1], 0, 0]
    case Other(_) => w
  }

  /** Read as a big-endian word, the stripped bytes are the word under the
      kind's mask. */
  lemma StrippedIsMasked(w: seq<bv8>, k: RelocKind)
    requires |w| == 4
    ensures Uint32(Stripped(w, k), 0) == Uint32(w, 0) & Mask(k)
  {
  }

  /** Two words strip identically exactly when they agree under the mask:
      a jump target (low 26 bits) or a relocated immediate (low 16 bits)
      never changes the stripped bytes, and nothing else is ignored. */
  lemma StrippedEqualIff(w1: seq<bv8>, w2: seq<bv8>, k: RelocKind)
    requires |w1| == 4 && |w2| == 4
    ensures Stripped(w1, k) == Stripped(w2, k) <==> Uint32(w1, 0) & Mask(k) == Uint32(w2, 0) & Mask(k)
  {
    StrippedIsMasked(w1, k);
    StrippedIsMasked(w2, k);
    if Uint32(w1, 0) & Mask(k) == Uint32(w2, 0) & Mask(k) {
      Uint32Injective(Stripped(w1, k), Stripped(w2, k));
    }
  }

  // ---------------------------------------------------------------------
  // The flattened, sorted relocation list.

  /** The entries one group contributes, one per offset, in list order. */
  function Expand(g: RelocGroup): (rs: seq<Reloc>)
    ensures |rs| == |g.offsets|
    ensures forall k :: 0 <= k < |rs| ==> rs[k] == Reloc(g.kind, g.name, g.offsets[k])
  {
    seq(|g.offsets|, k requires 0 <= k < |g.offsets| => Reloc(g.kind, g.name, g.offsets[k]))
  }

  /** The list the nested `for ... of` loops build: every group's entries,
      groups in order. */
  function Flatten(gs: seq<RelocGroup>): (rs: seq<Reloc>)
    ensures forall r :: r in rs <==> exists g :: g in gs && r in Expand(g)
  {
    if gs == [] then [] else Flatten(gs[..|gs| - 1]) + Expand(gs[|gs| - 1])
  }

  /** Non-decreasing by offset. */
  predicate SortedByOffset(rs: seq<Reloc>) {
    forall i, j :: 0 <= i < j < |rs| ==> rs[i].offset <= rs[j].offset
  }

  /** `r` placed before the first entry whose offset is not below its own. */
  function InsertByOffset(r: Reloc, rs: seq<Reloc>): (s: seq<Reloc>)
    ensures multiset(s) == multiset(rs) + multiset{r}
  {
    if rs == [] || r.offset <= rs[0].offset then [r] + rs
    else
      assert rs == [rs[0]] + rs[1..];
      [rs[0]] + InsertByOffset(r, rs[1..])
  }

  lemma {:induction false} InsertSorted(r: Reloc, rs: seq<Reloc>)
    requires SortedByOffset(rs)
    ensures SortedByOffset(InsertByOffset(r, rs))
  {
    if rs != [] && r.offset > rs[0].offset {
      InsertSorted(r, rs[1..]);
      var t := InsertByOffset(r, rs[1..]);
      forall j | 0 <= j < |t| ensures rs[0].offset <= t[j].offset {
        assert t[j] in multiset(rs[1..]) + multiset{r};
        if t[j] != r {
          assert t[j] in rs[1..];
        }
      }
      assert InsertByOffset(r, rs) == [rs[0]] + t;
    }
  }

  /** `relocs.sort((a, b) => a.offset - b.offset)`: a stable sort by offset;
      it only reorders. */
  function SortByOffset(rs: seq<Reloc>): (s: seq<Reloc>)
    ensures multiset(s) == multiset(rs)
  {
    if rs == [] then [] else
    assert rs == [rs[0]] + rs[1..];
    InsertByOffset(rs[0], SortByOffset(rs[1..]))
  }

  /** The sort leaves the list in ascending order of offset. */
  lemma {:induction false} SortSorted(rs: seq<Reloc>)
    ensures SortedByOffset(SortByOffset(rs))
  {
    if rs != [] {
      SortSorted(rs[1..]);
      InsertSorted(rs[0], SortByOffset(rs[1..]));
    }
  }

  /** The list `testSymbol` walks. */
  function SortedRelocs(sig: Signature): seq<Reloc> {
    SortByOffset(Flatten(sig.relocs))
  }

  /** What the signature format guarantees of a relocation list: once sorted,
      the offsets are word-aligned, pairwise distinct, and each relocated
      word lies inside the body. */
  predicate WellFormed(sig: Signature) {
    var rs := SortedRelocs(sig);
    (forall i :: 0 <= i < |rs| ==> rs[i].offset % 4 == 0 && rs[i].offset + 4 <= sig.size)
    && (forall i, j :: 0 <= i < j < |rs| ==> rs[i].offset < rs[j].offset)
  }

  // ---------------------------------------------------------------------
  // The bytes the two checksums cover.

  /** The relocations `rs`, from cursor position `pos` on, are in order,
      do not overlap, and lie inside a body of `n` bytes. */
  predicate Spaced(rs: seq<Reloc>, pos: nat, n: nat)
    decreases |rs|
  {
    pos <= n
    && (rs != [] ==> pos <= rs[0].offset && rs[0].offset + 4 <= n && Spaced(rs[1..], rs[0].offset + 4, n))
  }

  /** The stream from position `pos` on: the body's bytes, except that each
      relocated word is replaced by its stripped form. */
  function Stream(body: seq<bv8>, rs: seq<Reloc>, pos: nat): (s: seq<bv8>)
    requires Spaced(rs, pos, |body|)
    ensures |s| == |body| - pos
    decreases |rs|
  {
    if rs == [] then body[pos..]
    else
      var o := rs[0].offset;
      body[pos..o] + Stripped(body[o..o + 4], rs[0].kind) + Stream(body, rs[1..], o + 4)
  }

  /** Outside every relocated word, the stream carries the body's byte. */
  lemma {:induction false} StreamOutside(body: seq<bv8>, rs: seq<Reloc>, pos: nat, k: nat)
    requires Spaced(rs, pos, |body|) && pos <= k < |body|
    requires forall i :: 0 <= i < |rs| ==> !(rs[i].offset <= k < rs[i].offset + 4)
    ensures Stream(body, rs, pos)[k - pos] == body[k]
    decreases |rs|
  {
    if rs != [] {
      var o := rs[0].offset;
      assert Spaced(rs[1..], o + 4, |body|);
      if k >= o + 4 {
        StreamOutside(body, rs[1..], o + 4, k);
      }
    }
  }

  /** Each relocation of a spaced list lies between the cursor and the end. */
  lemma {:induction false} SpacedAt(rs: seq<Reloc>, pos: nat, n: nat, i: nat)
    requires Spaced(rs, pos, n) && i < |rs|
    ensures pos <= rs[i].offset && rs[i].offset + 4 <= n
    decreases |rs|
  {
    if i > 0 {
      SpacedAt(rs[1..], rs[0].offset + 4, n, i - 1);
    }
  }

  /** Inside relocated word `i`, the stream carries the stripped byte. */
  lemma {:induction false} StreamInside(body: seq<bv8>, rs: seq<Reloc>, pos: nat, i: nat, k: nat)
    requires Spaced(rs, pos, |body|) && i < |rs| && rs[i].offset <= k < rs[i].offset + 4
    ensures pos <= rs[i].offset && rs[i].offset + 4 <= |body|
    ensures Stream(body, rs, pos)[k - pos] == Stripped(body[rs[i].offset..rs[i].offset + 4], rs[i].kind)[k - rs[i].offset]
    decreases |rs|
  {
    hide Stripped;
    SpacedAt(rs, pos, |body|, i);
    var o := rs[0].offset;
    var head := body[pos..o] + Stripped(body[o..o + 4], rs[0].kind);
    var rest := Stream(body, rs[1..], o + 4);
    assert Stream(body, rs, pos) == head + rest;
    if i > 0 {
      SpacedAt(rs[1..], o + 4, |body|, i - 1);
      StreamInside(body, rs[1..], o + 4, i - 1, k);
      assert (head + rest)[k - pos] == rest[k - (o + 4)];
    } else {
      assert (head + rest)[k - pos] == head[k - pos];
    }
  }

  /** Moving the cursor over plain bytes before the next relocation splits
      the stream there. */
  lemma {:induction false} StreamSkip(body: seq<bv8>, rs: seq<Reloc>, pos: nat, p: nat)
    requires Spaced(rs, pos, |body|) && pos <= p <= |body|
    requires rs != [] ==> p <= rs[0].offset
    ensures Spaced(rs, p, |body|)
    ensures Stream(body, rs, pos) == body[pos..p] + Stream(body, rs, p)
  {
    if rs != [] {
      var o := rs[0].offset;
      assert Spaced(rs[1..], o + 4, |body|);
      assert body[pos..o] == body[pos..p] + body[p..o];
    } else {
      assert body[pos..] == body[pos..p] + body[p..];
    }
  }

  /** The sorted list of a well-formed signature is spaced from 0. */
  lemma WellFormedSpaced(sig: Signature)
    requires WellFormed(sig)
    ensures Spaced(SortedRelocs(sig), 0, sig.size)
  {
    AlignedSpaced(SortedRelocs(sig), 0, sig.size);
  }

  /** Strictly ascending word-aligned offsets whose words fit are spaced. */
  lemma {:induction false} AlignedSpaced(rs: seq<Reloc>, pos: nat, n: nat)
    requires pos <= n
    requires forall i :: 0 <= i < |rs| ==> pos <= rs[i].offset && rs[i].offset % 4 == 0 && rs[i].offset + 4 <= n
    requires forall i, j :: 0 <= i < j < |rs| ==> rs[i].offset < rs[j].offset
    ensures Spaced(rs, pos, n)
    decreases |rs|
  {
    if rs != [] {
      forall j | 1 <= j < |rs| ensures rs[0].offset + 4 <= rs[j].offset {
        AlignedGap(rs[0].offset, rs[j].offset);
      }
      AlignedSpaced(rs[1..], rs[0].offset + 4, n);
    }
  }

  /** Distinct word-aligned offsets are a word apart. */
  lemma AlignedGap(a: nat, b: nat)
    requires a % 4 == 0 && b % 4 == 0 && a < b
    ensures a + 4 <= b
  {
  }

  /** The `size` bytes of a candidate function at `offset`. */
  function Body(binary: seq<bv8>, offset: nat, sig: Signature): (body: seq<bv8>)
    requires offset + sig.size <= |binary|
    ensures |body| == sig.size
  {
    binary[offset..offset + sig.size]
  }

  /** The bytes `crcB` covers: the body with every relocated word stripped. */
  function Canonical(binary: seq<bv8>, offset: nat, sig: Signature): (s: seq<bv8>)
    requires offset + sig.size <= |binary| && WellFormed(sig)
    ensures |s| == sig.size
  {
    WellFormedSpaced(sig);
    Stream(Body(binary, offset, sig), SortedRelocs(sig), 0)
  }

  /** `testSymbol`'s verdict. With an empty group list only `crcB` over the
      raw body decides; otherwise the first `min(size, 8)` stripped bytes
      must give `crcA` and all of them `crcB`. */
  predicate Matches(binary: seq<bv8>, offset: nat, sig: Signature)
    requires offset + sig.size <= |binary| && WellFormed(sig)
  {
    if sig.relocs == [] then Checksum(Body(binary, offset, sig)) == sig.crcB
    else
      var s := Canonical(binary, offset, sig);
      Checksum(s[..Min(sig.size, 8)]) == sig.crcA && Checksum(s) == sig.crcB
  }

  // ---------------------------------------------------------------------
  // Addresses recovered on a match.

  const TWO32: int := 0x1_0000_0000

  /** JavaScript's `>>> 0`. */
  function ToUint32(x: int): (r: int)
    ensures 0 <= r < TWO32 && (x - r) % TWO32 == 0
  {
    x % TWO32
  }

  /** JavaScript's conversion of a shift result to a signed 32-bit value. */
  function ToInt32(x: int): (r: int)
    ensures -0x8000_0000 <= r < 0x8000_0000 && (x - r) % TWO32 == 0
  {
    var u := x % TWO32;
    if u < 0x8000_0000 then u else u - TWO32
  }

  /** The target of a `jal`/`j` word in KSEG0: its 26-bit index field,
      times four, above 0x80000000. */
  function Targ26Address(w: bv32): (a: int)
    ensures a % 4 == 0 && 0x8000_0000 <= a <= 0x8FFF_FFFC
  {
    0x8000_0000 + ((w & 0x3FF_FFFF) as int) * 4
  }

  /** A `jal` (opcode 3) whose index field is `f` is reported at
      0x80000000 + 4f: the index field is recovered whole. */
  lemma JalTarget(f: bv32)
    requires f < 0x400_0000
    ensures Targ26Address(0x0C00_0000 | f) == 0x8000_0000 + (f as int) * 4
  {
    assert (0x0C00_0000 | f) & 0x3FF_FFFF == f;
  }

  /** `((hi16 << 16) + lo16) >>> 0`: the shift wraps to a signed 32-bit
      value, the signed low half is added, the sum is taken modulo 2^32. */
  function HiLoAddress(hi: int, lo: int): (a: int)
    requires 0 <= hi < 0x10000 && -0x8000 <= lo < 0x8000
    ensures 0 <= a < TWO32
  {
    ToUint32(ToInt32(hi * 0x10000) + lo)
  }

  /** The signed 32-bit wrap of the shift never changes the address: it is
      the "AHL" of the MIPS supplement, `(AHI << 16) + (short) ALO`, modulo
      2^32. */
  lemma HiLoIsAhl(hi: int, lo: int)
    requires 0 <= hi < 0x10000 && -0x8000 <= lo < 0x8000
    ensures HiLoAddress(hi, lo) == (hi * 0x10000 + lo) % TWO32
  {
  }

  /** hi 0x8010 with lo 0x2000 is 0x80102000; a negative lo borrows from
      the high half, so hi 0x8011 with lo 0x8000 (that is, -0x8000) is
      0x80108000. */
  lemma HiLoExamples()
    ensures HiLoAddress(0x8010, 0x2000) == 0x8010_2000
    ensures HiLoAddress(0x8011, -0x8000) == 0x8010_8000
  {
  }

  /** The relocated words all lie inside the buffer from `base` on. */
  predicate InView(binary: seq<bv8>, base: nat, rs: seq<Reloc>) {
    forall i :: 0 <= i < |rs| ==> base + rs[i].offset + 4 <= |binary|
  }

  /** `relocs[i]` is a lo16 whose predecessor is a hi16 of the same name. */
  predicate PairedLo(rs: seq<Reloc>, i: nat)
    requires i < |rs|
  {
    rs[i].kind == Lo16 && i > 0 && rs[i - 1].kind == Hi16 && rs[i].name == rs[i - 1].name
  }

  /** The message (if any) iteration `i` of the reporting loop posts. A lo16
      in position 0 has no predecessor and posts nothing. */
  function RelocEventAt(binary: seq<bv8>, base: nat, rs: seq<Reloc>, i: nat): (ms: seq<Message>)
    requires i < |rs| && InView(binary, base, rs)
    ensures |ms| <= 1
  {
    var r := rs[i];
    if r.kind == Targ26 then
      [RelocResultMsg(r.name, Targ26Address(Uint32(binary, base + r.offset)))]
    else if PairedLo(rs, i) then
      var hi := Uint16(binary, base + rs[i - 1].offset + 2);
      var lo := Int16(binary, base + r.offset + 2);
      [RelocResultMsg(r.name, HiLoAddress(hi, lo))]
    else []
  }

  /** The messages of the reporting loop from iteration `i` on. */
  function RelocEvents(binary: seq<bv8>, base: nat, rs: seq<Reloc>, i: nat): (ms: seq<Message>)
    requires i <= |rs| && InView(binary, base, rs)
    decreases |rs| - i
  {
    if i == |rs| then [] else RelocEventAt(binary, base, rs, i) + RelocEvents(binary, base, rs, i + 1)
  }

  /** Every reported message is a `reloc_result` named after a relocation
      of the list, with an address in [0, 2^32); a targ26 one is a word-aligned
      KSEG0 address. */
  lemma {:induction false} RelocEventsShape(binary: seq<bv8>, base: nat, rs: seq<Reloc>, i: nat)
    requires i <= |rs| && InView(binary, base, rs)
    ensures |RelocEvents(binary, base, rs, i)| <= |rs| - i
    ensures forall m :: m in RelocEvents(binary, base, rs, i) ==>
      m.RelocResultMsg? && 0 <= m.address < TWO32 && exists k :: i <= k < |rs| && rs[k].name == m.name
    decreases |rs| - i
  {
    if i < |rs| {
      RelocEventsShape(binary, base, rs, i + 1);
    }
  }

  /** The reporting loop as written: for a lo16 in position 0 the pairing
      test reads `relocs[-1].type`, a property of `undefined`, and throws. */
  function RelocEventAtAsWritten(binary: seq<bv8>, base: nat, rs: seq<Reloc>, i: nat): Outcome<seq<Message>>
    requires i < |rs| && InView(binary, base, rs)
  {
    var r := rs[i];
    if r.kind == Targ26 then
      Ok([RelocResultMsg(r.name, Targ26Address(Uint32(binary, base + r.offset)))])
    else if r.kind == Lo16 && i == 0 then Throws(TypeError)
    else if r.kind == Lo16 && rs[i - 1].kind == Hi16 && r.name == rs[i - 1].name then
      var hi := Uint16(binary, base + rs[i - 1].offset + 2);
      var lo := Int16(binary, base + r.offset + 2);
      Ok([RelocResultMsg(r.name, HiLoAddress(hi, lo))])
    else Ok([])
  }

  function RelocEventsAsWritten(binary: seq<bv8>, base: nat, rs: seq<Reloc>, i: nat): Outcome<seq<Message>>
    requires i <= |rs| && InView(binary, base, rs)
    decreases |rs| - i
  {
    if i == |rs| then Ok([])
    else match RelocEventAtAsWritten(binary, base, rs, i)
      case Throws(f) => Throws(f)
      case Ok(ms) =>
        match RelocEventsAsWritten(binary, base, rs, i + 1)
        case Throws(f) => Throws(f)
        case Ok(rest) => Ok(ms + rest)
  }

  /** The loop as written throws exactly when the sorted list starts with a
      lo16; otherwise it posts what the corrected loop posts. */
  lemma {:induction false} AsWrittenThrowsOnLeadingLo(binary: seq<bv8>, base: nat, rs: seq<Reloc>, i: nat)
    requires i <= |rs| && InView(binary, base, rs)
    ensures RelocEventsAsWritten(binary, base, rs, i) ==
      if i == 0 && |rs| > 0 && rs[0].kind == Lo16 then Throws(TypeError) else Ok(RelocEvents(binary, base, rs, i))
    decreases |rs| - i
  {
    if i < |rs| {
      AsWrittenThrowsOnLeadingLo(binary, base, rs, i + 1);
    }
  }

  /** A signature whose only relocation is a lo16 at offset 0: the loop as
      written throws, the corrected one posts nothing. */
  lemma LeadingLoCounterexample()
    ensures var rs := [Reloc(Lo16, "sym", 0)];
      RelocEventsAsWritten([0, 0, 0, 0], 0, rs, 0) == Throws(TypeError)
      && RelocEvents([0, 0, 0, 0], 0, rs, 0) == []
  {
    var rs := [Reloc(Lo16, "sym", 0)];
    assert !PairedLo(rs, 0);
  }

  // ---------------------------------------------------------------------
  // readStrippedOpcode and testSymbol.

  /** `readStrippedOpcode`: a fresh copy of the four bytes at `offset`,
      stripped in place; `binary` itself is only read. */
  method ReadStrippedOpcode(binary: seq<bv8>, offset: nat, kind: RelocKind) returns (opcode: array<bv8>)
    requires offset + 4 <= |binary|
    ensures fresh(opcode) && opcode.Length == 4
    ensures opcode[..] == Stripped(binary[offset..offset + 4], kind)
  {
    opcode := new bv8[4];
    opcode[0], opcode[1], opcode[2], opcode[3] := binary[offset], binary[offset + 1], binary[offset + 2], binary[offset + 3];
    match kind
    case Targ26 =>
      opcode[0] := opcode[0] & 0xFC;
      opcode[1] := 0x00;
      opcode[2] := 0x00;
      opcode[3] := 0x00;
    case Hi16 =>
      opcode[2] := 0x00;
      opcode[3] := 0x00;
    case Lo16 =>
      opcode[2] := 0x00;
      opcode[3] := 0x00;
    case Other(_) =>
  }

  /** The nested loops that flatten the relocation groups. */
  method FlattenRelocs(groups: seq<RelocGroup>) returns (relocs: seq<Reloc>)
    ensures relocs == Flatten(groups)
  {
    relocs := [];
    for g := 0 to |groups|
      invariant relocs == Flatten(groups[..g])
    {
      var group := groups[g];
      for k := 0 to |group.offsets|
        invariant relocs == Flatten(groups[..g]) + Expand(group)[..k]
      {
        relocs := relocs + [Reloc(group.kind, group.name, group.offsets[k])];
      }
      assert groups[..g + 1][..g] == groups[..g];
    }
    assert groups[..|groups|] == groups;
  }

  /** The cursor of `testSymbol`'s loops: `n` relocations and `pos` bytes
      of the body consumed, `fed` the part of the stripped stream `canon`
      read so far, and the rest of `canon` still the stream from `pos`. */
  ghost predicate Cursor(body: seq<bv8>, canon: seq<bv8>, rs: seq<Reloc>, n: nat, pos: nat, fed: seq<bv8>) {
    n <= |rs| && |canon| == |body| && Spaced(rs[n..], pos, |body|)
    && canon[pos..] == Stream(body, rs[n..], pos) && fed == canon[..pos]
  }

  /** Nothing read yet. */
  lemma CursorStart(body: seq<bv8>, canon: seq<bv8>, rs: seq<Reloc>)
    requires Spaced(rs, 0, |body|) && canon == Stream(body, rs, 0)
    ensures Cursor(body, canon, rs, 0, 0, [])
  {
    assert rs[0..] == rs;
    assert canon[0..] == canon;
  }

  /** The next relocated word lies between the cursor and the end. */
  lemma CursorNext(body: seq<bv8>, canon: seq<bv8>, rs: seq<Reloc>, n: nat, pos: nat, fed: seq<bv8>)
    requires Cursor(body, canon, rs, n, pos, fed) && n < |rs|
    ensures pos <= rs[n].offset && rs[n].offset + 4 <= |body|
  {
    SpacedAt(rs[n..], pos, |body|, 0);
  }

  /** Reading plain bytes up to `p`, not past the next relocated word. */
  lemma CursorPlain(body: seq<bv8>, canon: seq<bv8>, rs: seq<Reloc>, n: nat, pos: nat, fed: seq<bv8>, p: nat)
    requires Cursor(body, canon, rs, n, pos, fed) && pos <= p <= |body|
    requires n < |rs| ==> p <= rs[n].offset
    ensures Cursor(body, canon, rs, n, p, fed + body[pos..p])
  {
    Advance(body, canon, rs[n..], pos, p);
  }

  /** Reading the relocated word at the cursor, stripped. */
  lemma CursorStripped(body: seq<bv8>, canon: seq<bv8>, rs: seq<Reloc>, n: nat, pos: nat, fed: seq<bv8>)
    requires Cursor(body, canon, rs, n, pos, fed) && n < |rs| && rs[n].offset == pos
    ensures pos + 4 <= |body|
    ensures Cursor(body, canon, rs, n + 1, pos + 4, fed + Stripped(body[pos..pos + 4], rs[n].kind))
  {
    StripAt(body, canon, rs, n, pos);
  }

  /** At the end of the body, everything read is the whole stream. */
  lemma CursorEnd(body: seq<bv8>, canon: seq<bv8>, rs: seq<Reloc>, n: nat, fed: seq<bv8>)
    requires Cursor(body, canon, rs, n, |body|, fed)
    ensures fed == canon
  {
  }

  /** Moving the cursor over plain bytes: the stream consumed so far grows
      by the body's own bytes. */
  lemma Advance(body: seq<bv8>, canon: seq<bv8>, rs: seq<Reloc>, pos: nat, p: nat)
    requires |canon| == |body| && Spaced(rs, pos, |body|) && pos <= p <= |body|
    requires rs != [] ==> p <= rs[0].offset
    requires canon[pos..] == Stream(body, rs, pos)
    ensures Spaced(rs, p, |body|)
    ensures canon[p..] == Stream(body, rs, p)
    ensures canon[..p] == canon[..pos] + body[pos..p]
  {
    hide Stream, Spaced;
    StreamSkip(body, rs, pos, p);
    assert canon[pos..] == canon[pos..p] + canon[p..];
    assert canon[..p] == canon[..pos] + canon[pos..p];
  }

  /** Moving the cursor over a relocated word: the stream consumed so far
      grows by the stripped word. */
  lemma StripAt(body: seq<bv8>, canon: seq<bv8>, rs: seq<Reloc>, n: nat, pos: nat)
    requires |canon| == |body| && n < |rs| && rs[n].offset == pos
    requires Spaced(rs[n..], pos, |body|)
    requires canon[pos..] == Stream(body, rs[n..], pos)
    ensures pos + 4 <= |body|
    ensures Spaced(rs[n + 1..], pos + 4, |body|)
    ensures canon[pos + 4..] == Stream(body, rs[n + 1..], pos + 4)
    ensures canon[..pos + 4] == canon[..pos] + Stripped(body[pos..pos + 4], rs[n].kind)
  {
    StreamHead(body, rs, n, pos);
    hide Stream, Stripped, Spaced;
    var c := canon[pos..];
    SplitWord(c, Stripped(body[pos..pos + 4], rs[n].kind), Stream(body, rs[n + 1..], pos + 4));
    assert canon[pos..pos + 4] == c[..4];
    assert canon[pos + 4..] == c[4..];
    assert canon[..pos + 4] == canon[..pos] + canon[pos..pos + 4];
  }

  /** The stream at a relocated word: its stripped form, then the rest. */
  lemma StreamHead(body: seq<bv8>, rs: seq<Reloc>, n: nat, pos: nat)
    requires n < |rs| && rs[n].offset == pos
    requires Spaced(rs[n..], pos, |body|)
    ensures pos + 4 <= |body|
    ensures Spaced(rs[n + 1..], pos + 4, |body|)
    ensures Stream(body, rs[n..], pos) == Stripped(body[pos..pos + 4], rs[n].kind) + Stream(body, rs[n + 1..], pos + 4)
  {
    var t := rs[n..];
    assert t[0] == rs[n] && t[1..] == rs[n + 1..];
    var w := Stripped(body[pos..pos + 4], rs[n].kind);
    assert Stream(body, t, pos) == body[pos..pos] + w + Stream(body, t[1..], pos + 4);
    hide Stream, Stripped;
    assert body[pos..pos] + w == w;
  }

  /** A sequence that is a word followed by a rest splits back into them. */
  lemma SplitWord(c: seq<bv8>, w: seq<bv8>, rest: seq<bv8>)
    requires |w| == 4 && c == w + rest
    ensures c[..4] == w && c[4..] == rest
  {
  }

  /** A relocated word that starts below the `crcA` limit ends at or below
      it. */
  lemma WordBelowLimit(o: nat, size: nat)
    requires o % 4 == 0 && o + 4 <= size && o < Min(size, 8)
    ensures o + 4 <= Min(size, 8)
  {
  }

  /** Relocated words start on word boundaries. */
  predicate Aligned(relocs: seq<Reloc>) {
    forall i :: 0 <= i < |relocs| ==> relocs[i].offset % 4 == 0
  }

  /** A range of the candidate's body is a range of the binary. */
  lemma BodyRange(binary: seq<bv8>, offset: nat, size: nat, body: seq<bv8>, a: nat, b: nat)
    requires offset + size <= |binary| && body == binary[offset..offset + size] && a <= b <= size
    ensures binary[offset + a..offset + b] == body[a..b]
  {
    assert forall i :: 0 <= i < b - a ==> body[a..b][i] == body[a + i] == binary[offset + a + i];
  }

  /** `crc.read(binary, offset + a, b - a)`: the body's bytes `a` to `b`
      folded onto what `crc` has read so far. */
  method ReadBody(crc: Crc32, binary: seq<bv8>, offset: nat, size: nat, a: nat, b: nat,
                  ghost body: seq<bv8>, ghost fed: seq<bv8>)
    requires offset + size <= |binary| && body == binary[offset..offset + size] && a <= b <= size
    requires Folded(crc, fed)
    modifies crc
    ensures Folded(crc, fed + body[a..b])
  {
    BodyRange(binary, offset, size, body, a, b);
    UpdateAppend(INIT, fed, body[a..b]);
    crc.Read(binary, offset + a, b - a);
  }

  /** `readStrippedOpcode(binary, offset + pos, kind)` followed by
      `crc.read(opcode, 0, 4)`: the stripped word at `pos` folded onto
      what `crc` has read so far. */
  method ReadStrippedWord(crc: Crc32, binary: seq<bv8>, offset: nat, size: nat, pos: nat, kind: RelocKind,
                          ghost body: seq<bv8>, ghost fed: seq<bv8>)
    returns (opcode: array<bv8>)
    requires offset + size <= |binary| && body == binary[offset..offset + size] && pos + 4 <= size
    requires Folded(crc, fed)
    modifies crc
    ensures fresh(opcode) && opcode.Length == 4
    ensures opcode[..] == Stripped(body[pos..pos + 4], kind)
    ensures Folded(crc, fed + opcode[..])
  {
    opcode := ReadStrippedOpcode(binary, offset + pos, kind);
    BodyRange(binary, offset, size, body, pos, pos + 4);
    assert opcode[..][0..4] == opcode[..];
    UpdateAppend(INIT, fed, opcode[..]);
    crc.Read(opcode[..], 0, 4);
  }

  /** `crc.read(opcode, 0, 4)` for a word already stripped. */
  method ReadWord(crc: Crc32, opcode: array<bv8>, ghost fed: seq<bv8>)
    requires opcode.Length == 4 && Folded(crc, fed)
    modifies crc
    ensures Folded(crc, fed + opcode[..])
  {
    assert opcode[..][0..4] == opcode[..];
    UpdateAppend(INIT, fed, opcode[..]);
    crc.Read(opcode[..], 0, 4);
  }

  /** One pass of the first loop of `testSymbol`: both checksums read
      either the plain bytes up to the next relocated word (or the `crcA`
      limit), or that word stripped. */
  method PrefixStep(binary: seq<bv8>, offset: nat, size: nat, relocs: seq<Reloc>, crcA: Crc32, crcB: Crc32,
                    crcALimit: nat, nReloc: nat, fnOffset: nat, ghost body: seq<bv8>, ghost canon: seq<bv8>, ghost fed: seq<bv8>)
    returns (nReloc': nat, fnOffset': nat, ghost fed': seq<bv8>)
    requires offset + size <= |binary| && body == binary[offset..offset + size] && Aligned(relocs)
    requires crcALimit == Min(size, 8) && fnOffset < crcALimit && nReloc < |relocs|
    requires Cursor(body, canon, relocs, nReloc, fnOffset, fed)
    requires crcA != crcB && Folded(crcA, fed) && Folded(crcB, fed)
    modifies crcA, crcB
    ensures fnOffset < fnOffset' <= crcALimit && Cursor(body, canon, relocs, nReloc', fnOffset', fed')
    ensures Folded(crcA, fed') && Folded(crcB, fed')
  {
    hide Update;
    CursorNext(body, canon, relocs, nReloc, fnOffset, fed);
    if fnOffset < relocs[nReloc].offset {
      var length := Min(relocs[nReloc].offset, crcALimit) - fnOffset;
      CursorPlain(body, canon, relocs, nReloc, fnOffset, fed, fnOffset + length);
      ReadBody(crcA, binary, offset, size, fnOffset, fnOffset + length, body, fed);
      ReadBody(crcB, binary, offset, size, fnOffset, fnOffset + length, body, fed);
      nReloc', fnOffset', fed' := nReloc, fnOffset + length, fed + body[fnOffset..fnOffset + length];
    } else {
      CursorStripped(body, canon, relocs, nReloc, fnOffset, fed);
      var opcode := ReadStrippedWord(crcA, binary, offset, size, fnOffset, relocs[nReloc].kind, body, fed);
      ReadWord(crcB, opcode, fed);
      assert relocs[nReloc].offset % 4 == 0;
      WordBelowLimit(fnOffset, size);
      nReloc', fnOffset', fed' := nReloc + 1, fnOffset + 4, fed + opcode[..];
    }
  }

  /** The `crcA` stage of `testSymbol`: both checksums read the stripped
      stream of the candidate's body up to `min(size, 8)`. */
  method PrefixStage(binary: seq<bv8>, offset: nat, size: nat, relocs: seq<Reloc>, crcA: Crc32, crcB: Crc32,
                     ghost body: seq<bv8>, ghost canon: seq<bv8>)
    returns (nReloc: nat, fnOffset: nat, ghost fed: seq<bv8>)
    requires offset + size <= |binary| && body == binary[offset..offset + size] && Aligned(relocs)
    requires Cursor(body, canon, relocs, 0, 0, [])
    requires crcA != crcB && Folded(crcA, []) && Folded(crcB, [])
    modifies crcA, crcB
    ensures fnOffset == Min(size, 8) && Cursor(body, canon, relocs, nReloc, fnOffset, fed)
    ensures fed == canon[..Min(size, 8)]
    ensures Folded(crcA, fed) && Folded(crcB, fed)
  {
    hide Update;
    nReloc := 0;
    fnOffset := 0;
    fed := [];
    var crcALimit := Min(size, 8);

    while fnOffset < crcALimit && nReloc < |relocs|
      invariant fnOffset <= crcALimit
      invariant Cursor(body, canon, relocs, nReloc, fnOffset, fed)
      invariant Folded(crcA, fed) && Folded(crcB, fed)
      decreases crcALimit - fnOffset
    {
      nReloc, fnOffset, fed := PrefixStep(binary, offset, size, relocs, crcA, crcB, crcALimit, nReloc, fnOffset, body, canon, fed);
    }

    if fnOffset < crcALimit {
      CursorPlain(body, canon, relocs, nReloc, fnOffset, fed, crcALimit);
      ReadBody(crcA, binary, offset, size, fnOffset, crcALimit, body, fed);
      ReadBody(crcB, binary, offset, size, fnOffset, crcALimit, body, fed);
      fed := fed + body[fnOffset..crcALimit];
      fnOffset := crcALimit;
    }
  }

  /** One pass of the second loop of `testSymbol`: `crcB` reads either the
      plain bytes up to the next relocated word, or that word stripped. */
  method BodyStep(binary: seq<bv8>, offset: nat, size: nat, relocs: seq<Reloc>, crcB: Crc32,
                  nReloc: nat, fnOffset: nat, ghost body: seq<bv8>, ghost canon: seq<bv8>, ghost fed: seq<bv8>)
    returns (nReloc': nat, fnOffset': nat, ghost fed': seq<bv8>)
    requires offset + size <= |binary| && body == binary[offset..offset + size]
    requires fnOffset < size && nReloc < |relocs|
    requires Cursor(body, canon, relocs, nReloc, fnOffset, fed) && Folded(crcB, fed)
    modifies crcB
    ensures fnOffset < fnOffset' && Cursor(body, canon, relocs, nReloc', fnOffset', fed')
    ensures Folded(crcB, fed')
  {
    hide Update;
    CursorNext(body, canon, relocs, nReloc, fnOffset, fed);
    if fnOffset < relocs[nReloc].offset {
      var o := relocs[nReloc].offset;
      CursorPlain(body, canon, relocs, nReloc, fnOffset, fed, o);
      ReadBody(crcB, binary, offset, size, fnOffset, o, body, fed);
      nReloc', fnOffset', fed' := nReloc, o, fed + body[fnOffset..o];
    } else {
      CursorStripped(body, canon, relocs, nReloc, fnOffset, fed);
      var opcode := ReadStrippedWord(crcB, binary, offset, size, fnOffset, relocs[nReloc].kind, body, fed);
      nReloc', fnOffset', fed' := nReloc + 1, fnOffset + 4, fed + opcode[..];
    }
  }

  /** The `crcB` stage of `testSymbol`: `crcB` reads the rest of the
      stripped stream. */
  method BodyStage(binary: seq<bv8>, offset: nat, size: nat, relocs: seq<Reloc>, crcB: Crc32,
                   nReloc0: nat, fnOffset0: nat, ghost body: seq<bv8>, ghost canon: seq<bv8>, ghost fed0: seq<bv8>)
    requires offset + size <= |binary| && body == binary[offset..offset + size]
    requires Cursor(body, canon, relocs, nReloc0, fnOffset0, fed0) && Folded(crcB, fed0)
    modifies crcB
    ensures Folded(crcB, canon)
  {
    hide Update;
    var nReloc: nat, fnOffset: nat := nReloc0, fnOffset0;
    ghost var fed := fed0;

    while fnOffset < size && nReloc < |relocs|
      invariant Cursor(body, canon, relocs, nReloc, fnOffset, fed) && Folded(crcB, fed)
      decreases size - fnOffset
    {
      nReloc, fnOffset, fed := BodyStep(binary, offset, size, relocs, crcB, nReloc, fnOffset, body, canon, fed);
    }

    if fnOffset < size {
      CursorPlain(body, canon, relocs, nReloc, fnOffset, fed, size);
      ReadBody(crcB, binary, offset, size, fnOffset, size, body, fed);
      fed := fed + body[fnOffset..size];
      fnOffset := size;
    }
    CursorEnd(body, canon, relocs, nReloc, fed);
  }

  /** Where `testSymbol` starts on a well-formed signature: nothing read,
      and every relocated word inside the body. */
  lemma SignatureStart(binary: seq<bv8>, offset: nat, sig: Signature)
    requires offset + sig.size <= |binary| && WellFormed(sig)
    ensures Aligned(SortedRelocs(sig)) && InView(binary, offset, SortedRelocs(sig))
    ensures Cursor(Body(binary, offset, sig), Canonical(binary, offset, sig), SortedRelocs(sig), 0, 0, [])
  {
    WellFormedSpaced(sig);
    CursorStart(Body(binary, offset, sig), Canonical(binary, offset, sig), SortedRelocs(sig));
  }

  /** A signature without relocation groups has nothing to report. */
  lemma NoGroupsNoEvents(binary: seq<bv8>, offset: nat, sig: Signature)
    requires sig.relocs == []
    ensures SortedRelocs(sig) == [] && RelocEvents(binary, offset, SortedRelocs(sig), 0) == []
  {
  }

  /** The verdict on a signature with relocation groups, in terms of the
      canonical stream. */
  lemma RelocatedVerdict(binary: seq<bv8>, offset: nat, sig: Signature)
    requires offset + sig.size <= |binary| && WellFormed(sig) && sig.relocs != []
    ensures |Canonical(binary, offset, sig)| == sig.size
    ensures Matches(binary, offset, sig) <==>
      Checksum(Canonical(binary, offset, sig)[..Min(sig.size, 8)]) == sig.crcA && Checksum(Canonical(binary, offset, sig)) == sig.crcB
  {
  }

  /** One pass of the reporting loop of `testSymbol`: the message posted
      for `relocs[i]`, if any; `binary` is read through a DataView starting
      at `offset`. */
  method RelocMessage(binary: seq<bv8>, offset: nat, relocs: seq<Reloc>, i: nat) returns (ms: seq<Message>)
    requires i < |relocs| && InView(binary, offset, relocs)
    ensures ms == RelocEventAt(binary, offset, relocs, i)
  {
    ms := [];
    if relocs[i].kind == Targ26 {
      var jal := Uint32(binary, offset + relocs[i].offset);
      ms := [RelocResultMsg(relocs[i].name, Targ26Address(jal))];
    } else if PairedLo(relocs, i) {
      var hi16 := Uint16(binary, offset + relocs[i - 1].offset + 2);
      var lo16 := Int16(binary, offset + relocs[i].offset + 2);
      ms := [RelocResultMsg(relocs[i].name, HiLoAddress(hi16, lo16))];
    }
  }

  /** The reporting loop of `testSymbol`, run on a `crcB` match. */
  method ReportRelocs(binary: seq<bv8>, offset: nat, relocs: seq<Reloc>) returns (posted: seq<Message>)
    requires InView(binary, offset, relocs)
    ensures posted == RelocEvents(binary, offset, relocs, 0)
  {
    hide RelocEventAt;
    posted := [];
    for i := 0 to |relocs|
      invariant posted + RelocEvents(binary, offset, relocs, i) == RelocEvents(binary, offset, relocs, 0)
    {
      var ms := RelocMessage(binary, offset, relocs, i);
      assert posted + RelocEvents(binary, offset, relocs, i) == (posted + ms) + RelocEvents(binary, offset, relocs, i + 1);
      posted := posted + ms;
    }
  }



  /** `testSymbol(binary, offset, symbol)`: whether the signature matches
      the code at `offset`, and the `reloc_result` messages posted on a
      match. */
  method TestSymbol(binary: seq<bv8>, offset: nat, sig: Signature) returns (matched: bool, posted: seq<Message>)
    requires offset + sig.size <= |binary|
    requires WellFormed(sig)
    ensures matched == Matches(binary, offset, sig)
    ensures posted == if matched then RelocEvents(binary, offset, SortedRelocs(sig), 0) else []
  {
    var crcA := new Crc32();
    var crcB := new Crc32();
    if sig.relocs == [] {
      matched := TestUnrelocated(binary, offset, sig, crcA, crcB);
      NoGroupsNoEvents(binary, offset, sig);
      return matched, [];
    }
    matched, posted := TestRelocated(binary, offset, sig, crcA, crcB);
  }

  /** The shortcut of `testSymbol` for a signature without relocation
      groups: both checksums read the raw body, only `crcB` decides. */
  method TestUnrelocated(binary: seq<bv8>, offset: nat, sig: Signature, crcA: Crc32, crcB: Crc32) returns (matched: bool)
    requires offset + sig.size <= |binary| && WellFormed(sig) && sig.relocs == []
    requires crcA != crcB && Folded(crcA, []) && Folded(crcB, [])
    modifies crcA, crcB
    ensures matched == Matches(binary, offset, sig)
  {
    hide Update;
    ghost var body := Body(binary, offset, sig);
    ReadBody(crcA, binary, offset, sig.size, 0, Min(sig.size, 8), body, []);
    ReadBody(crcB, binary, offset, sig.size, 0, sig.size, body, []);
    assert [] + body[0..sig.size] == body;
    matched := crcB.result == sig.crcB;
  }

  /** The two-stage comparison of `testSymbol` over the stripped stream,
      and the report on a match. */
  method TestRelocated(binary: seq<bv8>, offset: nat, sig: Signature, crcA: Crc32, crcB: Crc32)
    returns (matched: bool, posted: seq<Message>)
    requires offset + sig.size <= |binary| && WellFormed(sig) && sig.relocs != []
    requires crcA != crcB && Folded(crcA, []) && Folded(crcB, [])
    modifies crcA, crcB
    ensures matched == Matches(binary, offset, sig)
    ensures posted == if matched then RelocEvents(binary, offset, SortedRelocs(sig), 0) else []
  {
    hide Update, Stream, Spaced, Cursor, RelocEvents, SortByOffset, Flatten;
    hide Matches, Canonical, Checksum, WellFormed, Folded, InView, Aligned;
    var relocs := FlattenRelocs(sig.relocs);
    relocs := SortByOffset(relocs);

    ghost var body := Body(binary, offset, sig);
    ghost var canon := Canonical(binary, offset, sig);
    SignatureStart(binary, offset, sig);
    RelocatedVerdict(binary, offset, sig);
    var nReloc, fnOffset, fed := PrefixStage(binary, offset, sig.size, relocs, crcA, crcB, body, canon);
    FoldedResult(crcA, fed);
    if crcA.result != sig.crcA {
      return false, [];
    }
    BodyStage(binary, offset, sig.size, relocs, crcB, nReloc, fnOffset, body, canon, fed);
    FoldedResult(crcB, canon);
    if crcB.result == sig.crcB {
      posted := ReportRelocs(binary, offset, relocs);
      return true, posted;
    }
    return false, [];
  }

  // ---------------------------------------------------------------------
  // The scan loop of one worker.

  /** The offsets from `o` on, in steps of four, strictly below `limit`. */
  function ThoroughFrom(o: nat, limit: int): (os: seq<nat>)
    ensures forall i :: 0 <= i < |os| ==> o <= os[i] < limit && (os[i] - o) % 4 == 0
    decreases limit - o
  {
    if o < limit then [o] + ThoroughFrom(o + 4, limit) else []
  }

  /** The offsets thorough mode tries for a body of `size` bytes in a
      buffer of `len` bytes. */
  function ThoroughOffsets(len: nat, size: nat): seq<nat> {
    ThoroughFrom(0, len - size)
  }

  /** Every word-aligned `x` between `o` and `limit` is tried. */
  lemma {:induction false} ThoroughFromHas(o: nat, limit: int, x: nat)
    requires o <= x < limit && (x - o) % 4 == 0
    ensures x in ThoroughFrom(o, limit)
    decreases x - o
  {
    if x != o {
      ThoroughFromHas(o + 4, limit, x);
    }
  }

  /** Thorough mode tries exactly the word-aligned offsets whose body ends
      before the last byte of the buffer: the body that ends exactly at the
      end of the buffer is never tried. */
  lemma ThoroughOffsetsMembers(len: nat, size: nat, x: nat)
    ensures x in ThoroughOffsets(len, size) <==> x % 4 == 0 && x + size < len
  {
    if x % 4 == 0 && x + size < len {
      ThoroughFromHas(0, len - size, x);
    }
  }

  /** Every candidate leaves room for the body. */
  predicate Fits(binary: seq<bv8>, sig: Signature, cands: seq<nat>) {
    forall j :: 0 <= j < |cands| ==> cands[j] + sig.size <= |binary|
  }

  /** The first candidate, in iteration order, at which the signature
      matches. */
  function FirstMatch(binary: seq<bv8>, sig: Signature, cands: seq<nat>): Option<nat>
    requires WellFormed(sig) && Fits(binary, sig, cands)
    decreases |cands|
  {
    if cands == [] then None
    else if Matches(binary, cands[0], sig) then Some(cands[0])
    else FirstMatch(binary, sig, cands[1..])
  }

  /** No candidate matches exactly when there is no first match; a first
      match is a matching candidate with no matching candidate before it. */
  lemma {:induction false} FirstMatchSpec(binary: seq<bv8>, sig: Signature, cands: seq<nat>)
    requires WellFormed(sig) && Fits(binary, sig, cands)
    ensures FirstMatch(binary, sig, cands).None? <==>
      forall j :: 0 <= j < |cands| ==> !Matches(binary, cands[j], sig)
    ensures FirstMatch(binary, sig, cands).Some? ==>
      exists k :: 0 <= k < |cands| && cands[k] == FirstMatch(binary, sig, cands).value
        && Matches(binary, cands[k], sig)
        && forall j :: 0 <= j < k ==> !Matches(binary, cands[j], sig)
    decreases |cands|
  {
    hide Matches, WellFormed;
    if cands != [] && !Matches(binary, cands[0], sig) {
      FirstMatchSpec(binary, sig, cands[1..]);
      if FirstMatch(binary, sig, cands[1..]).Some? {
        var k :| 0 <= k < |cands[1..]| && cands[1..][k] == FirstMatch(binary, sig, cands[1..]).value
          && Matches(binary, cands[1..][k], sig)
          && forall j :: 0 <= j < k ==> !Matches(binary, cands[1..][j], sig);
        assert cands[k + 1] == cands[1..][k];
        forall j | 0 <= j < k + 1 ensures !Matches(binary, cands[j], sig) {
          if j > 0 {
            assert cands[j] == cands[1..][j - 1];
          }
        }
      } else {
        forall j | 0 <= j < |cands| ensures !Matches(binary, cands[j], sig) {
          if j > 0 {
            assert cands[j] == cands[1..][j - 1];
          }
        }
      }
    }
  }

  /** The messages one signature's search posts: on the first match, its
      `reloc_result` messages and then its `result`. */
  function MatchEvents(binary: seq<bv8>, sig: Signature, cands: seq<nat>): seq<Message>
    requires WellFormed(sig) && Fits(binary, sig, cands)
  {
    match FirstMatch(binary, sig, cands)
    case None => []
    case Some(c) =>
      FirstMatchSpec(binary, sig, cands);
      SignatureStart(binary, c, sig);
      RelocEvents(binary, c, SortedRelocs(sig), 0) + [ResultMsg(sig.name, c)]
  }

  /** On a match the search posts the `reloc_result` messages and then
      one `result` naming the signature and its first matching candidate;
      otherwise it posts nothing. */
  lemma MatchEventsShape(binary: seq<bv8>, sig: Signature, cands: seq<nat>)
    requires WellFormed(sig) && Fits(binary, sig, cands)
    ensures var ms := MatchEvents(binary, sig, cands);
      match FirstMatch(binary, sig, cands)
      case None => ms == []
      case Some(c) =>
        (|ms| > 0 && ms[|ms| - 1] == ResultMsg(sig.name, c)
         && forall m :: m in ms[..|ms| - 1] ==> m.RelocResultMsg?)
  {
    var m := FirstMatch(binary, sig, cands);
    if m.Some? {
      FirstMatchSpec(binary, sig, cands);
      SignatureStart(binary, m.value, sig);
      var rs := RelocEvents(binary, m.value, SortedRelocs(sig), 0);
      RelocEventsShape(binary, m.value, SortedRelocs(sig), 0);
      var ms := rs + [ResultMsg(sig.name, m.value)];
      assert ms[..|ms| - 1] == rs;
    }
  }

  /** What the search posts, read off its first match. */
  lemma MatchEventsOf(binary: seq<bv8>, sig: Signature, cands: seq<nat>)
    requires WellFormed(sig) && Fits(binary, sig, cands)
    ensures FirstMatch(binary, sig, cands).None? ==> MatchEvents(binary, sig, cands) == []
    ensures FirstMatch(binary, sig, cands).Some? ==>
      var c := FirstMatch(binary, sig, cands).value;
      c + sig.size <= |binary| && InView(binary, c, SortedRelocs(sig))
      && MatchEvents(binary, sig, cands) == RelocEvents(binary, c, SortedRelocs(sig), 0) + [ResultMsg(sig.name, c)]
  {
    if FirstMatch(binary, sig, cands).Some? {
      FirstMatchSpec(binary, sig, cands);
      SignatureStart(binary, FirstMatch(binary, sig, cands).value, sig);
    }
  }

  /** One step of the search: nothing is found among no candidates, a
      matching head is the first match, and a head that does not match is
      skipped. */
  lemma FirstMatchCons(binary: seq<bv8>, sig: Signature, cands: seq<nat>)
    requires WellFormed(sig) && Fits(binary, sig, cands)
    ensures cands == [] ==> FirstMatch(binary, sig, cands) == None
    ensures cands != [] ==>
      (FirstMatch(binary, sig, cands) ==
       if Matches(binary, cands[0], sig) then Some(cands[0]) else FirstMatch(binary, sig, cands[1..]))
  {
  }

  /** The thorough loop for one signature: every aligned offset in turn
      until the first match. */
  method ScanThorough(binary: seq<bv8>, sig: Signature) returns (posted: seq<Message>)
    requires WellFormed(sig)
    ensures Fits(binary, sig, ThoroughOffsets(|binary|, sig.size))
    ensures posted == MatchEvents(binary, sig, ThoroughOffsets(|binary|, sig.size))
  {
    hide MatchEvents, FirstMatch, Matches, WellFormed, RelocEvents;
    ghost var limit := |binary| - sig.size;
    ghost var cands := ThoroughFrom(0, limit);
    MatchEventsOf(binary, sig, cands);
    posted := [];
    var offset: nat := 0;
    while offset < |binary| - sig.size
      invariant Fits(binary, sig, ThoroughFrom(offset, limit))
      invariant FirstMatch(binary, sig, cands) == FirstMatch(binary, sig, ThoroughFrom(offset, limit))
      decreases |binary| - sig.size - offset
    {
      assert ThoroughFrom(offset, limit)[1..] == ThoroughFrom(offset + 4, limit);
      FirstMatchCons(binary, sig, ThoroughFrom(offset, limit));
      var matched, relocPosts := TestSymbol(binary, offset, sig);
      if matched {
        posted := relocPosts + [ResultMsg(sig.name, offset)];
        return;
      }
      offset := offset + 4;
    }
    FirstMatchCons(binary, sig, ThoroughFrom(offset, limit));
  }

  /** The fast loop for one signature: the candidate offsets in order until
      the first match. */
  method ScanFast(binary: seq<bv8>, sig: Signature, offsets: seq<nat>) returns (posted: seq<Message>)
    requires WellFormed(sig) && Fits(binary, sig, offsets)
    ensures posted == MatchEvents(binary, sig, offsets)
  {
    hide MatchEvents, FirstMatch, Matches, WellFormed, RelocEvents;
    MatchEventsOf(binary, sig, offsets);
    posted := [];
    for j := 0 to |offsets|
      invariant FirstMatch(binary, sig, offsets) == FirstMatch(binary, sig, offsets[j..])
    {
      assert offsets[j..][1..] == offsets[j + 1..];
      FirstMatchCons(binary, sig, offsets[j..]);
      var matched, relocPosts := TestSymbol(binary, offsets[j], sig);
      if matched {
        posted := relocPosts + [ResultMsg(sig.name, offsets[j])];
        return;
      }
    }
    FirstMatchCons(binary, sig, offsets[|offsets|..]);
  }

  /** What a worker is started with: the shard `[sigIndex, sigIndex +
      sigCount)` of the signature list, the candidate offsets, the mode. */
  datatype WorkerData = WorkerData(binary: seq<bv8>, signatures: seq<Signature>, sigIndex: nat, sigCount: nat,
                                   offsets: seq<nat>, thorough: bool)

  /** The shard lies inside the list, its signatures are well formed, and in
      fast mode every candidate leaves room for every body. */
  predicate Scannable(w: WorkerData) {
    w.sigIndex + w.sigCount <= |w.signatures|
    && (forall i :: w.sigIndex <= i < w.sigIndex + w.sigCount ==>
          WellFormed(w.signatures[i]) && (!w.thorough ==> Fits(w.binary, w.signatures[i], w.offsets)))
  }

  /** The offsets tried for `sig`. */
  function Candidates(w: WorkerData, sig: Signature): seq<nat> {
    if w.thorough then ThoroughOffsets(|w.binary|, sig.size) else w.offsets
  }

  /** The messages posted for the first `n` signatures of the shard. */
  function ShardEvents(w: WorkerData, n: nat): seq<Message>
    requires Scannable(w) && n <= w.sigCount
  {
    if n == 0 then []
    else
      var sig := w.signatures[w.sigIndex + n - 1];
      ThoroughFitsAll(w.binary, sig);
      ShardEvents(w, n - 1) + MatchEvents(w.binary, sig, Candidates(w, sig)) + [ProgressMsg]
  }

  /** Every thorough offset leaves room for the body. */
  lemma ThoroughFitsAll(binary: seq<bv8>, sig: Signature)
    ensures Fits(binary, sig, ThoroughOffsets(|binary|, sig.size))
  {
  }

  /** Everything a worker posts. */
  function WorkerEvents(w: WorkerData): seq<Message>
    requires Scannable(w)
  {
    ShardEvents(w, w.sigCount) + [DoneMsg]
  }

  /** The worker's top-level loop (worker.js, lines 25-61). */
  method RunWorker(w: WorkerData) returns (posted: seq<Message>)
    requires Scannable(w)
    ensures posted == WorkerEvents(w)
  {
    hide MatchEvents, ThoroughOffsets, WellFormed, Fits;
    posted := [];
    for i := 0 to w.sigCount
      invariant posted == ShardEvents(w, i)
    {
      var symbol := w.signatures[w.sigIndex + i];
      var found: seq<Message>;
      if w.thorough {
        found := ScanThorough(w.binary, symbol);
      } else {
        found := ScanFast(w.binary, symbol, w.offsets);
      }
      posted := posted + found + [ProgressMsg];
    }
    posted := posted + [DoneMsg];
  }

  /** The number of `result` messages in `ms`. */
  function ResultCount(ms: seq<Message>): nat {
    if ms == [] then 0 else (if ms[0].ResultMsg? then 1 else 0) + ResultCount(ms[1..])
  }

  lemma {:induction false} ResultCountAppend(a: seq<Message>, b: seq<Message>)
    ensures ResultCount(a + b) == ResultCount(a) + ResultCount(b)
    decreases |a|
  {
    if a == [] {
      assert a + b == b;
    } else {
      assert (a + b)[0] == a[0];
      assert (a + b)[1..] == a[1..] + b;
      ResultCountAppend(a[1..], b);
    }
  }

  /** A signature's messages hold at most one `result` and no `progress`
      or `done`. */
  lemma MatchEventsCounts(binary: seq<bv8>, sig: Signature, cands: seq<nat>)
    requires WellFormed(sig) && Fits(binary, sig, cands)
    ensures ResultCount(MatchEvents(binary, sig, cands)) <= 1
    ensures ProgressMsg !in MatchEvents(binary, sig, cands) && DoneMsg !in MatchEvents(binary, sig, cands)
  {
    hide MatchEvents, FirstMatch, WellFormed, Fits, RelocEvents;
    MatchEventsShape(binary, sig, cands);
    var ms := MatchEvents(binary, sig, cands);
    if ms != [] {
      var rs := ms[..|ms| - 1];
      assert ms == rs + [ms[|ms| - 1]];
      NoResults(rs);
      ResultCountAppend(rs, [ms[|ms| - 1]]);
      assert ResultCount([ms[|ms| - 1]]) == 1;
      assert forall m :: m in ms ==> m in rs || m == ms[|ms| - 1];
    }
  }

  /** A list of `reloc_result` messages holds no `result`. */
  lemma {:induction false} NoResults(ms: seq<Message>)
    requires forall m :: m in ms ==> m.RelocResultMsg?
    ensures ResultCount(ms) == 0
  {
    if ms != [] {
      assert ms[0] in ms;
      assert forall m :: m in ms[1..] ==> m in ms;
      NoResults(ms[1..]);
    }
  }

  /** After `n` signatures: exactly `n` `progress` messages, the last
      message is one of them, no `done`, and at most `n` `result`s. */
  lemma {:induction false} ShardEventsCounts(w: WorkerData, n: nat)
    requires Scannable(w) && n <= w.sigCount
    ensures multiset(ShardEvents(w, n))[ProgressMsg] == n
    ensures multiset(ShardEvents(w, n))[DoneMsg] == 0
    ensures n > 0 ==> ShardEvents(w, n)[|ShardEvents(w, n)| - 1] == ProgressMsg
    ensures ResultCount(ShardEvents(w, n)) <= n
  {
    hide ShardEvents, MatchEvents, WellFormed, Fits, ThoroughOffsets;
    if n == 0 {
      ShardEventsStep(w, 0);
    } else {
      ShardEventsCounts(w, n - 1);
      ShardEventsStep(w, n);
      var sig := w.signatures[w.sigIndex + n - 1];
      MatchEventsCounts(w.binary, sig, Candidates(w, sig));
      AppendSignature(ShardEvents(w, n - 1), MatchEvents(w.binary, sig, Candidates(w, sig)));
    }
  }

  /** `ShardEvents` one signature at a time. */
  lemma ShardEventsStep(w: WorkerData, n: nat)
    requires Scannable(w) && n <= w.sigCount
    ensures n == 0 ==> ShardEvents(w, n) == []
    ensures n > 0 ==>
      var sig := w.signatures[w.sigIndex + n - 1];
      WellFormed(sig) && Fits(w.binary, sig, Candidates(w, sig))
      && ShardEvents(w, n) == ShardEvents(w, n - 1) + MatchEvents(w.binary, sig, Candidates(w, sig)) + [ProgressMsg]
  {
    hide MatchEvents, WellFormed, Fits, ThoroughOffsets;
    if n > 0 {
      ThoroughFitsAll(w.binary, w.signatures[w.sigIndex + n - 1]);
    }
  }

  /** Appending one signature's messages and its `progress` adds one
      `progress`, no `done`, at most one `result`, and ends in `progress`. */
  lemma AppendSignature(prev: seq<Message>, ms: seq<Message>)
    requires ProgressMsg !in ms && DoneMsg !in ms && ResultCount(ms) <= 1
    ensures multiset(prev + ms + [ProgressMsg])[ProgressMsg] == multiset(prev)[ProgressMsg] + 1
    ensures multiset(prev + ms + [ProgressMsg])[DoneMsg] == multiset(prev)[DoneMsg]
    ensures ResultCount(prev + ms + [ProgressMsg]) <= ResultCount(prev) + 1
  {
    var all := prev + ms + [ProgressMsg];
    assert multiset(ms)[ProgressMsg] == 0 && multiset(ms)[DoneMsg] == 0;
    assert multiset(all) == multiset(prev) + multiset(ms) + multiset{ProgressMsg};
    ResultCountAppend(prev, ms);
    ResultCountAppend(prev + ms, [ProgressMsg]);
  }

  /** A worker posts exactly one `progress` per signature of its shard, at
      most one `result` per signature, and exactly one `done`, last. */
  lemma WorkerEventsCounts(w: WorkerData)
    requires Scannable(w)
    ensures multiset(WorkerEvents(w))[ProgressMsg] == w.sigCount
    ensures multiset(WorkerEvents(w))[DoneMsg] == 1
    ensures WorkerEvents(w)[|WorkerEvents(w)| - 1] == DoneMsg
    ensures ResultCount(WorkerEvents(w)) <= w.sigCount
  {
    ShardEventsCounts(w, w.sigCount);
    ResultCountAppend(ShardEvents(w, w.sigCount), [DoneMsg]);
  }
}
