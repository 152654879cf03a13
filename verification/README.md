# node64sym in Dafny

node64sym finds known library functions in a stripped Nintendo 64 ROM
image. Each signature records a function's size and two CRC-32
fingerprints:

- `crcA` covers the first `min(size, 8)` bytes;
- `crcB` covers the whole body;
- the relocation list names the instruction words whose link-time fields
  vary (R_MIPS_26, R_MIPS_HI16 and R_MIPS_LO16 of the System V ABI MIPS
  Processor Supplement, section "Relocation").

Those words are checksummed with their variable bits masked off. A
coordinator first normalises the image's byte order and resolves the
entry point from the boot code. It then collects offsets that look like
function starts, splits the signature list among worker threads, and
merges the results the workers post back into one list, deduplicated and
sorted by resolved address.

This project models that core in four files:

- **`base.dfy`** holds the JavaScript exceptions the code can raise
  (`Outcomes`) and the DataView reads it uses (`DataView`).
- **`crc32.dfy`** (module `Crc`) models `crc32.js`:
  - a bitwise reference definition of the table;
  - the table-driven byte step and the fold of a byte sequence;
  - the stateful `CRC32` object as a class with `crc` and `result`
    fields;
  - the table-building loop;
  - the one-shot `crc32`.
- **`worker.dfy`** (module `Matcher`) models `worker.js`:
  - relocation records and their stripping;
  - the two cursor loops of `testSymbol`, as methods over two `Crc32`
    objects, proved to checksum exactly the canonical stream (the body
    with every relocated word stripped);
  - recovery of jump and hi/lo addresses;
  - the per-signature scan loop in thorough and fast mode;
  - a whole worker run.

  Messages a worker posts are returned as a sequence.
- **`n64sym.dfy`** (module `Coordinator`) models `n64sym.js` as the class
  `N64Sym`, with the source's fields:
  - in-place byte-order normalisation of an `array<bv8>`;
  - entry-point and boot-chip resolution;
  - candidate offset collection, with the unbounded `jr ra` lookahead;
  - contiguous sharding of the signature list;
  - the ordered, deduplicated result list;
  - the message handlers, run over any interleaving of the workers'
    messages.

Where the code and its design description disagree, the model follows
the code, except for two defects listed under Findings:

- the halfword-swapped image;
- a signature whose first relocation is a `lo16`.

For these two, the as-written members follow the code, and the rest of
the model (`Scan`, `TestSymbol`) uses the corrected behaviour.

The model also follows the code in two places where the design
description says otherwise:

- for a `targ26` relocation, `readStrippedOpcode` masks the first byte
  with 0xFC (worker.js:67-69), which keeps its high 6 bits, the opcode;
  the design speaks of keeping the low 6 bits. `Matcher.Mask` keeps the
  high 6 bits, as the code does;
- thorough mode tries offsets `offset < byteLength - size`
  (worker.js:29-33), so a function ending exactly at the end of the
  image is never tried; the design speaks of every 4-byte offset.
  `Matcher.ThoroughOffsetsMembers` states the code's bound.

## Model

| member | source | states |
|---|---|---|
| DataView.Uint32 | n64sym.js:121 | `getUint32` is big-endian: its top byte is the byte at `o`, its low byte the byte at `o + 3` |
| DataView.Int16 | n64sym.js:136 | `getInt16` is negative exactly when the top bit of its first byte is set, and agrees with the unsigned halfword modulo 2^16 |
| Crc.BuildTable | crc32.js:13-27 | the table has 256 entries; entry `i` is `i` after eight reflected shift/xor rounds with 0xEDB88320, a 32-bit value |
| Crc.StandardTableEntries | crc32.js:13-27 | entries 0x01, 0x80 and 0xFF of the table are those of the IEEE 802.3 CRC-32 table |
| Crc.CheckValue | crc32.js:6-11 | the checksum of "123456789" is 0xCBF43926, the standard CRC-32 check value |
| Crc.UpdateAppend | crc32.js:33-38 | reading `a` then `b` gives the state of reading `a + b`, so consecutive reads compose |
| Crc.UpdateSnoc | crc32.js:34-37 | one pass of the read loop applies one table step to the state |
| Crc.Crc32.constructor | crc32.js:1-4 | a new object has state 0xFFFFFFFF and result 0, having read nothing |
| Crc.Crc32.Reset | crc32.js:29-31 | `reset` sets the state to 0xFFFFFFFF and leaves `result` as it was |
| Crc.Crc32.Read | crc32.js:33-40 | after `read` the state has folded in exactly the bytes `offs` to `offs + length`, and `result` is its 32-bit complement; a zero-length read leaves the state unchanged |
| Crc.Crc32Of | crc32.js:6-11 | `crc32(arr, offs, size)` is the checksum of that range |
| Matcher.StrippedIsMasked | worker.js:63-80 | the stripped bytes read as the word under the kind's mask: 0xFC000000 for targ26, 0xFFFF0000 for hi16 and lo16, all bits otherwise |
| Matcher.StrippedEqualIff | worker.js:67-77 | two words strip alike exactly when they agree outside the relocated field: the low 26 bits for targ26, the low 16 for hi16 and lo16 |
| Matcher.ReadStrippedOpcode | worker.js:63-81 | returns a fresh 4-byte array holding the stripped word; an unknown kind returns the bytes unchanged, and the binary is not modified |
| Matcher.FlattenRelocs | worker.js:93-103 | the flattened list holds one record per offset of every group, and nothing else |
| Matcher.InsertSorted | worker.js:104 | inserting a record into a list sorted by offset keeps it sorted |
| Matcher.SortSorted | worker.js:104 | the sort yields a list sorted by offset (and, by its own contract, a permutation of its input) |
| Matcher.StreamOutside | worker.js:106-164 | outside every relocated word, the checksummed stream carries the binary's own byte |
| Matcher.StreamInside | worker.js:106-164 | inside a relocated word, the stream carries the stripped word's byte |
| Matcher.PrefixStage | worker.js:106-137 | the first cursor loop feeds both checksums exactly the first `min(size, 8)` bytes of the canonical stream |
| Matcher.BodyStage | worker.js:143-164 | the second cursor loop completes `crcB` over the whole canonical stream |
| Matcher.TestUnrelocated | worker.js:87-91 | without relocation groups the verdict is `crcB` of the raw body alone; `crcA` is computed but not compared |
| Matcher.TestRelocated | worker.js:93-197 | the verdict is `Matches`; on a match, the posted messages are the relocation results, and otherwise nothing |
| Matcher.TestSymbol | worker.js:83-198 | `testSymbol` returns `Matches(binary, offset, sig)` and posts relocation results only on a match |
| Matcher.Targ26Address | worker.js:170-172 | a jump target is word-aligned and lies in 0x80000000 to 0x8FFFFFFC |
| Matcher.JalTarget | worker.js:171-172 | for a `jal` with field `f`, the target is 0x80000000 + 4f |
| Matcher.HiLoAddress | worker.js:184-186 | the hi/lo address is an unsigned 32-bit value |
| Matcher.HiLoIsAhl | worker.js:184-186 | the hi/lo address is `(hi << 16) + lo` modulo 2^32, with `lo` signed |
| Matcher.HiLoExamples | worker.js:184-186 | hi 0x8010 with lo 0x2000 gives 0x80102000; a negative lo borrows from hi |
| Matcher.RelocEventsShape | worker.js:169-194 | at most one message per relocation, each a `reloc_result` below 2^32 naming one of the relocations' symbols |
| Matcher.AsWrittenThrowsOnLeadingLo | worker.js:179-183 | the loop as written throws a TypeError exactly when the first sorted relocation is a lo16, and otherwise posts what the corrected loop posts |
| Matcher.LeadingLoCounterexample | worker.js:179-183 | a single leading lo16 throws as written, where the corrected loop posts nothing |
| Matcher.RelocMessage | worker.js:170-194 | one pass of the message loop posts, for relocation `i`: a targ26 its jump target; a lo16 paired with the hi16 just before it for the same symbol their combined address; anything else nothing |
| Matcher.ReportRelocs | worker.js:169-194 | the message loop posts exactly the relocation results of the corrected loop |
| Matcher.ThoroughFromHas | worker.js:29-33 | every word-aligned offset below the bound is tried |
| Matcher.ThoroughOffsetsMembers | worker.js:29-33 | thorough mode tries exactly the word-aligned offsets `x` with `x + size < byteLength` |
| Matcher.FirstMatchSpec | worker.js:34-55 | no result exactly when no candidate matches; otherwise the result is a matching candidate with no matching candidate before it |
| Matcher.MatchEventsShape | worker.js:34-55 | per signature: nothing without a match; otherwise relocation results followed by a single `result` for the first match |
| Matcher.ScanThorough | worker.js:28-43 | the thorough loop posts the messages of the first match among offsets 0, 4, ... below `byteLength - size` |
| Matcher.ScanFast | worker.js:44-56 | the fast loop posts the messages of the first match among the candidate offsets, in list order |
| Matcher.RunWorker | worker.js:25-61 | a worker posts, per signature of its shard, its match messages and a `progress`, then one `done` |
| Matcher.MatchEventsCounts | worker.js:34-55 | a signature posts at most one `result` and no `progress` or `done` |
| Matcher.ShardEventsCounts | worker.js:25-59 | after `n` signatures: exactly `n` progress messages, no `done`, at most `n` results |
| Matcher.WorkerEventsCounts | worker.js:25-61 | a worker posts `sigCount` progress messages, exactly one `done` (its last message) and at most `sigCount` results |
| Coordinator.SwapWordsReadsLE | n64sym.js:75-77 | swapping writes back each word's little-endian reading in big-endian order |
| Coordinator.SwapWordsInvolution | n64sym.js:74-79 | swapping words twice restores the image |
| Coordinator.SwapHalvesReadsLE | n64sym.js:81-83 | the halfword swap writes back each halfword's little-endian reading |
| Coordinator.SwapHalvesInvolution | n64sym.js:80-85 | swapping halfwords twice restores the image |
| Coordinator.SwapWordsInPlace | n64sym.js:75-77 | the loop byte-reverses every complete word in place, then throws a RangeError exactly when a partial word remains |
| Coordinator.SwapHalvesInPlace | n64sym.js:81-83 | the loop byte-reverses every complete halfword in place, then throws a RangeError exactly when an odd byte remains |
| Coordinator.ReverseHalfAt | n64sym.js:81-83 | one pass of the halfword-swapping loop swaps the two bytes of halfword `i`: the swapped prefix grows by one halfword and the rest of the buffer is untouched |
| Coordinator.ReverseWordAt | n64sym.js:75-77 | one pass of the word-swapping loop reverses the four bytes of word `i`: the swapped prefix grows by one word and the rest of the buffer is untouched |
| Coordinator.EndianCheckNormalises | n64sym.js:67-87 | length is kept; an image is a ROM exactly when its magic is recognised and its length fits the unit; a ROM then starts with 0x80371240 and normalises to itself; an unrecognised image is unchanged |
| Coordinator.HalfSwappedCounterexample | n64sym.js:80-85 | a halfword-swapped image throws a ReferenceError as written, and comes out in native order once corrected |
| Coordinator.N64Sym.constructor | n64sym.js:9-23 | a new coordinator has an empty image, no results and no candidates, zero counters, entry point, endian word, boot checksum and boot code, is not a ROM, scans thoroughly, and has made no callback |
| Coordinator.N64Sym.RomEndianCheck | n64sym.js:67-87 | the buffer becomes the normalised image in place; `bRom` is set exactly for a recognised ROM; `endianCheck` holds the first word |
| Coordinator.N64Sym.LocateEntryPoint | n64sym.js:89-115 | when not a ROM, nothing changes; otherwise `bootcheck` is the CRC of bytes 0x40 to 0x1000, `bootcode` is the matching chip of 6101/6102/6103/6105/6106 or 0, and `entryPoint` is the word at 8 less 0x1000, less 0x100000 for 6103 and 0x200000 for 6106 |
| Coordinator.LikelyAligned | n64sym.js:117-140 | every candidate offset is word-aligned and lies in the image |
| Coordinator.AfterReturnUnique | n64sym.js:125-130 | a `jr ra` contributes at most one candidate |
| Coordinator.SetAdd | n64sym.js:127-138 | adding to the set appends a new offset and ignores a present one, keeping it duplicate-free |
| Coordinator.N64Sym.Lookahead | n64sym.js:125-130 | the lookahead finds the first non-zero word at 8 or more bytes past a `jr ra`, or throws a RangeError exactly when only zero words remain |
| Coordinator.N64Sym.CollectWord | n64sym.js:121-139 | one loop pass adds exactly the offsets the word contributes, or throws on a dangling `jr ra` |
| Coordinator.N64Sym.CollectLikelyFunctionOffsets | n64sym.js:117-143 | fails with a RangeError exactly for a partial last word or a dangling `jr ra`; otherwise the list is duplicate-free and holds exactly the prologue offsets and the offsets after each `jr ra` |
| Coordinator.N64Sym.LaunchWorkers | n64sym.js:157-179 | `n = cpus or 1` workers; shard 0 starts at 0 with `floor(L/n) + L%n` signatures, each other has `floor(L/n)`, each starts where the last ended, the last ends at `L`; `numActiveWorkers` grows by `n`; all share the image, list, candidates and mode |
| Coordinator.LaunchedPartitioned | n64sym.js:159-179 | the shards the loop hands out form that partition |
| Coordinator.ShardsCover | n64sym.js:159-179 | every signature index below `L` lies in exactly one shard, and every shard lies inside the list |
| Coordinator.ShardTotals | n64sym.js:159-179 | the shard sizes add up to `L` |
| Coordinator.ShardsScannable | n64sym.js:161-168 | every shard of a list of well-formed signatures can be scanned by a worker |
| Coordinator.N64Sym.Scan | n64sym.js:145-180 | resets the results and the counter; normalises the buffer; `bRom` marks a recognised ROM and `endianCheck` holds the first word; for a ROM the boot checksum, boot code and entry point are those `locateEntryPoint` gives, otherwise they are unchanged; the scan mode is left as the caller set it; stops with the first stage's exception, launching no worker and leaving no candidates; on success the candidates are duplicate-free and exactly the likely offsets, and the workers partition the list |
| Coordinator.OrderedUnique | n64sym.js:193-199 | two lists ordered by distinct resolved addresses with the same entries are equal, so push-then-sort has one outcome |
| Coordinator.InsertAddresses | n64sym.js:193-199 | inserting before the first larger address keeps the list ordered and adds exactly the new entry and its address |
| Coordinator.N64Sym.AddResult | n64sym.js:182-200 | a result whose address is present is dropped, so the first is kept; otherwise it is added; the list stays strictly ordered by resolved address |
| Coordinator.N64Sym.Dispatch | n64sym.js:24-44 | `result` and `reloc_result` add their entry when its address is new and leave the results unchanged when it is already present, so the first entry is kept; `progress` adds 1 to `numSignaturesScanned`; `done` subtracts 1 from `numActiveWorkers` and calls back with the results exactly when it reaches 0 |
| Coordinator.N64Sym.ProcessMessages | n64sym.js:24-44 | over any sequence of messages: counters move by the number of `progress` and `done` messages; the results gain exactly the posted addresses and stay ordered; they keep every earlier entry and hold no entry that was neither there nor posted; the number of callbacks is counted, earlier callback lists are untouched, and each new callback receives an ordered list drawn from the earlier results and the posted entries |
| Coordinator.CallbackOnce | n64sym.js:38-43 | from `n` active workers the callback runs once if `n` or more `done` messages arrive, otherwise never |
| Coordinator.AllEventsCounts | worker.js:58-61 | all workers together post one `progress` per assigned signature and one `done` each |
| Coordinator.ScanCompletes | n64sym.js:38-43 | in any interleaving of all workers' messages: `L` progress messages, `n` done messages, and exactly one callback |

## Left out

- File loading through `fs.readFileSync` is not modelled. The image is an
  `array<bv8>` argument of `Scan`.
- The signature module `signatures.js` is not part of this model. The
  signature list is an argument.
- Worker threads are not modelled: their creation, `postMessage`, event
  wiring, the error handler and `os.cpus()`. Instead:
  - the core count is an argument;
  - a worker's messages are the sequence `RunWorker` returns;
  - the coordinator consumes any sequence of messages, including any
    interleaving of all workers' messages.
- The progress bar is terminal output and is left out, as is the command
  line entry point in `main.js`.
- The coordinator's separate `dvBinary` view is modelled as reads over
  the same bytes as `binary`.
- The unused `relocResults` field is left out.
- The callback is modelled by `delivered`, which records the list
  handed to each call. The source passes the live array, so the model
  records a snapshot.
- Crc.Crc32.Read: requires the range to lie inside the array. The source
  reads bytes past the end as `undefined`, which acts as 0 in the
  checksum.
- Matcher.TestSymbol: requires the candidate to lie in the binary. In
  fast mode the source does no bounds check and reads missing bytes as
  0; `Fits` states this requirement for the scan loops.
- Matcher.TestSymbol: requires well-formed relocations (sorted offsets
  distinct, word-aligned, each word inside the body). With repeated
  offsets the source's cursor loops can fail to terminate (once a cursor
  reaches the duplicate), and that case is not modelled.
- Coordinator.N64Sym.LocateEntryPoint: requires a ROM image of at least
  0x1000 bytes. The source would checksum missing boot bytes as 0, and
  that case is not modelled.
- Coordinator.N64Sym.Scan: carries the same 0x1000-byte requirement for
  images recognised as ROMs.
- Coordinator.N64Sym.LaunchWorkers: requires fewer than 2^31 signatures.
  Below that, JavaScript's `(L / n) | 0` is the floor of the quotient;
  its wrap-around above it is not modelled.
- Coordinator.N64Sym.AddResult: requires an address-bearing result to
  have a non-zero address. For address 0, `address || entryPoint +
  offset` yields NaN, and the NaN comparisons of the sort are not
  modelled.
- Coordinator.N64Sym.Dispatch and ProcessMessages carry the same
  non-zero requirement.
- Coordinator.N64Sym.CollectLikelyFunctionOffsets: the contract states
  membership and the absence of duplicates, not the order. The method
  builds the list in the source's order: per word, a `jr ra` target
  first, then the word itself if it is a prologue.
- Matcher.ScanThorough: follows the source's bound
  `offset < byteLength - size`, so a function ending exactly at the end
  of the image is never tried.

## Findings

| source | as written | input that shows it | evidently intended | confidence | as-written member | corrected member |
|---|---|---|---|---|---|---|
| worker.js:179-183 | the pairing test reads `relocs[i - 1].type` even for `i == 0`, which throws a TypeError | a signature whose first relocation after sorting is a lo16, e.g. one lo16 at offset 0 of a matching 4-byte body | an unpaired lo16 yields no address and the match is still reported | high; not executed | Matcher.LeadingLoCounterexample | Matcher.RelocEventsShape |
| n64sym.js:80-85 | the halfword branch reads `dvBinary.byteLength` without `this.`, which throws a ReferenceError before any byte is swapped | an image starting with bytes 37 80 40 12 | every halfword byte-reversed, the image then native and marked as a ROM | high; not executed | Coordinator.HalfSwappedCounterexample | Coordinator.EndianCheckNormalises |
