# A verified model of attos-go

attos-go is an embedded key-value store. A builder compiles rows into a static binary file (version 1: hash and
displace; version 2: a minimal perfect hash, optional LZ4 blocks, optional key fingerprints); a reader maps the file,
answers lookups and replaces the file under concurrent readers. This project models those cores in Dafny and proves
what they promise. `dafny verify dfyconfig.toml` checks all of it.

## How the model is laid out

* Foundations: `Words` (bytes, endianness, powers of two), `Totals` (sums), `Flatten` (sections), `Rows` (rows, records,
  and the plain map a file has to agree with).
* Hot swap: `HotSwap` is the protocol as a state machine over its atomic steps, with a program counter for every reader
  and one for every retiring goroutine (the drain scan's position and partial sums included); `HotSwapInvariant` is the
  inductive invariant, `HotSwapSafety` the guarantees on every run, `HotSwapProgress` that
  drains succeed and readers are served, `HotSwapCounts` what Lookups() and Misses() report.
* Minimal perfect hash: `BitPacking` (the 64-bit load/shift/mask accesses), `Grouping` and `BucketOrder` (counting
  sorts), `Greedy` and `SlotSearch` (least displacement, occupancy bits), `Placement` (the plan both formats compute),
  `FreeSlots` (the remap table), `PtHash` (`Slot` and the bijection), `PtHashBuild` (`BuildWith`).
* LZ4: `Lz4Format` is a byte-by-byte reference decoder and the wire form; `Lz4Decode` the in-place decoder with its
  overshooting copies; `Lz4Compress` the compressor and `Lz4Greedy` what its search finds.
* Files: `PlaceV1`, `FileV1`, `CompileV1` for version 1; `Blocks`, `FileV2`, `ReadV2`, `LookupV2`, `ScanV2`, `CompileV2`,
  `BuildV2` for version 2, with `BoundsV2` (which headers are safe to look up in), `BlockLimit` and `LargeBlocks` (the
  reader's block limit); `FileSizes` for both; `AnyFile` is about any accepted file, damaged or not; `Reader` opens
  either; `Batch` is the grouped lookup; `SmallFiles` the smallest datasets.
* Builder: `Spill` (buffered file and its mapping), `RowStore`, `BuilderState` (arena, marks, rollback), `Duplicates`,
  `Ingest` (`BuildFrom`), `BuilderFiles` (entry points), `CheckedFlag` (what `checked` means over a history of calls),
  `Primes` (table sizes).
* `Histogram`: latency buckets.

Code that updates state is modelled by classes and methods with loops, each proved against a specification function;
expressions and recursion are functions. Methods of the same source function are sometimes split in two.

## What does not hold, and exactly when it does

* **Close.** "Close waits for every retired mapping" fails in a window: a publish that has unlocked but not yet reached
  `retireWG.Add` is not waited for. `HotSwapSafety.CloseCanReturnTooEarly` is a run that shows it, and
  `HotSwapSafety.CloseUnmapsAllIff` the exact condition.
* **Block size.** The reader rejects blocks whose content exceeds 2^28 bytes; the writer does not check this. Whatever the
  options, every row of a compiled file is found if and only if all its blocks are within that limit
  (`BlockLimit.FoundIff`; with full keys, `BlockLimit.AgreeIff` says the same of agreeing with the plain map on every key).
  `CompileV2.ShortRowsReadable` gives row lengths that guarantee it for each block size, and
  `CompileV2.SmallBlocksReadable` shows that up to 128 records always do. `LargeBlocks.CompiledButCorrupted` is 256 rows
  that compile with BlockSize 256 into a file whose lookup answers corruption; `LargeBlocks.LargeRowsFail` is a family.
* **Header arithmetic.** FORMAT_V2.md promises that a reader never reads outside the file. The header puts no upper
  bound on the number of buckets, so section sizes and bit offsets can wrap in 64 bits. `BoundsV2.WrappingFails` is an
  accepted file of 100 bytes in which a lookup's load lies outside the file. For an accepted file of at most 2^60 bytes,
  `BoundsV2.FileSafeIff` gives the exact condition: every load of every lookup's `Slot` is inside if and only if the
  first and the last pilot lie in the same 2^64 bits, and the last one's load is inside, among those the 2^32 lowest
  hashes reach in the front section and those the 2^32 highest reach in the back section. If no section size wraps, all
  loads are inside for files of any size (`BoundsV2.FitInside`). When the skew threshold leaves 2^32 hashes on either
  side, only such headers are safe (`BoundsV2.FitIff`); otherwise a size can wrap harmlessly
  (`BoundsV2.WrapCanBeHarmless`). The sum of the section sizes cannot wrap, as each is at most 2^61 + 8.
* **The `checked` flag.** It is meant to cover rows known to be free of duplicates. After any history of calls it does if
  and only if every accepted `BuildFrom` started on duplicate-free rows (`CheckedFlag.TruthfulIff`); unchecked additions
  before it can break this, and `BuilderFiles.MarkRepeated` is a builder on which they do. A compile that succeeds had
  distinct keys all the same (`BuilderFiles.CompileTo`, `CompileV2.FileDistinct`).
* **Lookups() and Misses()** can fall short: `HotSwapCounts.CountsCanFallShort` is a run after which one lookup has been
  served and none is reported. They are exact if and only if no replaced mapping that is not yet accounted has counted
  one (`HotSwapCounts.LookupsExactIff` with nobody inside, `HotSwapCounts.MissesExactIff` in every state).

## Model

| member | source | states |
|---|---|---|
| HotSwapInvariant.InvPreserved | reader.go:108-142 | every step of readers, publishers, retirers and Close keeps the protocol's invariant |
| HotSwapInvariant.NobodyInside | reader.go:108-117 | a drain whose bound on readers inside is down to zero leaves no reader between a successful enter and its exit on that mapping |
| HotSwapInvariant.ScansPreserved | reader.go:108-142 | the drain scan's partial sums stay sound while readers enter, back off and leave between its loads |
| HotSwapInvariant.PinsPreserved | reader.go:291-304 | on every stripe enter exceeds exit by the number of goroutines that have entered and not left, back-offs included |
| HotSwapInvariant.BoundsPreserved | reader.go:514-558 | pending counts exactly the replaced mappings not yet released, and stays within its limit |
| HotSwapInvariant.ConservationPreserved | reader.go:119-133 | every step keeps the totals of keys served and missed in balance with the counters |
| HotSwapSafety.NoUseAfterUnmap | reader.go:291-304 | in every run, a goroutine between a successful enter and its exit reads a mapping that has not been unmapped |
| HotSwapSafety.DrainedStaysEmpty | reader.go:135-142 | once a drain has succeeded on a retired mapping, nobody is inside it in any later state |
| HotSwapSafety.AtMostTwoPending | reader.go:514-529 | at most two replaced mappings await their release in every reachable state |
| HotSwapSafety.UnmappedOnce | reader.go:538-558 | a mapping is unmapped at most once, never while current, and never mapped again |
| HotSwapSafety.LookupConservation | reader.go:475-492 | with nobody inside, accounted and unaccounted lookups add up to all keys served, batches counting every key; misses balance in every state |
| HotSwapCounts.LookupsExactIff | reader.go:475-482 | with nobody inside, Lookups() never exceeds the keys served, and equals them if and only if no replaced mapping that is not yet accounted has counted a lookup |
| HotSwapCounts.MissesExactIff | reader.go:484-492 | likewise for Misses(), in every reachable state |
| HotSwapCounts.CountsCanFallShort | reader.go:514-529 | a concrete run: one lookup served, one miss, a reload, and both counts report none |
| HotSwapCounts.CountsNonNegative | reader.go:119-133 | no mapping ever counts fewer than no misses, nor, with nobody inside, fewer than no lookups |
| HotSwapSafety.CloseUnmapsAllIff | reader.go:572-591 | when Close returns, every published mapping is unmapped if and only if no publish sits between its swap and retireWG.Add |
| HotSwapSafety.NothingMappedAfterClose | reader.go:572-591 | under that condition nothing published is mapped in any later state |
| HotSwapSafety.CloseCanReturnTooEarly | reader.go:529-532 | a concrete run in which Close returns while a replaced mapping is still mapped |
| HotSwapProgress.DrainsAlone | reader.go:108-142 | from any reachable state in which nobody has entered a replaced mapping and not left, its retiring goroutine drains it within two scans, whatever the mapping has served |
| HotSwapProgress.FinishesAlone | reader.go:538-558 | and goes on to its end: unmapped once, its lookups and misses accounted, pending lowered if a publish replaced it, nothing else changed |
| HotSwapProgress.FinishesAmongOthers | reader.go:135-142 | in any run, as long as nobody is on the mapping, every change to it is one of the bounded number of steps left to its end, whatever others do |
| HotSwapProgress.OneAct | reader.go:538-558 | a retiring goroutine always has exactly one next step, so it is never stuck |
| HotSwapProgress.StepFalls | reader.go:108-117 | each of its steps lowers the number of steps left by one; at most one scan fails after the last reader has left |
| HotSwapProgress.StragglersFall | reader.go:291-304 | readers that still refer to a replaced mapping have a bounded number of steps on it, back-offs included, and no reader comes back to it |
| HotSwapProgress.CloseMayReturn | reader.go:572-591 | once every replaced mapping is done, Close returns |
| HotSwapProgress.PublishMayProceed | reader.go:514-529 | on an open Map a publish waits if and only if two replaced mappings await their release |
| HotSwapProgress.CheckIff | reader.go:291-304 | a reader gets inside exactly if its mapping has not been retired, and backs off otherwise |
| HotSwapProgress.ServedAlone | reader.go:291-304 | an operation that starts while a mapping is current gets inside, is served, and Lookups() grows by exactly its keys |
| HotSwapProgress.OperationServed | reader.go:291-304 | and so is every lookup, batch or scan of an idle goroutine from its beginning, on any stripe |
| HotSwapProgress.ClosedTurnsAway | reader.go:291-297 | once the Map is closed, a goroutine that looks for the current mapping is turned away |
| HotSwapProgress.ClosedRefuses | reader.go:514-528 | on a closed Map a publish is refused at once, and its new mapping unmapped |
| HotSwapProgress.NothingBlocks | reader.go:572-580 | goroutines can start, files can be opened and Close can be called in every state |
| BitPacking.Pack | internal/pthash/pthash.go:63-71 | the loop of setBits calls produces exactly the concatenated fields, no field disturbing another |
| BitPacking.PackRoundTrip | internal/pthash/pthash.go:57-61 | getBits gives back every packed value, each of its accesses inside the section |
| BitPacking.SetFieldAt | internal/pthash/pthash.go:63-71 | setBits replaces exactly the bits of its field |
| Grouping.Group | internal/pthash/pthash.go:139-153 | the counting pass lays every bucket out contiguously, with its items in input order |
| BucketOrder.OrderBySize | internal/pthash/pthash.go:155-171 | the nested loops visit each non-empty bucket once, by size descending and index ascending |
| BucketOrder.OrderByCounting | builder.go:736-753 | so does the counting sort of version 1 |
| BucketOrder.SameOrder | builder.go:9-12 | there is only one such order |
| SlotSearch.LeastDisplacement | internal/pthash/pthash.go:180-210 | the search finds the least displacement up to 2^32-1 whose slots are free and distinct, or there is none |
| SlotSearch.TryDisplacement | internal/pthash/pthash.go:183-201 | one displacement fits exactly if all its slots are free and pairwise distinct |
| SlotSearch.CheckDistinct | internal/pthash/pthash.go:173-179 | the pairwise comparison finds equal keys |
| SlotSearch.MarkAll | internal/pthash/pthash.go:203-205 | the bit operations mark exactly the slots taken |
| SlotSearch.PlaceAll | internal/pthash/pthash.go:167-215 | placement succeeds if and only if some greedy placement exists, and yields it; otherwise it names the first bucket that cannot be placed, and whether it holds equal keys |
| Greedy.PlacedInjective | internal/pthash/pthash.go:172-206 | across all buckets, two keys share a slot only if they are the same key |
| Greedy.PlacementUnique | internal/pthash/pthash.go:170-215 | the displacements are determined by buckets and order |
| Placement.PlanInjective | internal/pthash/pthash.go:139-215 | keys of the input never share a position, duplicates included |
| Placement.PlanPermuted | internal/pthash/pthash.go:139-215 | a plan for the keys in one order is a plan for them in any other |
| Placement.StuckUnique | internal/pthash/pthash.go:170-210 | the first bucket that cannot be placed is determined by the keys |
| Placement.FirstStuckPermuted | internal/pthash/pthash.go:139-210 | and the same in whatever order they come |
| FreeSlots.OverflowMatchesFree | internal/pthash/pthash.go:239-252 | taken positions beyond n are exactly as many as free positions below n, so the free list never runs out |
| FreeSlots.RemapInjective | internal/pthash/pthash.go:246-252 | remapping taken positions is injective |
| FreeSlots.RemapOnto | internal/pthash/pthash.go:246-252 | and reaches every slot below n |
| FreeSlots.FillFree | internal/pthash/pthash.go:238-253 | the two loops write exactly the remap section |
| PtHash.MinimalPerfect | internal/pthash/pthash.go:74-87 | whenever BuildWith returns a table, the hashes were pairwise distinct and Slot, reading the packed bytes, is a bijection from them onto [0, N) |
| PtHash.TakenIsFull | internal/pthash/pthash.go:167-206 | the positions taken are as many as the keys and all below m |
| PtHash.SlotIsRemap | internal/pthash/pthash.go:74-87 | on an input key Slot reads its bucket's pilot and the remap entry of its position |
| PtHashBuild.BuildWith | internal/pthash/pthash.go:115-255 | it returns a table exactly if one exists for the keys, and then that one; ErrDuplicateHash exactly if the first bucket without a pilot holds equal hashes, and "no pilot" exactly if its hashes are distinct |
| PtHashBuild.Finish | internal/pthash/pthash.go:217-254 | widths, packed pilots and remap section are those of the table |
| PtHashBuild.OrderIndependent | internal/pthash/pthash.go:139-254 | permuting the keys gives the identical table or failure both times |
| PtHashBuild.FailureIndependent | internal/pthash/pthash.go:173-210 | permuted keys fail for the same reason, at the same keys |
| PtHashBuild.TableUnique | internal/pthash/pthash.go:139-254 | a key set has at most one table |
| Lz4Format.CopyMatchIff | internal/lz4/lz4.go:179-196 | a copied match is exactly the continuation with period `offset` |
| Lz4Format.DecodeAll | internal/lz4/lz4.go:107-198 | decoding the wire form of any valid list of sequences replays it |
| Lz4Format.EncodesSize | internal/lz4/lz4.go:24-25 | a block is at most CompressBound long and its content at most 255 times the block |
| Lz4Format.DecodeBound | internal/lz4/lz4.go:107-198 | nothing decodes to more than 255 times its size, whoever wrote it |
| Lz4Decode.DoublePeriod | internal/lz4/lz4.go:187-194 | copying everything since the match source keeps the period, so doubling copies are right |
| Lz4Decode.CopyMatchBytes | internal/lz4/lz4.go:179-196 | all three copy strategies equal copying byte by byte, and disturb only scratch space |
| Lz4Decode.CopyLiterals | internal/lz4/lz4.go:136-141 | the overshooting literal copy gives the literals |
| Lz4Decode.ReadLength | internal/lz4/lz4.go:117-132 | the length loop reads what the format says, and gives up early only on lengths that cannot fit |
| Lz4Decode.Decompress | internal/lz4/lz4.go:107-198 | for every input and every capacity it succeeds exactly if the reference decoder does, with the same bytes, every access in bounds |
| Lz4Decode.DecompressTwice | internal/lz4/lz4.go:103-107 | two buffers of one length and any capacities get the same verdict and the same bytes |
| Lz4Compress.Compress | internal/lz4/lz4.go:31-68 | the compressor with its hash table appends exactly Compressed(src), 32-bit position truncation included; Lz4Greedy.GreedyPlan says what that contains |
| Lz4Compress.Probe | internal/lz4/lz4.go:38-44 | the entry of the four bytes' hash is offered if near enough and equal in four bytes, and this position is remembered in its place |
| Lz4Compress.LongestMatches | internal/lz4/lz4.go:45-49 | the forward extension stays a match |
| Lz4Compress.EmitSequence | internal/lz4/lz4.go:78-101 | a sequence is appended in its wire form |
| Lz4Compress.AppendLen | internal/lz4/lz4.go:70-76 | a length is appended in bytes of 255 and a rest |
| Lz4Compress.CompressedPlan | internal/lz4/lz4.go:16-22 | its block is the wire form of a list of sequences replaying src that respects the end-of-block restrictions |
| Lz4Compress.RoundTrip | internal/lz4/lz4.go:29-68 | the compressed block of every input decodes to it |
| Lz4Greedy.GreedyPlan | internal/lz4/lz4.go:31-55 | every match starts at a probed position, reaches back to the last earlier probed position with the same hash, and cannot be extended; wherever that position is within 65535, below 2^31 and equal in four bytes, a match starts, so literals contain none |
| Lz4Greedy.NextOffers | internal/lz4/lz4.go:38-44 | the table's candidate is that position, positions that do not fit 31 bits never being found |
| Lz4Greedy.LastProbeIff | internal/lz4/lz4.go:38-40 | which position that is |
| Lz4Greedy.RunSize | internal/lz4/lz4.go:31-68 | a run of n equal bytes takes ten bytes and one more for every 255 of it |
| Lz4Greedy.HashOnto | internal/lz4/lz4.go:27-27 | the hash uses every entry of the table |
| Lz4Compress.SizeBounds | internal/lz4/lz4.go:24-25 | output at most n + n/255 + 16 bytes, input at most 255 times the output |
| Lz4Compress.CompressDecompress | internal/lz4/lz4.go:31-198 | compressing and then decompressing in place gives src back for every capacity |
| Primes.IsPrime | builder.go:656-672 | the 6k±1 trial division answers true exactly for primes |
| Primes.PrimeAbove | builder.go:680-682 | there is a prime above any number, so the search ends |
| Primes.TableSizes | builder.go:675-688 | S is the least prime from max(3, 12n/10) on, hence at least n, and B is 6S/5 |
| Primes.CandidateIs | builder.go:675-680 | the search for S starts at the least number from three on that leaves a sixth of the slots free, rounded down |
| PlaceV1.Place | builder.go:699-821 | it succeeds exactly if the rows can be placed; then displacements are the least that fit in canonical order and slotRow inverts the slots of all rows; a failure names the first bucket that cannot be placed and says exactly whether two of its low hashes are equal |
| PlaceV1.XorBits | builder.go:782-782 | the displacement is applied by exclusive or, bit by bit |
| PlaceV1.XorTwice | reader.go:159-159 | which undoes itself and commutes |
| PlaceV1.XorInjective | builder.go:782-782 | and sends different hashes, and different displacements, to different places before the remainder |
| PlaceV1.XorBounded | builder.go:782-782 | within 32 bits |
| PlaceV1.Halves | builder.go:731-731 | a hash is its high and its low half |
| PlaceV1.PlaceRows | builder.go:760-820 | the placement loop succeeds exactly if a greedy placement exists, and writes each bucket's rows to its slots |
| PlaceV1.GroupRows | builder.go:714-734 | rows grouped by bucket, and next to each group its low hashes |
| PlaceV1.PlacedInverse | builder.go:799-806 | slotRow ends with every row exactly once, at (lo xor disp) mod S, and is empty elsewhere |
| FileV1.ParseV1 | attos.go:198-245 | an accepted header keeps every later access inside the file |
| FileV1.AcceptedIff | attos.go:198-228 | exactly the files are accepted whose sections fit; the overflow checks reject none that do |
| FileV1.VerifiedIff | attos.go:229-235 | of those, verifying the checksum rejects exactly the ones whose trailer is wrong |
| FileV1.ParsesBack | attos.go:179-245 | a written file parses, checksum verified or not |
| FileV1.LookupAgrees | reader.go:146-179 | entry on a written file is the plain map lookup for every key, narrow or wide displacements, zero rows included |
| AnyFile.AnswersV1 | reader.go:146-179 | in any accepted file, damaged or not, a value is found exactly if the slot holds the record of that very key inside the data block, and damage is reported exactly if the slot is in use but holds no record inside it |
| CompileV1.Write | builder.go:871-961 | the output loops emit exactly the specified file |
| CompileV1.AppendWords | builder.go:912-924 | each occupied slot's word holds the offset and length of its record |
| CompileV1.DataBlockSize | builder.go:854-856 | the data block has exactly dataBytes bytes, each row once |
| CompileV1.Compile | builder.go:831-858 | a file is written exactly if one exists for the rows; each failure is reported exactly when it is the first to apply; a reported duplicate is the lowest unchecked row repeating an earlier one |
| CompileV1.EndToEnd | builder.go:825-839 | compiled rows have distinct keys, and the file parses and looks up like the plain map |
| FileSizes.SizeV1 | builder.go:871-961 | the length of a compiled file, to the byte |
| FileSizes.WideIff | builder.go:879-879 | displacements take four bytes exactly if one of them needs more than two |
| FileSizes.ReservedV1 | builder.go:883-889 | the reserved bytes of the header are zero |
| CompileV1.FileUnique | builder.go:9-12 | a list of rows has at most one version 1 file |
| CompileV1.RowOrderIndependent | builder.go:9-12 | permuting the rows gives the byte-identical file or failure both times |
| Blocks.UvarintRoundTrip | builder_v2.go:266-281 | a 64-bit length written as a uvarint reads back, whatever follows it |
| Blocks.UvarintIff | reader_compressed.go:33-38 | a length is read exactly from a uvarint of at most ten bytes whose value fits 64 bits |
| Blocks.NthOfRaw | reader_compressed.go:66-102 | skipping i framed records of a block leads to record i |
| Blocks.FindRecord | reader_compressed.go:92-102 | the loop that skips records finds the one the specification names, or fails with it |
| Blocks.WriteBlock | builder_v2.go:276-285 | a block is stored exactly when LZ4 does not make it smaller |
| Blocks.DecodeInto | reader_compressed.go:33-64 | decoding through the reused scratch buffer gives what the block says |
| Blocks.BlockRoundTrip | reader_compressed.go:33-64 | a written block decodes to its content if and only if that has at most 2^28 bytes; the ratio check never rejects it |
| Blocks.RatioRejectsNothing | reader_compressed.go:48-60 | the ratio check rejects nothing that decodes, whoever wrote it |
| Blocks.DecodeIff | reader_compressed.go:33-64 | what decodes: a stored block to its payload, an LZ4 block to what its payload says, nothing beyond 2^28 bytes, and no other kind |
| ReadV2.ParsedReadable | attos.go:248-324 | an accepted header keeps offsets and data inside the file; its pilot sections have their full sizes if and only if no size wraps |
| BoundsV2.FileSafeIff | attos.go:248-324 | in an accepted file of at most 2^60 bytes every load of every lookup's Slot stays inside if and only if two pilots of each section, named by the header, say so |
| BoundsV2.LookupsInsideIff | internal/pthash/pthash.go:57-87 | the same for any table that meets the header check, the wrapped 64-bit bit offset of getBits included |
| BoundsV2.ChainIff | internal/pthash/pthash.go:57-61 | the loads of a chain of hashes are all inside exactly if its two ends lie in the same 2^64 bits and the last load is inside |
| BoundsV2.FitInside | internal/pthash/pthash.go:89-92 | if no pilot section size wraps, no hash leads Slot outside, whatever the file's size |
| BoundsV2.FitIff | internal/pthash/pthash.go:74-92 | with 2^32 hashes on either side of the skew threshold, that condition is also necessary |
| BoundsV2.FreeAlwaysInside | internal/pthash/pthash.go:83-86 | the remap entry a lookup loads is always inside its section |
| BoundsV2.WrappingFails | attos.go:259-265 | a file of 100 bytes that is accepted, and a hash whose pilot is loaded from beyond the file |
| BoundsV2.WrapCanBeHarmless | internal/pthash/pthash.go:74-82 | a wrapped front size does no harm if no hash is looked up in that section |
| ReadV2.OffStored | reader.go:182-187 | an offset written at width 4 or 5 is the offset read, the masked 8-byte load included |
| ReadV2.ParsesBack | attos.go:248-324 | a written file parses to its table, format and sections |
| ReadV2.VerifiedIff | attos.go:317-323 | of the files accepted without it, verifying the checksum rejects exactly the ones whose trailer is wrong |
| ReadV2.AcceptedIff | attos.go:248-316 | exactly the files are accepted, without verifying, whose counts are valid, which use nothing unknown, and whose sections and blob fit |
| ReadV2.UnsupportedIff | attos.go:265-300 | an unknown feature is reported as unsupported exactly if the checksum verifies, asked for or not |
| AnyFile.AnswersV2 | reader.go:190-233 | in any accepted file a value is found exactly if the slot of the hash holds it with this key or its fingerprint, and damage is reported exactly if the slot's record cannot be fetched or is no record |
| AnyFile.FetchedInBlob | reader.go:205-221 | an uncompressed record comes from inside the blob, between its two offsets |
| AnyFile.FetchedFromBlock | reader_compressed.go:14-102 | a compressed one from a block inside the blob that decodes |
| LookupV2.EntryOf | reader.go:190-233 | what a lookup answers, in terms of the slot Slot gives |
| LookupV2.PresentKey | reader.go:190-233 | a row's key finds its value, with full keys or fingerprints, unless its block exceeds 2^28 bytes, and then reports corruption |
| LookupV2.AbsentKey | reader.go:222-232 | with full keys any other key is not found, with the same exception |
| LookupV2.LookupAgrees | reader.go:190-233 | with full keys and readable blocks a lookup is the plain map lookup |
| LookupV2.FullBlockFails | builder_v2.go:258-290 | a block of 256 records with values of one mebibyte is beyond the reader's limit |
| BlockLimit.FoundIff | reader_compressed.go:35-37 | every row of a compiled file is found, with full keys or fingerprints, if and only if no block exceeds 2^28 bytes |
| BlockLimit.AgreeIff | reader_compressed.go:35-37 | with full keys, lookups agree with the plain map on all keys under the same condition and no other |
| BlockLimit.UnreadableRow | reader_compressed.go:35-37 | in a compiled file with a larger block, the lookup of some row reports corruption |
| LargeBlocks.LargeRowsFail | builder_v2.go:258-290 | 256 or more rows with values of one mebibyte, compiled in blocks of 256: some row's lookup reports corruption |
| LargeBlocks.CompiledButCorrupted | builder_v2.go:258-290 | concrete rows and options that compile, and the lookup that reports corruption |
| ScanV2.Scan | reader_compressed.go:107-179 | the callback sees the pairs of the scan in order, up to and including the first after which it stops; unreadable records and blocks as in the specification |
| ScanV2.ScanVisitsAll | reader_compressed.go:107-179 | a scan of a compiled file yields exactly its rows in slot order, in all formats with readable blocks |
| CompileV2.TableStorable | attos.go:259-262 | every table BuildWith returns passes the header check |
| CompileV2.EndToEnd | builder_v2.go:59-227 | a compiled file parses, its rows had distinct keys, and it holds them in slot order |
| CompileV2.FileDistinct | builder_v2.go:100-115 | rows that compile have distinct keys, checked or not |
| CompileV2.OptionsHonoured | builder_v2.go:135-143 | the parsed file has the options it was compiled with: a forced offset width is the file's, the automatic one is the least that reaches the blob; key format, compression and block size likewise |
| CompileV2.OptionsIff | builder_v2.go:59-83 | which options are accepted, value by value |
| FileSizes.SizeV2 | builder_v2.go:156-226 | the length of a compiled file, to the byte |
| FileSizes.ReservedV2 | builder_v2.go:156-178 | the reserved bytes of the header are zero, the block exponent without compression too |
| FileSizes.PackedLaw | internal/pthash/pthash.go:89-92 | a pilot section is eight bytes more than the least multiple of eight that holds its fields |
| FileSizes.FreeLaw | internal/pthash/pthash.go:94-95 | the remap section is the least multiple of eight bytes that holds its entries |
| FileSizes.OffsetsLaw | builder_v2.go:332-340 | the offsets are padded to a multiple of eight, with eight bytes more for width five |
| FileSizes.WidthLeast | internal/pthash/pthash.go:105-110 | pilots are packed in the least number of bits that holds the largest |
| CompileV2.LookupFull | reader.go:190-233 | with full keys and blocks within the reader's limit, every lookup is the plain map lookup, for any block size |
| CompileV2.LookupPresent | reader.go:212-221 | with fingerprints too, every row's key finds its value |
| CompileV2.ShortRowsReadable | reader_compressed.go:35-37 | for every block size, row lengths that keep all blocks within the limit |
| CompileV2.SmallBlocksReadable | reader_compressed.go:35-37 | blocks of at most 128 records are within the limit whatever the rows; without compression there is no limit to exceed |
| BuildV2.FillSlots | builder_v2.go:116-119 | slotEntry inverts Slot on the keys |
| BuildV2.EveryEntry | builder_v2.go:116-119 | every slot is entered, by the key whose slot it is |
| BuildV2.BlobBytes | builder_v2.go:84-90 | the size loop sums the stored record lengths |
| BuildV2.WriteOffsets | builder_v2.go:307-330 | the offsets section is written at its width and padded to its size |
| BuildV2.WriteRecords | builder_v2.go:189-218 | running offsets and records agree |
| BuildV2.RawBlock | builder_v2.go:260-275 | the raw content of a block is its records, framed |
| BuildV2.WriteFile | builder_v2.go:156-226 | the output pass emits exactly the specified file |
| BuildV2.CompressBlocks | builder_v2.go:233-304 | blocks and offsets are those of the format, or the blob is beyond 40 bits |
| BuildV2.BlobSize | builder_v2.go:84-99 | the blob size computed before hashing is the size of the blob written |
| BuildV2.Compile | builder_v2.go:59-227 | a file is written exactly if one exists for rows and options; each failure is reported exactly when it is the first to apply, with the reason no table was built; which results mean that duplicate detection was passed |
| BuildV2.FileUnique | builder_v2.go:116-219 | rows and options have at most one file |
| BuildV2.RowOrderIndependent | builder_v2.go:116-219 | permuting the rows gives the byte-identical file or failure both times |
| SmallFiles.EmptyCompiles | builder.go:710-712 | an empty dataset has a version 1 file |
| SmallFiles.OneCompiles | builder_v2.go:52-55 | one storable row always has a version 2 file |
| Reader.GetAgreesV1 | attos.go:179-245 | opening a version 1 file and looking any key up is looking it up in the plain map |
| Reader.GetAgreesV2 | attos.go:179-324 | likewise for version 2 with full keys and blocks within the reader's limit |
| Reader.FormatsAgree | builder_v2.go:57-59 | so both formats of the same rows answer alike for every key |
| Reader.OpenVerified | attos.go:179-324 | opening with the checksum verified succeeds exactly if opening without it does and the trailer is the checksum of the rest; otherwise the failure is the same, or a checksum mismatch |
| Reader.OpenRefused | attos.go:179-197 | which files are refused for their magic and for their version |
| Batch.GetMany | batch.go:26-84 | each result is the single lookup's, hits and misses add up to the keys, and it stops at the first corrupted record |
| Batch.HitsAndMisses | batch.go:69-81 | every key resolved is a hit or a miss |
| Duplicates.FindDuplicate | builder.go:598-652 | it returns the lowest row from `from` on that repeats an earlier key, paired with the earliest row of that key, or nothing exactly when there is none |
| Duplicates.SortRows | builder.go:604-617 | rows sorted by hash, then by row |
| Duplicates.SearchRun | builder.go:625-641 | a run of equal hashes contributes its lowest repeat, paired with the earliest equal row |
| Duplicates.InRun | builder.go:620-641 | an earlier row with the same key lies in the same run, before it |
| Ingest.BuildFrom | builder.go:163-175 | it reports the earliest limit or duplicate violation, accepts exactly when there is none, and leaves rows and flag unchanged on every error; once accepted, the flag covers all rows and none of the new ones repeats a key |
| Ingest.Judge | builder.go:383-388 | limitOrDuplicate reports the earliest repeat among the stored rows if its line comes before the limit's, and the limit otherwise; the earliest violation if lines increase |
| Ingest.FirstDuplicate | builder.go:598-652 | detection on the rows of the builder, hashes completed on the way |
| Ingest.Parse | builder.go:301-314 | the sink stores exactly the items before the first limit violation |
| Ingest.RepeatVerdict | builder.go:383-388 | with increasing lines a duplicate among the stored rows precedes the limit violation |
| CheckedFlag.TruthfulIff | builder.go:163-188 | after any history of calls rows [0, checked) are duplicate-free if and only if every accepted BuildFrom started on duplicate-free rows |
| CheckedFlag.TruthAfter | builder.go:169-173 | call by call: only an accepted BuildFrom can make the flag wrong, exactly when the rows before it held a duplicate |
| CheckedFlag.FromMark | builder.go:169-173 | detection from a mark on settles all rows exactly if those before it were duplicate-free |
| BuilderFiles.MarkRepeated | builder.go:163-188 | two unchecked additions of one key and an empty BuildFrom: accepted, and the flag covers both rows |
| BuilderState.Builder.AppendRow | builder.go:235-269 | the rows grow by exactly the new one, in the arena or the spill file; dataBytes keeps the record bytes of all rows |
| BuilderState.Builder.RowKey | builder.go:271-279 | rowKey(i) is the key of the i-th surviving row |
| BuilderState.Builder.RowValue | builder.go:281-289 | rowValue(i) is its value |
| BuilderState.Builder.Rollback | builder.go:209-233 | rolling back restores exactly the chunks or file contents and the index of the mark |
| BuilderState.Builder.TakeMark | builder.go:198-207 | a mark remembers what rollback needs |
| BuilderState.Builder.AppendSince | builder.go:235-269 | appending keeps every earlier mark usable |
| RowStore.CutUndoes | builder.go:217-223 | cutting the chunks back undoes any growth since the mark |
| RowStore.RowsKept | builder.go:248-261 | growth never moves a row |
| RowStore.PackRoundTrip | builder.go:261-261 | packing chunk and offset into one word loses nothing |
| Spill.SpillStore.Append | spill.go:30-36 | the contents grow by key and value, however much of it has left the buffer |
| Spill.SpillStore.View | spill.go:39-46 | a view is the appended bytes, remapping when the mapping is too short |
| Spill.SpillStore.Remap | spill.go:48-65 | a refreshed mapping covers everything appended |
| Spill.SpillStore.Truncate | spill.go:68-85 | exactly the first bytes are left |
| BuilderFiles.CompileTo | builder.go:831-858 | on the rows the builder holds: a file exactly if one exists, and then distinct keys, whatever the flag says; otherwise the first failure that applies; a passed detection is recorded in the flag, nothing else changes |
| BuilderFiles.CompileWithOptions | builder_v2.go:59-115 | likewise for version 2 |
| BuilderFiles.Add | builder.go:179-188 | exactly the rows within the size limits are added, and the flag does not move |
| Histogram.InBucket | stats.go:17-34 | every 64-bit value lies above its bucket's predecessor and not above its bound, the wrapping top bucket included |
| Histogram.BucketUnique | stats.go:17-34 | and in no other bucket |
| Histogram.IndexMonotone | stats.go:17-24 | larger values never lie in lower buckets |
| Histogram.RelativeError | stats.go:9-11 | a bound exceeds its values by less than an eighth |
| Histogram.IndexBound | stats.go:41-44 | the clamp in record never applies |
| Histogram.LatencyHistogram.Drain | stats.go:55-91 | a drain changes no bucket's counts plus total, and summarises what it took |
| Histogram.LatencyHistogram.Record | stats.go:36-46 | one more sample in the value's bucket and in no other |
| Histogram.Summarise | stats.go:65-90 | quantiles and maximum are the bounds of the buckets that hold the samples of those ranks; all zero without samples |
| Histogram.LatencyHistogram.LatencyBuckets | stats.go:107-115 | the exported buckets are one bound and count for each counter that is not zero, ascending, and depend only on what was recorded, so draining never changes them |
| Histogram.NonEmptyExports | stats.go:107-115 | which buckets those are |

## Left out

- Floating-point sizing of `BuildWith`: replaced by its facts (m from n to 2n+16, at most 6n+2 buckets, 1 <= p2 < nb).
- XXH64, `Mix`, `HP`, CRC32 and key fingerprints: arbitrary functions; nothing proved depends on their values.
- `n` is below 2^31 in version 2, as `slotEntry` holds 32-bit row numbers.
- Primes.IsPrime: does not model 64-bit overflow of `i*i`, which the row limit keeps out of reach.
- HotSwapProgress.FinishesAmongOthers: does not say that goroutines are scheduled or that readers end their operations.
- HotSwap: a critical section of `retireMu` is one step; the grace timer is an arbitrary delay; counters do not wrap at 2^64; zero-copy slices used after their pin are not modelled.
- BitPacking: 64-bit words are sequences of 64 bits rather than machine words.
- RowStore: the index keeps chunk and offset apart; `RowStore.PackRoundTrip` covers the packed word.
- Spill: I/O errors, which the source turns into a panic or a returned error, and the temporary file's name.
- BoundsV2.FileSafeIff: does not cover files of more than 2^60 bytes, which no address space maps; `BoundsV2.FitInside` does.
- Version 1 scans and row counts.
- Context cancellation, output buffering and atomic file replacement.
- CSV and NDJSON tokenising: parsing starts from (key, value, line) and a flag for a parse error.
- Histogram: float ranks of the percentiles are parameters; counters do not wrap.
- Schema encoding of structured values (typed.go), synchronisation, telemetry, signatures and metrics: easy or I/O-bound members.
