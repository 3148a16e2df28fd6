# A verified model of fastgit's storage layer

fastgit reimplements Git's storage layer in C. This project models its codecs, its indexes and their fast
lookup forms, and its small state machines in Dafny, and proves what they promise: round trips, refinement of
fast forms by simple ones, invariants of every reachable state, and exactly where a guarantee stops. Beside each
round trip stands what the bytes are: layouts, digits, orders and outcomes in terms of positions and literals.

`dafny verify dfyconfig.toml` verifies everything. One module models one component:

| module | models |
|---|---|
| `Bytes`, `Lex` | fixed-width integers, big-endian words, the order of `memcmp`/`strcmp` |
| `Varint`, `Delta`, `DeltaCompress` | varints, the delta instruction stream, the three appliers, the match-finding compressor |
| `Entries`, `ProbeTable`, `StagingIndex`, `IndexRun` | the staging index: entry buffer, open-addressing table with tombstones, whole runs |
| `IndexFile` | the padded on-disk index |
| `TreeFormat`, `TreeBuild`, `TreeRead` | tree objects, flat paths to nested trees, and back |
| `Sha256`, `ObjectFormat` | streaming SHA-256 with the block transform left abstract; object headers and ids |
| `PackFormat`, `PackRead`, `PackUnpack`, `PackWriter`, `PackIndex`, `Fanout`, `Midx` | pack entries, random access, the one-pass unpackers, the sequential and parallel writer, the pack index, the multi-pack index |
| `ThreadPool` | the bounded ring queue and its workers as interleaved critical sections |
| `OdbCache` | the object store and the eight-probe cache in front of it |
| `Merge` | ancestry search with fixed-size arrays, fast-forward merge |
| `Resilience` | retry budget and circuit breaker |
| `PktLine`, `BundleHeader` | hexadecimal ids, pkt-line framing of refs, the bundle header |

The hash functions, CRC and zlib are parameters: every statement holds for any functions. Where a result needs
more, it says so: `PackFormat.Faithful` is what zlib must satisfy, and collisions are excluded only among the
contents a run handles (`TreeRead.NoTreeCollision`, `OdbCache.NoClash`, `PackWriter.DistinctIds`), never for
the whole hash. Disk is a map or a byte sequence, clocks are arguments, and functions that can fail for outside
reasons take their outcome as a parameter. An outcome named `OutOfBounds`, `Undefined`, `OutOfFile`, `Outside`,
`Beyond`, `Lost`, `Overread` or `Overrun` marks a place where the C code reads or writes beyond a buffer, and `Misread` one where it reads
bytes as a structure that they are not; the model stops there.

Claims one might expect and that are false of this code are stated as such, with the exact condition or a
concrete input: a removal that rebuilds a half full table (`StagingIndex.Index.Remove`,
`StagingIndex.RemoveFirst`, `StagingIndex.RemoveSpoilsTable`), the leniency of the inlined delta applier
(`Delta.AppliersAgree`, `Delta.InlineNeedsNoHeader`, `Delta.InlineToleratesTail`), the bounds check of copies
(`Delta.OutOfBoundsExactly`, `DeltaCompress.CopyOutside`), a task accepted after shutdown
(`ThreadPool.ExitMeansDrained`, `ThreadPool.LateTaskStranded`), the parent that the ancestry search drops
(`Merge.Threshold`, `Merge.WideExists`), entries whose mode is that of a directory (`TreeRead.RoundTrip`), and
lookups with 2^30 packs and more (`Midx.Threshold`, `Midx.WrappedMiss`).

Where the code and its comments differ, the model follows the code: the lookup in the multi-pack index never
returns a pack (`*pack_out = NULL`), its checksum is always zero, `fastgit_index_read` does not look at the
checksum and takes what it read for sorted.

## Model

| member | source | states |
|---|---|---|
| Varint.RoundTrip | include/fastgit/pack.h:101-123 | decoding what was encoded, whatever follows, gives the number and the length back, for every number |
| Varint.EncodedLength64 | include/fastgit/pack.h:101-109 | a 64-bit value takes at most ten bytes |
| Varint.EncodeAt | include/fastgit/pack.h:101-109 | group i of the encoding holds the bits from 7*i on, and all bytes but the last have the top bit |
| Varint.EncodeVarint | include/fastgit/pack.h:101-109 | the loop writes the encoding |
| Varint.DecodeVarint | include/fastgit/pack.h:111-123 | the loop returns 0 exactly when no terminating byte exists, else the value modulo 2^64 |
| Delta.StrictIsExec | src/pack/packfile.c:76-107 | the strict applier succeeds exactly on deltas that execute completely to an output of the announced length, and then returns the meaning of the stream |
| Delta.CopyMeans | src/pack/packfile.c:85-97 | every copy command: which operands are there by the bits of the command, their weights, and a size of zero for 0x10000 |
| Delta.OthersMean | src/pack/packfile.c:98-103 | zero is reserved, 1..127 insert, and a copy without its operands is cut short |
| Delta.AppliersAgree | src/pack/packfile.c:76-107 | the strict applier succeeds if and only if the lenient one consumes the whole delta and fills its output, and if and only if both length headers end and the inlined one succeeds and consumes the whole delta; then all three return the same bytes; whatever the inlined one accepts after headers that end, the lenient one accepts with the same output |
| Delta.GitDeltaApply | src/pack/packfile.c:76-107 | the strict loop computes StrictApply, with its error cases and its out-of-bounds copies (offset + size modulo 2^32) |
| Delta.DeltaApply | src/pack/delta.c:142-188 | the lenient loop computes LenientApply, including the part of the delta it leaves unread |
| Delta.InlinedDeltaApply | src/network/protocol.c:690-721 | the inlined loop computes InlineApply |
| Delta.InlineHeader | src/bundle/bundle.c:348-379 | the inlined length header is read without noticing a missing terminator |
| Delta.InlineNeedsNoHeader | src/network/protocol.c:690-721 | an input on which the inlined applier succeeds and the lenient one fails |
| Delta.InlineToleratesTail | src/network/protocol.c:690-721 | a whole delta with a bad command after the last byte, which the inlined applier accepts and the strict one refuses |
| Delta.OutOfBoundsExactly | src/pack/packfile.c:76-107 | a delta can make the strict (or the lenient) applier read outside some base if and only if it comes, within the announced length, to a copy whose offset and size add up to 2^32 or more |
| DeltaCompress.BucketDecidesFirstByte | src/pack/delta.c:81-100 | with equal low three bytes, equal 14-bit buckets force equal top bytes: the odd multiplier keeps the top byte injective |
| DeltaCompress.FourBytesMatch | src/pack/delta.c:94-101 | same bucket and equal bytes 1..3 give four equal bytes, although byte 0 is never compared |
| DeltaCompress.BuildChains | src/pack/delta.c:76-90 | each head is the last position with its bucket, each link the previous position with the same bucket: the chains hold every position, newest first |
| DeltaCompress.MatchExact | src/pack/delta.c:98-107 | the usable match length: as far as the bytes agree, at most 0x10000, zero unless four agree |
| DeltaCompress.FindMatch | src/pack/delta.c:92-109 | the match found is a real common stretch at one of the first 32 candidates, none of which is longer |
| DeltaCompress.UnbeatenBest | src/pack/delta.c:76-109 | without the chains: every longer match in the base lies behind 32 or more later positions of its bucket |
| DeltaCompress.CopyRoundTrip | src/pack/delta.c:110-129 | a printed copy command is decoded to the same offset and length, including the length 0x10000, which is printed as a single zero byte |
| DeltaCompress.CopyOutside | src/pack/packfile.c:85-97 | for every base below 2^32 bytes, a delta whose copy the wrapped check lets read outside the base |
| DeltaCompress.ExecAppend | src/pack/delta.c:55-140 | executing a concatenation is executing its parts in turn |
| DeltaCompress.LenientMeans | src/pack/delta.c:142-188 | the lenient applier executes until its output is full or the delta is used up and leaves the rest; a delta that ends early gives a short output |
| DeltaCompress.InlineMeans | src/network/protocol.c:690-721 | the inlined applier stops at a reserved command with what it has |
| DeltaCompress.CutShort | src/network/protocol.c:690-721 | at a copy cut short the strict and the lenient applier fail, and the inlined one reads past the delta |
| DeltaCompress.Compress | src/pack/delta.c:55-140 | for every base below 2^31 bytes and every target all three appliers return the target; the delta starts with both lengths and is at most the headers plus twice the target; copies are longest matches, bytes in no copy had no match (but behind 32 later positions of a bucket), and the size is at most eight bytes a copy, and for the bytes in none one byte, one more for each 127, and one |
| Fanout.CountSplits | src/pack/packfile.c:632-646 | in a sorted table the ids with first byte at most f are exactly the first CountTo(f) |
| Fanout.BisectFinds | src/pack/packfile.c:640-645 | between bounds that enclose the id in a sorted table the search finds it if and only if it is there |
| Fanout.Search | src/pack/packfile.c:640-645 | the loop computes Bisect between any two bounds, sound or not |
| Fanout.FanoutByIncrement | src/pack/packfile.c:591-596 | incrementing every entry from the first byte up yields the number of ids with first byte at most f |
| Fanout.FanoutByAccumulation | src/pack/midx.c:91-95 | counting and accumulating yields the same fanout |
| Fanout.SortOrder | src/pack/packfile.c:580-590 | the insertion sort yields a permutation that reads the ids in the order of Lex.CompareIsBefore |
| Fanout.Find | src/pack/packfile.c:632-646 | the bounded binary search succeeds if and only if the id is present, at a position holding it |
| Fanout.Reached | src/pack/packfile.c:580-590 | the sort order reaches every object (pigeonhole) |
| Lex.CompareIsBefore | src/index/index.c:34-40 | the order of memcmp and strcmp without recursion: a proper beginning comes first, otherwise the smaller byte at the first difference decides |
| PackFormat.HeaderRoundTrip | src/pack/packfile.c:121-135 | every entry header with a 64-bit size is read back, whatever follows, in at most ten bytes |
| PackFormat.HeaderAt | src/pack/packfile.c:121-135 | the type lies in bits 4 to 6 of the first byte, the size in its low four bits and the groups that follow |
| PackFormat.HeaderRefused | src/pack/packfile.c:121-135 | a header that goes on beyond ten bytes, or to the end of the input, is refused |
| PackFormat.WriteHeader | src/pack/packfile.c:339-352 | the loop writes the header |
| PackFormat.ReadHeader | src/pack/packfile.c:121-135 | the loop reads the header; more than ten bytes and a missing end are refused |
| PackFormat.OfsRoundTrip | src/pack/packfile.c:136-146 | an offset-delta distance is read back, whatever follows |
| PackFormat.OfsMeans | src/pack/packfile.c:136-146 | the groups of a distance spell it, after one was taken off for each continued group |
| PackFormat.OfsRefused | src/pack/packfile.c:136-146 | so is a distance |
| PackFormat.OfsFits | src/pack/packfile.c:136-146 | distances below 2^60 fit the ten bytes the reader accepts |
| PackFormat.ReadOfs | src/pack/packfile.c:136-146 | the loop reads the distance modulo 2^64 |
| PackRead.ReadObjectAt | src/pack/packfile.c:147-203 | the recursion computes ReadAt on every input: bounds, depth limit, reference deltas and error codes |
| PackRead.RandomAccess | src/pack/packfile.c:147-203 | at the start of an entry of a sound file the reader returns the object its chain of deltas stands for if the chain fits the depth left of 32, and an error otherwise |
| PackRead.BaseOf | src/pack/packfile.c:160-180 | an offset delta stands for what its delta makes of the earlier entry its distance points to, with the type of that entry |
| PackRead.RefAccess | src/pack/packfile.c:180-196 | a reference delta is read as what its delta makes of the object found under the id of its base, or ENOENT |
| PackRead.ReadErrors | src/pack/packfile.c:147-203 | past the end is ENOENT; more than 32 levels, a broken header and a payload of another size are ERROR |
| PackRead.PackNumber | src/pack/packfile.c:63-74 | type numbers 1..4 are mapped back to the type they stand for |
| PackRead.PackNumbers | src/pack/packfile.c:63-74 | commit, tree, blob and tag are 1, 2, 3 and 4; 0 and 5 count as blobs |
| PackRead.ReadPlain | src/pack/packfile.c:196-203 | a plain entry is read as the object of its type; the unused types 0 and 5 give blobs |
| PackUnpack.WalkHeader | src/network/protocol.c:620-633 | the walk's own header loop agrees with the header parser on well-formed entries |
| PackUnpack.WalkOfs | src/network/protocol.c:643-653 | the walk's own distance loop agrees with the distance parser |
| PackUnpack.Unpack | src/network/protocol.c:612-743 | one pass with the offset cache writes, for every sound file, the object of every entry in order: the same objects random access finds |
| PackUnpack.EntryTurn | src/bundle/bundle.c:285-400 | one turn of the walk adds the object of its entry and moves to the next entry; a reference delta is dispatched to RefTurn |
| PackUnpack.RefTurn | src/network/protocol.c:653-735 | a reference delta in the walk: the object its delta makes of the base in the object store, or none |
| PackIndex.WidthDetected | src/pack/packfile.c:533-546 | each of the four id widths is recovered from the file size, for every object count and every number of large offsets |
| PackIndex.NoWidth | src/pack/packfile.c:533-546 | a size that no width explains gives 32 |
| PackIndex.Assemble | src/pack/packfile.c:597-622 | the write calls produce magic, fanout, ids, CRCs, offsets and checksum in this layout |
| PackIndex.Layout | src/pack/packfile.c:504-570 | where each part of a written index lies |
| PackIndex.LargeOffsets | src/pack/packfile.c:557-571 | each offset with its top bit set becomes the eight-byte word after those of the marked offsets before it, all others stay; fails exactly if those words do not lie in the file |
| PackIndex.MarksMean | src/pack/packfile.c:557-571 | the mark is the top bit of 32, and the eight-byte offsets are big-endian |
| PackIndex.Load | src/pack/packfile.c:504-576 | loading a written index gives fanout, ids, CRCs and offsets back; a wrong magic is refused |
| PackWriter.Writer.AddObject | src/pack/packfile.c:381-415 | one object is appended to the file and the tables: the hash of its serialized form, the CRC, and the offset at which it starts |
| PackWriter.Writer.AddObjectsParallel | src/pack/packfile.c:432-502 | an empty batch is refused; otherwise bytes, ids, CRCs, offsets and count are those of the sequential fallback on the same tasks, with a pool or without |
| PackWriter.PoolResults | src/pack/packfile.c:417-488 | for every interleaving of the pool up to the return of wait, the tasks hold what the sequential code computes |
| PackWriter.CompressAll | src/pack/packfile.c:488-491 | the fallback computes every task |
| PackWriter.Written | src/pack/packfile.c:381-415 | after any sequence of additions the offsets are the running sums of entry sizes, and each entry lies at its recorded offset |
| PackWriter.Writer.CreateIndex | src/pack/packfile.c:577-622 | the index lists the write tables in id order under their fanout, if the numbers fit their fields |
| PackWriter.Writer.Close | src/pack/packfile.c:272-305 | the closed file is PACK, version 2, the number of objects and the entries, then the hash of all that; the index ends in the same hash and in the hash of itself; below 2^31 bytes the file holds exactly the entries added, and the index lists them |
| PackWriter.IndexedEntry | src/pack/packfile.c:272-622 | the index of a closed pack gives, under the hash of a serialized object, the offset of its entry and the CRC of the bytes of that entry |
| PackWriter.ReadEntry | src/pack/packfile.c:204-328 | end to end: on a file and index this writer closed, objects with distinct ids are read back under their ids, and other ids give ENOENT |
| Midx.WidthDetected | src/pack/midx.c:208-224 | each of the four id widths is recovered from the file size, for every object count |
| Midx.WidthRoundsUp | src/pack/midx.c:208-224 | otherwise the least of the four widths not below the share of an id, or the greatest |
| Midx.Create | src/pack/midx.c:43-112 | the file holds a sorted permutation of the rows under their fanout; without rows ENOENT |
| Midx.Ends | src/pack/midx.c:96-112 | a created file starts with MIDX and version 1 and ends in zeros instead of a checksum |
| Midx.Load | src/pack/midx.c:114-267 | a created file is read back completely, whatever the id width; files shorter than their 32-bit computed head or with a wrong signature are refused |
| Midx.Find | src/pack/midx.c:287-309 | the search between the two bounds read at the place of the fanout, with its reads outside the table or the file |
| Midx.Locate | src/pack/midx.c:114-309 | looking an id up in a created file, whatever the number of packs: what is found is the pack and offset of a row with this id; with fewer than 2^30 packs it is found if and only if some row has it |
| Midx.LookupExact | src/pack/midx.c:287-309 | below 2^30 packs a lookup reads nothing out of bounds and succeeds if and only if the id is in the table |
| Midx.ManyPacks | src/pack/midx.c:287-295 | from 2^30 packs on the words taken for the fanout are numbers of the pack table, from the pack count modulo 2^30 up |
| Midx.WrappedMiss | src/pack/midx.c:287-309 | for every n from 2^30 on, a file with n packs in which an id of the table is not found |
| Midx.Threshold | src/pack/midx.c:287-309 | lookups in every created file with n packs stay in bounds and find exactly the ids of the table if and only if n < 2^30 |
| ThreadPool.Pool.Submit | src/platform/platform.c:379-412 | on the fields in place: refuses with EBUSY exactly when full, else pushes at the tail |
| ThreadPool.Pool.Take | src/platform/platform.c:252-284 | on the fields in place: takes the task at the head |
| ThreadPool.Pool.Retire | src/platform/platform.c:286-301 | on the fields in place: one task less pending, waiters woken exactly at zero |
| ThreadPool.StepInv | src/platform/platform.c:252-301 | every step of every worker and submitter keeps the invariant |
| ThreadPool.PoolSafety | src/platform/platform.c:252-432 | in every reachable state: tail is head plus count around the ring, pending is queued plus taken but unfinished, every accepted task is in exactly one place and runs at most once with its own result, and tasks are taken in submission order |
| ThreadPool.WaitMeansDone | src/platform/platform.c:414-432 | wait returns only when every accepted task has run exactly once and left its result |
| ThreadPool.CanGoOn | src/platform/platform.c:252-301 | while tasks are pending and a worker is left, some worker can take its next step |
| ThreadPool.Finishes | src/platform/platform.c:252-301 | from every such state the workers alone can finish everything, in as many steps as there is work left |
| ThreadPool.CanLeave | src/platform/platform.c:252-301 | after shutdown, with nothing pending, every worker left can leave |
| ThreadPool.ExitMeansDrained | src/platform/platform.c:350-377 | once all workers have exited, the queue holds exactly the tasks accepted after the last of them left, so it is empty if and only if nothing was accepted after that step; every task accepted before has run once, none accepted later has |
| ThreadPool.StrandedForever | src/platform/platform.c:252-432 | a task accepted after the last worker has left never runs at any later state of any run, and wait does not return any more |
| ThreadPool.LateTaskStranded | src/platform/platform.c:350-412 | submitting does not check for shutdown: there is a run in which the only worker leaves before a task is accepted, and in every continuation of it the task never runs |
| Sha256.Context.Update | src/hash/sha256.c:107-130 | the context has absorbed one more chunk, wherever the block boundaries fall |
| Sha256.Context.Final | src/hash/sha256.c:132-168 | the digest is the fold of the transform over the message padded as in section 5.1.1 of FIPS 180-4 |
| Sha256.DigestOfChunks | src/hash/sha256.c:107-168 | every way of cutting a message below 2^61 bytes into updates gives the same digest |
| Sha256.PaddingMeans | src/hash/sha256.c:132-168 | section 5.1.1 of FIPS 180-4, byte by byte: one bit, zeros, the 64-bit length, up to the next whole block |
| Sha256.InitialWords | src/hash/sha256.c:93-106 | section 5.3.3 of FIPS 180-4: the initial words are the fractional parts of the square roots of the first eight primes |
| Sha256.SerializeAt | src/hash/sha256.c:132-168 | the digest is the eight words with their most significant bytes first |
| ObjectFormat.HashObject | src/object/object.c:127-141 | the object id is the digest of the serialized object; an object without bytes that is no blob is misread as a structure |
| ObjectFormat.HashBlobStreaming | src/index/index.c:844-861 | the two-update blob id of the index equals the one-shot id |
| ObjectFormat.ScanPrinted | src/odb/odb.c:331-342 | scanning a printed object header gives type name and size back |
| ObjectFormat.ScanMeans | src/odb/odb.c:331-342 | sscanf in general: white space, a word of at most 15 bytes, white space, a number saturating at 64 bits, and anything that is no digit |
| ObjectFormat.NameRoundTrip | src/object/object.c:215-236 | type names map back to their types |
| ObjectFormat.TypeNames | src/object/object.c:215-236 | the names are blob, tree, commit and tag; every other name counts as a blob |
| ObjectFormat.DecimalAt | src/object/object.c:104-108 | sizes are printed in decimal without leading zeros |
| ObjectFormat.SerializedParts | src/object/object.c:46-125 | type name, space, size, NUL, bytes |
| ProbeTable.CapacityIsLeast | src/index/index.c:193-200 | doubling from 1024 ends at the smallest power of two, from 1024 on, that is at least the size asked for |
| ProbeTable.MaskIsModulo | src/index/index.c:193-274 | for a power of two, masking with one less is the remainder: what makes the masked probes wrap around |
| ProbeTable.SearchHits | src/index/index.c:215-226 | probing finds a key whose slot no empty slot precedes |
| ProbeTable.SearchMisses | src/index/index.c:215-226 | probing for a key of no entry in the table finds nothing, tombstones or not |
| ProbeTable.Bury | src/index/index.c:262-274 | a tombstone keeps the structure of all other probe chains |
| ProbeTable.Fill | src/index/index.c:227-261 | filling the first slot that is not live keeps the structure |
| ProbeTable.SomeSlotFree | src/index/index.c:227-261 | an insertion always finds a slot, by counting, tombstones notwithstanding |
| ProbeTable.RoomToSpare | src/index/index.c:202-261 | a table can be half full only at 481, 993, 2017, ... entries: the numbers n above 480 for which n + 31 is a power of two |
| StagingIndex.Index.HtInit | src/index/index.c:193-200 | the capacity is Capacity(need), the power of two CapacityIsLeast speaks of; all slots are empty |
| StagingIndex.Index.HtRebuild | src/index/index.c:202-214 | the new table holds exactly the entries in use; its probe loops end |
| StagingIndex.Index.HtFind | src/index/index.c:215-226 | the masked probe loop computes Search |
| StagingIndex.Index.HtInsert | src/index/index.c:227-261 | a slot is always found; the inner regrow branch cannot be reached; a half full table is rebuilt first to the least capacity for 2*count+64, after which an entry already in use has two slots |
| StagingIndex.Index.HtRemove | src/index/index.c:262-274 | exactly the slot of the key becomes a tombstone |
| StagingIndex.Index.LookupIsScan | src/index/index.c:948-960 | in every valid index the hash lookup returns exactly what a linear scan for (path, stage) returns |
| StagingIndex.Index.AddFromBuffer | src/index/index.c:833-910 | adding content is one update of the map from (path, stage) to entry: the new entry has the id of the content, the mode, the size and the path length; stat data are zero for a new path and kept for an old one; table and entries stay in bijection |
| StagingIndex.Index.Remove | src/index/index.c:912-934 | ENOENT exactly for missing keys; otherwise the map loses the key, and the index stays valid if and only if the entry was the last one or 2*count+64 did not exceed the capacity; it can fail to only at 481, 993, 2017, ... entries, and then some slot names a position that is not in use |
| StagingIndex.RemoveFirst | src/index/index.c:833-934 | for every n > 1: adding n paths and removing the first leaves a valid index exactly when n is none of 481, 993, 2017, ... |
| StagingIndex.RemoveSpoilsTable | src/index/index.c:912-934 | a concrete index of 481 entries that a removal leaves invalid |
| StagingIndex.Index.Clear | src/index/index.c:936-946 | an empty, valid index |
| StagingIndex.Index.SortEntries | src/index/index.c:430-434 | the same entries in (path, stage) order, the table rebuilt |
| StagingIndex.Index.Find | src/index/index.c:948-960 | the entry the map holds, or ENOENT |
| IndexRun.CountGuard | src/index/index.c:202-261 | after any run whatever, a removal at any other number of entries than 481, 993, 2017, ... meets the guard of the table |
| IndexRun.FindsLatest | src/index/index.c:833-960 | in any run a lookup after an addition of its path, with no later addition, removal or clearing of it, answers an entry with the id, mode and size of that content |
| IndexRun.FindsNothing | src/index/index.c:833-960 | after a removal or clearing, or from the start, it answers that there is none |
| IndexRun.Replay | src/index/index.c:833-960 | any run of add, remove, find, clear and write on a new index whose removals of present keys meet the guard 2*count+64 <= capacity: every answer and the final content are those of the plain map, capacity and sortedness are the predicted ones, and the table is intact |
| Entries.Sort | src/index/index.c:34-40 | the entries in the order of index_entry_cmp, none lost |
| Entries.SortedMeans | src/index/index.c:34-40 | sorted means by path, and by stage for the same path |
| IndexFile.EntrySize | src/index/index.c:440-447 | an entry takes the fixed part, its path, a NUL, and padding to a multiple of eight |
| IndexFile.EntryLayout | src/index/index.c:448-482 | at which byte of an entry each of its fields lies |
| IndexFile.RawMeans | src/index/index.c:465-475 | set flags are written as they are; otherwise the path length in twelve bits and the stage above |
| IndexFile.Print | src/index/index.c:436-489 | header, entries and checksum fill exactly the total size computed first |
| IndexFile.FileLayout | src/index/index.c:436-489 | DIRC, version 2, the number of entries, and each entry where those before it end |
| IndexFile.WriteTo | src/index/index.c:427-518 | the file lists the entries in (path, stage) order; the index stays valid with the same map |
| IndexFile.ReadOne | src/index/index.c:352-408 | an entry at its place is read back with normalised flags; stops when the fixed part does not fit, fails when a path has no end |
| IndexFile.ReadEntries | src/index/index.c:287-420 | everything written is read back, also when more entries are announced than there are; short files and wrong signatures are ERROR, other versions EUNSUPPORTED |
| IndexFile.RoundTrip | src/index/index.c:287-518 | opening what was written gives a valid index with the same keys in key order and the same entries, flags normalised |
| TreeFormat.ModeRoundTrip | src/index/index.c:1212-1219 | octal printing and strtoul give every 32-bit mode back |
| TreeFormat.OctalAt | src/index/index.c:1154-1166 | modes are printed in octal without leading zeros |
| TreeFormat.EntryParts | src/index/index.c:1160-1173 | mode, space, name, NUL, id |
| TreeFormat.DirectoryMode | src/index/index.c:1139-1143 | the mode of a directory is printed as 40000 |
| TreeFormat.RoundTrip | src/index/index.c:1149-1174 | parsing printed tree entries gives them back |
| TreeFormat.ParseContent | src/index/index.c:1209-1232 | the parsing loop: a malformed entry ends the tree silently, a mode of 16 or more characters is an error |
| TreeFormat.ParsesText | src/index/index.c:1209-1232 | any mode text below 16 bytes counts as strtoul reads it; longer ones are an error, and a cut entry ends the tree |
| TreeFormat.TailDropped | src/index/index.c:1209-1232 | whatever cannot be read after the entries is dropped silently, unless its mode is too long |
| TreeFormat.PrintContent | src/index/index.c:1149-1174 | the writing loop prints the entries in order |
| TreeBuild.UnderSubPrefix | src/index/index.c:1084-1103 | a path lies under a directory name exactly if that is the part before its next slash |
| TreeBuild.Partition | src/index/index.c:1083-1118 | the files under a prefix are its direct files and the files of each of its directories, each once |
| TreeBuild.AddEntry | src/object/tree.c:50-77 | the tree keeps its entries in strcmp order and gains exactly one |
| TreeBuild.FirstPass | src/index/index.c:1083-1118 | direct files become entries, every directory is collected exactly once |
| TreeBuild.Deeper | src/index/index.c:1120-1137 | a nested prefix is longer, fits the path of some file, and has files under it: why the recursion ends |
| TreeBuild.WriteTreeRecursive | src/index/index.c:1067-1180 | the tree written for a prefix holds exactly the files under it, sorted, with every directory once and none empty; the store only gains trees |
| TreeRead.Level | src/index/index.c:1203-1280 | one level of reading: files of a tree are those among its entries and those below the subtrees pushed |
| TreeRead.ReadTree | src/index/index.c:1182-1287 | the stack loop ends on stores without cycles; missing objects are ENOENT, other objects EINVAL, an overlong mode is ERROR; a written tree is read back completely if and only if none of its files has mode 040000, and no file with that mode is ever returned |
| TreeRead.WriteTree | src/index/index.c:1289-1320 | refused with EINVAL exactly when some entry has a stage; the empty tree of an empty index is misread as a structure; otherwise the id, the hash of the serialized tree, of a tree that holds exactly the entries |
| TreeRead.ReadsBack | src/index/index.c:1067-1320 | after a write that met no collision the id leads to the whole tree, nested as deep as its directories |
| TreeRead.RoundTrip | src/index/index.c:1067-1320 | for every non-empty index of stage-0 entries, reading the written tree yields the same paths, modes and ids if and only if no entry has mode 040000 |
| OdbCache.LooseRoundTrip | src/odb/odb.c:331-352 | parsing a serialized object gives it back |
| OdbCache.LooseParts | src/odb/odb.c:331-352 | a payload longer than announced is cut, a shorter one and a header without end are errors |
| OdbCache.ReadLoose | src/odb/odb.c:331-352 | the parsing of a loose object, with its errors |
| OdbCache.FillLine | src/odb/odb.c:358-371 | filling the first free of eight lines keeps the cache coherent |
| OdbCache.Odb.Remember | src/odb/odb.c:358-371 | the object is cached afterwards unless all eight lines of its id hold others |
| OdbCache.Odb.Probe | src/odb/odb.c:202-216 | a hit is what the store has; a miss means none of the lines up to the first free one has the id |
| OdbCache.Odb.Read | src/odb/odb.c:199-371 | the same answer as without the cache: a packed object wins, what is nowhere is ENOENT, and what lies on disk in the printed form is found |
| OdbCache.Odb.Write | src/odb/odb.c:384-552 | the id is the hash of the serialized object; the same effect on the store as without the cache, and the cache stays coherent; an object without bytes that is no blob is misread as a structure |
| OdbCache.Replay | src/odb/odb.c:199-552 | over any run of reads and writes, up to the first write that is misread, every reply is the one of the uncached store |
| OdbCache.RepliesRight | src/odb/odb.c:199-552 | the replies of a run are right in this sense for the disk at that point |
| OdbCache.DiskIs | src/odb/odb.c:384-552 | after a run the disk holds what it held before, unchanged, and the objects written |
| OdbCache.WrittenReadsBack | src/odb/odb.c:199-552 | whatever is written reads back at every later point of the run |
| Merge.IsAncestor | src/merge/merge.c:12-34 | the loop over two arrays of 256 ids ends on every acyclic history (path counts over the stack decrease) and computes the bounded search |
| Merge.FindsSound | src/merge/merge.c:12-34 | true only for real ancestors |
| Merge.FindsExact | src/merge/merge.c:12-34 | exact whenever at most 256 parent links can be reached |
| Merge.WideMergeMissed | src/merge/merge.c:12-34 | the last of the 257 parents of a merge is not found |
| Merge.WideExists | src/merge/merge.c:12-34 | a concrete history, a commit with 257 parents, in which the last parent is not found |
| Merge.Threshold | src/merge/merge.c:12-34 | every history with at most n reachable links is searched exactly if and only if n <= 256 |
| Merge.Repository.Merge | src/merge/merge.c:55-91 | every outcome: unborn HEAD is moved; equal or contained commits change nothing; a contained HEAD is fast-forwarded, its index read and written first and the first failure returned; all else is EUNSUPPORTED; after OK HEAD reaches both sides |
| Merge.MergeSmall | src/merge/merge.c:55-91 | in a small history EUNSUPPORTED is returned exactly when neither side reaches the other |
| Resilience.BudgetBound | src/network/protocol.c:67-78 | any run admits at most b retries between two refills and at most 2*b in any 60000 ms |
| Resilience.AdmitsExactly | src/network/protocol.c:67-78 | before the next refill exactly as many retries are admitted as remain, without a limit all |
| Resilience.RefillsExactly | src/network/protocol.c:67-78 | a request at or after the time of the refill starts 60000 ms with b retries |
| Resilience.Remote.BudgetConsume | src/network/protocol.c:67-78 | the fields change as the budget does |
| Resilience.ClosedBelow | src/network/protocol.c:80-119 | closed implies fewer failures than the threshold |
| Resilience.TripsExactly | src/network/protocol.c:104-119 | it trips exactly on the threshold-th consecutive failure counted while closed |
| Resilience.RefusesWhileOpen | src/network/protocol.c:80-87 | for open_ms after a trip every request is refused, whatever outcomes are reported |
| Resilience.AllowsExactly | src/network/protocol.c:80-119 | closed allows every request; after a trip exactly the requests from the end of the open time on are allowed |
| Resilience.Reopens | src/network/protocol.c:89-119 | a failure reported after the open time opens it again from then |
| Resilience.ClosesExactly | src/network/protocol.c:89-102 | it closes exactly on the last of success_threshold counted successes with no counted failure between |
| Resilience.Remote.CircuitAllow | src/network/protocol.c:80-87 | the answer of the breaker |
| Resilience.Remote.CircuitOnSuccess | src/network/protocol.c:89-102 | the fields change as the breaker does on a success |
| Resilience.Remote.CircuitOnFailure | src/network/protocol.c:104-119 | the fields change as the breaker does on a failure |
| PktLine.HexRoundTrip | src/object/object.c:169-213 | every id of at most 64 bytes is read back from its digits |
| PktLine.HexDigits | src/object/object.c:169-213 | which characters are digits, and of what value; lower case is written |
| PktLine.HexErrors | src/object/object.c:179-213 | reading digits fails with EINVAL on an odd length or a wrong character, with EOVERFLOW beyond 128 digits, and not otherwise |
| PktLine.ToHexAt | src/object/object.c:169-178 | two digits a byte, the upper half first |
| PktLine.OidFromHex | src/object/object.c:179-213 | the digit loop, with EINVAL and EOVERFLOW |
| PktLine.LengthRoundTrip | src/network/protocol.c:356-358 | strtoul in base 16 reads every printed four-digit length back |
| PktLine.FourHex | src/network/protocol.c:356-358 | lengths may be written in digits of either case |
| PktLine.EncodePacket | src/network/protocol.c:402-420 | frames a payload, or a flush; long payloads are cut |
| PktLine.EncodeMeans | src/network/protocol.c:402-420 | a packet carries as much of the payload, up to its first NUL, as 65535 bytes can take, and its length in four digits |
| PktLine.ParsePacket | src/network/protocol.c:355-396 | each turn moves by at least four bytes and never past the end |
| PktLine.PacketMeans | src/network/protocol.c:355-396 | by its length: flushes and delimiters are skipped, lengths 2 and 3 and lengths beyond the end stop the parsing, others are lines |
| PktLine.TrimMeans | src/network/protocol.c:360-366 | line feeds and carriage returns at the end are cut, and nothing else |
| PktLine.LineMeans | src/network/protocol.c:360-394 | a line gives a ref if and only if, without its line breaks, it is 40 or 64 digits, a space, a name of 1..1024 bytes, and then the end or a NUL and anything |
| PktLine.Parse | src/network/protocol.c:346-400 | the parsing loop with its skips and stops |
| PktLine.ParsedRefs | src/network/protocol.c:346-400 | no parsed name contains a NUL; ids have 20 or 32 bytes |
| PktLine.RefsRoundTrip | src/network/protocol.c:346-420 | refs framed in pkt-lines, with capabilities or without and with flushes anywhere, are parsed back, all of them and in order; parsing stops at what is no packet |
| PktLine.SendAndReceive | src/network/protocol.c:346-420 | the framing and the parsing loop one after the other give the refs back |
| BundleHeader.Write | src/bundle/bundle.c:24-48 | prints the header whole if every line is shorter than its buffer; a line that just fills it ends in NUL instead of a line feed, and a longer one is read beyond the buffer |
| BundleHeader.ReadBack | src/bundle/bundle.c:50-130 | the line loop with its skips |
| BundleHeader.LineMeans | src/bundle/bundle.c:66-110 | a line gives a ref if and only if it is an id in hexadecimal, a space, a name, and then the end or a NUL and anything, and does not start with # v2 |
| BundleHeader.LongLine | src/bundle/bundle.c:50-75 | a line of 4095 bytes and more overruns the buffer of the reader |
| BundleHeader.HeaderReadBack | src/bundle/bundle.c:24-130 | a written header is read back in order, and reading stops exactly where the packed data begin |

## Left out

- StagingIndex.Index.Remove: what a spoiled table leads to later is not described; from there lookups can compare paths that were freed.
- IndexRun.Replay: removing the entry in the last position is also harmless when the table is half full, as StagingIndex.Index.Remove states; over runs this is not used, because the map does not know positions.
- Fanout.Search: the 32-bit sum of the bounds, which wraps only in tables of more than 2^31 ids, is left out, and with it such tables in Fanout.Find and Midx.Threshold.
- Entries.Sort: stands for the C library's qsort; only its result is modelled, not its steps.
- TreeBuild.AddEntry: inserts into a sorted table instead of sorting it anew; equal names (a file and a directory) may come in another order than qsort leaves them.
- TreeRead.WriteTree: for the empty index only `Misread` is stated, because its empty tree object is taken for a structured object (src/object/object.c:61-96).
- TreeRead.RoundTrip: needs the same bound on nesting as ReadTree when some entry has mode 040000, whose id is then read as a tree.
- TreeRead.ReadTree: needs a bound on how deep trees nest; on a store with a cycle the code does not end.
- OdbCache.Odb.Write: needs that no other object is stored under the same id; after a `Misread` nothing is promised.
- ObjectFormat.HashObject: for empty objects that are no blobs only `Misread` is stated; objects whose data is a structure are left out.
- The loop of tree.c that prints a tree into eight-byte mode buffers (src/object/tree.c:175-193), which agrees with TreeFormat.PrintContent on modes below 8^7.
- OdbCache.ReadLoose: compression and the growing output buffer of the reader are left out; a size that only a wrapped sum admits counts as malformed.
- Midx.Create: the collection of rows from directories is left out; rows are given.
- ObjectFormat.ScanPrinted: the type names ofs-delta and ref-delta, which no stored object has, are not modelled, nor are signs before the size.
- Merge.Repository.Merge: working-tree checkout, whose result the code ignores, is left out.
- PackWriter.Writer.AddObjectsParallel: compression and write failures are left out; the schedule is any run of the pool in which wait returns.
- PackUnpack.Unpack: on files with reference deltas only single turns are described (PackUnpack.EntryTurn).
- PackRead.ReadObjectAt: bases of reference deltas come from a lookup given as a parameter.
- PackIndex.Load: gives back offsets below 2^31; the writer truncates larger ones and never writes eight-byte offsets.
- Varint.DecodeVarint: shifts of 64 and more, undefined in C, drop their bits.
- A null base of a delta counts as an empty one; allocation failure is left out everywhere.
- Hash-table operations that bypass the table: conflict_add and conflict_remove, and entries appended by read_tree without a rebuild.
- tree_parse_raw repeats the loop of TreeFormat.ParseContent with an error instead of a silent end.
- Commit, tag and LFS text formats, refs, reflogs, submodules, status and diff.
- Load-shedding counters, backoff jitter, and fairness of the thread pool: that steps that can be taken are taken.
- SHA-384, SHA-3 and commit-graph code, and the SHA-256 block transform.
- File input and output, mapping, renaming, network transports and the command line.
