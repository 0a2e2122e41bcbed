# A verified model of the ZFS reader's core algorithms

This project models, in Dafny, how `zfs-core` finds and decodes data in a raw ZFS
image, and how `zfs-forensic` compares and recovers from it: block pointers and the
three-copy block read, the indirect block tree, the codecs and checksums written in
the repository, the packed nvlist, ZAP objects, system attribute buffers, the choice
of the active uberblock, path lookup, and the snapshot recovery walk.

Every loop of the source that is modelled appears as a method, proved equal to a
specification function; the theorems are lemmas about those functions. Searches the
source writes as iterator chains (by attribute name, by id, by layout number) are
functions here too. Parsers have a printer (a format of their own, with every ignored bit and every unused byte left
free) and are proved to invert it at any place in any larger buffer; decoders are
proved to accept exactly the printed inputs.

| file | what it holds |
|---|---|
| `bytes.dfy`, `arithmetic.dfy` | endian reads that give 0 out of range, their printers, buffer positions, small arithmetic |
| `blkptr.dfy`, `dnode.dfy` | the 128-byte block pointer in both byte orders; the dnode record |
| `read.dfy` | one block read with ditto fallback, and the auditor's checksum verdict |
| `tree.dfy`, `extents.dfy`, `objects.dfy` | the indirect tree as one flat array: descent, capped level-order walk, whole-object reads |
| `divergence.dfy` | two images on which the descent and the level-order walk follow different pointers |
| `checksum.dfy`, `three_words.dfy` | Fletcher-4 and Fletcher-2: closed forms, concatenation, detection, and exactly which changes of three words are missed |
| `lzjb.dfy`, `lzjb_short.dfy`, `zle.dfy`, `compress.dfy` | the codecs and their dispatch |
| `nvlist.dfy`, `nvlist_cut.dfy` | the XDR name/value list (RFC 4506, sections 4.1, 4.5, 4.9 to 4.11), whole and cut off |
| `zap.dfy`, `zap_store.dfy`, `stored.dfy` | ZAP listings, the writer they invert, and the listing of an object stored in an image |
| `sa.dfy`, `sa_objects.dfy` | system attribute buffers; their registry and layouts read from ZAP objects |
| `label.dfy` | active uberblock selection |
| `recover.dfy`, `pool.dfy`, `paths.dfy` | deleted-file recovery, on any pool and on the pool of an image; path resolution |

Conventions. A byte is a number below 256; unsigned widths are subset types, and
wrap-around is written out. Strings are byte sequences. The image is a byte sequence,
or, for the tree, any function from pointers to read results. The codecs of other
crates and SHA-256 are parameters about which nothing is assumed.

## Where the code and its words differ

The model follows the code in each of these; the named lemma pins the fact down.

- Decompression promises exactly the logical size, and an error for output that does not
  reach it. Only the two codecs of the repository keep the second half
  (`Compress.OwnCodecsRefuse`, `Compress.OwnShortStreamsFail`). Whatever gzip and zstd
  deliver is cut or padded with zeros (`Compress.ForeignOutputIsResized`), and an LZ4 block
  comes out at the length the foreign decoder returned (`Compress.DecompressedLength`;
  `Compress.Lz4FallsShort` for a decoder that delivers nothing).
- The descent's shift count can reach 64 for objects with eight levels of large
  indirect blocks. A release build takes the count modulo 64 and then refuses block
  ids its tree holds (`BlockTree.WrappedShiftRefuses`, met by a dnode that parses,
  `BlockTree.ParsedDnodeRefuses`); `BlockTree.DigitsExactly` says for which block ids the
  digits are right.
- A file or object array is read as if block k began at k times the block size. It does
  exactly when every leaf pointer, hole or not, carries the object's block size
  (`Objects.UniformExactly`, `Objects.UniformIffSlotsSized`). A pointer never written is
  all zeros and reads as 512 bytes, so a sparse file with larger blocks comes out shifted
  (`Objects.SparseFileShifts`).
- The nvlist documentation promises an error for a buffer that ends mid-structure. A
  printed list cut off at any byte is refused exactly when the cut is in the text of a
  name or a string; all other cuts are accepted (`NvlistCut.CutExactly`). A cut number is
  then reported as 0 under its own name (`NvlistCut.CutNumberIsZero`), and a buffer that
  ends before its first pair is an empty list (`Nvlist.TruncatedIsEmpty`).
- A 1 KiB uberblock scan is said to find the active uberblock at any slot size. It does
  exactly when every uberblock off the larger stride is beaten by one on it
  (`Label.ScansAgreeExactly`); a stale copy inside a larger slot misleads it
  (`Label.InteriorMagicMisleads`).
- Unregistered attribute ids are said to be surfaced, never dropped; only the first one
  is, and only if every attribute before it is of fixed size and fits in the buffer
  (`SystemAttributes.OnlyTheFirstUnknownSurfaces`).
- A checksum mismatch can be reported for a pointer whose block the reader serves,
  verified, from another copy (`ReadOne.FalseAlarm`; `ReadOne.FalseAlarmHappens` is an
  image where it is).
- The pointer enumeration is described as every addressable pointer of an object. It
  follows each pointer's own byte-order bit and the whole of each indirect block; reads by
  block id follow the dnode's order and pointer count. In one byte order, and below the cap,
  the two agree exactly when no addressable leaf lies below a pointer past that count
  (`Extents.L0IsFlat`). On the images of `Divergence.LongBlocksDiverge` and
  `Divergence.ByteOrdersDiverge` they do not.
- Of a repeated attribute id the metadata decoder reports the last occurrence and the
  by-name walk the first (`SystemAttributes.DecoderReportsLast`,
  `SystemAttributes.WalkReportsFirst`, `SystemAttributes.AgreementExactly`;
  `SystemAttributes.RepeatedIdDiffers` is a buffer where they differ).
- Fletcher-4 detects every change of one or two words up to 32 MiB, and of three words up to
  256 KiB (`ThreeWords.ThreeWordsDetected`). Beyond that it misses exactly the changes of
  `ThreeWords.ThreeWordsExactly`, of which `ThreeWords.ThreeWordsMissed` is a family.

## Model

| member | source | states |
|---|---|---|
| `BlockTree.ReadDnodeDataAt` | core/src/read.rs:153-212 | The descent loop equals the recursive descent, errors included |
| `BlockTree.ReadIsFlatLookup` | core/src/read.rs:168-211 | For every reader and dnode, and every block id whose shift counts are sound (`ShiftSafe`): the shift-and-mask descent is a lookup in the left-to-right array of all leaves, holes and unreadable blocks standing for all leaves below them; past the array's end it is the out-of-range error |
| `BlockTree.DescendReadsLeaf` | core/src/read.rs:188-211 | Below any pointer the descent ends at the leaf numbered by the low base-P digits |
| `BlockTree.DigitsExactly` | core/src/read.rs:178-196 | Shifts and masks are the base-P digits of the block id if and only if no reduced shift count loses bits |
| `BlockTree.WrappedShiftRefuses` | core/src/read.rs:178-186 | Where a shift count reaches 64, an object of any number of pointers refuses ids its array contains |
| `BlockTree.ParsedDnodeRefuses` | core/src/read.rs:178-186 | A dnode that parses refuses every id from 2^55 on, whatever the image |
| `BlockTree.PtrsArePow2` | core/src/read.rs:170-171 | Pointers per indirect block are a power of two and the shift is its logarithm |
| `BlockTree.PointersPerBlock` | core/src/read.rs:170 | The count by the dnode's shift, cut at 24 and never below one |
| `BlockTree.RefusedReads` | core/src/read.rs:154-168 | Objects without levels and ids past the last block are refused; more than eight levels are read as eight |
| `Extents.L0Blkptrs` | core/src/vfs.rs:409-442 | The level-rebuilding loops equal the capped level-order specification |
| `Extents.PushLevel` | core/src/vfs.rs:420-437 | One level yields the first 65536 non-hole children in order, unreadable blocks skipped |
| `Extents.L0IsFlat` | core/src/vfs.rs:409-442 | In one byte order and below the cap, with unreadable, short and long blocks and holes anywhere: the enumeration is the live addressable entries of the flat array and the stray leaves together, and is exactly those entries in block id order if and only if there are no stray leaves |
| `Extents.ListedIsOnDisk` | core/src/vfs.rs:440 | On every tree, every listed pointer is non-embedded with a first copy in use |
| `Extents.ListedExactly` | core/src/vfs.rs:409-442 | Where nothing is stray, the list is every live leaf that is non-embedded with a first copy in use, in block id order |
| `Extents.NoStrayLeaves` | core/src/vfs.rs:423-434 | Where no indirect block is longer than the dnode says, nothing is stray |
| `Divergence.LongBlocksDiverge` | core/src/vfs.rs:423-434 | An image whose indirect block is longer than the dnode says: two pointers are listed, block ids lead to one |
| `Divergence.ByteOrdersDiverge` | core/src/vfs.rs:431 | An image whose indirect block is in the other byte order: the pointer listed is not one a block id leads to |
| `Extents.LevelOrderIsLive` | core/src/vfs.rs:416-439 | Level order and left-to-right order account for each other below any pointer, for any choice of leaves of interest |
| `Extents.ImageHolesReadZero` | core/src/read.rs:92-98 | Reading a hole of an image gives zeros, as the theorem above asks of a reader |
| `Extents.CapYieldsPrefix` | core/src/vfs.rs:409-442 | On every tree the capped result is a prefix of the uncapped one, of at most 65536 pointers |
| `Extents.CapIsReached` | core/src/vfs.rs:419-442 | A longer level is cut after exactly 65,536 pointers |
| `Extents.WithinCapIsWhole` | core/src/vfs.rs:416-437 | With no level above the cap nothing is lost |
| `Objects.ReadZapObject` | core/src/zap.rs:92-116 | Concatenates the first blocks up to the 64 MiB bound, or gives the first read error |
| `Objects.ZplReadFileWith` | core/src/zpl.rs:171-207 | Concatenation bounded at 512 MiB, then cut to the given size; error cases |
| `Objects.MosDnodeAt` | core/src/read.rs:221-241 | The object lookup, with its absent cases |
| `Objects.BlockLies` | core/src/zpl.rs:197-200 | Whatever the sizes, each block lies where the blocks before it end |
| `Objects.ByteAt` | core/src/zpl.rs:182-206 | With uniform blocks, byte p of the concatenation is byte p mod bs of block p div bs |
| `Objects.UniformExactly` | core/src/zpl.rs:197-200 | Blocks are uniform if and only if each starts at its multiple of the block size |
| `Objects.UniformIffSlotsSized` | core/src/read.rs:82-91 | On an image, if and only if every leaf pointer, hole or not, carries the data block size |
| `Objects.SparseFileShifts` | core/src/read.rs:85-91 | A file whose first pointer is all zeros: byte 512 is byte 0 of block 1 |
| `Objects.FileContent` | core/src/zpl.rs:182-206 | A file is its blocks one after another, flat where they are uniform; a size gives exactly the prefix of length min(size, total) |
| `Objects.ZapReadWhole` | core/src/zap.rs:92-116 | A ZAP object of at most 64 MiB is read whole, and never more is read |
| `Objects.FileReadWhole` | core/src/zpl.rs:190-196 | A file of at most 512 MiB is read whole, and never more except for a first block |
| `Objects.RefusedObjects` | core/src/zpl.rs:177-189 | Absent files and objects without a block size are refused |
| `Objects.ObjectAtItsPlace` | core/src/read.rs:221-241 | An object is found exactly where its 512 bytes parse to a dnode of non-zero type |
| `Objects.MosDnodeIsArrayLookup` | core/src/read.rs:221-241 | With uniform blocks, object k is parsed from bytes 512k to 512k+512 of the flat array |
| `DnodePhys.ParseDnodeAt` | core/src/dnode.rs:108-172 | The pointer loop, capped and stopped at the first pointer not all there |
| `DnodePhys.DnodeRoundTrip` | core/src/dnode.rs:108-172 | A one-slot dnode written out with its pointers and bonus parses back, in both byte orders |
| `DnodePhys.DnodeCaps` | core/src/dnode.rs:128-150 | Lying counts give three pointers and the bonus bytes that fit |
| `ReadOne.ReadBlockAt` | core/src/read.rs:62-139 | The loop over the three copies equals the specification, last error included |
| `ReadOne.ReadUsesLowestUsableCopy` | core/src/read.rs:104-138 | A read succeeds iff some copy is in range and decompresses, and serves the lowest such copy |
| `ReadOne.FailedReadReportsLastCopy` | core/src/read.rs:99-138 | A failed read reports its last non-empty copy; the prepared error never comes out |
| `ReadOne.IntactCopyIsRead` | core/src/read.rs:104-138 | The first copy in use is read from 4 MiB plus its offset, exactly its stored size, and unpacked and verified by the pointer's own codec, size, order and checksum |
| `ReadOne.EmbeddedIsRead` | core/src/read.rs:66-83 | An embedded block is read from the pointer's payload, unverified |
| `ReadOne.HolesAndBombs` | core/src/read.rs:63-92 | Holes up to 32 MiB read as zeros; larger and empty blocks are refused with their size |
| `ReadOne.OutOfRangeReports` | core/src/read.rs:108-118 | A lone copy past the image is refused with the end it needs, wrapped and saturated as 64-bit sums are |
| `ReadOne.VerdictByFields` | forensic/src/lib.rs:324-367 | The auditor's answer in every case, by the pointer's fields and the bytes at its first copy |
| `ReadOne.BlkptrChecksumVerdict` | forensic/src/lib.rs:324-367 | The auditor's search equals the verdict on the first in-range copy |
| `ReadOne.VerdictMatchesReader` | forensic/src/lib.rs:340-366 | If the first in-range copy decompresses, each verdict holds iff the reader's checksum result and the copy's bytes say so |
| `ReadOne.MismatchIsServed` | forensic/src/lib.rs:340-366 | A mismatch concerns the very bytes the reader serves iff the first in-range copy decompresses |
| `ReadOne.FalseAlarm` | forensic/src/lib.rs:340-366 | The family where a mismatch is reported though a verified block is served |
| `ReadOne.FalseAlarmHappens` | forensic/src/lib.rs:340-366 | A pointer and an image that meet those hypotheses |
| `ReadOne.BlockLength` | core/src/compress.rs:96-117 | Every block comes out at its logical size, unless LZ4 |
| `BlockPointer.ParseBlkptr` | core/src/blkptr.rs:228-283 | Filling the arrays in loops equals the field-by-field specification |
| `BlockPointer.GatherBpePayload` | core/src/blkptr.rs:289-297 | In place, the buffer receives the three regions, in order |
| `BlockPointer.ParsePrinted` | core/src/blkptr.rs:228-283 | Decoding inverts the bit-packing printer for every in-range pointer, in both byte orders, whatever the ignored bits |
| `BlockPointer.KnownPointer` | core/src/blkptr.rs:345-380 | Sixteen words with a different value in every field, and what they decode to in either order |
| `BlockPointer.EmbeddedHasNoPlace` | core/src/blkptr.rs:236-265 | An embedded pointer has three zero DVAs and zero birth, fill and checksum, whatever its bytes |
| `BlockPointer.ShortPayload` | core/src/blkptr.rs:289-297 | A pointer cut short keeps the payload regions it holds whole, the others zero |
| `BlockPointer.SizesAndHoles` | core/src/blkptr.rs:179-220 | Logical and stored size by their fields, embedded and not, and when a pointer is a hole |
| `BlockPointer.ParseEmbedded` | core/src/blkptr.rs:236-265 | All embedded fields and all 112 payload bytes survive |
| `BlockPointer.ParseSwapped` | core/src/blkptr.rs:228-283 | A non-embedded pointer with every word byte-swapped decodes alike in the other order |
| `BlockPointer.ParsedSizesAreSane` | core/src/blkptr.rs:191-214 | No decoded pointer exceeds 32 MiB or has size 0 |
| `BlockPointer.ParseZeros` | core/src/blkptr.rs:218-220 | An all-zero pointer is a hole of 512 bytes |
| `Checksum.Fletcher4` | core/src/checksum.rs:99-114 | Four running sums equal, modulo 2^64, the weighted sums over the words |
| `Checksum.WeightClosed` | core/src/checksum.rs:99-114 | The weights are k, k(k+1)/2 and k(k+1)(k+2)/6 |
| `Checksum.Fletcher4Concat` | core/src/checksum.rs:99-114 | The checksum of a word-aligned concatenation is a fixed function of the parts' checksums and the second length |
| `Checksum.TwoWordsDetected` | core/src/checksum.rs:99-114 | Up to 32 MiB, changing one or two words always changes the checksum, despite the wrap |
| `Checksum.TwoBytesDetected` | core/src/checksum.rs:99-114 | The same for any one or two bytes of a buffer, in either byte order |
| `ThreeWords.ThreeWordsExactly` | core/src/checksum.rs:99-114 | Up to 32 MiB, a change of three words is missed if and only if the differences cancel, balance about the third word, and have a second moment that is a multiple of 2^65 |
| `ThreeWords.UnseenIsMissed` | core/src/checksum.rs:99-114 | Such a change is missed on a block of any length |
| `ThreeWords.ThreeWordsDetected` | core/src/checksum.rs:99-114 | Up to 256 KiB no change of three words is missed |
| `ThreeWords.ThreeWordsMissed` | core/src/checksum.rs:99-114 | A three-word change 8 MiB apart leaves the checksum alone |
| `Checksum.VerifyRejectsOneOfTwo` | core/src/checksum.rs:161-170 | No stored checksum verifies two buffers that differ in one or two bytes |
| `Checksum.AcceptsExactly` | core/src/checksum.rs:161-170 | Each function number accepts a block exactly with its own sums in the block's order, or does not verify |
| `Checksum.SumsAreWeighted` | core/src/checksum.rs:99-114 | Which words the sums run over and with what weights |
| `Checksum.KnownBlocks` | core/src/checksum.rs:199-227 | Four small blocks and the checksums they are accepted with |
| `Checksum.Fletcher2` | core/src/checksum.rs:121-136 | The two interleaved lanes equal their weighted sums |
| `Checksum.Fletcher2TwoWords` | core/src/checksum.rs:121-136 | Exactly which two-word changes of a lane go unnoticed |
| `Lzjb.Decompress` | core/src/compress.rs:197-255 | The rolling-mask loop equals the item decoder, each error included |
| `Lzjb.CopyMatch` | core/src/compress.rs:229-243 | Copying from the output being written is periodic repetition, cut at the requested length |
| `Lzjb.RoundTrip` | core/src/compress.rs:197-255 | Any valid stream, packed eight per copymap byte and followed by anything, decodes to the first bytes of its LZ77 meaning |
| `Lzjb.DecodesExactly` | core/src/compress.rs:197-255 | The decoder gives an output iff the buffer begins with an encoding meaning it |
| `Lzjb.DecodedPrefix` | core/src/compress.rs:207-254 | Output has the requested length; asking for less gives a prefix |
| `Zle.Decompress` | core/src/compress.rs:260-293 | The run-length loops equal the run decoder, each error included |
| `Zle.PrintedDecodes` | core/src/compress.rs:260-293 | Printed runs decode to what they stand for |
| `Zle.DecodesExactly` | core/src/compress.rs:260-293 | The decoder gives an output iff the buffer begins with printed runs meaning it |
| `Zle.DecodedPrefix` | core/src/compress.rs:260-293 | Output has the requested length; asking for less gives a prefix |
| `Compress.DecompressOff` | core/src/compress.rs:121-128 | The in-place copy is the source cut or zero-padded to the size |
| `Compress.DecompressedLength` | core/src/compress.rs:105-117 | Every codec but LZ4 delivers exactly the requested size |
| `Compress.CodecByNumber` | core/src/compress.rs:62-117 | Which codec each stored number stands for, what it does with the bytes, and when it is refused |
| `Compress.Lz4Output` | core/src/compress.rs:132-150 | Which bytes the foreign LZ4 decoder is given, and that its output is taken |
| `Compress.KnownStreams` | core/src/compress.rs:364-397 | LZJB and ZLE streams given byte by byte |
| `Compress.Lz4FallsShort` | core/src/compress.rs:132-150 | A foreign LZ4 decoder that delivers nothing is taken at its word, whatever the size |
| `Compress.ForeignOutputIsResized` | core/src/compress.rs:153-193 | What the foreign gzip and zstd decoders deliver is cut or padded, never refused |
| `Compress.OwnCodecsRefuse` | core/src/compress.rs:99-101 | LZJB and ZLE succeed if and only if the buffer begins with an encoding of at least the size |
| `Compress.OwnShortStreamsFail` | core/src/compress.rs:99-101 | A whole stream of theirs that means less than the size is an error |
| `Nvlist.ParseBodyAt` | core/src/nvlist.rs:184-273 | The recursive pair loop equals the parser specification, caps and errors included |
| `Nvlist.ReadPrintedValue` | core/src/nvlist.rs:222-260 | A printed value of each consumed type is read back at any offset and depth |
| `Nvlist.RoundTrip` | core/src/nvlist.rs:160-273 | Any printed tree of pairs parses back, whatever follows, and foreign-typed pairs leave no trace |
| `Nvlist.ParsePrintedList` | core/src/nvlist.rs:184-273 | The same for a list body at any offset and depth of a larger buffer |
| `NvlistCut.CutExactly` | core/src/nvlist.rs:158-273 | A printed list cut off at any byte: refused, as truncated, if and only if the cut is in a name's or string's text at any depth; else accepted with the pairs before the cut and a stated remnant of the cut one |
| `NvlistCut.CutWalk` | core/src/nvlist.rs:184-273 | The same for a list body at any offset and depth |
| `NvlistCut.CutNumberIsZero` | core/src/nvlist.rs:223-267 | A list cut inside its last number is accepted with that name bound to 0 |
| `NvlistCut.SalvagedAtBoundary` | core/src/nvlist.rs:263-267 | A list cut off at a pair boundary keeps exactly the pairs before the cut |
| `Nvlist.TruncatedIsEmpty` | core/src/nvlist.rs:160-178 | A buffer ending before the first pair is an empty list |
| `Nvlist.ParsedIsBounded` | core/src/nvlist.rs:42-49 | On every buffer, an accepted list respects all caps at every level |
| `Nvlist.KnownPairs` | core/src/nvlist.rs:184-273 | A pair of each type given byte by byte |
| `Nvlist.BadHeaders` | core/src/nvlist.rs:161-174 | Other encodings are refused by their byte, and four bytes are needed |
| `Nvlist.ClaimedSizes` | core/src/nvlist.rs:184-260 | Byte arrays up to 64 KiB, empty when cut off, and the depth limit |
| `Zap.ArrayBytesAt` | core/src/zap.rs:331-350 | Ends on every chunk graph, cyclic ones included, with at most `want` bytes |
| `Zap.AcyclicChainIsWhole` | core/src/zap.rs:328-350 | By pigeonhole, the hop cap never shortens a chain that repeats no chunk |
| `Zap.ChainEndsAtOthers` | core/src/zap.rs:331-350 | A chain ends at the end mark, past the last chunk, and at a chunk of another type |
| `Zap.FatLeafEntriesArrays` | core/src/zap.rs:233-264 | Appends the leaf's named entries, values whole |
| `Zap.FatLeafEntries` | core/src/zap.rs:288-326 | Appends the same entries with folded values |
| `Zap.FoldValue` | core/src/zap.rs:318-321 | The shift loop gives the first eight bytes as a big-endian number |
| `Zap.FoldedNumber` | core/src/zap.rs:318-321 | A number stored big-endian in at most eight bytes folds to itself, whatever bytes follow eight |
| `Zap.FatBlockSize` | core/src/zap.rs:275-286 | The probe's loop, smallest size first |
| `Zap.FatListArrays` | core/src/zap.rs:216-231 | Walks every leaf region of the object |
| `Zap.FatList` | core/src/zap.rs:195-212 | The same list as the array listing, entry by entry folded |
| `Zap.MicroList` | core/src/zap.rs:169-191 | The named slots in order |
| `ZapStore.StoredBytesReadBack` | core/src/zap.rs:331-350 | Bytes written along any repetition-free chain of chunks are collected back |
| `ZapStore.WritePlanHolds` | core/src/zap.rs:233-264 | Writing entries into disjoint chunks disturbs none written before |
| `ZapStore.PrintedLeafLists` | core/src/zap.rs:233-264 | A written leaf lists exactly its entries, in chunk order |
| `ZapStore.WrittenObjectLists` | core/src/zap.rs:127-326 | A header followed by written leaves and other blocks lists exactly the stored named entries, in leaf then chunk order, names with or without a NUL, values intact, or the big-endian number of their first eight bytes, if no smaller size carries a leaf signature |
| `ZapStore.WrittenNameIsFound` | core/src/zap.rs:138-143 | Looking up a stored name finds the big-endian number of its value's first eight bytes |
| `ZapStore.WrittenNumberIsFound` | core/src/zap.rs:138-143 | A number stored in eight big-endian bytes is found under its name |
| `ZapStore.NoSignatureListsNothing` | core/src/zap.rs:275-286 | Without a leaf signature at 512 to 128 KiB nothing is listed |
| `ZapStore.OtherObjectsListNothing` | core/src/zap.rs:127-165 | Any block type but the two lists nothing |
| `ZapStore.KnownLeafLists` | core/src/zap.rs:477-512 | A leaf given byte by byte lists its name and its four value bytes |
| `ZapStore.KnownMicroLists` | core/src/zap.rs:169-191 | A micro object given byte by byte: a name up to a NUL, a name of 50 bytes, a slot without one |
| `Stored.ZplListDir` | core/src/zpl.rs:98-112 | The directory listing from dnode lookup to masked object ids, empty where anything is absent |
| `Stored.HeldObjectReads` | core/src/zap.rs:92-116 | An object whose blocks hold some data reads back as that data |
| `Stored.StoredDirectoryLists` | core/src/zpl.rs:98-112 | A written fat object stored in a directory's blocks lists exactly its entries, each under the low 48 bits of its value's first eight bytes |
| `Stored.StoredMicroLists` | core/src/zpl.rs:98-112 | The same for a written micro object |
| `ZapStore.WrittenMicroLists` | core/src/zap.rs:169-191 | A written micro object lists back its named slots, in both listings |
| `SystemAttributes.SaAttrBytes` | core/src/sa.rs:306-344 | The by-name walk's loop equals its specification |
| `SystemAttributes.DecodeSaBonus` | core/src/sa.rs:230-290 | The decoder's loop equals its specification |
| `SystemAttributes.PackedAttributesRead` | core/src/sa.rs:306-344 | In a packed buffer a name finds the first value of its id, and nothing if unregistered or not in the layout |
| `SystemAttributes.EveryPackedValueIsFound` | core/src/sa.rs:306-344 | Under distinct ids each packed value, fixed or variable, is found by every name of its id |
| `SystemAttributes.DecodeAgreesWithWalk` | core/src/sa.rs:266-287 | On every buffer the decoder reports a known attribute exactly as the walk finds it when only fixed, registered attributes precede it, and its default otherwise |
| `SystemAttributes.OnlyTheFirstUnknownSurfaces` | core/src/sa.rs:266-274 | Exactly when and which unregistered id is surfaced, and none where all are registered |
| `SystemAttributes.DecoderReportsLast` | core/src/sa.rs:266-287 | On every layout and registry: the last reached occurrence that serves the field, or its default |
| `SystemAttributes.WalkReportsFirst` | core/src/sa.rs:306-344 | On every layout and registry: the words of the first occurrence, past fixed and variable sizes, too short or absent included |
| `SystemAttributes.FirstEntriesDecide` | core/src/sa.rs:83-129 | Each of the three lookups answers from the first matching entry and fails exactly when there is none |
| `SystemAttributes.AgreementExactly` | core/src/sa.rs:266-344 | On every layout and registry, decoder and walk agree iff the last serving occurrence, or the default, has the words of the first |
| `SystemAttributes.RepeatedIdDiffers` | core/src/sa.rs:266-344 | A buffer with a repeated id on which they differ |
| `SystemAttributes.HeaderByBytes` | core/src/sa.rs:236-241 | The header by its bytes: magic, ten bits of layout number, six of header size |
| `SystemAttributes.NotAnAttributeBuffer` | core/src/sa.rs:236-241 | Another first word or an unlisted layout gives nothing, to both readers |
| `SystemAttributes.NoLengthWord` | core/src/sa.rs:328-334 | A length word past the header or the buffer ends the walk |
| `SystemAttributes.TargetExactly` | core/src/sa.rs:362-401 | Which known attribute an id of a given size serves |
| `SystemAttributes.PackedFieldDecodes` | core/src/sa.rs:362-401 | A served field decodes to its number, or a time to its two |
| `SystemAttributes.UnservedKeepsDefault` | core/src/sa.rs:362-401 | Any other field keeps its zero |
| `SaObjects.ParseSaLayouts` | core/src/sa.rs:201-220 | The loop over the layouts object, entries without a number skipped |
| `SaObjects.NameRoundTrip` | core/src/sa.rs:249-264 | Every attribute name is recognised by its spelling |
| `SaObjects.KnownNames` | core/src/sa.rs:250-263 | The twelve names, letter by letter |
| `SaObjects.KnownIds` | core/src/sa.rs:212-216 | A layout's bytes are 16-bit ids, high byte first, an odd byte left over ignored |
| `SaObjects.DescByBits` | core/src/sa.rs:182-195 | A registry value by its bits |
| `SaObjects.NumbersByHand` | core/src/sa.rs:208-211 | Which layout names are numbers |
| `SaObjects.WrittenRegistryReads` | core/src/sa.rs:182-195 | A registry written as a micro object parses back |
| `SaObjects.WrittenLayoutsRead` | core/src/sa.rs:201-220 | Layouts written as a fat object, numbers in decimal, parse back |
| `SaObjects.AttributeReadsThroughObjects` | core/src/sa.rs:182-344 | A packed attribute is found by name through the registry and layouts read back from their objects |
| `Label.ActiveUberblock` | core/src/label.rs:136-156 | The greatest txg among parseable slots, at its lowest slot; nothing iff no slot parses |
| `Label.ActiveSlotIsBest` | core/src/label.rs:136-156 | The best slot exists as a function of the ring |
| `Label.RingBestUnique` | core/src/label.rs:136-156 | That description determines the result |
| `Label.ActiveUberblockAcrossLabels` | core/src/vfs.rs:173-199 | The best over all rings the image holds, clipped ones included, the first of equals |
| `Label.LoneRing` | core/src/label.rs:136-156 | The one-ring and all-rings descriptions agree |
| `Label.FineScanDominates` | core/src/vfs.rs:159-168 | The 1 KiB scan finds a txg at least that of the scan at any multiple of 1 KiB |
| `Label.ScansAgreeExactly` | core/src/vfs.rs:159-168 | Both scans find the same uberblock iff the rings hold, for every uberblock off the larger stride, one on it that is newer, or as new and first |
| `Label.AgreeIffFoundOnStride` | core/src/vfs.rs:159-168 | Equivalently, iff the finer find starts a whole larger slot, or there is none |
| `Label.ScansAgree` | core/src/vfs.rs:159-168 | They agree where the magic occurs only on the larger stride |
| `Label.InteriorMagicMisleads` | core/src/vfs.rs:159-168 | An image with a newer uberblock inside a 4 KiB slot, on which the scans differ |
| `Label.ParsePrefix` | core/src/uberblock.rs:146-171 | An uberblock is determined by its slot's first 168 bytes |
| `Label.SlotLayout` | core/src/uberblock.rs:146-187 | A slot's fields by their places, in the order its magic gives |
| `Label.NoMagicNoUberblock` | core/src/uberblock.rs:179-187 | A slot without either form of the magic holds nothing |
| `Label.ShortSlotHasNoRoot` | core/src/uberblock.rs:150-160 | A slot that ends before the root pointer does leaves the root zeroed |
| `Label.FourRings` | core/src/vfs.rs:173-187 | Where the four rings of an image of at least 1 MiB lie |
| `Label.FrontRings` | core/src/label.rs:51-62 | Where the two rings of a smaller one lie |
| `Recovery.RecoverDeleted` | forensic/src/lib.rs:557-615 | The walk's loop, ending on every chain, equals its specification |
| `PoolImage.RecoverImage` | forensic/src/lib.rs:557-643 | The same on the pool an image holds, opened from its label through objsets and datasets |
| `PoolImage.RecoveredComesFromImage` | forensic/src/lib.rs:557-688 | Every recovered file is listed by the root directory of its snapshot on the image, and its content is what that object reads back to |
| `PoolImage.NothingFromNoPool` | forensic/src/lib.rs:555-563 | A truncated image, or one without configuration or uberblock, yields nothing |
| `PoolImage.LabelLayout` | core/src/label.rs:87-125 | Where the configuration and the ring lie in a label, and which slots are scanned |
| `PoolImage.ContextLayout` | core/src/zpl.rs:119-140 | The registry and layouts are found by name through the master node, and a missing one leaves every size unknown |
| `PoolImage.ShiftOfConfig` | core/src/label.rs:105-111 | The slot size comes from the first `ashift` of the first `vdev_tree` if it is 10 to 16 |
| `PoolImage.DatasetLayout` | core/src/dsl.rs:71-90 | Where a dataset's bonus holds the previous snapshot and the objset pointer |
| `PoolImage.HeadLayout` | forensic/src/lib.rs:565-582 | The head dataset is the one the directory named "root_dataset" holds at byte 8 |
| `PoolImage.ObjsetLayout` | core/src/objset.rs:60-84 | An objset needs 1024 bytes and begins with its meta-dnode |
| `PoolImage.RootLayout` | core/src/zpl.rs:77-81 | The root directory is what object 1 names "ROOT" |
| `PoolImage.SizeLayout` | core/src/zpl.rs:145-159 | A file's size by its bonus type |
| `Recovery.Recovered.RecoverFromSnapshot` | forensic/src/lib.rs:650-689 | Adds one snapshot's files to the list in place |
| `Recovery.VisitedInOrder` | forensic/src/lib.rs:586-612 | Visited ids are distinct, in chain order, within the budget; the walk stops early only at the chain's end or at a seen id |
| `Recovery.EveryReachableIsVisited` | forensic/src/lib.rs:586-612 | Unless the budget runs out, everything the chain reaches is visited, however it cycles |
| `Recovery.RecoveredExactly` | forensic/src/lib.rs:658-688 | Recovered paths are distinct, and exactly those files come out that are not live and are carved from the first visited snapshot, and first entry there, that reads back |
| `Recovery.RecoveredAgainstHead` | forensic/src/lib.rs:582-612 | The same written out: not live means not listed by the head's own root, the walk starts at the head's previous snapshot and takes at most 4096, and without a head nothing is recovered |
| `Recovery.RecoveredFields` | forensic/src/lib.rs:678-686 | Each recovered file carries its entry's name and object, its snapshot's id, the content read, its length and its digest |
| `Recovery.EveryOfferedNameIsRecovered` | forensic/src/lib.rs:658-688 | Every non-live name some visited snapshot offers is recovered, from one at least as new |
| `Recovery.OlderSnapshotsOnlyAppend` | forensic/src/lib.rs:667-670 | Older snapshots change and remove nothing |
| `Paths.ZplLookup` | core/src/zpl.rs:236-243 | The component loop equals stepwise resolution |
| `Paths.LookupComposes` | core/src/zpl.rs:232-246 | Resolving p/q is resolving q from where p leads, however many slashes meet |
| `Paths.JoinedComponents` | core/src/zpl.rs:237 | Joining names and taking the path apart gives the names back |
| `Paths.KnownPath` | core/src/zpl.rs:237 | Slashes are byte 47, and empty pieces vanish |

## Left out

- LZ4, gzip and zstd streams and SHA-256: code of other crates, taken as arbitrary functions.
- UTF-8 lossy decoding: names that are not valid UTF-8 stay as their bytes here, so two of them that the source would render alike stay different.
- Memory and machine limits: allocation failure, 32-bit `usize`, and the panic of a debug build on a shift count of 64 or more (the release behaviour is modelled).
- Texts of errors and findings: enumerations stand for them.
- Recovery.RecoverDeleted: walks any pool given by object id; PoolImage.RecoverImage is the walk on the pool of an image, whose lookups and reads are functions proved equal to the source's loops elsewhere.
- The fields of legacy `znode_phys_t` bonuses other than the size, and extended attributes: fixed-offset reads with nothing to relate.
- The virtual file system adapter, probing, timestamps and kinds: tables and plumbing.
- Multi-slot dnodes, gang blocks, several vdevs, spill blocks, encryption: the reader does not implement them.
- SystemAttributes.DecodeAgreesWithWalk: asks for distinct ids in the layout and at most one known name per id, because without them the two read different occurrences; AgreementExactly asks for neither.
- Extents.L0IsFlat: asks for one byte order throughout, because elsewhere the two walks read different pointers out of the same bytes (ByteOrdersDiverge).
- Extents.LevelOrderIsLive: asks the same of the tree below its pointer, for the same reason.
- Objects.ByteAt: asks that blocks have the data block size, because otherwise it is false; UniformIffSlotsSized says when they have, BlockLies what holds regardless.
- Objects.MosDnodeIsArrayLookup: asks the same of the object array, for the same reason.
- Objects.UniformIffSlotsSized: leaves out LZ4 blocks, because their length is the foreign decoder's choice.
