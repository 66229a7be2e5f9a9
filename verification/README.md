# A verified model of the DwarFS reader

A DwarFS image is a sequence of sections: compressed blocks, a schema, and bit-packed metadata that a reader turns into a
directory tree, an inode table and chunk lists. This project models the reader's logic in Dafny and proves what its parts
promise. `dafny verify dfyconfig.toml` checks everything.

## What is modelled

- **The shared block cache** (`CacheModel`, `CacheProtocol`, `CacheRuns`, `CacheEconomy`, `CacheObject`). Any number of threads
  share one cache. One step is one critical section, one decode, or one notification; sleeping, notifying and waking are
  separate steps. The invariant and the safety results hold with spurious wake-ups; the bound on the length of a run counts
  runs without them. The history fields of the state (`clock`, `lastUse`, `starts`, `decodes`) only record. `CacheObject` is
  the mutable object whose methods are proved against the same functions the steps use. A codec is any function that returns
  a block's true payload or a long enough prefix of it, or fails.
- **Random-access reads** (`ChunkMap`, `FileRead`, `ChunkLayout`, `RunReads`). The reads run against an oracle for fetched blocks that may
  answer anything `FetchOk` allows, differently each time. `RunReads` makes the oracle out of what a thread was given in any
  concurrent run of the cache and reads from that. `ChunkLayout` lays files out the way a writer does and shows that each
  inode is read as its own. Borrowed reads run on the cache object itself.
- **The directory tree** (`DirTree`, `DirAccess`, `DirWalk`, `DirOrder`, `DirLinks`) and **the inode table** (`InodeTable`).
  A table is a tree when every directory but the root is named once, the root by nobody, and every directory is reachable; it
  is well formed when names are also slash-free and sorted within a directory. `Walk` only requires that no descent from the
  root goes on for ever: on a table with a reachable cycle the recursion of the source does not end. The rebuilt links are
  right on a tree whose entry 0 stands before every directory's range and names the root, and whose root has 0 for a stored
  parent entry, which the code leaves as it finds it (`DirLinks.Rooted`).
- **The container** (`Header`, `Detect`, `Sections`, `Index`). A source is a byte sequence.
- **The metadata decoders** (`BitBuf`, `Layouts`, `Frozen`, `FrozenLists`, `Thrift`, `SchemaParser`, `Fsst`, `StringTables`,
  `PackedTables`), each with the writer it inverts (`FrozenRoundTrip`, `FrozenWriter`, `FrozenStrings`, `ThriftEncoding`,
  `SchemaRoundTrip`, `SchemaWriter`, `FsstExport`, `StoredStrings`). Thrift follows Apache Thrift, "Thrift Compact protocol
  encoding", sections "Struct encoding", "List and Set" and "Map".
- **Extraction** (`Extract`): the three-phase plan over a map from paths to what lies there. A writer reads its file's bytes
  through the cache (`FileRead.WriteRegular`); a link or a copy takes what lies at the recorded path; a write or a copy that
  fails leaves anything or nothing at its own path (`World.leaves`).

`Common`, `LittleEndian` and `Arithmetic` hold what the rest shares. Statements `hide F;` in proofs keep definitions a proof
does not need out of the solver's way.

## Where the code does not do what one would expect

- `Detect.ProbesAgreeIff`, `Detect.ProbesCanDisagree`: src/format/detect.rs:95 adds 6 without a check where the slice version
  uses `checked_add`. The model takes the wrapping addition of a release build; a debug build would panic there.
- `InodeTable.OrderedTableOpensIff`, `InodeTable.DeviceWithoutFilesIsRefused`: with no regular inode the first file offset
  becomes the total, so a correctly ordered table with a device or special file and no regular file is refused.
- `FileRead.PlanRightIff`, `FileRead.BorrowPastTheLastByte`: `read_borrowed` saturates the end of the range, so at the very end
  of a file of 2^64 - 1 bytes it hands out bytes a copying read would not.
- `FrozenRoundTrip.RowsDecodedIff` and its two companions: a list whose distance is one bit wide is taken for an optional.
  `FrozenWriter.OneBitListsAreLost` has three bytes of which that is true.
- `CacheRuns.NoBudgetKeepsTheLastBlock`: a budget of 0 still keeps the last block, unlike the comment at
  src/fs/read.rs:1249 says.
- `ThriftEncoding.LongVarintLosesBits`: an over-long varint is accepted and loses bits.
- `Fsst.ZeroCodeRefused`: a zero-terminated symbol table reserves a code that cannot be decoded. The module comment of
  src/metadata/fsst.rs gives a different formula for the histogram slots than the code; the model follows the code.
- `Extract.ExtractAll`: the number an extraction that keeps going reports is not that of the entries that failed. A first write
  that fails is counted, and tried and counted again in the last phase, so a file that cannot be written counts twice, and one
  whose second try succeeds counts although it is there.
- A hole's large length is marked by the largest 32-bit offset in the code; the format description has it tied to the block
  size. The model follows the code.

## Model

| member | source | states |
|---|---|---|
| CacheModel.AdmitEvictsOldest | src/fs/read.rs:1401-1414 | Admitting a block evicts the shortest oldest prefix of the queue after which it fits, or everything, and nothing else; the block itself is resident with its bytes. |
| CacheModel.AdmitKeeps | src/fs/read.rs:1401-1414 | Afterwards the queue lists every resident block once, the byte count is the sum of what they hold, and it is within budget or exactly one block is resident. |
| CacheModel.EnterKeeps | src/fs/read.rs:1300-1356 | One pass through the fetch loop (hit, wait, claim, or evict-and-claim) keeps the bookkeeping and the budget. |
| CacheModel.ClearKeeps | src/fs/read.rs:1279-1284 | Clearing keeps the bookkeeping and leaves no resident byte; blocks being decoded stay marked. |
| CacheModel.KeepDropsLeast | src/fs/read.rs:1408-1413 | The eviction loop stops at the first point where the new block fits or nothing is left. |
| CacheModel.AdmitKeepsSorted | src/fs/read.rs:1372-1414 | The queue stays in order of last use. |
| CacheProtocol.InitInv | src/fs/read.rs:1253-1259 | An empty cache with no call begun satisfies the whole invariant. |
| CacheProtocol.StepKeepsInv | src/fs/read.rs:1300-1448 | Every step of every thread keeps: bookkeeping, budget, one armed decoder per marked block, true prefixes only, no lost wake-up, least-recently-used order, whole blocks marked before they are published. |
| CacheProtocol.OwnershipKept | src/fs/read.rs:1337-1344 | Each marked block belongs to exactly one in-flight decoder, and each decoder to a marked block. |
| CacheProtocol.NoWakeupLost | src/fs/read.rs:1316-1355 | A thread asleep on a block means the block is still marked or a notification is still to come. |
| CacheProtocol.TruthKept | src/fs/read.rs:1427-1435 | Every resident entry is a prefix of its block's true payload. |
| CacheProtocol.DecodeMeetsFetch | src/fs/read.rs:924-945 | Whatever a decode may return, prefix or whole, is long enough for the fetch that asked. |
| CacheRuns.EveryReachableStateIsSafe | src/fs/read.rs:1300-1448 | All of the above in every state reachable by any interleaving of any calls of any number of threads. |
| CacheRuns.EveryAnswerIsTrue | src/fs/read.rs:1300-1356 | Whatever a finished fetch handed out, in any run, is a prefix of its block as long as was asked for. |
| CacheRuns.NoPartialDecodeOfAWholeBlock | src/fs/read.rs:1314-1354 | In every reachable state, no decode under way on a block known to have been decoded in whole is a prefix decode. |
| CacheRuns.EvictionIsLeastRecentlyUsed | src/fs/read.rs:1389-1414 | In every reachable state, a block evicted by a publish was used longer ago than every one that stays, and no fewer evictions would have done. |
| CacheRuns.EveryStepDescends | src/fs/read.rs:1316-1355 | Every step but a spurious wake-up lowers an explicit measure. |
| CacheRuns.EveryScheduleIsBounded | src/fs/read.rs:1316-1355 | Without spurious wake-ups every schedule of t threads and n calls stops within (t + 6) n steps. |
| CacheRuns.NeverStuck | src/fs/read.rs:1316-1355 | While any call is unanswered some step other than a spurious wake-up is possible: unfinished fetches are never all asleep. |
| CacheRuns.EveryStoppedRunHasAnswered | src/fs/read.rs:1316-1355 | A run that can go no further has answered every call of every thread, each fetch rightly, and run decode at most once per fetch. |
| CacheRuns.NoBudgetKeepsTheLastBlock | src/fs/read.rs:1401-1414 | With a budget of 0 the block just admitted stays resident, alone. |
| CacheEconomy.AtMostOnePrefixThenTheWhole | src/fs/read.rs:924-945 | With decodes that succeed, no clear, reads in range and room for every payload, any interleaving starts at most one prefix decode and then one whole decode of each block. |
| CacheObject.Shared.TouchBlock | src/fs/read.rs:1372-1377 | Moves a block to the back of the queue; the new state is the model's. |
| CacheObject.Shared.EvictBlock | src/fs/read.rs:1380-1387 | Removes one block from the map, the queue and the byte count. |
| CacheObject.Shared.EvictOne | src/fs/read.rs:1389-1399 | Removes the oldest block, or reports that there is none. |
| CacheObject.Shared.AdmitBlock | src/fs/read.rs:1401-1414 | The loop that evicts one block at a time ends in the state the model's one-step admission gives. |
| CacheObject.LandedIsAdmit | src/fs/read.rs:1401-1414 | Evicting oldest first until the block fits, then inserting, equals keeping the longest suffix that leaves room. |
| CacheObject.DecodeBlock | src/fs/read.rs:924-945 | With an honest codec, the prefix-or-whole choice only returns what the protocol lets a decode return, and fails only if the codec does. A read of at most 4 MiB from a block whose codec can stop early decodes max(needed, 1 MiB), no more; any other decode is the whole block, also where the codec cannot stop early; a prefix that fails to decode fails. |
| CacheObject.BlockCache.EnterFetch | src/fs/read.rs:1316-1344 | The critical section at the head of the fetch loop is the model's Enter. |
| CacheObject.BlockCache.ClearBlocks | src/fs/read.rs:1279-1284 | Clears ready blocks and keeps marks. |
| CacheObject.BlockCache.Fetch | src/fs/read.rs:1300-1356 | Under exclusive access: returns a long enough true prefix, resident afterwards, or fails, and never on a block the codec does not fail on; it leaves no mark behind. The whole state it leaves is given: what the critical sections of one claim, decode and publication, or of a hit, or of a failure, make of the old one. |
| CacheObject.FetchIsARun | src/fs/read.rs:1300-1356 | That final state and answer are those of a run of the concurrent protocol with one thread and one call. |
| CacheObject.BlockCache.Resident | src/fs/read.rs:1361-1368 | Returns the resident bytes of a block, if any, and counts as a use. |
| ChunkMap.BuildChunkEnds | src/fs/read.rs:1099-1130 | Succeeds if and only if every file's chunks lie in the chunk list, have a length and add up within 64 bits; the ends are then each file's running chunk lengths. |
| ChunkMap.RightMeansIndexable | src/fs/read.rs:1099-1130 | Only such tables have right ends at all. |
| ChunkMap.ContentAt | src/fs/read.rs:910-916 | In the concatenation of expanded chunks, each chunk lies right behind those before it. |
| ChunkMap.ContentLen | src/fs/read.rs:910-916 | The content is as long as the chunk lengths, holes included, add up to. |
| ChunkMap.HoleLengthBack | src/fs/read.rs:1080-1092 | A hole's length, kept as whole blocks and what is left over them, is read back for every length that can be kept so. |
| ChunkLayout.EachFileIsItsOwn | src/fs/read.rs:864-881 | In an image that lays out one stretch of chunks for each unshared file in inode order and then one for each group, every regular inode is read as its own stretch or its group's. |
| ChunkLayout.LaidOutIndexableIff | src/fs/read.rs:1099-1130 | Such a layout can be opened if and only if every stretch has a length that fits in 64 bits. |
| FileRead.PartitionPoint | src/fs/read.rs:547-547 | Binary search finds the first chunk whose end lies beyond the offset. |
| FileRead.FileSize | src/fs/read.rs:476-485 | The last cumulative end is the length of the file's content. |
| FileRead.ReadChunk | src/fs/read.rs:560-586 | A chunk's part is zeros for a hole, else a slice of a held or fetched prefix of its block, and equals that slice of the expanded chunk. |
| FileRead.ReadInto | src/fs/read.rs:528-590 | Writes exactly content[offset .. min(offset + len, size)], leaves the rest of the buffer, returns the count; and does succeed on a sound file when decodes do. Which content is an inode's is `ChunkLayout.EachFileIsItsOwn`. |
| FileRead.ReadInSteps | src/fs/extract.rs:378-388 | The streaming loop, with a buffer of any positive size, terminates and its pieces add up to the whole content. |
| FileRead.ReadAt | src/fs/read.rs:503-517 | Into a fresh buffer: exactly as many bytes as the file has left at the offset, up to the size asked for, and those bytes; succeeds on a sound file when fetches do. |
| FileRead.ReadFile | src/fs/read.rs:491-495 | The whole content of the file. |
| RunReads.RunAnswersAreTrue | src/fs/read.rs:1300-1356 | In any run of any threads, under any interleaving, what a thread was given is an oracle a read may rely on. |
| RunReads.ReadOnRun | src/fs/read.rs:528-590 | So a read made of a thread's own fetches in such a run puts exactly the content there, whatever the other threads do. |
| FileRead.WriteRegular | src/fs/extract.rs:367-390 | With the buffer the extractor takes, a mebibyte or the whole smaller file, the loop writes the whole content. |
| FileRead.PlannedIff | src/fs/read.rs:606-630 | A borrowed read is served from a block if and only if one non-hole chunk holds the whole range, the end saturating at 2^64 - 1. |
| FileRead.PlanRightIff | src/fs/read.rs:606-630 | The slice it hands out is what a copying read gives if and only if offset + len fits in 64 bits. |
| FileRead.BorrowPastTheLastByte | src/fs/read.rs:606-612 | A concrete file of 2^64 - 1 bytes where the saturated end lets two bytes be borrowed past its last one. |
| FileRead.ReadBorrowed | src/fs/read.rs:600-639 | Under exclusive access a slice has the asked length and is right unless the end overflows; falling back happens exactly when no plan exists; the lost-entry error is never reached. |
| FileRead.BorrowFrom | src/fs/read.rs:630-645 | Fetching and then taking the resident entry always finds it. |
| DirAccess.LookupOne | src/fs/read.rs:808-822 | On names that rise in byte order (a proper prefix first, else the smaller first differing byte) binary search agrees with looking at every entry: the child of that name, or none. |
| DirTree.LessIsByteOrder | src/fs/read.rs:808-822 | The comparison the search makes, byte after byte, is that order: a is less than b if and only if it is a proper prefix of b or has the smaller byte where they first differ. |
| DirAccess.SplitInvertsJoin | src/fs/read.rs:970-972 | Splitting a path joined from slash-free names gives the names back. |
| DirAccess.SlashParts | src/fs/read.rs:970-972 | It is the byte 0x2F that parts them: two names without it, joined by it, are the two components. |
| DirAccess.LookupPath | src/fs/read.rs:660-683 | On any shaped table with names rising in byte order, looking up a path follows its components one directory at a time. |
| DirWalk.ReadDir | src/fs/read.rs:744-761 | Succeeds exactly on a directory whose range is bounded and whose entries are all sound, and lists them in table order, each with inode, kind and name. |
| DirWalk.WalkInner | src/fs/read.rs:701-720 | On any table from whose root no descent goes on for ever it terminates; where the table is shaped it appends what lies below a directory, depth first, whatever the names. |
| DirWalk.Walk | src/fs/read.rs:690-699 | The walk of any such table ends; on a shaped one it is the root and then everything below it, names sorted or not, valid or not, repeated or not. |
| DirTree.TreeIsWalkable | src/fs/read.rs:701-720 | Every descent ends in a tree: a shaped table that names each directory but the root once, the root never, and reaches all. |
| DirWalk.LookupAgreesWithWalk | src/fs/read.rs:660-683 | On a well-formed tree lookup(path) is inode n if and only if the walk yields n under the path's normal spelling (repeated slashes aside). |
| DirOrder.WalkYieldsEachEntryOnce | src/fs/read.rs:690-699 | The walk yields the root and every live entry exactly once, each after the directory that holds it and with that directory's path extended by its name. |
| DirOrder.WalkedPathsDiffer | src/fs/read.rs:701-720 | No two entries of a walk have the same path. |
| DirLinks.UnpackFirstEntries | src/fs/read.rs:984-990 | Replaces the first_entry column by its running sum in place and touches no other column. |
| DirLinks.UnpackInvertsDeltas | src/fs/read.rs:984-990 | Unpacking differences gives every original first_entry back. |
| DirLinks.FindNamers | src/fs/read.rs:1030-1042 | The first pass finds, for every directory, the entry that names it. |
| DirLinks.RebuildLinks | src/fs/read.rs:1023-1062 | Both passes leave every non-root directory d with the self_entry that names it and parent_entry = self_entry of its parent, first_entry unchanged. |
| DirLinks.RebuiltParentIsOwner | src/fs/read.rs:728-741 | On the rebuilt table parent(d) is the directory whose range holds the entry naming d, and the root is its own parent. |
| DirLinks.UnpackInvertsPacking | src/fs/read.rs:984-990 | The table with its links right, packed to differences without links, comes back from unpacking the differences and rebuilding the links. |
| DirLinks.UnpackDirectories | src/fs/read.rs:243-246 | The two in-place steps together restore a packed table. |
| InodeTable.ComputeOffsets | src/fs/read.rs:1132-1193 | Succeeds if and only if every mode resolves and the shared files fit between the first regular inode and the first device or special; the offsets are then the first positions of each class. |
| InodeTable.PartitionRight | src/fs/read.rs:1132-1193 | For an ordered table that opens, each class of inode (directories, symlinks, files, devices, specials) is exactly the stretch its offsets say, and the shared files end where the files do. |
| InodeTable.OrderedTableOpensIff | src/fs/read.rs:1160-1180 | An ordered table opens if and only if there are at least as many regular inodes as shared entries, and some regular inode or no device and no special. |
| InodeTable.DeviceWithoutFilesIsRefused | src/fs/read.rs:1160-1180 | A concrete ordered table, a directory and a device, that is refused. |
| InodeTable.ModeBits | src/fs/inode.rs:34-45 | Four bits of a mode decide the kind, 0x4 directory, 0xA symlink, 0x8 regular, 0x2 and 0x6 devices, 0x1 fifo, 0xC socket, whatever the other bits are. |
| InodeTable.UnpackSharedFiles | src/metadata/model.rs:350-365 | The loop repeats index i as often as its count says plus two. |
| InodeTable.UnpackInvertsPack | src/metadata/model.rs:350-365 | Unpacking inverts run-length packing for consecutive groups of two or more. |
| InodeTable.ContentIdentity | src/fs/read.rs:859-862 | Two regular inodes have the same content id if and only if they are the same inode or in the same shared group; which slot that is, is `InodeTable.SlotsInOrder`. |
| InodeTable.SlotsInOrder | src/fs/read.rs:864-881 | In an ordered table that opens, the k-th regular inode reads slot k of the chunk table if it is not shared, and the j-th shared one the slot that lies shared_files[j] behind those of all unshared ones. |
| Header.Write | src/format/header.rs:130-142 | Fills a 64-byte buffer with the header, field by field. |
| Header.ParseInvertsWrite | src/format/header.rs:79-117 | Parsing gives every writable header back, whatever follows it. |
| Header.WriteInvertsParse | src/format/header.rs:130-142 | Every 64 bytes that parse are what the parsed header is written as; unknown section types and codecs survive. |
| Header.ParsesIff | src/format/header.rs:79-117 | 64 bytes parse if and only if they start with DWARFS, 2, and at most 6; a header of another version is told apart from what is no header. |
| Detect.FindMagic | src/format/detect.rs:147-151 | Finds the first magic at or after a position, or none. |
| Detect.DetectBaseOffset | src/format/detect.rs:108-145 | The scan of a slice considers every position once, in order, and returns the first accepted one or the first remembered version error. |
| Detect.DetectBaseOffsetIn | src/format/detect.rs:26-73 | So does the scan through overlapping 64 KiB probes, for every source length, with its own boundary check. |
| Detect.ProbesAgreeIff | src/format/detect.rs:26-73 | The two scans give the same offset or the same error if and only if no such candidate comes before the first accepted one. |
| Detect.ProbesCanDisagree | src/format/detect.rs:92-98 | A concrete 64-byte image the slice scan calls no image and the probe scan answers with a failed read. |
| Detect.FirstEndDecides | src/format/detect.rs:108-145 | The first accepted position decides the scan. |
| Detect.AcceptedIff | src/format/detect.rs:155-170 | A position is accepted if and only if a header is read there whose section ends where the image ends or where another magic stands: a magic by chance within a prefix is not. |
| Detect.FirstVersionErrorKept | src/format/detect.rs:127-139 | A scan nothing ends reports the first version error it met, else that this is no image. |
| Sections.WalkSections | src/format/image.rs:247-274 | The loop reads header after header to the end of the source, or stops with the error of the first that is truncated, malformed or too long. |
| Sections.WalkTiles | src/format/image.rs:247-274 | A walk that succeeds tiles [base, end) with no gap and no overlap. |
| Sections.WalkInvertsWriting | src/format/image.rs:247-274 | Walking recovers exactly the headers and offsets of every written list of sections behind any prefix. |
| Sections.WalkReadsBack | src/format/image.rs:247-274 | What a successful walk covers is what its sections, written in order, come to. |
| Sections.WalkSucceedsIff | src/format/image.rs:247-274 | A walk succeeds if and only if the rest of the source is some written list of sections. |
| Sections.FirstSectionFound | src/format/detect.rs:108-145 | Behind any prefix without a magic in it or across its end, either scan finds the first section of a written image. |
| Index.ParseEntries | src/format/index.rs:96-136 | Accepts a payload if and only if it is a positive number of entries, strictly rising, the last marked as the index. |
| Index.AcceptedIndexIsSound | src/format/index.rs:44-93 | An accepted index rises strictly, fills the rest of the image, and its last entry's offset plus base is its own header's offset, although only that entry's type is checked. |
| Index.IndexIsTheLastSection | src/format/index.rs:44-93 | A section walk entered there finds an uncompressed index section and nothing after it. |
| Index.EntriesInvertListing | src/format/index.rs:96-136 | Entries of 16 type bits and 48 offset bits are read back as written. |
| Index.IndexInvertsWriting | src/format/index.rs:44-93 | The index of an image written with one is read back whole and lists exactly the sections a walk finds. |
| BitBuf.ReadU64 | src/metadata/bitbuf.rs:36-68 | Gathering up to nine bytes, shifting and masking gives (little-endian integer of the buffer div 2^at) mod 2^n at any alignment; each error exactly where the code has it. |
| BitBuf.BitsInWindow | src/metadata/bitbuf.rs:36-68 | Only the bytes that hold the bits decide them. |
| BitBuf.SignedIsTwosComplement | src/metadata/bitbuf.rs:79-97 | Sign extension gives the one number of n signed bits congruent to the pattern. |
| BitBuf.SignedReadIsCongruent | src/metadata/bitbuf.rs:79-97 | A signed read gives the number in the range of n signed bits that is congruent to the bits at that place. |
| BitBuf.ReadInvertsPacking | src/metadata/bitbuf.rs:36-68 | Values packed low bit first at any widths read back at the running sums of the widths, whatever bytes stand around them. |
| Frozen.ReadsField | src/metadata/frozen.rs:52-64 | A value held at a field's bit or byte offset is what reading at its child position gives. |
| Frozen.ReadsRange | src/metadata/frozen.rs:235-268 | A range is resolved to its count and its data start, the distance counted from the range's byte anchor and absent fields read as zero. |
| Frozen.ReadsString | src/metadata/frozen.rs:297-315 | A stored string's bytes are read back. |
| Frozen.AcceptedInBounds | src/metadata/frozen.rs:235-268 | An accepted range starts at its anchor or behind it, within 64 bits; an accepted string is as many bytes as its range counts, all inside the blob. |
| Frozen.ReadsElement | src/metadata/frozen.rs:321-357 | Element i lies i strides behind the data start; a bit-strided one keeps the array's byte anchor. |
| FrozenLists.DecodeStructList | src/metadata/model.rs:682-714 | Resolves the list, its columns once, and every row in order, or returns the first error; what that comes to is `FrozenRoundTrip.RowsDecodedIff` for a list that is there and `FrozenRoundTrip.MissingIsEmpty` for one that is not. |
| FrozenLists.ReadIntList | src/metadata/model.rs:1026-1070 | Reads every element at the item width, or zeros where width or item are left out; empty where the list is not there (`FrozenRoundTrip.MissingIsEmpty`). |
| FrozenLists.ReadPlainStringList | src/metadata/model.rs:817-853 | Appends every element's bytes and marks, stopping past 4 GiB; the empty table where the list is not there (`FrozenRoundTrip.MissingIsEmpty`). |
| FrozenRoundTrip.RowsDecodedIff | src/metadata/model.rs:682-714 | Any non-empty list of structs stored under any layout (fields left out when zero, bit or byte strides, bare or optional) is decoded to itself if and only if its distance is not one bit wide, it has at most 2^26 rows, and every value asked for at 32 bits fits them; else it is refused, or, with a one-bit distance, may come back empty. |
| FrozenRoundTrip.EmptyRowsDecoded | src/metadata/model.rs:746-766 | An empty one comes back empty or is refused, never anything else. |
| FrozenRoundTrip.MissingIsEmpty | src/metadata/model.rs:746-766 | A list the schema leaves out, an optional that is not set, whatever layout its value would have, or one set without a value is read as empty by all three readers. |
| FrozenRoundTrip.IntsDecodedIff | src/metadata/model.rs:1026-1070 | The same for lists of integers, which have no 32-bit columns: if and only if the distance is not one bit wide and there are at most 2^26 of them. |
| FrozenRoundTrip.StringsDecodedIff | src/metadata/model.rs:817-853 | The same for lists of strings, every distance resolved against its element's anchor: if and only if the distance is not one bit wide, there are at most 2^26, and together they are shorter than 4 GiB. |
| FrozenRoundTrip.BareMisread | src/metadata/model.rs:746-766 | A bare list with a one-bit distance is found, if anything is, as an optional set by that bit, whose value is the list's own count, an integer. |
| FrozenRoundTrip.OpensOnlyLists | src/metadata/model.rs:1026-1070 | Only a layout with fields, no one-bit distance and a count within the cap is opened as a list: of rows under the item layout it names, of integers only where the item is an integer or left out. |
| FrozenWriter.FrozenRowsDecodedIff | src/metadata/model.rs:682-714 | One writer in full: rows of any field widths up to 64 bits, zero included, packed bit by bit or in whole bytes, count and distance at widths of their own, whatever bytes follow, decode to themselves if and only if the distance is not written in one bit and what is asked for at 32 bits fits them. |
| FrozenWriter.FrozenIntsDecodedIff | src/metadata/model.rs:1026-1070 | The same for integers of any one width. |
| FrozenWriter.OneBitListsAreLost | src/metadata/frozen.rs:114-141 | Three concrete bytes that store one row, or one integer, under a one-bit distance and from which neither comes back. |
| FrozenStrings.FrozenStringsDecodedIff | src/metadata/model.rs:817-853 | Any strings, each element distance counted from the data start when elements are packed bit by bit and from the element's own byte when they are not, come back as a table with get(i) the i-th, if and only if the list's distance is not written in one bit. |
| FrozenStrings.RoomyFormatFits | src/metadata/model.rs:817-853 | Every list of strings within the caps has such a writing, with either stride. |
| Thrift.ThriftReader.ReadVarint | src/metadata/thrift.rs:116-131 | Reads at most ten bytes, low bits first, dropping what does not fit in 64 bits; moves the position behind them. |
| Thrift.ThriftReader.ReadZigZag | src/metadata/thrift.rs:133-136 | Reads a signed number from a varint. |
| Thrift.ThriftReader.ReadBinary | src/metadata/thrift.rs:161-166 | Reads a length and that many bytes. |
| Thrift.ThriftReader.ReadListHeader | src/metadata/thrift.rs:175-186 | Reads element type and count, short or long form. |
| Thrift.ThriftReader.ReadMapHeader | src/metadata/thrift.rs:195-206 | Reads the count and, unless it is zero, the type byte. |
| Thrift.ThriftReader.ReadStructBegin | src/metadata/thrift.rs:210-213 | Pushes the field-id frame and resets the counter. |
| Thrift.ThriftReader.ReadStructEnd | src/metadata/thrift.rs:217-219 | Pops the frame. |
| Thrift.ThriftReader.ReadFieldHeader | src/metadata/thrift.rs:223-239 | Resolves a delta or explicit field id against the last one and records it. |
| Thrift.ThriftReader.SkipValue | src/metadata/thrift.rs:243-287 | Moves behind the value and leaves last_field_id and stack as they were. |
| Thrift.ThriftReader.SkipElement | src/metadata/thrift.rs:292-300 | The same for a container element, whose booleans take a byte. |
| ThriftEncoding.ReadsVarint | src/metadata/thrift.rs:116-131 | Reading inverts writing for every 64-bit value. |
| ThriftEncoding.ReadsZigZag | src/metadata/thrift.rs:133-136 | And for every signed 64-bit value. |
| ThriftEncoding.LongVarintLosesBits | src/metadata/thrift.rs:116-131 | Not every input is the writing of what it reads as: a concrete ten-byte input reads as zero. |
| ThriftEncoding.ReadsHeader | src/metadata/thrift.rs:223-239 | A field header written short or explicit is read back. |
| ThriftEncoding.SkipsValue | src/metadata/thrift.rs:243-287 | Skipping consumes exactly one written value of any type and nesting. |
| SchemaParser.ReadField | src/metadata/schema.rs:204-219 | Reads a field struct as the specification function says, restoring the reader's frame. |
| SchemaParser.ReadFieldMap | src/metadata/schema.rs:187-202 | Reads a map of fields. |
| SchemaParser.ReadLayout | src/metadata/schema.rs:159-185 | Reads a layout struct. |
| SchemaParser.ReadLayoutMap | src/metadata/schema.rs:142-157 | Reads a map of layouts. |
| SchemaParser.Parse | src/metadata/schema.rs:98-121 | Parses a schema from the front of a blob. |
| SchemaRoundTrip.ParsedIsMeant | src/metadata/schema.rs:98-121 | Parsing what any well-formed struct is written as, in any field order, with any nested unknown fields and either header form, gives what it means. |
| SchemaRoundTrip.UnknownFieldsDoNotMatter | src/metadata/schema.rs:98-121 | Two inputs that differ only in unknown fields, at any depth, and in header forms parse alike. |
| SchemaRoundTrip.BareSchemaMeant | src/metadata/schema.rs:98-121 | Dropping unknown fields at every depth changes no meaning. |
| SchemaWriter.ParseInvertsWriting | src/metadata/schema.rs:98-121 | Every schema comes back from what it is written as and from every input that differs from that only so. |
| Fsst.Parse | src/metadata/fsst.rs:46-113 | Cuts the stored symbols in histogram order, each under the next code, and reports the bytes consumed; each error exactly where the code has it. That the order is lengths 2 to 8 and then 1 is `FsstExport.LoopOrder`. |
| FsstExport.ParseInvertsExport | src/metadata/fsst.rs:46-113 | Every exported table is recovered, symbol by symbol, whatever follows it: two-byte symbols first, then longer ones up to eight bytes, then single bytes, spelled out as that concatenation. |
| FsstExport.LoopOrder | src/metadata/fsst.rs:46-113 | The order the parser's loop takes is groups 1, 2, 3, 4, 5, 6, 7 and then 0: symbols of two to eight bytes, then of one. |
| FsstExport.CodesMeanTheirSymbols | src/metadata/fsst.rs:46-113 | In what is parsed, a code decodes to the symbol that concatenation has under it, counted from 1 behind a leading empty one when the table is zero-terminated, else from 0. |
| FsstExport.PairsBeforeSingles | src/metadata/fsst.rs:46-113 | A concrete table of the symbols x, y and ab: its code 0 is ab. |
| Fsst.Decode | src/metadata/fsst.rs:135-157 | Appends what the codes and escapes stand for. |
| Fsst.DecodeInvertsCompression | src/metadata/fsst.rs:135-157 | Decoding inverts every spelling of a string by codes and escapes. |
| Fsst.DecodableIsCompressed | src/metadata/fsst.rs:135-157 | Whatever decodes is such a spelling. |
| Fsst.DecodeSplits | src/metadata/fsst.rs:135-157 | Decoding distributes over concatenation at code boundaries. |
| Fsst.AtMostEightfold | src/metadata/fsst.rs:135-157 | Output is at most eight times the input. |
| Fsst.ZeroCodeRefused | src/metadata/fsst.rs:68-75 | In a zero-terminated table code 0 never decodes: wherever decoding comes to it, after any codes and escapes, it fails. |
| StringTables.GetFindsEach | src/metadata/model.rs:223-227 | In the table built from strings, get(i) is string i, and none beyond. |
| PackedTables.InclusivePrefixSum | src/metadata/model.rs:1151-1159 | The loop computes the running sums in 32 bits. |
| PackedTables.DecodeStringTable | src/metadata/model.rs:1098-1149 | Unpacks the index, parses the symbols if there are any, decodes every window and appends it; the first error is returned. |
| PackedTables.PackedMeansPlain | src/metadata/model.rs:1098-1149 | A packed index stands for the same table as the plain one it packs. |
| StoredStrings.ReadStored | src/metadata/model.rs:1098-1149 | From the stored bytes to the accessor: exported symbols or none, in the order of lengths 2 to 8 and then 1, any spelling of each string by codes and escapes (255 and the byte), packed or plain index; get(i) is string i, and there is none beyond. |
| Extract.SameIdSameFile | src/fs/read.rs:859-862 | Files with one content id read one slot of the chunk table, so either both are readable or neither, and their bytes are the same. |
| Extract.MakeDirectories | src/fs/extract.rs:168-190 | The first phase makes every directory that can be made, whatever fails before it when told to keep going, and stops or counts at a failure. |
| Extract.PickWriters | src/fs/extract.rs:192-206 | Picks the first entry of each distinct content id, each id once. |
| Extract.WriteOne | src/fs/extract.rs:218-233 | One write puts the inode's own bytes there, read through the cache; it fails only if the destination, the chunk table, a chunk or a fetch does. |
| Extract.WriteContents | src/fs/extract.rs:216-262 | In any completion order every writer runs once, the path of each that succeeds holds its own inode's bytes, whatever failing ones leave at theirs, and is recorded under the content id. |
| Extract.PlaceRepeat | src/fs/extract.rs:267-308 | A link or a copy puts what lies at the recorded path at the new one; without a recorded path the file is written itself. |
| Extract.Arrive | src/fs/extract.rs:267-284 | Where the last phase links or copies, the recorded path is the first entry's with that content, is on the destination, and holds the very bytes of the inode to be placed. |
| Extract.Finish | src/fs/extract.rs:263-331 | The last phase links, copies, makes symlinks and counts skips, one per entry, each path ending up with its own entry's content; a failure touches no path but its entry's, and each is counted once. |
| Extract.ExtractAll | src/fs/extract.rs:156-342 | Success means that everything asked for was there and worked, that every path holds its entry's own content (a file the bytes of its own inode) and nothing else changed, whatever order writes finish in; each content was written once, the counts add up, and files is the number of distinct contents when hard-linking, of regular entries otherwise. It does succeed when everything is there and works and every file reads to its end. Told to keep going, it ends early only at a file without a content id; otherwise every entry is in place unless something of its own failed, no path but those of entries has changed, and the number it reports is that of the entries not in place plus that of the first writes that failed, so a file that cannot be written counts twice. |
| Extract.WalkIsExtractable | src/fs/extract.rs:162-164 | A walked tree satisfies what the extraction needs: distinct paths, and inodes of the kinds listed. |

## Left out

- Codec bodies (zstd, lzma, lz4, brotli) and the output caps around them: a decode is an uninterpreted function that returns the true payload, a prefix of it, or nothing.
- XXH3 and SHA-512/256: hashes are stored and round-tripped, not computed or checked.
- File, memory-mapped and windowed sources: a source is a byte sequence; an I/O error other than a read out of bounds is not modelled.
- Lock poisoning and the memory model: a critical section is one step.
- Fairness of the scheduler: the results bound every schedule and show that none gets stuck, which needs no fairness.
- Thread counts, mutex queues and which waiter runs first: any order is allowed.
- Reference counting of cached bytes: bytes handed out are values, so that they outlive their eviction is not stated.
- Walking a table with a cycle the root reaches: the source recurses without end there.
- What a walk yields on a table that is not shaped: that it ends, with a list or an error, is all that is stated.
- UTF-8 validation of names, of type names and of feature strings, and the text of error messages.
- Image length within 64 bytes of 2^64 and a 32-bit `usize`: lengths are unbounded where the code's additions cannot overflow for any file a file system can hold.
- `stat`, timestamps, owners, category names, feature checks, `fs_options` flags and history entries: single look-ups through the readers modelled here.
- `read_optional_int`, `read_struct_int_list`, `read_struct_optional_string` and the root string table: the same field, range and optional reads in another order.
- Which of several field types a schema's consumer expects: the schema is parsed, not checked against the metadata description.
- `glob_match` and the include filter: the extraction takes the filtered entries.
- `resolve_path`: an entry's path is its target; paths of a walk differ (`Extract.WalkIsExtractable`), targets are not normalised.
- Sorting writers by block: it decides which blocks are decoded when and which of several failures is reported first, nothing else.
- Aliasing of hard links and links the destination held before: a write is one step, and a new link holds a copy of what lay at its source.
- Extract.ExtractAll: leaves open whether it succeeds when a chunk reaches past its block or a fetch may fail, because which bytes of a block are asked for depends on what earlier answers held.
- Creating missing parent directories during extraction: the first phase has made them.
- FUSE, tar output and the three binaries.
- Detect.ProbesCanDisagree: shows one image; the exact condition for all images is `Detect.ProbesAgreeIff`.
- Thrift.ThriftReader.ReadStructEnd: on an empty stack resets the counter, as the code does; that it never happens inside a parse is not stated separately.
- Sections.WalkTiles: for sources shorter than 2^64 - 1 bytes, because a header's length saturates there.
