# Verified models of KallistiOS storage add-ons

Dafny models of four libraries of KallistiOS and proofs of what they promise:

- **liblz4**: the LZ4 block codec as built for a 32-bit target without the fast decode loop: the
  greedy compressor with its reusable hash table and three output modes, and the safe decoder
  with its over-running copies; and the job service that decodes on a fiber.
- **libkosext2fs**: the write-back block cache, block allocation in bitmaps, appending to the
  direct and indirect blocks of an inode, looking blocks up, and freeing them all.
- **libkosfat**: the FAT sector cache and table of 12, 16 and 32-bit entries, next-fit cluster
  allocation, chain erasure and the count of free clusters.
- **libkosoverlay**: SHA-256 over a message in pieces, the package's segment table and page plan,
  the scattering of an ELF stream, and the protocol of slots, tokens and generations.

`dafny verify dfyconfig.toml` checks everything.

## How it is organised

| files | content |
|---|---|
| `Lz4Format` | the block format: a byte-at-a-time interpreter and an encoder of sequences, and that one undoes the other |
| `Lz4Decode` | the decoder, its wild copies and 32-bit tests, against the interpreter |
| `Lz4Emit`, `Lz4Search`, `Lz4Compress` | the compressor: output, match search over the hash table, the main loop |
| `Lz4Stream` | the reusable state, the entry points, the round trips |
| `Lz4Queue`, `Lz4Service` | the job service: its ring, and all interleavings of clients and fiber |
| `BlockCache`, `Recency`, `CacheOrder` | the cache against a plain device; least-recently-used order; how long a buffer survives |
| `Ext2Bits`, `Ext2Volume`, `Ext2Fs`, `Ext2Held` | bitmap words, books of a volume, allocation, the blocks an allocation pushes through the cache |
| `Ext2Tree`, `Ext2Inode` | block trees, how they grow, and what lookups find in them |
| `Ext2Append`, `Ext2Chain`, `Ext2AllocChain`, `Ext2File` | one append, from values to methods, and lookups |
| `Ext2Run`, `Ext2Free`, `Ext2FreeAll` | runs of appends with lookups, freeing, and the round trip of both |
| `FatEntries`, `FatTable`, `FatChains` | entries as bits, reads and writes through the cache, allocation and erasure |
| `Sha256`, `OvlPackage` | the digest, the segment table, scattering |
| `OvlSlot`, `OvlControl`, `OvlLoad` | the slot protocol over runs, the slot in memory with its list of tokens, and a load |
| `Basics`, `Arith` | bytes, options, products and quotients |

Buffers that loops fill are arrays; the cache, the compression state, the mounted file systems,
the inode, the hash, the ring and the overlay slot are classes with the source's fields. The two
protocols between threads are state machines, and the theorems about them are about all their
runs. Device reads and writes succeed or fail arbitrarily, and a failed write may leave anything in
its block. Ghost fields and parameters carry the abstract values that the theorems speak of.

## Model

| member | source | states |
|---|---|---|
| `Lz4Format.RepeatUnique` | addons/liblz4/lz4.c:2406-2433 | bytes that repeat what lies `offset` before them are the overlapping copy of a match, and only they are |
| `Lz4Format.InterpretEncoded` | addons/liblz4/lz4.c:242-246 | the byte-at-a-time reading of an encoded block gives back the text its sequences stand for |
| `Lz4Format.EncodedSize` | addons/liblz4/lz4.c:926-1338 | sequences take at most one byte in 255 more than the text they stand for |
| `Lz4Decode.SpreadCopies` | addons/liblz4/lz4.c:474-475 | eight bytes at the offset followed by copies at the spread distance of the inc32/dec64 tables are one copy at the offset, for every offset, 0 giving zeros |
| `Lz4Decode.SpreadMatch` | addons/liblz4/lz4.c:2406-2419 | the shuffled first eight bytes of a match are a copy at the offset, with nothing before them changed |
| `Lz4Decode.WildCopy8` | addons/liblz4/lz4.c:465-472 | the eight-byte loop copies every byte up to its end at distance eight or more, and writes nothing before its start |
| `Lz4Decode.CopyMatch` | addons/liblz4/lz4.c:2388-2434 | refuses exactly matches that end in the last five bytes, and otherwise is the overlapping byte copy |
| `Lz4Decode.ReadVariableLength` | addons/liblz4/lz4.c:1979-2014 | reads the length run the format defines, and fails only when the run is cut off, passes the limit or overflows |
| `Lz4Decode.StartTest` | addons/liblz4/lz4.c:2356 | in 32-bit addresses, the test for a match before the buffer is right if and only if the match does not start below address zero |
| `Lz4Decode.MatchTest` | addons/liblz4/lz4.c:2345-2351 | the overflow and end-of-buffer tests of a match length are right if and only if the length does not end in the last four addresses |
| `Lz4Decode.OverrunsIff` | addons/liblz4/lz4.c:2343-2351 | the sequences that `NoOverrun` rules out are just those whose match passes every test of the source and still ends too late |
| `Lz4Decode.UpperHalfOverruns` | addons/liblz4/lz4.c:2343-2351 | for every output buffer of more than 12 bytes in the upper half of the address space there is a block of at most 8 MB with such a match, its first |
| `Lz4Decode.FarBelow` | addons/liblz4/lz4.c:2343-2351 | none is possible, for any input of `n` bytes, in a buffer that ends `min(255 * n, INT_MAX) + 15` below the top |
| `Lz4Decode.AcceptedInside` | addons/liblz4/lz4.c:2343-2351 | a block that should be accepted has none |
| `Lz4Decode.DecodeStep` | addons/liblz4/lz4.c:2215-2443 | one sequence, shortcut or not, that does not overrun advances exactly as the acceptance function `NextStep` says |
| `Lz4Decode.DecodeSound` | addons/liblz4/lz4.c:2022-2456 | whatever the decoder's tests accept is what the byte-at-a-time interpreter reads, within the capacity |
| `Lz4Decode.StrictAgrees` | addons/liblz4/lz4.c:2022-2456 | where no offset is zero or out of reach, the strict interpreter agrees with the one that fills zeros |
| `Lz4Decode.RestrictedEvery` | addons/liblz4/lz4.c:242-246 | the restriction on the last match bounds every match of a block away from its end |
| `Lz4Decode.DecodeEncoded` | addons/liblz4/lz4.c:2022-2456 | every block within the parsing restrictions is accepted at every capacity that can hold its text, the exact size included |
| `Lz4Decode.DecompressSafe` | addons/liblz4/lz4.c:2022-2456 | on every byte string and capacity, if no sequence it comes to overruns: terminates, stays in both buffers, succeeds just when `Decode` accepts, and then has written what the interpreter reads |
| `Lz4Emit.BlockDecodes` | addons/liblz4/lz4.c:926-1338 | a block in the format decodes to its text at every sufficient capacity, in both readings |
| `Lz4Emit.PutRunWide` | addons/liblz4/lz4.c:1213-1226 | the four-at-a-time writing of a match length run gives the same bytes as the format's run |
| `Lz4Emit.PutMatchBytes` | addons/liblz4/lz4.c:1154-1226 | offset, match length and the token's low field complete the encoding of a sequence |
| `Lz4Search.Read32Equal` | addons/liblz4/lz4.c:407-410 | two 32-bit reads are equal just when their four bytes are |
| `Lz4Search.EligibleReaches` | addons/liblz4/lz4.c:1088-1094 | a table entry that passes the distance tests is an earlier position of this very source within 65535 bytes, whatever earlier calls left in the table |
| `Lz4Search.FindMatch` | addons/liblz4/lz4.c:1019-1102 | the search returns only true four-byte matches in reach, and keeps every table entry harmless |
| `Lz4Search.Count` | addons/liblz4/lz4.c:680-703 | the longest common run up to the limit |
| `Lz4Search.CatchUp` | addons/liblz4/lz4.c:1104-1109 | extending backwards keeps the distance and the match, and does not pass the anchor |
| `Lz4Search.ClearPositions` | addons/liblz4/lz4.c:1195-1207 | after a shortened match no entry at or past its end is left in the table |
| `Lz4Compress.MatchEnd` | addons/liblz4/lz4.c:1165-1185 | a counted match reaches past every position already entered into the table |
| `Lz4Compress.MatchLength` | addons/liblz4/lz4.c:1182-1212 | the match length, cut down in fill mode to what the output can describe, leaves a true match and room for the last literals |
| `Lz4Compress.EncodeSequences` | addons/liblz4/lz4.c:1013-1300 | the main loop keeps the output an encoding of the source up to the anchor, within the room of the mode |
| `Lz4Compress.LastLiterals` | addons/liblz4/lz4.c:1302-1333 | the last run completes a valid block for the source, or in fill mode for the prefix it reports, which is as long as the target but for one byte in 255 and two |
| `Lz4Compress.CompressBlock` | addons/liblz4/lz4.c:926-1338 | the result is a block for the consumed text within the size bound of the mode, fails only in limited mode, and leaves the table clean |
| `Lz4Stream.Stream.PrepareTable` | addons/liblz4/lz4.c:883-922 | from any state an earlier call may leave, the table is prepared: nothing in it can be taken for a position of the next source |
| `Lz4Stream.PreparedIsClean` | addons/liblz4/lz4.c:883-922 | a prepared table satisfies the search's invariant for the next call |
| `Lz4Stream.Stream.CompressFastReset` | addons/liblz4/lz4.c:1414-1450 | with whatever state is left: a positive result is a block for the source within the bound; zero only for an oversize source or too little room |
| `Lz4Stream.Stream.CompressFastExtState` | addons/liblz4/lz4.c:1382-1403 | the same after initialising the state |
| `Lz4Stream.Stream.CompressDestSize` | addons/liblz4/lz4.c:1481-1503 | never more than the target; the block stands for exactly the consumed prefix; all of the source when the target reaches the bound, and else all of it or as many bytes as the target has, but for one in 255 and two |
| `Lz4Stream.CompressRun` | addons/liblz4/lz4.c:1414-1450 | over any run of calls that reuse one state, with resets anywhere, every block decodes to its own source at every capacity that can hold it |
| `Lz4Stream.RoundTrip` | addons/liblz4/lz4.c:1453-1469 | compressing and decompressing returns the source, for every source, acceleration, address and sufficient room |
| `Lz4Stream.FillRoundTrip` | addons/liblz4/lz4.c:1506-1522 | fill mode stays within the target, decompressing gives exactly the consumed prefix, and that is all of the source or as long as the target but for one byte in 255 and two |
| `Lz4Queue.Ring.Push` | addons/liblz4/pvr_chunk_asset_lz4_service.c:390-398 | the job goes to the tail of the queue unless it is full, around the end of the ring |
| `Lz4Queue.Ring.Pop` | addons/liblz4/pvr_chunk_asset_lz4_service.c:86-100 | the oldest job comes out and its place is emptied |
| `Lz4Service.StepSound` | addons/liblz4/pvr_chunk_asset_lz4_service.c:57-446 | every step of submitter, canceller, destroyer or fiber keeps each job in the state that its place calls for |
| `Lz4Service.RunSound` | addons/liblz4/pvr_chunk_asset_lz4_service.c:57-446 | so does every interleaving |
| `Lz4Service.NoTouchAfterDestroy` | addons/liblz4/pvr_chunk_asset_lz4_service.c:332-360 | in every interleaving a job that the fiber is about to touch has not been destroyed, and destroying it now would be refused |
| `Lz4Service.Fifo` | addons/liblz4/pvr_chunk_asset_lz4_service.c:86-100 | jobs are taken in the order in which they were accepted; all of them, once the service has stopped |
| `Lz4Service.OnePlace` | addons/liblz4/pvr_chunk_asset_lz4_service.c:114-182 | an accepted job is unfinished if and only if it is in the queue, active or in the fiber's hands before its mark, and it is never in the queue and elsewhere |
| `Lz4Service.ExactlyOnce` | addons/liblz4/pvr_chunk_asset_lz4_service.c:57-112 | no job is finished or called back twice; when the service has stopped, every accepted job was, once |
| `Lz4Service.StaysStopped` | addons/liblz4/pvr_chunk_asset_lz4_service.c:102-182 | a stopped service has an empty queue and nothing active, and accepts nothing any more |
| `Lz4Service.Final` | addons/liblz4/pvr_chunk_asset_lz4_service.c:57-84 | a terminal status never changes again |
| `BlockCache.Cache.MakeMru` | addons/libkosext2fs/ext2fs.c:25-41 | rotates one entry to the most recently used end of the first `cacheSize` ones, and touches the entries stated |
| `BlockCache.InRangeIff` | addons/libkosfat/fat.c:18-34 | in an array of `n` entries the rotation stays inside for every index if and only if the size it goes by is at most `n`; with a larger one the first miss leaves it |
| `BlockCache.Cache.Read` | addons/libkosext2fs/ext2fs.c:44-88 | returns a buffer with the block's contents; hits, misses, evictions and failures leave the contents of all blocks as they were |
| `BlockCache.Cache.MarkDirty` | addons/libkosext2fs/ext2fs.c:126-141 | succeeds just when the block is cached, and settles stores pending in its buffer |
| `BlockCache.Cache.WriteBack` | addons/libkosext2fs/ext2fs.c:143-161 | contents are unchanged however far it gets; on success of a writable mount the device equals them and nothing is dirty |
| `BlockCache.Run` | addons/libkosext2fs/ext2fs.c:25-161 | any run of reads, edits and flushes, with any failures, answers as a plain device would and leaves its contents |
| `CacheOrder.RecentMissed` | addons/libkosfat/fatfs.c:39-83 | a miss is a use of the block in least-recently-used order |
| `CacheOrder.ReadMany` | addons/libkosext2fs/ext2fs.c:44-88 | over a run of reads a buffer handed out still holds its block, unchanged, if and only if fewer distinct blocks were used since than the cache has entries |
| `CacheOrder.ReadLogged` | addons/libkosext2fs/ext2fs.c:44-88 | the cache class keeps the order that `Ext2Fs` replays from its log of uses, and the contents it takes for the words of blocks |
| `CacheOrder.MarkLogged` | addons/libkosext2fs/ext2fs.c:126-141 | marking dirty is a use when the block is cached in that order, and nothing otherwise |
| `Recency.UsedSince` | addons/libkosext2fs/ext2fs.c:25-88 | a block not used again is still cached after a run of uses if and only if the blocks used since it was are fewer than the cache's entries |
| `Recency.MissesDoNotBound` | addons/libkosext2fs/ext2fs.c:44-88 | counting misses alone is not enough: with three entries, two hits and one miss evict a block |
| `Ext2Bits.FindZero` | addons/libkosext2fs/bitops.c:43-75 | the first clear bit of the table below the end, or none when all are set |
| `Ext2Bits.SetBitIs` | addons/libkosext2fs/utils.h:27-31 | setting a bit of a word table changes that bit of the table alone |
| `Ext2Volume.Located` | addons/libkosext2fs/inode.c:407-408 | group and index of a block by division and remainder, and back |
| `Ext2Volume.TakeCounted` | addons/libkosext2fs/ext2fs.c:186-197 | taking a free block keeps each group's count its number of clear bits and the superblock's their sum |
| `Ext2Volume.ReleaseCounted` | addons/libkosext2fs/inode.c:413-418 | so does releasing one |
| `Ext2Volume.SameUsed` | addons/libkosext2fs/inode.c:403-421 | the blocks in use determine the bitmaps and all counts |
| `Ext2Volume.NoneFree` | addons/libkosext2fs/ext2fs.c:174-177 | when the superblock counts nothing free, every bit is set |
| `Ext2Fs.MapChange` | addons/libkosext2fs/ext2fs.c:186-197 | one changed bit of a bitmap block keeps all bitmap blocks in step with the books |
| `Ext2Fs.Fs.MarkFree` | addons/libkosext2fs/inode.c:403-421 | releases exactly the block in bitmap and counts, changing and dirtying no block but a bitmap; or fails with nothing released |
| `Ext2Fs.Fs.BlockAlloc` | addons/libkosext2fs/ext2fs.c:163-253 | takes a free block, zeroed, from the group asked for or else the first that is not filled, reading exactly the bitmaps stated, each bit set through a buffer that is still cached; no space only when every bit but perhaps the last of each group is set; an I/O error only when an access failed; a failure changes nothing |
| `Ext2Fs.Fs.StoreVia` | addons/libkosext2fs/inode.c:848-851 | the store of a pointer and the dirty mark of the number then read from its parent, both through buffers that are still cached, change that word and mark that block |
| `Ext2Held.HeldThrough` | addons/libkosext2fs/ext2fs.c:163-253 | any buffer in hand, used last or not, survives an allocation if and only if the blocks used since, its own and the allocation's together, are fewer than the cache has entries |
| `Ext2Held.LostAfterFilledGroups` | addons/libkosext2fs/ext2fs.c:211-244 | with `h` groups filled but for their last bit before the one that gives a block, a buffer since whose use `k` others were read is lost if and only if `h + 2 + k` is at least the cache size |
| `Ext2Held.LostBuffers` | addons/libkosext2fs/inode.c:843-911 | of the two buffers that an append holds, the pointer block's is lost if and only if `h + 2`, its parent's if and only if `h + 3` is at least the cache size |
| `Ext2Held.ParentGivesWay` | addons/libkosext2fs/inode.c:843-911 | when `h + 3` is just the cache size, the parent is the oldest entry when the new block is read, and makes way for it |
| `Ext2Held.TouchesBounded` | addons/libkosext2fs/ext2fs.c:163-253 | an allocation uses no blocks but the bitmaps of groups with a nonzero count and the block it takes |
| `Ext2Tree.LeafAtIs` | addons/libkosext2fs/inode.c:1281-1374 | dividing an index by subtree sizes finds the data blocks of a tree in order |
| `Ext2Tree.GrownPacked` | addons/libkosext2fs/inode.c:784-915 | a tree filled from the left stays so when it grows by one block |
| `Ext2Tree.GrownBlocks` | addons/libkosext2fs/inode.c:784-915 | it then has the new chain besides its old blocks |
| `Ext2Tree.GrownLeaves` | addons/libkosext2fs/inode.c:784-915 | and the new data block as its last |
| `Ext2Tree.GrownStored` | addons/libkosext2fs/inode.c:784-915 | one store of a pointer makes the tree on the disk the grown one |
| `Ext2Inode.GrowthTwo` | addons/libkosext2fs/inode.c:832-857 | in the doubly-indirect tree quotient and remainder pick the word for the next pointer, and a zero remainder asks for a new block |
| `Ext2Inode.GrowthThree` | addons/libkosext2fs/inode.c:864-914 | in the trebly-indirect tree it is the same while there is one subtree |
| `Ext2Inode.Resolves` | addons/libkosext2fs/inode.c:1281-1374 | for every stored file and every block up to the first `p` under the trebly-indirect word, the lookup's arithmetic finds the block in its logical place |
| `Ext2Inode.LookupLost` | addons/libkosext2fs/inode.c:1343-1353 | past that the lookup's first step reads a null pointer |
| `Ext2Inode.AppendLost` | addons/libkosext2fs/inode.c:864-914 | the append that should begin the second doubly-indirect block follows a null pointer too |
| `Ext2AllocChain.AllocTind` | addons/libkosext2fs/inode.c:757-782 | three pointer blocks over a data block, all free before and now in use and linked, or none taken |
| `Ext2Chain.BufferHeld` | addons/libkosext2fs/inode.c:784-915 | in a cache with more entries than readable bitmaps, new blocks and blocks read since together, a buffer in hand is still cached when the pointer is stored, the pointer block's as its parent's |
| `Ext2AllocChain.Finish` | addons/libkosext2fs/inode.c:705-729 | a new pointer block is linked to what was allocated below it, or given back when that failed |
| `Ext2File.AppendBlock` | addons/libkosext2fs/inode.c:784-915 | appends one block: the file has one more, the one reported, its new blocks were free and are now used, sectors are counted, every other block in use is untouched; or the file is as it was, and the mount is read-only, an access failed, or there are not enough free blocks for this append; EFBIG is never reported |
| `Ext2File.ReadBlock` | addons/libkosext2fs/inode.c:1281-1374 | a lookup, with the size test shifting in 32 bits, returns the block that the words on the disk resolve to, and its contents, if and only if it is below the size and no access fails |
| `Ext2File.IndexedIff` | addons/libkosext2fs/inode.c:1343-1353 | the first index of a lookup in the third tree is inside its block if and only if it is among the first `p*p` of the tree |
| `Ext2Run.AppendAll` | addons/libkosext2fs/inode.c:784-915 | a run of appends adds exactly the blocks it reports, in order, until one fails; the file's new blocks were free in any case; when no access failed it ended because the mount is read-only or the next append lacks free blocks, and nothing else has come into use |
| `Ext2Run.AppendToNew` | addons/libkosext2fs/inode.c:784-915 | from an empty inode: the blocks given are distinct and were free, also when a later append fails, and a lookup of each resolves to it, up to `12 + p + p*p + p` |
| `Ext2Run.GivenOnce` | addons/libkosext2fs/inode.c:784-915 | no block is given twice to a file |
| `Ext2Run.ReadGiven` | addons/libkosext2fs/inode.c:1281-1374 | reading logical block `i` of a file reports the block given to append `i` and its contents, and leaves the file as it is |
| `Ext2Run.ResolvesAstray` | addons/libkosext2fs/inode.c:1343-1374 | past `12 + p + p*p + p` the lookup returns a word of the block that block 0 points to |
| `Ext2Run.ResolvesIff` | addons/libkosext2fs/inode.c:1281-1374 | a lookup finds the block given if and only if the index is below that point or block 0 happens to lead there |
| `Ext2Run.ResolvesExactly` | addons/libkosext2fs/inode.c:1281-1374 | with zeros in block 0: if and only if the index is below that point, and beyond it the lookup returns block 0 |
| `Ext2Run.LostTogether` | addons/libkosext2fs/inode.c:1343-1374 | lost blocks a multiple of `p` apart resolve to the same block although different ones were given |
| `Ext2Free.RowOf` | addons/libkosext2fs/inode.c:446-456 | the words of a pointer block are its subtrees' blocks and then zeros |
| `Ext2Free.OnDisk` | addons/libkosext2fs/inode.c:439-444 | after the write-back the device holds every block but bitmaps, so reading past the cache is sound |
| `Ext2Free.FreeInd` | addons/libkosext2fs/inode.c:423-464 | frees the blocks of a tree of height one in order, up to the first access that fails: exactly the first `n`, all of them on success |
| `Ext2Free.FreeDind` | addons/libkosext2fs/inode.c:466-503 | the same for height two |
| `Ext2Free.FreeTind` | addons/libkosext2fs/inode.c:505-542 | the same for height three |
| `Ext2FreeAll.FreeAll` | addons/libkosext2fs/inode.c:544-644 | frees the file's blocks in order, exactly the first `n`, up to the first access that fails; the inode's words are zero as far as that, the third tree's from its turn on, the sector count once it has begun; no block but bitmaps has changed |
| `Ext2FreeAll.WordHeads` | addons/libkosext2fs/inode.c:599-644 | after a failure, a tree's word that is left in the inode heads a tree wholly in use if and only if freeing had not come to that tree |
| `Ext2FreeAll.GainsFreed` | addons/libkosext2fs/inode.c:544-644 | freeing a file that has gained blocks leaves in use what freeing it before would have left |
| `Ext2FreeAll.AppendAndFree` | addons/libkosext2fs/inode.c:544-915 | appends to any file, even until the volume is full, followed by freeing it: if no access fails, used blocks are as if it had been freed at once; no other block in use has changed in any case |
| `Ext2FreeAll.AppendThenFree` | addons/libkosext2fs/inode.c:544-915 | a file made of up to `n` blocks and freed, with no access failing, leaves bitmaps, group counts and the superblock count as they were |
| `FatEntries.ReadAfterWrite` | addons/libkosfat/fat.c:142-312 | an entry reads back as what was written, as far as 12, 16 or 28 bits hold it; FAT32 keeps its top nibble |
| `FatEntries.OthersStayIff` | addons/libkosfat/fat.c:216-312 | a write leaves another entry as it was, if and only if in the two cases around a mistaken entry four bits happen to agree |
| `FatEntries.MistakenClobbers` | addons/libkosfat/fat.c:275-291 | writing a mistaken entry puts the value's top four bits into the next entry |
| `FatEntries.MistakenMisread` | addons/libkosfat/fat.c:185-205 | writing the entry after a mistaken one changes the top four bits that are read as that one |
| `FatEntries.ReadsFormat` | addons/libkosfat/fat.c:142-214 | what is read is what the format says, unless the entry is mistaken; then it is the format's entry without its lowest nibble and with the nibble after it on top, right if and only if the four nibbles are equal |
| `FatEntries.NibbleOfNext` | addons/libkosfat/fat.c:142-214 | that nibble is the lowest one of the next entry |
| `FatEntries.FirstMistaken` | addons/libkosfat/fat.c:185-196 | with 512-byte sectors cluster 682 is the first mistaken entry |
| `FatTable.Fat.ReadFat` | addons/libkosfat/fat.c:142-214 | reading through a cache of any two sizes with `cacheSize` at most the entries returns the entry of the table and changes nothing in it; with a `cacheSize` below 2 a straddling one is read from the second sector alone |
| `FatTable.Fat.WriteFat` | addons/libkosfat/fat.c:216-312 | writing through it makes the table the written one, or with a `cacheSize` below 2 puts both parts of a straddling entry into the second sector; a failure leaves it as it was |
| `FatTable.StoredAcross` | addons/libkosfat/fat.c:277-291 | the stores into two sectors are the write of a straddling entry |
| `FatTable.FoldedIff` | addons/libkosfat/fat.c:185-205 | read so, a straddling entry is right if and only if the last bytes of both sectors agree in their high nibbles |
| `FatTable.FoldedWrittenIff` | addons/libkosfat/fat.c:275-291 | written so, it is right if and only if the low nibble of the value stands there in both already |
| `FatChains.Scan` | addons/libkosfat/fat.c:347-389 | one pass finds the first entry of its range that looks empty, or that none does |
| `FatChains.AllocateCluster` | addons/libkosfat/fat.c:329-452 | for any last cluster: what the two passes come to first becomes end-of-chain, a cluster of the volume if and only if the search does not stray, and then the next free one in order; no space means that nothing looks empty; a failure changes nothing |
| `FatChains.InVolume` | addons/libkosfat/fat.c:341-396 | the search does not stray from a last cluster between 1 and `numClusters + 2` |
| `FatChains.UnknownStrays` | addons/libkosfat/fat.c:341-396 | from the FSINFO value for an unknown cluster, on a full volume with a zero after its last entry, a number is given that is no cluster |
| `FatChains.AllocateOn12` | addons/libkosfat/fat.c:454-482 | on FAT12 no cluster is ever given: every free one after the last allocated is marked in use, and no space is reported; something is lost if and only if something was free |
| `FatChains.AllocatedEntry` | addons/libkosfat/fat.c:329-452 | as a map: one free entry becomes an end-of-chain value and no other entry changes |
| `FatChains.EraseChain` | addons/libkosfat/fat.c:497-524 | on all three kinds: terminates on a chain of clusters that do not disturb one another, having freed exactly its clusters and counted them; a failed read leaves the clusters before it free |
| `FatChains.FreedEntry` | addons/libkosfat/fat.c:497-524 | as a map: the clusters of the chain read zero and no entry changes that they do not disturb |
| `FatChains.AllocationCounted` | addons/libkosfat/fat.c:362-377 | an allocation on FAT32 keeps the superblock's count the number of free clusters |
| `FatChains.ErasureCounted` | addons/libkosfat/fat.c:497-524 | erasing raises that number by one for each cluster of the chain |
| `FatChains.CountDrifts` | addons/libkosfat/fat.c:329-524 | over any run of allocations and erasures the superblock's count, modulo 2^32, is the number of free clusters on FAT32, and on FAT16 is ahead of it by the number of allocations |
| `Sha256.MixedIs` | addons/libkosoverlay/sha256.c:49-55 | the in-place sum of the schedule is the next word of the definition |
| `Sha256.ScheduledNext` | addons/libkosoverlay/sha256.c:45-55 | sixteen words in a circle are the last sixteen of the 64-word schedule, at every step |
| `Sha256.Compress` | addons/libkosoverlay/sha256.c:39-68 | the block function is the one of section 6.2 of RFC 6234 |
| `Sha256.EndIs` | addons/libkosoverlay/sha256.c:94-108 | absorbing the padded message is one last block or two, as the length fits or not |
| `Sha256.Hash.Update` | addons/libkosoverlay/sha256.c:77-92 | the bytes are added to the message, however they fall on block boundaries |
| `Sha256.Hash.Final` | addons/libkosoverlay/sha256.c:94-108 | the state after the padding of section 4.1 of RFC 6234 |
| `Sha256.HashParts` | addons/libkosoverlay/sha256.c:70-108 | for every split of a message into updates the digest is the message's |
| `OvlPackage.InOrder` | addons/libkosoverlay/package.c:65-105 | in an accepted table every segment ends before any later one begins |
| `OvlPackage.Segments` | addons/libkosoverlay/package.c:65-105 | accepts exactly the tables of good segments in order, with reserved bytes zero, in which an executable segment holds the entry |
| `OvlPackage.OnePermission` | addons/libkosoverlay/package.c:90-100 | any two segments of an accepted table that touch a page have the same permissions, neighbours or not |
| `OvlPackage.PagePlan` | addons/libkosoverlay/overlay.c:323-331 | each page has the permissions of every segment that touches it, and none is writable and executable |
| `OvlPackage.Scatter` | addons/libkosoverlay/package.c:107-119 | every byte of the slot after a chunk, by the segments in turn |
| `OvlPackage.PartialMore` | addons/libkosoverlay/package.c:107-119 | chunk by chunk, in any partition of the stream, exactly the file bytes read so far are in place |
| `OvlPackage.LoadedIs` | addons/libkosoverlay/package.c:107-127 | in the end each segment has its file bytes and then zeros, and no other byte has changed |
| `OvlSlot.StepSound` | addons/libkosoverlay/overlay.c:101-205 | every section under the mutex keeps the protocol's invariant |
| `OvlSlot.Residency` | addons/libkosoverlay/overlay.c:101-156 | in every run, a token that is out means an active slot, no operation, equal generations and the admitted image |
| `OvlSlot.HeldThroughout` | addons/libkosoverlay/overlay.c:101-156 | until a token is released, nothing any thread does changes the image or the generation |
| `OvlSlot.GenerationCounts` | addons/libkosoverlay/overlay.c:393-398 | the generation is the number of admissions: each raises it by one and nothing else does |
| `OvlSlot.ActiveIff` | addons/libkosoverlay/overlay.c:392-403 | a slot is active if and only if the last load past its point of no return, or unload, was an admission |
| `OvlSlot.EarlyFailure` | addons/libkosoverlay/overlay.c:290-342 | a load that fails before that point leaves the slot as it was, and others have changed nothing meanwhile |
| `OvlControl.Control.Acquire` | addons/libkosoverlay/overlay.c:101-126 | does the protocol's step on the fields and the list of tokens, and reports its result |
| `OvlControl.Control.Release` | addons/libkosoverlay/overlay.c:128-146 | unlinks and zeroes just this token, or reports why not |
| `OvlControl.Control.Claim` | addons/libkosoverlay/overlay.c:148-156 | claims the operation, or reports a busy or exhausted slot |
| `OvlControl.Control.Finish` | addons/libkosoverlay/overlay.c:391-404 | the end of a load, by how far it came |
| `OvlControl.Control.Unload` | addons/libkosoverlay/overlay.c:193-205 | inactive afterwards; a failed retirement is pending and may be tried again |
| `OvlLoad.Load` | addons/libkosoverlay/overlay.c:260-407 | directly mapped or translated: refused and early failures change nothing, later ones leave the slot inactive, a translated one perhaps with cleanup pending, and an admitted image has the digest asked for and is in place, one generation on |

## Findings

Where the code does not do what its comments or its other half promise, the model keeps the code
and a theorem says exactly when it is right.

- **FAT12, even entries that straddle two sectors.** The code takes any straddling entry for an
  odd one (`fat.c:193-194` takes it for granted). Cluster 682 is the first that is not. Reading one
  returns other bits than the format's (`ReadsFormat`); writing one clobbers the next entry
  (`MistakenClobbers`), and writing the next entry changes what is read as it
  (`MistakenMisread`). `OthersStayIff` is the exact condition for all pairs of entries.
- **ext2, the trebly-indirect tree.** Appending divides by `p*p`, looking up divides by `p`. They
  agree up to logical block `12 + p + p*p + p`; beyond, lookups go through block 0
  (`ResolvesIff`, `ResolvesExactly`, `LostTogether`), and from the first `p*p` blocks of the tree
  on they read past the end of a buffer (`IndexedIff`). When that tree needs its second
  doubly-indirect block, the append follows a null pointer itself (`AppendLost`).
- **ext2, buffers held across an allocation.** `ext2_inode_alloc_block` keeps pointers into two
  cached blocks while `ext2_block_alloc` reads bitmaps: the pointer block that it stores into, and
  the parent from which it reads that block's number again, to mark it dirty. The search never
  takes the last bit of a group, so filled groups keep a count of one and their bitmaps are read
  in vain each time. With the default 32 entries (`ext2fs.h:51`), 29 such groups evict the
  parent: its buffer comes to hold the new zeroed block, block 0 is marked dirty, and the pointer
  is lost when its block is evicted. 30 evict the pointer block too, and the store itself lands
  in another block's buffer (`LostBuffers`, `ParentGivesWay`). `AppendBlock` is therefore proved
  under `Roomy`: more cache entries than readable bitmaps and three.
- **ext2, freeing that fails.** Blocks are freed up to the failing access, but a tree's word stays
  in the inode unless all of the tree is free; so a word that is left heads a tree wholly in
  use if and only if none of that tree was reached (`WordHeads`). The sector count is set to zero
  all the same, and the third tree's word even when its tree could not be freed (`FreeAll`).
- **LZ4, 32-bit tests.** The decoder tests a match length for overflow before it adds the four
  bytes of the minimum match, and so lets one pass that ends in the last four addresses
  (`MatchTest`, `OverrunsIff`). Every output buffer in the upper half of the address space has an
  input that gets there (`UpperHalfOverruns`). No block that should be accepted does
  (`AcceptedInside`), and no input does where the buffer is low enough (`FarBelow`).
- **Cache, counting misses.** "A buffer survives `cache_size - 1` misses" does not hold when hits
  come between (`MissesDoNotBound`); distinct blocks are what counts (`UsedSince`).
- **FAT, two cache sizes.** The table's cache has `fcache_size` entries, but `make_mru`
  (`fat.c:18-34`) rotates it by `cache_size`. It stays inside the array if and only if `cache_size`
  is not larger (`InRangeIff`); a smaller one keeps the contents, but below two the sectors of
  a straddling FAT12 entry come into one buffer (`FoldedIff`, `FoldedWrittenIff`).
- **FAT12, allocation.** Neither loop of the FAT12 branch returns the cluster that it has found: the
  free clusters are marked in use, and the report is always that there is no space
  (`AllocateOn12`).
- **FAT16 and FAT32, the last cluster allocated** comes from the FSINFO sector unchecked. Outside
  `1..numClusters + 2` the search may give a reserved cluster or one behind the volume; `Strays` is
  exactly when (`AllocateCluster`, `UnknownStrays`).
- **FAT16, the count of free clusters.** Erasing counts up and allocating does not count down, so
  the count is ahead by the number of allocations (`CountDrifts`).

## Left out

- DecompressSafe: on failure only that the result is negative, not which position it encodes.
- DecompressSafe: what the decoder does past the end of its buffer, once a match has overrun it; and buffers within 65535 bytes of address zero or fifteen of the top (`Clear`), where `StartTest` says what the offset test is worth.
- Count: `LZ4_NbCommonBytes` is the index of the first differing byte, not its bit trick.
- CompressDestSize: accelerations below 1 or too large to be shifted in an int, which the source asserts away or leaves undefined.
- LZ4 fast decode loop, partial decoding, dictionaries, streaming and the deprecated entry points: not what this target uses, or another project on top.
- AppendBlock: files with an attribute block, and appends from the second doubly-indirect block of the third tree on, where the code follows a null pointer (`AppendLost`).
- AppendBlock: a cache too small for `Roomy`; `LostBuffers` and `ParentGivesWay` say which buffer is lost then, but the damage done through it is not modelled.
- ReadBlock: lookups beyond `Indexed`, which read past the end of a buffer.
- FreeAll: freeing the inode itself (`for_del`), its attribute block, and `malloc` failures apart from failed reads.
- BlockAlloc: descriptor and superblock dirty flags, and block numbers beyond 32 bits.
- AllocateCluster: sector sizes are multiples of four, and offsets in a sector are taken of unwrapped positions, which is the same for powers of two.
- AllocateOn12: caches of size one, and a last cluster outside `1..numClusters + 1`, which FAT12 has no FSINFO sector to read from.
- WriteFat: values are numbers; the check of `cl` against the table's size is not modelled.
- Cache: `fat_cluster_clear`, whose hit path zeroes a buffer without marking it dirty.
- ext2 directories, inode allocation and caching, path lookup, and the mount code.
- FAT directories, long names and the mount code.
- Lz4Service: what the decoder computes, progress counts, wake-ups, the start handshake's timeout and freeing the service; clients use no job they have destroyed.
- Lz4Service: the queue is a sequence there; `Lz4Queue.Ring` is the ring that implements it.
- Hash: `final` writes the digest's bytes from the state; the model computes them with `DigestOf`. The block function is a parameter of the class, and `Compress` is proved to be the one it is used with.
- Segments: the alignment test `a & (a - 1)` is stated as being a power of two; the checks of the header's fields are not modelled.
- Acquire: address checks, the mutex's own failures and the returned view; a token belongs to one slot.
- Load: opening the file, path, backend and header checks are the parameter `prepared`; a translated slot's memory is its bytes, and a failed write to it may leave anything in them.
- The fiber disc, the gprof call graph, the conversion and hash helpers of other add-ons.
