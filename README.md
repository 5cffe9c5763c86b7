# chfs storage engine in Dafny

This is a model of the storage engine of chfs, a block-based file system, with proofs about it. The model covers five layers. Each layer is sequential and deterministic, and each is stated over one disk image: a `seq<seq<u8>>` of fixed-size blocks, held by a `BlockManager` object.

- **Block allocator** (`Allocation.BlockAllocator`, from `src/block/allocator.cc`).
  - A bitmap over all blocks lives in `bitmap_block_cnt` blocks starting at `bitmap_block_id`.
  - The constructor sizes the bitmap and reserves the blocks in front of it.
  - `allocate` is first-fit.
  - `deallocate` rejects out-of-range ids and double frees.
  - `free_block_cnt` counts clear bits.
- **Inode manager** (`InodeTable.InodeManager`, from `src/metadata/manager.cc`).
  - A table of 8-byte block ids starts at block 1, followed by an inode bitmap.
  - Logical inode ids are raw table indices plus one.
  - It provides `allocate_inode`, `set_table`, `get`, `read_inode`, `free_inode` and `free_inode_cnt`, plus the attribute and type projections.
- **Inode record helpers** (`Inodes`, from `src/metadata/inode.cc`).
  - The slot range of a record is `[begin, end)`.
  - The indirect pointer is the last slot.
  - `write_indirect_block` is guarded on that slot.
- **File data operations** (`FileOps.FileOperation`, from `src/filesystem/data_op.cc`).
  - `write_file` grows or shrinks the chain of block pointers (direct slots plus one indirect block), writes the content in block-size chunks and persists the record.
  - `read_file` reassembles exactly `size` bytes.
  - The offset, resize and alloc variants are built on these two.
- **Directories** (`DirText` and `Directories.DirectoryOps`, from `src/filesystem/directory_op.cc`).
  - The text encoding `name:id/name:id/…` has encode, append, parse and remove helpers, plus decimal printing and parsing of ids.
  - `lookup`, `mk_helper` and `unlink` sit on top of file read and write.

**How the model is built.**
- Each imperative operation is a method that changes `bm.blocks`.
- Each method is proved equal to a specification function on the disk image, e.g. `AllocateSpec`, `WriteFileSpec` or `UnlinkSpec`.
- Lemmas prove what the source promises about those functions:
  - first-fit allocation;
  - allocate-then-deallocate restores the disk;
  - no double free;
  - `get` after `allocate_inode`;
  - write-then-read returns the content;
  - parse after encode returns the list;
  - lookup after `mk_helper` and after `unlink`.
- Multi-step operations are written with `Step = Next(phase) | Stop(error, disk)`, so an error part-way keeps the writes already done.

**Quirks kept as written.**
- In the last bitmap block, `allocate` scans only `last_block_num / 8` whole bytes. Up to seven valid blocks can therefore never be handed out, while `free_block_cnt` still counts them (`OutOfResourceLeavesTail`).
- `allocate_inode` forgets which bitmap block it is scanning. It returns the in-block offset plus one and sets the table entry at that offset (`AllocateInodeResult`, `AllocateInodeMisplaced`). `free_inode` uses the global position.
- `get`, `read_inode` and `free_inode` accept only ids below `max_inode_supported - 1`.
- Id 0 is not rejected. `LOGIC_2_RAW(0)` wraps to raw index 2^64 − 1, which addresses a word or bit far past the table and bitmap.
  - `get(0)` returns that word, or 0 when its block is past the store.
  - `free_inode(0)` clears that bit when it is set.
  - On any store of at most (2^64 − 1) / (8 · block_size) blocks (about 2^55 blocks of 64 bytes, 2^49 blocks of 4096 bytes), both land past the store, so `read_inode(0)` and `free_inode(0)` fail with INVALID_ARG (`IdZeroRejected`).
- `free_inode_cnt` counts every bit of the inode bitmap.
- Some results are ignored:
  - `deallocate` in `write_file`'s shrink loop;
  - `read_directory` in `lookup` and `mk_helper`, where a failed read reads as an empty listing;
  - `write_file` in `mk_helper` and `unlink`.

## Model

| member | source | states |
|---|---|---|
| Allocation.AllocatorSizing | src/block/allocator.cc:16-38 | The bitmap takes ceil(total / bits-per-block) > 0 blocks. The last one holds 0 < last_block_num ≤ bits-per-block meaningful bits. (count − 1)·bits-per-block + last_block_num = total blocks. |
| Allocation.BlockAllocator.constructor | src/block/allocator.cc:11-77 | Sets count and last_block_num by those formulas. Without initialisation the disk is untouched. With it, bit b of the bitmap region is set exactly when b < bitmap_block_id + bitmap_block_cnt, and no block outside the bitmap changes. |
| Allocation.BlockAllocator.ZeroBitmap | src/block/allocator.cc:46-49 | Every bitmap block becomes zero and nothing else changes. |
| Allocation.BlockAllocator.ReserveFront | src/block/allocator.cc:51-76 | Starting from zeroed bitmap blocks, the loop (flushing whenever the block changes, then a final flush) sets exactly bits [0, bitmap_block_id + bitmap_block_cnt). |
| Allocation.BlockAllocator.ReserveBit | src/block/allocator.cc:57-74 | One iteration: bits below i + 1 are flushed or sit in the buffer, the buffer's block advancing when i crosses a block. |
| Allocation.BlockAllocator.FreshBitmap | src/block/allocator.cc:46-76 | After the reservation, free_block_cnt = total − (bitmap_block_id + bitmap_block_cnt), and allocate never returns a reserved block. |
| Allocation.BlockAllocator.FreeBlockCnt | src/block/allocator.cc:80-106 | Returns the number of clear bits among the first total_blocks bits. |
| Allocation.BlockAllocator.CountLastBlock | src/block/allocator.cc:90-96 | The total is the count over the full blocks plus the clear bits among the first last_block_num bits of the last block. |
| Allocation.BlockAllocator.ScanBitmapBlock | src/block/allocator.cc:113-135 | Returns the block's bytes and its first clear bit within the scanned width: all bits, or in the last block the whole bytes of last_block_num. |
| Allocation.BlockAllocator.Allocate | src/block/allocator.cc:109-161 | The status and the new disk are those of AllocateSpec. |
| Allocation.BlockAllocator.AllocateSpec | src/block/allocator.cc:109-161 | The disk keeps its shape. An Ok result is below total_blocks. |
| Allocation.BlockAllocator.AllocateIsFirstFit | src/block/allocator.cc:113-160 | Ok(g): g is the lowest clear scanned bit, all lower bits are set, only bit g changes, and only g's bitmap block is written. Err: it is OUT_OF_RESOURCE, the disk is unchanged, and every scanned bit is set. |
| Allocation.BlockAllocator.FirstFitAt | src/block/allocator.cc:138-157 | If g is the first clear scanned bit, allocate returns g and sets it in g's bitmap block at g's offset. |
| Allocation.BlockAllocator.ScanFound | src/block/allocator.cc:113-149 | When block i is the first with a clear scanned bit p, the result is p + i·bits-per-block and only block i is rewritten. |
| Allocation.BlockAllocator.ScanExhausted | src/block/allocator.cc:160 | When every block scans full, the result is OUT_OF_RESOURCE and the disk is unchanged. |
| Allocation.BlockAllocator.OutOfResourceLeavesTail | src/block/allocator.cc:120-160 | On OUT_OF_RESOURCE, the free count equals the clear bits past the scan limit, and there are fewer than 8 of them. |
| Allocation.BlockAllocator.AllocateSetsBit | src/block/allocator.cc:143-146 | A successful allocate sets exactly the returned bit and writes only its bitmap block. |
| Allocation.BlockAllocator.AllocateKeepsOthers | src/block/allocator.cc:143-146 | allocate changes no block outside the bitmap. |
| Allocation.BlockAllocator.AllocateReturnsFree | src/block/allocator.cc:138-157 | allocate never returns a block whose bit is set. |
| Allocation.BlockAllocator.AllocateCount | src/block/allocator.cc:143-146 | A successful allocate lowers free_block_cnt by one. |
| Allocation.BlockAllocator.DeallocateSpec | src/block/allocator.cc:164-192 | The status is INVALID_ARG exactly when id ≥ total_blocks or its bit is clear, and then the disk is unchanged. Otherwise the status is Done. |
| Allocation.BlockAllocator.Deallocate | src/block/allocator.cc:164-192 | The status and the new disk are those of DeallocateSpec. |
| Allocation.BlockAllocator.DeallocateClearsBit | src/block/allocator.cc:179-183 | A successful deallocate clears exactly that bit and writes only its bitmap block. |
| Allocation.BlockAllocator.DeallocateKeepsOthers | src/block/allocator.cc:176-183 | deallocate changes no block outside the bitmap. |
| Allocation.BlockAllocator.DeallocateCount | src/block/allocator.cc:179-183 | A successful deallocate raises free_block_cnt by one. |
| Allocation.BlockAllocator.AllocateThenDeallocate | src/block/allocator.cc:109-192 | Deallocating the id allocate returned succeeds and gives back the original disk. |
| Allocation.BlockAllocator.DoubleFree | src/block/allocator.cc:179-180 | A second deallocate of the same id is INVALID_ARG and writes nothing. |
| InodeTable.ManagerSizing | src/metadata/manager.cc:21-42 | The bitmap block count is positive. max ≤ raised capacity < max + bits-per-block. The table blocks hold at least capacity entries and fewer than capacity + entries-per-block. |
| InodeTable.AdoptSizing | src/metadata/manager.cc:60-71 | For a max that is a multiple of bits-per-block, the bitmap block count times bits-per-block is max, and the table holds max entries. |
| InodeTable.InodeManager.constructor | src/metadata/manager.cc:17-54 | Sizes by the ceiling formulas, raises max_inode_supported to the bitmap capacity, zeroes table and bitmap blocks, and leaves other blocks unchanged. |
| InodeTable.InodeManager.ZeroFront | src/metadata/manager.cc:44-53 | Blocks 1 .. n_table + n_bitmap become zero and all others are unchanged. |
| InodeTable.InodeManager.FromBlockManager | src/metadata/manager.cc:56-75 | Adopts max (which must fill whole bitmap blocks) and computes the table size, with no write. |
| InodeTable.InodeManager.FreshInodeTable | src/metadata/manager.cc:44-53 | On the zeroed table and bitmap every inode id is free, and read_inode of every id fails INVALID_ARG. |
| InodeTable.InodeManager.SetTable | src/metadata/manager.cc:146-159 | Returns Done and leaves the disk of SetTableSpec. |
| InodeTable.InodeManager.SetTableWrites | src/metadata/manager.cc:148-152 | The 8 bytes at offset (idx % per-block)·8 of block 1 + idx / per-block are overwritten with bid. |
| InodeTable.InodeManager.SetTableEntries | src/metadata/manager.cc:146-158 | Entry idx becomes bid, every other entry is unchanged, only its table block is written, and the inode bitmap is unchanged. |
| InodeTable.InodeManager.Get | src/metadata/manager.cc:162-197 | INVALID_ARG for id ≥ max − 1. Otherwise table entry id − 1; for id 0, the word at wrapped raw index 2^64 − 1, or 0 when its block is past the store. |
| InodeTable.InodeManager.GetRead | src/metadata/manager.cc:168-194 | The word decoded from the block read for raw index LOGIC_2_RAW(id), a zero buffer when that block is past the store, is get's result. |
| InodeTable.InodeManager.ReadInode | src/metadata/manager.cc:265-290 | The result of ReadInodeSpec: get's error; INVALID_ARG for the sentinel entry or a block past the store; otherwise the block id and its bytes. |
| InodeTable.InodeManager.ReadInodeSpec | src/metadata/manager.cc:265-290 | The buffer is always one block long, zero on an error. |
| InodeTable.InodeManager.AllocateInode | src/metadata/manager.cc:78-143 | The status and the new disk are those of AllocateInodeSpec. |
| InodeTable.InodeManager.ClaimInodeSpec | src/metadata/manager.cc:91-131 | When block count is the first bitmap block with a clear bit p: the result is p + 1, and the disk gets that bit set, a fresh record at bid, and table entry p set to bid. |
| InodeTable.InodeManager.ClaimedBit | src/metadata/manager.cc:91-103 | That p is the offset of the first clear bit g of the whole bitmap, and setting it in the buffer is setting g. |
| InodeTable.InodeManager.InodeScanFound | src/metadata/manager.cc:91-98 | After full blocks 0 .. i − 1, block i's first clear bit p is global bit i·bits-per-block + p. |
| InodeTable.InodeManager.InodeScanExhausted | src/metadata/manager.cc:142 | When every bitmap block is full, the inode bitmap has no clear bit. |
| InodeTable.InodeManager.AllocateInodeResult | src/metadata/manager.cc:78-143 | Err exactly when no inode bit is clear; the error is OUT_OF_RESOURCE and the disk unchanged. Ok: the id is ≥ 1, equals the in-block offset of the first clear bit g plus one, and equals g + 1 exactly when g is in the first bitmap block. |
| InodeTable.InodeManager.AllocateInodeMarks | src/metadata/manager.cc:103-125 | A successful allocate_inode sets exactly bit g and lowers free_inode_cnt by one. |
| InodeTable.InodeManager.GetAfterAllocate | src/metadata/manager.cc:129-131 | get of the returned id, when in range, yields bid. |
| InodeTable.InodeManager.RecordAfterAllocate | src/metadata/manager.cc:121-131 | The returned id, when in range, reads back as a fresh record of the requested type. |
| InodeTable.InodeManager.AllocateInodeMisplaced | src/metadata/manager.cc:129-131 | When g lies past the first bitmap block, g's own table entry is not updated. |
| InodeTable.InodeManager.FreeInode | src/metadata/manager.cc:293-333 | The status and the new disk are those of FreeInodeSpec. |
| InodeTable.InodeManager.FreeInodeAt | src/metadata/manager.cc:302-323 | The bit checked is bit (id − 1) % bits of bitmap block (id − 1) / bits. If it is set, that bit is cleared and entry id − 1 is reset. Otherwise the result is INVALID_ARG and the disk is unchanged. |
| InodeTable.InodeManager.FreeInodeLocated | src/metadata/manager.cc:302-323 | For every id below max − 1, including the wrapped id 0: free_inode checks the bit at (raw % bits) of block (1 + n_table + raw / bits) mod 2^64. If that block is in the store and the bit is set, the bit is cleared and table entry raw reset. Otherwise INVALID_ARG with no write. |
| InodeTable.InodeManager.IdZeroRejected | src/metadata/manager.cc:162-333 | On a store smaller than (2^64 − 1) / bits-per-block blocks, read_inode(0) fails INVALID_ARG, and free_inode(0) fails INVALID_ARG and writes nothing. |
| InodeTable.InodeManager.FreeInodeResult | src/metadata/manager.cc:297-316 | For ids ≥ 1: Done exactly when id < max − 1 and its bit is set. A failure is INVALID_ARG with no write. Success clears exactly bit id − 1. |
| InodeTable.InodeManager.FreeInodeDone | src/metadata/manager.cc:316-323 | On success, entry id − 1 becomes the sentinel and the bit is clear. |
| InodeTable.InodeManager.FreeInodeEntries | src/metadata/manager.cc:319-323 | On success, only entry id − 1 of the table changes. |
| InodeTable.InodeManager.FreeInodeCountUp | src/metadata/manager.cc:311-317 | On success, free_inode_cnt rises by one. |
| InodeTable.InodeManager.FreeInodeTwice | src/metadata/manager.cc:279-323 | After a successful free_inode(id), read_inode(id) fails INVALID_ARG and a second free_inode(id) fails INVALID_ARG. |
| InodeTable.InodeManager.FreeInodeCnt | src/metadata/manager.cc:199-224 | Returns the number of clear bits over every inode bitmap block, with no last-block bound. |
| InodeTable.InodeManager.CountInodeBlock | src/metadata/manager.cc:210-222 | The count after block i is the count before it plus the clear bits of block i. |
| InodeTable.InodeManager.GetAttr | src/metadata/manager.cc:226-236 | read_inode's error, or the record's attributes. |
| InodeTable.InodeManager.GetType | src/metadata/manager.cc:238-248 | read_inode's error, or the record's type. |
| InodeTable.InodeManager.GetTypeAttr | src/metadata/manager.cc:250-262 | read_inode's error, or the pair of type and attributes. |
| Inodes.SlotRange | src/metadata/inode.cc:6-11 | Iterating from begin (0) to end (nblocks) visits every slot once, in order, and the last one visited is the indirect pointer. |
| Inodes.WriteIndirectBlock | src/metadata/inode.cc:13-22 | With the sentinel in the last slot: INVALID_ARG and no write. Otherwise the whole buffer goes to exactly that block and the block store's status is returned. The record is a value and is untouched. |
| Inodes.NewInode | src/metadata/manager.cc:121 | A fresh record has the requested type, size 0, all three times equal, and every slot the sentinel. |
| Inodes.DecodeEncodeInode | src/metadata/manager.cc:121-125 | A record flushed to a block buffer decodes back to the same record. |
| Inodes.PatchInodeWords | src/filesystem/data_op.cc:128-297 | Editing a record in the buffer it was read from changes only the four attribute words and the listed slots; the type word, the slot count and every later word keep their stored values. |
| Inodes.DecodePatchInode | src/filesystem/data_op.cc:294-297 | The edited buffer reads back as the edited record, when the edit keeps the record's type and slot count. |
| Inodes.PatchUnedited | src/filesystem/data_op.cc:294-297 | Writing back an unedited record reproduces the stored block byte for byte. |
| FileOps.CalculateBlockSize | src/filesystem/data_op.cc:59-62 | The least k with k·bs ≥ n. |
| FileOps.Fit | src/filesystem/data_op.cc:435-437 | content cut or zero-extended to sz bytes. |
| FileOps.Overlay | src/filesystem/data_op.cc:73-78 | Length max(old, offset + len). data sits at offset. Other bytes are the old ones, or zero in the gap. |
| FileOps.FileOperation.AllocInode | src/filesystem/data_op.cc:22-41 | The status and the new disk are those of AllocInodeSpec. |
| FileOps.FileOperation.AllocInodeSpec | src/filesystem/data_op.cc:27-29 | A block-allocation failure is returned unchanged, with no write. |
| FileOps.FileOperation.AllocInodeOutcomes | src/filesystem/data_op.cc:22-41 | Err exactly when no block or no inode id is free. An inode failure is OUT_OF_RESOURCE with the block left allocated. Success: id ≥ 1; one block and one inode fewer are free; the id reads back as a fresh record of the type. |
| FileOps.FileOperation.AllocateInodeKeepsBlockBits | src/filesystem/data_op.cc:32 | allocate_inode with a record block past the metadata leaves the block bitmap unchanged. |
| FileOps.FileOperation.AllocateKeepsInodeBits | src/filesystem/data_op.cc:27 | allocate leaves the inode bitmap unchanged. |
| FileOps.FileOperation.GetAttr | src/filesystem/data_op.cc:43-46 | The inode manager's get_attr. |
| FileOps.FileOperation.GetTypeAttr | src/filesystem/data_op.cc:48-52 | The inode manager's get_type_attr. |
| FileOps.FileOperation.GetType | src/filesystem/data_op.cc:54-57 | The inode manager's get_type. |
| FileOps.FileOperation.WriteFile | src/filesystem/data_op.cc:89-320 | The status and the new disk are those of WriteFileSpec: read_inode's error, OUT_OF_RESOURCE before any write when the content exceeds the maximum size, otherwise resize, chunks and persist. |
| FileOps.FileOperation.RewriteFile | src/filesystem/data_op.cc:128-313 | Resize the pointer chain from ceil(size/bs) to ceil(len/bs) blocks, set size and mtime, then refill: the result of Rewrite. |
| FileOps.FileOperation.ResizeBlocks | src/filesystem/data_op.cc:132-226 | Grows over [old, new) or shrinks over [new, old) and cancels the indirect block: the result of Resize. |
| FileOps.FileOperation.GrowBlocks | src/filesystem/data_op.cc:135-174 | The loop's result is Grow: one allocation and placement per index, stopping at the first error. |
| FileOps.FileOperation.GrowOne | src/filesystem/data_op.cc:144-172 | One growth step: allocate a block and place it at index idx. |
| FileOps.FileOperation.PlaceBlock | src/filesystem/data_op.cc:151-172 | The block goes to slot idx if direct, else to indirect entry idx − direct_num, fetching or creating the indirect block first. |
| FileOps.FileOperation.GetOrInsertIndirect | src/filesystem/data_op.cc:157-166 | The indirect block id, allocating one when the slot holds the sentinel. |
| FileOps.FileOperation.LoadIndirectBlock | src/filesystem/data_op.cc:157-167 | The indirect block is loaded at most once: a buffer already loaded is kept. |
| FileOps.FileOperation.GrowStep | src/filesystem/data_op.cc:144-172 | A step that goes on allocated a block, and index idx now maps to it. |
| FileOps.FileOperation.GrowStepCount | src/filesystem/data_op.cc:144-172 | A step uses one free block, plus one when it creates the indirect block. A direct index leaves the indirect state alone. |
| FileOps.FileOperation.GrowStepKeeps | src/filesystem/data_op.cc:144-172 | A growth step writes no block outside the block bitmap. |
| FileOps.FileOperation.ShrinkBlocks | src/filesystem/data_op.cc:179-209 | The loop's result is Shrink: each index's block is deallocated, and the result is ignored. |
| FileOps.FileOperation.ShrinkOne | src/filesystem/data_op.cc:182-205 | One shrink step: free the block mapped at idx. |
| FileOps.FileOperation.ShrinkStepFrees | src/filesystem/data_op.cc:182-205 | A mapped index's block has its bit cleared, or nothing changes when the block is past the store. The record is unchanged. |
| FileOps.FileOperation.ShrinkStepKeeps | src/filesystem/data_op.cc:182-205 | A shrink step writes no block outside the block bitmap. |
| FileOps.FileOperation.CancelIndirectFrees | src/filesystem/data_op.cc:212-225 | Exactly when old > direct_num ≥ new: the indirect block's bit goes from set to clear, one more block is free, and the slot becomes the sentinel with the buffer dropped. Otherwise nothing changes. |
| FileOps.FileOperation.ResizeKeepsOthers | src/filesystem/data_op.cc:132-226 | The whole resize writes no block outside the block bitmap. |
| FileOps.FileOperation.WriteChunks | src/filesystem/data_op.cc:232-290 | The loop's result is Chunks: chunk k to the block at index k, for k = 0, 1, … |
| FileOps.FileOperation.WriteNextChunk | src/filesystem/data_op.cc:236-289 | One iteration writes min(bs, len − off) bytes and advances Chunks by one index. |
| FileOps.FileOperation.WriteChunk | src/filesystem/data_op.cc:238-282 | Locate block k, then write chunk k at its offset 0. |
| FileOps.FileOperation.PutChunkBlock | src/filesystem/data_op.cc:277-282 | A full chunk replaces the block. A short one overwrites its first sz bytes. A block past the store is left alone. |
| FileOps.FileOperation.ChunkStepKeeps | src/filesystem/data_op.cc:236-289 | A chunk step maps index k, puts the chunk at its block, changes no other block outside the bitmap, and keeps existing mappings. |
| FileOps.FileOperation.ChunksWritten | src/filesystem/data_op.cc:236-289 | After the loop, each index's final block starts with that index's chunk, unless a later step overwrote it. |
| FileOps.FileOperation.PersistInode | src/filesystem/data_op.cc:293-313 | All times set to now, then the buffer the record was read from written back to the record's block with its attribute words and slots updated, and the indirect block flushed only if loaded. |
| FileOps.FileOperation.PersistWrites | src/filesystem/data_op.cc:293-313 | The record block holds the buffer read at the start with the edited record's attributes and slots patched in, the indirect block holds the buffer, and no other block changes. |
| FileOps.FileOperation.RewriteLayout | src/filesystem/data_op.cc:229-313 | After a write that does not alias, the record has size len, sits at its block, and its blocks gather exactly the content. Nothing before the bitmap changes. |
| FileOps.FileOperation.WriteThenRead | src/filesystem/data_op.cc:89-402 | write_file(c) then read_file returns Ok(c), and the size attribute is len(c). |
| FileOps.FileOperation.ReadFile | src/filesystem/data_op.cc:323-402 | The result is ReadFileSpec: read_inode's error, or the bytes the record's blocks gather. |
| FileOps.FileOperation.ReadFileSpec | src/filesystem/data_op.cc:339-345 | Ok exactly when the record can be read. Otherwise read_inode's error. |
| FileOps.FileOperation.GatherFile | src/filesystem/data_op.cc:352-397 | The loop yields Gather(record, 0), chunk by chunk. |
| FileOps.FileOperation.ReadNextChunk | src/filesystem/data_op.cc:354-396 | One iteration reads min(bs, size − off) bytes, which are the head of what is left to gather. |
| FileOps.FileOperation.FindBlock | src/filesystem/data_op.cc:360-383 | The block of index k: slot k if direct, else indirect entry k − direct_num, loading the indirect block at most once. |
| FileOps.FileOperation.ReadFileBytes | src/filesystem/data_op.cc:347-398 | read_file returns exactly size bytes. Byte j is byte j % bs of the block mapped at index j / bs. |
| FileOps.FileOperation.ReadFileShort | src/filesystem/data_op.cc:347-398 | The content's length is the record's size, and below 2^64. |
| FileOps.FileOperation.ReadFileWOff | src/filesystem/data_op.cc:404-416 | read_file's error, or the sz bytes at offset. |
| FileOps.FileOperation.WriteFileWOffSpec | src/filesystem/data_op.cc:67-71 | read_file's error stops it with no write. |
| FileOps.FileOperation.WriteFileWOff | src/filesystem/data_op.cc:64-86 | The disk is the result of WriteFileWOffSpec; success reports len(data). |
| FileOps.FileOperation.WriteWOffThenRead | src/filesystem/data_op.cc:64-86 | Afterwards read_file is the old content with data overlaid at offset, so bytes [offset, offset + len) are data. |
| FileOps.FileOperation.ResizeFileSpec | src/filesystem/data_op.cc:418-448 | read_file's error stops it. When the length is already sz, nothing is written. |
| FileOps.FileOperation.ResizeFile | src/filesystem/data_op.cc:418-448 | The disk is the result of ResizeFileSpec. Success reports getattr's attributes with size sz. |
| FileOps.FileOperation.ResizeThenRead | src/filesystem/data_op.cc:418-448 | Afterwards read_file is the old content cut or zero-extended to sz, and the size attribute is sz. |
| DirText.IdToString | src/filesystem/directory_op.cc:33-38 | Decimal text with no superfluous leading zero. |
| DirText.StringToId | src/filesystem/directory_op.cc:25-31 | For all-digit text whose value fits 64 bits, the id is that value. |
| DirText.IdRoundTrip | src/filesystem/directory_op.cc:25-38 | Parsing a printed id returns it. Printing a parsed canonical numeral returns the numeral. |
| DirText.DirListToString | src/filesystem/directory_op.cc:41-56 | Empty exactly for the empty list; otherwise ends with '/'. |
| DirText.DirListSnoc | src/filesystem/directory_op.cc:41-56 | Adding an entry at the end adds `name ':' id '/'` at the end. |
| DirText.AppendToDirectory | src/filesystem/directory_op.cc:59-70 | src is a prefix of the result, which is longer and ends with '/'. |
| DirText.AppendIsSnoc | src/filesystem/directory_op.cc:41-70 | append(encode(l), n, id) = encode(l + [(n, id)]). |
| DirText.Segments | src/filesystem/directory_op.cc:77 | getline on '/' yields no segment holding '/'. |
| DirText.ParseRecord | src/filesystem/directory_op.cc:79-88 | One record `name ':' id`, written as the listing writes it for a name without ':' or '/', parses back to exactly that name and id. |
| DirText.ParseDirectory | src/filesystem/directory_op.cc:73-94 | One entry per segment, in order. The empty string gives none. |
| DirText.ParsedPlain | src/filesystem/directory_op.cc:77-88 | Parsed names hold neither ':' nor '/'. |
| DirText.ParseDirListToString | src/filesystem/directory_op.cc:41-94 | For names without ':' or '/', parse(encode(l)) = l. |
| DirText.ReparseIsStable | src/filesystem/directory_op.cc:41-94 | Re-encoding a parsed listing and parsing it again gives the same listing. |
| DirText.ParseAppend | src/filesystem/directory_op.cc:41-94 | parse(append(encode(l), n, id)) = l + [(n, id)] for plain names. |
| DirText.RewrittenEntry | src/filesystem/directory_op.cc:104-110 | A record rm_from_directory keeps (name, ':', rest of the line, '/') parses to the same entry as the original segment. |
| DirText.ParseRmFromDirectory | src/filesystem/directory_op.cc:97-116 | For every text, parse(rm(src, f)) is parse(src) without the entries named f, the others kept in order. |
| DirText.RmFromListing | src/filesystem/directory_op.cc:97-116 | parse(rm(encode(l), f)) = l without the entries named f. |
| DirText.Without | src/filesystem/directory_op.cc:102-111 | No entry is named f. An entry is kept exactly when it was there and is not named f. |
| DirText.FindEntry | src/filesystem/directory_op.cc:146-150 | None exactly when no entry has the name. Otherwise the id of the first entry with it. |
| DirText.FindWithout | src/filesystem/directory_op.cc:97-116 | After removal the name is not found, and other names find what they found before. |
| DirText.FindSnoc | src/filesystem/directory_op.cc:59-70 | An appended entry is found only when no earlier entry has its name. |
| Directories.DirectoryOps.ReadDirectorySpec | src/filesystem/directory_op.cc:121-137 | read_file's error, or the parse of the file's bytes. |
| Directories.DirectoryOps.ReadDirectory | src/filesystem/directory_op.cc:121-137 | The status of read_directory, and the parsed listing (empty on an error). |
| Directories.DirectoryOps.Listing | src/filesystem/directory_op.cc:121-137 | The list a caller sees: plain names, empty when the read fails. |
| Directories.DirectoryOps.LookupSpec | src/filesystem/directory_op.cc:140-155 | NotExist exactly when no listed entry has the name. Otherwise the id of the first entry with it. |
| Directories.DirectoryOps.Lookup | src/filesystem/directory_op.cc:140-155 | The result is LookupSpec's. |
| Directories.DirectoryOps.FindInList | src/filesystem/directory_op.cc:146-150 | The loop returns the first match: FindEntry. |
| Directories.DirectoryOps.FirstMatch | src/filesystem/directory_op.cc:146-149 | The first entry with the name gives its id. |
| Directories.DirectoryOps.MkContent | src/filesystem/directory_op.cc:177-179 | The parent's new text parses to its listing plus the new entry. |
| Directories.DirectoryOps.MkHelper | src/filesystem/directory_op.cc:158-190 | The result and the new disk are those of MkHelperSpec: AlreadyExist, alloc_inode's error, or the new id with the parent rewritten. |
| Directories.DirectoryOps.MkHelperOutcomes | src/filesystem/directory_op.cc:161-189 | AlreadyExist with no write when the name is listed. Otherwise an error exactly when no block or no inode id is free. A returned id is never 0. |
| Directories.DirectoryOps.MkThenLookup | src/filesystem/directory_op.cc:158-190 | After mk_helper, the parent lists its old entries plus the new one, lookup of the name returns the new id, and lookup of other names is unchanged. |
| Directories.DirectoryOps.Target | src/filesystem/directory_op.cc:210-220 | The id lookup found and its record, present exactly when lookup succeeds and read_inode accepts that id. |
| Directories.DirectoryOps.UnlinkCheck | src/filesystem/directory_op.cc:210-224 | Ok exactly when the target exists, can be read and is not a directory; then it is the target's id. The errors are lookup's, then read_inode's, then NotEmpty. |
| Directories.DirectoryOps.CheckUnlink | src/filesystem/directory_op.cc:210-224 | The result is UnlinkCheck's. |
| Directories.DirectoryOps.RmContent | src/filesystem/directory_op.cc:231-234 | The parent's new text parses to its listing without the name. |
| Directories.DirectoryOps.RemoveFile | src/filesystem/directory_op.cc:226-229 | remove_file's status and its disk. |
| Directories.DirectoryOps.RemoveEntry | src/filesystem/directory_op.cc:231-235 | The parent is rewritten with RmContent. |
| Directories.DirectoryOps.Unlink | src/filesystem/directory_op.cc:193-242 | The status and the new disk are those of UnlinkSpec: the check's error, remove_file's error, or Done with the parent rewritten. |
| Directories.DirectoryOps.UnlinkAbsent | src/filesystem/directory_op.cc:210-214 | A name not listed gives NotExist and no write. |
| Directories.DirectoryOps.UnlinkDirectory | src/filesystem/directory_op.cc:222-224 | A directory target gives NotEmpty and no write, whatever it holds. |
| Directories.DirectoryOps.UnlinkSucceeded | src/filesystem/directory_op.cc:210-241 | Done means: the target existed and was no directory; remove_file succeeded; the disk is remove_file's disk with the parent rewritten. |
| Directories.DirectoryOps.UnlinkThenLookup | src/filesystem/directory_op.cc:193-242 | After unlink, the parent lists its entries without the name, lookup of the name is NotExist, and lookup of other names is as after remove_file. |
| Directories.DirectoryOps.RewriteWithout | src/filesystem/directory_op.cc:231-235 | Rewriting the parent with RmContent removes exactly that name from what lookup sees. |

## Left out

- The block store, the bitmap helper, the block iterator and the inode header are not part of this model. Their contracts are stated by their use:
  - `BlockManager` reads, writes, partially writes and zeroes whole blocks, and fails on out-of-range ids.
  - Bitmap bits are least-significant-bit first, 8 per byte.
- The byte layout of an inode record lives in `metadata/inode.h`, which is not part of this model. The model uses its own fixed layout:
  - a header of 6 words (type, three times, size, slot count);
  - then the slots;
  - with `(block_size − 48) / 8` slots.
- Records are read into an `Inode` value: a type word other than 2 reads as a regular file, and a slot count larger than the block holds is cut to the slots present. `write_file` does not re-encode that value. It patches the attribute words and the listed slots into the block it read (`Inodes.PatchInode`), so every other word of the record keeps its stored value.
- Block ids are 8-byte little-endian words. The sentinel `KInvalidBlockID` is 0.
- `remove_file` is not part of this model. `Directories.DirectoryOps` takes it as a function on the disk image that keeps the disk's shape. Unlink's lemmas are stated relative to its result.
- Logging to the console is left out; it has no effect on the disk.
- Timestamps: each `time(0)` reading is a `now` parameter. `mk_helper` and `unlink` use one reading per call.
- Aborts (`CHFS_VERIFY`, `CHFS_ASSERT`) are preconditions: the allocator constructor's two checks (`allocator.cc:23-24`) and the divisibility check of `create_from_block_manager` (`manager.cc:63-64`).
- InodeTable.InodeManager.constructor, InodeTable.InodeManager.FromBlockManager: also require what the source does not check.
  - They require a positive `max_inode_supported`. With 0 the source builds a manager with no bitmap or table blocks, on which every id is out of range.
  - They require the table and bitmap regions to fit in the store. The source's `zero_block` past the store fails silently, and the manager then addresses blocks that do not exist.
  - The constructor requires the enlarged capacity to fit 64 bits. The source's products would wrap.
  - The model's manager invariant (a non-empty bitmap inside the store) rests on these three requirements.
- The one-argument allocator constructor (`allocator.cc:7-8`) is the three-argument one with bitmap block 0 and initialisation on, so it is not declared separately.
- Concurrency: the code has none.
- FileOps.FileOperation.WriteFile, FileOps.FileOperation.ReadFile: require the record, when readable, to be well formed, i.e. to hold at least the indirect slot and a size its blocks can map. On any other record the source reads or writes past its buffers.
- FileOps.FileOperation.WriteFile: requires content shorter than 2^64 bytes (the size attribute is a u64).
- FileOps.FileOperation.WriteFileWOff: requires offset + len < 2^64; the source's sum would wrap.
- FileOps.FileOperation.ReadFileWOff: requires [offset, offset + sz) to lie inside the content. The source's out-of-range iterators are undefined behaviour.
- FileOps.FileOperation.ResizeFile: the `read_file` error check after a successful `getattr` is not a separate path. Both read the same record, so that branch is proved unreachable.
- FileOps.FileOperation.WriteThenRead, FileOps.FileOperation.WriteWOffThenRead, FileOps.FileOperation.ResizeThenRead: hold for ids ≥ 1 when the final chunk blocks, the record block and the indirect block lie past the metadata and are pairwise distinct.
  - The source does not check the block conditions, and a corrupted bitmap can break them.
  - For id 0 the entry `get` reads lies outside the inode table, in a block that `write_file` itself may rewrite.
- Directories.DirectoryOps.MkThenLookup, Directories.DirectoryOps.UnlinkThenLookup, Directories.DirectoryOps.RewriteWithout: hold for a parent id ≥ 1 whose rewrite succeeds without aliasing, as above. Both operations ignore that write's result.
- Directories.DirectoryOps.MkHelper, Directories.DirectoryOps.Unlink: require that the parent is still a well-formed record after the allocation or the removal, and that its new text is shorter than 2^64 bytes.
- Directories.DirectoryOps.UnlinkAbsent: states only that an absent name gives NotExist. The converse does not hold, because `remove_file` may itself fail with NotExist.
- FileOps.FileOperation.GrowStepCount: the free-block count is proved per growth step. It is not summed over a whole growth.
- DirText.StringToId: `stringstream >>` also skips leading whitespace and accepts a sign, stores 0 (and fails the stream) when the remaining text starts with a character that is not a digit, and leaves the id unset only when nothing but whitespace follows. The model reads the leading digits only, gives 0 when there are none, and saturates at 2^64 − 1. Text is bytes, with no character encoding.
- `parse_directory` appends to a caller's list. Every caller passes an empty list, so it is modelled as returning the list.
- Errors from block reads in the read paths are not propagated, as in the source. A failed read leaves a zero buffer, which is what the model reads.
