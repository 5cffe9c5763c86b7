/** File data operations: a file's bytes live in the blocks its inode maps,
    block index k through direct slot k while k < DirectBlockNum, and
    through word k - DirectBlockNum of the indirect block beyond that. */
module FileOps {
  import opened Common
  import opened Codec
  import opened Bitmaps
  import opened BlockStore
  import opened Inodes
  import opened Allocation
  import opened InodeTable

  /** Number of blocks a file of n bytes occupies: the least k with k
      blocks holding n bytes. */
  function CalculateBlockSize(n: nat, blockSize: nat): (k: nat)
    requires blockSize > 0
    ensures k * blockSize >= n
    ensures k == 0 || (k - 1) * blockSize < n
  {
    CeilDivIsLeast(n, blockSize);
    CeilDiv(n, blockSize)
  }

  /** A block count within a capacity measured in blocks. */
  lemma {:induction false} BlocksWithin(n: nat, cap: nat, blockSize: nat)
    requires blockSize > 0 && n <= Mul(cap, blockSize)
    ensures CalculateBlockSize(n, blockSize) <= cap
  {
    var k := CalculateBlockSize(n, blockSize);
    if k > cap {
      MulMonotone(cap, k - 1, blockSize);
      MulIsProduct(k - 1, blockSize);
    }
  }

  /** A chunk starting below n, with n within cap blocks, has an index below cap. */
  lemma {:induction false} IndexWithin(k: nat, n: nat, cap: nat, blockSize: nat)
    requires Mul(k, blockSize) < n <= Mul(cap, blockSize)
    ensures k < cap
  {
    if k >= cap {
      MulMonotone(cap, k, blockSize);
    }
  }

  /** The vector content resized to sz bytes: cut, or extended with zeros. */
  function Fit(content: seq<u8>, sz: nat): (c: seq<u8>)
    ensures |c| == sz
    ensures forall i :: 0 <= i < sz ==> c[i] == if i < |content| then content[i] else 0
  {
    if sz <= |content| then content[..sz] else content + Zeros(sz - |content|)
  }

  /** content with data copied in at offset, after zero-extending it when it
      ends before offset + |data|. */
  function Overlay(content: seq<u8>, data: seq<u8>, offset: nat): (c: seq<u8>)
    ensures |c| == Max(|content|, offset + |data|)
    ensures c[offset..offset + |data|] == data
    ensures forall i :: 0 <= i < |c| && !(offset <= i < offset + |data|) ==>
              c[i] == if i < |content| then content[i] else 0
  {
    var grown := if offset + |data| > |content| then Fit(content, offset + |data|) else content;
    Overwrite(grown, offset, data)
  }

  /** The working state of write_file: the disk, the inode record being
      edited, and the indirect block's bytes once loaded (empty before). */
  datatype Phase = Phase(disk: seq<seq<u8>>, ino: Inode, indirect: seq<u8>)

  /** How a phase ends: with the next working state, or with an error and
      the disk as the error left it. */
  datatype Step = Next(st: Phase) | Stop(error: ErrorType, failDisk: seq<seq<u8>>) {
    function Disk(): seq<seq<u8>> {
      if Next? then st.disk else failDisk
    }

    function Status(): Status {
      if Next? then Done else Fail(error)
    }
  }

  /** A method's status, store and locals are the outcome s. */
  ghost predicate Reached(s: Step, r: Status, disk: seq<seq<u8>>, ino: Inode, indirect: seq<u8>) {
    if s.Next? then r == Done && s.st == Phase(disk, ino, indirect)
    else r == Fail(s.error) && disk == s.failDisk
  }

  /** The block of index k can be named with this record and loaded
      indirect block: a direct index needs nothing, any other needs the
      indirect block loaded. */
  predicate MapsIndex(ino: Inode, indirect: seq<u8>, k: nat)
    requires |ino.blocks| >= 1
  {
    !IsDirectBlock(ino, k) ==> k - DirectBlockNum(ino) < |indirect| / WordSize
  }

  class FileOperation {
    const bm: BlockManager
    const alloc: BlockAllocator
    const im: InodeManager

    /** Binds the operations to a store, its allocator and its inode manager. */
    constructor(bm: BlockManager, alloc: BlockAllocator, im: InodeManager)
      requires alloc.bm == bm && im.bm == bm && alloc.Sized() && im.Sized()
      requires alloc.bitmapBlockId == 1 + im.nTableBlocks + im.nBitmapBlocks
      ensures this.bm == bm && this.alloc == alloc && this.im == im && Wired()
    {
      this.bm, this.alloc, this.im := bm, alloc, im;
    }

    /** The allocator and the inode manager share the block store; the
        allocator's bitmap follows the inode manager's blocks. */
    ghost predicate Wired() {
      && alloc.bm == bm && im.bm == bm
      && alloc.Sized() && im.Sized()
      && alloc.bitmapBlockId == 1 + im.nTableBlocks + im.nBitmapBlocks
    }

    ghost predicate Valid()
      reads bm
    {
      Wired() && bm.Valid()
    }

    ghost predicate Fits(disk: seq<seq<u8>>) {
      Wired() && DiskShape(disk, bm.blockSize, bm.totalBlocks)
    }

    /** Block indices a record can map: its direct slots and the words of one indirect block. */
    function Capacity(ino: Inode): nat
      requires |ino.blocks| >= 1
    {
      DirectBlockNum(ino) + bm.blockSize / WordSize
    }

    /** Records with as many slots map as many blocks. */
    lemma SameCapacity(a: Inode, b: Inode)
      requires 1 <= |a.blocks| == |b.blocks|
      ensures Capacity(a) == Capacity(b)
      ensures MaxFileSize(a, bm.blockSize) == MaxFileSize(b, bm.blockSize) == Mul(Capacity(a), bm.blockSize)
    {
    }

    /** A record write_file and read_file can work on: at least the indirect
        slot, and a size within the blocks it can map. */
    ghost predicate WellFormed(ino: Inode) {
      |ino.blocks| >= 1 && ino.attr.size <= MaxFileSize(ino, bm.blockSize)
    }

    /** The record of inode id, when it can be read, is well formed. */
    ghost predicate FileShaped(disk: seq<seq<u8>>, id: nat)
      requires Fits(disk)
    {
      im.RecordOf(disk, id).Ok? ==> WellFormed(im.RecordOf(disk, id).value)
    }

    /** The new size and modification time of step 2 of write_file. */
    function Sized(ino: Inode, size: u64, now: u64): (ino': Inode)
      ensures ino'.blocks == ino.blocks && ino'.kind == ino.kind
      ensures ino'.attr == FileAttr(ino.attr.atime, now, ino.attr.ctime, size)
    {
      ino.(attr := ino.attr.(size := size, mtime := now))
    }

    /** Changing only the attributes keeps a working state shaped. */
    lemma ShapedSized(st: Phase, size: u64, now: u64)
      requires Shaped(st)
      ensures Shaped(st.(ino := Sized(st.ino, size, now)))
      ensures MaxFileSize(Sized(st.ino, size, now), bm.blockSize) == MaxFileSize(st.ino, bm.blockSize)
    {
      SameCapacity(Sized(st.ino, size, now), st.ino);
    }

    /** A working state over a disk image of this store. */
    ghost predicate Shaped(st: Phase) {
      && Fits(st.disk)
      && |st.ino.blocks| >= 1 && RecordFits(st.ino, bm.blockSize)
      && (|st.indirect| == 0 || |st.indirect| == bm.blockSize)
    }

    /** raw is the record block write_file read, and ino, the record being
        edited in it, keeps the slot count raw lists. */
    ghost predicate RecordBuffer(raw: seq<u8>, ino: Inode) {
      && |raw| == bm.blockSize && |raw| % WordSize == 0 && WordSize * HeaderWords <= |raw|
      && |ino.blocks| == |DecodeInode(raw).blocks|
    }

    /** The outcome s of a phase that started in st keeps the store's shape
        and the record's slot count, type and attributes. */
    ghost predicate Follows(st: Phase, s: Step) {
      && Fits(s.Disk())
      && (s.Next? ==>
            && Shaped(s.st)
            && |s.st.ino.blocks| == |st.ino.blocks|
            && s.st.ino.kind == st.ino.kind && s.st.ino.attr == st.ino.attr)
    }

    /** read_block into a zeroed buffer: the block, or zeros when out of range. */
    ghost function BlockAt(disk: seq<seq<u8>>, id: nat): (b: seq<u8>)
      requires Fits(disk)
      ensures |b| == bm.blockSize
      ensures b == if id < |disk| then disk[id] else Zeros(bm.blockSize)
    {
      im.BlockAt(disk, id)
    }

    /** The block of file index k in a state whose indirect block is loaded
        whenever k is not direct. */
    function MappedBlock(ino: Inode, indirect: seq<u8>, k: nat): u64
      requires |ino.blocks| >= 1 && MapsIndex(ino, indirect, k)
    {
      if IsDirectBlock(ino, k) then ino.blocks[k] else Words(indirect)[k - DirectBlockNum(ino)]
    }

    // -------------------------------------------------------------------
    // write_file as phases over a working state

    /** get_or_insert_indirect_block: a sentinel indirect slot gets a newly
        allocated block; an allocation error stops the write. */
    ghost function InsertIndirect(st: Phase): (s: Step)
      requires Shaped(st)
      ensures Follows(st, s)
      ensures s.Next? ==> s.st.indirect == st.indirect && s.st.ino.blocks[..DirectBlockNum(st.ino)] == st.ino.blocks[..DirectBlockNum(st.ino)]
      ensures IndirectBlockId(st.ino) != InvalidBlockId ==> s == Next(st)
    {
      if IndirectBlockId(st.ino) != InvalidBlockId then Next(st)
      else
        var a := alloc.AllocateSpec(st.disk);
        if a.0.Err? then Stop(a.0.error, a.1)
        else Next(Phase(a.1, SetSlot(st.ino, |st.ino.blocks| - 1, a.0.value as u64), st.indirect))
    }

    /** The indirect block is fetched (or created) only when not yet loaded,
        and read from the store into the working state. */
    ghost function LoadIndirect(st: Phase): (s: Step)
      requires Shaped(st)
      ensures Follows(st, s)
      ensures s.Next? ==> |s.st.indirect| == bm.blockSize
      ensures s.Next? ==> s.st.ino.blocks[..DirectBlockNum(st.ino)] == st.ino.blocks[..DirectBlockNum(st.ino)]
      ensures |st.indirect| != 0 ==> s == Next(st)
    {
      if |st.indirect| != 0 then Next(st)
      else
        match InsertIndirect(st)
        case Stop(e, d) => Stop(e, d)
        case Next(st1) => Next(st1.(indirect := BlockAt(st1.disk, IndirectBlockId(st1.ino))))
    }

    /** Getting at the block of index k: nothing to do for a direct index,
        otherwise the indirect block is loaded (created if need be). */
    ghost function Locate(st: Phase, k: nat): (s: Step)
      requires Shaped(st) && k < Capacity(st.ino)
      ensures Follows(st, s)
      ensures s.Next? ==> MapsIndex(s.st.ino, s.st.indirect, k)
      ensures IsDirectBlock(st.ino, k) ==> s == Next(st)
    {
      if IsDirectBlock(st.ino, k) then Next(st) else LoadIndirect(st)
    }

    /** Records bid as the block of index k: in its direct slot, or in its
        word of the loaded indirect block. */
    ghost function Assign(st: Phase, k: nat, bid: u64): (st': Phase)
      requires Shaped(st) && MapsIndex(st.ino, st.indirect, k) && k < Capacity(st.ino)
      ensures Shaped(st') && st'.disk == st.disk
      ensures |st'.ino.blocks| == |st.ino.blocks| && st'.ino.kind == st.ino.kind && st'.ino.attr == st.ino.attr
      ensures MapsIndex(st'.ino, st'.indirect, k) && MappedBlock(st'.ino, st'.indirect, k) == bid
    {
      if IsDirectBlock(st.ino, k) then st.(ino := SetSlot(st.ino, k, bid))
      else
        WordInside(k - DirectBlockNum(st.ino), |st.indirect|);
        st.(indirect := PatchWord(st.indirect, k - DirectBlockNum(st.ino), bid))
    }

    /** Records the newly allocated block bid at index idx, loading the
        indirect block first when idx needs it. */
    ghost function Place(st: Phase, idx: nat, bid: u64): (s: Step)
      requires Shaped(st) && idx < Capacity(st.ino)
      ensures Follows(st, s)
      ensures s.Next? ==> MapsIndex(s.st.ino, s.st.indirect, idx) && MappedBlock(s.st.ino, s.st.indirect, idx) == bid
    {
      match Locate(st, idx)
      case Stop(e, d) => Stop(e, d)
      case Next(st1) => Next(Assign(st1, idx, bid))
    }

    /** One growth step: allocate a block and record it at index idx. */
    ghost function GrowStep(st: Phase, idx: nat): (s: Step)
      requires Shaped(st) && idx < Capacity(st.ino)
      ensures Follows(st, s)
      ensures s.Next? ==> && alloc.AllocateSpec(st.disk).0.Ok? && MapsIndex(s.st.ino, s.st.indirect, idx)
                          && MappedBlock(s.st.ino, s.st.indirect, idx) == alloc.AllocateSpec(st.disk).0.value
    {
      var a := alloc.AllocateSpec(st.disk);
      if a.0.Err? then Stop(a.0.error, a.1)
      else Place(Phase(a.1, st.ino, st.indirect), idx, a.0.value as u64)
    }

    /** Growth from index idx up to hi: one allocation per index, in order. */
    ghost function Grow(st: Phase, idx: nat, hi: nat): (s: Step)
      requires Shaped(st) && idx <= hi <= Capacity(st.ino)
      ensures Follows(st, s)
      ensures alloc.SameOutsideBitmap(s.Disk(), st.disk)
      decreases hi - idx
    {
      if idx == hi then Next(st)
      else
        GrowStepKeeps(st, idx);
        match GrowStep(st, idx)
        case Stop(e, d) => Stop(e, d)
        case Next(st1) =>
          alloc.SameOutsideBitmapTrans(Grow(st1, idx + 1, hi).Disk(), st1.disk, st.disk);
          Grow(st1, idx + 1, hi)
    }

    /** One shrink step: free the block at index idx; the free's own result
        is ignored. */
    ghost function ShrinkStep(st: Phase, idx: nat): (s: Step)
      requires Shaped(st) && idx < Capacity(st.ino)
      ensures Follows(st, s)
    {
      match Locate(st, idx)
      case Stop(e, d) => Stop(e, d)
      case Next(st1) => Next(st1.(disk := alloc.DeallocateSpec(st1.disk, MappedBlock(st1.ino, st1.indirect, idx)).1))
    }

    /** Shrinking frees the blocks of indices idx .. hi - 1, in order. */
    ghost function Shrink(st: Phase, idx: nat, hi: nat): (s: Step)
      requires Shaped(st) && idx <= hi <= Capacity(st.ino)
      ensures Follows(st, s)
      ensures alloc.SameOutsideBitmap(s.Disk(), st.disk)
      decreases hi - idx
    {
      if idx == hi then Next(st)
      else
        ShrinkStepKeeps(st, idx);
        match ShrinkStep(st, idx)
        case Stop(e, d) => Stop(e, d)
        case Next(st1) =>
          alloc.SameOutsideBitmapTrans(Shrink(st1, idx + 1, hi).Disk(), st1.disk, st.disk);
          Shrink(st1, idx + 1, hi)
    }

    /** After a shrink from beyond the direct slots to within them, the
        indirect block is freed (an error here stops the write) and its
        slot reset; the loaded copy is dropped. */
    ghost function CancelIndirect(st: Phase, oldN: nat, newN: nat): (s: Step)
      requires Shaped(st)
      ensures Follows(st, s)
    {
      if oldN > DirectBlockNum(st.ino) && newN <= DirectBlockNum(st.ino) then
        var d := alloc.DeallocateSpec(st.disk, IndirectBlockId(st.ino));
        if d.0.Fail? then Stop(d.0.error, d.1)
        else Next(Phase(d.1, InvalidateIndirect(st.ino), []))
      else Next(st)
    }

    /** Step 2 of write_file: grow from oldN to newN blocks, or shrink. */
    ghost function Resize(st: Phase, oldN: nat, newN: nat): (s: Step)
      requires Shaped(st) && oldN <= Capacity(st.ino) && newN <= Capacity(st.ino)
      ensures Follows(st, s)
    {
      if newN > oldN then Grow(st, oldN, newN)
      else
        match Shrink(st, newN, oldN)
        case Stop(e, d) => Stop(e, d)
        case Next(st1) => CancelIndirect(st1, oldN, newN)
    }

    /** Chunk k of content: bytes [k * blockSize, min((k + 1) * blockSize, |content|)). */
    function ChunkOf(content: seq<u8>, k: nat): (c: seq<u8>)
      requires bm.blockSize > 0 && Mul(k, bm.blockSize) < |content|
      ensures 0 < |c| <= bm.blockSize
    {
      var off := Mul(k, bm.blockSize);
      content[off..off + Min(bm.blockSize, |content| - off)]
    }

    /** Writing one chunk: a whole-block write for a full chunk, a partial
        write at offset 0 for a short one; a failed write changes nothing. */
    ghost function PutChunk(disk: seq<seq<u8>>, bid: u64, data: seq<u8>): (disk': seq<seq<u8>>)
      requires Fits(disk) && |data| <= bm.blockSize
      ensures Fits(disk')
      ensures bid < bm.totalBlocks ==> disk' == disk[bid := Overwrite(disk[bid], 0, data)]
      ensures bid >= bm.totalBlocks ==> disk' == disk
    {
      if |data| == bm.blockSize then
        if bid < bm.totalBlocks then
          assert Overwrite(disk[bid], 0, data) == data;
          disk[bid := data]
        else disk
      else if bid < bm.totalBlocks then disk[bid := Overwrite(disk[bid], 0, data)]
      else disk
    }

    /** One step of step 3: chunk k goes to the block mapped at index k. */
    ghost function ChunkStep(st: Phase, content: seq<u8>, k: nat): (s: Step)
      requires Shaped(st) && Mul(k, bm.blockSize) < |content| && k < Capacity(st.ino)
      ensures Follows(st, s)
    {
      match Locate(st, k)
      case Stop(e, d) => Stop(e, d)
      case Next(st1) => Next(st1.(disk := PutChunk(st1.disk, MappedBlock(st1.ino, st1.indirect, k), ChunkOf(content, k))))
    }

    /** Step 3 of write_file from chunk k on. */
    ghost function Chunks(st: Phase, content: seq<u8>, k: nat): (s: Step)
      requires Shaped(st) && |content| <= MaxFileSize(st.ino, bm.blockSize)
      ensures Follows(st, s)
      decreases |content| - Mul(k, bm.blockSize)
    {
      if Mul(k, bm.blockSize) >= |content| then Next(st)
      else
        IndexWithin(k, |content|, Capacity(st.ino), bm.blockSize);
        match ChunkStep(st, content, k)
        case Stop(e, d) => Stop(e, d)
        case Next(st1) =>
          ChunkStepFits(st, content, k, st1);
          Chunks(st1, content, k + 1)
    }

    /** After a step the content still fits the record, and one block less
        of it is left. */
    lemma ChunkStepFits(st: Phase, content: seq<u8>, k: nat, st1: Phase)
      requires Shaped(st) && |content| <= MaxFileSize(st.ino, bm.blockSize)
      requires Shaped(st1) && |st1.ino.blocks| == |st.ino.blocks|
      ensures |content| <= MaxFileSize(st1.ino, bm.blockSize)
      ensures Mul(k + 1, bm.blockSize) == Mul(k, bm.blockSize) + bm.blockSize && bm.blockSize > 0
    {
      SameCapacity(st1.ino, st.ino);
    }

    /** The record with every time set to now (set_all_time). */
    function Touched(ino: Inode, now: u64): (ino': Inode)
      ensures ino'.attr == FileAttr(now, now, now, ino.attr.size)
      ensures ino'.kind == ino.kind && ino'.blocks == ino.blocks
    {
      ino.(attr := ino.attr.(atime := now, mtime := now, ctime := now))
    }

    /** Step 4 of write_file: the touched record goes back to its own block
        bid, edited in the buffer raw it was read from, then the indirect
        block is flushed if it was loaded. */
    ghost function Persist(st: Phase, raw: seq<u8>, bid: nat, now: u64): (s: Step)
      requires Shaped(st) && RecordBuffer(raw, st.ino) && bid < bm.totalBlocks
      ensures Fits(s.Disk())
      ensures s.Next? ==> s.st.ino == Touched(st.ino, now) && s.st.indirect == st.indirect
    {
      var ino := Touched(st.ino, now);
      var disk1 := st.disk[bid := PatchInode(raw, ino)];
      if |st.indirect| == 0 then Next(Phase(disk1, ino, st.indirect))
      else if IndirectBlockId(ino) == InvalidBlockId || IndirectBlockId(ino) >= bm.totalBlocks then
        Stop(InvalidArg, disk1)
      else Next(Phase(disk1[IndirectBlockId(ino) := st.indirect], ino, st.indirect))
    }

    /** write_file(id, content) on a disk image. */
    ghost function WriteFileSpec(disk: seq<seq<u8>>, id: nat, content: seq<u8>, now: u64): (s: Step)
      requires Fits(disk) && FileShaped(disk, id)
      requires |content| < 0x1_0000_0000_0000_0000
      ensures Fits(s.Disk())
      ensures s.Next? ==> |s.st.ino.blocks| >= 1
    {
      var rd := im.ReadInodeSpec(disk, id);
      if rd.0.Err? then Stop(rd.0.error, disk)
      else
        var ino := DecodeInode(rd.1);
        if |content| > MaxFileSize(ino, bm.blockSize) then Stop(OutOfResource, disk)
        else Rewrite(Phase(disk, ino, []), rd.1, rd.0.value, content, now)
    }

    /** Steps 2 to 4 of write_file on the record read from block bid. */
    ghost function Rewrite(st: Phase, raw: seq<u8>, bid: nat, content: seq<u8>, now: u64): (s: Step)
      requires Shaped(st) && RecordBuffer(raw, st.ino) && WellFormed(st.ino) && bid < bm.totalBlocks
      requires |content| <= MaxFileSize(st.ino, bm.blockSize) && |content| < 0x1_0000_0000_0000_0000
      ensures Fits(s.Disk())
      ensures s.Next? ==> |s.st.ino.blocks| == |st.ino.blocks| && s.st.ino.kind == st.ino.kind
    {
      var oldN := CalculateBlockSize(st.ino.attr.size, bm.blockSize);
      var newN := CalculateBlockSize(|content|, bm.blockSize);
      SameCapacity(st.ino, st.ino);
      BlocksWithin(st.ino.attr.size, Capacity(st.ino), bm.blockSize);
      BlocksWithin(|content|, Capacity(st.ino), bm.blockSize);
      match Resize(st, oldN, newN)
      case Stop(e, d) => Stop(e, d)
      case Next(st1) =>
        SameCapacity(st1.ino, st.ino);
        ShapedSized(st1, |content| as u64, now);
        Refill(st1.(ino := Sized(st1.ino, |content| as u64, now)), raw, bid, content, now)
    }

    /** Steps 3 and 4 of write_file: the content into the file's blocks,
        then the record and the indirect block back to the store. */
    ghost function Refill(st: Phase, raw: seq<u8>, bid: nat, content: seq<u8>, now: u64): (s: Step)
      requires Shaped(st) && RecordBuffer(raw, st.ino) && bid < bm.totalBlocks && |content| <= MaxFileSize(st.ino, bm.blockSize)
      ensures Fits(s.Disk())
      ensures s.Next? ==> |s.st.ino.blocks| == |st.ino.blocks| && s.st.ino.kind == st.ino.kind
    {
      match Chunks(st, content, 0)
      case Stop(e, d) => Stop(e, d)
      case Next(st1) => Persist(st1, raw, bid, now)
    }
  
    // -------------------------------------------------------------------
    // write_file

    /** get_or_insert_indirect_block on the record being edited: the
        indirect block's id, allocating one when the slot is the sentinel. */
    method GetOrInsertIndirect(ino0: Inode) returns (r: Result<u64>, ino: Inode)
      requires Valid() && Shaped(Phase(bm.blocks, ino0, []))
      modifies bm
      ensures Valid()
      ensures var s := InsertIndirect(Phase(old(bm.blocks), ino0, []));
              && (s.Next? ==> r == Ok(IndirectBlockId(s.st.ino)) && ino == s.st.ino && bm.blocks == s.st.disk)
              && (s.Stop? ==> r == Err(s.error) && bm.blocks == s.failDisk)
    {
      ino := ino0;
      if IndirectBlockId(ino) == InvalidBlockId {
        var a := alloc.Allocate();
        if a.Err? {
          return Err(a.error), ino;
        }
        ino := SetSlot(ino, |ino.blocks| - 1, a.value as u64);
      }
      r := Ok(IndirectBlockId(ino));
    }

    /** Loads the indirect block into the working buffer unless it is there already. */
    method LoadIndirectBlock(ino0: Inode, indirect0: seq<u8>) returns (r: Status, ino: Inode, indirect: seq<u8>)
      requires Valid() && Shaped(Phase(bm.blocks, ino0, indirect0))
      modifies bm
      ensures Valid()
      ensures Reached(LoadIndirect(Phase(old(bm.blocks), ino0, indirect0)), r, bm.blocks, ino, indirect)
    {
      ino, indirect := ino0, indirect0;
      if |indirect| != 0 {
        return Done, ino, indirect;
      }
      var res;
      res, ino := GetOrInsertIndirect(ino);
      if res.Err? {
        return Fail(res.error), ino, indirect;
      }
      var buffer, _ := bm.ReadBlock(res.value);
      indirect := buffer;
      r := Done;
    }

    /** Fetches what naming the block of index k needs: the indirect block,
        unless k is direct or the block is loaded already. */
    method LocateBlock(ino0: Inode, indirect0: seq<u8>, k: nat) returns (r: Status, ino: Inode, indirect: seq<u8>)
      requires Valid() && Shaped(Phase(bm.blocks, ino0, indirect0)) && k < Capacity(ino0)
      modifies bm
      ensures Valid()
      ensures Reached(Locate(Phase(old(bm.blocks), ino0, indirect0), k), r, bm.blocks, ino, indirect)
    {
      if IsDirectBlock(ino0, k) {
        return Done, ino0, indirect0;
      }
      r, ino, indirect := LoadIndirectBlock(ino0, indirect0);
    }

    /** Allocates the block of index idx and records it in its slot or indirect entry. */
    method GrowOne(ino0: Inode, indirect0: seq<u8>, idx: nat) returns (r: Status, ino: Inode, indirect: seq<u8>)
      requires Valid() && Shaped(Phase(bm.blocks, ino0, indirect0)) && idx < Capacity(ino0)
      modifies bm
      ensures Valid()
      ensures Reached(GrowStep(Phase(old(bm.blocks), ino0, indirect0), idx), r, bm.blocks, ino, indirect)
    {
      var a := alloc.Allocate();
      if a.Err? {
        return Fail(a.error), ino0, indirect0;
      }
      r, ino, indirect := PlaceBlock(ino0, indirect0, idx, a.value as u64);
    }

    /** Records bid at index idx: in its direct slot, or in its word of the
        indirect block, which is loaded first if need be. */
    method PlaceBlock(ino0: Inode, indirect0: seq<u8>, idx: nat, bid: u64) returns (r: Status, ino: Inode, indirect: seq<u8>)
      requires Valid() && Shaped(Phase(bm.blocks, ino0, indirect0)) && idx < Capacity(ino0)
      modifies bm
      ensures Valid()
      ensures Reached(Place(Phase(old(bm.blocks), ino0, indirect0), idx, bid), r, bm.blocks, ino, indirect)
    {
      ghost var loc := Locate(Phase(bm.blocks, ino0, indirect0), idx);
      r, ino, indirect := LocateBlock(ino0, indirect0, idx);
      if r.Fail? {
        return;
      }
      assert loc.st == Phase(bm.blocks, ino, indirect);
      if IsDirectBlock(ino, idx) {
        ino := SetSlot(ino, idx, bid);
      } else {
        WordInside(idx - DirectBlockNum(ino), |indirect|);
        indirect := PatchWord(indirect, idx - DirectBlockNum(ino), bid);
      }
      assert Assign(loc.st, idx, bid) == Phase(bm.blocks, ino, indirect);
    }

    /** After a successful GrowStep at idx, Grow goes on from idx + 1. */
    lemma {:induction false} GrowAdvance(st: Phase, idx: nat, next: nat, hi: nat, st1: Phase)
      requires Shaped(st) && idx < hi <= Capacity(st.ino) && next == idx + 1 && GrowStep(st, idx) == Next(st1)
      ensures Shaped(st1) && |st1.ino.blocks| == |st.ino.blocks|
      ensures Grow(st, idx, hi) == Grow(st1, next, hi)
    {
      var s := GrowStep(st, idx);
      assert s.st == st1;
      assert Grow(st, idx, hi) == Grow(s.st, idx + 1, hi);
    }

    /** Growth: one allocation for each index in [lo, hi). */
    method GrowBlocks(ino0: Inode, indirect0: seq<u8>, lo: nat, hi: nat) returns (r: Status, ino: Inode, indirect: seq<u8>)
      requires Valid() && Shaped(Phase(bm.blocks, ino0, indirect0)) && lo <= hi <= Capacity(ino0)
      modifies bm
      ensures Valid()
      ensures Reached(Grow(Phase(old(bm.blocks), ino0, indirect0), lo, hi), r, bm.blocks, ino, indirect)
    {
      ino, indirect := ino0, indirect0;
      var idx := lo;
      while idx < hi
        invariant lo <= idx <= hi && Valid()
        invariant Shaped(Phase(bm.blocks, ino, indirect)) && |ino.blocks| == |ino0.blocks|
        invariant Grow(Phase(old(bm.blocks), ino0, indirect0), lo, hi) == Grow(Phase(bm.blocks, ino, indirect), idx, hi)
      {
        ghost var cur, prev := Phase(bm.blocks, ino, indirect), idx;
        r, ino, indirect := GrowOne(ino, indirect, idx);
        if r.Fail? {
          return;
        }
        idx := idx + 1;
        GrowAdvance(cur, prev, idx, hi, Phase(bm.blocks, ino, indirect));
      }
      r := Done;
    }

    /** Frees the block of index idx; the free's result is ignored. */
    method ShrinkOne(ino0: Inode, indirect0: seq<u8>, idx: nat) returns (r: Status, ino: Inode, indirect: seq<u8>)
      requires Valid() && Shaped(Phase(bm.blocks, ino0, indirect0)) && idx < Capacity(ino0)
      modifies bm
      ensures Valid()
      ensures Reached(ShrinkStep(Phase(old(bm.blocks), ino0, indirect0), idx), r, bm.blocks, ino, indirect)
    {
      r, ino, indirect := LocateBlock(ino0, indirect0, idx);
      if r.Fail? {
        return;
      }
      var _ := alloc.Deallocate(MappedBlock(ino, indirect, idx));
    }

    /** After a successful ShrinkStep at idx, Shrink goes on from idx + 1. */
    lemma {:induction false} ShrinkAdvance(st: Phase, idx: nat, next: nat, hi: nat, st1: Phase)
      requires Shaped(st) && idx < hi <= Capacity(st.ino) && next == idx + 1 && ShrinkStep(st, idx) == Next(st1)
      ensures Shaped(st1) && |st1.ino.blocks| == |st.ino.blocks|
      ensures Shrink(st, idx, hi) == Shrink(st1, next, hi)
    {
      var s := ShrinkStep(st, idx);
      assert s.st == st1;
      assert Shrink(st, idx, hi) == Shrink(s.st, idx + 1, hi);
    }

    /** Shrinking: one free for each index in [lo, hi). */
    method ShrinkBlocks(ino0: Inode, indirect0: seq<u8>, lo: nat, hi: nat) returns (r: Status, ino: Inode, indirect: seq<u8>)
      requires Valid() && Shaped(Phase(bm.blocks, ino0, indirect0)) && lo <= hi <= Capacity(ino0)
      modifies bm
      ensures Valid()
      ensures Reached(Shrink(Phase(old(bm.blocks), ino0, indirect0), lo, hi), r, bm.blocks, ino, indirect)
    {
      ino, indirect := ino0, indirect0;
      var idx := lo;
      while idx < hi
        invariant lo <= idx <= hi && Valid()
        invariant Shaped(Phase(bm.blocks, ino, indirect)) && |ino.blocks| == |ino0.blocks|
        invariant Shrink(Phase(old(bm.blocks), ino0, indirect0), lo, hi) == Shrink(Phase(bm.blocks, ino, indirect), idx, hi)
      {
        ghost var cur, prev := Phase(bm.blocks, ino, indirect), idx;
        r, ino, indirect := ShrinkOne(ino, indirect, idx);
        if r.Fail? {
          return;
        }
        idx := idx + 1;
        ShrinkAdvance(cur, prev, idx, hi, Phase(bm.blocks, ino, indirect));
      }
      r := Done;
    }

    /** Step 2 of write_file: grow or shrink the block list from oldN to newN blocks. */
    method ResizeBlocks(ino0: Inode, oldN: nat, newN: nat) returns (r: Status, ino: Inode, indirect: seq<u8>)
      requires Valid() && Shaped(Phase(bm.blocks, ino0, [])) && oldN <= Capacity(ino0) && newN <= Capacity(ino0)
      modifies bm
      ensures Valid()
      ensures Reached(Resize(Phase(old(bm.blocks), ino0, []), oldN, newN), r, bm.blocks, ino, indirect)
    {
      if newN > oldN {
        r, ino, indirect := GrowBlocks(ino0, [], oldN, newN);
        return;
      }
      r, ino, indirect := ShrinkBlocks(ino0, [], newN, oldN);
      if r.Fail? {
        return;
      }
      if oldN > DirectBlockNum(ino) && newN <= DirectBlockNum(ino) {
        r := alloc.Deallocate(IndirectBlockId(ino));
        if r.Fail? {
          return;
        }
        indirect := [];
        ino := InvalidateIndirect(ino);
      }
    }

    /** Writes chunk k, which starts at byte off and holds sz bytes, to the block of index k. */
    method WriteChunk(ino0: Inode, indirect0: seq<u8>, content: seq<u8>, k: nat, off: nat, sz: nat)
      returns (r: Status, ino: Inode, indirect: seq<u8>)
      requires Valid() && Shaped(Phase(bm.blocks, ino0, indirect0)) && k < Capacity(ino0)
      requires off == Mul(k, bm.blockSize) < |content| && sz == Min(bm.blockSize, |content| - off)
      modifies bm
      ensures Valid()
      ensures Reached(ChunkStep(Phase(old(bm.blocks), ino0, indirect0), content, k), r, bm.blocks, ino, indirect)
    {
      r, ino, indirect := LocateBlock(ino0, indirect0, k);
      if r.Fail? {
        return;
      }
      var data := content[off..off + sz];
      assert data == ChunkOf(content, k);
      PutChunkBlock(MappedBlock(ino, indirect, k), data);
    }

    /** Writes one chunk to block bid: a whole-block write when it fills the
        block, a partial write at offset 0 otherwise. */
    method PutChunkBlock(bid: u64, data: seq<u8>)
      requires Valid() && |data| <= bm.blockSize
      modifies bm
      ensures Valid()
      ensures bm.blocks == PutChunk(old(bm.blocks), bid, data)
    {
      if |data| == bm.blockSize {
        var _ := bm.WriteBlock(bid, data);
      } else {
        var _ := bm.WritePartialBlock(bid, data, 0);
      }
    }

    /** After a successful ChunkStep at k, Chunks goes on from k + 1, one
        block further into content. */
    lemma {:induction false} ChunksAdvance(st: Phase, content: seq<u8>, k: nat, next: nat, disk: seq<seq<u8>>, ino: Inode, indirect: seq<u8>)
      requires Shaped(st) && |content| <= MaxFileSize(st.ino, bm.blockSize)
      requires Mul(k, bm.blockSize) < |content| && k < Capacity(st.ino) && next == k + 1
      requires Reached(ChunkStep(st, content, k), Done, disk, ino, indirect)
      ensures Shaped(Phase(disk, ino, indirect)) && |ino.blocks| == |st.ino.blocks|
      ensures |content| <= MaxFileSize(ino, bm.blockSize)
      ensures Chunks(st, content, k) == Chunks(Phase(disk, ino, indirect), content, next)
    {
      var s := ChunkStep(st, content, k);
      assert s.st == Phase(disk, ino, indirect);
      SameCapacity(s.st.ino, st.ino);
      assert Chunks(st, content, k) == Chunks(s.st, content, k + 1);
    }

    /** A failed ChunkStep at k ends Chunks from k with the same outcome. */
    lemma {:induction false} ChunksStop(st: Phase, content: seq<u8>, k: nat, r: Status, disk: seq<seq<u8>>, ino: Inode, indirect: seq<u8>)
      requires Shaped(st) && |content| <= MaxFileSize(st.ino, bm.blockSize)
      requires Mul(k, bm.blockSize) < |content| && k < Capacity(st.ino)
      requires r.Fail? && Reached(ChunkStep(st, content, k), r, disk, ino, indirect)
      ensures Reached(Chunks(st, content, k), r, disk, ino, indirect)
    {
      var s := ChunkStep(st, content, k);
      assert Chunks(st, content, k) == Stop(s.error, s.failDisk);
    }

    /** The bytes written so far after chunk k: k whole blocks, or all of content. */
    lemma {:induction false} ChunkProgress(content: seq<u8>, k: nat, next: nat, written: nat, sz: nat)
      requires bm.blockSize > 0 && written == Mul(k, bm.blockSize) < |content| && next == k + 1
      requires sz == Min(bm.blockSize, |content| - written)
      ensures written + sz == Min(Mul(next, bm.blockSize), |content|)
    {
      assert Mul(k + 1, bm.blockSize) == written + bm.blockSize;
    }

    /** Step 3 of write_file: content in block-size chunks, chunk k to the block of index k. */
    method WriteChunks(ino0: Inode, indirect0: seq<u8>, content: seq<u8>) returns (r: Status, ino: Inode, indirect: seq<u8>)
      requires Valid() && Shaped(Phase(bm.blocks, ino0, indirect0)) && |content| <= MaxFileSize(ino0, bm.blockSize)
      modifies bm
      ensures Valid()
      ensures Reached(Chunks(Phase(old(bm.blocks), ino0, indirect0), content, 0), r, bm.blocks, ino, indirect)
    {
      ino, indirect := ino0, indirect0;
      var blockIdx := 0;
      var writeSz := 0;
      while writeSz < |content|
        invariant Valid() && Shaped(Phase(bm.blocks, ino, indirect)) && |ino.blocks| == |ino0.blocks|
        invariant |content| <= MaxFileSize(ino, bm.blockSize)
        invariant writeSz == Min(Mul(blockIdx, bm.blockSize), |content|)
        invariant Chunks(Phase(old(bm.blocks), ino0, indirect0), content, 0) == Chunks(Phase(bm.blocks, ino, indirect), content, blockIdx)
        decreases |content| - writeSz
      {
        var sz;
        r, ino, indirect, sz := WriteNextChunk(ino, indirect, content, blockIdx, writeSz);
        if r.Fail? {
          return;
        }
        writeSz := writeSz + sz;
        blockIdx := blockIdx + 1;
      }
      r := Done;
    }

    /** One pass of write_file's loop: the chunk at index k, which starts at
        byte off, written to its block; sz is how many bytes that was. */
    method WriteNextChunk(ino0: Inode, indirect0: seq<u8>, content: seq<u8>, k: nat, off: nat)
      returns (r: Status, ino: Inode, indirect: seq<u8>, sz: nat)
      requires Valid() && Shaped(Phase(bm.blocks, ino0, indirect0)) && |content| <= MaxFileSize(ino0, bm.blockSize)
      requires off == Min(Mul(k, bm.blockSize), |content|) && off < |content|
      modifies bm
      ensures Valid()
      ensures r.Fail? ==> Reached(Chunks(Phase(old(bm.blocks), ino0, indirect0), content, k), r, bm.blocks, ino, indirect)
      ensures r.Done? ==> Shaped(Phase(bm.blocks, ino, indirect)) && |ino.blocks| == |ino0.blocks|
      ensures r.Done? ==> |content| <= MaxFileSize(ino, bm.blockSize)
      ensures r.Done? ==> 0 < sz && off + sz == Min(Mul(k + 1, bm.blockSize), |content|)
      ensures r.Done? ==> Chunks(Phase(old(bm.blocks), ino0, indirect0), content, k) == Chunks(Phase(bm.blocks, ino, indirect), content, k + 1)
    {
      sz := if |content| - off > bm.blockSize then bm.blockSize else |content| - off;
      IndexWithin(k, |content|, Capacity(ino0), bm.blockSize);
      ghost var cur := Phase(bm.blocks, ino0, indirect0);
      r, ino, indirect := WriteChunk(ino0, indirect0, content, k, off, sz);
      if r.Fail? {
        ChunksStop(cur, content, k, r, bm.blocks, ino, indirect);
        return;
      }
      ChunkProgress(content, k, k + 1, off, sz);
      ChunksAdvance(cur, content, k, k + 1, bm.blocks, ino, indirect);
    }

    /** Step 4 of write_file: all times set to now, the record written back
        to its block in the buffer raw it was read from, the indirect block
        flushed if it was loaded. */
    method PersistInode(bid: u64, raw: seq<u8>, ino0: Inode, indirect: seq<u8>, now: u64) returns (r: Status, ino: Inode)
      requires Valid() && Shaped(Phase(bm.blocks, ino0, indirect)) && RecordBuffer(raw, ino0) && bid < bm.totalBlocks
      modifies bm
      ensures Valid()
      ensures Reached(Persist(Phase(old(bm.blocks), ino0, indirect), raw, bid, now), r, bm.blocks, ino, indirect)
    {
      ino := Touched(ino0, now);
      // the record's own block is in range, so this write cannot fail
      var _ := bm.WriteBlock(bid, PatchInode(raw, ino));
      if |indirect| != 0 {
        r := WriteIndirectBlock(bm, ino, indirect);
        if r.Fail? {
          return;
        }
      }
      r := Done;
    }

    /** Replaces the contents of file id with content. */
    method WriteFile(id: u64, content: seq<u8>, now: u64) returns (r: Status)
      requires Valid() && FileShaped(bm.blocks, id)
      requires |content| < 0x1_0000_0000_0000_0000
      modifies bm
      ensures Valid()
      ensures r == WriteFileSpec(old(bm.blocks), id, content, now).Status()
      ensures bm.blocks == WriteFileSpec(old(bm.blocks), id, content, now).Disk()
    {
      var res, buffer := im.ReadInode(id);
      if res.Err? {
        return Fail(res.error);
      }
      var ino := DecodeInode(buffer);
      if |content| > MaxFileSize(ino, bm.blockSize) {
        return Fail(OutOfResource);
      }
      r := RewriteFile(res.value, buffer, ino, content, now);
    }

    /** Steps 2 to 4 of write_file, once the record is read and the size checked. */
    method RewriteFile(bid: u64, raw: seq<u8>, ino0: Inode, content: seq<u8>, now: u64) returns (r: Status)
      requires Valid() && Shaped(Phase(bm.blocks, ino0, [])) && RecordBuffer(raw, ino0) && WellFormed(ino0) && bid < bm.totalBlocks
      requires |content| <= MaxFileSize(ino0, bm.blockSize) && |content| < 0x1_0000_0000_0000_0000
      modifies bm
      ensures Valid()
      ensures r == Rewrite(Phase(old(bm.blocks), ino0, []), raw, bid, content, now).Status()
      ensures bm.blocks == Rewrite(Phase(old(bm.blocks), ino0, []), raw, bid, content, now).Disk()
    {
      var oldN := CalculateBlockSize(ino0.attr.size, bm.blockSize);
      var newN := CalculateBlockSize(|content|, bm.blockSize);
      SameCapacity(ino0, ino0);
      BlocksWithin(ino0.attr.size, Capacity(ino0), bm.blockSize);
      BlocksWithin(|content|, Capacity(ino0), bm.blockSize);
      var ino, indirect;
      r, ino, indirect := ResizeBlocks(ino0, oldN, newN);
      if r.Fail? {
        return;
      }
      SameCapacity(ino, ino0);
      ShapedSized(Phase(bm.blocks, ino, indirect), |content| as u64, now);
      ino := Sized(ino, |content| as u64, now);
      r := RefillFile(bid, raw, ino, indirect, content, now);
    }

    /** Steps 3 and 4 of write_file. */
    method RefillFile(bid: u64, raw: seq<u8>, ino0: Inode, indirect0: seq<u8>, content: seq<u8>, now: u64) returns (r: Status)
      requires Valid() && Shaped(Phase(bm.blocks, ino0, indirect0)) && RecordBuffer(raw, ino0) && bid < bm.totalBlocks
      requires |content| <= MaxFileSize(ino0, bm.blockSize)
      modifies bm
      ensures Valid()
      ensures r == Refill(Phase(old(bm.blocks), ino0, indirect0), raw, bid, content, now).Status()
      ensures bm.blocks == Refill(Phase(old(bm.blocks), ino0, indirect0), raw, bid, content, now).Disk()
    {
      var ino, indirect;
      r, ino, indirect := WriteChunks(ino0, indirect0, content);
      if r.Fail? {
        return;
      }
      r, ino := PersistInode(bid, raw, ino, indirect, now);
    }

    // -------------------------------------------------------------------
    // read_file

    /** The block read_file reads for index k: a direct slot, or an entry of
        the indirect block as the store holds it (read_file never creates it). */
    ghost function FileBlock(disk: seq<seq<u8>>, ino: Inode, k: nat): u64
      requires Fits(disk) && |ino.blocks| >= 1 && k < Capacity(ino)
    {
      if IsDirectBlock(ino, k) then ino.blocks[k]
      else Words(BlockAt(disk, IndirectBlockId(ino)))[k - DirectBlockNum(ino)]
    }

    /** What read_file collects from block index k on: a whole block per
        index, and only the first size - k * blockSize bytes of the last. */
    ghost function Gather(disk: seq<seq<u8>>, ino: Inode, k: nat): seq<u8>
      requires Fits(disk) && WellFormed(ino)
      decreases ino.attr.size as int - Mul(k, bm.blockSize)
    {
      if Mul(k, bm.blockSize) >= ino.attr.size as nat then []
      else
        SameCapacity(ino, ino);
        IndexWithin(k, ino.attr.size as nat, Capacity(ino), bm.blockSize);
        var n := Min(bm.blockSize, ino.attr.size as nat - Mul(k, bm.blockSize));
        BlockAt(disk, FileBlock(disk, ino, k))[..n] + Gather(disk, ino, k + 1)
    }

    /** read_file(id) on a disk image: the bytes of the file, or the error of
        reading its record. */
    ghost function ReadFileSpec(disk: seq<seq<u8>>, id: nat): (r: Result<seq<u8>>)
      requires Fits(disk) && FileShaped(disk, id)
      ensures r.Ok? <==> im.RecordOf(disk, id).Ok?
      ensures r.Err? ==> r.error == im.RecordOf(disk, id).error
    {
      match im.RecordOf(disk, id)
      case Err(e) => Err(e)
      case Ok(ino) => Ok(Gather(disk, ino, 0))
    }

    /** From index k on, read_file collects the size - k * blockSize bytes left. */
    lemma {:induction false} GatherLength(disk: seq<seq<u8>>, ino: Inode, k: nat)
      requires Fits(disk) && WellFormed(ino) && Mul(k, bm.blockSize) <= ino.attr.size as nat
      ensures |Gather(disk, ino, k)| == ino.attr.size as nat - Mul(k, bm.blockSize)
      decreases ino.attr.size as int - Mul(k, bm.blockSize)
    {
      if Mul(k, bm.blockSize) < ino.attr.size as nat && Mul(k + 1, bm.blockSize) <= ino.attr.size as nat {
        GatherLength(disk, ino, k + 1);
      }
    }

    /** Byte j of the file, collected from index k on, is byte j % blockSize
        of the block of index j / blockSize. */
    lemma {:induction false} GatherByte(disk: seq<seq<u8>>, ino: Inode, k: nat, j: nat)
      requires Fits(disk) && WellFormed(ino) && Mul(k, bm.blockSize) <= j < ino.attr.size as nat
      ensures Quotient(j, bm.blockSize) < Capacity(ino)
      ensures j - Mul(k, bm.blockSize) < |Gather(disk, ino, k)|
      ensures Gather(disk, ino, k)[j - Mul(k, bm.blockSize)]
              == BlockAt(disk, FileBlock(disk, ino, Quotient(j, bm.blockSize)))[Remainder(j, bm.blockSize)]
      decreases ino.attr.size as int - Mul(k, bm.blockSize)
    {
      if j < Mul(k, bm.blockSize) + bm.blockSize {
        GatherHead(disk, ino, k, j);
      } else {
        GatherTail(disk, ino, k, j);
        GatherByte(disk, ino, k + 1, j);
      }
    }

    /** GatherByte for a byte in block k itself. */
    lemma GatherHead(disk: seq<seq<u8>>, ino: Inode, k: nat, j: nat)
      requires Fits(disk) && WellFormed(ino) && Mul(k, bm.blockSize) <= j < ino.attr.size as nat
      requires j < Mul(k, bm.blockSize) + bm.blockSize
      ensures Quotient(j, bm.blockSize) < Capacity(ino)
      ensures j - Mul(k, bm.blockSize) < |Gather(disk, ino, k)|
      ensures Gather(disk, ino, k)[j - Mul(k, bm.blockSize)]
              == BlockAt(disk, FileBlock(disk, ino, Quotient(j, bm.blockSize)))[Remainder(j, bm.blockSize)]
    {
      SameCapacity(ino, ino);
      QuotientBelow(j, bm.blockSize, Capacity(ino));
      GatherLength(disk, ino, k);
      QuotientRemainderOf(k, j - Mul(k, bm.blockSize), bm.blockSize);
    }

    /** A byte past block k is found in the gather from block k + 1. */
    lemma GatherTail(disk: seq<seq<u8>>, ino: Inode, k: nat, j: nat)
      requires Fits(disk) && WellFormed(ino) && Mul(k, bm.blockSize) + bm.blockSize <= j < ino.attr.size as nat
      ensures Mul(k + 1, bm.blockSize) <= j
      ensures j - Mul(k, bm.blockSize) < |Gather(disk, ino, k)|
      ensures Gather(disk, ino, k)[j - Mul(k, bm.blockSize)] == Gather(disk, ino, k + 1)[j - Mul(k + 1, bm.blockSize)]
    {
      GatherLength(disk, ino, k);
      GatherLength(disk, ino, k + 1);
    }

    /** read_file returns exactly size bytes, byte j from offset j % blockSize
        of the block mapped at index j / blockSize. */
    lemma ReadFileBytes(disk: seq<seq<u8>>, id: nat)
      requires Fits(disk) && FileShaped(disk, id) && ReadFileSpec(disk, id).Ok?
      ensures var ino := im.RecordOf(disk, id).value;
              var c := ReadFileSpec(disk, id).value;
              && |c| == ino.attr.size as nat
              && forall j :: 0 <= j < |c| ==>
                   Quotient(j, bm.blockSize) < Capacity(ino)
                   && c[j] == BlockAt(disk, FileBlock(disk, ino, Quotient(j, bm.blockSize)))[Remainder(j, bm.blockSize)]
    {
      GatherBytes(disk, im.RecordOf(disk, id).value);
    }

    /** All of a record's bytes, collected from index 0, one by one. */
    lemma GatherBytes(disk: seq<seq<u8>>, ino: Inode)
      requires Fits(disk) && WellFormed(ino)
      ensures var c := Gather(disk, ino, 0);
              && |c| == ino.attr.size as nat
              && forall j :: 0 <= j < |c| ==>
                   Quotient(j, bm.blockSize) < Capacity(ino)
                   && c[j] == BlockAt(disk, FileBlock(disk, ino, Quotient(j, bm.blockSize)))[Remainder(j, bm.blockSize)]
    {
      var c := Gather(disk, ino, 0);
      GatherLength(disk, ino, 0);
      forall j | 0 <= j < |c|
        ensures Quotient(j, bm.blockSize) < Capacity(ino)
        ensures c[j] == BlockAt(disk, FileBlock(disk, ino, Quotient(j, bm.blockSize)))[Remainder(j, bm.blockSize)]
      {
        GatherByte(disk, ino, 0, j);
      }
    }

    /** Gather below size: the bytes of index k, then the rest. */
    lemma GatherStep(disk: seq<seq<u8>>, ino: Inode, k: nat)
      requires Fits(disk) && WellFormed(ino) && Mul(k, bm.blockSize) < ino.attr.size as nat
      ensures k < Capacity(ino)
      ensures Gather(disk, ino, k)
              == BlockAt(disk, FileBlock(disk, ino, k))[..Min(bm.blockSize, ino.attr.size as nat - Mul(k, bm.blockSize))]
                 + Gather(disk, ino, k + 1)
    {
      SameCapacity(ino, ino);
      IndexWithin(k, ino.attr.size as nat, Capacity(ino), bm.blockSize);
    }

    /** The block of index k as read_file finds it, loading the indirect
        block on first use; a failed load leaves the zeroed buffer. */
    method FindBlock(ino: Inode, indirect0: seq<u8>, k: nat) returns (current: u64, indirect: seq<u8>)
      requires Valid() && |ino.blocks| >= 1 && k < Capacity(ino)
      requires indirect0 == [] || indirect0 == BlockAt(bm.blocks, IndirectBlockId(ino))
      ensures indirect == [] || indirect == BlockAt(bm.blocks, IndirectBlockId(ino))
      ensures current == FileBlock(bm.blocks, ino, k)
    {
      indirect := indirect0;
      if IsDirectBlock(ino, k) {
        current := ino.blocks[k];
      } else {
        if |indirect| == 0 {
          var ignored;
          indirect, ignored := bm.ReadBlock(IndirectBlockId(ino));
        }
        current := Words(indirect)[k - DirectBlockNum(ino)];
      }
    }

    /** One pass of read_file's loop: the bytes of index k, which starts at
        byte off. */
    method ReadNextChunk(ino: Inode, indirect0: seq<u8>, off: nat, ghost k: nat) returns (bytes: seq<u8>, indirect: seq<u8>)
      requires Valid() && WellFormed(ino) && off == Mul(k, bm.blockSize) < ino.attr.size as nat
      requires indirect0 == [] || indirect0 == BlockAt(bm.blocks, IndirectBlockId(ino))
      ensures indirect == [] || indirect == BlockAt(bm.blocks, IndirectBlockId(ino))
      ensures 0 < |bytes| && off + |bytes| == Min(Mul(k + 1, bm.blockSize), ino.attr.size as nat)
      ensures Gather(bm.blocks, ino, k) == bytes + Gather(bm.blocks, ino, k + 1)
    {
      var sz := if ino.attr.size as nat - off > bm.blockSize then bm.blockSize else ino.attr.size as nat - off;
      GatherStep(bm.blocks, ino, k);
      QuotientRemainderOf(k, 0, bm.blockSize);
      QuotientIsDiv(off, bm.blockSize);
      var current;
      current, indirect := FindBlock(ino, indirect0, off / bm.blockSize);
      var block, _ := bm.ReadBlock(current);
      bytes := block[..sz];
    }

    /** Reads the whole of file id: size bytes, block by block. */
    method ReadFile(id: u64) returns (r: Result<seq<u8>>)
      requires Valid() && FileShaped(bm.blocks, id)
      ensures r == ReadFileSpec(bm.blocks, id)
    {
      var res, buffer := im.ReadInode(id);
      if res.Err? {
        return Err(res.error);
      }
      var content := GatherFile(DecodeInode(buffer));
      r := Ok(content);
    }

    /** read_file's loop over the record ino. */
    method GatherFile(ino: Inode) returns (content: seq<u8>)
      requires Valid() && WellFormed(ino)
      ensures content == Gather(bm.blocks, ino, 0)
    {
      content := [];
      var indirect: seq<u8> := [];
      var readSz := 0;
      ghost var k := 0;
      while readSz < ino.attr.size as nat
        invariant readSz == Min(Mul(k, bm.blockSize), ino.attr.size as nat)
        invariant indirect == [] || indirect == BlockAt(bm.blocks, IndirectBlockId(ino))
        invariant content + Gather(bm.blocks, ino, k) == Gather(bm.blocks, ino, 0)
        decreases ino.attr.size as nat - readSz
      {
        var bytes;
        bytes, indirect := ReadNextChunk(ino, indirect, readSz, k);
        AppendAssoc(content, bytes, Gather(bm.blocks, ino, k + 1));
        content := content + bytes;
        readSz := readSz + |bytes|;
        k := k + 1;
      }
      assert content == content + Gather(bm.blocks, ino, k);
    }

    // -------------------------------------------------------------------
    // What write_file's phases write

    /** Block j holds part of the block bitmap. */
    ghost predicate InBitmap(j: nat) {
      alloc.bitmapBlockId <= j < alloc.bitmapBlockId + alloc.bitmapBlockCnt
    }

    /** Getting at index k writes nothing outside the bitmap, and an index
        already mapped keeps its block. */
    lemma LocateKeeps(st: Phase, k: nat, i: nat)
      requires Shaped(st) && k < Capacity(st.ino)
      ensures alloc.SameOutsideBitmap(Locate(st, k).Disk(), st.disk)
      ensures Locate(st, k).Next? && MapsIndex(st.ino, st.indirect, i) ==>
                var st1 := Locate(st, k).st;
                MapsIndex(st1.ino, st1.indirect, i) && MappedBlock(st1.ino, st1.indirect, i) == MappedBlock(st.ino, st.indirect, i)
    {
      if !IsDirectBlock(st.ino, k) && |st.indirect| == 0 && IndirectBlockId(st.ino) == InvalidBlockId {
        alloc.AllocateKeepsOthers(st.disk);
      }
    }

    /** One growth step writes nothing outside the bitmap. */
    lemma GrowStepKeeps(st: Phase, idx: nat)
      requires Shaped(st) && idx < Capacity(st.ino)
      ensures alloc.SameOutsideBitmap(GrowStep(st, idx).Disk(), st.disk)
    {
      var a := alloc.AllocateSpec(st.disk);
      alloc.AllocateKeepsOthers(st.disk);
      if a.0.Ok? {
        LocateKeeps(Phase(a.1, st.ino, st.indirect), idx, idx);
      }
    }

    /** One shrink step writes nothing outside the bitmap. */
    lemma ShrinkStepKeeps(st: Phase, idx: nat)
      requires Shaped(st) && idx < Capacity(st.ino)
      ensures alloc.SameOutsideBitmap(ShrinkStep(st, idx).Disk(), st.disk)
    {
      LocateKeeps(st, idx, idx);
      var l := Locate(st, idx);
      if l.Next? {
        alloc.DeallocateKeepsOthers(l.st.disk, MappedBlock(l.st.ino, l.st.indirect, idx));
        alloc.SameOutsideBitmapTrans(ShrinkStep(st, idx).Disk(), l.st.disk, st.disk);
      }
    }

    /** Step 2 of write_file writes nothing outside the bitmap. */
    lemma ResizeKeepsOthers(st: Phase, oldN: nat, newN: nat)
      requires Shaped(st) && oldN <= Capacity(st.ino) && newN <= Capacity(st.ino)
      ensures alloc.SameOutsideBitmap(Resize(st, oldN, newN).Disk(), st.disk)
    {
      if newN <= oldN {
        var s := Shrink(st, newN, oldN);
        if s.Next? {
          alloc.DeallocateKeepsOthers(s.st.disk, IndirectBlockId(s.st.ino));
          alloc.SameOutsideBitmapTrans(Resize(st, oldN, newN).Disk(), s.st.disk, st.disk);
        }
      }
    }

    /** Index idx needs the indirect block created: it is past the direct
        slots, the block is not loaded, and the slot holds the sentinel. */
    ghost predicate CreatesIndirect(st: Phase, idx: nat)
      requires |st.ino.blocks| >= 1
    {
      !IsDirectBlock(st.ino, idx) && |st.indirect| == 0 && IndirectBlockId(st.ino) == InvalidBlockId
    }

    /** One growth step uses up one free block, and a second one when it
        creates the indirect block. */
    lemma GrowStepCount(st: Phase, idx: nat)
      requires Shaped(st) && idx < Capacity(st.ino) && GrowStep(st, idx).Next?
      ensures var st1 := GrowStep(st, idx).st;
              && alloc.FreeCount(st.disk) == alloc.FreeCount(st1.disk) + 1 + (if CreatesIndirect(st, idx) then 1 else 0)
              && (IsDirectBlock(st.ino, idx) ==> st1.indirect == st.indirect && IndirectBlockId(st1.ino) == IndirectBlockId(st.ino))
              && (!IsDirectBlock(st.ino, idx) ==> |st1.indirect| != 0)
    {
      var a := alloc.AllocateSpec(st.disk);
      alloc.AllocateCount(st.disk);
      if CreatesIndirect(st, idx) {
        alloc.AllocateCount(a.1);
      }
    }

    /** A shrink step frees the block of index idx: its bit is clear after,
        whether or not it was set before (the free's result is ignored). */
    lemma ShrinkStepFrees(st: Phase, idx: nat)
      requires Shaped(st) && idx < Capacity(st.ino) && MapsIndex(st.ino, st.indirect, idx)
      ensures ShrinkStep(st, idx).Next?
      ensures var st1 := ShrinkStep(st, idx).st;
              var b := MappedBlock(st.ino, st.indirect, idx);
              && st1.ino == st.ino && st1.indirect == st.indirect
              && (b < bm.totalBlocks ==> alloc.Bits(st1.disk) == alloc.Bits(st.disk)[b := false])
              && (b >= bm.totalBlocks ==> st1.disk == st.disk)
    {
      assert Locate(st, idx) == Next(st);
      var b := MappedBlock(st.ino, st.indirect, idx);
      if b < bm.totalBlocks && alloc.Bits(st.disk)[b] {
        alloc.DeallocateClearsBit(st.disk, b);
      } else if b < bm.totalBlocks {
        assert alloc.Bits(st.disk)[b := false] == alloc.Bits(st.disk);
      }
    }

    /** Shrinking from beyond the direct slots to within them frees the
        indirect block and resets its slot; otherwise nothing changes. */
    lemma CancelIndirectFrees(st: Phase, oldN: nat, newN: nat)
      requires Shaped(st) && CancelIndirect(st, oldN, newN).Next?
      ensures var st' := CancelIndirect(st, oldN, newN).st;
              if oldN > DirectBlockNum(st.ino) && newN <= DirectBlockNum(st.ino) then
                && IndirectBlockId(st'.ino) == InvalidBlockId && st'.indirect == []
                && st'.ino.blocks[..DirectBlockNum(st.ino)] == st.ino.blocks[..DirectBlockNum(st.ino)]
                && IndirectBlockId(st.ino) < bm.totalBlocks && alloc.Bits(st.disk)[IndirectBlockId(st.ino)]
                && alloc.Bits(st'.disk) == alloc.Bits(st.disk)[IndirectBlockId(st.ino) := false]
                && alloc.FreeCount(st'.disk) == alloc.FreeCount(st.disk) + 1
              else st' == st
    {
      if oldN > DirectBlockNum(st.ino) && newN <= DirectBlockNum(st.ino) {
        alloc.DeallocateClearsBit(st.disk, IndirectBlockId(st.ino));
        alloc.DeallocateCount(st.disk, IndirectBlockId(st.ino));
      }
    }

    /** Step k of step 3 maps index k, writes chunk k to its block and
        nothing else outside the bitmap, and keeps every mapped index's block. */
    lemma {:induction false} ChunkStepKeeps(st: Phase, content: seq<u8>, k: nat, st1: Phase, i: nat)
      requires Shaped(st) && Mul(k, bm.blockSize) < |content| && k < Capacity(st.ino)
      requires ChunkStep(st, content, k) == Next(st1)
      ensures MapsIndex(st1.ino, st1.indirect, k)
      ensures var b := MappedBlock(st1.ino, st1.indirect, k);
              && (b < bm.totalBlocks ==> st1.disk[b][..|ChunkOf(content, k)|] == ChunkOf(content, k))
              && forall j :: 0 <= j < |st.disk| && !InBitmap(j) && j != b ==> st1.disk[j] == st.disk[j]
      ensures MapsIndex(st.ino, st.indirect, i) ==>
                MapsIndex(st1.ino, st1.indirect, i) && MappedBlock(st1.ino, st1.indirect, i) == MappedBlock(st.ino, st.indirect, i)
    {
      LocateKeeps(st, k, i);
      var l := Locate(st, k).st;
      assert st1 == l.(disk := PutChunk(l.disk, MappedBlock(l.ino, l.indirect, k), ChunkOf(content, k)));
    }

    /** Step 3 from chunk k on, when chunk k exists: step k, then step 3 from k + 1. */
    lemma ChunksUnfold(st: Phase, content: seq<u8>, k: nat, stF: Phase) returns (st1: Phase)
      requires Shaped(st) && |content| <= MaxFileSize(st.ino, bm.blockSize)
      requires Chunks(st, content, k) == Next(stF) && Mul(k, bm.blockSize) < |content|
      ensures k < Capacity(st.ino) && ChunkStep(st, content, k) == Next(st1)
      ensures Shaped(st1) && |st1.ino.blocks| == |st.ino.blocks| && |content| <= MaxFileSize(st1.ino, bm.blockSize)
      ensures Chunks(st1, content, k + 1) == Next(stF)
    {
      SameCapacity(st.ino, st.ino);
      IndexWithin(k, |content|, Capacity(st.ino), bm.blockSize);
      var s := ChunkStep(st, content, k);
      st1 := s.st;
      SameCapacity(st1.ino, st.ino);
    }

    /** Step 3 from chunk k on keeps the block of every index already mapped. */
    lemma {:induction false} ChunksKeepMap(st: Phase, content: seq<u8>, k: nat, stF: Phase, i: nat)
      requires Shaped(st) && |content| <= MaxFileSize(st.ino, bm.blockSize)
      requires Chunks(st, content, k) == Next(stF) && MapsIndex(st.ino, st.indirect, i)
      ensures MapsIndex(stF.ino, stF.indirect, i) && MappedBlock(stF.ino, stF.indirect, i) == MappedBlock(st.ino, st.indirect, i)
      decreases |content| - Mul(k, bm.blockSize)
    {
      if Mul(k, bm.blockSize) < |content| {
        var st1 := ChunksUnfold(st, content, k, stF);
        ChunkStepKeeps(st, content, k, st1, i);
        ChunksKeepMap(st1, content, k + 1, stF, i);
      }
    }

    /** After step 3 from chunk k on, every index of a chunk from k on is mapped. */
    lemma {:induction false} ChunksMapAll(st: Phase, content: seq<u8>, k: nat, stF: Phase, i: nat)
      requires Shaped(st) && |content| <= MaxFileSize(st.ino, bm.blockSize)
      requires Chunks(st, content, k) == Next(stF) && k <= i && Mul(i, bm.blockSize) < |content|
      ensures MapsIndex(stF.ino, stF.indirect, i)
      decreases |content| - Mul(k, bm.blockSize)
    {
      MulMonotone(k, i, bm.blockSize);
      var st1 := ChunksUnfold(st, content, k, stF);
      ChunkStepKeeps(st, content, k, st1, k);
      if i == k {
        ChunksKeepMap(st1, content, k + 1, stF, k);
      } else {
        ChunksMapAll(st1, content, k + 1, stF, i);
      }
    }

    /** Step 3 from chunk k on leaves a block outside the bitmap alone
        unless a chunk from k on is mapped to it. */
    lemma {:induction false} ChunksFrame(st: Phase, content: seq<u8>, k: nat, stF: Phase, j: nat)
      requires Shaped(st) && |content| <= MaxFileSize(st.ino, bm.blockSize)
      requires Chunks(st, content, k) == Next(stF) && j < |st.disk| && !InBitmap(j)
      requires forall i {:trigger MappedBlock(stF.ino, stF.indirect, i)} ::
                 k <= i && Mul(i, bm.blockSize) < |content| && MapsIndex(stF.ino, stF.indirect, i) ==>
                 MappedBlock(stF.ino, stF.indirect, i) != j
      ensures stF.disk[j] == st.disk[j]
      decreases |content| - Mul(k, bm.blockSize)
    {
      if Mul(k, bm.blockSize) < |content| {
        var st1 := ChunksUnfold(st, content, k, stF);
        ChunkStepKeeps(st, content, k, st1, k);
        ChunksKeepMap(st1, content, k + 1, stF, k);
        assert MappedBlock(st1.ino, st1.indirect, k) != j;
        assert st1.disk[j] == st.disk[j];
        ChunksFrame(st1, content, k + 1, stF, j);
      }
    }

    /** Index i of stF maps to a block outside the bitmap that no later
        chunk index of content maps to. */
    ghost predicate LastMapped(stF: Phase, content: seq<u8>, i: nat)
      requires |stF.ino.blocks| >= 1
    {
      && MapsIndex(stF.ino, stF.indirect, i)
      && MappedBlock(stF.ino, stF.indirect, i) < bm.totalBlocks && !InBitmap(MappedBlock(stF.ino, stF.indirect, i))
      && forall i' {:trigger MappedBlock(stF.ino, stF.indirect, i')} ::
           i < i' && Mul(i', bm.blockSize) < |content| && MapsIndex(stF.ino, stF.indirect, i') ==>
           MappedBlock(stF.ino, stF.indirect, i') != MappedBlock(stF.ino, stF.indirect, i)
    }

    /** Step 3 from chunk k on passes through a phase from which step 3
        goes on from chunk i, for every chunk i at or after k. */
    lemma {:induction false} ChunksReach(st: Phase, content: seq<u8>, k: nat, stF: Phase, i: nat) returns (stI: Phase)
      requires Shaped(st) && |content| <= MaxFileSize(st.ino, bm.blockSize)
      requires Chunks(st, content, k) == Next(stF) && k <= i && Mul(i, bm.blockSize) < |content|
      ensures Shaped(stI) && |stI.ino.blocks| == |st.ino.blocks| && |content| <= MaxFileSize(stI.ino, bm.blockSize)
      ensures Chunks(stI, content, i) == Next(stF)
      decreases i - k
    {
      if i == k {
        stI := st;
      } else {
        MulMonotone(k, i, bm.blockSize);
        var st1 := ChunksUnfold(st, content, k, stF);
        stI := ChunksReach(st1, content, k + 1, stF, i);
      }
    }

    /** After step 3, the block of index i starts with chunk i, provided
        that block is in the store, outside the bitmap, and not the block of
        a later chunk. */
    lemma ChunksWritten(st: Phase, content: seq<u8>, k: nat, stF: Phase, i: nat)
      requires Shaped(st) && |content| <= MaxFileSize(st.ino, bm.blockSize)
      requires Chunks(st, content, k) == Next(stF) && k <= i && Mul(i, bm.blockSize) < |content|
      requires LastMapped(stF, content, i)
      ensures var b := MappedBlock(stF.ino, stF.indirect, i);
              stF.disk[b][..|ChunkOf(content, i)|] == ChunkOf(content, i)
    {
      var stI := ChunksReach(st, content, k, stF, i);
      ChunksWrittenHere(stI, content, i, stF);
    }

    /** ChunksWritten for the first chunk of the run: step k writes it, and no
        later step touches its block. */
    lemma ChunksWrittenHere(st: Phase, content: seq<u8>, k: nat, stF: Phase)
      requires Shaped(st) && |content| <= MaxFileSize(st.ino, bm.blockSize)
      requires Chunks(st, content, k) == Next(stF) && Mul(k, bm.blockSize) < |content|
      requires LastMapped(stF, content, k)
      ensures var b := MappedBlock(stF.ino, stF.indirect, k);
              stF.disk[b][..|ChunkOf(content, k)|] == ChunkOf(content, k)
    {
      var st1 := ChunksUnfold(st, content, k, stF);
      ChunkStepWrote(st, content, k, st1, stF);
      ChunksFrame(st1, content, k + 1, stF, MappedBlock(stF.ino, stF.indirect, k));
    }

    /** Step k writes chunk k to the block that index k still maps to when
        step 3 ends in stF. */
    lemma ChunkStepWrote(st: Phase, content: seq<u8>, k: nat, st1: Phase, stF: Phase)
      requires Shaped(st) && Mul(k, bm.blockSize) < |content| && k < Capacity(st.ino)
      requires ChunkStep(st, content, k) == Next(st1)
      requires Shaped(st1) && |content| <= MaxFileSize(st1.ino, bm.blockSize) && Chunks(st1, content, k + 1) == Next(stF)
      requires MapsIndex(stF.ino, stF.indirect, k) && MappedBlock(stF.ino, stF.indirect, k) < bm.totalBlocks
      ensures MapsIndex(st1.ino, st1.indirect, k) && MappedBlock(st1.ino, st1.indirect, k) == MappedBlock(stF.ino, stF.indirect, k)
      ensures var b := MappedBlock(stF.ino, stF.indirect, k);
              st1.disk[b][..|ChunkOf(content, k)|] == ChunkOf(content, k)
    {
      ChunkStepKeeps(st, content, k, st1, k);
      ChunksKeepMap(st1, content, k + 1, stF, k);
    }

    // -------------------------------------------------------------------
    // Reading back what write_file wrote

    /** Block j lies past the super block, the inode table and both bitmaps. */
    ghost predicate PastMetadata(j: nat) {
      alloc.bitmapBlockId + alloc.bitmapBlockCnt <= j < bm.totalBlocks
    }

    /** The file in state st does not alias: the blocks of its chunks (for
        size bytes), its record block bid and its loaded indirect block lie
        past the metadata and are pairwise distinct. */
    ghost predicate Separated(st: Phase, size: nat, bid: nat)
      requires |st.ino.blocks| >= 1
    {
      && PastMetadata(bid)
      && (|st.indirect| != 0 ==> PastMetadata(IndirectBlockId(st.ino)) && IndirectBlockId(st.ino) != bid)
      && (forall i {:trigger MappedBlock(st.ino, st.indirect, i)} ::
            Mul(i, bm.blockSize) < size && MapsIndex(st.ino, st.indirect, i) ==>
            && PastMetadata(MappedBlock(st.ino, st.indirect, i))
            && MappedBlock(st.ino, st.indirect, i) != bid
            && (|st.indirect| != 0 ==> MappedBlock(st.ino, st.indirect, i) != IndirectBlockId(st.ino)))
      && (forall i, i' {:trigger MappedBlock(st.ino, st.indirect, i), MappedBlock(st.ino, st.indirect, i')} ::
            i < i' && Mul(i', bm.blockSize) < size
            && MapsIndex(st.ino, st.indirect, i) && MapsIndex(st.ino, st.indirect, i') ==>
            MappedBlock(st.ino, st.indirect, i) != MappedBlock(st.ino, st.indirect, i'))
    }

    /** Step 4 of write_file: the record lands in bid, the loaded indirect
        block in its own block, and no other block changes. */
    lemma {:induction false} PersistWrites(st: Phase, raw: seq<u8>, bid: nat, now: u64)
      requires Shaped(st) && RecordBuffer(raw, st.ino) && bid < bm.totalBlocks && Persist(st, raw, bid, now).Next?
      requires |st.indirect| != 0 ==> IndirectBlockId(st.ino) != bid
      ensures var st4 := Persist(st, raw, bid, now).st;
              && st4.ino == Touched(st.ino, now) && st4.indirect == st.indirect
              && st4.disk[bid] == PatchInode(raw, st4.ino)
              && (|st.indirect| != 0 ==> IndirectBlockId(st.ino) < bm.totalBlocks && st4.disk[IndirectBlockId(st.ino)] == st.indirect)
              && forall j :: 0 <= j < |st.disk| && j != bid && (|st.indirect| != 0 ==> j != IndirectBlockId(st.ino)) ==>
                   st4.disk[j] == st.disk[j]
    {
    }

    /** What separation says about one index of a chunk. */
    lemma {:induction false} SeparatedAt(st: Phase, size: nat, bid: nat, q: nat)
      requires |st.ino.blocks| >= 1 && Separated(st, size, bid)
      requires Mul(q, bm.blockSize) < size && MapsIndex(st.ino, st.indirect, q)
      ensures PastMetadata(MappedBlock(st.ino, st.indirect, q)) && MappedBlock(st.ino, st.indirect, q) != bid
      ensures |st.indirect| != 0 ==> MappedBlock(st.ino, st.indirect, q) != IndirectBlockId(st.ino)
      ensures forall i' {:trigger MappedBlock(st.ino, st.indirect, i')} ::
                q < i' && Mul(i', bm.blockSize) < size && MapsIndex(st.ino, st.indirect, i') ==>
                MappedBlock(st.ino, st.indirect, i') != MappedBlock(st.ino, st.indirect, q)
    {
    }

    /** Separation depends only on the slots and the loaded indirect block. */
    lemma {:induction false} SeparatedSameBlocks(st: Phase, st': Phase, size: nat, bid: nat)
      requires |st.ino.blocks| >= 1 && st'.ino.blocks == st.ino.blocks && st'.indirect == st.indirect
      requires Separated(st', size, bid)
      ensures Separated(st, size, bid)
    {
      assert IndirectBlockId(st'.ino) == IndirectBlockId(st.ino);
      forall i | MapsIndex(st.ino, st.indirect, i)
        ensures MapsIndex(st'.ino, st'.indirect, i) && MappedBlock(st'.ino, st'.indirect, i) == MappedBlock(st.ino, st.indirect, i)
      {
      }
    }

    /** After step 4, read_file finds for a mapped index the block step 3
        mapped it to, and that block still holds what step 3 left in it. */
    lemma {:induction false} PersistedBlock(st: Phase, raw: seq<u8>, bid: nat, now: u64, size: nat, q: nat)
      requires Shaped(st) && RecordBuffer(raw, st.ino) && bid < bm.totalBlocks && Persist(st, raw, bid, now).Next?
      requires Separated(st, size, bid) && Mul(q, bm.blockSize) < size
      requires MapsIndex(st.ino, st.indirect, q) && q < Capacity(st.ino)
      ensures var st4 := Persist(st, raw, bid, now).st;
              var b := MappedBlock(st.ino, st.indirect, q);
              && q < Capacity(st4.ino) && FileBlock(st4.disk, st4.ino, q) == b
              && b < bm.totalBlocks && st4.disk[b] == st.disk[b]
    {
      PersistWrites(st, raw, bid, now);
      var st4 := Persist(st, raw, bid, now).st;
      assert IndirectBlockId(st4.ino) == IndirectBlockId(st.ino);
      SameCapacity(st4.ino, st.ino);
    }

    /** A block that starts with c holds byte r of c at r. */
    lemma PrefixByte(block: seq<u8>, c: seq<u8>, r: nat)
      requires |c| <= |block| && block[..|c|] == c && r < |c|
      ensures block[r] == c[r]
    {
      assert block[..|c|][r] == block[r];
    }

    /** Byte r of chunk q is byte q * blockSize + r of the content. */
    lemma {:induction false} ChunkByte(content: seq<u8>, q: nat, r: nat, j: nat)
      requires bm.blockSize > 0 && j == Mul(q, bm.blockSize) + r && j < |content| && r < bm.blockSize
      ensures r < |ChunkOf(content, q)| && ChunkOf(content, q)[r] == content[j]
    {
    }

    /** Once step 3 has ended in st3, the block mapped at index q of a
        chunk starts with that chunk. */
    lemma {:induction false} ChunkAt(st: Phase, content: seq<u8>, st3: Phase, bid: nat, q: nat)
      requires Shaped(st) && |content| <= MaxFileSize(st.ino, bm.blockSize)
      requires Chunks(st, content, 0) == Next(st3) && Mul(q, bm.blockSize) < |content| && Separated(st3, |content|, bid)
      ensures q < Capacity(st3.ino) && MapsIndex(st3.ino, st3.indirect, q)
      ensures var b := MappedBlock(st3.ino, st3.indirect, q);
              && b < bm.totalBlocks && |st3.disk[b]| == bm.blockSize
              && st3.disk[b][..|ChunkOf(content, q)|] == ChunkOf(content, q)
    {
      SameCapacity(st3.ino, st.ino);
      IndexWithin(q, |content|, Capacity(st.ino), bm.blockSize);
      ChunksMapAll(st, content, 0, st3, q);
      SeparatedAt(st3, |content|, bid, q);
      ChunksWritten(st, content, 0, st3, q);
    }

    /** Once step 3 has ended in st3, byte j of content is byte j % blockSize
        of the block mapped at index j / blockSize. */
    lemma {:induction false} ChunkedByte(st: Phase, content: seq<u8>, st3: Phase, bid: nat, j: nat)
      requires Shaped(st) && |content| <= MaxFileSize(st.ino, bm.blockSize)
      requires Chunks(st, content, 0) == Next(st3) && j < |content| && Separated(st3, |content|, bid)
      ensures var q := Quotient(j, bm.blockSize);
              && Mul(q, bm.blockSize) < |content| && q < Capacity(st3.ino) && MapsIndex(st3.ino, st3.indirect, q)
              && MappedBlock(st3.ino, st3.indirect, q) < bm.totalBlocks
              && st3.disk[MappedBlock(st3.ino, st3.indirect, q)][Remainder(j, bm.blockSize)] == content[j]
    {
      var q := Quotient(j, bm.blockSize);
      var r := Remainder(j, bm.blockSize);
      QuotientRemainder(j, bm.blockSize);
      ChunkAt(st, content, st3, bid, q);
      ChunkByte(content, q, r, j);
      PrefixByte(st3.disk[MappedBlock(st3.ino, st3.indirect, q)], ChunkOf(content, q), r);
    }

    /** Byte j of content is where read_file looks for it once step 3 has
        ended in st3 and step 4 has written the record and indirect block. */
    lemma {:induction false} PersistedByte(st: Phase, content: seq<u8>, st3: Phase, raw: seq<u8>, bid: nat, now: u64, j: nat)
      requires Shaped(st) && RecordBuffer(raw, st.ino) && |content| <= MaxFileSize(st.ino, bm.blockSize)
      requires Chunks(st, content, 0) == Next(st3) && j < |content|
      requires bid < bm.totalBlocks && Persist(st3, raw, bid, now).Next? && Separated(st3, |content|, bid)
      ensures var st4 := Persist(st3, raw, bid, now).st;
              && Quotient(j, bm.blockSize) < Capacity(st4.ino)
              && BlockAt(st4.disk, FileBlock(st4.disk, st4.ino, Quotient(j, bm.blockSize)))[Remainder(j, bm.blockSize)] == content[j]
    {
      ChunkedByte(st, content, st3, bid, j);
      var q := Quotient(j, bm.blockSize);
      PersistedBlock(st3, raw, bid, now, |content|, q);
    }

    /** Byte j of content is where read_file looks for it after steps 3 and 4. */
    lemma {:induction false} RefillByte(st: Phase, raw: seq<u8>, bid: nat, content: seq<u8>, now: u64, j: nat)
      requires Shaped(st) && RecordBuffer(raw, st.ino) && bid < bm.totalBlocks && |content| <= MaxFileSize(st.ino, bm.blockSize)
      requires Refill(st, raw, bid, content, now).Next? && j < |content|
      requires Separated(Refill(st, raw, bid, content, now).st, |content|, bid)
      ensures var st4 := Refill(st, raw, bid, content, now).st;
              && Quotient(j, bm.blockSize) < Capacity(st4.ino)
              && BlockAt(st4.disk, FileBlock(st4.disk, st4.ino, Quotient(j, bm.blockSize)))[Remainder(j, bm.blockSize)] == content[j]
    {
      var st3 := Chunks(st, content, 0).st;
      var st4 := Persist(st3, raw, bid, now).st;
      SeparatedSameBlocks(st3, st4, |content|, bid);
      PersistedByte(st, content, st3, raw, bid, now, j);
    }

    /** Steps 3 and 4 leave every block before the bitmap as it was: the
        super block, the inode table and the inode bitmap. */
    lemma {:induction false} RefillFrame(st: Phase, raw: seq<u8>, bid: nat, content: seq<u8>, now: u64, j: nat)
      requires Shaped(st) && RecordBuffer(raw, st.ino) && bid < bm.totalBlocks && |content| <= MaxFileSize(st.ino, bm.blockSize)
      requires Refill(st, raw, bid, content, now).Next? && Separated(Refill(st, raw, bid, content, now).st, |content|, bid)
      requires j < |st.disk| && j < alloc.bitmapBlockId
      ensures Refill(st, raw, bid, content, now).st.disk[j] == st.disk[j]
    {
      var st3 := Chunks(st, content, 0).st;
      var st4 := Persist(st3, raw, bid, now).st;
      SeparatedSameBlocks(st3, st4, |content|, bid);
      forall i | 0 <= i && Mul(i, bm.blockSize) < |content| && MapsIndex(st3.ino, st3.indirect, i)
        ensures MappedBlock(st3.ino, st3.indirect, i) != j
      {
        SeparatedAt(st3, |content|, bid, i);
      }
      ChunksFrame(st, content, 0, st3, j);
      PersistWrites(st3, raw, bid, now);
    }

    /** After steps 3 and 4 the record block holds the touched record, whose
        size is the content's length, and read_file collects the content. */
    lemma {:induction false} RefillLayout(st: Phase, raw: seq<u8>, bid: nat, content: seq<u8>, now: u64)
      requires Shaped(st) && RecordBuffer(raw, st.ino) && bid < bm.totalBlocks && |content| <= MaxFileSize(st.ino, bm.blockSize)
      requires st.ino.attr.size as nat == |content|
      requires Refill(st, raw, bid, content, now).Next? && Separated(Refill(st, raw, bid, content, now).st, |content|, bid)
      ensures var st4 := Refill(st, raw, bid, content, now).st;
              && WellFormed(st4.ino) && RecordFits(st4.ino, bm.blockSize) && st4.ino.attr.size == st.ino.attr.size
              && st4.disk[bid] == PatchInode(raw, st4.ino)
              && Gather(st4.disk, st4.ino, 0) == content
    {
      var st3 := Chunks(st, content, 0).st;
      var st4 := Persist(st3, raw, bid, now).st;
      SeparatedSameBlocks(st3, st4, |content|, bid);
      PersistWrites(st3, raw, bid, now);
      SameCapacity(st4.ino, st.ino);
      GatherBytes(st4.disk, st4.ino);
      var c := Gather(st4.disk, st4.ino, 0);
      forall j | 0 <= j < |content|
        ensures c[j] == content[j]
      {
        RefillByte(st, raw, bid, content, now, j);
      }
    }

    /** After steps 2 to 4 the record block holds the new record, read_file
        collects the content, and no block before the bitmap changed. */
    lemma {:induction false} RewriteLayout(st: Phase, raw: seq<u8>, bid: nat, content: seq<u8>, now: u64)
      requires Shaped(st) && RecordBuffer(raw, st.ino) && WellFormed(st.ino) && bid < bm.totalBlocks
      requires |content| <= MaxFileSize(st.ino, bm.blockSize) && |content| < 0x1_0000_0000_0000_0000
      requires Rewrite(st, raw, bid, content, now).Next? && Separated(Rewrite(st, raw, bid, content, now).st, |content|, bid)
      ensures var st4 := Rewrite(st, raw, bid, content, now).st;
              && WellFormed(st4.ino) && RecordFits(st4.ino, bm.blockSize) && st4.ino.attr.size as nat == |content|
              && st4.disk[bid] == PatchInode(raw, st4.ino)
              && Gather(st4.disk, st4.ino, 0) == content
              && forall j :: 0 <= j < |st.disk| && j < alloc.bitmapBlockId ==> st4.disk[j] == st.disk[j]
    {
      var oldN := CalculateBlockSize(st.ino.attr.size, bm.blockSize);
      var newN := CalculateBlockSize(|content|, bm.blockSize);
      SameCapacity(st.ino, st.ino);
      BlocksWithin(st.ino.attr.size, Capacity(st.ino), bm.blockSize);
      BlocksWithin(|content|, Capacity(st.ino), bm.blockSize);
      var st1 := Resize(st, oldN, newN).st;
      ResizeKeepsOthers(st, oldN, newN);
      SameCapacity(st1.ino, st.ino);
      ShapedSized(st1, |content| as u64, now);
      var st2 := st1.(ino := Sized(st1.ino, |content| as u64, now));
      assert Rewrite(st, raw, bid, content, now) == Refill(st2, raw, bid, content, now);
      RefillLayout(st2, raw, bid, content, now);
      forall j | 0 <= j < |st.disk| && j < alloc.bitmapBlockId
        ensures Rewrite(st, raw, bid, content, now).st.disk[j] == st.disk[j]
      {
        RefillFrame(st2, raw, bid, content, now, j);
      }
    }

    /** Reading a file back after writing it: when write_file succeeds and the
        file's blocks do not alias one another, the record block or the
        metadata, read_file returns exactly the bytes written. */
    lemma WriteThenRead(disk: seq<seq<u8>>, id: nat, content: seq<u8>, now: u64)
      requires Fits(disk) && id >= 1 && FileShaped(disk, id) && |content| < 0x1_0000_0000_0000_0000
      requires WriteFileSpec(disk, id, content, now).Next?
      requires Separated(WriteFileSpec(disk, id, content, now).st, |content|, im.ReadInodeSpec(disk, id).0.value)
      ensures var d := WriteFileSpec(disk, id, content, now).st.disk;
              && FileShaped(d, id) && ReadFileSpec(d, id) == Ok(content)
              && im.RecordOf(d, id).Ok? && im.RecordOf(d, id).value.attr.size as nat == |content|
    {
      var rd := im.ReadInodeSpec(disk, id);
      var bid := rd.0.value;
      var st0 := Phase(disk, DecodeInode(rd.1), []);
      assert WriteFileSpec(disk, id, content, now) == Rewrite(st0, rd.1, bid, content, now);
      RewriteLayout(st0, rd.1, bid, content, now);
      var st4 := Rewrite(st0, rd.1, bid, content, now).st;
      var t := im.TableBlockOf(id - 1);
      assert st4.disk[t] == disk[t];
      assert im.TableEntry(st4.disk, id - 1) == im.TableEntry(disk, id - 1);
      assert im.ReadInodeSpec(st4.disk, id) == (Ok(bid), st4.disk[bid]);
      DecodePatchInode(rd.1, st4.ino);
      assert im.RecordOf(st4.disk, id) == Ok(st4.ino);
    }

    // -------------------------------------------------------------------
    // Offset access, resize, alloc_inode and the attribute getters

    /** read_file's result, when it succeeds, has size bytes, so fewer than 2^64. */
    lemma ReadFileShort(disk: seq<seq<u8>>, id: nat)
      requires Fits(disk) && FileShaped(disk, id) && ReadFileSpec(disk, id).Ok?
      ensures im.RecordOf(disk, id).Ok?
      ensures |ReadFileSpec(disk, id).value| == im.RecordOf(disk, id).value.attr.size as nat
      ensures |ReadFileSpec(disk, id).value| < 0x1_0000_0000_0000_0000
    {
      ReadFileBytes(disk, id);
    }

    /** read_file_w_off: bytes [offset, offset + sz) of the file. The source
        slices without a bounds check, so the range must lie in the file. */
    method ReadFileWOff(id: u64, sz: u64, offset: u64) returns (r: Result<seq<u8>>)
      requires Valid() && FileShaped(bm.blocks, id)
      requires ReadFileSpec(bm.blocks, id).Ok? ==> offset as nat + sz as nat <= |ReadFileSpec(bm.blocks, id).value|
      ensures r.Ok? <==> ReadFileSpec(bm.blocks, id).Ok?
      ensures r.Err? ==> r.error == ReadFileSpec(bm.blocks, id).error
      ensures r.Ok? ==> |r.value| == sz as nat
      ensures r.Ok? ==> forall j :: 0 <= j < sz as nat ==> r.value[j] == ReadFileSpec(bm.blocks, id).value[offset as nat + j]
    {
      var res := ReadFile(id);
      if res.Err? {
        return res;
      }
      var content := res.value;
      r := Ok(content[offset..offset as nat + sz as nat]);
    }

    /** write_file_w_off on a disk image: write_file of the old content with
        data overlaid at offset, or the error of reading the file. */
    ghost function WriteFileWOffSpec(disk: seq<seq<u8>>, id: nat, data: seq<u8>, offset: nat, now: u64): (s: Step)
      requires Fits(disk) && FileShaped(disk, id)
      requires offset + |data| < 0x1_0000_0000_0000_0000
      ensures Fits(s.Disk())
      ensures ReadFileSpec(disk, id).Err? ==> s == Stop(ReadFileSpec(disk, id).error, disk)
    {
      match ReadFileSpec(disk, id)
      case Err(e) => Stop(e, disk)
      case Ok(c) =>
        ReadFileShort(disk, id);
        WriteFileSpec(disk, id, Overlay(c, data, offset), now)
    }

    /** write_file_w_off: overlays data at offset on the file's bytes and
        writes the whole file back; reports |data| bytes written. */
    method WriteFileWOff(id: u64, data: seq<u8>, offset: u64, now: u64) returns (r: Result<u64>)
      requires Valid() && FileShaped(bm.blocks, id)
      requires offset as nat + |data| < 0x1_0000_0000_0000_0000
      modifies bm
      ensures Valid()
      ensures bm.blocks == WriteFileWOffSpec(old(bm.blocks), id, data, offset as nat, now).Disk()
      ensures var s := WriteFileWOffSpec(old(bm.blocks), id, data, offset as nat, now);
              && (s.Next? ==> r == Ok(|data| as u64))
              && (s.Stop? ==> r == Err(s.error))
    {
      var res := ReadFile(id);
      if res.Err? {
        return Err(res.error);
      }
      ReadFileShort(bm.blocks, id);
      var content := Overlay(res.value, data, offset as nat);
      var w := WriteFile(id, content, now);
      if w.Fail? {
        return Err(w.error);
      }
      r := Ok(|data| as u64);
    }

    /** Reading back an offset write: the file is the old content with data
        at offset, so read_file_w_off over the written range yields data. */
    lemma WriteWOffThenRead(disk: seq<seq<u8>>, id: nat, data: seq<u8>, offset: nat, now: u64)
      requires Fits(disk) && id >= 1 && FileShaped(disk, id) && offset + |data| < 0x1_0000_0000_0000_0000
      requires WriteFileWOffSpec(disk, id, data, offset, now).Next?
      requires Separated(WriteFileWOffSpec(disk, id, data, offset, now).st,
                         Max(|ReadFileSpec(disk, id).value|, offset + |data|), im.ReadInodeSpec(disk, id).0.value)
      ensures var d := WriteFileWOffSpec(disk, id, data, offset, now).st.disk;
              && FileShaped(d, id)
              && ReadFileSpec(d, id) == Ok(Overlay(ReadFileSpec(disk, id).value, data, offset))
              && ReadFileSpec(d, id).value[offset..offset + |data|] == data
    {
      var c := ReadFileSpec(disk, id).value;
      ReadFileShort(disk, id);
      WriteThenRead(disk, id, Overlay(c, data, offset), now);
    }

    /** resize on a disk image: nothing is written when the length already
        is sz; otherwise write_file of the content cut or zero-extended to sz. */
    ghost function ResizeFileSpec(disk: seq<seq<u8>>, id: nat, sz: nat, now: u64): (s: Step)
      requires Fits(disk) && FileShaped(disk, id) && sz < 0x1_0000_0000_0000_0000
      ensures Fits(s.Disk())
      ensures s.Next? ==> im.RecordOf(disk, id).Ok?
      ensures ReadFileSpec(disk, id).Err? ==> s == Stop(ReadFileSpec(disk, id).error, disk)
      ensures ReadFileSpec(disk, id).Ok? && |ReadFileSpec(disk, id).value| == sz ==> s.Next? && s.st.disk == disk
    {
      match ReadFileSpec(disk, id)
      case Err(e) => Stop(e, disk)
      case Ok(c) =>
        if |c| == sz then Next(Phase(disk, im.RecordOf(disk, id).value, []))
        else WriteFileSpec(disk, id, Fit(c, sz), now)
    }

    /** resize: the file cut or zero-extended to sz bytes, written only when
        its length changes; reports the attributes getattr read before the
        write, with the size set to sz. */
    method ResizeFile(id: u64, sz: u64, now: u64) returns (r: Result<FileAttr>)
      requires Valid() && FileShaped(bm.blocks, id)
      modifies bm
      ensures Valid()
      ensures bm.blocks == ResizeFileSpec(old(bm.blocks), id, sz as nat, now).Disk()
      ensures var s := ResizeFileSpec(old(bm.blocks), id, sz as nat, now);
              && (s.Next? ==> r == Ok(im.RecordOf(old(bm.blocks), id).value.attr.(size := sz)))
              && (s.Stop? ==> r == Err(s.error))
    {
      var a := GetAttr(id);
      if a.Err? {
        return Err(a.error);
      }
      var attr := a.value;
      var res := ReadFile(id);
      // getattr has just read the same record, so read_file's error check never fires
      assert res.Ok?;
      var content := res.value;
      if |content| != sz as nat {
        content := Fit(content, sz as nat);
        var w := WriteFile(id, content, now);
        if w.Fail? {
          return Err(w.error);
        }
      }
      attr := attr.(size := sz);
      r := Ok(attr);
    }

    /** After a resize, read_file returns the old content cut or
        zero-extended to sz, and the stored size is the size resize reported. */
    lemma ResizeThenRead(disk: seq<seq<u8>>, id: nat, sz: nat, now: u64)
      requires Fits(disk) && id >= 1 && FileShaped(disk, id) && sz < 0x1_0000_0000_0000_0000
      requires ResizeFileSpec(disk, id, sz, now).Next?
      requires |ReadFileSpec(disk, id).value| != sz ==>
                 Separated(ResizeFileSpec(disk, id, sz, now).st, sz, im.ReadInodeSpec(disk, id).0.value)
      ensures var d := ResizeFileSpec(disk, id, sz, now).st.disk;
              && FileShaped(d, id)
              && ReadFileSpec(d, id) == Ok(Fit(ReadFileSpec(disk, id).value, sz))
              && im.RecordOf(d, id).Ok? && im.RecordOf(d, id).value.attr.size as nat == sz
    {
      var c := ReadFileSpec(disk, id).value;
      ReadFileShort(disk, id);
      if |c| == sz {
        assert Fit(c, sz) == c;
      } else {
        WriteThenRead(disk, id, Fit(c, sz), now);
      }
    }

    /** alloc_inode on a disk image: a block from the allocator, then an
        inode bound to it; either failure is returned as it is. */
    ghost function AllocInodeSpec(disk: seq<seq<u8>>, kind: InodeType, now: u64): (res: (Result<u64>, seq<seq<u8>>))
      requires Fits(disk)
      ensures Fits(res.1)
      ensures alloc.AllocateSpec(disk).0.Err? ==> res.0 == Err(alloc.AllocateSpec(disk).0.error) && res.1 == disk
    {
      var a := alloc.AllocateSpec(disk);
      if a.0.Err? then
        alloc.AllocateIsFirstFit(disk);
        (Err(a.0.error), a.1)
      else im.AllocateInodeSpec(a.1, kind, a.0.value as u64, now)
    }

    /** alloc_inode: allocates the record's block, then an inode id bound to it. */
    method AllocInode(kind: InodeType, now: u64) returns (r: Result<u64>)
      requires Valid()
      modifies bm
      ensures Valid()
      ensures r == AllocInodeSpec(old(bm.blocks), kind, now).0
      ensures bm.blocks == AllocInodeSpec(old(bm.blocks), kind, now).1
    {
      ghost var disk := bm.blocks;
      var a := alloc.Allocate();
      if a.Err? {
        alloc.AllocateIsFirstFit(disk);
        return Err(a.error);
      }
      r := im.AllocateInode(kind, a.value as u64, now);
    }

    /** Every block up to the end of the block bitmap is marked used, as
        the allocator's constructor leaves it. */
    ghost predicate MetadataReserved(disk: seq<seq<u8>>)
      requires Fits(disk)
    {
      alloc.FitsRegion(disk);
      forall b :: 0 <= b < alloc.bitmapBlockId + alloc.bitmapBlockCnt ==> alloc.Bits(disk)[b]
    }

    /** alloc_inode's outcomes: it fails only when no block or no inode id is
        free; an inode failure leaves the block it took allocated; on success
        one block and one inode id fewer are free, and the id, when get
        accepts it, reads back as a fresh record of the requested type. */
    lemma AllocInodeOutcomes(disk: seq<seq<u8>>, kind: InodeType, now: u64)
      requires Fits(disk) && MetadataReserved(disk)
      ensures var (r, disk') := AllocInodeSpec(disk, kind, now);
              var a := alloc.AllocateSpec(disk);
              && (r.Err? <==> a.0.Err? || im.FreeInodeCount(a.1) == 0)
              && (a.0.Ok? && r.Err? ==>
                    && r.error == OutOfResource && disk' == a.1
                    && alloc.Bits(disk')[a.0.value] && alloc.FreeCount(disk') == alloc.FreeCount(disk) - 1)
              && (r.Ok? ==>
                    && r.value >= 1
                    && alloc.FreeCount(disk') == alloc.FreeCount(disk) - 1
                    && im.FreeInodeCount(disk') == im.FreeInodeCount(disk) - 1
                    && (r.value < im.Limit() ==> im.RecordOf(disk', r.value) == Ok(NewInode(kind, bm.blockSize, now))))
    {
      var a := alloc.AllocateSpec(disk);
      alloc.AllocateIsFirstFit(disk);
      if a.0.Ok? {
        var b := a.0.value;
        alloc.AllocateCount(disk);
        assert PastMetadata(b);
        im.AllocateInodeResult(a.1, kind, b as u64, now);
        im.AllocateInodeMarks(a.1, kind, b as u64, now);
        im.RecordAfterAllocate(a.1, kind, b as u64, now);
        AllocateInodeKeepsBlockBits(a.1, kind, b as u64, now);
        AllocateKeepsInodeBits(disk);
      }
    }

    /** allocate_inode with a record block past the metadata leaves the
        block bitmap as it was. */
    lemma AllocateInodeKeepsBlockBits(disk: seq<seq<u8>>, kind: InodeType, bid: u64, now: u64)
      requires Fits(disk) && PastMetadata(bid as nat)
      ensures alloc.Bits(im.AllocateInodeSpec(disk, kind, bid, now).1) == alloc.Bits(disk)
    {
      var disk' := im.AllocateInodeSpec(disk, kind, bid, now).1;
      var f := FirstFalse(im.InodeBits(disk));
      if f.Some? {
        var g := f.value;
        im.AllocateInodeFound(disk, kind, bid, now, g);
        im.FitsRegion(disk);
        var p := im.InodeRegion().OffsetOf(g);
        var disk2 := im.PutRecord(im.SetInodeBit(disk, g), bid, kind, now);
        im.SetTableFrame(disk2, p, bid);
        forall j | alloc.bitmapBlockId <= j < alloc.bitmapBlockId + alloc.bitmapBlockCnt
          ensures disk'[j] == disk[j]
        {
          assert j != im.TableBlockOf(p);
        }
      }
      alloc.FitsRegion(disk);
      RegionBitsFrame(disk, disk', alloc.BitmapRegion(), bm.totalBlocks);
    }

    /** Block allocation leaves the inode bitmap as it was. */
    lemma AllocateKeepsInodeBits(disk: seq<seq<u8>>)
      requires Fits(disk)
      ensures im.InodeBits(alloc.AllocateSpec(disk).1) == im.InodeBits(disk)
    {
      alloc.AllocateIsFirstFit(disk);
      im.FitsRegion(disk);
      var disk' := alloc.AllocateSpec(disk).1;
      RegionBitsFrame(disk, disk', im.InodeRegion(), im.maxInodeSupported);
    }

    /** GetAttr, GetType and GetTypeAttr forward to the inode manager. */
    method GetAttr(id: u64) returns (r: Result<FileAttr>)
      requires Valid()
      ensures im.RecordOf(bm.blocks, id).Err? ==> r == Err(im.RecordOf(bm.blocks, id).error)
      ensures im.RecordOf(bm.blocks, id).Ok? ==> r == Ok(im.RecordOf(bm.blocks, id).value.attr)
    {
      r := im.GetAttr(id);
    }

    method GetType(id: u64) returns (r: Result<InodeType>)
      requires Valid()
      ensures im.RecordOf(bm.blocks, id).Err? ==> r == Err(im.RecordOf(bm.blocks, id).error)
      ensures im.RecordOf(bm.blocks, id).Ok? ==> r == Ok(im.RecordOf(bm.blocks, id).value.kind)
    {
      r := im.GetType(id);
    }

    method GetTypeAttr(id: u64) returns (r: Result<(InodeType, FileAttr)>)
      requires Valid()
      ensures im.RecordOf(bm.blocks, id).Err? ==> r == Err(im.RecordOf(bm.blocks, id).error)
      ensures im.RecordOf(bm.blocks, id).Ok? ==>
                r == Ok((im.RecordOf(bm.blocks, id).value.kind, im.RecordOf(bm.blocks, id).value.attr))
    {
      r := im.GetTypeAttr(id);
    }
  }
}
