/** The inode manager: a table of block ids starting at block 1 (entry i
    holds the block of the inode with raw id i), followed by an inode bitmap
    (bit i set = raw id i in use). Logical inode ids are raw ids plus one, so
    that id 0 never names an inode. */
module InodeTable {
  import opened Common
  import opened Codec
  import opened Bitmaps
  import opened BlockStore
  import opened Inodes

  /** LOGIC_2_RAW(0) on 64-bit ids: 0 - 1 wraps to the largest u64. */
  const WrappedRaw: nat := 0xFFFF_FFFF_FFFF_FFFF

  /** LOGIC_2_RAW on 64-bit ids. */
  function LogicToRaw(id: u64): (raw: u64)
    ensures id >= 1 ==> raw == id - 1
    ensures id == 0 ==> raw == WrappedRaw
  {
    if id == 0 then WrappedRaw else id - 1
  }

  /** Inode bits held by one bitmap block. */
  function InodeBitsPerBlock(blockSize: nat): nat {
    BitsPerByte * blockSize
  }

  /** Table entries held by one table block. */
  function EntriesPerBlock(blockSize: nat): nat {
    blockSize / WordSize
  }

  /** Bitmap blocks for maxInodes ids: the quotient, plus one for a remainder. */
  function BitmapBlocksFor(maxInodes: nat, blockSize: nat): nat
    requires blockSize > 0
  {
    CeilDiv(maxInodes, InodeBitsPerBlock(blockSize))
  }

  /** The supported inode count, enlarged to whole bitmap blocks. */
  function InodeCapacity(maxInodes: nat, blockSize: nat): nat
    requires blockSize > 0
  {
    Mul(BitmapBlocksFor(maxInodes, blockSize), InodeBitsPerBlock(blockSize))
  }

  /** Table blocks for n entries: the quotient, plus one for a remainder. */
  function TableBlocksFor(n: nat, blockSize: nat): nat
    requires blockSize >= WordSize
  {
    CeilDiv(n, EntriesPerBlock(blockSize))
  }

  /** The enlarged count is the least whole number of bitmap blocks that
      covers maxInodes, and the table has the least number of blocks with an
      entry for every enlarged id. */
  lemma ManagerSizing(maxInodes: nat, blockSize: nat)
    requires blockSize >= WordSize && maxInodes > 0
    ensures var c, p := InodeCapacity(maxInodes, blockSize), EntriesPerBlock(blockSize);
            && BitmapBlocksFor(maxInodes, blockSize) > 0
            && maxInodes <= c < maxInodes + InodeBitsPerBlock(blockSize)
            && c <= Mul(TableBlocksFor(c, blockSize), p) < c + p
  {
    var d, p := InodeBitsPerBlock(blockSize), EntriesPerBlock(blockSize);
    var nb := BitmapBlocksFor(maxInodes, blockSize);
    CeilDivIsLeast(maxInodes, d);
    MulIsProduct(nb, d);
    if nb > 0 {
      assert (nb - 1) * d == nb * d - d;
    }
    var c := InodeCapacity(maxInodes, blockSize);
    var nt := TableBlocksFor(c, blockSize);
    CeilDivIsLeast(c, p);
    MulIsProduct(nt, p);
    if nt > 0 {
      assert (nt - 1) * p == nt * p - p;
    }
  }

  /** n bitmap blocks hold n * 8 * blockSize ids. */
  lemma {:induction false} ScaledCount(n: nat, blockSize: nat)
    ensures n * BitsPerByte * blockSize == Mul(n, InodeBitsPerBlock(blockSize))
  {
    MulIsProduct(n, InodeBitsPerBlock(blockSize));
    assert n * BitsPerByte * blockSize == n * (BitsPerByte * blockSize);
  }

  /** An id count that is a whole number of bitmap blocks fills exactly
      count / bitsPerBlock of them, and the table covers every id. */
  lemma {:induction false} AdoptSizing(maxInodes: nat, blockSize: nat)
    requires blockSize >= WordSize && maxInodes > 0 && maxInodes % InodeBitsPerBlock(blockSize) == 0
    ensures maxInodes / InodeBitsPerBlock(blockSize) > 0
    ensures Mul(maxInodes / InodeBitsPerBlock(blockSize), InodeBitsPerBlock(blockSize)) == maxInodes
    ensures maxInodes <= Mul(TableBlocksFor(maxInodes, blockSize), EntriesPerBlock(blockSize))
  {
    var d, p := InodeBitsPerBlock(blockSize), EntriesPerBlock(blockSize);
    MulIsProduct(maxInodes / d, d);
    CeilDivIsLeast(maxInodes, p);
    MulIsProduct(TableBlocksFor(maxInodes, blockSize), p);
  }

  class InodeManager {
    const bm: BlockManager
    const maxInodeSupported: nat
    const nTableBlocks: nat
    const nBitmapBlocks: nat

    /** Table blocks [1, 1 + nTableBlocks) with an entry for every supported
        id, then nBitmapBlocks bitmap blocks with one bit per supported id. */
    ghost predicate Sized() {
      && bm.GoodGeometry()
      && nBitmapBlocks > 0
      && maxInodeSupported == Mul(nBitmapBlocks, InodeBitsPerBlock(bm.blockSize))
      && maxInodeSupported < 0x1_0000_0000_0000_0000
      && maxInodeSupported <= Mul(nTableBlocks, EntriesPerBlock(bm.blockSize))
      && 1 + nTableBlocks + nBitmapBlocks <= bm.totalBlocks
    }

    ghost predicate Valid()
      reads bm
    {
      Sized() && bm.Valid()
    }

    ghost predicate Fits(disk: seq<seq<u8>>) {
      Sized() && DiskShape(disk, bm.blockSize, bm.totalBlocks)
    }

    ghost function InodeRegion(): Region {
      Region(1 + nTableBlocks, nBitmapBlocks, bm.blockSize)
    }

    lemma SizedFacts()
      requires Sized()
      ensures InodeRegion().Capacity() == maxInodeSupported
      ensures InodeRegion().BitsPerBlock() == InodeBitsPerBlock(bm.blockSize)
      ensures InodeBitsPerBlock(bm.blockSize) <= maxInodeSupported
    {
      MulMonotone(1, nBitmapBlocks, InodeBitsPerBlock(bm.blockSize));
    }

    lemma FitsRegion(disk: seq<seq<u8>>)
      requires Fits(disk)
      ensures RegionFits(disk, InodeRegion()) && InodeRegion().Capacity() == maxInodeSupported
    {
      SizedFacts();
    }

    /** Ids get, read_inode and free_inode accept are those below this bound. */
    function Limit(): nat
      requires Sized()
    {
      SizedFacts();
      maxInodeSupported - 1
    }

    /** The bitmap bit of every raw id. */
    ghost function InodeBits(disk: seq<seq<u8>>): (s: seq<bool>)
      requires Fits(disk)
      ensures |s| == maxInodeSupported
    {
      FitsRegion(disk);
      RegionBits(disk, InodeRegion(), maxInodeSupported)
    }

    /** The table block holding entry idx. */
    ghost function TableBlockOf(idx: nat): (j: nat)
      requires Sized() && idx < maxInodeSupported
      ensures 1 <= j < 1 + nTableBlocks
    {
      QuotientBelow(idx, EntriesPerBlock(bm.blockSize), nTableBlocks);
      1 + Quotient(idx, EntriesPerBlock(bm.blockSize))
    }

    /** Table entry idx: word idx % perBlock of table block 1 + idx / perBlock. */
    ghost function TableEntry(disk: seq<seq<u8>>, idx: nat): u64
      requires Fits(disk) && idx < maxInodeSupported
    {
      Words(disk[TableBlockOf(idx)])[Remainder(idx, EntriesPerBlock(bm.blockSize))]
    }

    /** The disk after set_table(idx, bid): entry idx patched in place; an
        entry past the last block is a failed write that changes nothing. */
    ghost function SetTableSpec(disk: seq<seq<u8>>, idx: nat, bid: u64): (disk': seq<seq<u8>>)
      requires Fits(disk)
      ensures Fits(disk')
    {
      var p := EntriesPerBlock(bm.blockSize);
      var j := 1 + Quotient(idx, p);
      if j < bm.totalBlocks then disk[j := PatchWord(disk[j], Remainder(idx, p), bid)] else disk
    }

    /** After set_table(idx, bid), entry k is bid when k is idx and unchanged otherwise. */
    lemma SetTableEntryAt(disk: seq<seq<u8>>, idx: nat, bid: u64, k: nat)
      requires Fits(disk) && idx < maxInodeSupported && k < maxInodeSupported
      ensures TableEntry(SetTableSpec(disk, idx, bid), k) == if k == idx then bid else TableEntry(disk, k)
    {
      var p := EntriesPerBlock(bm.blockSize);
      if k != idx && Quotient(k, p) == Quotient(idx, p) && Remainder(k, p) == Remainder(idx, p) {
        QuotientRemainder(k, p);
        QuotientRemainder(idx, p);
      }
    }

    /** set_table changes entry idx and nothing else: only the table block
        holding it is written, and the inode bitmap is untouched. */
    lemma SetTableEntries(disk: seq<seq<u8>>, idx: nat, bid: u64)
      requires Fits(disk) && idx < maxInodeSupported
      ensures var disk' := SetTableSpec(disk, idx, bid);
              && (forall k :: 0 <= k < maxInodeSupported ==>
                    TableEntry(disk', k) == if k == idx then bid else TableEntry(disk, k))
              && (forall j :: 0 <= j < |disk| && j != TableBlockOf(idx) ==> disk'[j] == disk[j])
              && InodeBits(disk') == InodeBits(disk)
    {
      var disk' := SetTableSpec(disk, idx, bid);
      forall k | 0 <= k < maxInodeSupported
        ensures TableEntry(disk', k) == if k == idx then bid else TableEntry(disk, k)
      {
        SetTableEntryAt(disk, idx, bid, k);
      }
      SetTableFrame(disk, idx, bid);
    }

    /** set_table of an entry inside the table writes one table block and
        leaves the inode bitmap as it was. */
    lemma SetTableFrame(disk: seq<seq<u8>>, idx: nat, bid: u64)
      requires Fits(disk) && idx < maxInodeSupported
      ensures var disk' := SetTableSpec(disk, idx, bid);
              && (forall j :: 0 <= j < |disk| && j != TableBlockOf(idx) ==> disk'[j] == disk[j])
              && InodeBits(disk') == InodeBits(disk)
    {
      var disk' := SetTableSpec(disk, idx, bid);
      FitsRegion(disk);
      var r := InodeRegion();
      forall j | r.base <= j < r.End() ensures disk'[j] == disk[j] {
        assert j != TableBlockOf(idx);
      }
      RegionBitsFrame(disk, disk', r, maxInodeSupported);
    }

    // -------------------------------------------------------------------
    // Specifications of the operations

    /** get: the table entry of raw id id - 1, for ids below Limit(). Id 0
        wraps to raw index WrappedRaw, whose entry lies past the table. */
    ghost function GetSpec(disk: seq<seq<u8>>, id: nat): Result<u64>
      requires Fits(disk)
    {
      if id >= Limit() then Err(InvalidArg)
      else if id == 0 then Ok(EntryAt(disk, WrappedRaw))
      else Ok(TableEntry(disk, id - 1))
    }

    /** The word get reads for raw index raw, wherever it lands: word
        raw % perBlock of block 1 + raw / perBlock, or 0 when that block is
        past the store and the zeroed buffer is read instead. */
    ghost function EntryAt(disk: seq<seq<u8>>, raw: nat): u64
      requires Fits(disk)
    {
      var p := EntriesPerBlock(bm.blockSize);
      if 1 + raw / p < bm.totalBlocks then Words(disk[1 + raw / p])[raw % p] else InvalidBlockId
    }

    /** read_inode: the block id of the inode and the block's bytes; an id
        out of range, a sentinel entry or an entry past the store is an
        error, and the caller's zeroed buffer stays zero. */
    ghost function ReadInodeSpec(disk: seq<seq<u8>>, id: nat): (res: (Result<u64>, seq<u8>))
      requires Fits(disk)
      ensures |res.1| == bm.blockSize
    {
      match GetSpec(disk, id)
      case Err(e) => (Err(e), Zeros(bm.blockSize))
      case Ok(bid) =>
        if bid == InvalidBlockId || bid >= bm.totalBlocks then (Err(InvalidArg), Zeros(bm.blockSize))
        else (Ok(bid), disk[bid])
    }

    /** The record of inode id, when it can be read. */
    ghost function RecordOf(disk: seq<seq<u8>>, id: nat): Result<Inode>
      requires Fits(disk)
    {
      var (res, buffer) := ReadInodeSpec(disk, id);
      if res.Err? then Err(res.error) else Ok(DecodeInode(buffer))
    }

    /** allocate_inode: the first clear bit g of the inode bitmap is set; a
        fresh record is written to bid; and, because the scan forgets which
        bitmap block it is in, table entry p = g's offset inside its block is
        set to bid and p + 1 is returned. */
    ghost function AllocateInodeSpec(disk: seq<seq<u8>>, kind: InodeType, bid: u64, now: u64)
      : (res: (Result<u64>, seq<seq<u8>>))
      requires Fits(disk)
      ensures Fits(res.1)
    {
      match FirstFalse(InodeBits(disk))
      case None => (Err(OutOfResource), disk)
      case Some(g) =>
        var p := InodeRegion().OffsetOf(g);
        (Ok(p + 1), SetTableSpec(PutRecord(SetInodeBit(disk, g), bid, kind, now), p, bid))
    }

    /** allocate_inode when g is the first clear bit. */
    lemma AllocateInodeFound(disk: seq<seq<u8>>, kind: InodeType, bid: u64, now: u64, g: nat)
      requires Fits(disk) && FirstFalse(InodeBits(disk)) == Some(g)
      ensures g < maxInodeSupported
      ensures var (r, disk') := AllocateInodeSpec(disk, kind, bid, now);
              && r.Ok? && r.value as nat == InodeRegion().OffsetOf(g) + 1
              && disk' == SetTableSpec(PutRecord(SetInodeBit(disk, g), bid, kind, now), InodeRegion().OffsetOf(g), bid)
    {
    }

    /** The disk with the bitmap bit of raw id g set. */
    ghost function SetInodeBit(disk: seq<seq<u8>>, g: nat): (disk': seq<seq<u8>>)
      requires Fits(disk) && g < maxInodeSupported
      ensures Fits(disk')
    {
      var r := InodeRegion();
      FitsRegion(disk);
      var j := r.base + r.BlockOf(g);
      disk[j := SetBit(disk[j], r.OffsetOf(g))]
    }

    /** The disk with a fresh record of the given type at block bid; a
        block past the store is a failed write that changes nothing. */
    ghost function PutRecord(disk: seq<seq<u8>>, bid: u64, kind: InodeType, now: u64): (disk': seq<seq<u8>>)
      requires Fits(disk)
      ensures Fits(disk')
    {
      if bid < bm.totalBlocks then disk[bid := EncodeInode(NewInode(kind, bm.blockSize, now), bm.blockSize)] else disk
    }

    /** free_inode: ids out of range and ids whose bit is already clear are
        rejected without a write; otherwise the bit is cleared and the table
        entry reset to the sentinel. */
    ghost function FreeInodeSpec(disk: seq<seq<u8>>, id: nat): (res: (Status, seq<seq<u8>>))
      requires Fits(disk)
      ensures Fits(res.1)
    {
      if id >= Limit() then (Fail(InvalidArg), disk)
      else if id == 0 then FreeWrapped(disk)
      else if !InodeBits(disk)[id - 1] then (Fail(InvalidArg), disk)
      else (Done, SetTableSpec(ClearInodeBit(disk, id - 1), id - 1, InvalidBlockId))
    }

    /** free_inode(0): the bit free_inode checks for raw index WrappedRaw is
        bit WrappedRaw % bits of block 1 + n_table + WrappedRaw / bits (a
        u64 sum); a block past the store reads as zeros, so the bit is clear.
        When it is set, it is cleared and set_table resets entry WrappedRaw. */
    ghost function FreeWrapped(disk: seq<seq<u8>>): (res: (Status, seq<seq<u8>>))
      requires Fits(disk)
      ensures Fits(res.1)
    {
      var bits := InodeBitsPerBlock(bm.blockSize);
      var j := (1 + nTableBlocks + WrappedRaw / bits) % 0x1_0000_0000_0000_0000;
      var p := WrappedRaw % bits;
      if j < bm.totalBlocks && BitAt(disk[j], p) then
        (Done, SetTableSpec(disk[j := ClearBit(disk[j], p)], WrappedRaw, InvalidBlockId))
      else (Fail(InvalidArg), disk)
    }

    /** free_inode of an id in range: rejected when its bit is clear. */
    lemma FreeInodeInRange(disk: seq<seq<u8>>, id: nat)
      requires Fits(disk) && 1 <= id < Limit()
      ensures FreeInodeSpec(disk, id).0 == if InodeBits(disk)[id - 1] then Done else Fail(InvalidArg)
      ensures FreeInodeSpec(disk, id).1
           == if InodeBits(disk)[id - 1] then SetTableSpec(ClearInodeBit(disk, id - 1), id - 1, InvalidBlockId) else disk
    {
    }

    /** The disk with the bitmap bit of raw id g cleared. */
    ghost function ClearInodeBit(disk: seq<seq<u8>>, g: nat): (disk': seq<seq<u8>>)
      requires Fits(disk) && g < maxInodeSupported
      ensures Fits(disk')
    {
      var r := InodeRegion();
      FitsRegion(disk);
      var j := r.base + r.BlockOf(g);
      disk[j := ClearBit(disk[j], r.OffsetOf(g))]
    }

    /** Free inode ids: every clear bit of every inode bitmap block. */
    ghost function FreeInodeCount(disk: seq<seq<u8>>): nat
      requires Fits(disk)
    {
      CountFalse(InodeBits(disk))
    }

    // -------------------------------------------------------------------
    // Construction

    /** Sizes the bitmap and table for maxInodes ids and zeroes both. */
    constructor(bm: BlockManager, maxInodes: u64)
      requires bm.Valid() && maxInodes > 0
      requires InodeCapacity(maxInodes, bm.blockSize) < 0x1_0000_0000_0000_0000
      requires 1 + TableBlocksFor(InodeCapacity(maxInodes, bm.blockSize), bm.blockSize)
                 + BitmapBlocksFor(maxInodes, bm.blockSize) <= bm.totalBlocks
      modifies bm
      ensures this.bm == bm && Valid()
      ensures nBitmapBlocks == BitmapBlocksFor(maxInodes, bm.blockSize)
      ensures maxInodeSupported == InodeCapacity(maxInodes, bm.blockSize)
      ensures nTableBlocks == TableBlocksFor(maxInodeSupported, bm.blockSize)
      ensures forall j :: 1 <= j < 1 + nTableBlocks + nBitmapBlocks ==> bm.blocks[j] == Zeros(bm.blockSize)
      ensures forall j :: 0 <= j < bm.totalBlocks && !(1 <= j < 1 + nTableBlocks + nBitmapBlocks) ==>
                bm.blocks[j] == old(bm.blocks[j])
    {
      var bitsPerBlock := bm.blockSize * BitsPerByte;
      assert bitsPerBlock == InodeBitsPerBlock(bm.blockSize);
      var blocksNeeded := maxInodes / bitsPerBlock;
      if blocksNeeded * bitsPerBlock < maxInodes {
        blocksNeeded := blocksNeeded + 1;
      }
      CeilDivAsWritten(maxInodes, bitsPerBlock);
      this.nBitmapBlocks := blocksNeeded;
      ScaledCount(blocksNeeded, bm.blockSize);
      var capacity := blocksNeeded * BitsPerByte * bm.blockSize;
      this.maxInodeSupported := capacity;
      var perBlock := bm.blockSize / WordSize;
      var tableBlocks := capacity / perBlock;
      if tableBlocks * perBlock < capacity {
        tableBlocks := tableBlocks + 1;
      }
      CeilDivAsWritten(capacity, perBlock);
      this.nTableBlocks := tableBlocks;
      this.bm := bm;
      new;
      ManagerSizing(maxInodes, bm.blockSize);
      ZeroFront();
    }

    /** Takes over a store whose table and bitmap already exist; the id count
        must be a whole number of bitmap blocks. Nothing is written. */
    constructor FromBlockManager(bm: BlockManager, maxInodes: u64)
      requires bm.Valid() && maxInodes > 0
      requires maxInodes % InodeBitsPerBlock(bm.blockSize) == 0
      requires 1 + TableBlocksFor(maxInodes, bm.blockSize) + maxInodes / InodeBitsPerBlock(bm.blockSize) <= bm.totalBlocks
      ensures this.bm == bm && Valid()
      ensures maxInodeSupported == maxInodes
      ensures nBitmapBlocks == maxInodes / InodeBitsPerBlock(bm.blockSize)
      ensures nTableBlocks == TableBlocksFor(maxInodes, bm.blockSize)
    {
      var bitsPerBlock := bm.blockSize * BitsPerByte;
      assert bitsPerBlock == InodeBitsPerBlock(bm.blockSize);
      var nBitmap := maxInodes / bitsPerBlock;
      var perBlock := bm.blockSize / WordSize;
      var tableBlocks := maxInodes / perBlock;
      if tableBlocks * perBlock < maxInodes {
        tableBlocks := tableBlocks + 1;
      }
      CeilDivAsWritten(maxInodes, perBlock);
      AdoptSizing(maxInodes, bm.blockSize);
      this.bm := bm;
      this.maxInodeSupported := maxInodes;
      this.nTableBlocks := tableBlocks;
      this.nBitmapBlocks := nBitmap;
    }

    /** The constructor's zeroing passes: the table blocks, then the bitmap blocks. */
    method ZeroFront()
      requires Valid()
      modifies bm
      ensures Valid()
      ensures forall j :: 1 <= j < 1 + nTableBlocks + nBitmapBlocks ==> bm.blocks[j] == Zeros(bm.blockSize)
      ensures forall j :: 0 <= j < bm.totalBlocks && !(1 <= j < 1 + nTableBlocks + nBitmapBlocks) ==>
                bm.blocks[j] == old(bm.blocks[j])
    {
      var i := 0;
      while i < nTableBlocks
        invariant 0 <= i <= nTableBlocks && bm.Valid()
        invariant forall j :: 1 <= j < 1 + i ==> bm.blocks[j] == Zeros(bm.blockSize)
        invariant forall j :: 0 <= j < bm.totalBlocks && !(1 <= j < 1 + i) ==> bm.blocks[j] == old(bm.blocks[j])
      {
        var _ := bm.ZeroBlock(i + 1);
        i := i + 1;
      }
      i := 0;
      while i < nBitmapBlocks
        invariant 0 <= i <= nBitmapBlocks && bm.Valid()
        invariant forall j :: 1 <= j < 1 + nTableBlocks + i ==> bm.blocks[j] == Zeros(bm.blockSize)
        invariant forall j :: 0 <= j < bm.totalBlocks && !(1 <= j < 1 + nTableBlocks + i) ==>
                    bm.blocks[j] == old(bm.blocks[j])
      {
        var _ := bm.ZeroBlock(i + 1 + nTableBlocks);
        i := i + 1;
      }
    }

    // -------------------------------------------------------------------
    // The allocation scan

    /** Every bit of the bitmap blocks before block i is set. */
    ghost predicate ScannedFull(disk: seq<seq<u8>>, i: nat)
      requires Fits(disk)
    {
      forall b :: 0 <= b < maxInodeSupported && b < Mul(i, InodeBitsPerBlock(bm.blockSize)) ==> InodeBits(disk)[b]
    }

    /** The bits of bitmap block i are the global bits from i * bitsPerBlock on. */
    lemma {:induction false} InodeBlockBits(disk: seq<seq<u8>>, i: nat)
      requires Fits(disk) && i < nBitmapBlocks
      ensures Mul(i, InodeBitsPerBlock(bm.blockSize)) + InodeBitsPerBlock(bm.blockSize) <= maxInodeSupported
      ensures |BitsOf(disk[1 + nTableBlocks + i])| == InodeBitsPerBlock(bm.blockSize)
      ensures forall g :: Mul(i, InodeBitsPerBlock(bm.blockSize)) <= g < Mul(i, InodeBitsPerBlock(bm.blockSize)) + InodeBitsPerBlock(bm.blockSize) ==>
                InodeBits(disk)[g] == BitsOf(disk[1 + nTableBlocks + i])[g - Mul(i, InodeBitsPerBlock(bm.blockSize))]
    {
      var d := InodeBitsPerBlock(bm.blockSize);
      FitsRegion(disk);
      SizedFacts();
      MulMonotone(i + 1, nBitmapBlocks, d);
      RegionBlockBits(disk, InodeRegion(), i, d, maxInodeSupported);
    }

    /** Bit p of bitmap block i is raw id i * bitsPerBlock + p. */
    lemma {:induction false} InodeBitPosition(i: nat, p: nat)
      requires Sized() && i < nBitmapBlocks && p < InodeBitsPerBlock(bm.blockSize)
      ensures var g := Mul(i, InodeBitsPerBlock(bm.blockSize)) + p;
              && g < maxInodeSupported
              && InodeRegion().BlockOf(g) == i && InodeRegion().OffsetOf(g) == p
    {
      SizedFacts();
      BlockAndOffsetOf(InodeRegion(), i, p);
    }

    /** A clear bit p of bitmap block i, after every bit of the earlier
        blocks, is the first clear bit of the whole bitmap. */
    lemma {:induction false} InodeScanFound(disk: seq<seq<u8>>, i: nat, p: nat)
      requires Fits(disk) && i < nBitmapBlocks && ScannedFull(disk, i)
      requires FirstFalse(BitsOf(disk[1 + nTableBlocks + i])) == Some(p)
      ensures FirstFalse(InodeBits(disk)) == Some(Mul(i, InodeBitsPerBlock(bm.blockSize)) + p)
    {
      var d := InodeBitsPerBlock(bm.blockSize);
      var s := InodeBits(disk);
      InodeBlockBits(disk, i);
      FirstFalseShift(s, Mul(i, d), BitsOf(disk[1 + nTableBlocks + i]), d, |s|, p);
    }

    lemma {:induction false} InodeScanMissed(disk: seq<seq<u8>>, i: nat)
      requires Fits(disk) && i < nBitmapBlocks && ScannedFull(disk, i)
      requires FirstFalse(BitsOf(disk[1 + nTableBlocks + i])).None?
      ensures ScannedFull(disk, i + 1)
    {
      var d := InodeBitsPerBlock(bm.blockSize);
      InodeBlockBits(disk, i);
      AllSetShift(InodeBits(disk), Mul(i, d), BitsOf(disk[1 + nTableBlocks + i]), d);
    }

    lemma InodeScanExhausted(disk: seq<seq<u8>>)
      requires Fits(disk) && ScannedFull(disk, nBitmapBlocks)
      ensures FirstFalse(InodeBits(disk)).None?
    {
      SizedFacts();
    }

    // -------------------------------------------------------------------
    // Operations

    /** Writes bid into table entry idx with a partial write of that entry's bytes. */
    method SetTable(idx: nat, bid: u64) returns (r: Status)
      requires Valid()
      modifies bm
      ensures Valid() && r == Done
      ensures bm.blocks == SetTableSpec(old(bm.blocks), idx, bid)
    {
      var perBlock := bm.blockSize / WordSize;
      var tableBlock := idx / perBlock;
      var tableIndex := idx % perBlock;
      QuotientIsDiv(idx, perBlock);
      SetTableWrites(bm.blocks, idx, bid, tableBlock, tableIndex);
      var _ := bm.WritePartialBlock(1 + tableBlock, EncodeWord(bid), WordSize * tableIndex);
      r := Done;
    }

    /** set_table's write: the encoding of bid written at byte 8r of table
        block 1 + q, where q and r locate entry idx. */
    lemma {:induction false} SetTableWrites(disk: seq<seq<u8>>, idx: nat, bid: u64, q: nat, r: nat)
      requires Fits(disk)
      requires q == Quotient(idx, EntriesPerBlock(bm.blockSize)) && r == Remainder(idx, EntriesPerBlock(bm.blockSize))
      ensures SetTableSpec(disk, idx, bid)
              == if 1 + q < bm.totalBlocks && WordSize * r + |EncodeWord(bid)| <= bm.blockSize
                 then disk[1 + q := Overwrite(disk[1 + q], WordSize * r, EncodeWord(bid))]
                 else disk
    {
      WordInside(r, bm.blockSize);
      assert WordSize * r + |EncodeWord(bid)| <= bm.blockSize;
      if 1 + q < bm.totalBlocks {
        PatchWordOverwrites(disk[1 + q], r, bid);
        assert SetTableSpec(disk, idx, bid) == disk[1 + q := PatchWord(disk[1 + q], r, bid)];
      } else {
        assert SetTableSpec(disk, idx, bid) == disk;
      }
    }

    /** The block id of inode id, from its table entry. */
    method Get(id: u64) returns (r: Result<u64>)
      requires Valid()
      ensures r == GetSpec(bm.blocks, id)
    {
      if id >= Limit() {
        return Err(InvalidArg);
      }
      var raw: nat := LogicToRaw(id);
      var perBlock: nat := EntriesPerBlock(bm.blockSize);
      var buffer, _ := bm.ReadBlock(1 + raw / perBlock);
      var tableIndex: nat := raw % perBlock;
      GetRead(bm.blocks, id, raw, buffer);
      r := Ok(DecodeWord(buffer[WordSize * tableIndex..WordSize * tableIndex + WordSize]));
    }

    /** The word get decodes from the table block it reads is get's result. */
    lemma GetRead(disk: seq<seq<u8>>, id: nat, raw: nat, buffer: seq<u8>)
      requires Fits(disk) && id < Limit() && raw == (if id == 0 then WrappedRaw else id - 1)
      requires buffer == BlockAt(disk, 1 + raw / EntriesPerBlock(bm.blockSize))
      ensures var i := raw % EntriesPerBlock(bm.blockSize);
              WordSize * i + WordSize <= |buffer|
              && Ok(DecodeWord(buffer[WordSize * i..WordSize * i + WordSize])) == GetSpec(disk, id)
    {
      GetAt(disk, id, raw);
      EntryRead(disk, raw, buffer);
    }

    /** read_block into a zeroed buffer: the block, or zeros when out of range. */
    ghost function BlockAt(disk: seq<seq<u8>>, j: nat): (b: seq<u8>)
      requires Fits(disk)
      ensures |b| == bm.blockSize
    {
      if j < bm.totalBlocks then disk[j] else Zeros(bm.blockSize)
    }

    /** The word get decodes from the buffer read_block fills is EntryAt. */
    lemma EntryRead(disk: seq<seq<u8>>, raw: nat, buffer: seq<u8>)
      requires Fits(disk) && buffer == BlockAt(disk, 1 + raw / EntriesPerBlock(bm.blockSize))
      ensures var i := raw % EntriesPerBlock(bm.blockSize);
              WordSize * i + WordSize <= |buffer|
              && DecodeWord(buffer[WordSize * i..WordSize * i + WordSize]) == EntryAt(disk, raw)
    {
      var p := EntriesPerBlock(bm.blockSize);
      var i, j := raw % p, 1 + raw / p;
      assert |buffer| == bm.blockSize && i < |buffer| / WordSize;
      WordInside(i, bm.blockSize);
      assert DecodeWord(buffer[WordSize * i..WordSize * i + WordSize]) == Words(buffer)[i];
      if j >= bm.totalBlocks {
        WordsOfZeros(bm.blockSize);
      }
    }

    /** get of an id below Limit() reads the entry of its raw index, which
        for id 0 is the wrapped one. */
    lemma GetAt(disk: seq<seq<u8>>, id: nat, raw: nat)
      requires Fits(disk) && id < Limit() && raw == (if id == 0 then WrappedRaw else id - 1)
      ensures GetSpec(disk, id) == Ok(EntryAt(disk, raw))
    {
      if id >= 1 {
        var p := EntriesPerBlock(bm.blockSize);
        QuotientIsDiv(raw, p);
        assert TableBlockOf(raw) == 1 + raw / p;
      }
    }

    /** Reads inode id's record block; returns its block id and bytes. */
    method ReadInode(id: u64) returns (r: Result<u64>, buffer: seq<u8>)
      requires Valid()
      ensures (r, buffer) == ReadInodeSpec(bm.blocks, id)
    {
      buffer := Zeros(bm.blockSize);
      if id >= Limit() {
        return Err(InvalidArg), buffer;
      }
      var blockId := Get(id);
      // get repeats the range check just passed, so it cannot fail here
      assert blockId.Ok?;
      if blockId.value == InvalidBlockId {
        return Err(InvalidArg), buffer;
      }
      var st;
      buffer, st := bm.ReadBlock(blockId.value);
      if st.Fail? {
        return Err(st.error), buffer;
      }
      r := Ok(blockId.value);
    }

    /** Finds the first free inode id, marks it used, writes a fresh record
        of the given type to bid and records bid in the table. */
    method AllocateInode(kind: InodeType, bid: u64, now: u64) returns (r: Result<u64>)
      requires Valid()
      modifies bm
      ensures Valid()
      ensures r == AllocateInodeSpec(old(bm.blocks), kind, bid, now).0
      ensures bm.blocks == AllocateInodeSpec(old(bm.blocks), kind, bid, now).1
    {
      var count := 0;
      while count < nBitmapBlocks
        invariant 0 <= count <= nBitmapBlocks && bm.blocks == old(bm.blocks)
        invariant ScannedFull(bm.blocks, count)
      {
        var buffer, _ := bm.ReadBlock(1 + nTableBlocks + count);
        var freeIdx := FirstFalse(BitsOf(buffer));
        if freeIdx.Some? {
          ClaimInodeSpec(bm.blocks, count, freeIdx.value, kind, bid, now);
          var id := ClaimInode(1 + nTableBlocks + count, buffer, freeIdx.value, kind, bid, now);
          return Ok(id);
        }
        InodeScanMissed(bm.blocks, count);
        count := count + 1;
      }
      InodeScanExhausted(bm.blocks);
      r := Err(OutOfResource);
    }

    /** The found branch of allocate_inode on the disk image: when bit p of
        bitmap block count is the first clear bit, the result is id p + 1 and
        the disk with that bit set, the record written and entry p set. */
    lemma ClaimInodeSpec(disk: seq<seq<u8>>, count: nat, p: nat, kind: InodeType, bid: u64, now: u64)
      requires Fits(disk) && count < nBitmapBlocks && ScannedFull(disk, count)
      requires FirstFalse(BitsOf(disk[1 + nTableBlocks + count])) == Some(p)
      ensures p + 1 < 0x1_0000_0000_0000_0000
      ensures AllocateInodeSpec(disk, kind, bid, now).0 == Ok((p + 1) as u64)
      ensures var j := 1 + nTableBlocks + count;
              AllocateInodeSpec(disk, kind, bid, now).1
              == SetTableSpec(PutRecord(disk[j := SetBit(disk[j], p)], bid, kind, now), p, bid)
    {
      var g := ClaimedBit(disk, count, p);
      AllocateInodeFound(disk, kind, bid, now, g);
    }

    /** The bit p of bitmap block count the scan finds is the first clear
        bit g of the whole bitmap, at offset p of its block. */
    lemma ClaimedBit(disk: seq<seq<u8>>, count: nat, p: nat) returns (g: nat)
      requires Fits(disk) && count < nBitmapBlocks && ScannedFull(disk, count)
      requires FirstFalse(BitsOf(disk[1 + nTableBlocks + count])) == Some(p)
      ensures FirstFalse(InodeBits(disk)) == Some(g) && g < maxInodeSupported && p <= g
      ensures InodeRegion().OffsetOf(g) == p
      ensures var j := 1 + nTableBlocks + count;
              SetInodeBit(disk, g) == disk[j := SetBit(disk[j], p)]
    {
      g := Mul(count, InodeBitsPerBlock(bm.blockSize)) + p;
      InodeScanFound(disk, count, p);
      InodeBitPosition(count, p);
    }

    /** The found branch of allocate_inode: sets bit p of bitmap block j
        (held in buffer), writes a fresh record to bid, points table entry p
        at it and returns p + 1 as the id. */
    method ClaimInode(j: nat, buffer: seq<u8>, p: nat, kind: InodeType, bid: u64, now: u64) returns (id: u64)
      requires Valid() && j < bm.totalBlocks && buffer == bm.blocks[j] && p < BitsPerByte * |buffer|
      requires p + 1 < 0x1_0000_0000_0000_0000
      modifies bm
      ensures Valid()
      ensures id as nat == p + 1
      ensures bm.blocks == SetTableSpec(PutRecord(old(bm.blocks)[j := SetBit(old(bm.blocks)[j], p)], bid, kind, now), p, bid)
    {
      MarkAndPutRecord(j, SetBit(buffer, p), kind, bid, now);
      var _ := SetTable(p, bid);
      id := (p + 1) as u64;
    }

    /** Writes the updated bitmap block j, then a fresh record to bid. */
    method MarkAndPutRecord(j: nat, block: seq<u8>, kind: InodeType, bid: u64, now: u64)
      requires Valid() && j < bm.totalBlocks && |block| == bm.blockSize
      modifies bm
      ensures Valid()
      ensures bm.blocks == PutRecord(old(bm.blocks)[j := block], bid, kind, now)
    {
      var _ := bm.WriteBlock(j, block);
      ghost var disk1 := bm.blocks;
      var _ := bm.WriteBlock(bid, EncodeInode(NewInode(kind, bm.blockSize, now), bm.blockSize));
      assert bm.blocks == PutRecord(disk1, bid, kind, now);
    }

    /** Raw id raw is bit raw % bitsPerBlock of bitmap block raw / bitsPerBlock. */
    lemma {:induction false} InodeBitLocated(disk: seq<seq<u8>>, raw: nat)
      requires Fits(disk) && raw < maxInodeSupported
      ensures var d := InodeBitsPerBlock(bm.blockSize);
              var q, r := Quotient(raw, d), Remainder(raw, d);
              && q < nBitmapBlocks && r < 8 * bm.blockSize
              && InodeBits(disk)[raw] == BitAt(disk[1 + nTableBlocks + q], r)
              && ClearInodeBit(disk, raw) == disk[1 + nTableBlocks + q := ClearBit(disk[1 + nTableBlocks + q], r)]
    {
      SizedFacts();
      FitsRegion(disk);
      assert InodeRegion().BlockOf(raw) == Quotient(raw, InodeBitsPerBlock(bm.blockSize));
    }

    /** Frees inode id: clears its bitmap bit and resets its table entry. */
    method FreeInode(id: u64) returns (r: Status)
      requires Valid()
      modifies bm
      ensures Valid()
      ensures r == FreeInodeSpec(old(bm.blocks), id).0 && bm.blocks == FreeInodeSpec(old(bm.blocks), id).1
    {
      if id >= Limit() {
        return Fail(InvalidArg);
      }
      var raw: nat := LogicToRaw(id);
      var totalBitsPerBlock := BitsPerByte * bm.blockSize;
      QuotientIsDiv(raw, totalBitsPerBlock);
      var inodeBlock := raw / totalBitsPerBlock;
      var inodeIndex := raw % totalBitsPerBlock;
      var j := (1 + nTableBlocks + inodeBlock) % 0x1_0000_0000_0000_0000;
      FreeInodeLocated(bm.blocks, id, raw, inodeBlock, inodeIndex);
      var buffer, _ := bm.ReadBlock(j);
      ZeroedHasNoBit(bm.blockSize);
      if !BitAt(buffer, inodeIndex) {
        return Fail(InvalidArg);
      }
      WriteFree(j, buffer, inodeIndex, raw);
      r := Done;
    }

    /** free_inode of any id below Limit(), in terms of the raw index, the
        bitmap block q and the bit r the source computes for it. */
    lemma FreeInodeLocated(disk: seq<seq<u8>>, id: nat, raw: nat, q: nat, r: nat)
      requires Fits(disk) && id < Limit() && raw == (if id == 0 then WrappedRaw else id - 1)
      requires q == raw / (BitsPerByte * bm.blockSize) && r == raw % (BitsPerByte * bm.blockSize)
      ensures r < 8 * bm.blockSize
      ensures var j := (1 + nTableBlocks + q) % 0x1_0000_0000_0000_0000;
              FreeInodeSpec(disk, id).0 == if j < bm.totalBlocks && BitAt(disk[j], r) then Done else Fail(InvalidArg)
      ensures var j := (1 + nTableBlocks + q) % 0x1_0000_0000_0000_0000;
              FreeInodeSpec(disk, id).1
              == if j < bm.totalBlocks && BitAt(disk[j], r)
                 then SetTableSpec(disk[j := ClearBit(disk[j], r)], raw, InvalidBlockId) else disk
    {
      if id >= 1 {
        FreeInodeAt(disk, id, q, r);
      }
    }

    /** Clears bit p of bitmap block j (held in buffer), then resets table
        entry raw to the sentinel. */
    method WriteFree(j: nat, buffer: seq<u8>, p: nat, raw: nat)
      requires Valid() && j < bm.totalBlocks && buffer == bm.blocks[j] && p < BitsPerByte * |buffer|
      modifies bm
      ensures Valid()
      ensures bm.blocks == SetTableSpec(old(bm.blocks)[j := ClearBit(old(bm.blocks)[j], p)], raw, InvalidBlockId)
    {
      var _ := bm.WriteBlock(j, ClearBit(buffer, p));
      var _ := SetTable(raw, InvalidBlockId);
    }

    /** free_inode of an id in range, in terms of the bitmap block q and bit
        r the source computes for it. */
    lemma FreeInodeAt(disk: seq<seq<u8>>, id: nat, q: nat, r: nat)
      requires Fits(disk) && 1 <= id < Limit()
      requires q == (id - 1) / (BitsPerByte * bm.blockSize) && r == (id - 1) % (BitsPerByte * bm.blockSize)
      ensures 1 + nTableBlocks + q < bm.totalBlocks && r < 8 * bm.blockSize
      ensures (1 + nTableBlocks + q) % 0x1_0000_0000_0000_0000 == 1 + nTableBlocks + q
      ensures FreeInodeSpec(disk, id).0 == if BitAt(disk[1 + nTableBlocks + q], r) then Done else Fail(InvalidArg)
      ensures BitAt(disk[1 + nTableBlocks + q], r) ==>
                FreeInodeSpec(disk, id).1
                == SetTableSpec(disk[1 + nTableBlocks + q := ClearBit(disk[1 + nTableBlocks + q], r)], id - 1, InvalidBlockId)
      ensures !BitAt(disk[1 + nTableBlocks + q], r) ==> FreeInodeSpec(disk, id).1 == disk
    {
      var raw, j := id - 1, 1 + nTableBlocks + q;
      SizedFacts();
      QuotientIsDiv(raw, BitsPerByte * bm.blockSize);
      InodeBitLocated(disk, raw);
      FreeInodeInRange(disk, id);
      if BitAt(disk[j], r) {
        var cleared := disk[j := ClearBit(disk[j], r)];
        assert ClearInodeBit(disk, raw) == cleared;
        assert FreeInodeSpec(disk, id).1 == SetTableSpec(cleared, raw, InvalidBlockId);
      }
    }

    /** Counting bitmap block i adds its clear bits to the count of the blocks before it. */
    lemma {:induction false} CountInodeBlock(disk: seq<seq<u8>>, i: nat)
      requires Fits(disk) && i < nBitmapBlocks
      ensures Mul(i, InodeBitsPerBlock(bm.blockSize)) + InodeBitsPerBlock(bm.blockSize) <= maxInodeSupported
      ensures CountFalseIn(InodeBits(disk), 0, Mul(i, InodeBitsPerBlock(bm.blockSize)) + InodeBitsPerBlock(bm.blockSize))
              == CountFalseIn(InodeBits(disk), 0, Mul(i, InodeBitsPerBlock(bm.blockSize)))
                 + CountFalse(BitsOf(disk[1 + nTableBlocks + i]))
    {
      var d := InodeBitsPerBlock(bm.blockSize);
      InodeBlockBits(disk, i);
      CountFalseBlock(InodeBits(disk), Mul(i, d), BitsOf(disk[1 + nTableBlocks + i]), d);
    }

    /** Number of free inode ids: the clear bits of every inode bitmap block. */
    method FreeInodeCnt() returns (n: nat)
      requires Valid()
      ensures n == FreeInodeCount(bm.blocks)
    {
      var d := InodeBitsPerBlock(bm.blockSize);
      n := 0;
      var i := 0;
      SizedFacts();
      while i < nBitmapBlocks
        invariant 0 <= i <= nBitmapBlocks && Mul(i, d) <= maxInodeSupported
        invariant n == CountFalseIn(InodeBits(bm.blocks), 0, Mul(i, d))
      {
        var buffer, _ := bm.ReadBlock(1 + nTableBlocks + i);
        CountInodeBlock(bm.blocks, i);
        n := n + CountFalse(BitsOf(buffer));
        i := i + 1;
      }
    }

    /** The attributes of inode id's record. */
    method GetAttr(id: u64) returns (r: Result<FileAttr>)
      requires Valid()
      ensures RecordOf(bm.blocks, id).Err? ==> r == Err(RecordOf(bm.blocks, id).error)
      ensures RecordOf(bm.blocks, id).Ok? ==> r == Ok(RecordOf(bm.blocks, id).value.attr)
    {
      var res, buffer := ReadInode(id);
      if res.Err? {
        return Err(res.error);
      }
      r := Ok(DecodeInode(buffer).attr);
    }

    /** The type of inode id's record. */
    method GetType(id: u64) returns (r: Result<InodeType>)
      requires Valid()
      ensures RecordOf(bm.blocks, id).Err? ==> r == Err(RecordOf(bm.blocks, id).error)
      ensures RecordOf(bm.blocks, id).Ok? ==> r == Ok(RecordOf(bm.blocks, id).value.kind)
    {
      var res, buffer := ReadInode(id);
      if res.Err? {
        return Err(res.error);
      }
      r := Ok(DecodeInode(buffer).kind);
    }

    /** The type and attributes of inode id's record. */
    method GetTypeAttr(id: u64) returns (r: Result<(InodeType, FileAttr)>)
      requires Valid()
      ensures RecordOf(bm.blocks, id).Err? ==> r == Err(RecordOf(bm.blocks, id).error)
      ensures RecordOf(bm.blocks, id).Ok? ==>
                r == Ok((RecordOf(bm.blocks, id).value.kind, RecordOf(bm.blocks, id).value.attr))
    {
      var res, buffer := ReadInode(id);
      if res.Err? {
        return Err(res.error);
      }
      var ino := DecodeInode(buffer);
      r := Ok((ino.kind, ino.attr));
    }

    // -------------------------------------------------------------------
    // Properties

    /** Setting the bit of raw id g in its bitmap block sets exactly bit g. */
    lemma SetInodeBitBits(disk: seq<seq<u8>>, g: nat)
      requires Fits(disk) && g < maxInodeSupported
      ensures InodeBits(SetInodeBit(disk, g)) == InodeBits(disk)[g := true]
    {
      FitsRegion(disk);
      RegionSetBit(disk, InodeRegion(), g, maxInodeSupported);
    }

    /** Clearing the bit of raw id g in its bitmap block clears exactly bit g. */
    lemma ClearInodeBitBits(disk: seq<seq<u8>>, g: nat)
      requires Fits(disk) && g < maxInodeSupported
      ensures InodeBits(ClearInodeBit(disk, g)) == InodeBits(disk)[g := false]
    {
      FitsRegion(disk);
      RegionClearBit(disk, InodeRegion(), g, maxInodeSupported);
    }

    /** A record written outside the bitmap blocks leaves the inode bits alone. */
    lemma PutRecordBits(disk: seq<seq<u8>>, bid: u64, kind: InodeType, now: u64)
      requires Fits(disk) && (bid < 1 + nTableBlocks || 1 + nTableBlocks + nBitmapBlocks <= bid)
      ensures InodeBits(PutRecord(disk, bid, kind, now)) == InodeBits(disk)
    {
      FitsRegion(disk);
      RegionBitsFrame(disk, PutRecord(disk, bid, kind, now), InodeRegion(), maxInodeSupported);
    }

    /** allocate_inode fails, changing nothing, exactly when no inode id is
        free. On success the returned id is never 0; it is the position of
        the bit it claimed plus one only when that bit lies in the first
        bitmap block, since the block counter is not added in. */
    lemma AllocateInodeResult(disk: seq<seq<u8>>, kind: InodeType, bid: u64, now: u64)
      requires Fits(disk)
      ensures var (r, disk') := AllocateInodeSpec(disk, kind, bid, now);
              && (r.Err? <==> FreeInodeCount(disk) == 0)
              && (r.Err? ==> r.error == OutOfResource && disk' == disk)
              && (r.Ok? ==> var g := FirstFalse(InodeBits(disk)).value;
                    && r.value >= 1
                    && r.value as nat == InodeRegion().OffsetOf(g) + 1
                    && (r.value as nat == g + 1 <==> g < InodeBitsPerBlock(bm.blockSize)))
    {
      CountFalseZero(InodeBits(disk));
      var f := FirstFalse(InodeBits(disk));
      if f.Some? {
        var g, d := f.value, InodeBitsPerBlock(bm.blockSize);
        AllocateInodeFound(disk, kind, bid, now, g);
        SizedFacts();
        if g < d {
          QuotientRemainderOf(0, g, d);
        }
      }
    }

    /** On success allocate_inode marks exactly the first free id used (the
        record block bid is not a bitmap block), so one id fewer is free. */
    lemma AllocateInodeMarks(disk: seq<seq<u8>>, kind: InodeType, bid: u64, now: u64)
      requires Fits(disk) && (bid < 1 + nTableBlocks || 1 + nTableBlocks + nBitmapBlocks <= bid)
      ensures var (r, disk') := AllocateInodeSpec(disk, kind, bid, now);
              r.Ok? ==> var g := FirstFalse(InodeBits(disk)).value;
                && InodeBits(disk') == InodeBits(disk)[g := true]
                && FreeInodeCount(disk') == FreeInodeCount(disk) - 1
    {
      var f := FirstFalse(InodeBits(disk));
      if f.Some? {
        var g := f.value;
        AllocateInodeFound(disk, kind, bid, now, g);
        var disk1 := SetInodeBit(disk, g);
        SetInodeBitBits(disk, g);
        SizedFacts();
        PutRecordBits(disk1, bid, kind, now);
        SetTableFrame(PutRecord(disk1, bid, kind, now), InodeRegion().OffsetOf(g), bid);
        CountFalseSet(InodeBits(disk), g);
      }
    }

    /** get of the id allocate_inode returned yields the record block bid,
        when that id is in get's range. */
    lemma GetAfterAllocate(disk: seq<seq<u8>>, kind: InodeType, bid: u64, now: u64)
      requires Fits(disk)
      ensures var (r, disk') := AllocateInodeSpec(disk, kind, bid, now);
              r.Ok? && r.value < Limit() ==> GetSpec(disk', r.value) == Ok(bid)
    {
      var f := FirstFalse(InodeBits(disk));
      if f.Some? {
        var g := f.value;
        AllocateInodeFound(disk, kind, bid, now, g);
        var p := InodeRegion().OffsetOf(g);
        SizedFacts();
        SetTableEntryAt(PutRecord(SetInodeBit(disk, g), bid, kind, now), p, bid, p);
      }
    }

    /** With bid a data block, the id allocate_inode returned reads back as
        a fresh record of the requested type. */
    lemma RecordAfterAllocate(disk: seq<seq<u8>>, kind: InodeType, bid: u64, now: u64)
      requires Fits(disk) && 1 + nTableBlocks + nBitmapBlocks <= bid < bm.totalBlocks
      ensures var (r, disk') := AllocateInodeSpec(disk, kind, bid, now);
              r.Ok? && r.value < Limit() ==> RecordOf(disk', r.value) == Ok(NewInode(kind, bm.blockSize, now))
    {
      var (r, disk') := AllocateInodeSpec(disk, kind, bid, now);
      if r.Ok? && r.value < Limit() {
        GetAfterAllocate(disk, kind, bid, now);
        var g := FirstFalse(InodeBits(disk)).value;
        AllocateInodeFound(disk, kind, bid, now, g);
        var p := InodeRegion().OffsetOf(g);
        var disk2 := PutRecord(SetInodeBit(disk, g), bid, kind, now);
        SizedFacts();
        SetTableFrame(disk2, p, bid);
        assert disk'[bid] == disk2[bid];
        DecodeEncodeInode(NewInode(kind, bm.blockSize, now), bm.blockSize);
      }
    }

    /** When the first free id lies past the first bitmap block, its own
        table entry is not written: the entry written is the one of its
        offset inside its block. */
    lemma AllocateInodeMisplaced(disk: seq<seq<u8>>, kind: InodeType, bid: u64, now: u64)
      requires Fits(disk) && 1 + nTableBlocks + nBitmapBlocks <= bid
      ensures var (r, disk') := AllocateInodeSpec(disk, kind, bid, now);
              r.Ok? && FirstFalse(InodeBits(disk)).value >= InodeBitsPerBlock(bm.blockSize) ==>
                var g := FirstFalse(InodeBits(disk)).value;
                TableEntry(disk', g) == TableEntry(disk, g)
    {
      var f := FirstFalse(InodeBits(disk));
      if f.Some? && f.value >= InodeBitsPerBlock(bm.blockSize) {
        var g := f.value;
        AllocateInodeFound(disk, kind, bid, now, g);
        var p := InodeRegion().OffsetOf(g);
        var disk1 := SetInodeBit(disk, g);
        var disk2 := PutRecord(disk1, bid, kind, now);
        SizedFacts();
        SetTableEntryAt(disk2, p, bid, g);
        assert TableBlockOf(g) < 1 + nTableBlocks;
        assert disk2[TableBlockOf(g)] == disk1[TableBlockOf(g)] == disk[TableBlockOf(g)];
      }
    }

    /** free_inode succeeds exactly for an in-range id whose bit is set;
        otherwise it fails with InvalidArg and changes nothing. On success
        exactly that bit is cleared and one more id is free. */
    lemma FreeInodeResult(disk: seq<seq<u8>>, id: nat)
      requires Fits(disk) && id >= 1
      ensures FreeInodeSpec(disk, id).0.Done? <==> id < Limit() && InodeBits(disk)[id - 1]
      ensures FreeInodeSpec(disk, id).0.Fail? ==>
                FreeInodeSpec(disk, id).0.error == InvalidArg && FreeInodeSpec(disk, id).1 == disk
      ensures FreeInodeSpec(disk, id).0.Done? ==>
                InodeBits(FreeInodeSpec(disk, id).1) == InodeBits(disk)[id - 1 := false]
    {
      if id < Limit() && InodeBits(disk)[id - 1] {
        FreeInodeDone(disk, id);
      }
    }

    /** Id 0 wraps to raw index WrappedRaw. On any store of at most
        WrappedRaw / (8 * block_size) blocks (about 2^55 blocks of 64 bytes,
        2^49 blocks of 4096 bytes) both
        the table entry get reads and the bitmap bit free_inode checks lie
        past the store, so read_inode(0) and free_inode(0) fail with
        InvalidArg and free_inode(0) writes nothing. */
    lemma IdZeroRejected(disk: seq<seq<u8>>)
      requires Fits(disk) && bm.totalBlocks <= WrappedRaw / InodeBitsPerBlock(bm.blockSize)
      ensures ReadInodeSpec(disk, 0).0 == Err(InvalidArg)
      ensures FreeInodeSpec(disk, 0).0 == Fail(InvalidArg) && FreeInodeSpec(disk, 0).1 == disk
    {
      var p, bits := EntriesPerBlock(bm.blockSize), InodeBitsPerBlock(bm.blockSize);
      assert bits == 64 * p;
      DivByMultiple(WrappedRaw, p, 64);
      assert WrappedRaw / bits <= WrappedRaw / p;
      if 0 < Limit() {
        assert EntryAt(disk, WrappedRaw) == InvalidBlockId;
      }
      assert 1 + nTableBlocks + WrappedRaw / bits < 0x1_0000_0000_0000_0000;
    }

    /** Freeing an id in use makes exactly one more id free. */
    lemma FreeInodeCountUp(disk: seq<seq<u8>>, id: nat)
      requires Fits(disk) && 1 <= id < Limit() && InodeBits(disk)[id - 1]
      ensures FreeInodeCount(FreeInodeSpec(disk, id).1) == FreeInodeCount(disk) + 1
    {
      FreeInodeDone(disk, id);
      CountFalseClear(InodeBits(disk), id - 1);
    }

    /** After a successful free the id no longer reads, and freeing it again
        is rejected. */
    lemma FreeInodeTwice(disk: seq<seq<u8>>, id: nat)
      requires Fits(disk) && id >= 1
      ensures var (st, disk') := FreeInodeSpec(disk, id);
              st.Done? ==>
                && ReadInodeSpec(disk', id).0 == Err(InvalidArg)
                && FreeInodeSpec(disk', id).0 == Fail(InvalidArg)
    {
      if id < Limit() && InodeBits(disk)[id - 1] {
        FreeInodeDone(disk, id);
      }
    }

    /** A successful free clears exactly the id's bit and resets its table entry. */
    lemma FreeInodeDone(disk: seq<seq<u8>>, id: nat)
      requires Fits(disk) && 1 <= id < Limit() && InodeBits(disk)[id - 1]
      ensures FreeInodeSpec(disk, id).1 == SetTableSpec(ClearInodeBit(disk, id - 1), id - 1, InvalidBlockId)
      ensures InodeBits(FreeInodeSpec(disk, id).1) == InodeBits(disk)[id - 1 := false]
      ensures TableEntry(FreeInodeSpec(disk, id).1, id - 1) == InvalidBlockId
    {
      var disk1 := ClearInodeBit(disk, id - 1);
      FreeInodeInRange(disk, id);
      ClearInodeBitBits(disk, id - 1);
      SetTableFrame(disk1, id - 1, InvalidBlockId);
      SetTableEntryAt(disk1, id - 1, InvalidBlockId, id - 1);
    }

    /** Clearing an inode bit writes a bitmap block, never a table block. */
    lemma ClearInodeBitFrame(disk: seq<seq<u8>>, g: nat)
      requires Fits(disk) && g < maxInodeSupported
      ensures forall j :: 1 <= j < 1 + nTableBlocks ==> ClearInodeBit(disk, g)[j] == disk[j]
    {
    }

    /** Freeing an id resets its table entry and leaves every other entry as it was. */
    lemma FreeInodeEntries(disk: seq<seq<u8>>, id: nat)
      requires Fits(disk) && id >= 1
      ensures var (st, disk') := FreeInodeSpec(disk, id);
              st.Done? ==> forall k :: 0 <= k < maxInodeSupported ==>
                TableEntry(disk', k) == if k == id - 1 then InvalidBlockId else TableEntry(disk, k)
    {
      if FreeInodeSpec(disk, id).0.Done? {
        forall k | 0 <= k < maxInodeSupported
          ensures TableEntry(FreeInodeSpec(disk, id).1, k)
               == if k == id - 1 then InvalidBlockId else TableEntry(disk, k)
        {
          FreeInodeEntryAt(disk, id, k);
        }
      }
    }

    lemma FreeInodeEntryAt(disk: seq<seq<u8>>, id: nat, k: nat)
      requires Fits(disk) && 1 <= id < Limit() && InodeBits(disk)[id - 1] && k < maxInodeSupported
      ensures TableEntry(FreeInodeSpec(disk, id).1, k) == if k == id - 1 then InvalidBlockId else TableEntry(disk, k)
    {
      var disk1 := ClearInodeBit(disk, id - 1);
      FreeInodeInRange(disk, id);
      SetTableEntryAt(disk1, id - 1, InvalidBlockId, k);
      ClearInodeBitFrame(disk, id - 1);
      assert disk1[TableBlockOf(k)] == disk[TableBlockOf(k)];
    }

    /** A zeroed table and bitmap, as the constructor leaves them: every id
        is free and no id reads. */
    lemma FreshInodeTable(disk: seq<seq<u8>>)
      requires Fits(disk)
      requires forall j :: 1 <= j < 1 + nTableBlocks + nBitmapBlocks ==> disk[j] == Zeros(bm.blockSize)
      ensures FreeInodeCount(disk) == maxInodeSupported
      ensures forall id :: id >= 1 ==> ReadInodeSpec(disk, id).0 == Err(InvalidArg)
    {
      FitsRegion(disk);
      var r := InodeRegion();
      var none := seq(maxInodeSupported, _ => false);
      ZeroedHasNoBit(bm.blockSize);
      forall b | 0 <= b < maxInodeSupported ensures RegionBit(disk, r, b) == none[b] {
      }
      RegionBitsEqual(disk, r, maxInodeSupported, none);
      CountFalseOfPrefixSet(none, 0);
      WordsOfZeros(bm.blockSize);
      forall id | id >= 1 ensures ReadInodeSpec(disk, id).0 == Err(InvalidArg) {
        if id < Limit() {
          assert disk[TableBlockOf(id - 1)] == Zeros(bm.blockSize);
        }
      }
    }
  }
}
