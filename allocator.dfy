/** The free-block allocator: one bitmap region, starting at a configurable
    block, with one bit per block of the store (set = in use). */
module Allocation {
  import opened Common
  import opened Bitmaps
  import opened BlockStore

  /** Bits tracked by one bitmap block. */
  function BitsPerBlock(blockSize: nat): nat {
    BitsPerByte * blockSize
  }

  /** Bitmap blocks needed for one bit per block: the quotient, plus one for a remainder. */
  function BitmapBlockCount(totalBlocks: nat, blockSize: nat): nat
    requires blockSize > 0
  {
    CeilDiv(totalBlocks, BitsPerBlock(blockSize))
  }

  /** Meaningful bits in the last bitmap block. */
  function LastBlockNum(totalBlocks: nat, blockSize: nat): nat
    requires blockSize > 0
  {
    var d := BitsPerBlock(blockSize);
    if BitmapBlockCount(totalBlocks, blockSize) * d == totalBlocks then d else totalBlocks % d
  }

  /** The bitmap has at least one block, its last block holds between 1 and
      bitsPerBlock meaningful bits, and together they cover exactly one bit per block. */
  lemma AllocatorSizing(totalBlocks: nat, blockSize: nat)
    requires blockSize > 0 && totalBlocks > 0
    ensures BitmapBlockCount(totalBlocks, blockSize) > 0
    ensures 0 < LastBlockNum(totalBlocks, blockSize) <= BitsPerBlock(blockSize)
    ensures Mul(BitmapBlockCount(totalBlocks, blockSize) - 1, BitsPerBlock(blockSize))
            + LastBlockNum(totalBlocks, blockSize) == totalBlocks
  {
    var d := BitsPerBlock(blockSize);
    MulIsProduct(BitmapBlockCount(totalBlocks, blockSize) - 1, d);
    var q, r := totalBlocks / d, totalBlocks % d;
    assert totalBlocks == q * d + r;
    if r != 0 {
      assert (q + 1) * d == q * d + d;
    } else {
      assert q > 0;
      assert (q - 1) * d + d == q * d;
    }
  }

  /** Blocks before the last one end within the first c - 1 blocks. */
  lemma EarlyBlockEnd(i: nat, c: nat, d: nat)
    requires i + 1 < c
    ensures Mul(i, d) + d <= Mul(c - 1, d)
  {
    MulMonotone(i + 1, c - 1, d);
  }

  class BlockAllocator {
    const bm: BlockManager
    /** First block of the bitmap region. */
    const bitmapBlockId: nat
    const bitmapBlockCnt: nat
    const lastBlockNum: nat

    /** The sizing the constructor computes (in the form AllocatorSizing
        proves equivalent), with the bitmap inside the store. */
    ghost predicate Sized() {
      && bm.GoodGeometry() && bm.totalBlocks > 0
      && bitmapBlockCnt > 0 && 0 < lastBlockNum <= BitsPerBlock(bm.blockSize)
      && Mul(bitmapBlockCnt - 1, BitsPerBlock(bm.blockSize)) + lastBlockNum == bm.totalBlocks
      && bitmapBlockId + bitmapBlockCnt <= bm.totalBlocks
    }

    ghost predicate Valid()
      reads bm
    {
      Sized() && bm.Valid()
    }

    ghost function BitmapRegion(): Region {
      Region(bitmapBlockId, bitmapBlockCnt, bm.blockSize)
    }

    /** A disk image of this store. */
    ghost predicate Fits(disk: seq<seq<u8>>) {
      Sized() && DiskShape(disk, bm.blockSize, bm.totalBlocks)
    }

    /** The two disk images agree on every block outside the bitmap. */
    ghost predicate SameOutsideBitmap(disk: seq<seq<u8>>, disk0: seq<seq<u8>>) {
      && |disk| == |disk0|
      && forall j :: 0 <= j < |disk| && !(bitmapBlockId <= j < bitmapBlockId + bitmapBlockCnt) ==> disk[j] == disk0[j]
    }

    lemma SizedFacts()
      requires Sized()
      ensures BitmapRegion().BitsPerBlock() == BitsPerBlock(bm.blockSize) > 0
      ensures bitmapBlockCnt > 0 && 0 < lastBlockNum <= BitmapRegion().BitsPerBlock()
      ensures Mul(bitmapBlockCnt - 1, BitmapRegion().BitsPerBlock()) + lastBlockNum == bm.totalBlocks
      ensures bm.totalBlocks <= BitmapRegion().Capacity()
    {
      assert BitmapRegion().Capacity() == Mul(bitmapBlockCnt - 1, BitmapRegion().BitsPerBlock()) + BitmapRegion().BitsPerBlock();
    }

    lemma FitsRegion(disk: seq<seq<u8>>)
      requires Fits(disk)
      ensures RegionFits(disk, BitmapRegion()) && bm.totalBlocks <= BitmapRegion().Capacity()
    {
      SizedFacts();
    }

    /** The allocation bit of every block of the store, in block order. */
    ghost function Bits(disk: seq<seq<u8>>): (s: seq<bool>)
      requires Fits(disk)
      ensures |s| == bm.totalBlocks
    {
      FitsRegion(disk);
      RegionBits(disk, BitmapRegion(), bm.totalBlocks)
    }

    /** The bitmap block holding the bit of block b. */
    ghost function BitmapBlockOf(b: nat): (j: nat)
      requires Sized() && b < bm.totalBlocks
      ensures bitmapBlockId <= j < bitmapBlockId + bitmapBlockCnt
    {
      SizedFacts();
      bitmapBlockId + BitmapRegion().BlockOf(b)
    }

    /** Number of free blocks: clear bits among the first totalBlocks bits. */
    ghost function FreeCount(disk: seq<seq<u8>>): nat
      requires Fits(disk)
    {
      CountFalse(Bits(disk))
    }

    /** Bits the allocation scan visits: every bit of all but the last
        bitmap block, and the whole bytes among the last block's meaningful bits. */
    ghost function ScanLimit(): nat
      requires Sized()
    {
      Mul(bitmapBlockCnt - 1, BitsPerBlock(bm.blockSize)) + BitsPerByte * (lastBlockNum / BitsPerByte)
    }

    lemma ScanLimitFacts()
      requires Sized()
      ensures ScanLimit() <= bm.totalBlocks < ScanLimit() + BitsPerByte
    {
      SizedFacts();
    }

    /** Bits scanned in bitmap block i. */
    ghost function ScanWidth(i: nat): nat
      requires Sized()
    {
      if i + 1 == bitmapBlockCnt then BitsPerByte * (lastBlockNum / BitsPerByte)
      else BitsPerBlock(bm.blockSize)
    }

    /** The global bits i * bitsPerBlock + q, q < m, are the first m bits of bitmap block i. */
    lemma {:induction false} BitmapBlockBits(disk: seq<seq<u8>>, i: nat, m: nat)
      requires Fits(disk) && i < bitmapBlockCnt && m <= BitsPerBlock(bm.blockSize)
      requires Mul(i, BitsPerBlock(bm.blockSize)) + m <= bm.totalBlocks
      ensures forall g :: Mul(i, BitsPerBlock(bm.blockSize)) <= g < Mul(i, BitsPerBlock(bm.blockSize)) + m ==>
                Bits(disk)[g] == BitsOf(disk[bitmapBlockId + i])[g - Mul(i, BitsPerBlock(bm.blockSize))]
    {
      SizedFacts();
      RegionBlockBits(disk, BitmapRegion(), i, m, bm.totalBlocks);
    }

    /** The bits scanned in bitmap block i are the global bits from i * bitsPerBlock on. */
    lemma {:induction false} ScanBlock(disk: seq<seq<u8>>, i: nat)
      requires Fits(disk) && i < bitmapBlockCnt
      ensures ScanWidth(i) <= BitsPerBlock(bm.blockSize) == BitsPerByte * bm.blockSize
      ensures Mul(i, BitsPerBlock(bm.blockSize)) + ScanWidth(i) <= ScanLimit()
      ensures i + 1 < bitmapBlockCnt ==> ScanWidth(i) == BitsPerBlock(bm.blockSize)
      ensures i + 1 == bitmapBlockCnt ==> Mul(i, BitsPerBlock(bm.blockSize)) + ScanWidth(i) == ScanLimit()
      ensures forall g :: Mul(i, BitsPerBlock(bm.blockSize)) <= g < Mul(i, BitsPerBlock(bm.blockSize)) + ScanWidth(i) ==>
                Bits(disk)[g] == BitsOf(disk[bitmapBlockId + i])[g - Mul(i, BitsPerBlock(bm.blockSize))]
    {
      var d, m := BitsPerBlock(bm.blockSize), ScanWidth(i);
      SizedFacts();
      ScanLimitFacts();
      if i + 1 < bitmapBlockCnt {
        EarlyBlockEnd(i, bitmapBlockCnt, d);
      }
      BitmapBlockBits(disk, i, m);
    }

    /** First-fit allocation: the lowest clear bit the scan visits is set,
        in the bitmap block that holds it, and its block is returned;
        AllocateIsFirstFit states what this means for the bits. */
    ghost function AllocateSpec(disk: seq<seq<u8>>): (res: (Result<nat>, seq<seq<u8>>))
      requires Fits(disk)
      ensures Fits(res.1)
      ensures res.0.Ok? ==> res.0.value < bm.totalBlocks
    {
      ScanLimitFacts();
      match FirstFalseIn(Bits(disk), 0, ScanLimit())
      case None => (Err(OutOfResource), disk)
      case Some(g) =>
        FitsRegion(disk);
        var j := BitmapBlockOf(g);
        (Ok(g), disk[j := SetBit(disk[j], BitmapRegion().OffsetOf(g))])
    }

    /** Allocation returns the lowest clear scanned bit, sets exactly that bit
        and writes only the bitmap block holding it; it fails only when every
        scanned bit is set, and then writes nothing. */
    lemma AllocateIsFirstFit(disk: seq<seq<u8>>)
      requires Fits(disk)
      ensures var (r, disk') := AllocateSpec(disk);
              && (r.Ok? ==>
                    var g := r.value;
                    && g < ScanLimit() <= bm.totalBlocks
                    && !Bits(disk)[g] && (forall b :: 0 <= b < g ==> Bits(disk)[b])
                    && Bits(disk') == Bits(disk)[g := true]
                    && forall j :: 0 <= j < |disk| && j != BitmapBlockOf(g) ==> disk'[j] == disk[j])
              && (r.Err? ==>
                    && r == Err(OutOfResource) && disk' == disk
                    && forall b :: 0 <= b < ScanLimit() ==> Bits(disk)[b])
    {
      ScanLimitFacts();
      if AllocateSpec(disk).0.Ok? {
        AllocateSetsBit(disk);
      }
    }

    /** A successful allocation sets exactly the returned block's bit. */
    lemma AllocateSetsBit(disk: seq<seq<u8>>)
      requires Fits(disk) && AllocateSpec(disk).0.Ok?
      ensures var (r, disk') := AllocateSpec(disk);
              && Bits(disk') == Bits(disk)[r.value := true]
              && forall j :: 0 <= j < |disk| && j != BitmapBlockOf(r.value) ==> disk'[j] == disk[j]
    {
      FitsRegion(disk);
      RegionSetBit(disk, BitmapRegion(), AllocateSpec(disk).0.value, bm.totalBlocks);
    }

    /** Freeing a block: out-of-range ids and blocks already free are
        rejected without a write; otherwise exactly its bit is cleared. */
    ghost function DeallocateSpec(disk: seq<seq<u8>>, id: nat): (res: (Status, seq<seq<u8>>))
      requires Fits(disk)
      ensures Fits(res.1)
      ensures res.0 == (if id >= bm.totalBlocks || !Bits(disk)[id] then Fail(InvalidArg) else Done)
      ensures res.0.Fail? ==> res.1 == disk
    {
      if id >= bm.totalBlocks || !Bits(disk)[id] then (Fail(InvalidArg), disk)
      else
        FitsRegion(disk);
        var j := BitmapBlockOf(id);
        (Done, disk[j := ClearBit(disk[j], BitmapRegion().OffsetOf(id))])
    }

    /** A successful free clears exactly bit id and writes only the bitmap block holding it. */
    lemma DeallocateClearsBit(disk: seq<seq<u8>>, id: nat)
      requires Fits(disk) && DeallocateSpec(disk, id).0.Done?
      ensures var disk' := DeallocateSpec(disk, id).1;
              && Bits(disk') == Bits(disk)[id := false]
              && forall j :: 0 <= j < |disk| && j != BitmapBlockOf(id) ==> disk'[j] == disk[j]
    {
      FitsRegion(disk);
      RegionClearBit(disk, BitmapRegion(), id, bm.totalBlocks);
    }

    lemma SameOutsideBitmapTrans(d1: seq<seq<u8>>, d2: seq<seq<u8>>, d3: seq<seq<u8>>)
      requires SameOutsideBitmap(d1, d2) && SameOutsideBitmap(d2, d3)
      ensures SameOutsideBitmap(d1, d3)
    {
    }

    /** Allocation writes nothing outside the bitmap. */
    lemma AllocateKeepsOthers(disk: seq<seq<u8>>)
      requires Fits(disk)
      ensures SameOutsideBitmap(AllocateSpec(disk).1, disk)
    {
      if AllocateSpec(disk).0.Ok? {
        AllocateSetsBit(disk);
      }
    }

    /** Freeing writes nothing outside the bitmap. */
    lemma DeallocateKeepsOthers(disk: seq<seq<u8>>, id: nat)
      requires Fits(disk)
      ensures SameOutsideBitmap(DeallocateSpec(disk, id).1, disk)
    {
      if DeallocateSpec(disk, id).0.Done? {
        DeallocateClearsBit(disk, id);
      }
    }

    /** Bitmap blocks other than cur hold exactly the bits of blocks below i. */
    ghost predicate FlushedUpTo(disk: seq<seq<u8>>, cur: nat, i: nat)
      requires Fits(disk)
    {
      var k, d := bitmapBlockId, BitsPerBlock(bm.blockSize);
      forall j, q :: k <= j < k + bitmapBlockCnt && j != cur && 0 <= q < d ==>
        BitAt(disk[j], q) == (Mul(j - k, d) + q < i)
    }

    /** The buffer for bitmap block cur holds exactly the bits of blocks below i. */
    ghost predicate BufferUpTo(buffer: seq<u8>, cur: nat, i: nat)
      requires Sized() && cur >= bitmapBlockId
    {
      var k, d := bitmapBlockId, BitsPerBlock(bm.blockSize);
      |buffer| == bm.blockSize && forall q :: 0 <= q < d ==> BitAt(buffer, q) == (Mul(cur - k, d) + q < i)
    }

    /** A position inside bitmap block t splits into t and its offset
        there; the position just past block t starts block t + 1. */
    static lemma {:induction false} StepSplit(i: nat, t: nat, d: nat, c: nat)
      requires d > 0 && Mul(t, d) <= i <= Mul(t, d) + d && i < Mul(c, d)
      ensures i < Mul(t, d) + d ==> i / d == t && i % d == i - Mul(t, d) && t < c
      ensures i == Mul(t, d) + d ==> i / d == t + 1 && i % d == 0 && t + 1 < c
    {
      if i < Mul(t, d) + d {
        QuotientRemainderOf(t, i - Mul(t, d), d);
      } else {
        QuotientRemainderOf(t + 1, 0, d);
      }
      QuotientIsDiv(i, d);
      QuotientBelow(i, d, c);
    }

    /** A zeroed bitmap with an empty buffer holds no bits yet. */
    lemma StartStep(disk: seq<seq<u8>>)
      requires Fits(disk)
      requires forall j :: bitmapBlockId <= j < bitmapBlockId + bitmapBlockCnt ==> disk[j] == Zeros(bm.blockSize)
      ensures FlushedUpTo(disk, bitmapBlockId, 0) && BufferUpTo(Zeros(bm.blockSize), bitmapBlockId, 0)
    {
      ZeroedHasNoBit(bm.blockSize);
    }

    /** Setting bit i in the buffer of its bitmap block. */
    lemma {:induction false} SetStep(disk: seq<seq<u8>>, buffer: seq<u8>, cur: nat, i: nat, index: nat)
      requires Fits(disk) && bitmapBlockId <= cur
      requires FlushedUpTo(disk, cur, i) && BufferUpTo(buffer, cur, i)
      requires index < BitsPerBlock(bm.blockSize)
      requires i == Mul(cur - bitmapBlockId, BitsPerBlock(bm.blockSize)) + index
      ensures FlushedUpTo(disk, cur, i + 1)
      ensures BufferUpTo(SetBit(buffer, index), cur, i + 1)
    {
      var k, d := bitmapBlockId, BitsPerBlock(bm.blockSize);
      forall j, q | k <= j < k + bitmapBlockCnt && j != cur && 0 <= q < d
        ensures BitAt(disk[j], q) == (Mul(j - k, d) + q < i + 1)
      {
        if Mul(j - k, d) + q == i {
          SameSplit(j - k, q, cur - k, i - Mul(cur - k, d), d);
        }
      }
    }

    /** Writing a completed buffer to its block and starting the next block with a zeroed buffer. */
    lemma {:induction false} FlushStep(disk: seq<seq<u8>>, buffer: seq<u8>, cur: nat, i: nat)
      requires Fits(disk) && bitmapBlockId <= cur < bitmapBlockId + bitmapBlockCnt
      requires FlushedUpTo(disk, cur, i) && BufferUpTo(buffer, cur, i)
      requires i == Mul(cur - bitmapBlockId, BitsPerBlock(bm.blockSize)) + BitsPerBlock(bm.blockSize)
      ensures Fits(disk[cur := buffer])
      ensures Mul(cur + 1 - bitmapBlockId, BitsPerBlock(bm.blockSize)) == i
      ensures FlushedUpTo(disk[cur := buffer], cur + 1, i) && BufferUpTo(Zeros(bm.blockSize), cur + 1, i)
    {
      ZeroedHasNoBit(bm.blockSize);
      assert Mul(cur + 1 - bitmapBlockId, BitsPerBlock(bm.blockSize)) == i;
    }

    /** After the last write the region holds exactly the bits below i. */
    lemma FinishStep(disk: seq<seq<u8>>, buffer: seq<u8>, cur: nat, i: nat, disk': seq<seq<u8>>)
      requires Fits(disk) && bitmapBlockId <= cur < bitmapBlockId + bitmapBlockCnt
      requires FlushedUpTo(disk, cur, i) && BufferUpTo(buffer, cur, i)
      requires disk' == disk[cur := buffer]
      ensures Fits(disk')
      ensures forall b :: 0 <= b < BitmapRegion().Capacity() ==> RegionBit(disk', BitmapRegion(), b) == (b < i)
    {
      var k, d := bitmapBlockId, BitsPerBlock(bm.blockSize);
      SizedFacts();
      forall b | 0 <= b < BitmapRegion().Capacity()
        ensures RegionBit(disk', BitmapRegion(), b) == (b < i)
      {
        var j, q := BitmapRegion().BlockOf(b), BitmapRegion().OffsetOf(b);
        QuotientRemainder(b, d);
        assert RegionBit(disk', BitmapRegion(), b) == BitAt(disk'[k + j], q);
      }
    }

    /** Sizes the bitmap for the store and, when asked to initialise, zeroes
        it and then reserves blocks [0, bitmapBlockId + bitmapBlockCnt): the
        bitmap's own blocks and everything before them. */
    constructor(bm: BlockManager, bitmapBlockId: nat, willInitialize: bool)
      requires bm.Valid() && bm.totalBlocks > 0
      requires BitmapBlockCount(bm.totalBlocks, bm.blockSize) + bitmapBlockId <= bm.totalBlocks
      modifies bm
      ensures this.bm == bm && this.bitmapBlockId == bitmapBlockId && Valid()
      ensures bitmapBlockCnt == BitmapBlockCount(bm.totalBlocks, bm.blockSize)
      ensures lastBlockNum == LastBlockNum(bm.totalBlocks, bm.blockSize)
      ensures !willInitialize ==> bm.blocks == old(bm.blocks)
      ensures willInitialize ==>
                && (forall b :: 0 <= b < BitmapRegion().Capacity() ==>
                      RegionBit(bm.blocks, BitmapRegion(), b) == (b < bitmapBlockId + bitmapBlockCnt))
                && SameOutsideBitmap(bm.blocks, old(bm.blocks))
    {
      this.bm := bm;
      this.bitmapBlockId := bitmapBlockId;
      this.bitmapBlockCnt := BitmapBlockCount(bm.totalBlocks, bm.blockSize);
      this.lastBlockNum := LastBlockNum(bm.totalBlocks, bm.blockSize);
      new;
      AllocatorSizing(bm.totalBlocks, bm.blockSize);
      SizedFacts();
      if !willInitialize {
        return;
      }
      ZeroBitmap();
      ReserveFront();
    }

    /** The constructor's first pass: every bitmap block zeroed. */
    method ZeroBitmap()
      requires Valid()
      modifies bm
      ensures Valid()
      ensures forall j :: bitmapBlockId <= j < bitmapBlockId + bitmapBlockCnt ==> bm.blocks[j] == Zeros(bm.blockSize)
      ensures SameOutsideBitmap(bm.blocks, old(bm.blocks))
    {
      var k, c := bitmapBlockId, bitmapBlockCnt;
      var i := 0;
      while i < c
        invariant 0 <= i <= c && bm.Valid()
        invariant forall j :: k <= j < k + i ==> bm.blocks[j] == Zeros(bm.blockSize)
        invariant forall j :: 0 <= j < bm.totalBlocks && !(k <= j < k + i) ==> bm.blocks[j] == old(bm.blocks[j])
      {
        var _ := bm.ZeroBlock(i + k);
        i := i + 1;
      }
    }

    /** The constructor's second pass over a zeroed bitmap: the bits of
        blocks [0, bitmapBlockId + bitmapBlockCnt) are set, one bitmap block
        buffered at a time and written when the scan leaves it. */
    method ReserveFront()
      requires Valid()
      requires forall j :: bitmapBlockId <= j < bitmapBlockId + bitmapBlockCnt ==> bm.blocks[j] == Zeros(bm.blockSize)
      modifies bm
      ensures Valid()
      ensures forall b :: 0 <= b < BitmapRegion().Capacity() ==>
                RegionBit(bm.blocks, BitmapRegion(), b) == (b < bitmapBlockId + bitmapBlockCnt)
      ensures SameOutsideBitmap(bm.blocks, old(bm.blocks))
    {
      var k, c, d := bitmapBlockId, bitmapBlockCnt, BitsPerBlock(bm.blockSize);
      SizedFacts();
      StartStep(bm.blocks);
      var cur := k;
      var buffer := Zeros(bm.blockSize);
      var i := 0;
      while i < k + c
        invariant 0 <= i <= k + c && bm.Valid()
        invariant k <= cur < k + c
        invariant Mul(cur - k, d) <= i <= Mul(cur - k, d) + d
        invariant FlushedUpTo(bm.blocks, cur, i) && BufferUpTo(buffer, cur, i)
        invariant SameOutsideBitmap(bm.blocks, old(bm.blocks))
      {
        cur, buffer := ReserveBit(cur, buffer, i);
        i := i + 1;
      }
      ghost var disk1 := bm.blocks;
      var _ := bm.WriteBlock(cur, buffer);
      FinishStep(disk1, buffer, cur, i, bm.blocks);
    }

    /** One step of the reservation loop: sets bit i, first writing out the
        buffer of the previous bitmap block when bit i starts a new one. */
    method ReserveBit(cur0: nat, buffer0: seq<u8>, i: nat) returns (cur: nat, buffer: seq<u8>)
      requires Valid() && i < bitmapBlockId + bitmapBlockCnt
      requires bitmapBlockId <= cur0 < bitmapBlockId + bitmapBlockCnt
      requires Mul(cur0 - bitmapBlockId, BitsPerBlock(bm.blockSize)) <= i <= Mul(cur0 - bitmapBlockId, BitsPerBlock(bm.blockSize)) + BitsPerBlock(bm.blockSize)
      requires FlushedUpTo(bm.blocks, cur0, i) && BufferUpTo(buffer0, cur0, i)
      modifies bm
      ensures Valid() && bitmapBlockId <= cur < bitmapBlockId + bitmapBlockCnt
      ensures Mul(cur - bitmapBlockId, BitsPerBlock(bm.blockSize)) <= i + 1 <= Mul(cur - bitmapBlockId, BitsPerBlock(bm.blockSize)) + BitsPerBlock(bm.blockSize)
      ensures FlushedUpTo(bm.blocks, cur, i + 1) && BufferUpTo(buffer, cur, i + 1)
      ensures SameOutsideBitmap(bm.blocks, old(bm.blocks))
    {
      var k, c, d := bitmapBlockId, bitmapBlockCnt, BitsPerBlock(bm.blockSize);
      SizedFacts();
      cur, buffer := cur0, buffer0;
      var blockId := i / d + k;
      var blockIdx := i % d;
      StepSplit(i, cur - k, d, c);
      if blockId != cur {
        FlushStep(bm.blocks, buffer, cur, i);
        var _ := bm.WriteBlock(cur, buffer);
        cur := blockId;
        buffer := Zeros(bm.blockSize);
      }
      assert i == Mul(cur - k, d) + blockIdx;
      SetStep(bm.blocks, buffer, cur, i, blockIdx);
      buffer := SetBit(buffer, blockIdx);
    }

    /** Counting a bitmap block before the last adds all its clear bits to
        the count of the blocks before it. */
    lemma {:induction false} CountEarlyBlock(disk: seq<seq<u8>>, i: nat)
      requires Fits(disk) && i + 1 < bitmapBlockCnt
      ensures Mul(i + 1, BitsPerBlock(bm.blockSize)) <= bm.totalBlocks
      ensures CountFalseIn(Bits(disk), 0, Mul(i + 1, BitsPerBlock(bm.blockSize)))
              == CountFalseIn(Bits(disk), 0, Mul(i, BitsPerBlock(bm.blockSize))) + CountFalse(BitsOf(disk[bitmapBlockId + i]))
    {
      var d := BitsPerBlock(bm.blockSize);
      var lo := Mul(i, d);
      SizedFacts();
      EarlyBlockEnd(i, bitmapBlockCnt, d);
      BitmapBlockBits(disk, i, d);
      CountFalseBlock(Bits(disk), lo, BitsOf(disk[bitmapBlockId + i]), d);
    }

    /** Counting the last bitmap block over its meaningful bits completes the count. */
    lemma {:induction false} CountLastBlock(disk: seq<seq<u8>>)
      requires Fits(disk)
      ensures Mul(bitmapBlockCnt - 1, BitsPerBlock(bm.blockSize)) <= bm.totalBlocks
      ensures CountFalse(Bits(disk))
              == CountFalseIn(Bits(disk), 0, Mul(bitmapBlockCnt - 1, BitsPerBlock(bm.blockSize)))
                 + CountFalseIn(BitsOf(disk[bitmapBlockId + (bitmapBlockCnt - 1)]), 0, lastBlockNum)
    {
      var i := bitmapBlockCnt - 1;
      var lo := Mul(i, BitsPerBlock(bm.blockSize));
      SizedFacts();
      BitmapBlockBits(disk, i, lastBlockNum);
      assert lo + lastBlockNum == |Bits(disk)|;
      CountFalseBlock(Bits(disk), lo, BitsOf(disk[bitmapBlockId + i]), lastBlockNum);
    }

    /** Number of free blocks: clear bits of every bitmap block, the last
        one counted only over its meaningful bits. */
    method FreeBlockCnt() returns (n: nat)
      requires Valid()
      ensures n == FreeCount(bm.blocks)
    {
      var d := BitsPerBlock(bm.blockSize);
      n := 0;
      var i := 0;
      while i < bitmapBlockCnt
        invariant 0 <= i <= bitmapBlockCnt
        invariant i < bitmapBlockCnt ==> Mul(i, d) <= bm.totalBlocks && n == CountFalseIn(Bits(bm.blocks), 0, Mul(i, d))
        invariant i == bitmapBlockCnt ==> n == CountFalse(Bits(bm.blocks))
      {
        var buffer, _ := bm.ReadBlock(bitmapBlockId + i);
        if i == bitmapBlockCnt - 1 {
          CountLastBlock(bm.blocks);
          n := n + CountFalseIn(BitsOf(buffer), 0, lastBlockNum);
        } else {
          CountEarlyBlock(bm.blocks, i);
          n := n + CountFalse(BitsOf(buffer));
        }
        i := i + 1;
      }
    }

    /** Allocation returns the first clear bit g among the scanned bits. */
    lemma FirstFitAt(disk: seq<seq<u8>>, g: nat)
      requires Fits(disk) && g < ScanLimit()
      requires !Bits(disk)[g] && forall b :: 0 <= b < g ==> Bits(disk)[b]
      ensures g < bm.totalBlocks
      ensures AllocateSpec(disk)
              == (Ok(g), disk[BitmapBlockOf(g) := SetBit(disk[BitmapBlockOf(g)], BitmapRegion().OffsetOf(g))])
    {
      ScanLimitFacts();
      FirstFalseUnique(Bits(disk), 0, ScanLimit(), g);
    }

    /** Every scanned bit of the bitmap blocks before block i is set. */
    ghost predicate ScannedSet(disk: seq<seq<u8>>, i: nat)
      requires Fits(disk)
    {
      forall b :: 0 <= b < ScanLimit() && b < Mul(i, BitsPerBlock(bm.blockSize)) ==> Bits(disk)[b]
    }

    /** Clear bit p of the scanned part of bitmap block i, after all earlier
        scanned bits were set, is the first clear scanned bit of the store. */
    lemma {:induction false} ScanFoundFirst(disk: seq<seq<u8>>, i: nat, p: nat)
      requires Fits(disk) && i < bitmapBlockCnt
      requires ScannedSet(disk, i)
      requires FirstFalseIn(BitsOf(disk[bitmapBlockId + i]), 0, ScanWidth(i)) == Some(p)
      ensures p < BitsPerBlock(bm.blockSize)
      ensures Mul(i, BitsPerBlock(bm.blockSize)) + p < ScanLimit()
      ensures !Bits(disk)[Mul(i, BitsPerBlock(bm.blockSize)) + p]
      ensures forall b :: 0 <= b < Mul(i, BitsPerBlock(bm.blockSize)) + p ==> Bits(disk)[b]
    {
      ScanBlock(disk, i);
      ScanLimitFacts();
      FirstFalseShift(Bits(disk), Mul(i, BitsPerBlock(bm.blockSize)), BitsOf(disk[bitmapBlockId + i]),
                      ScanWidth(i), ScanLimit(), p);
    }

    /** The scan finds clear bit p in bitmap block i after all earlier scanned bits were set. */
    lemma {:induction false} ScanFound(disk: seq<seq<u8>>, i: nat, p: nat)
      requires Fits(disk) && i < bitmapBlockCnt
      requires ScannedSet(disk, i)
      requires FirstFalseIn(BitsOf(disk[bitmapBlockId + i]), 0, ScanWidth(i)) == Some(p)
      ensures p < BitsPerBlock(bm.blockSize)
      ensures AllocateSpec(disk).0 == Ok(Mul(i, BitsPerBlock(bm.blockSize)) + p)
      ensures AllocateSpec(disk).1 == disk[bitmapBlockId + i := SetBit(disk[bitmapBlockId + i], p)]
    {
      ScanFoundFirst(disk, i, p);
      var g := Mul(i, BitsPerBlock(bm.blockSize)) + p;
      FirstFitAt(disk, g);
      BlockAndOffsetOf(BitmapRegion(), i, p);
    }

    /** A bitmap block whose scanned bits are all set extends the set prefix by one block. */
    lemma {:induction false} ScanMissed(disk: seq<seq<u8>>, i: nat)
      requires Fits(disk) && i < bitmapBlockCnt
      requires ScannedSet(disk, i)
      requires FirstFalseIn(BitsOf(disk[bitmapBlockId + i]), 0, ScanWidth(i)).None?
      ensures ScannedSet(disk, i + 1)
    {
      var d := BitsPerBlock(bm.blockSize);
      var bits := Bits(disk);
      var m := ScanWidth(i);
      ScanBlock(disk, i);
      ScanLimitFacts();
      AllSetShift(bits, Mul(i, d), BitsOf(disk[bitmapBlockId + i]), m);
    }

    /** With every scanned bit set, allocation runs out. */
    lemma ScanExhausted(disk: seq<seq<u8>>)
      requires Fits(disk)
      requires ScannedSet(disk, bitmapBlockCnt)
      ensures AllocateSpec(disk) == (Err(OutOfResource), disk)
    {
      SizedFacts();
      ScanLimitFacts();
    }

    /** Reads bitmap block i and finds its first clear bit among the bits
        the scan visits there. */
    method ScanBitmapBlock(i: nat) returns (buffer: seq<u8>, res: Option<nat>)
      requires Valid() && i < bitmapBlockCnt
      ensures buffer == bm.blocks[bitmapBlockId + i]
      ensures res == FirstFalseIn(BitsOf(buffer), 0, ScanWidth(i))
    {
      var st;
      buffer, st := bm.ReadBlock(bitmapBlockId + i);
      if i == bitmapBlockCnt - 1 {
        // the last bitmap block is scanned over its whole meaningful bytes only
        var bytes := lastBlockNum / BitsPerByte;
        BitsOfPrefix(buffer, bytes);
        FirstFalseAgree(BitsOf(buffer[..bytes]), BitsOf(buffer), 0, BitsPerByte * bytes);
        res := FirstFalse(BitsOf(buffer[..bytes]));
      } else {
        res := FirstFalse(BitsOf(buffer));
      }
    }

    /** Allocates the first free block (lowest bitmap block, then lowest bit). */
    method Allocate() returns (r: Result<nat>)
      requires Valid()
      modifies bm
      ensures Valid()
      ensures r == AllocateSpec(old(bm.blocks)).0 && bm.blocks == AllocateSpec(old(bm.blocks)).1
    {
      var d := BitsPerBlock(bm.blockSize);
      var i := 0;
      while i < bitmapBlockCnt
        invariant 0 <= i <= bitmapBlockCnt && bm.blocks == old(bm.blocks)
        invariant ScannedSet(bm.blocks, i)
      {
        var buffer, res := ScanBitmapBlock(i);
        if res.Some? {
          ScanFound(bm.blocks, i, res.value);
          buffer := SetBit(buffer, res.value);
          var _ := bm.WriteBlock(bitmapBlockId + i, buffer);
          MulIsProduct(i, d);
          r := Ok((i * d + res.value) as nat);
          return;
        }
        ScanMissed(bm.blocks, i);
        i := i + 1;
      }
      ScanExhausted(bm.blocks);
      r := Err(OutOfResource);
    }

    /** Frees block id: rejects ids out of range and blocks already free. */
    method Deallocate(id: nat) returns (r: Status)
      requires Valid()
      modifies bm
      ensures Valid()
      ensures r == DeallocateSpec(old(bm.blocks), id).0 && bm.blocks == DeallocateSpec(old(bm.blocks), id).1
    {
      if id >= bm.totalBlocks {
        return Fail(InvalidArg);
      }
      SizedFacts();
      var d := BitsPerBlock(bm.blockSize);
      var target := id / d;
      var index := id % d;
      QuotientIsDiv(id, d);
      FitsRegion(bm.blocks);
      var buffer, _ := bm.ReadBlock(bitmapBlockId + target);
      if !BitAt(buffer, index) {
        return Fail(InvalidArg);
      }
      buffer := ClearBit(buffer, index);
      var _ := bm.WriteBlock(bitmapBlockId + target, buffer);
      r := Done;
    }

    // -------------------------------------------------------------------
    // Properties relating the operations

    /** Right after initialisation every block below bitmapBlockId + bitmapBlockCnt
        is reserved: the free count is the rest and allocation never returns a reserved block. */
    lemma FreshBitmap(disk: seq<seq<u8>>)
      requires Fits(disk)
      requires forall b :: 0 <= b < BitmapRegion().Capacity() ==>
                 (FitsRegion(disk); RegionBit(disk, BitmapRegion(), b) == (b < bitmapBlockId + bitmapBlockCnt))
      ensures FreeCount(disk) == bm.totalBlocks - (bitmapBlockId + bitmapBlockCnt)
      ensures AllocateSpec(disk).0.Ok? ==> AllocateSpec(disk).0.value >= bitmapBlockId + bitmapBlockCnt
    {
      FitsRegion(disk);
      CountFalseOfPrefixSet(Bits(disk), bitmapBlockId + bitmapBlockCnt);
      AllocateIsFirstFit(disk);
    }

    /** Allocation never hands out a block whose bit is set. */
    lemma AllocateReturnsFree(disk: seq<seq<u8>>, b: nat)
      requires Fits(disk) && b < bm.totalBlocks && Bits(disk)[b]
      ensures AllocateSpec(disk).0 != Ok(b)
    {
      AllocateIsFirstFit(disk);
    }

    /** Allocation uses up exactly one free block. */
    lemma {:induction false} AllocateCount(disk: seq<seq<u8>>)
      requires Fits(disk) && AllocateSpec(disk).0.Ok?
      ensures FreeCount(AllocateSpec(disk).1) == FreeCount(disk) - 1
    {
      var g := AllocateSpec(disk).0.value;
      AllocateIsFirstFit(disk);
      CountFalseSet(Bits(disk), g);
    }

    /** Freeing a block in use makes exactly one more block free. */
    lemma {:induction false} DeallocateCount(disk: seq<seq<u8>>, id: nat)
      requires Fits(disk) && DeallocateSpec(disk, id).0.Done?
      ensures FreeCount(DeallocateSpec(disk, id).1) == FreeCount(disk) + 1
    {
      DeallocateClearsBit(disk, id);
      CountFalseClear(Bits(disk), id);
    }

    /** Freeing the block just allocated restores the bitmap, hence the free count. */
    lemma {:induction false} AllocateThenDeallocate(disk: seq<seq<u8>>)
      requires Fits(disk) && AllocateSpec(disk).0.Ok?
      ensures var (r, disk1) := AllocateSpec(disk);
              DeallocateSpec(disk1, r.value) == (Done, disk)
    {
      var (r, disk1) := AllocateSpec(disk);
      var g := r.value;
      AllocateIsFirstFit(disk);
      var j := BitmapBlockOf(g);
      FitsRegion(disk);
      var q := BitmapRegion().OffsetOf(g);
      assert disk1 == disk[j := SetBit(disk[j], q)];
      assert BitAt(disk[j], q) == Bits(disk)[g];
      ClearAfterSet(disk[j], q);
      assert Bits(disk1)[g];
      var (st, disk2) := DeallocateSpec(disk1, g);
      assert st == Done;
      assert disk2 == disk1[j := ClearBit(disk1[j], q)];
      assert disk2 == disk;
    }

    /** A second free of the same block is rejected. */
    lemma DoubleFree(disk: seq<seq<u8>>, id: nat)
      requires Fits(disk) && DeallocateSpec(disk, id).0.Done?
      ensures DeallocateSpec(DeallocateSpec(disk, id).1, id) == (Fail(InvalidArg), DeallocateSpec(disk, id).1)
    {
      DeallocateClearsBit(disk, id);
    }

    /** The scan of the last bitmap block stops at a whole byte: when allocation
        runs out, the blocks still counted free are exactly the clear bits the
        scan skipped, fewer than eight. */
    lemma {:induction false} OutOfResourceLeavesTail(disk: seq<seq<u8>>)
      requires Fits(disk) && AllocateSpec(disk).0.Err?
      ensures FreeCount(disk) == CountFalseIn(Bits(disk), ScanLimit(), bm.totalBlocks)
      ensures FreeCount(disk) < BitsPerByte
    {
      ScanLimitFacts();
      AllocateIsFirstFit(disk);
      CountFalseSplit(Bits(disk), 0, ScanLimit(), bm.totalBlocks);
      CountFalseAllSet(Bits(disk), 0, ScanLimit());
    }
  }
}
