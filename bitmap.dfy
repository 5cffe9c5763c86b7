/** Bitmaps over block bytes. A block's bytes are read as a packed bit array,
    least significant bit first within each byte; a bitmap region is a run of
    consecutive blocks read as one long bit array. */
module Bitmaps {
  import opened Common

  /** The n low-order bits of v, least significant first. */
  function BitsOfValue(v: nat, n: nat): (s: seq<bool>)
    ensures |s| == n
  {
    if n == 0 then [] else [v % 2 == 1] + BitsOfValue(v / 2, n - 1)
  }

  /** The number whose bits, least significant first, are s. */
  function ValueOfBits(s: seq<bool>): nat {
    if s == [] then 0 else (if s[0] then 1 else 0) + 2 * ValueOfBits(s[1..])
  }

  function Pow2(n: nat): (p: nat)
    ensures p > 0
  {
    if n == 0 then 1 else 2 * Pow2(n - 1)
  }

  lemma {:induction false} ValueOfBitsBound(s: seq<bool>)
    ensures ValueOfBits(s) < Pow2(|s|)
  {
    if s != [] {
      ValueOfBitsBound(s[1..]);
    }
  }

  lemma {:induction false} BitsOfValueOfBits(s: seq<bool>)
    ensures BitsOfValue(ValueOfBits(s), |s|) == s
  {
    if s != [] {
      var x := ValueOfBits(s);
      assert x % 2 == (if s[0] then 1 else 0) && x / 2 == ValueOfBits(s[1..]);
      BitsOfValueOfBits(s[1..]);
      assert BitsOfValue(x, |s|) == [s[0]] + s[1..];
    }
  }

  lemma {:induction false} ValueOfBitsOfValue(v: nat, n: nat)
    requires v < Pow2(n)
    ensures ValueOfBits(BitsOfValue(v, n)) == v
  {
    if n > 0 {
      assert BitsOfValue(v, n)[1..] == BitsOfValue(v / 2, n - 1);
      ValueOfBitsOfValue(v / 2, n - 1);
    }
  }

  /** Setting a clear bit k adds 2^k; clearing a set bit subtracts it. */
  lemma {:induction false} ValueOfBitsUpdate(s: seq<bool>, k: nat, x: bool)
    requires k < |s|
    ensures ValueOfBits(s[k := x]) == ValueOfBits(s) + (if x then Pow2(k) else 0) - (if s[k] then Pow2(k) else 0)
  {
    if k > 0 {
      assert s[k := x][1..] == s[1..][k - 1 := x];
      ValueOfBitsUpdate(s[1..], k - 1, x);
    }
  }

  /** Digit k of v in base 2 (digit 0 is the least significant). */
  predicate Digit(v: nat, k: nat)
    decreases k
  {
    if k == 0 then v % 2 == 1 else Digit(v / 2, k - 1)
  }

  /** Every binary digit of 0 is 0. */
  lemma {:induction false} DigitOfZero(k: nat)
    ensures !Digit(0, k)
  {
    if k > 0 {
      DigitOfZero(k - 1);
    }
  }

  /** The n low-order bits of v are its first n binary digits. */
  lemma {:induction false} BitsOfValueDigits(v: nat, n: nat)
    ensures forall k :: 0 <= k < n ==> BitsOfValue(v, n)[k] == Digit(v, k)
  {
    if n > 0 {
      BitsOfValueDigits(v / 2, n - 1);
    }
  }

  /** Bit k of byte v (bit 0 is the least significant). */
  predicate ByteBit(v: u8, k: nat)
    requires k < 8
  {
    Digit(v, k)
  }

  /** The byte whose bits are v's with bit k made x. */
  lemma UpdatedByte(v: u8, k: nat, x: bool)
    requires k < 8
    ensures var v' := ValueOfBits(BitsOfValue(v, 8)[k := x]);
      && v' == v + (if x then Pow2(k) else 0) - (if ByteBit(v, k) then Pow2(k) else 0)
      && v' < 256
      && forall j :: 0 <= j < 8 ==> ByteBit(v', j) == if j == k then x else ByteBit(v, j)
  {
    var s := BitsOfValue(v, 8);
    BitsOfValueDigits(v, 8);
    BitsOfValueDigits(ValueOfBits(s[k := x]), 8);
    ValueOfBitsOfValue(v, 8);
    ValueOfBitsUpdate(s, k, x);
    ValueOfBitsBound(s[k := x]);
    BitsOfValueOfBits(s[k := x]);
    assert Pow2(8) == 256;
  }

  /** v with bit k made x and its other bits as they were. */
  function WithByteBit(v: u8, k: nat, x: bool): (v': u8)
    requires k < 8
    ensures forall j :: 0 <= j < 8 ==> ByteBit(v', j) == if j == k then x else ByteBit(v, j)
  {
    UpdatedByte(v, k, x);
    if ByteBit(v, k) == x then v else if x then v + Pow2(k) else v - Pow2(k)
  }

  /** Bit p of a block. */
  predicate BitAt(b: seq<u8>, p: nat)
    requires p < 8 * |b|
  {
    ByteBit(b[p / 8], p % 8)
  }

  /** All bits of a block, in order. */
  function BitsOf(b: seq<u8>): (s: seq<bool>)
    ensures |s| == 8 * |b|
    ensures forall p :: 0 <= p < |s| ==> s[p] == BitAt(b, p)
  {
    seq(8 * |b|, p requires 0 <= p < 8 * |b| => BitAt(b, p))
  }

  /** The block with bit p set and every other bit as it was. */
  function SetBit(b: seq<u8>, p: nat): (b': seq<u8>)
    requires p < 8 * |b|
    ensures |b'| == |b|
    ensures forall q :: 0 <= q < 8 * |b| ==> BitAt(b', q) == (q == p || BitAt(b, q))
  {
    var b' := b[p / 8 := WithByteBit(b[p / 8], p % 8, true)];
    b'
  }

  /** The block with bit p cleared and every other bit as it was. */
  function ClearBit(b: seq<u8>, p: nat): (b': seq<u8>)
    requires p < 8 * |b|
    ensures |b'| == |b|
    ensures forall q :: 0 <= q < 8 * |b| ==> BitAt(b', q) == (q != p && BitAt(b, q))
  {
    var b' := b[p / 8 := WithByteBit(b[p / 8], p % 8, false)];
    b'
  }

  /** The first m bytes of a block carry its first 8*m bits. */
  lemma BitsOfPrefix(b: seq<u8>, m: nat)
    requires m <= |b|
    ensures forall g :: 0 <= g < 8 * m ==> BitsOf(b[..m])[g] == BitsOf(b)[g]
  {
    forall g | 0 <= g < 8 * m ensures BitsOf(b[..m])[g] == BitsOf(b)[g] {
      assert b[..m][g / 8] == b[g / 8];
    }
  }

  /** Two blocks of equal length with the same bits are the same bytes. */
  lemma {:induction false} SameBitsSameBytes(a: seq<u8>, b: seq<u8>)
    requires |a| == |b|
    requires forall p :: 0 <= p < 8 * |a| ==> BitAt(a, p) == BitAt(b, p)
    ensures a == b
  {
    forall i | 0 <= i < |a| ensures a[i] == b[i] {
      forall k | 0 <= k < 8 ensures ByteBit(a[i], k) == ByteBit(b[i], k) {
        var p := 8 * i + k;
        assert p / 8 == i && p % 8 == k;
        assert BitAt(a, p) == BitAt(b, p);
      }
      SameByteBits(a[i], b[i]);
    }
  }

  lemma SameByteBits(x: u8, y: u8)
    requires forall k :: 0 <= k < 8 ==> ByteBit(x, k) == ByteBit(y, k)
    ensures x == y
  {
    var sx, sy := BitsOfValue(x, 8), BitsOfValue(y, 8);
    BitsOfValueDigits(x, 8);
    BitsOfValueDigits(y, 8);
    forall k | 0 <= k < 8 ensures sx[k] == sy[k] {
      assert ByteBit(x, k) == ByteBit(y, k);
    }
    assert sx == sy;
    ValueOfBitsOfValue(x, 8);
    ValueOfBitsOfValue(y, 8);
  }

  /** Clearing a bit that was just set gives back the original block:
      the byte-level half of "allocate then deallocate restores the bitmap". */
  lemma ClearAfterSet(b: seq<u8>, p: nat)
    requires p < 8 * |b| && !BitAt(b, p)
    ensures ClearBit(SetBit(b, p), p) == b
  {
    SameBitsSameBytes(ClearBit(SetBit(b, p), p), b);
  }

  /** Setting a bit that was just cleared gives back the original block. */
  lemma SetAfterClear(b: seq<u8>, p: nat)
    requires p < 8 * |b| && BitAt(b, p)
    ensures SetBit(ClearBit(b, p), p) == b
  {
    SameBitsSameBytes(SetBit(ClearBit(b, p), p), b);
  }

  /** A zeroed block has no bit set. */
  lemma ZeroedHasNoBit(n: nat)
    ensures forall p :: 0 <= p < 8 * n ==> !BitAt(Zeros(n), p)
  {
    forall p | 0 <= p < 8 * n ensures !BitAt(Zeros(n), p) {
      assert Zeros(n)[p / 8] == 0;
      DigitOfZero(p % 8);
    }
  }

  /** Clear bits among positions [lo, hi) (Bitmap::count_zeros_to_bound
      when lo is 0). */
  function CountFalseIn(s: seq<bool>, lo: nat, hi: nat): (n: nat)
    requires lo <= hi <= |s|
    ensures n <= hi - lo
    decreases hi - lo
  {
    if lo == hi then 0 else (if s[lo] then 0 else 1) + CountFalseIn(s, lo + 1, hi)
  }

  /** Clear bits of the whole sequence (Bitmap::count_zeros). */
  function CountFalse(s: seq<bool>): (n: nat)
    ensures n <= |s|
  {
    CountFalseIn(s, 0, |s|)
  }

  /** Counting [lo, hi) is counting [lo, mid) and then [mid, hi). */
  lemma {:induction false} CountFalseSplit(s: seq<bool>, lo: nat, mid: nat, hi: nat)
    requires lo <= mid <= hi <= |s|
    ensures CountFalseIn(s, lo, hi) == CountFalseIn(s, lo, mid) + CountFalseIn(s, mid, hi)
    decreases mid - lo
  {
    if lo < mid {
      CountFalseSplit(s, lo + 1, mid, hi);
    }
  }

  /** Positions [lo + k, lo + m) of s hold the bits [k, m) of t: they count the same. */
  lemma {:induction false} CountFalseShift(s: seq<bool>, lo: nat, t: seq<bool>, k: nat, m: nat)
    requires k <= m <= |t| && lo + m <= |s|
    requires forall g :: lo <= g < lo + m ==> s[g] == t[g - lo]
    ensures CountFalseIn(s, lo + k, lo + m) == CountFalseIn(t, k, m)
    decreases m - k
  {
    if k < m {
      assert s[lo + k] == t[k];
      CountFalseShift(s, lo, t, k + 1, m);
    }
  }

  /** Counting the first lo + m positions of s, where [lo, lo + m) holds
      the first m bits of t, adds t's count to the count below lo. */
  lemma CountFalseBlock(s: seq<bool>, lo: nat, t: seq<bool>, m: nat)
    requires lo + m <= |s| && m <= |t|
    requires forall g :: lo <= g < lo + m ==> s[g] == t[g - lo]
    ensures CountFalseIn(s, 0, lo + m) == CountFalseIn(s, 0, lo) + CountFalseIn(t, 0, m)
  {
    CountFalseSplit(s, 0, lo, lo + m);
    CountFalseShift(s, lo, t, 0, m);
  }

  /** A range with every bit set has no clear bit. */
  lemma {:induction false} CountFalseAllSet(s: seq<bool>, lo: nat, hi: nat)
    requires lo <= hi <= |s| && forall b :: lo <= b < hi ==> s[b]
    ensures CountFalseIn(s, lo, hi) == 0
    decreases hi - lo
  {
    if lo < hi {
      CountFalseAllSet(s, lo + 1, hi);
    }
  }

  /** A range with every bit clear counts each of them. */
  lemma {:induction false} CountFalseAllClear(s: seq<bool>, lo: nat, hi: nat)
    requires lo <= hi <= |s| && forall b :: lo <= b < hi ==> !s[b]
    ensures CountFalseIn(s, lo, hi) == hi - lo
    decreases hi - lo
  {
    if lo < hi {
      CountFalseAllClear(s, lo + 1, hi);
    }
  }

  /** Making bit i x changes the count of a range holding i by the change of that one bit. */
  lemma {:induction false} CountFalseUpdate(s: seq<bool>, i: nat, x: bool, lo: nat, hi: nat)
    requires lo <= i < hi <= |s|
    ensures CountFalseIn(s[i := x], lo, hi) + (if s[i] then 0 else 1) == CountFalseIn(s, lo, hi) + (if x then 0 else 1)
    decreases hi - lo
  {
    if lo < i {
      CountFalseUpdate(s, i, x, lo + 1, hi);
    } else {
      CountFalseUnchanged(s, i, x, lo + 1, hi);
    }
  }

  /** A range not holding bit i counts the same after bit i changes. */
  lemma {:induction false} CountFalseUnchanged(s: seq<bool>, i: nat, x: bool, lo: nat, hi: nat)
    requires i < lo <= hi <= |s|
    ensures CountFalseIn(s[i := x], lo, hi) == CountFalseIn(s, lo, hi)
    decreases hi - lo
  {
    if lo < hi {
      CountFalseUnchanged(s, i, x, lo + 1, hi);
    }
  }

  /** Setting a clear bit removes exactly one clear bit. */
  lemma CountFalseSet(s: seq<bool>, i: nat)
    requires i < |s| && !s[i]
    ensures CountFalse(s[i := true]) == CountFalse(s) - 1
  {
    CountFalseUpdate(s, i, true, 0, |s|);
  }

  /** Clearing a set bit adds exactly one clear bit. */
  lemma CountFalseClear(s: seq<bool>, i: nat)
    requires i < |s| && s[i]
    ensures CountFalse(s[i := false]) == CountFalse(s) + 1
  {
    CountFalseUpdate(s, i, false, 0, |s|);
  }

  /** No bit is clear exactly when every bit is set. */
  lemma CountFalseZero(s: seq<bool>)
    ensures CountFalse(s) == 0 <==> forall b :: 0 <= b < |s| ==> s[b]
  {
    match FirstFalseIn(s, 0, |s|)
    case None =>
      CountFalseAllSet(s, 0, |s|);
    case Some(g) =>
      CountFalseSplit(s, 0, g, |s|);
  }

  /** Exactly the first m bits set leaves the rest clear. */
  lemma CountFalseOfPrefixSet(s: seq<bool>, m: nat)
    requires m <= |s|
    requires forall i :: 0 <= i < |s| ==> s[i] == (i < m)
    ensures CountFalse(s) == |s| - m
  {
    CountFalseSplit(s, 0, m, |s|);
    CountFalseAllSet(s, 0, m);
    CountFalseAllClear(s, m, |s|);
  }

  /** The first clear bit in positions [lo, hi) (Bitmap::find_first_free
      when lo is 0). */
  function FirstFalseIn(s: seq<bool>, lo: nat, hi: nat): (r: Option<nat>)
    requires lo <= hi <= |s|
    ensures r.Some? ==> lo <= r.value < hi && !s[r.value]
    ensures r.Some? ==> forall j :: lo <= j < r.value ==> s[j]
    ensures r.None? ==> forall j :: lo <= j < hi ==> s[j]
    decreases hi - lo
  {
    if lo == hi then None
    else if !s[lo] then Some(lo)
    else FirstFalseIn(s, lo + 1, hi)
  }

  /** The first clear bit of the whole sequence. */
  function FirstFalse(s: seq<bool>): (r: Option<nat>) {
    FirstFalseIn(s, 0, |s|)
  }

  /** The first clear bit is determined by being clear with every earlier bit set. */
  lemma {:induction false} FirstFalseUnique(s: seq<bool>, lo: nat, hi: nat, j: nat)
    requires lo <= j < hi <= |s| && !s[j] && forall k :: lo <= k < j ==> s[k]
    ensures FirstFalseIn(s, lo, hi) == Some(j)
    decreases j - lo
  {
    if lo < j {
      FirstFalseUnique(s, lo + 1, hi, j);
    }
  }

  /** Sequences agreeing on [lo, hi) have the same first clear bit there. */
  lemma {:induction false} FirstFalseAgree(s: seq<bool>, t: seq<bool>, lo: nat, hi: nat)
    requires lo <= hi <= |s| && hi <= |t|
    requires forall g :: lo <= g < hi ==> s[g] == t[g]
    ensures FirstFalseIn(s, lo, hi) == FirstFalseIn(t, lo, hi)
    decreases hi - lo
  {
    if lo < hi {
      FirstFalseAgree(s, t, lo + 1, hi);
    }
  }

  /** Positions [lo, lo + m) of s hold the bits [0, m) of t, every bit
      before lo is set and p is t's first clear bit: lo + p is the first
      clear bit of s below any limit past lo + m. */
  lemma {:induction false} FirstFalseShift(s: seq<bool>, lo: nat, t: seq<bool>, m: nat, limit: nat, p: nat)
    requires lo + m <= limit <= |s| && m <= |t|
    requires forall g :: lo <= g < lo + m ==> s[g] == t[g - lo]
    requires forall b :: 0 <= b < lo ==> s[b]
    requires FirstFalseIn(t, 0, m) == Some(p)
    ensures FirstFalseIn(s, 0, limit) == Some(lo + p)
  {
    assert s[lo + p] == t[p];
    forall b | lo <= b < lo + p ensures s[b] {
      assert s[b] == t[b - lo];
    }
    FirstFalseUnique(s, 0, limit, lo + p);
  }

  /** Positions [lo, lo + m) of s hold the bits [0, m) of t, every bit
      before lo is set and t has no clear bit: every bit before lo + m is set. */
  lemma {:induction false} AllSetShift(s: seq<bool>, lo: nat, t: seq<bool>, m: nat)
    requires lo + m <= |s| && m <= |t|
    requires forall g :: lo <= g < lo + m ==> s[g] == t[g - lo]
    requires forall b :: 0 <= b < lo ==> s[b]
    requires FirstFalseIn(t, 0, m).None?
    ensures forall b :: 0 <= b < lo + m ==> s[b]
  {
    forall b | lo <= b < lo + m ensures s[b] {
      assert s[b] == t[b - lo];
    }
  }

  // ---------------------------------------------------------------------
  // Bitmap regions

  /** `count` consecutive bitmap blocks starting at block `base`, each of `blockSize` bytes. */
  datatype Region = Region(base: nat, count: nat, blockSize: nat) {
    function BitsPerBlock(): nat { 8 * blockSize }
    function Capacity(): nat { Mul(count, BitsPerBlock()) }
    function End(): nat { base + count }

    /** The region block (counted from `base`) holding global bit b. */
    function BlockOf(b: nat): (i: nat)
      requires blockSize > 0 && b < Capacity()
      ensures i < count
    {
      QuotientBelow(b, BitsPerBlock(), count);
      Quotient(b, BitsPerBlock())
    }

    /** The position of global bit b inside its block. */
    function OffsetOf(b: nat): (q: nat)
      requires blockSize > 0
      ensures q < BitsPerBlock()
    {
      Remainder(b, BitsPerBlock())
    }
  }

  /** The region's blocks exist on the disk and have the region's block size. */
  ghost predicate RegionFits(disk: seq<seq<u8>>, r: Region) {
    && r.blockSize > 0
    && r.End() <= |disk|
    && forall j :: r.base <= j < r.End() ==> |disk[j]| == r.blockSize
  }

  /** Global bit b of a region. */
  ghost predicate RegionBit(disk: seq<seq<u8>>, r: Region, b: nat)
    requires RegionFits(disk, r) && b < r.Capacity()
  {
    BitAt(disk[r.base + r.BlockOf(b)], r.OffsetOf(b))
  }

  /** The first n global bits of a region. */
  ghost function RegionBits(disk: seq<seq<u8>>, r: Region, n: nat): (s: seq<bool>)
    requires RegionFits(disk, r) && n <= r.Capacity()
    ensures |s| == n
  {
    seq(n, b requires 0 <= b < n => RegionBit(disk, r, b))
  }

  /** RegionBits is determined by the region bits it lists. */
  lemma RegionBitsEqual(disk: seq<seq<u8>>, r: Region, n: nat, s: seq<bool>)
    requires RegionFits(disk, r) && n <= r.Capacity() && |s| == n
    requires forall b :: 0 <= b < n ==> RegionBit(disk, r, b) == s[b]
    ensures RegionBits(disk, r, n) == s
  {
  }

  /** Bits with the same block and offset are the same bit. */
  lemma SameBlockAndOffset(r: Region, b: nat, c: nat)
    requires r.blockSize > 0 && b < r.Capacity() && c < r.Capacity()
    requires r.BlockOf(b) == r.BlockOf(c) && r.OffsetOf(b) == r.OffsetOf(c)
    ensures b == c
  {
    QuotientRemainder(b, r.BitsPerBlock());
    QuotientRemainder(c, r.BitsPerBlock());
  }

  /** Global bit i*bitsPerBlock + q is bit q of region block i. */
  lemma {:induction false} BlockAndOffsetOf(r: Region, i: nat, q: nat)
    requires r.blockSize > 0 && i < r.count && q < r.BitsPerBlock()
    ensures Mul(i, r.BitsPerBlock()) + q < r.Capacity()
    ensures r.BlockOf(Mul(i, r.BitsPerBlock()) + q) == i && r.OffsetOf(Mul(i, r.BitsPerBlock()) + q) == q
  {
    MulMonotone(i + 1, r.count, r.BitsPerBlock());
    QuotientRemainderOf(i, q, r.BitsPerBlock());
  }

  /** Writing the block that holds global bit b with that bit set sets exactly bit b of the region. */
  lemma RegionSetBit(disk: seq<seq<u8>>, r: Region, b: nat, n: nat)
    requires RegionFits(disk, r) && b < n <= r.Capacity()
    ensures var j := r.base + r.BlockOf(b);
            var disk' := disk[j := SetBit(disk[j], r.OffsetOf(b))];
            RegionFits(disk', r) && RegionBits(disk', r, n) == RegionBits(disk, r, n)[b := true]
  {
    var j := r.base + r.BlockOf(b);
    var disk' := disk[j := SetBit(disk[j], r.OffsetOf(b))];
    var s := RegionBits(disk, r, n)[b := true];
    forall c | 0 <= c < n ensures RegionBit(disk', r, c) == s[c] {
      if r.BlockOf(c) == r.BlockOf(b) && r.OffsetOf(c) == r.OffsetOf(b) {
        SameBlockAndOffset(r, b, c);
      }
    }
    RegionBitsEqual(disk', r, n, s);
  }

  /** Writing the block that holds global bit b with that bit cleared clears exactly bit b of the region. */
  lemma RegionClearBit(disk: seq<seq<u8>>, r: Region, b: nat, n: nat)
    requires RegionFits(disk, r) && b < n <= r.Capacity()
    ensures var j := r.base + r.BlockOf(b);
            var disk' := disk[j := ClearBit(disk[j], r.OffsetOf(b))];
            RegionFits(disk', r) && RegionBits(disk', r, n) == RegionBits(disk, r, n)[b := false]
  {
    var j := r.base + r.BlockOf(b);
    var disk' := disk[j := ClearBit(disk[j], r.OffsetOf(b))];
    var s := RegionBits(disk, r, n)[b := false];
    forall c | 0 <= c < n ensures RegionBit(disk', r, c) == s[c] {
      if r.BlockOf(c) == r.BlockOf(b) && r.OffsetOf(c) == r.OffsetOf(b) {
        SameBlockAndOffset(r, b, c);
      }
    }
    RegionBitsEqual(disk', r, n, s);
  }

  /** The global bits i*bitsPerBlock + q, q < m, are the first m bits of region block i. */
  lemma {:induction false} RegionBlockBits(disk: seq<seq<u8>>, r: Region, i: nat, m: nat, n: nat)
    requires RegionFits(disk, r) && i < r.count && m <= r.BitsPerBlock()
    requires n <= r.Capacity() && Mul(i, r.BitsPerBlock()) + m <= n
    ensures forall g :: Mul(i, r.BitsPerBlock()) <= g < Mul(i, r.BitsPerBlock()) + m ==>
              RegionBits(disk, r, n)[g] == BitsOf(disk[r.base + i])[g - Mul(i, r.BitsPerBlock())]
  {
    var lo := Mul(i, r.BitsPerBlock());
    forall g | lo <= g < lo + m
      ensures RegionBits(disk, r, n)[g] == BitsOf(disk[r.base + i])[g - lo]
    {
      BlockAndOffsetOf(r, i, g - lo);
    }
  }

  /** Region bits depend only on the region's blocks. */
  lemma RegionBitsFrame(disk: seq<seq<u8>>, disk': seq<seq<u8>>, r: Region, n: nat)
    requires RegionFits(disk, r) && n <= r.Capacity() && |disk'| == |disk|
    requires forall j :: r.base <= j < r.End() ==> disk'[j] == disk[j]
    ensures RegionFits(disk', r) && RegionBits(disk', r, n) == RegionBits(disk, r, n)
  {
    RegionBitsEqual(disk', r, n, RegionBits(disk, r, n));
  }
}
