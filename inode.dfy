/** The inode record: a type, four attributes and nblocks block-id slots,
    stored in one block. Slots 0 .. nblocks-2 are direct pointers; the last
    slot holds the indirect block, whose words extend the file's block list. */
module Inodes {
  import opened Common
  import opened Codec
  import opened BlockStore

  datatype InodeType = File | Directory

  datatype FileAttr = FileAttr(atime: u64, mtime: u64, ctime: u64, size: u64)

  datatype Inode = Inode(kind: InodeType, attr: FileAttr, blocks: seq<u64>)

  /** Words before the slots: type, atime, mtime, ctime, size, nblocks. */
  const HeaderWords: nat := 6

  /** Slots of a fresh record: the words of a block after the header. */
  function SlotCount(blockSize: nat): nat
    requires WordSize * HeaderWords <= blockSize
  {
    blockSize / WordSize - HeaderWords
  }

  function TypeCode(t: InodeType): u64 {
    match t
    case File => 1
    case Directory => 2
  }

  function TypeOf(w: u64): InodeType {
    if w == 2 then Directory else File
  }

  /** The record fits a block of blockSize bytes. */
  predicate RecordFits(ino: Inode, blockSize: nat) {
    && blockSize % WordSize == 0 && blockSize < 0x1_0000_0000_0000_0000
    && HeaderWords + |ino.blocks| <= blockSize / WordSize
  }

  /** The record as words: six header words (type, the three times, size,
      slot count), the slots, then zero padding up to the block's width. */
  function InodeWords(ino: Inode, blockSize: nat): (ws: seq<u64>)
    requires RecordFits(ino, blockSize)
    ensures |ws| == blockSize / WordSize
    ensures && ws[0] == TypeCode(ino.kind) && ws[1] == ino.attr.atime && ws[2] == ino.attr.mtime
            && ws[3] == ino.attr.ctime && ws[4] == ino.attr.size && ws[5] as nat == |ino.blocks|
    ensures ws[HeaderWords..HeaderWords + |ino.blocks|] == ino.blocks
    ensures forall i :: HeaderWords + |ino.blocks| <= i < |ws| ==> ws[i] == 0
  {
    var header := [TypeCode(ino.kind), ino.attr.atime, ino.attr.mtime, ino.attr.ctime,
                   ino.attr.size, |ino.blocks| as u64];
    var padding := seq(blockSize / WordSize - HeaderWords - |ino.blocks|, _ => 0 as u64);
    assert (header + ino.blocks + padding)[HeaderWords..HeaderWords + |ino.blocks|] == ino.blocks;
    header + ino.blocks + padding
  }

  /** The record as one block: its words, encoded. */
  function EncodeInode(ino: Inode, blockSize: nat): (b: seq<u8>)
    requires RecordFits(ino, blockSize)
    ensures |b| == blockSize
  {
    EncodeWords(InodeWords(ino, blockSize))
  }

  /** The record held by a block; a slot count larger than the block can
      hold is cut to the slots present. */
  function DecodeInode(b: seq<u8>): (ino: Inode)
    requires WordSize * HeaderWords <= |b|
    ensures HeaderWords + |ino.blocks| <= |b| / WordSize
  {
    var ws := Words(b);
    var n := Min(ws[5], |ws| - HeaderWords);
    Inode(TypeOf(ws[0]), FileAttr(ws[1], ws[2], ws[3], ws[4]), ws[HeaderWords..HeaderWords + n])
  }

  /** A record written to a block reads back unchanged. */
  lemma DecodeEncodeInode(ino: Inode, blockSize: nat)
    requires RecordFits(ino, blockSize)
    ensures DecodeInode(EncodeInode(ino, blockSize)) == ino
  {
    var ws := InodeWords(ino, blockSize);
    WordsOfEncodeWords(ws);
    assert Min(ws[5], |ws| - HeaderWords) == |ino.blocks|;
    assert TypeOf(ws[0]) == ino.kind;
  }

  /** A record block after the file layer has edited, in the buffer raw it
      read, the record raw holds: the four attribute words and the listed
      slots carry ino's values, while the type word, the slot count and
      every word past the listed slots keep what raw holds. */
  function PatchInode(raw: seq<u8>, ino: Inode): (b: seq<u8>)
    requires |raw| % WordSize == 0 && HeaderWords + |ino.blocks| <= |raw| / WordSize
    ensures |b| == |raw|
  {
    var ws := Words(raw);
    EncodeWords([ws[0], ino.attr.atime, ino.attr.mtime, ino.attr.ctime, ino.attr.size, ws[5]]
                + ino.blocks + ws[HeaderWords + |ino.blocks|..])
  }

  /** Word by word: the type word and the slot count are raw's, the
      attribute words and the listed slots are ino's, the rest is raw's. */
  lemma PatchInodeWords(raw: seq<u8>, ino: Inode)
    requires |raw| % WordSize == 0 && HeaderWords + |ino.blocks| <= |raw| / WordSize
    ensures var ws, ws' := Words(raw), Words(PatchInode(raw, ino));
            && |ws'| == |ws|
            && ws'[0] == ws[0] && ws'[5] == ws[5]
            && ws'[1] == ino.attr.atime && ws'[2] == ino.attr.mtime
            && ws'[3] == ino.attr.ctime && ws'[4] == ino.attr.size
            && ws'[HeaderWords..HeaderWords + |ino.blocks|] == ino.blocks
            && forall i :: HeaderWords + |ino.blocks| <= i < |ws| ==> ws'[i] == ws[i]
  {
    var ws := Words(raw);
    var n := |ino.blocks|;
    var header := [ws[0], ino.attr.atime, ino.attr.mtime, ino.attr.ctime, ino.attr.size, ws[5]];
    var edited := header + ino.blocks + ws[HeaderWords + n..];
    WordsOfEncodeWords(edited);
    assert edited[HeaderWords..HeaderWords + n] == ino.blocks;
  }

  /** The edited record reads back as ino, when ino keeps the type and the
      slot count of the record raw holds. */
  lemma DecodePatchInode(raw: seq<u8>, ino: Inode)
    requires |raw| % WordSize == 0 && WordSize * HeaderWords <= |raw|
    requires ino.kind == DecodeInode(raw).kind && |ino.blocks| == |DecodeInode(raw).blocks|
    ensures DecodeInode(PatchInode(raw, ino)) == ino
  {
    PatchInodeWords(raw, ino);
  }

  /** Writing back the record raw holds, unedited, gives raw itself. */
  lemma PatchUnedited(raw: seq<u8>)
    requires |raw| % WordSize == 0 && WordSize * HeaderWords <= |raw|
    ensures PatchInode(raw, DecodeInode(raw)) == raw
  {
    var ino := DecodeInode(raw);
    var ws := Words(raw);
    var n := |ino.blocks|;
    var header := [ws[0], ino.attr.atime, ino.attr.mtime, ino.attr.ctime, ino.attr.size, ws[5]];
    assert header == ws[..HeaderWords];
    assert ino.blocks == ws[HeaderWords..HeaderWords + n];
    assert header + ino.blocks + ws[HeaderWords + n..] == ws;
    EncodeWordsOfWords(raw);
  }

  /** A fresh record of the given type: every slot is the "no block"
      sentinel, the size is zero and the three times are the creation time. */
  function NewInode(kind: InodeType, blockSize: nat, now: u64): (ino: Inode)
    requires blockSize % WordSize == 0 && WordSize * HeaderWords < blockSize < 0x1_0000_0000_0000_0000
    ensures RecordFits(ino, blockSize) && |ino.blocks| == SlotCount(blockSize) >= 1
    ensures ino.kind == kind && ino.attr == FileAttr(now, now, now, 0)
    ensures forall i :: 0 <= i < |ino.blocks| ==> ino.blocks[i] == InvalidBlockId
  {
    Inode(kind, FileAttr(now, now, now, 0), seq(SlotCount(blockSize), _ => InvalidBlockId as u64))
  }

  // ---------------------------------------------------------------------
  // Slot accessors (declared with the record type; their use in the file
  // operations fixes their meaning).

  /** Number of direct slots: all but the last. */
  function DirectBlockNum(ino: Inode): nat
    requires |ino.blocks| >= 1
  {
    |ino.blocks| - 1
  }

  /** File block idx is held in a direct slot. */
  predicate IsDirectBlock(ino: Inode, idx: nat) {
    idx + 1 < |ino.blocks|
  }

  /** The indirect pointer: the last slot. */
  function IndirectBlockId(ino: Inode): u64
    requires |ino.blocks| >= 1
  {
    ino.blocks[|ino.blocks| - 1]
  }

  /** Largest file size: direct slots plus one indirect block of entries, in bytes. */
  function MaxFileSize(ino: Inode, blockSize: nat): nat
    requires |ino.blocks| >= 1
  {
    Mul(DirectBlockNum(ino) + blockSize / WordSize, blockSize)
  }

  function SetSlot(ino: Inode, i: nat, b: u64): (ino': Inode)
    requires i < |ino.blocks|
  {
    ino.(blocks := ino.blocks[i := b])
  }

  /** The indirect slot reset to the sentinel. */
  function InvalidateIndirect(ino: Inode): (ino': Inode)
    requires |ino.blocks| >= 1
  {
    SetSlot(ino, |ino.blocks| - 1, InvalidBlockId)
  }

  // ---------------------------------------------------------------------
  // Slot iteration

  /** Position of the first slot. */
  function Begin(ino: Inode): nat {
    0
  }

  /** Position one past the last slot. */
  function End(ino: Inode): nat {
    |ino.blocks|
  }

  /** The slots an iterator visits going from position i to End. */
  function SlotsFrom(ino: Inode, i: nat): seq<u64>
    requires i <= End(ino)
    decreases End(ino) - i
  {
    if i == End(ino) then [] else [ino.blocks[i]] + SlotsFrom(ino, i + 1)
  }

  lemma {:induction false} SlotsFromSuffix(ino: Inode, i: nat)
    requires i <= End(ino)
    ensures SlotsFrom(ino, i) == ino.blocks[i..]
    decreases End(ino) - i
  {
    if i < End(ino) {
      SlotsFromSuffix(ino, i + 1);
    }
  }

  /** Iterating from Begin to End visits every slot once, in order, ending
      with the indirect pointer. */
  lemma {:induction false} SlotRange(ino: Inode)
    requires |ino.blocks| >= 1
    ensures SlotsFrom(ino, Begin(ino)) == ino.blocks
    ensures SlotsFrom(ino, Begin(ino))[End(ino) - 1] == IndirectBlockId(ino)
  {
    SlotsFromSuffix(ino, 0);
  }

  // ---------------------------------------------------------------------

  /** Writes buffer to the record's indirect block. A record whose indirect
      slot is the sentinel is rejected without a write; otherwise the result
      is the block store's. The record itself is a value and is not changed. */
  method WriteIndirectBlock(bm: BlockManager, ino: Inode, buffer: seq<u8>) returns (r: Status)
    requires bm.Valid() && |ino.blocks| >= 1 && |buffer| == bm.blockSize
    modifies bm
    ensures bm.Valid()
    ensures IndirectBlockId(ino) == InvalidBlockId ==> r == Fail(InvalidArg) && bm.blocks == old(bm.blocks)
    ensures IndirectBlockId(ino) != InvalidBlockId && IndirectBlockId(ino) < bm.totalBlocks ==>
              r == Done && bm.blocks == old(bm.blocks)[IndirectBlockId(ino) := buffer]
    ensures IndirectBlockId(ino) >= bm.totalBlocks ==> r == Fail(InvalidArg) && bm.blocks == old(bm.blocks)
  {
    if ino.blocks[|ino.blocks| - 1] == InvalidBlockId {
      return Fail(InvalidArg);
    }
    r := bm.WriteBlock(ino.blocks[|ino.blocks| - 1], buffer);
  }
}
