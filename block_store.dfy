/** The block store the core runs on: a fixed number of fixed-size blocks
    with whole-block reads and writes, partial writes and zero-fill. Its own
    implementation is not part of this model; these methods state the
    contract the core relies on. */
module BlockStore {
  import opened Common

  /** A disk image: totalBlocks blocks of blockSize bytes each. */
  ghost predicate DiskShape(disk: seq<seq<u8>>, blockSize: nat, totalBlocks: nat) {
    && |disk| == totalBlocks
    && forall j :: 0 <= j < |disk| ==> |disk[j]| == blockSize
  }

  /** b with the bytes [offset, offset + |data|) replaced by data. */
  function Overwrite(b: seq<u8>, offset: nat, data: seq<u8>): (b': seq<u8>)
    requires offset + |data| <= |b|
    ensures |b'| == |b| && b'[offset..offset + |data|] == data
    ensures forall k :: 0 <= k < |b| && !(offset <= k < offset + |data|) ==> b'[k] == b[k]
  {
    b[..offset] + data + b[offset + |data|..]
  }

  class BlockManager {
    var blocks: seq<seq<u8>>
    const blockSize: nat
    const totalBlocks: nat

    /** Block sizes are whole words and large enough for an inode record
        with at least one direct slot; sizes and block ids fit in 64 bits. */
    predicate GoodGeometry() {
      && blockSize >= 64 && blockSize % WordSize == 0
      && blockSize < 0x1_0000_0000_0000_0000
      && totalBlocks < 0x1_0000_0000_0000_0000
    }

    ghost predicate Valid()
      reads this
    {
      GoodGeometry() && DiskShape(blocks, blockSize, totalBlocks)
    }

    /** Copies block id; an id out of range is an error and the caller's
        freshly zeroed buffer stays zero. */
    method ReadBlock(id: nat) returns (buf: seq<u8>, r: Status)
      requires Valid()
      ensures id < totalBlocks ==> buf == blocks[id] && r == Done
      ensures id >= totalBlocks ==> buf == Zeros(blockSize) && r == Fail(InvalidArg)
    {
      if id < totalBlocks {
        buf, r := blocks[id], Done;
      } else {
        buf, r := Zeros(blockSize), Fail(InvalidArg);
      }
    }

    method WriteBlock(id: nat, data: seq<u8>) returns (r: Status)
      requires Valid() && |data| == blockSize
      modifies this
      ensures Valid()
      ensures id < totalBlocks ==> blocks == old(blocks)[id := data] && r == Done
      ensures id >= totalBlocks ==> blocks == old(blocks) && r == Fail(InvalidArg)
    {
      if id < totalBlocks {
        blocks := blocks[id := data];
        r := Done;
      } else {
        r := Fail(InvalidArg);
      }
    }

    method WritePartialBlock(id: nat, data: seq<u8>, offset: nat) returns (r: Status)
      requires Valid()
      modifies this
      ensures Valid()
      ensures id < totalBlocks && offset + |data| <= blockSize ==>
                blocks == old(blocks)[id := Overwrite(old(blocks)[id], offset, data)] && r == Done
      ensures !(id < totalBlocks && offset + |data| <= blockSize) ==>
                blocks == old(blocks) && r == Fail(InvalidArg)
    {
      if id < totalBlocks && offset + |data| <= blockSize {
        blocks := blocks[id := Overwrite(blocks[id], offset, data)];
        r := Done;
      } else {
        r := Fail(InvalidArg);
      }
    }

    method ZeroBlock(id: nat) returns (r: Status)
      requires Valid()
      modifies this
      ensures Valid()
      ensures id < totalBlocks ==> blocks == old(blocks)[id := Zeros(blockSize)] && r == Done
      ensures id >= totalBlocks ==> blocks == old(blocks) && r == Fail(InvalidArg)
    {
      r := WriteBlock(id, Zeros(blockSize));
    }
  }
}
