/** Little-endian 64-bit words over block bytes. Inode-table entries,
    indirect-block entries and inode records are all arrays of such words. */
module Codec {
  import opened Common

  /** One 64-bit word as 8 little-endian bytes: byte i is digit i of w in base 256. */
  function EncodeWord(w: u64): (b: seq<u8>)
    ensures |b| == WordSize
    ensures DecodeWord(b) == w
  {
    var q1 := w / 0x100; var q2 := q1 / 0x100; var q3 := q2 / 0x100; var q4 := q3 / 0x100;
    var q5 := q4 / 0x100; var q6 := q5 / 0x100; var q7 := q6 / 0x100;
    assert q7 < 0x100 && q7 % 0x100 == q7;
    assert q6 == q6 % 0x100 + 0x100 * q7;
    assert q5 == q5 % 0x100 + 0x100 * q6;
    assert q4 == q4 % 0x100 + 0x100 * q5;
    assert q3 == q3 % 0x100 + 0x100 * q4;
    assert q2 == q2 % 0x100 + 0x100 * q3;
    assert q1 == q1 % 0x100 + 0x100 * q2;
    assert w == w % 0x100 + 0x100 * q1;
    [w % 0x100, q1 % 0x100, q2 % 0x100, q3 % 0x100, q4 % 0x100, q5 % 0x100, q6 % 0x100, q7 % 0x100]
  }

  /** The word held by 8 little-endian bytes. */
  function DecodeWord(b: seq<u8>): (w: u64)
    requires |b| == WordSize
  {
    b[0] as int + 0x100 * (b[1] as int + 0x100 * (b[2] as int + 0x100 * (b[3] as int
      + 0x100 * (b[4] as int + 0x100 * (b[5] as int + 0x100 * (b[6] as int + 0x100 * b[7] as int))))))
  }

  /** Every 8 bytes are the encoding of the word they hold. */
  lemma EncodeDecodeWord(b: seq<u8>)
    requires |b| == WordSize
    ensures EncodeWord(DecodeWord(b)) == b
  {
    var x7 := b[7] as int;
    var x6 := b[6] as int + 0x100 * x7;
    var x5 := b[5] as int + 0x100 * x6;
    var x4 := b[4] as int + 0x100 * x5;
    var x3 := b[3] as int + 0x100 * x4;
    var x2 := b[2] as int + 0x100 * x3;
    var x1 := b[1] as int + 0x100 * x2;
    DivModOf(x1, b[0], 0x100);
    DivModOf(x2, b[1], 0x100);
    DivModOf(x3, b[2], 0x100);
    DivModOf(x4, b[3], 0x100);
    DivModOf(x5, b[4], 0x100);
    DivModOf(x6, b[5], 0x100);
    DivModOf(x7, b[6], 0x100);
  }

  /** A block read as an array of words: word i is bytes [8i, 8i + 8)
      (trailing bytes that do not fill a word are ignored). */
  function Words(b: seq<u8>): (ws: seq<u64>)
    ensures |ws| == |b| / WordSize
  {
    seq(|b| / WordSize, i requires 0 <= i < |b| / WordSize => DecodeWord(b[WordSize * i..WordSize * i + WordSize]))
  }

  /** An array of words as bytes: byte j is byte j % 8 of word j / 8. */
  function EncodeWords(ws: seq<u64>): (b: seq<u8>)
    ensures |b| == WordSize * |ws|
  {
    seq(WordSize * |ws|, j requires 0 <= j < WordSize * |ws| => EncodeWord(ws[j / WordSize])[j % WordSize])
  }

  /** Bytes [8i, 8i + 8) of the encoding are the encoding of word i. */
  lemma EncodeWordsSlice(ws: seq<u64>, i: nat)
    requires i < |ws|
    ensures EncodeWords(ws)[WordSize * i..WordSize * i + WordSize] == EncodeWord(ws[i])
  {
    var lo := WordSize * i;
    var slice, e := EncodeWords(ws)[lo..lo + WordSize], EncodeWord(ws[i]);
    forall k | 0 <= k < WordSize ensures slice[k] == e[k] {
      DivModOf(i, k, WordSize);
    }
  }

  /** Words written out read back unchanged. */
  lemma WordsOfEncodeWords(ws: seq<u64>)
    ensures Words(EncodeWords(ws)) == ws
  {
    forall i | 0 <= i < |ws| ensures Words(EncodeWords(ws))[i] == ws[i] {
      EncodeWordsSlice(ws, i);
    }
  }

  /** A block of whole words is the encoding of its words. */
  lemma EncodeWordsOfWords(b: seq<u8>)
    requires |b| % WordSize == 0
    ensures EncodeWords(Words(b)) == b
  {
    var ws := Words(b);
    forall j | 0 <= j < |b| ensures EncodeWords(ws)[j] == b[j] {
      var i, k := j / WordSize, j % WordSize;
      var lo := WordSize * i;
      var word := b[lo..lo + WordSize];
      assert j == lo + k && word[k] == b[j];
      assert ws[i] == DecodeWord(word);
      EncodeDecodeWord(word);
      assert EncodeWords(ws)[j] == EncodeWord(ws[i])[k];
    }
  }

  /** Every word of a zeroed block is 0. */
  lemma WordsOfZeros(n: nat)
    ensures forall i :: 0 <= i < n / WordSize ==> Words(Zeros(n))[i] == 0
  {
    forall i | 0 <= i < n / WordSize ensures Words(Zeros(n))[i] == 0 {
      assert Zeros(n)[WordSize * i..WordSize * i + WordSize] == Zeros(WordSize);
    }
  }

  /** Word i of an n-byte block lies inside the block. */
  lemma WordInside(i: nat, n: nat)
    requires i < n / WordSize
    ensures WordSize * i + WordSize <= n
  {
    assert n == WordSize * (n / WordSize) + n % WordSize;
  }

  /** The block with word i replaced by w (set_table's partial write of one entry). */
  function PatchWord(b: seq<u8>, i: nat, w: u64): (b': seq<u8>)
    requires |b| % WordSize == 0 && WordSize * i + WordSize <= |b|
    ensures |b'| == |b|
    ensures Words(b') == Words(b)[i := w]
  {
    WordsOfEncodeWords(Words(b)[i := w]);
    EncodeWords(Words(b)[i := w])
  }

  /** Patching word i is the partial write of its encoding at byte 8i. */
  lemma PatchWordOverwrites(b: seq<u8>, i: nat, w: u64)
    requires |b| % WordSize == 0 && WordSize * i + WordSize <= |b|
    ensures PatchWord(b, i, w) == b[..WordSize * i] + EncodeWord(w) + b[WordSize * i + WordSize..]
  {
    PatchWordBytes(b, i, w);
  }

  /** Byte by byte, the patch writes the encoding of w over bytes [8i, 8i + 8)
      and leaves every other byte as it was. */
  lemma PatchWordBytes(b: seq<u8>, i: nat, w: u64)
    requires |b| % WordSize == 0 && WordSize * i + WordSize <= |b|
    ensures forall j :: 0 <= j < |b| ==>
      PatchWord(b, i, w)[j] == if WordSize * i <= j < WordSize * i + WordSize then EncodeWord(w)[j - WordSize * i] else b[j]
  {
    var ws := Words(b);
    EncodeWordsOfWords(b);
    forall j | 0 <= j < |b|
      ensures PatchWord(b, i, w)[j] == if WordSize * i <= j < WordSize * i + WordSize then EncodeWord(w)[j - WordSize * i] else b[j]
    {
      var q, k := j / WordSize, j % WordSize;
      assert PatchWord(b, i, w)[j] == EncodeWord(ws[i := w][q])[k];
      if WordSize * i <= j < WordSize * i + WordSize {
        DivModOf(i, j - WordSize * i, WordSize);
      } else {
        assert WordSize * q <= j < WordSize * q + WordSize;
        assert EncodeWords(ws)[j] == EncodeWord(ws[q])[k];
      }
    }
  }
}
