/** Bytes, 64-bit words and the little-endian layout that links them. The
    demo's buffers are `uint64_t` arrays while the flash stores bytes; on the
    Cortex-M target a word occupies eight consecutive bytes, least
    significant byte first. */
module Bytes {

  type Byte = x: int | 0 <= x < 0x100

  /** One more than the largest `uint64_t`. */
  const WordLimit: nat := 0x1_0000_0000_0000_0000

  /** C `uint64_t`. */
  type Word = x: int | 0 <= x < WordLimit

  /** Bytes in one word. */
  const WordBytes: nat := 8

  function Pow256(k: nat): (p: nat)
    ensures p > 0
  {
    if k == 0 then 1 else 256 * Pow256(k - 1)
  }

  lemma Pow256Word()
    ensures Pow256(WordBytes) == WordLimit
  {
    assert Pow256(2) == 0x1_0000;
    assert Pow256(4) == 0x1_0000_0000 by {
      assert Pow256(3) == 0x100_0000;
    }
    assert Pow256(6) == 0x1_0000_0000_0000 by {
      assert Pow256(5) == 0x100_0000_0000;
    }
    assert Pow256(7) == 0x100_0000_0000_0000;
  }

  /** The unsigned value of `bs` read least significant byte first; it is
      below 256 to the power of the byte count. */
  function Le(bs: seq<Byte>): (v: nat)
    ensures v < Pow256(|bs|)
  {
    if |bs| == 0 then 0 else bs[0] + 256 * Le(bs[1..])
  }

  /** The `k` low bytes of `v`, least significant first. */
  function LeBytes(v: nat, k: nat): (bs: seq<Byte>)
    ensures |bs| == k
  {
    if k == 0 then [] else [v % 256] + LeBytes(v / 256, k - 1)
  }

  /** Storing a value in k bytes and loading it back gives the value, when it fits. */
  lemma {:induction false} LeOfLeBytes(v: nat, k: nat)
    requires v < Pow256(k)
    ensures Le(LeBytes(v, k)) == v
  {
    if k > 0 {
      assert v / 256 < Pow256(k - 1);
      LeOfLeBytes(v / 256, k - 1);
      assert LeBytes(v, k)[1..] == LeBytes(v / 256, k - 1);
    }
  }

  /** Loading bytes as a value and storing it back gives the same bytes. */
  lemma {:induction false} LeBytesOfLe(bs: seq<Byte>)
    ensures LeBytes(Le(bs), |bs|) == bs
  {
    if |bs| > 0 {
      var v := Le(bs);
      assert v % 256 == bs[0] && v / 256 == Le(bs[1..]);
      LeBytesOfLe(bs[1..]);
    }
  }

  /** The word made of eight bytes. */
  function WordOf(bs: seq<Byte>): (w: Word)
    requires |bs| == WordBytes
    ensures LeBytes(w, WordBytes) == bs
  {
    Pow256Word();
    LeBytesOfLe(bs);
    Le(bs)
  }

  /** The eight bytes a word occupies in memory. */
  function BytesOfWord(w: Word): (bs: seq<Byte>)
    ensures |bs| == WordBytes
    ensures WordOf(bs) == w
  {
    Pow256Word();
    LeOfLeBytes(w, WordBytes);
    LeBytes(w, WordBytes)
  }

  /** The memory image of a word array. */
  function BytesOfWords(ws: seq<Word>): (bs: seq<Byte>)
    ensures |bs| == WordBytes * |ws|
  {
    if |ws| == 0 then [] else BytesOfWord(ws[0]) + BytesOfWords(ws[1..])
  }

  /** The words a byte image holds, read eight bytes at a time. */
  function WordsOf(bs: seq<Byte>): (ws: seq<Word>)
    requires |bs| % WordBytes == 0
    ensures WordBytes * |ws| == |bs|
  {
    if |bs| == 0 then [] else [WordOf(bs[..WordBytes])] + WordsOf(bs[WordBytes..])
  }

  /** Word j of a word array sits at bytes 8j .. 8j+8 of its image. */
  lemma {:induction false} BytesOfWordsAt(ws: seq<Word>, j: nat)
    requires j < |ws|
    ensures BytesOfWords(ws)[WordBytes * j .. WordBytes * j + WordBytes] == BytesOfWord(ws[j])
  {
    if j > 0 {
      BytesOfWordsAt(ws[1..], j - 1);
      var rest := BytesOfWords(ws[1..]);
      assert BytesOfWords(ws) == BytesOfWord(ws[0]) + rest;
      assert BytesOfWords(ws)[WordBytes * j .. WordBytes * j + WordBytes]
          == rest[WordBytes * (j - 1) .. WordBytes * (j - 1) + WordBytes];
    }
  }

  /** Reading back the image of a word array gives the words. */
  lemma {:induction false} WordsOfBytesOfWords(ws: seq<Word>)
    ensures WordsOf(BytesOfWords(ws)) == ws
  {
    if |ws| > 0 {
      var bs := BytesOfWords(ws);
      assert bs[..WordBytes] == BytesOfWord(ws[0]);
      assert bs[WordBytes..] == BytesOfWords(ws[1..]);
      WordsOfBytesOfWords(ws[1..]);
    }
  }

  /** Packing bytes into words and laying them out again gives the bytes. */
  lemma {:induction false} BytesOfWordsOf(bs: seq<Byte>)
    requires |bs| % WordBytes == 0
    ensures BytesOfWords(WordsOf(bs)) == bs
  {
    if |bs| > 0 {
      var ws := WordsOf(bs);
      assert ws[1..] == WordsOf(bs[WordBytes..]);
      BytesOfWordsOf(bs[WordBytes..]);
      assert bs == bs[..WordBytes] + bs[WordBytes..];
    }
  }
}
