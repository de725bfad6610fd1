/**
 * Bytes and machine words. A `size_t` is a word of `WordSize` bytes; the
 * native layout is taken to be little-endian.
 */
module Bytes {

  type byte = b: int | 0 <= b < 256

  /** sizeof(size_t) on the 64-bit targets the code is built for. */
  const WordSize: nat := 8

  /** One past the largest `size_t`. */
  const WordLimit: nat := 0x1_0000_0000_0000_0000

  /** An unsigned `size_t` value. */
  type Word = w: int | 0 <= w < 0x1_0000_0000_0000_0000

  function Pow256(n: nat): (p: nat)
    ensures p >= 1
  {
    if n == 0 then 1 else 256 * Pow256(n - 1)
  }

  lemma WordLimitIsPow256()
    ensures Pow256(WordSize) == WordLimit
  {
  }

  /** The n low-order bytes of v, least significant first. */
  function LeBytes(v: nat, n: nat): (bs: seq<byte>)
    ensures |bs| == n
  {
    if n == 0 then [] else [v % 256] + LeBytes(v / 256, n - 1)
  }

  /** The number whose little-endian representation is bs. */
  function LeValue(bs: seq<byte>): (v: nat)
    ensures v < Pow256(|bs|)
  {
    if |bs| == 0 then 0 else bs[0] + 256 * LeValue(bs[1..])
  }

  lemma {:induction false} LeValueOfLeBytes(v: nat, n: nat)
    requires v < Pow256(n)
    ensures LeValue(LeBytes(v, n)) == v
  {
    if n > 0 {
      LeValueOfLeBytes(v / 256, n - 1);
      assert LeBytes(v, n)[1..] == LeBytes(v / 256, n - 1);
    }
  }

  lemma {:induction false} LeBytesOfLeValue(bs: seq<byte>)
    ensures LeBytes(LeValue(bs), |bs|) == bs
  {
    if |bs| > 0 {
      var v := LeValue(bs);
      assert v % 256 == bs[0] && v / 256 == LeValue(bs[1..]);
      LeBytesOfLeValue(bs[1..]);
    }
  }

  /** A buffer of words as the bytes it occupies in memory. */
  function WordsToBytes(ws: seq<Word>): (bs: seq<byte>)
    ensures |bs| == WordSize * |ws|
  {
    if |ws| == 0 then [] else LeBytes(ws[0], WordSize) + WordsToBytes(ws[1..])
  }

  /** The words stored in a byte buffer whose length is a whole number of words. */
  function BytesToWords(bs: seq<byte>): (ws: seq<Word>)
    requires |bs| % WordSize == 0
    ensures WordSize * |ws| == |bs|
    decreases |bs|
  {
    if |bs| == 0 then []
    else
      WordLimitIsPow256();
      [LeValue(bs[..WordSize]) as Word] + BytesToWords(bs[WordSize..])
  }

  lemma {:induction false} BytesToWordsOfWordsToBytes(ws: seq<Word>)
    ensures BytesToWords(WordsToBytes(ws)) == ws
  {
    if |ws| > 0 {
      var bs := WordsToBytes(ws);
      assert bs[..WordSize] == LeBytes(ws[0], WordSize);
      assert bs[WordSize..] == WordsToBytes(ws[1..]);
      WordLimitIsPow256();
      LeValueOfLeBytes(ws[0], WordSize);
      BytesToWordsOfWordsToBytes(ws[1..]);
    }
  }

  lemma {:induction false} WordsToBytesOfBytesToWords(bs: seq<byte>)
    requires |bs| % WordSize == 0
    ensures WordsToBytes(BytesToWords(bs)) == bs
    decreases |bs|
  {
    if |bs| > 0 {
      var ws := BytesToWords(bs);
      assert ws[1..] == BytesToWords(bs[WordSize..]);
      LeBytesOfLeValue(bs[..WordSize]);
      WordsToBytesOfBytesToWords(bs[WordSize..]);
      assert bs == bs[..WordSize] + bs[WordSize..];
    }
  }
}
