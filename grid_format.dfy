/**
 * The `.grid` file layout, as `write_grid` and `read_grid` produce and
 * consume it: a three-byte magic number, the resolution as two native
 * words, the two corner bounds as opaque blocks of
 * sizeof(long double complex) bytes, then one native word per sample.
 */
module GridFormat {
  import opened Bytes

  datatype Option<T> = None | Some(value: T)

  const Magic: seq<byte> := [0xA6, 0x00, 0x5E]

  /** sizeof(long double complex) on x86-64: two 16-byte long doubles. */
  const BoundSize: nat := 32

  /** One bound exactly as it sits in memory; its floating-point format is not modelled. */
  type BoundBytes = s: seq<byte> | |s| == BoundSize witness seq(BoundSize, i => 0)

  /** Magic, x, y, lower_left and upper_right. */
  const HeaderSize: nat := 3 + 2 * WordSize + 2 * BoundSize

  /** The fields of a grid that the file stores, with the bounds still as bytes. */
  datatype GridImage = GridImage(x: Word, y: Word, lowerLeft: BoundBytes, upperRight: BoundBytes, samples: seq<Word>)

  /** What `create_grid` and the sample read demand of a decoded image. */
  predicate WellFormed(img: GridImage) {
    img.x > 0 && img.y > 0 && |img.samples| == img.x * img.y
  }

  /** The bytes `write_grid` emits for a grid with data. */
  function EncodeGrid(img: GridImage): (bs: seq<byte>)
    ensures |bs| == HeaderSize + WordSize * |img.samples|
    ensures bs[..3] == Magic
  {
    Magic + LeBytes(img.x, WordSize) + LeBytes(img.y, WordSize)
      + img.lowerLeft + img.upperRight + WordsToBytes(img.samples)
  }

  /**
   * What `read_grid` accepts, step by step: it fails on a short or wrong
   * magic number, on any short header field, on a zero dimension (through
   * `create_grid`), and on fewer than x*y whole samples; anything after
   * the samples is ignored.
   */
  function DecodeGrid(bs: seq<byte>): (r: Option<GridImage>)
    ensures r.Some? ==> WellFormed(r.value)
    ensures r.Some? ==> |bs| >= HeaderSize + WordSize * |r.value.samples| && bs[..3] == Magic
  {
    if |bs| < 3 then None
    else if bs[0] != 0xA6 || bs[1] != 0x00 || bs[2] != 0x5E then None
    else if |bs| < 3 + WordSize then None
    else if |bs| < 3 + 2 * WordSize then None
    else if |bs| < 3 + 2 * WordSize + BoundSize then None
    else if |bs| < HeaderSize then None
    else
      WordLimitIsPow256();
      var x := LeValue(bs[3..3 + WordSize]) as Word;
      var y := LeValue(bs[3 + WordSize..3 + 2 * WordSize]) as Word;
      var ll: BoundBytes := bs[3 + 2 * WordSize..3 + 2 * WordSize + BoundSize];
      var ur: BoundBytes := bs[3 + 2 * WordSize + BoundSize..HeaderSize];
      if x == 0 || y == 0 then None
      else if (|bs| - HeaderSize) / WordSize < x * y then None
      else Some(GridImage(x, y, ll, ur, BytesToWords(bs[HeaderSize..HeaderSize + WordSize * (x * y)])))
  }

  /** Where each field lands in the file. */
  lemma EncodeGridLayout(img: GridImage)
    ensures var bs := EncodeGrid(img);
      && bs[3..11] == LeBytes(img.x, WordSize)
      && bs[11..19] == LeBytes(img.y, WordSize)
      && bs[19..51] == img.lowerLeft
      && bs[51..83] == img.upperRight
      && bs[83..] == WordsToBytes(img.samples)
  {
  }

  /** Reading what was written gives the image back, whatever follows it. */
  lemma DecodeEncode(img: GridImage, rest: seq<byte>)
    requires WellFormed(img)
    ensures DecodeGrid(EncodeGrid(img) + rest) == Some(img)
  {
    var enc := EncodeGrid(img);
    var bs := enc + rest;
    EncodeGridLayout(img);
    var n := HeaderSize + WordSize * (img.x * img.y);
    assert |enc| == n;
    assert bs[..3] == Magic by { assert bs[..3] == enc[..3]; }
    assert bs[3..11] == LeBytes(img.x, WordSize) by { assert bs[3..11] == enc[3..11]; }
    assert bs[11..19] == LeBytes(img.y, WordSize) by { assert bs[11..19] == enc[11..19]; }
    assert bs[19..51] == img.lowerLeft by { assert bs[19..51] == enc[19..51]; }
    assert bs[51..83] == img.upperRight by { assert bs[51..83] == enc[51..83]; }
    assert bs[83..n] == WordsToBytes(img.samples) by { assert bs[83..n] == enc[83..]; }
    WordLimitIsPow256();
    LeValueOfLeBytes(img.x, WordSize);
    LeValueOfLeBytes(img.y, WordSize);
    BytesToWordsOfWordsToBytes(img.samples);
    assert (|bs| - HeaderSize) / WordSize >= img.x * img.y;
  }

  /** Conversely, what is read back was written in full at the start of the input. */
  lemma EncodeDecode(bs: seq<byte>)
    requires DecodeGrid(bs).Some?
    ensures var img := DecodeGrid(bs).value;
      && WellFormed(img)
      && |bs| >= |EncodeGrid(img)|
      && EncodeGrid(img) == bs[..|EncodeGrid(img)|]
  {
    var img := DecodeGrid(bs).value;
    var n := DecodedFields(bs);
    LeBytesOfLeValue(bs[3..11]);
    LeBytesOfLeValue(bs[11..19]);
    WordsToBytesOfBytesToWords(bs[83..n]);
    SplitHeader(bs, n);
  }

  /** The fields of a decoded image are the corresponding slices of the input. */
  lemma DecodedFields(bs: seq<byte>) returns (n: nat)
    requires DecodeGrid(bs).Some?
    ensures var img := DecodeGrid(bs).value;
      && WellFormed(img)
      && n == HeaderSize + WordSize * (img.x * img.y) && n <= |bs|
      && bs[..3] == Magic
      && img.x as nat == LeValue(bs[3..11]) && img.y as nat == LeValue(bs[11..19])
      && img.lowerLeft == bs[19..51] && img.upperRight == bs[51..83]
      && img.samples == BytesToWords(bs[83..n])
  {
    var img := DecodeGrid(bs).value;
    n := HeaderSize + WordSize * (img.x * img.y);
  }

  lemma SplitHeader(bs: seq<byte>, n: nat)
    requires HeaderSize <= n <= |bs|
    ensures bs[..n] == bs[..3] + bs[3..11] + bs[11..19] + bs[19..51] + bs[51..83] + bs[83..n]
  {
  }

  /** The reader succeeds exactly when the magic, the header and x*y samples are present and x, y >= 1. */
  lemma DecodeGridSucceeds(bs: seq<byte>)
    ensures DecodeGrid(bs).Some? <==>
      && |bs| >= HeaderSize
      && bs[..3] == Magic
      && LeValue(bs[3..11]) > 0
      && LeValue(bs[11..19]) > 0
      && |bs| >= HeaderSize + WordSize * (LeValue(bs[3..11]) * LeValue(bs[11..19]))
  {
    if |bs| >= HeaderSize {
      var x := LeValue(bs[3..11]);
      var y := LeValue(bs[11..19]);
      assert (|bs| - HeaderSize) / WordSize < x * y <==> |bs| < HeaderSize + WordSize * (x * y);
    }
  }
}
