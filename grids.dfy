/**
 * The grid container of grids.c: a resolution x by y, the two complex
 * corners of the sampled region and a buffer of one `size_t` sample per
 * point, with its constructor, fill, copy, comparisons, index-to-point
 * mapper, zoom, ASCII rendering and the `.grid` reader and writer.
 */
module Grids {
  import opened ComplexPlane
  import opened Bytes
  import opened GridFormat
  import opened Arithmetic

  class Grid {
    var x: Word
    var y: Word
    var size: nat
    var lowerLeft: Complex
    var upperRight: Complex
    /** `grid->data`; null only for a grid whose buffer was taken away. */
    var data: array?<Word>

    /** What `create_grid` establishes: size == x*y and a buffer of that many samples. */
    predicate Valid()
      reads this
    {
      size == x * y && (data != null ==> data.Length == size)
    }

    constructor (x: Word, y: Word, lowerLeft: Complex, upperRight: Complex)
      ensures Valid()
      ensures this.x == x && this.y == y && size == x * y
      ensures this.lowerLeft == lowerLeft && this.upperRight == upperRight
      ensures data != null && fresh(data)
    {
      this.x := x;
      this.y := y;
      size := x * y;
      this.lowerLeft := lowerLeft;
      this.upperRight := upperRight;
      data := new Word[x * y];
    }
  }

  /** create_grid: no grid for a zero dimension; otherwise a fresh grid with a fresh buffer. */
  method CreateGrid(x: Word, y: Word, lowerLeft: Complex, upperRight: Complex) returns (g: Grid?)
    ensures g == null <==> x == 0 || y == 0
    ensures g != null ==> fresh(g) && fresh(g.data) && g.Valid() && g.data != null
    ensures g != null ==> g.x == x && g.y == y && g.size == x * y
    ensures g != null ==> g.lowerLeft == lowerLeft && g.upperRight == upperRight
  {
    if x == 0 || y == 0 {
      return null;
    }
    g := new Grid(x, y, lowerLeft, upperRight);
  }

  /**
   * set_grid: every sample takes the byte value of val; a missing grid or
   * buffer is left alone.
   */
  method SetGrid(g: Grid?, val: Word)
    requires g != null ==> g.Valid()
    modifies if g != null && g.data != null then {g.data} else {}
    ensures g != null && g.data != null ==> forall i :: 0 <= i < g.data.Length ==> g.data[i] == val % 256
  {
    if g == null || g.data == null {
      return;
    }
    forall i | 0 <= i < g.data.Length {
      g.data[i] := val % 256;
    }
  }

  /** The region and resolution of two grids agree. */
  predicate SameFrame(a: Grid, b: Grid)
    reads a, b
  {
    a.x == b.x && a.y == b.y && a.lowerLeft == b.lowerLeft && a.upperRight == b.upperRight
  }

  /**
   * grid_equal: same resolution, same bounds and the same samples. The
   * frame test comes first, so a missing buffer matters only once it passes.
   */
  predicate GridEqual(a: Grid, b: Grid)
    reads a, b, a.data, b.data
  {
    SameFrame(a, b) && Samples(a) == Samples(b)
  }

  /** grid_equal is grid_allclose with max_error 1. */
  lemma GridEqualIsAllcloseAtOne(a: Grid, b: Grid)
    ensures GridEqual(a, b) <==> SameFrame(a, b) && WithinTolerance(Samples(a), Samples(b), 1)
  {
    ToleranceOneIsEquality(Samples(a), Samples(b));
  }

  /**
   * copy_grid: no copy of a missing grid or buffer (nor when create_grid
   * refuses the dimensions); otherwise a fresh grid with its own buffer that
   * is grid_equal to the original.
   */
  method CopyGrid(g: Grid?) returns (c: Grid?)
    requires g != null ==> g.Valid()
    ensures c == null <==> g == null || g.data == null || g.x == 0 || g.y == 0
    ensures c != null ==> fresh(c) && fresh(c.data) && c.Valid() && c.data != null
    ensures c != null ==> g != null && g.data != null && GridEqual(c, g)
  {
    if g == null || g.data == null {
      return null;
    }
    c := CreateGrid(g.x, g.y, g.lowerLeft, g.upperRight);
    if c == null {
      return null;
    }
    forall i | 0 <= i < c.data.Length {
      c.data[i] := g.data[i];
    }
  }

  /** Exact |a - b| of two samples. */
  function AbsDiff(a: nat, b: nat): nat {
    if a >= b then a - b else b - a
  }

  /** Every pair of samples differs by strictly less than tolerance. */
  predicate WithinTolerance(s: seq<Word>, t: seq<Word>, tolerance: nat) {
    |s| == |t| && forall i :: 0 <= i < |s| ==> AbsDiff(s[i], t[i]) < tolerance
  }

  /** The samples of a grid; a missing buffer holds none. */
  function Samples(g: Grid): seq<Word>
    reads g, g.data
  {
    if g.data == null then [] else g.data[..]
  }

  /**
   * grid_allclose: false when the resolution or a bound differs; otherwise
   * true exactly when every pair of samples differs by less than maxError.
   * The buffers are read only once the frames agree and there are samples.
   */
  method GridAllclose(a: Grid, b: Grid, maxError: Word) returns (close: bool)
    requires a.Valid() && b.Valid()
    requires SameFrame(a, b) && a.size > 0 ==> a.data != null && b.data != null
    ensures close <==> SameFrame(a, b) && WithinTolerance(Samples(a), Samples(b), maxError)
  {
    if a.x != b.x || a.y != b.y || a.lowerLeft != b.lowerLeft || a.upperRight != b.upperRight {
      return false;
    }
    var size := a.size;
    for i := 0 to size
      invariant forall k :: 0 <= k < i ==> AbsDiff(a.data[k], b.data[k]) < maxError
    {
      if AbsDiff(a.data[i], b.data[i]) >= maxError {
        assert Samples(a)[i] == a.data[i] && Samples(b)[i] == b.data[i];
        return false;
      }
    }
    return true;
  }

  /** A grid is within any tolerance >= 1 of itself, and within 0 of itself only when empty. */
  lemma SelfTolerance(s: seq<Word>, tolerance: nat)
    ensures WithinTolerance(s, s, tolerance) <==> tolerance >= 1 || |s| == 0
  {
    if |s| > 0 && tolerance == 0 {
      assert AbsDiff(s[0], s[0]) >= tolerance;
    }
  }

  /** Tolerance 1 is exact equality, so allclose at 1 is grid_equal. */
  lemma ToleranceOneIsEquality(s: seq<Word>, t: seq<Word>)
    ensures WithinTolerance(s, t, 1) <==> s == t
  {
    if WithinTolerance(s, t, 1) {
      assert forall i :: 0 <= i < |s| ==> s[i] == t[i] by {
        forall i | 0 <= i < |s| ensures s[i] == t[i] {
          assert AbsDiff(s[i], t[i]) < 1;
        }
      }
    }
  }

  /** A larger tolerance accepts everything a smaller one does. */
  lemma ToleranceMonotone(s: seq<Word>, t: seq<Word>, tol: nat, tol': nat)
    requires tol <= tol' && WithinTolerance(s, t, tol)
    ensures WithinTolerance(s, t, tol')
  {
  }

  /**
   * grid_to_complex, as written: the column is index % x but the row is
   * index / y; the steps are the extents divided by x and by y. The real
   * part lies in [lower_left.re, upper_right.re) when that interval is not empty.
   */
  function GridToComplex(g: Grid, index: nat): (p: Complex)
    reads g
    requires g.x > 0 && g.y > 0
    ensures g.lowerLeft.re < g.upperRight.re ==> g.lowerLeft.re <= p.re < g.upperRight.re
  {
    var xStep := (g.upperRight.re - g.lowerLeft.re) / (g.x as real);
    var yStep := (g.upperRight.im - g.lowerLeft.im) / (g.y as real);
    var xIndex := index % g.x;
    var yIndex := index / g.y;
    var point := Complex(g.lowerLeft.re + (xIndex as real) * xStep, g.lowerLeft.im + (yIndex as real) * yStep);
    if g.lowerLeft.re < g.upperRight.re then
      StepsBelowExtent(xIndex, g.x, g.upperRight.re - g.lowerLeft.re);
      point
    else
      point
  }

  lemma GridToComplexOrigin(g: Grid)
    requires g.x > 0 && g.y > 0
    ensures GridToComplex(g, 0) == g.lowerLeft
  {
  }

  /** The real part depends on the column index % x alone. */
  lemma GridToComplexColumn(g: Grid, i: nat, j: nat)
    requires g.x > 0 && g.y > 0
    requires i % g.x == j % g.x
    ensures GridToComplex(g, i).re == GridToComplex(g, j).re
  {
  }

  /** Points one row apart share their real part. */
  lemma GridToComplexNextRow(g: Grid, i: nat)
    requires g.x > 0 && g.y > 0
    ensures GridToComplex(g, i + g.x).re == GridToComplex(g, i).re
  {
    ModShift(i, g.x);
    GridToComplexColumn(g, i + g.x, i);
  }

  /** The imaginary part depends on index / y alone. */
  lemma GridToComplexRow(g: Grid, i: nat, j: nat)
    requires g.x > 0 && g.y > 0
    requires i / g.y == j / g.y
    ensures GridToComplex(g, i).im == GridToComplex(g, j).im
  {
  }

  /**
   * For a grid no wider than it is tall, index / y stays below y, so every
   * point of the buffer maps inside the region.
   */
  lemma GridToComplexInsideWhenTall(g: Grid, index: nat)
    requires g.Valid() && 0 < g.x <= g.y && index < g.size
    requires g.lowerLeft.im < g.upperRight.im
    ensures g.lowerLeft.im <= GridToComplex(g, index).im < g.upperRight.im
  {
    assert index < g.x * g.y;
    assert index / g.y < g.x by {
      DivBelow(index, g.x, g.y);
    }
    StepsBelowExtent(index / g.y, g.y, g.upperRight.im - g.lowerLeft.im);
  }

  /**
   * On a wider-than-tall grid the as-written row index overshoots: with
   * x = 2 and y = 1 the second sample of the only row maps onto the top edge.
   */
  lemma GridToComplexOvershootsWhenWide(g: Grid)
    requires g.Valid() && g.x == 2 && g.y == 1
    ensures 1 < g.size
    ensures GridToComplex(g, 1).im == g.upperRight.im
  {
  }

  /** The midpoint of two corners. */
  function Midpoint(a: Complex, b: Complex): Complex {
    DivReal(Add(a, b), 2.0)
  }

  /**
   * The bounds zoom_grid computes: it keeps the centre and puts the
   * corners (upper_right - lower_left) / magnification away from it, so each
   * extent is scaled by 2 / magnification.
   */
  function Zoom(lowerLeft: Complex, upperRight: Complex, magnification: real): (bounds: (Complex, Complex))
    requires magnification != 0.0
    ensures Midpoint(bounds.0, bounds.1) == Midpoint(lowerLeft, upperRight)
    ensures bounds.1.re - bounds.0.re == 2.0 * (upperRight.re - lowerLeft.re) / magnification
    ensures bounds.1.im - bounds.0.im == 2.0 * (upperRight.im - lowerLeft.im) / magnification
  {
    var center := Midpoint(lowerLeft, upperRight);
    var offset := DivReal(Sub(upperRight, lowerLeft), magnification);
    (Sub(center, offset), Add(center, offset))
  }

  /** Magnification 2, not 1, leaves the bounds where they are. */
  lemma ZoomByTwoKeepsBounds(lowerLeft: Complex, upperRight: Complex)
    ensures Zoom(lowerLeft, upperRight, 2.0) == (lowerLeft, upperRight)
  {
  }

  /** Magnification 1 doubles both extents. */
  lemma ZoomByOneDoubles(lowerLeft: Complex, upperRight: Complex)
    ensures var b := Zoom(lowerLeft, upperRight, 1.0);
      b.1.re - b.0.re == 2.0 * (upperRight.re - lowerLeft.re)
      && b.1.im - b.0.im == 2.0 * (upperRight.im - lowerLeft.im)
  {
  }

  /**
   * zoom_grid: clears the buffer through the corrected set_grid(grid, 0)
   * (SetGridAsWritten is the byte-count memset of the code) and re-bounds
   * the grid around its centre; the resolution is untouched.
   */
  method ZoomGrid(g: Grid, magnification: real)
    requires g.Valid() && magnification != 0.0
    modifies g, g.data
    ensures g.Valid() && g.data == old(g.data)
    ensures g.x == old(g.x) && g.y == old(g.y) && g.size == old(g.size)
    ensures (g.lowerLeft, g.upperRight) == Zoom(old(g.lowerLeft), old(g.upperRight), magnification)
    ensures g.data != null ==> forall i :: 0 <= i < g.data.Length ==> g.data[i] == 0
  {
    SetGrid(g, 0);
    var upperRight := g.upperRight;
    var lowerLeft := g.lowerLeft;
    var bounds := Zoom(lowerLeft, upperRight, magnification);
    g.lowerLeft := bounds.0;
    g.upperRight := bounds.1;
  }

  /** The status write_grid returns. A failing write is not modelled. */
  datatype WriteStatus = Written | NoData

  /** The file image of a grid whose bounds are stored by enc. */
  function ImageOf(g: Grid, enc: Complex -> BoundBytes): GridImage
    reads g, g.data
    requires g.data != null
  {
    GridImage(g.x, g.y, enc(g.lowerLeft), enc(g.upperRight), g.data[..])
  }

  /**
   * write_grid: nothing is written for an empty grid or a missing buffer;
   * otherwise the magic number, x, y, lower_left, upper_right and the
   * samples, in that order. enc gives a bound's in-memory bytes.
   */
  method WriteGrid(g: Grid, enc: Complex -> BoundBytes) returns (status: WriteStatus, out: seq<byte>)
    requires g.Valid()
    ensures status == NoData <==> g.size == 0 || g.data == null
    ensures status == NoData ==> out == []
    ensures status == Written ==> g.data != null && out == EncodeGrid(ImageOf(g, enc))
  {
    if g.size == 0 || g.data == null {
      return NoData, [];
    }
    out := Magic;
    out := out + LeBytes(g.x, WordSize);
    out := out + LeBytes(g.y, WordSize);
    out := out + enc(g.lowerLeft);
    out := out + enc(g.upperRight);
    out := out + WordsToBytes(g.data[..]);
    status := Written;
  }

  /** The grid holds the decoded image, its bounds read back by dec. */
  predicate HoldsImage(g: Grid, img: GridImage, dec: BoundBytes -> Complex)
    reads g, g.data
    requires g.data != null
  {
    && g.x == img.x && g.y == img.y
    && g.lowerLeft == dec(img.lowerLeft) && g.upperRight == dec(img.upperRight)
    && g.data[..] == img.samples
  }

  function Min(a: nat, b: nat): nat {
    if a <= b then a else b
  }

  /**
   * read_grid: reads the magic number, x, y and the two bounds in turn,
   * builds the grid with create_grid and reads x*y samples into it; no grid
   * when any of these steps fails. dec gives the bound a block of bytes holds.
   */
  method ReadGrid(input: seq<byte>, dec: BoundBytes -> Complex) returns (g: Grid?)
    ensures g == null <==> DecodeGrid(input).None?
    ensures g != null ==> fresh(g) && fresh(g.data) && g.Valid() && g.data != null
    ensures g != null ==> HoldsImage(g, DecodeGrid(input).value, dec)
  {
    if |input| < 3 {
      return null;
    }
    if input[0] != 0xA6 || input[1] != 0x00 || input[2] != 0x5E {
      return null;
    }
    var pos := 3;
    WordLimitIsPow256();
    if |input| < pos + WordSize {
      return null;
    }
    var x := LeValue(input[pos..pos + WordSize]) as Word;
    pos := pos + WordSize;
    if |input| < pos + WordSize {
      return null;
    }
    var y := LeValue(input[pos..pos + WordSize]) as Word;
    pos := pos + WordSize;
    if |input| < pos + BoundSize {
      return null;
    }
    var lowerLeft: BoundBytes := input[pos..pos + BoundSize];
    pos := pos + BoundSize;
    if |input| < pos + BoundSize {
      return null;
    }
    var upperRight: BoundBytes := input[pos..pos + BoundSize];
    pos := pos + BoundSize;

    g := CreateGrid(x, y, dec(lowerLeft), dec(upperRight));
    if g == null {
      return null;
    }
    var readCount := Min(g.size, (|input| - pos) / WordSize);
    if readCount != g.size {
      return null;
    }
    var samples := BytesToWords(input[pos..pos + WordSize * g.size]);
    forall i | 0 <= i < g.data.Length {
      g.data[i] := samples[i];
    }
    assert g.data[..] == samples;
  }

  /**
   * What a caller of both gets: writing a grid and reading the bytes back,
   * with anything appended, gives a grid_equal grid, provided the bound
   * format holds the two corners exactly.
   */
  method WriteThenRead(g: Grid, enc: Complex -> BoundBytes, dec: BoundBytes -> Complex, trailing: seq<byte>)
    returns (copy: Grid?)
    requires g.Valid() && g.data != null && g.x > 0 && g.y > 0
    requires dec(enc(g.lowerLeft)) == g.lowerLeft && dec(enc(g.upperRight)) == g.upperRight
    ensures copy != null && copy.data != null && GridEqual(copy, g)
  {
    var status, bytes := WriteGrid(g, enc);
    DecodeEncode(ImageOf(g, enc), trailing);
    copy := ReadGrid(bytes + trailing, dec);
  }

  /** The character print_grid shows for one sample, in five bins. */
  function PointChar(value: nat, iterations: nat): (c: char)
    ensures c in " .*%#"
    ensures c == '#' <==> value == iterations
    ensures c == ' ' <==> value == 0 < iterations
  {
    var binWidth := iterations / 3;
    var lastBin := iterations - binWidth;
    if value == iterations then '#'
    else if value == 0 then ' '
    else if value <= binWidth then '.'
    else if value >= lastBin then '%'
    else '*'
  }

  /** The bins from lightest to darkest. */
  function Shade(c: char): nat {
    match c
    case ' ' => 0
    case '.' => 1
    case '*' => 2
    case '%' => 3
    case _ => 4
  }

  /** Up to the cap, more iterations never give a lighter character. */
  lemma PointCharMonotone(v: nat, w: nat, iterations: nat)
    requires v <= w <= iterations
    ensures Shade(PointChar(v, iterations)) <= Shade(PointChar(w, iterations))
  {
  }

  /** The text print_grid prints for the samples data, breaking lines every width samples. */
  function Render(data: seq<Word>, width: nat, iterations: nat): (out: string)
    requires width > 0 || |data| == 0
    ensures |out| == |data| + (if width == 0 then 0 else |data| / width)
    decreases |data|
  {
    if |data| == 0 then ""
    else
      var i := |data| - 1;
      DivStep(i, width);
      Render(data[..i], width, iterations) + Cell(data[i], iterations, i % width == width - 1)
  }

  /** print_grid, building its output instead of printing it; the buffer is read only when there are samples. */
  method PrintGrid(g: Grid, iterations: Word) returns (out: string)
    requires g.Valid() && (g.size > 0 ==> g.data != null)
    ensures out == Render(Samples(g), g.x, iterations)
  {
    var size := g.size;
    var xRes := g.x;
    out := "";
    for i := 0 to size
      invariant g.data != null ==> out == Render(g.data[..i], xRes, iterations)
      invariant g.data == null ==> out == ""
    {
      var point := PointChar(g.data[i], iterations);
      assert g.data[..i + 1][..i] == g.data[..i];
      out := out + [point] + (if i % xRes == xRes - 1 then "\n" else "");
      assert out == Render(g.data[..i], xRes, iterations) + Cell(g.data[i], iterations, i % xRes == xRes - 1);
    }
    if g.data != null {
      assert g.data[..size] == g.data[..];
    }
  }

  /** s without its line breaks. */
  function Strip(s: string): string
    decreases |s|
  {
    if |s| == 0 then ""
    else Strip(s[..|s| - 1]) + (if s[|s| - 1] == '\n' then "" else [s[|s| - 1]])
  }

  /** The number of line breaks in s. */
  function Newlines(s: string): nat
    decreases |s|
  {
    if |s| == 0 then 0
    else Newlines(s[..|s| - 1]) + (if s[|s| - 1] == '\n' then 1 else 0)
  }

  lemma {:induction false} StripAppend(a: string, b: string)
    ensures Strip(a + b) == Strip(a) + Strip(b)
    ensures Newlines(a + b) == Newlines(a) + Newlines(b)
    decreases |b|
  {
    if |b| > 0 {
      var ab := a + b;
      assert ab[..|ab| - 1] == a + b[..|b| - 1];
      assert ab[|ab| - 1] == b[|b| - 1];
      StripAppend(a, b[..|b| - 1]);
    } else {
      assert a + b == a;
    }
  }

  /** The characters for the samples, one each, in buffer order. */
  function Classify(data: seq<Word>, iterations: nat): (cs: string)
    ensures |cs| == |data|
  {
    seq(|data|, k requires 0 <= k < |data| => PointChar(data[k], iterations))
  }

  /** The text print_grid adds for one sample: its character, then a line break at the end of a row. */
  function Cell(value: nat, iterations: nat, endOfRow: bool): string {
    [PointChar(value, iterations)] + (if endOfRow then "\n" else "")
  }

  lemma CellContents(value: nat, iterations: nat, endOfRow: bool)
    ensures Strip(Cell(value, iterations, endOfRow)) == [PointChar(value, iterations)]
    ensures Newlines(Cell(value, iterations, endOfRow)) == if endOfRow then 1 else 0
  {
    var c := PointChar(value, iterations);
    assert [c][..0] == "";
    assert Strip([c]) == [c] && Newlines([c]) == 0;
    if endOfRow {
      var cell := Cell(value, iterations, endOfRow);
      assert cell == [c, '\n'];
      assert cell[..1] == [c];
      assert Strip(cell) == Strip([c]);
      assert Newlines(cell) == Newlines([c]) + 1;
    } else {
      assert Cell(value, iterations, endOfRow) == [c];
    }
  }

  lemma RenderStep(data: seq<Word>, width: nat, iterations: nat)
    requires width > 0 && |data| > 0
    ensures var i := |data| - 1;
      Render(data, width, iterations)
        == Render(data[..i], width, iterations) + Cell(data[i], iterations, i % width == width - 1)
  {
  }

  /** Apart from its line breaks the output is one character per sample, in buffer order. */
  lemma {:induction false} RenderCharacters(data: seq<Word>, width: nat, iterations: nat)
    requires width > 0
    ensures Strip(Render(data, width, iterations)) == Classify(data, iterations)
    decreases |data|
  {
    if |data| > 0 {
      var i := |data| - 1;
      var endOfRow := i % width == width - 1;
      var prefix := Render(data[..i], width, iterations);
      RenderStep(data, width, iterations);
      RenderCharacters(data[..i], width, iterations);
      StripAppend(prefix, Cell(data[i], iterations, endOfRow));
      CellContents(data[i], iterations, endOfRow);
      ClassifyStep(data, iterations);
    }
  }

  lemma ClassifyStep(data: seq<Word>, iterations: nat)
    requires |data| > 0
    ensures Classify(data, iterations)
      == Classify(data[..|data| - 1], iterations) + [PointChar(data[|data| - 1], iterations)]
  {
  }

  /** The output breaks the line once after every full row of width samples. */
  lemma {:induction false} RenderLines(data: seq<Word>, width: nat, iterations: nat)
    requires width > 0
    ensures Newlines(Render(data, width, iterations)) == |data| / width
    decreases |data|
  {
    if |data| > 0 {
      var i := |data| - 1;
      RenderStep(data, width, iterations);
      RenderLines(data[..i], width, iterations);
      StripAppend(Render(data[..i], width, iterations), Cell(data[i], iterations, i % width == width - 1));
      CellContents(data[i], iterations, i % width == width - 1);
      DivStep(i, width);
    }
  }

  /*
   * The buffer operations as written. memset, memcpy and memcmp are handed
   * grid->size as a BYTE count, so they reach only the first size bytes of
   * a buffer that occupies WordSize * size bytes. These functions act on the
   * in-memory bytes of the samples; SetGrid, CopyGrid and GridEqual above
   * are the whole-buffer operations the code evidently intends.
   */

  /** set_grid as written: the first |data| bytes take val's low byte, the rest keep their value. */
  function SetGridAsWritten(data: seq<Word>, val: Word): (r: seq<Word>)
    ensures |r| == |data|
    ensures WordsToBytes(r)[..|data|] == seq(|data|, _ => (val % 256) as byte)
    ensures WordsToBytes(r)[|data|..] == WordsToBytes(data)[|data|..]
  {
    var bs := WordsToBytes(data);
    var written := seq(|data|, _ => (val % 256) as byte) + bs[|data|..];
    WordsToBytesOfBytesToWords(written);
    BytesToWords(written)
  }

  /** Clearing a one-sample grid as written leaves its upper bytes: 0x1234 becomes 0x1200, not 0. */
  lemma SetGridAsWrittenLeavesUpperBytes()
    ensures SetGridAsWritten([0x1234], 0) == [0x1200]
  {
    assert LeBytes(0x1234, WordSize) == [0x34, 0x12, 0, 0, 0, 0, 0, 0];
    assert LeBytes(0x1200, WordSize) == [0x00, 0x12, 0, 0, 0, 0, 0, 0];
    assert WordsToBytes([0x1234]) == LeBytes(0x1234, WordSize);
    assert WordsToBytes([0x1200]) == LeBytes(0x1200, WordSize);
    var written := seq(1, _ => (0 % 256) as byte) + WordsToBytes([0x1234])[1..];
    assert written == WordsToBytes([0x1200]);
    BytesToWordsOfWordsToBytes([0x1200]);
  }

  /** copy_grid as written: the first |src| bytes come from src, the rest are what dst already held. */
  function CopyGridAsWritten(dst: seq<Word>, src: seq<Word>): (r: seq<Word>)
    requires |dst| == |src|
    ensures |r| == |src|
    ensures WordsToBytes(r)[..|src|] == WordsToBytes(src)[..|src|]
    ensures WordsToBytes(r)[|src|..] == WordsToBytes(dst)[|src|..]
  {
    var written := WordsToBytes(src)[..|src|] + WordsToBytes(dst)[|src|..];
    WordsToBytesOfBytesToWords(written);
    BytesToWords(written)
  }

  /** Copying the sample 0x100 as written into a zeroed buffer yields 0: only its low byte moves. */
  lemma CopyGridAsWrittenDropsUpperBytes()
    ensures CopyGridAsWritten([0], [0x100]) == [0]
  {
    assert LeBytes(0x100, WordSize) == [0x00, 0x01, 0, 0, 0, 0, 0, 0];
    assert LeBytes(0, WordSize) == [0, 0, 0, 0, 0, 0, 0, 0];
    assert WordsToBytes([0x100]) == LeBytes(0x100, WordSize);
    assert WordsToBytes([0]) == LeBytes(0, WordSize);
    BytesToWordsOfWordsToBytes([0]);
  }

  /**
   * The byte counts of copy_grid and grid_equal as written mask each other:
   * a copy made as written always passes the as-written comparison with its
   * source, even where it lost samples' upper bytes.
   */
  lemma CopyGridAsWrittenPassesGridEqual(dst: seq<Word>, src: seq<Word>)
    requires |dst| == |src|
    ensures SamplesEqualAsWritten(CopyGridAsWritten(dst, src), src)
  {
  }

  /** The sample comparison of grid_equal as written: the first |a| bytes agree. */
  predicate SamplesEqualAsWritten(a: seq<Word>, b: seq<Word>)
    requires |a| == |b|
  {
    WordsToBytes(a)[..|a|] == WordsToBytes(b)[..|a|]
  }

  /** Whole-buffer equality implies the as-written comparison, but not conversely: 0x100 and 0 pass it. */
  lemma SamplesEqualAsWrittenIsWeaker(a: seq<Word>, b: seq<Word>)
    requires |a| == |b|
    ensures a == b ==> SamplesEqualAsWritten(a, b)
    ensures SamplesEqualAsWritten([0x100], [0]) && [0x100] != [0]
  {
    assert LeBytes(0x100, WordSize) == [0x00, 0x01, 0, 0, 0, 0, 0, 0];
    assert WordsToBytes([0x100]) == LeBytes(0x100, WordSize);
    assert WordsToBytes([0]) == LeBytes(0, WordSize);
  }

  /** The width of `int` on the targets the code is built for. */
  const IntLimit: nat := 0x1_0000_0000

  /**
   * |a - b| as grid_allclose computes it: the size_t difference wraps
   * modulo 2^64, is narrowed to a 32-bit int (two's complement) for abs,
   * and abs is taken of that. abs(INT_MIN), undefined in C, is taken as 2^31.
   */
  function AbsDiffAsWritten(a: Word, b: Word): (r: nat)
    ensures r <= IntLimit / 2
  {
    var wrapped := if a >= b then a - b else WordLimit - (b - a);
    var low := wrapped % IntLimit;
    var signed := if low >= IntLimit / 2 then low - IntLimit else low;
    if signed < 0 then -signed else signed
  }

  /** Samples that differ by 2^32 look identical to the as-written difference. */
  lemma AbsDiffAsWrittenLosesHighBits()
    ensures AbsDiffAsWritten(0x1_0000_0000, 0) == 0
    ensures AbsDiff(0x1_0000_0000, 0) == 0x1_0000_0000
  {
  }

  /** Below 2^31 the narrowing is harmless: the as-written difference is exact. */
  lemma AbsDiffAsWrittenExactForSmall(a: Word, b: Word)
    requires a < IntLimit / 2 && b < IntLimit / 2
    ensures AbsDiffAsWritten(a, b) == AbsDiff(a, b)
  {
    if a < b {
      DivUnique(WordLimit - (b - a), IntLimit, IntLimit - 1, IntLimit - (b - a));
    } else {
      DivUnique(a - b, IntLimit, 0, a - b);
    }
  }

  /** The sample test of grid_allclose as written: every narrowed difference is below the tolerance. */
  predicate WithinToleranceAsWritten(s: seq<Word>, t: seq<Word>, tolerance: nat) {
    |s| == |t| && forall i :: 0 <= i < |s| ==> AbsDiffAsWritten(s[i], t[i]) < tolerance
  }

  /** grid_allclose as written: the frame test, then the narrowed per-sample differences. */
  predicate GridAllcloseAsWritten(a: Grid, b: Grid, maxError: nat)
    reads a, b, a.data, b.data
  {
    SameFrame(a, b) && WithinToleranceAsWritten(Samples(a), Samples(b), maxError)
  }

  /**
   * Two one-sample grids with one frame, holding 2^32 and 0, are close at
   * max_error 1 as written, though they are not close at all.
   */
  lemma GridAllcloseAsWrittenAcceptsDistantSamples(a: Grid, b: Grid)
    requires SameFrame(a, b) && Samples(a) == [0x1_0000_0000] && Samples(b) == [0]
    ensures GridAllcloseAsWritten(a, b, 1)
    ensures !(SameFrame(a, b) && WithinTolerance(Samples(a), Samples(b), 1))
  {
    AbsDiffAsWrittenLosesHighBits();
    assert AbsDiff(Samples(a)[0], Samples(b)[0]) == 0x1_0000_0000;
  }
}
