# complex-fractals, modelled in Dafny

A model of the computational core of complex-fractals, a C program that renders escape-time fractals:

- **Grid container** (src/grids.c). A `grid_t` holds:
  - an `x` by `y` resolution;
  - the lower-left and upper-right corners of a region of the complex plane;
  - one `size_t` sample per point.

  The model covers its constructor, fill and copy, the exact and tolerant comparisons, the mapping from a buffer index to a point, the zoom, the ASCII rendering, and the `.grid` file writer and reader.
- **Escape-time kernels** (src/shared-fractals.c, src/serial-fractals.c, src/mandelbrot.c). The seeded `mandelbrot` and `julia` kernels with the drivers that fill a grid, the serial `julia` with its early-return guard, and the zero-start `mandelbrot` and integer-power `multibrot` prototypes.
- **Lattice mapper** (src/util.c). `lattice_to_complex` places points on the fixed window [-2, 2] x [-2, 2].
- **Colour planes** (src/plotting.c). The red, green and blue channel container, with `create_colors` and `copy_colors`.

Modules:

| file | module | contents |
|---|---|---|
| complex.dfy | `ComplexPlane` | complex numbers over exact reals; modulus bounds through the squared norm |
| bytes.dfy | `Bytes` | bytes, `size_t` words and their little-endian in-memory layout |
| escape.dfy | `Escape` | the escape-time recurrence and the count every kernel returns |
| grid_format.dfy | `GridFormat` | the `.grid` byte layout: encoder, decoder and round trips |
| arithmetic.dfy | `Arithmetic` | facts about division, remainder, real steps and ordered products, used by the two index mappers, the rendering length, the narrowed difference and the serial julia guard |
| grids.dfy | `Grids` | the `Grid` class and the operations of grids.c |
| shared_fractals.dfy | `SharedFractals` | the kernels and drivers of shared-fractals.c |
| serial_fractals.dfy | `SerialFractals` | the kernels and driver of serial-fractals.c |
| mandelbrot_proto.dfy | `MandelbrotProto` | the kernels of mandelbrot.c |
| util.dfy | `Util` | `lattice_to_complex` |
| plotting.dfy | `Plotting` | the `Colors` class, `create_colors`, `copy_colors` |

Modelling choices:

- **Reals, not floats.** `long double complex` and `double complex` values are pairs of exact reals.
  - `cabs(z) <= 2` is written `re² + im² <= 4`.
  - `cabs(z) < R` is written `R > 0 && re² + im² < R²`.
  - Comparing a non-negative `t` with `cabs(z0)`, as in `t >= cabs(z0)`, is written `t >= 0 && re² + im² <= t²`.
- **Kernels against a specification function.** Every kernel is a `method` with the loop of the source, proved equal to `Escape.EscapeCount`.
  - `EscapeCount` is the number of steps z <- z^(2^d) + c taken while the bound test passes and the cap is not reached.
  - The seeded mandelbrot, julia, and the zero-start mandelbrot and multibrot are instances of it.
  - The shared and serial `mandelbrot` both meet `MandelbrotCount`, so they agree for every seed and cap.
- **Samples.** Samples are `Word`s, naturals below 2^64 (`size_t`); the buffer is an `array<Word>`.
- **The `.grid` codec.** The writer and reader work on byte sequences instead of `FILE*`.
  - Native words are taken to be 8 little-endian bytes.
  - A bound is an opaque 32-byte block (`sizeof(long double complex)`). `WriteGrid` and `ReadGrid` take the functions that turn a bound into its bytes and back.
  - The round trip needs those two functions to be inverse only on the grid's own two corners.
- **`set_grid` stores `val % 256` in each sample.** `memset` writes the byte `val % 256`.
  - Filling all 8 bytes of a sample with that byte would give `(val % 256) * 0x0101010101010101`, so the model agrees with a full-length `memset` only when `val % 256 == 0`.
  - It agrees with the comment at src/grids.c:41, which promises `val` itself, only for `val < 256`.
  - The only caller, `zoom_grid`, passes 0, where all three agree. The byte count of the code as written is under Findings.
- **The row index of `grid_to_complex`.**
  - grids.c computes the row as `index / y`, where util.c uses `index / x`. Both are modelled as written.
  - The `GridToComplex` lemmas show the point stays inside the region when `x <= y`, and leaves it for `x = 2`, `y = 1`.
  - The grid fill drivers use the mapper as written.
- **`print_grid` and `create_grid`.**
  - `print_grid` builds the string it would print.
  - Allocation in `create_grid` and `create_colors` is taken to succeed.

## Model

| member | source | states |
|---|---|---|
| Bytes.LeValueOfLeBytes | src/grids.c:167-168 | a value below 256^n read back from its n little-endian bytes is the value itself, as for the x and y header words |
| Bytes.LeBytesOfLeValue | src/grids.c:262-271 | every block of n bytes is the encoding of the value read from it |
| Bytes.BytesToWordsOfWordsToBytes | src/grids.c:174 | the in-memory bytes of a sample buffer read back as the same samples |
| Bytes.WordsToBytesOfBytesToWords | src/grids.c:293 | a byte block of whole words read as samples and written again is the same block |
| GridFormat.EncodeGrid | src/grids.c:157-176 | the bytes write_grid emits: the 83-byte header plus 8 bytes per sample, starting with the magic A6 00 5E |
| GridFormat.EncodeGridLayout | src/grids.c:157-176 | where write_grid puts each field after the magic: x at 3..11, y at 11..19, lower_left at 19..51, upper_right at 51..83, then size samples of 8 bytes |
| GridFormat.DecodeEncode | src/grids.c:244-300 | reading the bytes written for a well-formed image (x, y >= 1, x*y samples) gives that image back, whatever bytes follow it |
| GridFormat.EncodeDecode | src/grids.c:246-300 | conversely, every image the reader accepts is well formed and its encoding is a prefix of the input |
| GridFormat.DecodeGrid | src/grids.c:249-298 | every image the reader accepts is well formed (x, y >= 1 and x*y samples), and its input starts with the magic and holds the header and 8 bytes per sample |
| GridFormat.DecodeGridSucceeds | src/grids.c:249-298 | the reader accepts exactly when the magic is right, the whole 83-byte header is present, x >= 1 and y >= 1, and x*y whole samples follow; a short header, wrong magic, zero dimension or missing sample all fail |
| Grids.CreateGrid | src/grids.c:10-38 | no grid exactly when x == 0 or y == 0; otherwise a fresh grid with the given x, y and bounds, size == x*y and a fresh buffer of size samples |
| Grids.SetGrid | src/grids.c:43-46 | a missing grid or buffer is left alone; otherwise every sample becomes val % 256 and nothing else changes |
| Grids.GridEqual | src/grids.c:77-81 | the corrected grid_equal: same x, y and bounds, and every sample equal; a missing buffer counts as no samples and is consulted only after the frame test (no contract of its own; its meaning is stated by the next row) |
| Grids.GridEqualIsAllcloseAtOne | src/grids.c:77-98 | for any two grids, grid_equal holds exactly when grid_allclose's frame test passes and every pair of samples is within max_error 1 |
| Grids.CopyGrid | src/grids.c:51-60 | no copy exactly for a missing grid or buffer or a zero dimension; otherwise a fresh grid, with a fresh buffer, that is grid_equal to the original |
| Grids.GridAllclose | src/grids.c:86-98 | false if x, y or a bound differ; otherwise true exactly when every pair of samples differs by less than max_error; the buffers are read only after the frame test passes |
| Grids.SelfTolerance | src/grids.c:92-96 | a grid is close to itself exactly for max_error >= 1 or when it has no samples |
| Grids.ToleranceOneIsEquality | src/grids.c:92-96 | with max_error 1 the tolerance test is sample equality |
| Grids.ToleranceMonotone | src/grids.c:92-96 | a tolerance accepted at some max_error is accepted at every larger one |
| Grids.GridToComplex | src/grids.c:104-122 | for a region with lower_left.re < upper_right.re, the real part of every index's point lies in [lower_left.re, upper_right.re) |
| Grids.GridToComplexOrigin | src/grids.c:104-122 | index 0 maps to lower_left |
| Grids.GridToComplexColumn | src/grids.c:112-118 | the real part depends on index % x alone |
| Grids.GridToComplexNextRow | src/grids.c:115-118 | index and index + x share their real part |
| Grids.GridToComplexRow | src/grids.c:116-119 | the imaginary part depends on index / y alone |
| Grids.GridToComplexInsideWhenTall | src/grids.c:113-119 | when x <= y every index of the buffer has its imaginary part in [lower_left.im, upper_right.im) |
| Grids.GridToComplexOvershootsWhenWide | src/grids.c:113-119 | for x = 2, y = 1 the second sample of the only row maps onto the upper edge, outside the half-open region |
| Grids.Zoom | src/grids.c:134-138 | the new corners keep the centre (ll+ur)/2, and each extent becomes 2/magnification times the old one |
| Grids.ZoomByTwoKeepsBounds | src/grids.c:134-138 | magnification 2 leaves both corners unchanged |
| Grids.ZoomByOneDoubles | src/grids.c:134-138 | magnification 1 doubles both extents |
| Grids.ZoomGrid | src/grids.c:129-139 | through the corrected set_grid (see src/grids.c:45 under Findings) every sample becomes 0; x, y, size and the buffer stay; the corners become the zoomed ones |
| Grids.WriteGrid | src/grids.c:152-179 | GRID_NO_DATA and no output exactly for size == 0 or a missing buffer; otherwise the output is the magic, x, y, lower_left, upper_right and the samples, in that order |
| Grids.ReadGrid | src/grids.c:246-301 | no grid exactly when the decoder rejects the input; otherwise a fresh grid holding the decoded resolution, bounds and samples |
| Grids.WriteThenRead | src/grids.c:152-301 | for x, y >= 1, reading back what write_grid produced, with any bytes appended, gives a grid grid_equal to the original |
| Grids.PointChar | src/grids.c:213-235 | the character is one of the five bins ' ', '.', '*', '%', '#'; it is '#' exactly at the cap and ' ' exactly for a count of 0 below a non-zero cap |
| Grids.PointCharMonotone | src/grids.c:213-235 | up to the cap a larger count never gets a lighter character |
| Grids.PrintGrid | src/grids.c:202-238 | the output is the rendering of the grid's samples with rows of x; an empty grid prints nothing |
| Grids.Render | src/grids.c:219-236 | the text has one character per sample and one line break per full row: n + n / x characters for n samples |
| Grids.RenderCharacters | src/grids.c:219-236 | without its line breaks the output is one bin character per sample, in buffer order |
| Grids.RenderLines | src/grids.c:236 | the output has one line break per full row of x samples |
| Grids.SetGridAsWritten | src/grids.c:45 | the buffer after memset of size bytes: the first size bytes hold val's low byte and the other bytes are unchanged |
| Grids.SetGridAsWrittenLeavesUpperBytes | src/grids.c:45 | clearing a one-sample grid holding 0x1234 as written leaves 0x1200 |
| Grids.CopyGridAsWritten | src/grids.c:57 | the buffer after memcpy of size bytes: the first size bytes come from the source and the others keep what the new buffer held |
| Grids.CopyGridAsWrittenDropsUpperBytes | src/grids.c:57 | copying the sample 0x100 as written into a zeroed buffer gives 0 |
| Grids.CopyGridAsWrittenPassesGridEqual | src/grids.c:57-80 | a copy made by the size-byte memcpy always passes the size-byte memcmp against its source, so grid_equal as written cannot detect the lost bytes |
| Grids.SamplesEqualAsWritten | src/grids.c:80 | the memcmp of grid_equal as written: the first size bytes of the two buffers agree (no contract of its own; the next row states what it accepts) |
| Grids.SamplesEqualAsWrittenIsWeaker | src/grids.c:80 | equal buffers pass the size-byte memcmp, and so do the differing samples 0x100 and 0 |
| Grids.AbsDiffAsWritten | src/grids.c:95 | the narrowed difference is at most 2^31 |
| Grids.AbsDiffAsWrittenLosesHighBits | src/grids.c:95 | samples 2^32 and 0 differ by 0 as computed, by 2^32 exactly |
| Grids.AbsDiffAsWrittenExactForSmall | src/grids.c:95 | for samples below 2^31 the narrowed difference is the exact one |
| Grids.WithinToleranceAsWritten | src/grids.c:92-96 | the loop of grid_allclose as written: every narrowed difference is below max_error (no contract of its own) |
| Grids.GridAllcloseAsWritten | src/grids.c:86-98 | grid_allclose as written: the frame test, then the narrowed sample test (no contract of its own) |
| Grids.GridAllcloseAsWrittenAcceptsDistantSamples | src/grids.c:86-98 | one-sample grids with one frame, holding 2^32 and 0, pass grid_allclose as written at max_error 1 and fail the exact test |
| Escape.EscapeCount | src/shared-fractals.c:11-20 | a kernel's count never exceeds the cap |
| Escape.EscapeCountCharacterized | src/shared-fractals.c:14-17 | the count r is where the loop stops: the bound test passes on the first r orbit values, and when r is below the cap it fails on the r-th |
| Escape.EscapeCountUnique | src/shared-fractals.c:14-17 | any count with those two properties is the kernel's count |
| Escape.MandelbrotOrigin | src/shared-fractals.c:12-16 | the seed 0 stays at 0, so its count is the cap |
| Escape.MandelbrotOutsideDisk | src/shared-fractals.c:12-14 | a seed with cabs(z0) > 2 or a cap of 0 gives 0, because the test precedes the first step |
| Escape.JuliaOutsideRadius | src/shared-fractals.c:72-79 | a seed with cabs(z0) >= R gives 0 |
| Escape.JuliaOrigin | src/shared-fractals.c:72-79 | for R >= 2 the seed 0 with c = 0 stays at 0, so its count is the cap |
| Escape.ZeroStartIsOneStepAhead | src/mandelbrot.c:14-21 | with a cap N >= 1, starting from 0 costs one step that lands on the seed; then it counts as the seeded mandelbrot with cap N - 1 |
| Escape.ZeroStartOutsideDisk | src/mandelbrot.c:14-19 | with a cap N >= 1 a seed with cabs(z0) > 2 gives exactly 1 |
| Escape.ZeroStartOrigin | src/mandelbrot.c:31-42 | from the seed 0 both zero-start kernels reach the cap, for every exponent |
| Escape.SquareTimesIsPower | src/mandelbrot.c:35-39 | squaring d times raises to the power 2^d, so a multibrot step computes z^(2^d) + z0 |
| SharedFractals.Mandelbrot | src/shared-fractals.c:11-20 | the result is the mandelbrot count of the seed, at most the cap |
| SharedFractals.MandelbrotGrid | src/shared-fractals.c:25-33 | every sample becomes the mandelbrot count of its point; only the buffer changes |
| SharedFractals.Julia | src/shared-fractals.c:71-80 | the result is the julia count, at most the cap, and 0 when cabs(z0) >= R |
| SharedFractals.JuliaGrid | src/shared-fractals.c:82-89 | every sample becomes the julia count of its point for the given c and R; only the buffer changes |
| SerialFractals.Mandelbrot | src/serial-fractals.c:8-17 | the result is the same mandelbrot count as the shared kernel's |
| SerialFractals.MandelbrotGrid | src/serial-fractals.c:22-29 | in index order every sample becomes the count of its point; the loop keeps the samples not yet reached unchanged |
| SerialFractals.GuardedJuliaCount | src/serial-fractals.c:64-72 | the guarded count never exceeds the cap |
| SerialFractals.Julia | src/serial-fractals.c:62-73 | 0 when the guard R*R - R >= cabs(z0) holds, otherwise the julia count |
| SerialFractals.GuardedJuliaOutsideRadius | src/serial-fractals.c:65-72 | the guard aside, a seed with cabs(z0) >= R still gives 0 |
| SerialFractals.GuardedJuliaVanishes | src/serial-fractals.c:64-72 | for R >= 2 the guarded kernel returns 0 for every seed, constant and cap |
| SerialFractals.GuardedJuliaDiffersAtOrigin | src/serial-fractals.c:64 | for R >= 2 and a cap N >= 1, the seed 0 with c = 0 gets 0 from the guarded kernel and N from the unguarded count |
| SerialFractals.GuardedJuliaFiresBelowTwo | src/serial-fractals.c:64-72 | the guard fires below R = 2 as well: at R = 1.5 the seed 0 with c = 0 gets 0 from the guarded kernel and the cap from the unguarded count |
| MandelbrotProto.Mandelbrot | src/mandelbrot.c:13-22 | the result is the zero-start count with exponent 1, at most the cap |
| MandelbrotProto.Multibrot | src/mandelbrot.c:30-43 | the result is the zero-start count for z -> z^(2^d) + z0, at most the cap; for d = 1 it is the zero-start mandelbrot's |
| Util.LatticeOrigin | src/util.c:7-21 | index 0 maps to -2 - 2i |
| Util.LatticeToComplex | src/util.c:6-22 | the point of every index has its real part in [-2, 2): the column never reaches the right edge |
| Util.LatticeImagInside | src/util.c:13-19 | the imaginary part is at least -2, and below 2 exactly for the indices below x*y |
| Util.LatticeColumn | src/util.c:15-18 | two indices share their real part exactly when they share index % x |
| Util.LatticeRow | src/util.c:16-19 | two indices share their imaginary part exactly when they share index / x |
| Util.LatticeInjective | src/util.c:15-19 | distinct indices map to distinct points |
| Plotting.CreateColors | src/plotting.c:43-71 | no planes exactly when x == 0 or y == 0; otherwise fresh planes with the given x and y, size == x*y, and three distinct fresh channels of size bytes |
| Plotting.CopyColors | src/plotting.c:73-86 | no copy exactly for missing planes, a missing channel or a zero dimension; otherwise fresh planes and channels with the same x, y, size and bytes; the original is not modified |

## Left out

- Floating point: rounding, overflow to infinity and NaN are not modelled. Every complex operation is exact, and `cabs` is replaced by comparisons of squared norms. Equality of `long double complex` bounds is value equality.
- The in-memory format of `long double complex` is not modelled. `WriteGrid` and `ReadGrid` take it as a parameter.
- Allocation failure in `create_grid`, `create_colors` and `copy_*` is not modelled: a grid or colour plane with non-zero dimensions is always created.
- `size_t` overflow of `x * y` in `create_grid`, `create_colors` and `read_grid` is not modelled: `size` is the exact product.
- Failing `fwrite` calls (`GRID_WRITE_ERROR`) and the `perror`/`fprintf` diagnostics are left out: the codec works on byte sequences.
- `print_grid_info` is left out. It only prints.
- The `printf` side of `print_grid` is left out: `PrintGrid` returns the text instead.
- `free_grid` and `free_colors` are left out: memory release has no counterpart in Dafny.
- OpenMP: `mandelbrot_grid` and `julia_grid` in shared-fractals.c are modelled as sequential loops. Each index is written once, from values that do not depend on other samples.
- The `cpowl`-based `multibrot` and `multibrot_grid` in shared-fractals.c and serial-fractals.c are left out: they compute a transcendental complex power.
- src/renderers.c is not part of this model: it consists of libgd calls and floating-point scaling.
- The stubs `get_color`, `get_red`, `get_green` and `get_blue` in plotting.c are left out: they return uninitialised values.
- The `main` functions and the declarations in the headers that disagree with the definitions are not part of this model.
- Grids.ZoomGrid: requires magnification != 0; division by zero gives infinite bounds in C.
- Grids.GridToComplex: requires x > 0 and y > 0. A zero x is a remainder by zero in C, and a grid with a zero dimension cannot be created.
- Util.LatticeToComplex: requires a resolution with x > 0 and y > 0. A zero x is a remainder by zero in C, and a zero y gives an infinite step.
- Grids.PrintGrid: requires the buffer to be present when size > 0, since print_grid reads it for each sample without a NULL guard.
- Grids.GridAllclose: requires both buffers to be present when the frames agree and size > 0, since only then does grid_allclose read them, without a NULL guard.
- Grids.SetGrid: stores `val % 256` in each whole sample. A full-length `memset` would leave `(val % 256) * 0x0101010101010101` there, which agrees only when `val % 256 == 0`. The comment at src/grids.c:41 promises `val`, which agrees only for `val < 256`. The only caller, `zoom_grid`, passes 0, where all three agree.
- Grids.AbsDiffAsWritten: assumes `int` is 32-bit two's complement and that narrowing keeps the low 32 bits. `abs(INT_MIN)`, undefined in C, is taken as 2^31.
- Escape.JuliaOrigin: stated for radius >= 2, where the serial guard zeroes every seed (GuardedJuliaVanishes), and not for every positive radius. The origin for 0 < R < 2 is left unstated in general because the solver does not close the nonlinear step `0 < R*R` there; the single radius 1.5 is covered by GuardedJuliaFiresBelowTwo.
- Plotting.Colors: channels are bytes 0..255; the signedness of `char` is not modelled.

## Findings

| source | as written | input that shows it | evidently intended | confidence | as-written member | corrected member |
|---|---|---|---|---|---|---|
| src/grids.c:45 | `memset` is given `grid->size`, a sample count, as its byte count, so only the first size of the size*8 bytes are set | a one-sample grid holding 0x1234, cleared with val 0 as `zoom_grid` does, holds 0x1200 | every sample of the buffer is set | not executed | Grids.SetGridAsWrittenLeavesUpperBytes | Grids.SetGrid |
| src/grids.c:57 | `memcpy` copies `grid->size` bytes, so only the first size of the size*8 bytes reach the copy | copying a grid whose one sample is 0x100 into a buffer holding 0 gives a copy holding 0, which differs from the source sample by sample, though grid_equal as written still reports it equal (CopyGridAsWrittenPassesGridEqual) | the copy holds every sample of the source | not executed | Grids.CopyGridAsWrittenDropsUpperBytes | Grids.CopyGrid |
| src/grids.c:80 | `memcmp` compares `grid1->size` bytes, so only the first size of the size*8 bytes are compared | one-sample grids with the same frame holding 0x100 and 0 compare equal | equality of every sample | not executed | Grids.SamplesEqualAsWrittenIsWeaker | Grids.GridEqual |
| src/grids.c:95 | the `size_t` difference wraps and is narrowed to `int` before `abs` | one-sample grids with the same frame holding 2^32 and 0 give a difference of 0, so they are close at max_error 1 | the exact difference of the two samples | not executed | Grids.GridAllcloseAsWrittenAcceptsDistantSamples | Grids.GridAllclose |
| src/serial-fractals.c:64 | the guard `R*R - R >= cabs(z0)` returns 0 before iterating | R = 2, z0 = 0, c = 0, any cap N >= 1: the result is 0, though the orbit stays at 0 and the shared kernel returns N; for R >= 2 every seed gets 0 | the escape count of the seed, as the shared-memory julia computes it | not executed | SerialFractals.GuardedJuliaDiffersAtOrigin | SharedFractals.Julia |
