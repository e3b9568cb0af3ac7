# im2dhistgo in Dafny

A verified model of the histogram kernels of im2dhistgo (`im2dhistgo.go`). The main kernel builds the
two-dimensional intensity-difference histogram of a grayscale image. For a window radius `w` it pairs
every pixel `(x, y)` with every neighbour `(x + i, y + j)`, `-w <= i, j <= w`, that lies inside the
image bounds. Each pair of intensities `(v1, v2)` adds `|v2 - v1| + 1` to bucket `v1 + 256 * v2` of
a 65536-bucket `uint32` histogram. When `v1 != v2` it adds the same amount to the mirrored bucket
`v2 + 256 * v1`. The kernel comes in a serial and a parallel version. Beside it is the ordinary
256-bucket intensity histogram, Imhist.

Files and modules:

- `sums.dfy` / `Sums`: finite sums over integer ranges and over sequences, with the facts the proofs
  need. These are extensionality, monotonicity, a point sum, a constant sum, addition, exchange of a
  double sum, and invariance of a sequence sum under permutation.
- `gray.dfy` / `MachineWords`: Go's `uint8`, `uint16`, `uint32` and 64-bit `int`, with the
  wrap-around of `+`, `*` and unary `-` written out.
- `gray.dfy` / `GrayImages`: the part of `image.Gray` the kernels read, namely the bounds rectangle
  and `GrayAt`. `GrayAt` gives 0 outside the bounds.
- `imhist.dfy` / `IntensityHistogram`: Imhist and its specification.
- `im2dhist.dfy` / `DifferenceHistogram`: the serial kernel Im2dhist. There is one method per loop
  of the Go code (x, y, i, j), plus the loop bodies.
- `parallel.dfy` / `ParallelDifferenceHistogram`: Im2dhist_parallel. It has the per-column
  `localHist`, the merge step, and the theorem that the merge order does not matter.

How the specification works:

- The specification functions are unbounded sums, one level per loop. `OffsetRowMass` is the j-loop,
  `PixelMass` the i-loop, `ColumnMass` the y-loop and `BucketMass` the x-loop.
- Every method proves that each bucket equals the matching sum reduced modulo 2^32. That is exactly
  what Go's wrapping `uint32 +=` computes.
- The parallel version is modelled as follows. The workers merge under a mutex, so every run of the
  program is a sequence of whole merges in some order. The model takes that order as a `schedule`
  parameter: any sequence that lists every column exactly once. It then proves that every such
  schedule gives the serial result.

Behaviour at the edges of the radius:

- The code does not reject a negative radius. With `w < 0` the offset loops run zero times and the
  histogram stays all zero. `Im2dhist`, `EmptyOffsetLoops` and `EmptyWindow` state that behaviour.
- Go's `int` is 64 bits wide on 64-bit platforms, which the model assumes, and `-w`, `w+1`,
  `x + i` and `y + j` wrap there. The model computes all four in two's complement. Two radii behave unlike the rest.
  At `w = MaxInt64`, `w+1` wraps to the most negative int, the offset loops run zero times, and the
  histogram is all zero. At `w = MinInt64`, `-w` wraps to `w` itself, so each offset loop runs once,
  for the offset `(w, w)` (`MostNegativeRadius`). Every lemma about a non-negative radius therefore
  asks for `0 <= w < MaxInt64`.

## Model

| member | source | states |
|---|---|---|
| DifferenceHistogram.Index | im2dhistgo.go:70 | `uint16(v1) + uint16(v2)*256` in 16-bit arithmetic never wraps: it is `v1 + 256 * v2`, a bucket in range |
| DifferenceHistogram.IndexDecodes | im2dhistgo.go:70 | a bucket decodes back to its pair: `% 256` gives v1 and `/ 256` gives v2 |
| DifferenceHistogram.IndexInjective | im2dhistgo.go:70-80 | two pairs share a bucket exactly when they are the same pair, in both directions |
| DifferenceHistogram.Weight | im2dhistgo.go:71-74 | the amount `uint32(|v2 - v1|) + 1` lies between 1 and 256, so it is never zero |
| DifferenceHistogram.Accumulate | im2dhistgo.go:70-81 | one in-bounds pair adds the weight to Index(v1, v2), adds it again to Index(v2, v1) only when v1 != v2, wraps at 2^32, and changes no other bucket |
| DifferenceHistogram.VisitWeightExact | im2dhistgo.go:71-81 | a pair adds exactly its weight to its bucket and to the mirrored bucket, and 0 to every other bucket |
| DifferenceHistogram.VisitWeightTotal | im2dhistgo.go:76-81 | summed over all buckets, a pair adds its weight once when v1 == v2 (diagonal) and twice otherwise |
| DifferenceHistogram.VisitSymmetric | im2dhistgo.go:70-80 | a pair gives bucket (a, b) exactly what it gives bucket (b, a) |
| DifferenceHistogram.VisitOffset | im2dhistgo.go:63-81 | the neighbour `x + i`, `y + j` is computed with 64-bit wrap-around; an offset whose neighbour falls outside the bounds changes nothing; an in-bounds one adds that pair's contribution |
| DifferenceHistogram.AccumulateOffsetRow | im2dhistgo.go:62-82 | the j-loop, from `-w` to `w+1` in wrapping arithmetic, adds the offset row (i, -w .. w) of pixel (x, y) to every bucket |
| DifferenceHistogram.AccumulateWindow | im2dhistgo.go:60-83 | reads v1 once; the i-loop adds the whole (2w+1) x (2w+1) window of pixel (x, y) |
| DifferenceHistogram.AccumulateColumn | im2dhistgo.go:59-85 | the y-loop adds the windows of every pixel of column x |
| DifferenceHistogram.Im2dhist | im2dhistgo.go:54-89 | a fresh histogram whose every bucket is BucketMass modulo 2^32; it is symmetric; it is all zero for MinInt64 < w < 0 and for w = MaxInt64 |
| DifferenceHistogram.Symmetric | im2dhistgo.go:74-81 | bucket (a, b) and bucket (b, a) receive the same total over the whole image |
| DifferenceHistogram.SymmetricBuckets | im2dhistgo.go:74-81 | that symmetry for every pair of intensities |
| DifferenceHistogram.EmptyOffsetLoops | im2dhistgo.go:61-62 | the offset loops run zero times exactly when MinInt64 < w < 0 or w = MaxInt64, in both directions |
| DifferenceHistogram.EmptyWindow | im2dhistgo.go:61-62 | when the offset loops run zero times, every bucket is zero |
| DifferenceHistogram.MostNegativeRadius | im2dhistgo.go:61-62 | at w = MinInt64, `-w` wraps to w, so the window of a pixel is the single offset (w, w) |
| DifferenceHistogram.CentreVisited | im2dhistgo.go:61-76 | for 0 <= w < MaxInt64 the centre offset (0, 0) is always visited, so a pixel adds at least 1 to its own diagonal bucket |
| DifferenceHistogram.DiagonalAtLeastCount | im2dhistgo.go:61-76 | for 0 <= w < MaxInt64, before wrap-around, diagonal bucket (v, v) holds at least as much as the count of pixels of intensity v that Imhist computes |
| DifferenceHistogram.SelfCountLowerBound | im2dhistgo.go:59-76 | for 0 <= w < MaxInt64, before wrap-around, the 256 diagonal buckets together hold at least one unit per pixel |
| DifferenceHistogram.SinglePixelOffsetRow | im2dhistgo.go:61-67 | in a 1 x 1 image, for any radius w >= 0, an offset row i != 0 adds nothing, even where `x + i` wraps |
| DifferenceHistogram.SinglePixelCentreRow | im2dhistgo.go:62-67 | in a 1 x 1 image the offset row i = 0 adds only the centre pair |
| DifferenceHistogram.SinglePixelWindow | im2dhistgo.go:61-67 | in a 1 x 1 image every offset but (0, 0) falls outside, so the pixel's window is its pair with itself |
| DifferenceHistogram.SinglePixel | im2dhistgo.go:54-89 | a 1 x 1 image gives a histogram holding a single 1, in bucket (v, v), whatever the radius 0 <= w < MaxInt64 |
| DifferenceHistogram.PairTotalIs | im2dhistgo.go:63-81 | over all buckets, one pair adds its weight once when v1 == v2, twice otherwise, and nothing out of bounds |
| DifferenceHistogram.OffsetRowTotalIs | im2dhistgo.go:62-82 | over all buckets, an offset row adds the totals of its pairs |
| DifferenceHistogram.WindowTotalIs | im2dhistgo.go:61-83 | over all buckets, a window adds the totals of its offset rows |
| DifferenceHistogram.ColumnTotalIs | im2dhistgo.go:59-85 | over all buckets, a column adds the totals of its windows |
| DifferenceHistogram.TotalMass | im2dhistgo.go:54-89 | summed over all 65536 buckets, before wrap-around, the histogram holds, for each pixel and each in-bounds neighbour in its window, the pair's weight once on the diagonal and twice off it |
| DifferenceHistogram.OffsetRowMassAsSum | im2dhistgo.go:62 | the j-loop specification is the sum over j of the pair contributions |
| DifferenceHistogram.PixelMassAsSum | im2dhistgo.go:61 | the i-loop specification is the sum over i of the offset rows |
| DifferenceHistogram.ColumnMassAsSum | im2dhistgo.go:59 | the y-loop specification is the sum over y of the pixel windows |
| DifferenceHistogram.BucketMassAsSum | im2dhistgo.go:58 | the x-loop specification is the sum over x of the columns |
| ParallelDifferenceHistogram.ColumnHist | im2dhistgo.go:103-130 | a worker's fresh, zeroed `localHist` ends up holding exactly column x's contribution, modulo 2^32 |
| ParallelDifferenceHistogram.MergeInto | im2dhistgo.go:132-136 | the critical section adds every localHist bucket into the shared one, wrapping; the localHist is left unchanged |
| ParallelDifferenceHistogram.ScheduledMassAsSum | im2dhistgo.go:132-136 | merging columns in the order of a schedule sums their contributions over that sequence |
| ParallelDifferenceHistogram.ScheduledMassStep | im2dhistgo.go:132-136 | merging one more column of the schedule adds exactly that column |
| ParallelDifferenceHistogram.ScheduleIndependent | im2dhistgo.go:95-139 | any order that merges every column exactly once gives the serial bucket |
| ParallelDifferenceHistogram.Im2dhistParallel | im2dhistgo.go:93-142 | under any merge order the fresh histogram's every bucket equals the serial Im2dhist's, BucketMass modulo 2^32 |
| IntensityHistogram.Imhist | im2dhistgo.go:147-157 | bucket v is the number of pixels of intensity v modulo 2^32; with fewer than 2^32 pixels it is that number exactly |
| IntensityHistogram.CountRow | im2dhistgo.go:151-154 | the x-loop increments bucket GrayAt(x, y) once per pixel of row y |
| IntensityHistogram.RowCountAsSum | im2dhistgo.go:151 | the row count is the sum over x of the per-pixel indicator |
| IntensityHistogram.CountAsSum | im2dhistgo.go:150 | the image count is the sum over y of the row counts |
| IntensityHistogram.RowCountsSum | im2dhistgo.go:151-154 | across one row, the 256 counts add up to the width of the image |
| IntensityHistogram.PixelCountsSum | im2dhistgo.go:147-156 | the 256 buckets add up to the number of pixels, Dx * Dy |
| IntensityHistogram.PixelCountBound | im2dhistgo.go:147-156 | no bucket exceeds the number of pixels |
| Sums.SumSeqPermutation | im2dhistgo.go:132-136 | reordering the terms of a sum does not change it; this is what makes the merge order irrelevant |
| Sums.SumSwap | im2dhistgo.go:58-59 | a double sum over a rectangle may be taken column-major (as Im2dhist loops) or row-major (as Imhist loops) |
| Sums.SumExchange | im2dhistgo.go:58-62 | summing the buckets of a loop level equals summing the loop's per-iteration totals |
| MachineWords.Wrap64 | im2dhistgo.go:61-64 | the two's-complement value of an exact result leaves one that already fits in 64 bits unchanged |
| MachineWords.Wrap64Congruent | im2dhistgo.go:61-64 | wrapping changes a value by a multiple of 2^64 only |
| MachineWords.Add64Wraps | im2dhistgo.go:61-64 | Go's `a + b` on int is the exact sum wrapped to 64 bits |
| MachineWords.Neg64Wraps | im2dhistgo.go:61-62 | Go's `-a` on int is the exact negation wrapped to 64 bits, so the most negative int is its own negation |
| MachineWords.Wrap64Moves | im2dhistgo.go:63-64 | moving an int by a nonzero offset smaller than 2^63 in size never wraps back to it |

## Left out

- File I/O and decoding: `Im2dhist_file` (im2dhistgo.go:21-49) and `getImageFromFilePath` (im2dhistgo.go:177-185) read files and decode images, which is outside the model.
- The colour pipeline that produces the gray image: the types `HSV` (im2dhistgo.go:188) and `RGB` (im2dhistgo.go:231), the conversions `(*RGB).HSV` (im2dhistgo.go:193-230) and `(*HSV).RGB` (im2dhistgo.go:236-265), and the helpers `float2uint8` (im2dhistgo.go:160-163) and `max` (im2dhistgo.go:165-173). They work in floating point. The model takes the gray image as its input.
- A 32-bit platform, where Go's `int` is 32 bits wide, is not modelled; `int` is taken to be 64 bits.
- DifferenceHistogram.CentreVisited: asks for `0 <= w < MaxInt64`. At `w = MaxInt64` the window is empty (EmptyWindow), so its conclusion does not hold there.
- DifferenceHistogram.DiagonalAtLeastCount: asks for `0 <= w < MaxInt64`. At `w = MaxInt64` the window is empty (EmptyWindow), so its conclusion does not hold there.
- DifferenceHistogram.SelfCountLowerBound: asks for `0 <= w < MaxInt64`. At `w = MaxInt64` the window is empty (EmptyWindow), so its conclusion does not hold there.
- DifferenceHistogram.SinglePixelCentreRow: asks for `0 <= w < MaxInt64`. At `w = MaxInt64` the window is empty (EmptyWindow), so its conclusion does not hold there.
- DifferenceHistogram.SinglePixelWindow: asks for `0 <= w < MaxInt64`. At `w = MaxInt64` the window is empty (EmptyWindow), so its conclusion does not hold there.
- DifferenceHistogram.SinglePixel: asks for `0 <= w < MaxInt64`. At `w = MaxInt64` the window is empty (EmptyWindow), so its conclusion does not hold there.
- DifferenceHistogram.Im2dhist: its all-zero clause does not cover `w = MinInt64`, where the window is the single wrapped offset (MostNegativeRadius) and the histogram is not zero in general.
- `main/main.go`, the command-line driver, is not part of this model.
- Goroutines, `sync.WaitGroup` and `sync.Mutex` are not modelled. They are replaced by the `schedule` parameter, the order in which the workers take the lock. Im2dhistParallel runs the workers one after the other in that order. Because each merge happens under the lock, every run of the Go code is such a sequence. The model does not prove that Go's scheduler is fair, or that the workers terminate.
- GrayImages.GrayAt: Go panics on an image whose pixel buffer is shorter than its bounds. `image.NewGray` never builds such an image. The model returns 0 there so that the kernels need no precondition.
- The serial kernel writes the mirrored update as `if v1 == v2 { continue }` (im2dhistgo.go:77-79). The parallel kernel writes it as `if v1 != v2 { ... }` (im2dhistgo.go:124-127). Both branches do the same thing. The model has one method, Accumulate, for both.
- The parallel kernel repeats the serial loop nest verbatim (im2dhistgo.go:104-130). The model shares one AccumulateColumn between the two kernels.
