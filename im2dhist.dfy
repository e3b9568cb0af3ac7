/** Im2dhist: the 65536-bucket two-dimensional intensity-difference histogram of a grayscale
    image. Every pixel (x, y) is paired with every neighbour (x + i, y + j), -w <= i, j <= w, that
    lies inside the image; the pair of intensities (v1, v2) adds |v2 - v1| + 1 to bucket
    v1 + 256 * v2 and, when v1 != v2, the same amount to the mirrored bucket v2 + 256 * v1. */
module DifferenceHistogram {
  import opened MachineWords
  import opened GrayImages
  import opened Sums
  import IntensityHistogram

  /** Intensities per axis, and buckets in all. */
  const Bins: int := 256
  const HistSize: int := 65536

  /** `uint16(v1) + uint16(v2)*256`: the bucket of the intensity pair (v1, v2), in 16-bit
      arithmetic, which never wraps here; the bucket decodes back to the pair. */
  function Index(v1: uint8, v2: uint8): (r: int)
    ensures 0 <= r < HistSize
    ensures r == v1 + 256 * v2
  {
    Add16(v1, Mul16(v2, Bins))
  }

  /** A bucket decodes back to its pair: the low byte is v1, the high byte v2. */
  lemma IndexDecodes(v1: uint8, v2: uint8)
    ensures Index(v1, v2) % Bins == v1 && Index(v1, v2) / Bins == v2
  {
  }

  /** `uint32(|v2 - v1|) + 1`: what one pair adds to its buckets, never zero. */
  function Weight(v1: uint8, v2: uint8): (r: uint32)
    ensures 1 <= r <= Bins
  {
    var diff := v2 - v1;
    Add32(if diff < 0 then -diff else diff, 1)
  }

  /** What one in-bounds pair, centre intensity v1 and neighbour intensity v2, adds to bucket k:
      the weight at Index(v1, v2) and, only when v1 != v2, the weight again at Index(v2, v1). */
  function VisitWeight(v1: uint8, v2: uint8, k: int): nat
  {
    (if k == Index(v1, v2) then Weight(v1, v2) else 0) +
    (if v1 != v2 && k == Index(v2, v1) then Weight(v1, v2) else 0)
  }

  /** What pixel (x, y) and offset (i, j) add to bucket k: nothing when the neighbour falls
      outside the bounds (no padding). The neighbour `x + i`, `y + j` is computed in Go's
      wrapping 64-bit `int`. */
  function PairWeight(img: GrayImage, x: int, y: int, i: int, j: int, k: int): nat
  {
    if img.bounds.Contains(Wrap64(x + i), Wrap64(y + j))
    then VisitWeight(img.GrayAt(x, y), img.GrayAt(Wrap64(x + i), Wrap64(y + j)), k)
    else 0
  }

  /** Offsets (i, -w) .. (i, jEnd - 1) of pixel (x, y), for bucket k, where -w is Go's wrapping
      negation. */
  function OffsetRowMassUpTo(img: GrayImage, w: int64, x: int, y: int, i: int, k: int, jEnd: int): nat
    decreases jEnd - Neg64(w)
  {
    if jEnd <= Neg64(w) then 0 else OffsetRowMassUpTo(img, w, x, y, i, k, jEnd - 1) + PairWeight(img, x, y, i, jEnd - 1, k)
  }

  /** Offsets (i, -w) .. (i, w) of pixel (x, y), for bucket k: the j-loop, which stops at Go's
      wrapping w+1. */
  function OffsetRowMass(img: GrayImage, w: int64, x: int, y: int, i: int, k: int): nat
  {
    OffsetRowMassUpTo(img, w, x, y, i, k, Add64(w, 1))
  }

  /** Offset rows -w .. iEnd - 1 of the window around pixel (x, y), for bucket k. */
  function PixelMassUpTo(img: GrayImage, w: int64, x: int, y: int, k: int, iEnd: int): nat
    decreases iEnd - Neg64(w)
  {
    if iEnd <= Neg64(w) then 0 else PixelMassUpTo(img, w, x, y, k, iEnd - 1) + OffsetRowMass(img, w, x, y, iEnd - 1, k)
  }

  /** The whole (2w+1) x (2w+1) window around pixel (x, y), for bucket k. */
  function PixelMass(img: GrayImage, w: int64, x: int, y: int, k: int): nat
  {
    PixelMassUpTo(img, w, x, y, k, Add64(w, 1))
  }

  /** Pixels (x, minY) .. (x, yEnd - 1) of column x, for bucket k. */
  function ColumnMassUpTo(img: GrayImage, w: int64, x: int, k: int, yEnd: int): nat
    decreases yEnd - img.bounds.minY
  {
    if yEnd <= img.bounds.minY then 0 else ColumnMassUpTo(img, w, x, k, yEnd - 1) + PixelMass(img, w, x, yEnd - 1, k)
  }

  /** Column x, for bucket k: what one worker of the parallel version puts in its localHist. */
  function ColumnMass(img: GrayImage, w: int64, x: int, k: int): nat
  {
    ColumnMassUpTo(img, w, x, k, img.bounds.maxY)
  }

  /** Columns minX .. xEnd - 1, for bucket k. */
  function BucketMassUpTo(img: GrayImage, w: int64, k: int, xEnd: int): nat
    decreases xEnd - img.bounds.minX
  {
    if xEnd <= img.bounds.minX then 0 else BucketMassUpTo(img, w, k, xEnd - 1) + ColumnMass(img, w, xEnd - 1, k)
  }

  /** Bucket k of the histogram, before any 32-bit wrap-around. */
  function BucketMass(img: GrayImage, w: int64, k: int): nat
  {
    BucketMassUpTo(img, w, k, img.bounds.maxX)
  }

  /* The four mass levels are the nested sums they describe. Each level is written as its own
     recursive function, one step per loop iteration, so that a loop invariant unfolds a single
     call; stating the invariants with Sum and lambdas instead makes every loop proof far more
     expensive. The lemmas below reason about Sum, so these four lemmas convert between the two. */

  lemma {:induction false} OffsetRowMassAsSum(img: GrayImage, w: int64, x: int, y: int, i: int, k: int, jEnd: int)
    ensures OffsetRowMassUpTo(img, w, x, y, i, k, jEnd) == Sum(Neg64(w), jEnd, j => PairWeight(img, x, y, i, j, k))
    decreases jEnd - Neg64(w)
  {
    if jEnd > Neg64(w) {
      OffsetRowMassAsSum(img, w, x, y, i, k, jEnd - 1);
    }
  }

  lemma {:induction false} PixelMassAsSum(img: GrayImage, w: int64, x: int, y: int, k: int, iEnd: int)
    ensures PixelMassUpTo(img, w, x, y, k, iEnd) == Sum(Neg64(w), iEnd, i => OffsetRowMass(img, w, x, y, i, k))
    decreases iEnd - Neg64(w)
  {
    if iEnd > Neg64(w) {
      PixelMassAsSum(img, w, x, y, k, iEnd - 1);
    }
  }

  lemma {:induction false} ColumnMassAsSum(img: GrayImage, w: int64, x: int, k: int, yEnd: int)
    ensures ColumnMassUpTo(img, w, x, k, yEnd) == Sum(img.bounds.minY, yEnd, y => PixelMass(img, w, x, y, k))
    decreases yEnd - img.bounds.minY
  {
    if yEnd > img.bounds.minY {
      ColumnMassAsSum(img, w, x, k, yEnd - 1);
    }
  }

  lemma {:induction false} BucketMassAsSum(img: GrayImage, w: int64, k: int, xEnd: int)
    ensures BucketMassUpTo(img, w, k, xEnd) == Sum(img.bounds.minX, xEnd, x => ColumnMass(img, w, x, k))
    decreases xEnd - img.bounds.minX
  {
    if xEnd > img.bounds.minX {
      BucketMassAsSum(img, w, k, xEnd - 1);
    }
  }

  /** The diagonal bucket Index(a, a) of intensity a (and 0 for a value that is no intensity). */
  function DiagonalMass(img: GrayImage, w: int64, a: int): nat
  {
    if 0 <= a < Bins then BucketMass(img, w, Index(a, a)) else 0
  }

  /** Where `for i := -w; i < w+1; i++` stops, both bounds in Go's wrapping arithmetic: at w+1, or
      at -w itself when the loop never runs. */
  function OffsetEnd(w: int64): int64
  {
    if Neg64(w) <= Add64(w, 1) then Add64(w, 1) else Neg64(w)
  }

  /** One in-bounds pair: `twodhist[index1] += v_diff_incremented` and, when v1 != v2,
      `twodhist[index2] += v_diff_incremented`, each wrapping at 2^32. */
  method Accumulate(hist: array<uint32>, v1: uint8, v2: uint8)
    requires hist.Length == HistSize
    modifies hist
    ensures forall k :: 0 <= k < HistSize ==> hist[k] == (old(hist[k]) + VisitWeight(v1, v2, k)) % Modulus32
  {
    var index1 := Index(v1, v2);
    var diff := v2 - v1;
    if diff < 0 {
      diff := -diff;
    }
    var increment := Add32(diff, 1);
    hist[index1] := Add32(hist[index1], increment);
    if v1 != v2 {
      var index2 := Index(v2, v1);
      hist[index2] := Add32(hist[index2], increment);
    }
  }

  /** The body of the innermost loop: offset (i, j) of pixel (x, y), skipped (`continue`) when the
      neighbour falls outside the bounds. */
  method VisitOffset(hist: array<uint32>, img: GrayImage, x: int64, y: int64, v1: uint8, i: int64, j: int64)
    requires hist.Length == HistSize
    requires v1 == img.GrayAt(x, y)
    modifies hist
    ensures forall k :: 0 <= k < HistSize ==>
              hist[k] == (old(hist[k]) + PairWeight(img, x, y, i, j, k)) % Modulus32
  {
    var xKernel, yKernel := Add64(x, i), Add64(y, j);
    Add64Wraps(x, i);
    Add64Wraps(y, j);
    if xKernel < img.bounds.minX || xKernel >= img.bounds.maxX ||
       yKernel < img.bounds.minY || yKernel >= img.bounds.maxY {
      return;
    }
    var v2 := img.GrayAt(xKernel, yKernel);
    Accumulate(hist, v1, v2);
  }

  /** The innermost loop, over j, for one offset row i of the window around (x, y). */
  method AccumulateOffsetRow(hist: array<uint32>, img: GrayImage, w: int64, x: int64, y: int64, v1: uint8, i: int64)
    requires hist.Length == HistSize
    requires v1 == img.GrayAt(x, y)
    modifies hist
    ensures forall k :: 0 <= k < HistSize ==>
              hist[k] == (old(hist[k]) + OffsetRowMass(img, w, x, y, i, k)) % Modulus32
  {
    ghost var start := hist[..];
    var j := Neg64(w);
    while j < Add64(w, 1)
      invariant Neg64(w) <= j <= OffsetEnd(w)
      invariant forall k :: 0 <= k < HistSize ==>
                  hist[k] == (start[k] + OffsetRowMassUpTo(img, w, x, y, i, k, j)) % Modulus32
    {
      VisitOffset(hist, img, x, y, v1, i, j);
      forall k | 0 <= k < HistSize
        ensures hist[k] == (start[k] + OffsetRowMassUpTo(img, w, x, y, i, k, j + 1)) % Modulus32
      {
        WrapAdd(start[k] + OffsetRowMassUpTo(img, w, x, y, i, k, j), PairWeight(img, x, y, i, j, k));
      }
      j := j + 1;
    }
  }

  /** The loop over i: the whole window around pixel (x, y). */
  method AccumulateWindow(hist: array<uint32>, img: GrayImage, w: int64, x: int64, y: int64)
    requires hist.Length == HistSize
    modifies hist
    ensures forall k :: 0 <= k < HistSize ==>
              hist[k] == (old(hist[k]) + PixelMass(img, w, x, y, k)) % Modulus32
  {
    ghost var start := hist[..];
    var v1 := img.GrayAt(x, y);
    var i := Neg64(w);
    while i < Add64(w, 1)
      invariant Neg64(w) <= i <= OffsetEnd(w)
      invariant forall k :: 0 <= k < HistSize ==>
                  hist[k] == (start[k] + PixelMassUpTo(img, w, x, y, k, i)) % Modulus32
    {
      AccumulateOffsetRow(hist, img, w, x, y, v1, i);
      forall k | 0 <= k < HistSize
        ensures hist[k] == (start[k] + PixelMassUpTo(img, w, x, y, k, i + 1)) % Modulus32
      {
        WrapAdd(start[k] + PixelMassUpTo(img, w, x, y, k, i), OffsetRowMass(img, w, x, y, i, k));
      }
      i := i + 1;
    }
  }

  /** The loop over y: every pixel of column x (the body of one worker of the parallel version). */
  method AccumulateColumn(hist: array<uint32>, img: GrayImage, w: int64, x: int64)
    requires hist.Length == HistSize
    modifies hist
    ensures forall k :: 0 <= k < HistSize ==>
              hist[k] == (old(hist[k]) + ColumnMass(img, w, x, k)) % Modulus32
  {
    ghost var start := hist[..];
    var y := img.bounds.minY;
    while y < img.bounds.maxY
      invariant img.bounds.minY <= y <= img.bounds.EndY()
      invariant forall k :: 0 <= k < HistSize ==>
                  hist[k] == (start[k] + ColumnMassUpTo(img, w, x, k, y)) % Modulus32
    {
      AccumulateWindow(hist, img, w, x, y);
      forall k | 0 <= k < HistSize
        ensures hist[k] == (start[k] + ColumnMassUpTo(img, w, x, k, y + 1)) % Modulus32
      {
        assert ColumnMassUpTo(img, w, x, k, y + 1) == ColumnMassUpTo(img, w, x, k, y) + PixelMass(img, w, x, y, k);
        WrapAdd(start[k] + ColumnMassUpTo(img, w, x, k, y), PixelMass(img, w, x, y, k));
      }
      y := y + 1;
    }
  }

  /** Im2dhist, the serial kernel: bucket k is BucketMass(img, w, k) wrapped to 32 bits, and the
      histogram is symmetric across its diagonal. A negative radius other than the most negative
      int, and the largest int, whose w+1 wraps, leave it all zero. */
  method Im2dhist(img: GrayImage, w: int64) returns (twodhist: array<uint32>)
    ensures fresh(twodhist)
    ensures twodhist.Length == HistSize
    ensures forall k :: 0 <= k < HistSize ==> twodhist[k] == BucketMass(img, w, k) % Modulus32
    ensures forall a: uint8, b: uint8 :: twodhist[Index(a, b)] == twodhist[Index(b, a)]
    ensures MinInt64 < w < 0 || w == MaxInt64 ==> forall k :: 0 <= k < HistSize ==> twodhist[k] == 0
  {
    twodhist := new uint32[HistSize](_ => 0);
    var x := img.bounds.minX;
    while x < img.bounds.maxX
      invariant img.bounds.minX <= x <= img.bounds.EndX()
      invariant twodhist.Length == HistSize
      invariant forall k :: 0 <= k < HistSize ==> twodhist[k] == BucketMassUpTo(img, w, k, x) % Modulus32
    {
      AccumulateColumn(twodhist, img, w, x);
      forall k | 0 <= k < HistSize
        ensures twodhist[k] == BucketMassUpTo(img, w, k, x + 1) % Modulus32
      {
        WrapAdd(BucketMassUpTo(img, w, k, x), ColumnMass(img, w, x, k));
      }
      x := x + 1;
    }
    SymmetricBuckets(img, w);
    EmptyOffsetLoops(w);
    if Add64(w, 1) <= Neg64(w) {
      EmptyWindow(img, w);
    }
  }

  /** Distinct intensity pairs have distinct buckets. */
  lemma IndexInjective(a: uint8, b: uint8, c: uint8, d: uint8)
    ensures Index(a, b) == Index(c, d) <==> a == c && b == d
  {
  }

  /** One pair adds exactly its weight to Index(v1, v2) and to Index(v2, v1), and nothing elsewhere. */
  lemma VisitWeightExact(v1: uint8, v2: uint8)
    ensures VisitWeight(v1, v2, Index(v1, v2)) == Weight(v1, v2)
    ensures VisitWeight(v1, v2, Index(v2, v1)) == Weight(v1, v2)
    ensures forall k :: k != Index(v1, v2) && k != Index(v2, v1) ==> VisitWeight(v1, v2, k) == 0
  {
  }

  /** In all one pair adds twice its weight off the diagonal and its weight once on it. */
  lemma VisitWeightTotal(v1: uint8, v2: uint8)
    ensures Sum(0, HistSize, k => VisitWeight(v1, v2, k)) == (if v1 == v2 then 1 else 2) * Weight(v1, v2)
  {
    var weight := Weight(v1, v2);
    var direct: int -> nat := k => if k == Index(v1, v2) then weight else 0;
    var mirrored: int -> nat := k => if v1 != v2 && k == Index(v2, v1) then weight else 0;
    SumAdd(0, HistSize, direct, mirrored, k => VisitWeight(v1, v2, k));
    SumPoint(0, HistSize, direct, Index(v1, v2));
    if v1 == v2 {
      SumZero(0, HistSize, mirrored);
    } else {
      SumPoint(0, HistSize, mirrored, Index(v2, v1));
    }
  }

  /** The mirrored bucket of a pair receives exactly what the direct one does. */
  lemma VisitSymmetric(v1: uint8, v2: uint8, a: uint8, b: uint8)
    ensures VisitWeight(v1, v2, Index(a, b)) == VisitWeight(v1, v2, Index(b, a))
  {
    IndexInjective(a, b, v1, v2);
    IndexInjective(b, a, v1, v2);
    IndexInjective(a, b, v2, v1);
    IndexInjective(b, a, v2, v1);
  }

  /** Symmetry: bucket (a, b) and bucket (b, a) hold the same total. */
  lemma Symmetric(img: GrayImage, w: int64, a: uint8, b: uint8)
    ensures BucketMass(img, w, Index(a, b)) == BucketMass(img, w, Index(b, a))
  {
    var k1, k2 := Index(a, b), Index(b, a);
    forall x: int, y: int, i: int
      ensures OffsetRowMass(img, w, x, y, i, k1) == OffsetRowMass(img, w, x, y, i, k2)
    {
      forall j: int
        ensures PairWeight(img, x, y, i, j, k1) == PairWeight(img, x, y, i, j, k2)
      {
        VisitSymmetric(img.GrayAt(x, y), img.GrayAt(Wrap64(x + i), Wrap64(y + j)), a, b);
      }
      OffsetRowMassAsSum(img, w, x, y, i, k1, Add64(w, 1));
      OffsetRowMassAsSum(img, w, x, y, i, k2, Add64(w, 1));
      SumExt(Neg64(w), Add64(w, 1), j => PairWeight(img, x, y, i, j, k1), j => PairWeight(img, x, y, i, j, k2));
    }
    forall x: int, y: int
      ensures PixelMass(img, w, x, y, k1) == PixelMass(img, w, x, y, k2)
    {
      PixelMassAsSum(img, w, x, y, k1, Add64(w, 1));
      PixelMassAsSum(img, w, x, y, k2, Add64(w, 1));
      SumExt(Neg64(w), Add64(w, 1), i => OffsetRowMass(img, w, x, y, i, k1),
                        i => OffsetRowMass(img, w, x, y, i, k2));
    }
    forall x: int
      ensures ColumnMass(img, w, x, k1) == ColumnMass(img, w, x, k2)
    {
      ColumnMassAsSum(img, w, x, k1, img.bounds.maxY);
      ColumnMassAsSum(img, w, x, k2, img.bounds.maxY);
      SumExt(img.bounds.minY, img.bounds.maxY, y => PixelMass(img, w, x, y, k1), y => PixelMass(img, w, x, y, k2));
    }
    BucketMassAsSum(img, w, k1, img.bounds.maxX);
    BucketMassAsSum(img, w, k2, img.bounds.maxX);
    SumExt(img.bounds.minX, img.bounds.maxX, x => ColumnMass(img, w, x, k1), x => ColumnMass(img, w, x, k2));
  }

  /** Symmetry for every pair of intensities at once. */
  lemma SymmetricBuckets(img: GrayImage, w: int64)
    ensures forall a: uint8, b: uint8 :: BucketMass(img, w, Index(a, b)) == BucketMass(img, w, Index(b, a))
  {
    forall a: uint8, b: uint8
      ensures BucketMass(img, w, Index(a, b)) == BucketMass(img, w, Index(b, a))
    {
      Symmetric(img, w, a, b);
    }
  }

  /** The offset loops `for i := -w; i < w+1; i++` run zero times exactly for a negative radius
      other than the most negative int (whose negation wraps to itself) and for the largest int
      (whose w+1 wraps to the most negative one). */
  lemma EmptyOffsetLoops(w: int64)
    ensures Add64(w, 1) <= Neg64(w) <==> MinInt64 < w < 0 || w == MaxInt64
  {
    if w == MinInt64 {
      assert Neg64(w) == MinInt64;
    } else if w == MaxInt64 {
      assert Add64(w, 1) == MinInt64;
    }
  }

  /** The most negative radius: -w wraps to w itself, so each loop runs once, for the single offset
      (w, w). */
  lemma MostNegativeRadius(img: GrayImage, x: int, y: int, k: int)
    ensures PixelMass(img, MinInt64, x, y, k) == PairWeight(img, x, y, MinInt64, MinInt64, k)
  {
    assert Neg64(MinInt64) == MinInt64;
    assert Add64(MinInt64, 1) == MinInt64 + 1;
  }

  /** When the offset loops run zero times, every bucket stays zero. */
  lemma EmptyWindow(img: GrayImage, w: int64)
    requires Add64(w, 1) <= Neg64(w)
    ensures forall k :: BucketMass(img, w, k) == 0
  {
    forall k: int, x: int
      ensures ColumnMass(img, w, x, k) == 0
    {
      ColumnMassAsSum(img, w, x, k, img.bounds.maxY);
      SumZero(img.bounds.minY, img.bounds.maxY, y => PixelMass(img, w, x, y, k));
    }
    forall k: int
      ensures BucketMass(img, w, k) == 0
    {
      BucketMassAsSum(img, w, k, img.bounds.maxX);
      SumZero(img.bounds.minX, img.bounds.maxX, x => ColumnMass(img, w, x, k));
    }
  }

  /** The centre offset (0, 0) is always visited: bucket Index(v, v) of pixel (x, y)'s window
      gets at least 1 when the pixel has intensity v. */
  lemma CentreVisited(img: GrayImage, w: int64, x: int, y: int, v: uint8)
    requires 0 <= w < MaxInt64
    requires img.bounds.Contains(x, y)
    ensures PixelMass(img, w, x, y, Index(v, v)) >= IntensityHistogram.Hit(img, v, x, y)
  {
    var k := Index(v, v);
    OffsetRowMassAsSum(img, w, x, y, 0, k, Add64(w, 1));
    SumTerm(Neg64(w), Add64(w, 1), j => PairWeight(img, x, y, 0, j, k), 0);
    PixelMassAsSum(img, w, x, y, k, Add64(w, 1));
    SumTerm(Neg64(w), Add64(w, 1), i => OffsetRowMass(img, w, x, y, i, k), 0);
  }

  /** Every diagonal bucket holds at least as much as the number of pixels of its intensity. */
  lemma DiagonalAtLeastCount(img: GrayImage, w: int64, v: uint8)
    requires 0 <= w < MaxInt64
    ensures BucketMass(img, w, Index(v, v)) >= IntensityHistogram.PixelCount(img, v)
  {
    var k := Index(v, v);
    var minX: int, maxX: int, minY: int, maxY: int := img.bounds.minX, img.bounds.maxX, img.bounds.minY, img.bounds.maxY;
    var hit: (int, int) -> nat := (x, y) => IntensityHistogram.Hit(img, v, x, y);
    forall x | minX <= x < maxX
      ensures RowSum(hit, minY, maxY, x) <= ColumnMass(img, w, x, k)
    {
      forall y | minY <= y < maxY
        ensures hit(x, y) <= PixelMass(img, w, x, y, k)
      {
        CentreVisited(img, w, x, y, v);
      }
      ColumnMassAsSum(img, w, x, k, maxY);
      SumMono(minY, maxY, y => hit(x, y), y => PixelMass(img, w, x, y, k));
    }
    BucketMassAsSum(img, w, k, maxX);
    SumMono(minX, maxX, x => RowSum(hit, minY, maxY, x), x => ColumnMass(img, w, x, k));
    SumSwap(minX, maxX, minY, maxY, hit);
    forall y | minY <= y < maxY
      ensures ColumnSum(hit, minX, maxX, y) == IntensityHistogram.RowCount(img, v, y)
    {
      IntensityHistogram.RowCountAsSum(img, v, y, maxX);
      SumExt(minX, maxX, x => hit(x, y), x => IntensityHistogram.Hit(img, v, x, y));
    }
    SumExt(minY, maxY, y => ColumnSum(hit, minX, maxX, y), y => IntensityHistogram.RowCount(img, v, y));
    IntensityHistogram.CountAsSum(img, v, maxY);
  }

  /** The self-count lower bound: the diagonal buckets together hold at least one unit per pixel. */
  lemma SelfCountLowerBound(img: GrayImage, w: int64)
    requires 0 <= w < MaxInt64
    ensures Sum(0, Bins, a => DiagonalMass(img, w, a)) >= img.bounds.Dx() * img.bounds.Dy()
  {
    forall a | 0 <= a < Bins
      ensures IntensityHistogram.PixelCount(img, a) <= DiagonalMass(img, w, a)
    {
      DiagonalAtLeastCount(img, w, a);
    }
    SumMono(0, Bins, a => IntensityHistogram.PixelCount(img, a), a => DiagonalMass(img, w, a));
    IntensityHistogram.PixelCountsSum(img);
  }

  /** In a 1 x 1 image an offset row other than i = 0 adds nothing: x + i wraps back onto x only
      for a multiple of 2^64. */
  lemma SinglePixelOffsetRow(img: GrayImage, w: int64, i: int, k: int)
    requires img.bounds.Dx() == 1 && img.bounds.Dy() == 1
    requires 0 <= w
    requires -w <= i <= w && i != 0
    ensures OffsetRowMass(img, w, img.bounds.minX, img.bounds.minY, i, k) == 0
  {
    var x, y := img.bounds.minX, img.bounds.minY;
    Wrap64Moves(x, i);
    OffsetRowMassAsSum(img, w, x, y, i, k, Add64(w, 1));
    SumZero(Neg64(w), Add64(w, 1), j => PairWeight(img, x, y, i, j, k));
  }

  /** In a 1 x 1 image the offset row i = 0 holds only the centre offset. */
  lemma SinglePixelCentreRow(img: GrayImage, w: int64, k: int)
    requires img.bounds.Dx() == 1 && img.bounds.Dy() == 1
    requires 0 <= w < MaxInt64
    ensures OffsetRowMass(img, w, img.bounds.minX, img.bounds.minY, 0, k) ==
              VisitWeight(img.GrayAt(img.bounds.minX, img.bounds.minY), img.GrayAt(img.bounds.minX, img.bounds.minY), k)
  {
    var x, y := img.bounds.minX, img.bounds.minY;
    forall j | -w <= j < w + 1 && j != 0
      ensures PairWeight(img, x, y, 0, j, k) == 0
    {
      Wrap64Moves(y, j);
    }
    OffsetRowMassAsSum(img, w, x, y, 0, k, w + 1);
    SumPoint(-w, w + 1, j => PairWeight(img, x, y, 0, j, k), 0);
  }

  /** In a 1 x 1 image the window of the pixel holds only the centre offset. */
  lemma SinglePixelWindow(img: GrayImage, w: int64, k: int)
    requires img.bounds.Dx() == 1 && img.bounds.Dy() == 1
    requires 0 <= w < MaxInt64
    ensures PixelMass(img, w, img.bounds.minX, img.bounds.minY, k) ==
              VisitWeight(img.GrayAt(img.bounds.minX, img.bounds.minY), img.GrayAt(img.bounds.minX, img.bounds.minY), k)
  {
    var x, y := img.bounds.minX, img.bounds.minY;
    forall i | -w <= i < w + 1 && i != 0
      ensures OffsetRowMass(img, w, x, y, i, k) == 0
    {
      SinglePixelOffsetRow(img, w, i, k);
    }
    SinglePixelCentreRow(img, w, k);
    PixelMassAsSum(img, w, x, y, k, w + 1);
    SumPoint(-w, w + 1, i => OffsetRowMass(img, w, x, y, i, k), 0);
  }

  /** A 1 x 1 image: its only pair is the pixel with itself, so the histogram holds a single 1,
      in bucket Index(v, v), whatever the radius. */
  lemma SinglePixel(img: GrayImage, w: int64)
    requires img.bounds.Dx() == 1 && img.bounds.Dy() == 1
    requires 0 <= w < MaxInt64
    ensures forall k :: BucketMass(img, w, k) ==
              if k == Index(img.GrayAt(img.bounds.minX, img.bounds.minY), img.GrayAt(img.bounds.minX, img.bounds.minY))
              then 1 else 0
  {
    var x, y := img.bounds.minX, img.bounds.minY;
    var v := img.GrayAt(x, y);
    forall k: int
      ensures BucketMass(img, w, k) == if k == Index(v, v) then 1 else 0
    {
      SinglePixelWindow(img, w, k);
      ColumnMassAsSum(img, w, x, k, img.bounds.maxY);
      SumPoint(y, img.bounds.maxY, y' => PixelMass(img, w, x, y', k), y);
      BucketMassAsSum(img, w, k, img.bounds.maxX);
      SumPoint(x, img.bounds.maxX, x' => ColumnMass(img, w, x', k), x);
    }
  }

  /** What pixel (x, y) and offset (i, j) add to the histogram as a whole: the pair's weight once
      when its two intensities are equal, twice otherwise, and nothing out of bounds. */
  function PairTotal(img: GrayImage, x: int, y: int, i: int, j: int): nat
  {
    if img.bounds.Contains(Wrap64(x + i), Wrap64(y + j))
    then
      var v1, v2 := img.GrayAt(x, y), img.GrayAt(Wrap64(x + i), Wrap64(y + j));
      (if v1 == v2 then 1 else 2) * Weight(v1, v2)
    else 0
  }

  /** What the window of pixel (x, y) adds to the histogram as a whole. */
  function WindowTotal(img: GrayImage, w: int64, x: int, y: int): nat
  {
    Sum(Neg64(w), Add64(w, 1), i => Sum(Neg64(w), Add64(w, 1), j => PairTotal(img, x, y, i, j)))
  }

  /** What the whole image adds to the histogram: the windows of all pixels. */
  function ImageTotal(img: GrayImage, w: int64): nat
  {
    Sum(img.bounds.minX, img.bounds.maxX, x => Sum(img.bounds.minY, img.bounds.maxY, y => WindowTotal(img, w, x, y)))
  }

  /** Over all buckets, one pair adds its total. */
  lemma PairTotalIs(img: GrayImage, x: int, y: int, i: int, j: int)
    ensures Sum(0, HistSize, k => PairWeight(img, x, y, i, j, k)) == PairTotal(img, x, y, i, j)
  {
    if img.bounds.Contains(Wrap64(x + i), Wrap64(y + j)) {
      var v1, v2 := img.GrayAt(x, y), img.GrayAt(Wrap64(x + i), Wrap64(y + j));
      VisitWeightTotal(v1, v2);
      SumExt(0, HistSize, k => PairWeight(img, x, y, i, j, k), k => VisitWeight(v1, v2, k));
    } else {
      SumZero(0, HistSize, k => PairWeight(img, x, y, i, j, k));
    }
  }

  /** Over all buckets, one offset row adds the totals of its pairs. */
  lemma OffsetRowTotalIs(img: GrayImage, w: int64, x: int, y: int, i: int)
    ensures Sum(0, HistSize, k => OffsetRowMass(img, w, x, y, i, k)) ==
              Sum(Neg64(w), Add64(w, 1), j => PairTotal(img, x, y, i, j))
  {
    var lo, hi := Neg64(w), Add64(w, 1);
    var f: (int, int) -> nat := (k, j) => PairWeight(img, x, y, i, j, k);
    forall k | 0 <= k < HistSize
      ensures OffsetRowMass(img, w, x, y, i, k) == RowSum(f, lo, hi, k)
    {
      OffsetRowMassAsSum(img, w, x, y, i, k, hi);
      SumExt(lo, hi, j => PairWeight(img, x, y, i, j, k), j => f(k, j));
    }
    forall j | lo <= j < hi
      ensures PairTotal(img, x, y, i, j) == ColumnSum(f, 0, HistSize, j)
    {
      PairTotalIs(img, x, y, i, j);
      SumExt(0, HistSize, k => PairWeight(img, x, y, i, j, k), k => f(k, j));
    }
    SumExchange(0, HistSize, lo, hi, f, k => OffsetRowMass(img, w, x, y, i, k), j => PairTotal(img, x, y, i, j));
  }

  /** Over all buckets, the window of pixel (x, y) adds WindowTotal. */
  lemma WindowTotalIs(img: GrayImage, w: int64, x: int, y: int)
    ensures Sum(0, HistSize, k => PixelMass(img, w, x, y, k)) == WindowTotal(img, w, x, y)
  {
    var lo, hi := Neg64(w), Add64(w, 1);
    var f: (int, int) -> nat := (k, i) => OffsetRowMass(img, w, x, y, i, k);
    forall k | 0 <= k < HistSize
      ensures PixelMass(img, w, x, y, k) == RowSum(f, lo, hi, k)
    {
      PixelMassAsSum(img, w, x, y, k, hi);
      SumExt(lo, hi, i => OffsetRowMass(img, w, x, y, i, k), i => f(k, i));
    }
    forall i | lo <= i < hi
      ensures Sum(lo, hi, j => PairTotal(img, x, y, i, j)) == ColumnSum(f, 0, HistSize, i)
    {
      OffsetRowTotalIs(img, w, x, y, i);
      SumExt(0, HistSize, k => OffsetRowMass(img, w, x, y, i, k), k => f(k, i));
    }
    SumExchange(0, HistSize, lo, hi, f, k => PixelMass(img, w, x, y, k),
                i => Sum(lo, hi, j => PairTotal(img, x, y, i, j)));
  }

  /** Over all buckets, column x adds the totals of its windows. */
  lemma ColumnTotalIs(img: GrayImage, w: int64, x: int)
    ensures Sum(0, HistSize, k => ColumnMass(img, w, x, k)) ==
              Sum(img.bounds.minY, img.bounds.maxY, y => WindowTotal(img, w, x, y))
  {
    var lo, hi := img.bounds.minY, img.bounds.maxY;
    var f: (int, int) -> nat := (k, y) => PixelMass(img, w, x, y, k);
    forall k | 0 <= k < HistSize
      ensures ColumnMass(img, w, x, k) == RowSum(f, lo, hi, k)
    {
      ColumnMassAsSum(img, w, x, k, hi);
      SumExt(lo, hi, y => PixelMass(img, w, x, y, k), y => f(k, y));
    }
    forall y | lo <= y < hi
      ensures WindowTotal(img, w, x, y) == ColumnSum(f, 0, HistSize, y)
    {
      WindowTotalIs(img, w, x, y);
      SumExt(0, HistSize, k => PixelMass(img, w, x, y, k), k => f(k, y));
    }
    SumExchange(0, HistSize, lo, hi, f, k => ColumnMass(img, w, x, k), y => WindowTotal(img, w, x, y));
  }

  /** Total mass: summed over all 65536 buckets, the histogram (before 32-bit wrap-around) holds,
      for every pixel and every in-bounds neighbour of its window, the pair's weight once when
      the two intensities are equal and twice otherwise. */
  lemma TotalMass(img: GrayImage, w: int64)
    ensures Sum(0, HistSize, k => BucketMass(img, w, k)) == ImageTotal(img, w)
  {
    var lo, hi := img.bounds.minX, img.bounds.maxX;
    var f: (int, int) -> nat := (k, x) => ColumnMass(img, w, x, k);
    forall k | 0 <= k < HistSize
      ensures BucketMass(img, w, k) == RowSum(f, lo, hi, k)
    {
      BucketMassAsSum(img, w, k, hi);
      SumExt(lo, hi, x => ColumnMass(img, w, x, k), x => f(k, x));
    }
    forall x | lo <= x < hi
      ensures Sum(img.bounds.minY, img.bounds.maxY, y => WindowTotal(img, w, x, y)) == ColumnSum(f, 0, HistSize, x)
    {
      ColumnTotalIs(img, w, x);
      SumExt(0, HistSize, k => ColumnMass(img, w, x, k), k => f(k, x));
    }
    SumExchange(0, HistSize, lo, hi, f, k => BucketMass(img, w, k),
                x => Sum(img.bounds.minY, img.bounds.maxY, y => WindowTotal(img, w, x, y)));
  }
}
