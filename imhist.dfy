/** Imhist: the ordinary 256-bucket intensity histogram of a grayscale image. */
module IntensityHistogram {
  import opened MachineWords
  import opened GrayImages
  import opened Sums

  /** One bucket per 8-bit intensity. */
  const Levels: int := 256

  /** 1 when the sample at (x, y) has intensity v, else 0. */
  function Hit(img: GrayImage, v: int, x: int, y: int): nat
  {
    if img.GrayAt(x, y) == v then 1 else 0
  }

  /** The pixels of row y, among columns minX .. xEnd - 1, whose intensity is v. */
  function RowCountUpTo(img: GrayImage, v: int, y: int, xEnd: int): nat
    decreases xEnd - img.bounds.minX
  {
    if xEnd <= img.bounds.minX then 0 else RowCountUpTo(img, v, y, xEnd - 1) + Hit(img, v, xEnd - 1, y)
  }

  /** The pixels of row y whose intensity is v. */
  function RowCount(img: GrayImage, v: int, y: int): nat
  {
    RowCountUpTo(img, v, y, img.bounds.maxX)
  }

  /** The pixels of rows minY .. yEnd - 1 whose intensity is v. */
  function CountUpTo(img: GrayImage, v: int, yEnd: int): nat
    decreases yEnd - img.bounds.minY
  {
    if yEnd <= img.bounds.minY then 0 else CountUpTo(img, v, yEnd - 1) + RowCount(img, v, yEnd - 1)
  }

  /** The number of pixels of the image whose intensity is v. */
  function PixelCount(img: GrayImage, v: int): nat
  {
    CountUpTo(img, v, img.bounds.maxY)
  }

  /** Imhist: a double loop, rows outer and columns inner, that increments bucket GrayAt(x, y).
      Each bucket is the number of pixels of that intensity, wrapped to 32 bits as Go's uint32 is;
      an image with fewer than 2^32 pixels never wraps a bucket. */
  method Imhist(img: GrayImage) returns (histogram: array<uint32>)
    ensures histogram.Length == Levels
    ensures forall v :: 0 <= v < Levels ==> histogram[v] == PixelCount(img, v) % Modulus32
    ensures img.bounds.Dx() * img.bounds.Dy() < Modulus32 ==>
              forall v :: 0 <= v < Levels ==> histogram[v] == PixelCount(img, v)
  {
    histogram := new uint32[Levels](_ => 0);
    var y := img.bounds.minY;
    while y < img.bounds.maxY
      invariant img.bounds.minY <= y <= img.bounds.EndY()
      invariant histogram.Length == Levels
      invariant forall v :: 0 <= v < Levels ==> histogram[v] == CountUpTo(img, v, y) % Modulus32
    {
      CountRow(histogram, img, y);
      forall v | 0 <= v < Levels
        ensures histogram[v] == CountUpTo(img, v, y + 1) % Modulus32
      {
        WrapAdd(CountUpTo(img, v, y), RowCount(img, v, y));
      }
      y := y + 1;
    }
    PixelCountBound(img);
  }

  /** The inner loop of Imhist: adds the pixels of row y to the buckets. */
  method CountRow(histogram: array<uint32>, img: GrayImage, y: int)
    requires histogram.Length == Levels
    modifies histogram
    ensures forall v :: 0 <= v < Levels ==> histogram[v] == (old(histogram[v]) + RowCount(img, v, y)) % Modulus32
  {
    var x := img.bounds.minX;
    while x < img.bounds.maxX
      invariant img.bounds.minX <= x <= img.bounds.EndX()
      invariant forall v :: 0 <= v < Levels ==>
                  histogram[v] == (old(histogram[v]) + RowCountUpTo(img, v, y, x)) % Modulus32
    {
      var v := img.GrayAt(x, y);
      histogram[v] := Add32(histogram[v], 1);
      forall u | 0 <= u < Levels
        ensures histogram[u] == (old(histogram[u]) + RowCountUpTo(img, u, y, x + 1)) % Modulus32
      {
        WrapAdd(old(histogram[u]) + RowCountUpTo(img, u, y, x), Hit(img, u, x, y));
      }
      x := x + 1;
    }
  }

  /* The two count levels are the nested sums they describe. The counts are recursive functions,
     one step per loop iteration, which keeps the loop invariants cheap to check; the lemmas below
     reason about Sum, and these two lemmas convert between the forms. */

  lemma {:induction false} RowCountAsSum(img: GrayImage, v: int, y: int, xEnd: int)
    ensures RowCountUpTo(img, v, y, xEnd) == Sum(img.bounds.minX, xEnd, x => Hit(img, v, x, y))
    decreases xEnd - img.bounds.minX
  {
    if xEnd > img.bounds.minX {
      RowCountAsSum(img, v, y, xEnd - 1);
    }
  }

  lemma {:induction false} CountAsSum(img: GrayImage, v: int, yEnd: int)
    ensures CountUpTo(img, v, yEnd) == Sum(img.bounds.minY, yEnd, y => RowCount(img, v, y))
    decreases yEnd - img.bounds.minY
  {
    if yEnd > img.bounds.minY {
      CountAsSum(img, v, yEnd - 1);
    }
  }

  /** No bucket exceeds the number of pixels. */
  lemma PixelCountBound(img: GrayImage)
    ensures forall v :: 0 <= v < Levels ==> PixelCount(img, v) <= img.bounds.Dx() * img.bounds.Dy()
  {
    PixelCountsSum(img);
    forall v | 0 <= v < Levels
      ensures PixelCount(img, v) <= img.bounds.Dx() * img.bounds.Dy()
    {
      SumTerm(0, Levels, u => PixelCount(img, u), v);
    }
  }

  /** Across one row the 256 counts add up to the width of the image. */
  lemma RowCountsSum(img: GrayImage, y: int)
    ensures Sum(0, Levels, v => RowCount(img, v, y)) == img.bounds.Dx()
  {
    var minX: int, maxX: int := img.bounds.minX, img.bounds.maxX;
    var hit: (int, int) -> nat := (v, x) => Hit(img, v, x, y);
    forall v | 0 <= v < Levels
      ensures RowCount(img, v, y) == RowSum(hit, minX, maxX, v)
    {
      RowCountAsSum(img, v, y, maxX);
      SumExt(minX, maxX, x => Hit(img, v, x, y), x => hit(v, x));
    }
    SumExt(0, Levels, v => RowCount(img, v, y), v => RowSum(hit, minX, maxX, v));
    SumSwap(0, Levels, minX, maxX, hit);
    forall x | minX <= x < maxX
      ensures ColumnSum(hit, 0, Levels, x) == 1
    {
      SumPoint(0, Levels, v => hit(v, x), img.GrayAt(x, y));
    }
    SumConst(minX, maxX, x => ColumnSum(hit, 0, Levels, x), 1);
  }

  /** The 256 buckets add up to the number of pixels. */
  lemma PixelCountsSum(img: GrayImage)
    ensures Sum(0, Levels, v => PixelCount(img, v)) == img.bounds.Dx() * img.bounds.Dy()
  {
    var minY: int, maxY: int := img.bounds.minY, img.bounds.maxY;
    var row: (int, int) -> nat := (v, y) => RowCount(img, v, y);
    forall v | 0 <= v < Levels
      ensures PixelCount(img, v) == RowSum(row, minY, maxY, v)
    {
      CountAsSum(img, v, maxY);
      SumExt(minY, maxY, y => RowCount(img, v, y), y => row(v, y));
    }
    SumExt(0, Levels, v => PixelCount(img, v), v => RowSum(row, minY, maxY, v));
    SumSwap(0, Levels, minY, maxY, row);
    forall y | minY <= y < maxY
      ensures ColumnSum(row, 0, Levels, y) == img.bounds.Dx()
    {
      RowCountsSum(img, y);
      SumExt(0, Levels, v => row(v, y), v => RowCount(img, v, y));
    }
    SumConst(minY, maxY, y => ColumnSum(row, 0, Levels, y), img.bounds.Dx());
    var dx, dy := img.bounds.Dx(), img.bounds.Dy();
    assert dy == if minY <= maxY then maxY - minY else 0;
    assert dy * dx == dx * dy;
  }
}
