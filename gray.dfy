/** Go's fixed-width unsigned integers, with the wrap-around of their arithmetic written out. */
module MachineWords {

  type uint8 = x: int | 0 <= x < 0x100
  type uint16 = x: int | 0 <= x < 0x1_0000
  type uint32 = x: int | 0 <= x < 0x1_0000_0000
  /** Go's `int` on a 64-bit platform. */
  type int64 = x: int | -0x8000_0000_0000_0000 <= x < 0x8000_0000_0000_0000

  const Modulus16: int := 0x1_0000
  const Modulus32: int := 0x1_0000_0000
  const Modulus64: int := 0x1_0000_0000_0000_0000
  const MinInt64: int := -0x8000_0000_0000_0000
  const MaxInt64: int := 0x7FFF_FFFF_FFFF_FFFF

  /** `a + b` on Go uint16 operands. */
  function Add16(a: uint16, b: uint16): uint16
  {
    (a + b) % Modulus16
  }

  /** `a * b` on Go uint16 operands. */
  function Mul16(a: uint16, b: uint16): uint16
  {
    (a * b) % Modulus16
  }

  /** `a + b` on Go uint32 operands (also `a += b` and, with b = 1, `a++`). */
  function Add32(a: uint32, b: uint32): uint32
  {
    (a + b) % Modulus32
  }

  /** The two's-complement value of an exact result in Go's 64-bit `int`: n moved by a multiple
      of 2^64 into the int64 range. */
  function Wrap64(n: int): (r: int64)
    ensures MinInt64 <= n <= MaxInt64 ==> r == n
  {
    (n - MinInt64) % Modulus64 + MinInt64
  }

  /** `a + b` on Go ints: the exact sum of two int64 values is at most one 2^64 out of range. */
  function Add64(a: int64, b: int64): (r: int64)
  {
    var n := a as int + b as int;
    if n > MaxInt64 then n - Modulus64 else if n < MinInt64 then n + Modulus64 else n
  }

  /** `-a` on Go ints: the negation of the most negative int is itself. */
  function Neg64(a: int64): (r: int64)
  {
    if a == MinInt64 then a else -a
  }

  /** Add64 and Neg64 are the wrapped exact results. */
  lemma Add64Wraps(a: int64, b: int64)
    ensures Add64(a, b) == Wrap64(a + b)
  {
  }

  lemma Neg64Wraps(a: int64)
    ensures Neg64(a) == Wrap64(-(a as int))
  {
  }

  /** Wrap64 changes its argument by a multiple of 2^64 only. */
  lemma Wrap64Congruent(n: int)
    ensures (Wrap64(n) - n) % Modulus64 == 0
  {
  }

  /** Moving a Go int by a nonzero amount smaller than 2^63 in size never lands on it again. */
  lemma Wrap64Moves(x: int64, d: int)
    requires d != 0 && -MaxInt64 <= d <= MaxInt64
    ensures Wrap64(x + d) != x
  {
  }

  /** Adding to a counter that already wrapped is adding to the unwrapped total, then wrapping. */
  lemma WrapAdd(total: nat, c: nat)
    ensures (total % Modulus32 + c) % Modulus32 == (total + c) % Modulus32
  {
  }

  /** Adding a wrapped amount to a wrapped counter. */
  lemma WrapAddWrapped(total: nat, c: nat)
    ensures (total % Modulus32 + c % Modulus32) % Modulus32 == (total + c) % Modulus32
  {
  }
}

/** The part of Go's image.Gray that the histogram kernels use: bounds and GrayAt. */
module GrayImages {
  import opened MachineWords

  /** image.Rectangle: the half-open box [minX, maxX) x [minY, maxY). */
  datatype Rectangle = Rectangle(minX: int64, minY: int64, maxX: int64, maxY: int64)
  {
    /** image.Point.In: the point lies inside the box. */
    predicate Contains(x: int, y: int)
    {
      minX <= x < maxX && minY <= y < maxY
    }

    /** The number of columns, that is how many times `for x := Min.X; x < Max.X; x++` runs. */
    function Dx(): nat
    {
      if minX <= maxX then maxX - minX else 0
    }

    /** Where `for x := Min.X; x < Max.X; x++` stops. */
    function EndX(): int
    {
      minX + Dx()
    }

    /** Where `for y := Min.Y; y < Max.Y; y++` stops. */
    function EndY(): int
    {
      minY + Dy()
    }

    /** The number of rows. */
    function Dy(): nat
    {
      if minY <= maxY then maxY - minY else 0
    }
  }

  /** An 8-bit grayscale image; the sample at (x, y) is rows[y - minY][x - minX]. */
  datatype GrayImage = GrayImage(bounds: Rectangle, rows: seq<seq<uint8>>)
  {
    /** image.Gray.GrayAt: the sample at (x, y), and 0 for a point outside the bounds.
        A well-formed image has a sample for every point inside its bounds; the row-length
        guards only keep the function total. */
    function GrayAt(x: int, y: int): uint8
    {
      if bounds.Contains(x, y) && y - bounds.minY < |rows| && x - bounds.minX < |rows[y - bounds.minY]|
      then rows[y - bounds.minY][x - bounds.minX]
      else 0
    }
  }
}
