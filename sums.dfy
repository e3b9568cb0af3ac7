/** Finite sums of natural-number terms, over integer ranges and over sequences.
    The histogram specifications are sums of this kind, nested one level per loop. */
module Sums {

  /** The sum of f(t) for lo <= t < hi, accumulated from lo upwards (the order a for loop adds in). */
  function Sum(lo: int, hi: int, f: int -> nat): nat
    decreases hi - lo
  {
    if hi <= lo then 0 else Sum(lo, hi - 1, f) + f(hi - 1)
  }

  lemma {:induction false} SumExt(lo: int, hi: int, f: int -> nat, g: int -> nat)
    requires forall t :: lo <= t < hi ==> f(t) == g(t)
    ensures Sum(lo, hi, f) == Sum(lo, hi, g)
    decreases hi - lo
  {
    if lo < hi {
      SumExt(lo, hi - 1, f, g);
    }
  }

  lemma {:induction false} SumZero(lo: int, hi: int, f: int -> nat)
    requires forall t :: lo <= t < hi ==> f(t) == 0
    ensures Sum(lo, hi, f) == 0
    decreases hi - lo
  {
    if lo < hi {
      SumZero(lo, hi - 1, f);
    }
  }

  lemma {:induction false} SumMono(lo: int, hi: int, f: int -> nat, g: int -> nat)
    requires forall t :: lo <= t < hi ==> f(t) <= g(t)
    ensures Sum(lo, hi, f) <= Sum(lo, hi, g)
    decreases hi - lo
  {
    if lo < hi {
      SumMono(lo, hi - 1, f, g);
    }
  }

  /** Every term is bounded by the sum. */
  lemma {:induction false} SumTerm(lo: int, hi: int, f: int -> nat, t: int)
    requires lo <= t < hi
    ensures f(t) <= Sum(lo, hi, f)
    decreases hi - lo
  {
    if t < hi - 1 {
      SumTerm(lo, hi - 1, f, t);
    }
  }

  /** A sum whose terms vanish everywhere but at t is that one term. */
  lemma {:induction false} SumPoint(lo: int, hi: int, f: int -> nat, t: int)
    requires lo <= t < hi
    requires forall s :: lo <= s < hi && s != t ==> f(s) == 0
    ensures Sum(lo, hi, f) == f(t)
    decreases hi - lo
  {
    if t < hi - 1 {
      SumPoint(lo, hi - 1, f, t);
    } else {
      SumZero(lo, hi - 1, f);
    }
  }

  lemma {:induction false} SumConst(lo: int, hi: int, f: int -> nat, c: nat)
    requires forall t :: lo <= t < hi ==> f(t) == c
    ensures Sum(lo, hi, f) == (if lo <= hi then hi - lo else 0) * c
    decreases hi - lo
  {
    if lo < hi {
      SumConst(lo, hi - 1, f, c);
      assert (hi - 1 - lo) * c + c == (hi - lo) * c;
    }
  }

  lemma {:induction false} SumAdd(lo: int, hi: int, f: int -> nat, g: int -> nat, h: int -> nat)
    requires forall t :: lo <= t < hi ==> h(t) == f(t) + g(t)
    ensures Sum(lo, hi, h) == Sum(lo, hi, f) + Sum(lo, hi, g)
    decreases hi - lo
  {
    if lo < hi {
      SumAdd(lo, hi - 1, f, g, h);
    }
  }

  /** The sum of f(a, b) over lo <= b < hi: one row of a double sum. */
  function RowSum(f: (int, int) -> nat, lo: int, hi: int, a: int): nat
  {
    Sum(lo, hi, b => f(a, b))
  }

  /** The sum of f(a, b) over lo <= a < hi: one column of a double sum. */
  function ColumnSum(f: (int, int) -> nat, lo: int, hi: int, b: int): nat
  {
    Sum(lo, hi, a => f(a, b))
  }

  /** A double sum over a rectangle may be taken row by row or column by column. */
  lemma {:induction false} SumSwap(lo1: int, hi1: int, lo2: int, hi2: int, f: (int, int) -> nat)
    ensures Sum(lo1, hi1, a => RowSum(f, lo2, hi2, a)) == Sum(lo2, hi2, b => ColumnSum(f, lo1, hi1, b))
    decreases hi1 - lo1
  {
    if hi1 <= lo1 {
      SumZero(lo2, hi2, b => ColumnSum(f, lo1, hi1, b));
    } else {
      SumSwap(lo1, hi1 - 1, lo2, hi2, f);
      SumAdd(lo2, hi2, b => ColumnSum(f, lo1, hi1 - 1, b), b => f(hi1 - 1, b), b => ColumnSum(f, lo1, hi1, b));
    }
  }

  /** Exchange of summation order for any outer and inner summands that are the rows and the
      columns of the same double sum. */
  lemma SumExchange(lo1: int, hi1: int, lo2: int, hi2: int, f: (int, int) -> nat, outer: int -> nat, inner: int -> nat)
    requires forall a :: lo1 <= a < hi1 ==> outer(a) == RowSum(f, lo2, hi2, a)
    requires forall b :: lo2 <= b < hi2 ==> inner(b) == ColumnSum(f, lo1, hi1, b)
    ensures Sum(lo1, hi1, outer) == Sum(lo2, hi2, inner)
  {
    SumExt(lo1, hi1, outer, a => RowSum(f, lo2, hi2, a));
    SumSwap(lo1, hi1, lo2, hi2, f);
    SumExt(lo2, hi2, b => ColumnSum(f, lo1, hi1, b), inner);
  }

  /** lo, lo + 1, ..., hi - 1. */
  function Range(lo: int, hi: int): (r: seq<int>)
    ensures |r| == if lo <= hi then hi - lo else 0
    ensures forall n :: 0 <= n < |r| ==> r[n] == lo + n
    decreases hi - lo
  {
    if hi <= lo then [] else Range(lo, hi - 1) + [hi - 1]
  }

  /** The sum of f over the elements of s, accumulated from the front (the order a merge loop adds in). */
  function SumSeq(s: seq<int>, f: int -> nat): nat
  {
    if s == [] then 0 else SumSeq(s[..|s| - 1], f) + f(s[|s| - 1])
  }

  lemma {:induction false} SumSeqRange(lo: int, hi: int, f: int -> nat)
    ensures SumSeq(Range(lo, hi), f) == Sum(lo, hi, f)
    decreases hi - lo
  {
    if lo < hi {
      var r := Range(lo, hi);
      assert r[..|r| - 1] == Range(lo, hi - 1);
      SumSeqRange(lo, hi - 1, f);
    }
  }

  lemma {:induction false} SumSeqConcat(s: seq<int>, t: seq<int>, f: int -> nat)
    ensures SumSeq(s + t, f) == SumSeq(s, f) + SumSeq(t, f)
    decreases |t|
  {
    if t == [] {
      assert s + t == s;
    } else {
      var st := s + t;
      assert st[..|st| - 1] == s + t[..|t| - 1];
      SumSeqConcat(s, t[..|t| - 1], f);
    }
  }

  /** Reordering the terms does not change a sum. */
  lemma {:induction false} SumSeqPermutation(s: seq<int>, t: seq<int>, f: int -> nat)
    requires multiset(s) == multiset(t)
    ensures SumSeq(s, f) == SumSeq(t, f)
    decreases |s|
  {
    if s == [] {
      assert |t| == |multiset(t)| == 0;
    } else {
      var e := s[|s| - 1];
      assert s == s[..|s| - 1] + [e];
      assert e in multiset(t);
      var p :| 0 <= p < |t| && t[p] == e;
      var rest := t[..p] + t[p + 1..];
      assert t == t[..p] + [e] + t[p + 1..];
      SumSeqConcat(t[..p] + [e], t[p + 1..], f);
      SumSeqConcat(t[..p], [e], f);
      SumSeqConcat(t[..p], t[p + 1..], f);
      assert [e][..0] == [];
      assert multiset(t) == multiset(t[..p]) + multiset([e]) + multiset(t[p + 1..]);
      assert multiset(rest) == multiset(t[..p]) + multiset(t[p + 1..]);
      assert multiset(s) == multiset(s[..|s| - 1]) + multiset([e]);
      assert multiset(rest) == multiset(t) - multiset([e]);
      assert multiset(s[..|s| - 1]) == multiset(s) - multiset([e]);
      SumSeqPermutation(s[..|s| - 1], rest, f);
    }
  }
}
