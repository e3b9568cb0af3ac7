/** Im2dhist_parallel: one worker per column fills a private localHist, then adds it into the shared
    histogram under a mutex. The workers run in any interleaving, but the mutex makes every merge
    whole, so a run is the sequence of merges in the order the workers took the lock: a schedule,
    which is a permutation of the columns. The model takes that schedule as a parameter and runs
    the workers one after the other in its order; computing a localHist touches nothing shared. */
module ParallelDifferenceHistogram {
  import opened MachineWords
  import opened GrayImages
  import opened Sums
  import opened DifferenceHistogram

  /** Bucket k after the columns of s have been merged, in the order s lists them, unwrapped. */
  function ScheduledMass(img: GrayImage, w: int64, k: int, s: seq<int>): nat
  {
    if s == [] then 0 else ScheduledMass(img, w, k, s[..|s| - 1]) + ColumnMass(img, w, s[|s| - 1], k)
  }

  /** ScheduledMass, the recursive form the merge loop's invariant unfolds one step at a time, is
      the sum over the schedule that the permutation lemma works with. */
  lemma {:induction false} ScheduledMassAsSum(img: GrayImage, w: int64, k: int, s: seq<int>)
    ensures ScheduledMass(img, w, k, s) == SumSeq(s, x => ColumnMass(img, w, x, k))
    decreases |s|
  {
    if s != [] {
      ScheduledMassAsSum(img, w, k, s[..|s| - 1]);
    }
  }

  /** Merging one more column of the schedule adds that column. */
  lemma ScheduledMassStep(img: GrayImage, w: int64, k: int, s: seq<int64>, n: nat)
    requires n < |s|
    ensures ScheduledMass(img, w, k, s[..n + 1]) == ScheduledMass(img, w, k, s[..n]) + ColumnMass(img, w, s[n], k)
  {
    assert s[..n + 1][..n] == s[..n];
  }

  /** The merge order does not matter: merging every column once, in any order, gives the bucket
      the serial kernel computes. */
  lemma ScheduleIndependent(img: GrayImage, w: int64, k: int, schedule: seq<int64>)
    requires multiset(schedule) == multiset(Range(img.bounds.minX, img.bounds.maxX))
    ensures ScheduledMass(img, w, k, schedule) == BucketMass(img, w, k)
  {
    var column: int -> nat := x => ColumnMass(img, w, x, k);
    ScheduledMassAsSum(img, w, k, schedule);
    SumSeqPermutation(schedule, Range(img.bounds.minX, img.bounds.maxX), column);
    SumSeqRange(img.bounds.minX, img.bounds.maxX, column);
    BucketMassAsSum(img, w, k, img.bounds.maxX);
  }

  /** The work of the goroutine for column x up to the merge: a fresh, zeroed localHist that ends up
      holding exactly the contribution of column x. */
  method ColumnHist(img: GrayImage, w: int64, x: int64) returns (localHist: array<uint32>)
    ensures fresh(localHist)
    ensures localHist.Length == HistSize
    ensures forall k :: 0 <= k < HistSize ==> localHist[k] == ColumnMass(img, w, x, k) % Modulus32
  {
    localHist := new uint32[HistSize](_ => 0);
    AccumulateColumn(localHist, img, w, x);
  }

  /** The critical section: `for i, v := range localHist { twodhist[i] += v }`. Every bucket of
      twodhist grows by the matching bucket of localHist, wrapping at 2^32. */
  method MergeInto(twodhist: array<uint32>, localHist: array<uint32>)
    requires twodhist.Length == HistSize && localHist.Length == HistSize
    requires twodhist != localHist
    modifies twodhist
    ensures forall i :: 0 <= i < HistSize ==> twodhist[i] == Add32(old(twodhist[i]), localHist[i])
  {
    var i := 0;
    while i < HistSize
      invariant 0 <= i <= HistSize
      invariant forall j :: 0 <= j < i ==> twodhist[j] == Add32(old(twodhist[j]), localHist[j])
      invariant forall j :: i <= j < HistSize ==> twodhist[j] == old(twodhist[j])
    {
      twodhist[i] := Add32(twodhist[i], localHist[i]);
      i := i + 1;
    }
  }

  /** Im2dhist_parallel under a given merge order: whatever the order, every bucket equals the
      serial kernel's. */
  method Im2dhistParallel(img: GrayImage, w: int64, schedule: seq<int64>) returns (twodhist: array<uint32>)
    requires multiset(schedule) == multiset(Range(img.bounds.minX, img.bounds.maxX))
    ensures fresh(twodhist)
    ensures twodhist.Length == HistSize
    ensures forall k :: 0 <= k < HistSize ==> twodhist[k] == BucketMass(img, w, k) % Modulus32
  {
    twodhist := new uint32[HistSize](_ => 0);
    var n := 0;
    while n < |schedule|
      invariant 0 <= n <= |schedule|
      invariant twodhist.Length == HistSize
      invariant forall k :: 0 <= k < HistSize ==>
                  twodhist[k] == ScheduledMass(img, w, k, schedule[..n]) % Modulus32
    {
      var localHist := ColumnHist(img, w, schedule[n]);
      MergeInto(twodhist, localHist);
      forall k | 0 <= k < HistSize
        ensures twodhist[k] == ScheduledMass(img, w, k, schedule[..n + 1]) % Modulus32
      {
        ScheduledMassStep(img, w, k, schedule, n);
        WrapAddWrapped(ScheduledMass(img, w, k, schedule[..n]), ColumnMass(img, w, schedule[n], k));
      }
      n := n + 1;
    }
    assert schedule[..n] == schedule;
    forall k | 0 <= k < HistSize
      ensures ScheduledMass(img, w, k, schedule) == BucketMass(img, w, k)
    {
      ScheduleIndependent(img, w, k, schedule);
    }
  }
}
