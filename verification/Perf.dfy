/** The power-of-two histogram and the phase statistics, against the samples they were fed. */
module Perf {
  import opened Words
  import opened Arith

  const BUCKETS := 32
  const U32_MAX: u32 := 0xFFFF_FFFF

  // ── Buckets ────────────────────────────────────────────────────────────────

  /** 32 minus the number of leading zeros of a `u32`. */
  function BitLength(v: nat): nat {
    if v == 0 then 0 else 1 + BitLength(v / 2)
  }

  function Pow2(n: nat): (p: nat)
    ensures p > 0
  {
    if n == 0 then 1 else 2 * Pow2(n - 1)
  }

  function BucketIndex(v: nat): (i: nat)
    ensures i < BUCKETS
  {
    Min(BitLength(v), BUCKETS - 1)
  }

  function Representative(idx: nat): nat {
    if idx == 0 then 0 else Pow2(idx) - 1
  }

  lemma {:induction false} BitLengthBounds(v: nat)
    requires v > 0
    ensures BitLength(v) > 0 && Pow2(BitLength(v) - 1) <= v < Pow2(BitLength(v))
  {
    if v > 1 {
      BitLengthBounds(v / 2);
    }
  }

  lemma {:induction false} Pow2Monotone(a: nat, b: nat)
    requires a <= b
    ensures 1 <= Pow2(a) <= Pow2(b)
    decreases b
  {
    if a < b {
      Pow2Monotone(a, b - 1);
    } else if a > 0 {
      Pow2Monotone(a - 1, b - 1);
    }
  }

  lemma {:induction false} BitLengthMonotone(a: nat, b: nat)
    requires a <= b
    ensures BitLength(a) <= BitLength(b)
  {
    if a > 0 {
      BitLengthMonotone(a / 2, b / 2);
    }
  }

  lemma Pow2Of31()
    ensures Pow2(31) == 0x8000_0000
  {
    assert Pow2(8) == 0x100;
    assert Pow2(16) == 0x1_0000;
    assert Pow2(24) == 0x100_0000;
  }

  /**
   * The reported representative of a sample's bucket is never below the sample exactly for samples below 2^31, and
   * for those it is less than twice the sample.
   */
  lemma RepresentativeBounds(x: u32)
    ensures var r := Representative(BucketIndex(x));
            && (x <= r <==> x < 0x8000_0000)
            && (x == 0 ==> r == 0)
            && (0 < x < 0x8000_0000 ==> r <= 2 * x - 1)
  {
    Pow2Of31();
    if x > 0 {
      BitLengthBounds(x);
      if BitLength(x) <= 31 {
        Pow2Monotone(BitLength(x), 31);
      } else {
        Pow2Monotone(31, BitLength(x) - 1);
      }
    }
  }

  // ── Counting samples ───────────────────────────────────────────────────────

  function CountUpTo(samples: seq<u32>, x: int): nat {
    if samples == [] then 0
    else CountUpTo(samples[..|samples| - 1], x) + if samples[|samples| - 1] <= x then 1 else 0
  }

  function CountIn(samples: seq<u32>, i: int): nat {
    if samples == [] then 0
    else CountIn(samples[..|samples| - 1], i) + if BucketIndex(samples[|samples| - 1]) == i then 1 else 0
  }

  function CountInUpTo(samples: seq<u32>, i: int): nat {
    if samples == [] then 0
    else CountInUpTo(samples[..|samples| - 1], i) + if BucketIndex(samples[|samples| - 1]) <= i then 1 else 0
  }

  /** `x` is the sample of rank `k` in ascending order. */
  ghost predicate IsOrderStatistic(samples: seq<u32>, k: nat, x: u32) {
    x in samples && CountUpTo(samples, x - 1) < k <= CountUpTo(samples, x)
  }

  lemma {:induction false} CountsAddUp(samples: seq<u32>, i: int)
    ensures CountInUpTo(samples, i) == CountInUpTo(samples, i - 1) + CountIn(samples, i)
  {
    if samples != [] {
      CountsAddUp(samples[..|samples| - 1], i);
    }
  }

  lemma {:induction false} CountEnds(samples: seq<u32>)
    ensures CountInUpTo(samples, -1) == 0 && CountInUpTo(samples, BUCKETS - 1) == |samples|
    ensures forall i :: CountIn(samples, i) <= |samples|
  {
    if samples != [] {
      CountEnds(samples[..|samples| - 1]);
    }
  }

  /** Buckets respect the order of samples. */
  lemma {:induction false} CountsOrdered(samples: seq<u32>, x: nat, j: int)
    ensures BucketIndex(x) <= j ==> CountUpTo(samples, x) <= CountInUpTo(samples, j)
    ensures BucketIndex(x) > j ==> CountInUpTo(samples, j) <= CountUpTo(samples, x - 1)
  {
    if samples != [] {
      var last := samples[|samples| - 1];
      CountsOrdered(samples[..|samples| - 1], x, j);
      if last <= x {
        BitLengthMonotone(last, x);
      } else {
        BitLengthMonotone(x, last);
      }
    }
  }

  /** The bucket in which the cumulative count reaches `k` is the bucket of the sample of rank `k`. */
  lemma RankFallsInBucket(samples: seq<u32>, k: nat, x: u32, j: nat)
    requires IsOrderStatistic(samples, k, x)
    requires CountInUpTo(samples, j - 1) < k <= CountInUpTo(samples, j)
    ensures BucketIndex(x) == j
  {
    CountsOrdered(samples, x, j);
    CountsOrdered(samples, x, j - 1);
  }

  lemma {:induction false} CountUpToSteps(samples: seq<u32>, x: int)
    ensures x < 0 ==> CountUpTo(samples, x) == 0
    ensures x >= U32_MAX ==> CountUpTo(samples, x) == |samples|
    ensures x !in samples ==> CountUpTo(samples, x) == CountUpTo(samples, x - 1)
  {
    if samples != [] {
      CountUpToSteps(samples[..|samples| - 1], x);
    }
  }

  lemma OrderStatisticExists(samples: seq<u32>, k: nat) returns (x: u32)
    requires 1 <= k <= |samples|
    ensures IsOrderStatistic(samples, k, x)
  {
    CountUpToSteps(samples, -1);
    CountUpToSteps(samples, U32_MAX);
    x := 0;
    while CountUpTo(samples, x) < k
      invariant CountUpTo(samples, x - 1) < k
      decreases U32_MAX - x
    {
      x := x + 1;
    }
    CountUpToSteps(samples, x);
  }

  /** The same for every sample of that rank; used where the loop of `Percentile` stops. */
  lemma RankStopsAt(samples: seq<u32>, num: nat, den: nat, idx: nat)
    requires 0 < den && 0 < |samples|
    requires CountInUpTo(samples, idx - 1) < Rank(|samples|, num, den) <= CountInUpTo(samples, idx)
    ensures forall x: u32 :: IsOrderStatistic(samples, Rank(|samples|, num, den), x) ==> BucketIndex(x) == idx
  {
    forall x: u32 | IsOrderStatistic(samples, Rank(|samples|, num, den), x)
      ensures BucketIndex(x) == idx
    {
      RankFallsInBucket(samples, Rank(|samples|, num, den), x, idx);
    }
  }

  // ── The histogram ──────────────────────────────────────────────────────────

  /** The rank of the quantile `num / den` among `n` samples. */
  function Rank(n: nat, num: nat, den: nat): nat
    requires den > 0
  {
    Max(CeilDiv(num * n, den), 1)
  }

  /** At least that share of the samples, and at least one, is no more than `v`. */
  predicate Reaches(samples: seq<u32>, v: int, num: nat, den: nat) {
    CountUpTo(samples, v) >= 1 && den * CountUpTo(samples, v) >= num * |samples|
  }

  /** A count has the rank exactly when it is at least one and that share. */
  lemma RankIff(n: nat, num: nat, den: nat, c: nat)
    requires den > 0
    ensures c >= Rank(n, num, den) <==> c >= 1 && den * c >= num * n
  {
    var k := CeilDiv(num * n, den);
    CeilDivBounds(num * n, den);
    if c >= k {
      ProductOrder(k, c, den);
    } else {
      ProductOrder(c, k - 1, den);
    }
  }

  lemma RankInRange(n: nat, num: nat, den: nat)
    requires 0 < n && num <= den && 0 < den
    ensures 1 <= Rank(n, num, den) <= n
  {
    ProductOrder(num, den, n);
    QuotientOrder(num * n + den - 1, den * n + (den - 1), den);
    DivModUnique(den * n + (den - 1), den, n, den - 1);
  }

  /** The samples up to a bucket are those up to its representative, the last bucket aside. */
  lemma {:induction false} BucketHolds(samples: seq<u32>, i: nat)
    requires i < 31
    ensures CountInUpTo(samples, i) == CountUpTo(samples, Pow2(i) - 1)
  {
    if samples != [] {
      BucketHolds(samples[..|samples| - 1], i);
      UpToBucketIff(samples[|samples| - 1], i);
    }
  }

  lemma UpToBucketIff(x: u32, i: nat)
    requires i < 31
    ensures BucketIndex(x) <= i <==> x <= Pow2(i) - 1
  {
    if x > 0 {
      BitLengthBounds(x);
      if BitLength(x) <= i {
        Pow2Monotone(BitLength(x), i);
      } else {
        Pow2Monotone(i, BitLength(x) - 1);
      }
    } else {
      Pow2Monotone(0, i);
    }
  }

  /** Where the share is first reached in the buckets, it is reached by the representative and not by its half. */
  lemma PercentileFromCounts(samples: seq<u32>, num: nat, den: nat, idx: nat)
    requires den > 0 && num <= den && samples != [] && idx < BUCKETS
    requires CountInUpTo(samples, idx - 1) < Rank(|samples|, num, den) <= CountInUpTo(samples, idx)
    ensures var r := Representative(idx);
            && (Reaches(samples, 0x7FFF_FFFF, num, den) ==> Reaches(samples, r, num, den))
            && (r > 0 ==> !Reaches(samples, r / 2, num, den))
            && (!Reaches(samples, 0x7FFF_FFFF, num, den) ==> r == 0x7FFF_FFFF)
  {
    Pow2Of31();
    if idx > 0 {
      HalfOfRepresentative(idx);
      NotReachedBelow(samples, num, den, idx - 1);
    }
    if idx < 31 {
      ReachedUpTo(samples, num, den, idx);
    }
  }

  lemma HalfOfRepresentative(idx: nat)
    requires 0 < idx < BUCKETS
    ensures Representative(idx) == Pow2(idx) - 1 && Representative(idx) / 2 == Pow2(idx - 1) - 1
  {
  }

  lemma NotReachedBelow(samples: seq<u32>, num: nat, den: nat, idx: nat)
    requires den > 0 && idx < 31 && CountInUpTo(samples, idx) < Rank(|samples|, num, den)
    ensures !Reaches(samples, Pow2(idx) - 1, num, den)
  {
    BucketHolds(samples, idx);
    RankIff(|samples|, num, den, CountInUpTo(samples, idx));
  }

  lemma ReachedUpTo(samples: seq<u32>, num: nat, den: nat, idx: nat)
    requires den > 0 && idx < 31 && CountInUpTo(samples, idx) >= Rank(|samples|, num, den)
    ensures Reaches(samples, Pow2(idx) - 1, num, den) && Reaches(samples, 0x7FFF_FFFF, num, den)
  {
    var r := Pow2(idx) - 1;
    BucketHolds(samples, idx);
    RankIff(|samples|, num, den, CountInUpTo(samples, idx));
    Pow2Of31();
    Pow2Monotone(idx, 31);
    MoreUpTo(samples, r, 0x7FFF_FFFF);
    ProductOrder(CountUpTo(samples, r), CountUpTo(samples, 0x7FFF_FFFF), den);
  }

  lemma {:induction false} MoreUpTo(samples: seq<u32>, a: int, b: int)
    requires a <= b
    ensures CountUpTo(samples, a) <= CountUpTo(samples, b)
  {
    if samples != [] {
      MoreUpTo(samples[..|samples| - 1], a, b);
    }
  }

  class Histogram {
    const buckets: array<u32>
    ghost var samples: seq<u32>

    /** Each bucket counts its samples, saturating. */
    ghost predicate Valid()
      reads this, buckets
    {
      && buckets.Length == BUCKETS
      && forall i :: 0 <= i < BUCKETS ==> buckets[i] == Min(CountIn(samples, i), U32_MAX)
    }

    constructor ()
      ensures Valid() && fresh(buckets) && samples == []
    {
      buckets := new u32[BUCKETS](_ => 0);
      samples := [];
    }

    method Record(value: u32)
      requires Valid()
      modifies this, buckets
      ensures Valid() && samples == old(samples) + [value]
    {
      var idx := BucketIndex(value);
      assert (samples + [value])[..|samples|] == samples;
      buckets[idx] := if buckets[idx] < U32_MAX then buckets[idx] + 1 else U32_MAX;
      samples := samples + [value];
    }

    /** The sum over the buckets, which is the number of samples while no bucket has saturated. */
    method Total() returns (total: nat)
      requires Valid()
      ensures |samples| <= U32_MAX ==> total == |samples|
    {
      total := 0;
      CountEnds(samples);
      for i := 0 to BUCKETS
        invariant |samples| <= U32_MAX ==> total == CountInUpTo(samples, i - 1)
      {
        CountsAddUp(samples, i);
        total := total + buckets[i];
      }
    }

    /** With fewer than 2^32 samples, the representative of the bucket of the sample with the wanted rank. */
    method Percentile(num: nat, den: nat) returns (r: nat)
      requires Valid() && num <= den && 0 < den
      ensures samples == [] ==> r == 0
      ensures 0 < |samples| <= U32_MAX ==>
                forall x: u32 :: IsOrderStatistic(samples, Rank(|samples|, num, den), x) ==>
                  r == Representative(BucketIndex(x))
      // From the samples alone: the least of the values 2^i - 1 up to 2^31 - 1 that the share reaches, or the last.
      ensures 0 < |samples| <= U32_MAX && Reaches(samples, 0x7FFF_FFFF, num, den) ==>
                CountUpTo(samples, r) >= 1 && den * CountUpTo(samples, r) >= num * |samples|
      ensures 0 < |samples| <= U32_MAX && r > 0 ==>
                CountUpTo(samples, r / 2) == 0 || den * CountUpTo(samples, r / 2) < num * |samples|
      ensures 0 < |samples| <= U32_MAX && !Reaches(samples, 0x7FFF_FFFF, num, den) ==> r == 0x7FFF_FFFF
    {
      var total := Total();
      if total == 0 {
        return 0;
      }
      var threshold := Rank(total, num, den);
      var cumulative: nat := 0;
      CountEnds(samples);
      if |samples| <= U32_MAX {
        RankInRange(|samples|, num, den);
      }
      for idx := 0 to BUCKETS
        invariant |samples| <= U32_MAX ==> cumulative == CountInUpTo(samples, idx - 1) < threshold
      {
        CountsAddUp(samples, idx);
        cumulative := cumulative + buckets[idx];
        if cumulative >= threshold {
          if |samples| <= U32_MAX {
            RankStopsAt(samples, num, den, idx);
            PercentileFromCounts(samples, num, den, idx);
          }
          return Representative(idx);
        }
      }
      r := Representative(BUCKETS - 1);
    }
  }

  /**
   * What `percentile` promises: whatever value `r` its contract allows, the true order statistic is not
   * under-reported exactly when it lies below 2^31, and then `r` overshoots it by less than a factor of two.
   */
  lemma PercentileNeverUnderReportsIff(samples: seq<u32>, num: nat, den: nat, r: nat) returns (x: u32)
    requires num <= den && 0 < den && 0 < |samples| <= U32_MAX
    requires forall s: u32 :: IsOrderStatistic(samples, Rank(|samples|, num, den), s) ==>
               r == Representative(BucketIndex(s))
    ensures IsOrderStatistic(samples, Rank(|samples|, num, den), x)
    ensures x <= r <==> x < 0x8000_0000
    ensures (x == 0 ==> r == 0) && (0 < x < 0x8000_0000 ==> r <= 2 * x - 1)
  {
    RankInRange(|samples|, num, den);
    x := OrderStatisticExists(samples, Rank(|samples|, num, den));
    RepresentativeBounds(x);
  }

  /** A single sample of 2^31 is reported as one less. */
  lemma TopBucketUnderReports(samples: seq<u32>)
    requires samples == [0x8000_0000]
    ensures IsOrderStatistic(samples, Rank(|samples|, 19, 20), samples[0])
    ensures Representative(BucketIndex(samples[0])) == 0x7FFF_FFFF < samples[0]
  {
    assert samples[..0] == [];
    Pow2Of31();
    BitLengthBounds(samples[0]);
    RepresentativeBounds(samples[0]);
  }

  // ── Phase statistics ───────────────────────────────────────────────────────

  function Sum(samples: seq<u32>): nat {
    if samples == [] then 0 else Sum(samples[..|samples| - 1]) + samples[|samples| - 1]
  }

  lemma {:induction false} SumBetween(samples: seq<u32>, lo: nat, hi: nat)
    requires forall i :: 0 <= i < |samples| ==> lo <= samples[i] <= hi
    ensures |samples| * lo <= Sum(samples) <= |samples| * hi
  {
    if samples != [] {
      SumBetween(samples[..|samples| - 1], lo, hi);
      assert |samples| * lo == (|samples| - 1) * lo + lo && |samples| * hi == (|samples| - 1) * hi + hi;
    }
  }

  lemma MeanBetween(sum: nat, n: nat, lo: nat, hi: nat)
    requires 0 < n && n * lo <= sum <= n * hi
    ensures lo <= sum / n <= hi
  {
    QuotientOrder(n * lo, sum, n);
    QuotientOrder(sum, n * hi, n);
    DivModUnique(n * lo, n, lo, 0);
    DivModUnique(n * hi, n, hi, 0);
  }

  datatype PhaseSnapshot = PhaseSnapshot(count: nat, min: nat, mean: nat, max: nat, p95: nat)

  class PhaseStats {
    var count: nat
    var sum: nat
    var min: u32
    var max: u32
    const hist: Histogram

    ghost predicate Valid()
      reads this, hist, hist.buckets
    {
      var s := hist.samples;
      && hist.Valid()
      && count == |s| && sum == Sum(s)
      && (forall i :: 0 <= i < |s| ==> min <= s[i] <= max)
      && (if s == [] then min == U32_MAX && max == 0 else min in s && max in s)
    }

    constructor ()
      ensures Valid() && fresh(hist) && fresh(hist.buckets) && hist.samples == []
    {
      count, sum, min, max := 0, 0, U32_MAX, 0;
      hist := new Histogram();
    }

    method Record(duration: u32)
      requires Valid()
      modifies this, hist, hist.buckets
      ensures Valid() && hist.samples == old(hist.samples) + [duration]
    {
      ghost var s := hist.samples;
      assert (s + [duration])[..|s|] == s;
      count := count + 1;
      sum := sum + duration;
      if duration < min {
        min := duration;
      }
      if duration > max {
        max := duration;
      }
      hist.Record(duration);
      assert forall i :: 0 <= i < |s| ==> hist.samples[i] == s[i];
    }

    method Snapshot() returns (p: PhaseSnapshot)
      requires Valid()
      ensures hist.samples == [] ==> p == PhaseSnapshot(0, 0, 0, 0, 0)
      ensures hist.samples != [] ==>
                && p.count == |hist.samples|
                && p.min in hist.samples && p.max in hist.samples
                && (forall i :: 0 <= i < |hist.samples| ==> p.min <= hist.samples[i] <= p.max)
                && p.mean == Sum(hist.samples) / |hist.samples|
                && p.min <= p.mean <= p.max
      ensures 0 < |hist.samples| <= U32_MAX ==>
                forall x: u32 :: IsOrderStatistic(hist.samples, Rank(|hist.samples|, 19, 20), x) ==>
                  p.p95 == Representative(BucketIndex(x))
      ensures 0 < |hist.samples| <= U32_MAX && Reaches(hist.samples, 0x7FFF_FFFF, 19, 20) ==>
                20 * CountUpTo(hist.samples, p.p95) >= 19 * |hist.samples|
      ensures 0 < |hist.samples| <= U32_MAX && p.p95 > 0 ==>
                20 * CountUpTo(hist.samples, p.p95 / 2) < 19 * |hist.samples|
      ensures 0 < |hist.samples| <= U32_MAX && !Reaches(hist.samples, 0x7FFF_FFFF, 19, 20) ==>
                p.p95 == 0x7FFF_FFFF
    {
      if count == 0 {
        return PhaseSnapshot(0, 0, 0, 0, 0);
      }
      SumBetween(hist.samples, min, max);
      MeanBetween(sum, count, min, max);
      var p95 := hist.Percentile(19, 20);
      p := PhaseSnapshot(count, min, sum / count, max, p95);
    }
  }
}
