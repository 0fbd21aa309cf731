/** The logarithmic latency buckets of plugins/intel/intel-nvme.c.

    Bucket `i` of the 4.0-4.5 log stands for the latencies from `Low(i)` up to but excluding
    `Low(i) + Width(i)`, and `LogScale` names the latency printed for it. */
module LatStats {

  import Bits

  /** 1 << e */
  function Pow2(e: nat): nat { Bits.Shl(1, e) }

  /** The number of low bits a bucket does not distinguish. */
  function ErrorBits(i: nat): nat {
    if i < 128 then 0 else i / 64 - 1
  }

  /** lat_stats_log_scale. Indices from 1664 on would shift past the width of an int. */
  function LogScale(i: nat): (r: int)
    requires i < 1664
  {
    if i < 128 then i
    else
      var errorBits := i / 64 - 1;
      var base := Pow2(errorBits + 6);
      var k := i % 64;
      HalfStepsAbove(base, k, Pow2(errorBits))
  }

  /** base + ((k + 0.5) * step), cut off to an integer. */
  function HalfStepsAbove(base: nat, k: nat, step: nat): int {
    (base as real + (k as real + 0.5) * step as real).Floor
  }

  function Width(i: nat): nat { Pow2(ErrorBits(i)) }

  function Low(i: nat): nat {
    if i < 128 then i else (64 + i % 64) * Width(i)
  }

  predicate InBucket(latency: nat, i: nat) {
    Low(i) <= latency < Low(i) + Width(i)
  }

  lemma {:induction false} Pow2IsPositive(e: nat)
    ensures Pow2(e) > 0
  {
    if e > 0 {
      Pow2IsPositive(e - 1);
    }
  }

  lemma Pow2Sum(e: nat)
    ensures Pow2(e + 6) == 64 * Pow2(e)
  {
    assert Pow2(e + 6) == 2 * Pow2(e + 5) == 4 * Pow2(e + 4) == 8 * Pow2(e + 3);
    assert Pow2(e + 3) == 2 * Pow2(e + 2) == 4 * Pow2(e + 1);
  }

  /** Each bucket starts where the one before it ends. */
  lemma Adjacent(i: nat)
    ensures Low(i + 1) == Low(i) + Width(i)
  {
    if i < 127 {
    } else if i == 127 {
      assert Pow2(1) == 2 * Pow2(0);
    } else if i % 64 < 63 {
      assert (i + 1) / 64 == i / 64 && (i + 1) % 64 == i % 64 + 1;
      assert (64 + i % 64 + 1) * Width(i) == (64 + i % 64) * Width(i) + Width(i);
    } else {
      assert (i + 1) / 64 == i / 64 + 1 && (i + 1) % 64 == 0;
      assert Width(i + 1) == 2 * Width(i);
    }
  }

  lemma {:induction false} Apart(i: nat, j: nat)
    requires i < j
    ensures Low(i) + Width(i) <= Low(j)
    decreases j
  {
    Adjacent(j - 1);
    if i < j - 1 {
      Apart(i, j - 1);
    }
  }

  lemma {:induction false} BucketExists(latency: nat, n: nat)
    requires latency < Low(n)
    ensures exists i | 0 <= i < n :: InBucket(latency, i)
  {
    Adjacent(n - 1);
    if latency < Low(n - 1) {
      BucketExists(latency, n - 1);
      var i :| 0 <= i < n - 1 && InBucket(latency, i);
    } else {
      assert InBucket(latency, n - 1);
    }
  }

  /** The buckets below `n` partition the latencies below `Low(n)`. */
  lemma BucketsPartition(latency: nat, n: nat)
    ensures latency < Low(n) <==> exists i | 0 <= i < n :: InBucket(latency, i)
    ensures forall i: nat, j: nat | InBucket(latency, i) && InBucket(latency, j) :: i == j
  {
    if latency < Low(n) {
      BucketExists(latency, n);
    }
    forall i | 0 <= i < n && InBucket(latency, i)
      ensures latency < Low(n)
    {
      Apart(i, n);
    }
    forall i: nat, j: nat | InBucket(latency, i) && InBucket(latency, j)
      ensures i == j
    {
      if i < j {
        Apart(i, j);
      } else if j < i {
        Apart(j, i);
      }
    }
  }

  lemma Middle(base: nat, k: nat, half: nat)
    ensures HalfStepsAbove(base, k, 2 * half) == base + k * (2 * half) + half
  {
    assert (k as real) * (2 * half) as real == (k * (2 * half)) as real;
    assert (k as real + 0.5) * (2 * half) as real == (k as real) * (2 * half) as real + half as real;
  }

  lemma LowIs(k: nat, width: nat)
    ensures (64 + k) * width == 64 * width + k * width
  {
  }

  /** The printed latency is the middle of its bucket. */
  lemma LogScaleIsMiddle(i: nat)
    requires i < 1664
    ensures LogScale(i) == Low(i) + Width(i) / 2
    ensures InBucket(LogScale(i), i)
  {
    if i >= 128 {
      var e, k := ErrorBits(i), i % 64;
      assert e == i / 64 - 1 && e >= 1;
      var half := Pow2(e - 1);
      assert Pow2(e) == 2 * half;
      Pow2Sum(e);
      Pow2IsPositive(e - 1);
      Middle(Pow2(e + 6), k, half);
      LowIs(k, 2 * half);
      hide Pow2, HalfStepsAbove;
      assert Low(i) == (64 + k) * (2 * half);
    }
  }

  /** Every latency differs from the value printed for its bucket by at most 1/128 of itself. */
  lemma ErrorIsSmall(latency: nat, i: nat)
    requires i < 1664 && InBucket(latency, i)
    ensures 128 * (latency - LogScale(i)) <= latency
    ensures 128 * (LogScale(i) - latency) <= latency
  {
    LogScaleIsMiddle(i);
    if i >= 128 {
      var e := ErrorBits(i);
      assert Pow2(e) == 2 * Pow2(e - 1);
      assert Low(i) >= 64 * Width(i);
    }
  }

  /** Larger indices are printed as larger latencies. */
  lemma LogScaleIncreases(i: nat, j: nat)
    requires i < j < 1664
    ensures LogScale(i) < LogScale(j)
  {
    LogScaleIsMiddle(i);
    LogScaleIsMiddle(j);
    Apart(i, j);
  }

  /** Below index 1664 the result is a 32-bit int. */
  lemma FitsInt(i: nat)
    requires i < 1664
    ensures 0 <= LogScale(i) < 0x8000_0000
  {
    LogScaleIsMiddle(i);
    Apart(i, 1664);
    Pow2Sum(0);
    Pow2Sum(6);
    Pow2Sum(12);
    Pow2Sum(18);
    assert Pow2(25) == 2 * Pow2(24);
  }

  /** The values themselves: every index up to 127 its own, then odd numbers from 129 on, and from
      there on twice the value 64 indices before. */
  lemma LogScaleTable(i: nat)
    requires i < 1664
    ensures i < 128 ==> LogScale(i) == i
    ensures 128 <= i < 192 ==> LogScale(i) == 2 * (i - 64) + 1
    ensures i >= 192 ==> LogScale(i) == 2 * LogScale(i - 64)
  {
    if 128 <= i < 192 {
      OddNumbers(i);
    } else if i >= 192 {
      TwiceBefore(i);
    }
    hide Pow2, HalfStepsAbove;
  }

  lemma OddNumbers(i: nat)
    requires 128 <= i < 192
    ensures LogScale(i) == 2 * (i - 64) + 1
  {
    LogScaleIsMiddle(i);
    hide LogScale;
    assert ErrorBits(i) == 1 && i % 64 == i - 128;
    assert Pow2(1) == 2 * Pow2(0) == 2;
  }

  lemma TwiceBefore(i: nat)
    requires 192 <= i < 1664
    ensures LogScale(i) == 2 * LogScale(i - 64)
  {
    hide LogScale, Low, Width;
    LogScaleIsMiddle(i);
    LogScaleIsMiddle(i - 64);
    WidthDoubles(i);
    LowDoubles(i);
  }

  lemma WidthDoubles(i: nat)
    requires i >= 192
    ensures Width(i) == 2 * Width(i - 64) && Width(i - 64) % 2 == 0
  {
    OneRowUp(i);
    var e: nat := (i - 64) / 64 - 1;
    assert Pow2(e + 1) == 2 * Pow2(e) && Pow2(e) == 2 * Pow2(e - 1);
    hide Pow2;
  }

  lemma LowDoubles(i: nat)
    requires i >= 192
    ensures Low(i) == 2 * Low(i - 64)
  {
    WidthDoubles(i);
    OneRowUp(i);
    TwiceProduct(64 + i % 64, Width(i - 64));
    hide Width;
  }

  lemma OneRowUp(i: nat)
    requires i >= 192
    ensures i / 64 == (i - 64) / 64 + 1 && (i - 64) / 64 >= 2 && i % 64 == (i - 64) % 64
  {
  }

  lemma TwiceProduct(x: nat, y: nat)
    ensures x * (2 * y) == 2 * (x * y)
  {
  }
}
