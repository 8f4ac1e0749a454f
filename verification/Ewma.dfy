/**
 Running averages of the cycle statistics, kept as a sum: `sum += x - sum / N`, average `sum / N`,
 with C's division, which truncates towards zero.
 */
module Ewma {
  import opened Bits

  const AVG_TARGET_WINDOW_NS := 2_000_000_000

  /** C's `a / n` for a positive n. */
  function TruncDiv(a: int, n: int): int
    requires n > 0
  {
    if a >= 0 then a / n else -((-a) / n)
  }

  /** The window in samples for a cycle time, at least one. */
  function Window(cycleTimeUs: int): (n: int)
    ensures n >= 1
    ensures cycleTimeUs <= 0 ==> n == 1
    // the samples of two seconds, unless one takes longer
    ensures var cycleNs := cycleTimeUs * 1000;
            cycleTimeUs > 0 ==> 2_000_000_000 < (n + 1) * cycleNs && (n > 1 ==> n * cycleNs <= 2_000_000_000)
  {
    var cycleNs := cycleTimeUs * 1000;
    var w := if cycleNs > 0 then AVG_TARGET_WINDOW_NS / cycleNs else 1;
    if w < 1 then 1 else w
  }

  function Step(sum: int, x: int, n: int): int
    requires n > 0
  {
    sum + (x - TruncDiv(sum, n))
  }

  function Average(sum: int, n: int): int
    requires n > 0
  {
    TruncDiv(sum, n)
  }

  // ---------------------------------------------------------------------------------------------
  // Division facts
  // ---------------------------------------------------------------------------------------------

  /** The sums whose average is q. */
  predicate InBand(sum: int, q: int, n: int) {
    if q > 0 then q * n <= sum < q * n + n
    else if q < 0 then q * n - n < sum <= q * n
    else -n < sum < n
  }

  lemma Strict(a: int, b: int, n: int)
    requires n > 0 && a < b
    ensures a * n + n <= b * n
  {
    assert a * n + n == (a + 1) * n;
    ProductMonotone(n, a + 1, b);
  }

  lemma DivBounds(a: nat, n: int)
    requires n > 0
    ensures a / n >= 0 && (a / n) * n <= a < (a / n) * n + n
  {
  }

  /** The average is q exactly in q's band; here for sums that are not negative. */
  lemma NonNegativeBand(sum: nat, q: int, n: int)
    requires n > 0
    ensures sum / n == q <==> InBand(sum, q, n)
  {
    var p := sum / n;
    DivBounds(sum, n);
    if p < q {
      Strict(p, q, n);
    } else if p > q {
      Strict(q, p, n);
      if q < 0 { Strict(q, 0, n); }
    }
  }

  lemma Mirrored(sum: int, q: int, n: int)
    ensures InBand(sum, q, n) <==> InBand(-sum, -q, n)
  {
  }

  /** The average is q exactly in q's band. */
  lemma BandIsAverage(sum: int, q: int, n: int)
    requires n > 0
    ensures Average(sum, n) == q <==> InBand(sum, q, n)
  {
    if sum >= 0 {
      NonNegativeBand(sum, q, n);
    } else {
      NonNegativeBand(-sum, -q, n);
      Mirrored(sum, q, n);
    }
  }

  lemma InOwnBand(sum: int, n: int)
    requires n > 0
    ensures InBand(sum, Average(sum, n), n)
  {
    BandIsAverage(sum, Average(sum, n), n);
  }

  // ---------------------------------------------------------------------------------------------
  // Bounded samples
  // ---------------------------------------------------------------------------------------------

  /** sum - sum/n is greatest where sum is n * m. */
  lemma Slack(sum: int, q: int, n: int, m: int)
    requires n > 0 && 0 <= q <= m && sum <= m * n && sum < q * n + n
    ensures sum - q <= m * n - m
  {
    if q < m { StrictBy(q, m, n); }
  }

  /** n at a time gains at least as much as one at a time. */
  lemma StrictBy(a: int, b: int, n: int)
    requires n > 0 && a < b
    ensures a * n + n + (b - a - 1) <= b * n
  {
    ProductMonotone(b - a - 1, 1, n);
    assert (b - a - 1) * n == b * n - a * n - n;
  }

  lemma AverageBounded(sum: int, n: int, m: int)
    requires n > 0 && m >= 0 && -(m * n) <= sum <= m * n
    ensures -m <= Average(sum, n) <= m
  {
    var q := Average(sum, n);
    InOwnBand(sum, n);
    assert (-m) * n == -(m * n);
    if q > m {
      Strict(m, q, n);
    } else if q < -m {
      Strict(q, -m, n);
    }
  }

  /** Samples of magnitude at most M never drive the sum past N * M, nor the average past M. */
  lemma StepBounded(sum: int, x: int, n: int, m: int)
    requires n > 0 && m >= 0 && -m <= x <= m && -(m * n) <= sum <= m * n
    ensures -(m * n) <= Step(sum, x, n) <= m * n
  {
    var q := Average(sum, n);
    InOwnBand(sum, n);
    AverageBounded(sum, n, m);
    ProductMonotone(m, 1, n);
    if q > 0 {
      Slack(sum, q, n, m);
      ProductMonotone(q, 1, n);
    } else if q < 0 {
      Mirrored(sum, q, n);
      Slack(-sum, -q, n, m);
      ProductMonotone(-q, 1, n);
    } else {
      Slack(sum, 0, n, m);
      Slack(-sum, 0, n, m);
    }
  }

  // ---------------------------------------------------------------------------------------------
  // A constant sample
  // ---------------------------------------------------------------------------------------------

  function Iterate(sum: int, x: int, n: int, k: nat): int
    requires n > 0
  {
    if k == 0 then sum else Step(Iterate(sum, x, n, k - 1), x, n)
  }

  /** The lowest and highest sum whose average is x. */
  function Low(x: int, n: int): int {
    if x > 0 then x * n else x * n - n + 1
  }

  function High(x: int, n: int): int {
    if x >= 0 then x * n + n - 1 else x * n
  }

  lemma BandEnds(sum: int, x: int, n: int)
    requires n > 0
    ensures InBand(sum, x, n) <==> Low(x, n) <= sum <= High(x, n)
  {
  }

  /** From below the band the sum rises by at least one and does not pass the band. */
  lemma StepFromBelow(sum: int, x: int, n: int)
    requires n > 0 && sum < Low(x, n)
    ensures sum < Step(sum, x, n) <= High(x, n)
  {
    var q := Average(sum, n);
    InOwnBand(sum, n);
    BandIsAverage(sum, x, n);
    BandEnds(sum, x, n);
    if q > x {
      Strict(x, q, n);
    } else {
      StrictBy(q, x, n);
    }
  }

  lemma StepFromAbove(sum: int, x: int, n: int)
    requires n > 0 && sum > High(x, n)
    ensures Low(x, n) <= Step(sum, x, n) < sum
  {
    assert (-x) * n == -(x * n);
    assert TruncDiv(-sum, n) == -TruncDiv(sum, n);
    StepFromBelow(-sum, -x, n);
  }

  /** How far the sum is from the band. */
  function Distance(sum: int, x: int, n: int): nat {
    if sum < Low(x, n) then Low(x, n) - sum
    else if sum > High(x, n) then sum - High(x, n) else 0
  }

  lemma StepCloser(sum: int, x: int, n: int)
    requires n > 0
    ensures Distance(sum, x, n) > 0 ==> Distance(Step(sum, x, n), x, n) < Distance(sum, x, n)
    ensures Distance(sum, x, n) == 0 ==> Step(sum, x, n) == sum
  {
    BandIsAverage(sum, x, n);
    BandEnds(sum, x, n);
    if sum < Low(x, n) { StepFromBelow(sum, x, n); }
    if sum > High(x, n) { StepFromAbove(sum, x, n); }
    assert Low(x, n) <= High(x, n);
  }

  lemma {:induction false} DistanceShrinks(sum: int, x: int, n: int, k: nat)
    requires n > 0
    ensures Distance(Iterate(sum, x, n, k), x, n)
            <= if k <= Distance(sum, x, n) then Distance(sum, x, n) - k else 0
  {
    if k > 0 {
      DistanceShrinks(sum, x, n, k - 1);
      StepCloser(Iterate(sum, x, n, k - 1), x, n);
    }
  }

  /**
   A constant sample of any sign, from any sum: the average becomes the sample itself within as many
   samples as the sum is away from the band, and stays there.
   */
  lemma AverageReachesSample(sum: int, x: int, n: int, k: nat)
    requires n > 0 && k >= Distance(sum, x, n)
    ensures Average(Iterate(sum, x, n, k), n) == x
  {
    DistanceShrinks(sum, x, n, k);
    BandEnds(Iterate(sum, x, n, k), x, n);
    BandIsAverage(Iterate(sum, x, n, k), x, n);
  }

  /** On the way it approaches from one side only, rising or falling to the band and never past it. */
  lemma {:induction false} NoOvershoot(sum: int, x: int, n: int, k: nat)
    requires n > 0
    ensures sum <= High(x, n) ==> Iterate(sum, x, n, k) <= Iterate(sum, x, n, k + 1) <= High(x, n)
    ensures sum >= Low(x, n) ==> Low(x, n) <= Iterate(sum, x, n, k + 1) <= Iterate(sum, x, n, k)
  {
    var s := Iterate(sum, x, n, k);
    if k > 0 { NoOvershoot(sum, x, n, k - 1); }
    StepCloser(s, x, n);
    if s < Low(x, n) { StepFromBelow(s, x, n); }
    if s > High(x, n) { StepFromAbove(s, x, n); }
  }

  /** Keeping the average itself would stall: it never moves while the sample is within N of it. */
  lemma {:induction false} AverageFormStalls(avg: int, x: int, n: int, k: nat)
    requires n > 0 && -n < x - avg < n
    ensures IterateAverage(avg, x, n, k) == avg
  {
    if k > 0 {
      AverageFormStalls(avg, x, n, k - 1);
      BandIsAverage(x - avg, 0, n);
    }
  }

  function IterateAverage(avg: int, x: int, n: int, k: nat): int
    requires n > 0
  {
    if k == 0 then avg
    else
      var a := IterateAverage(avg, x, n, k - 1);
      a + TruncDiv(x - a, n)
  }

  // ---------------------------------------------------------------------------------------------
  // The statistic as the bus thread keeps it
  // ---------------------------------------------------------------------------------------------

  function SumOf(samples: seq<int>, n: int): int
    requires n > 0
  {
    if samples == [] then 0 else Step(SumOf(samples[..|samples| - 1], n), samples[|samples| - 1], n)
  }

  /** From a reset, the sum stays within N * M for samples of magnitude at most M, whatever they are. */
  lemma {:induction false} SumBounded(samples: seq<int>, n: int, m: int)
    requires n > 0 && m >= 0 && forall i | 0 <= i < |samples| :: -m <= samples[i] <= m
    ensures -(m * n) <= SumOf(samples, n) <= m * n && -m <= Average(SumOf(samples, n), n) <= m
  {
    ProductMonotone(m, 0, n);
    if samples != [] {
      var before := samples[..|samples| - 1];
      SumBounded(before, n, m);
      StepBounded(SumOf(before, n), samples[|samples| - 1], n, m);
    }
    AverageBounded(SumOf(samples, n), n, m);
  }

  /** avg_bus_cycle_ns_sum, avg_latency_ns_sum and avg_period_ns_sum are kept alike. */
  class Statistic {
    const window: int
    var sum: int
    ghost var samples: seq<int>

    ghost predicate Valid()
      reads this
    {
      window > 0 && sum == SumOf(samples, window)
    }

    constructor (cycleTimeUs: int)
      ensures Valid() && samples == [] && window == Window(cycleTimeUs)
    {
      window := Window(cycleTimeUs);
      sum := 0;
      samples := [];
    }

    method Record(x: int)
      requires Valid()
      modifies this
      ensures Valid() && samples == old(samples) + [x]
    {
      sum := sum + (x - TruncDiv(sum, window));
      samples := samples + [x];
      assert samples[..|samples| - 1] == old(samples);
    }
  }
}
