/** The smoothing filter of the bandwidth daemon (src/ibod/ibod.c:256-268) on natural numbers. */
module Smoothing {

  /** The next smoothed rate: f - 1 parts of the old one and one part of the sample. */
  function Average(f: nat, rate: nat, sample: nat): nat
    requires f >= 1
  {
    Weighted(f, rate, sample) / f
  }

  function Weighted(f: nat, rate: nat, sample: nat): nat
    requires f >= 1
  {
    rate * (f - 1) + sample
  }

  lemma QuotientAtLeast(n: nat, f: nat, a: nat)
    requires f >= 1 && a * f <= n
    ensures a <= n / f
  {
    var q := n / f;
    assert n < (q + 1) * f;
    assert q + 1 <= a ==> (q + 1) * f <= a * f;
  }

  lemma QuotientBelow(n: nat, f: nat, a: nat)
    requires f >= 1 && n < a * f
    ensures n / f < a
  {
    var q := n / f;
    assert q * f <= n;
    assert a <= q ==> a * f <= q * f;
  }

  lemma Split(f: nat, a: nat)
    requires f >= 1
    ensures a * (f - 1) + a == a * f
  {
  }

  lemma AverageAtLeast(f: nat, rate: nat, sample: nat, low: nat)
    requires f >= 1 && low <= rate && low <= sample
    ensures low <= Average(f, rate, sample)
  {
    assert low * (f - 1) <= rate * (f - 1);
    Split(f, low);
    QuotientAtLeast(Weighted(f, rate, sample), f, low);
  }

  lemma AverageAtMost(f: nat, rate: nat, sample: nat, high: nat)
    requires f >= 1 && rate <= high && sample <= high
    ensures Average(f, rate, sample) <= high
  {
    assert rate * (f - 1) <= high * (f - 1);
    Split(f, high);
    assert (high + 1) * f == high * f + f;
    QuotientBelow(Weighted(f, rate, sample), f, high + 1);
  }

  /** The smoothed rate lies between the old rate and the sample. */
  lemma AverageIsBetween(f: nat, rate: nat, sample: nat)
    requires f >= 1
    ensures rate <= sample ==> rate <= Average(f, rate, sample) <= sample
    ensures sample <= rate ==> sample <= Average(f, rate, sample) <= rate
  {
    AverageAtLeast(f, rate, sample, if rate <= sample then rate else sample);
    AverageAtMost(f, rate, sample, if rate <= sample then sample else rate);
  }

  /** The filter is stuck exactly when the sample exceeds the rate by less than f. */
  lemma AverageIsFixedIff(f: nat, rate: nat, sample: nat)
    requires f >= 1
    ensures Average(f, rate, sample) == rate <==> rate <= sample < rate + f
    ensures Average(f, rate, sample) > rate <==> sample >= rate + f
  {
    var n := Weighted(f, rate, sample);
    Split(f, rate);
    assert (rate + 1) * f == rate * f + f;
    if sample < rate {
      QuotientBelow(n, f, rate);
    } else {
      QuotientAtLeast(n, f, rate);
      if sample < rate + f {
        QuotientBelow(n, f, rate + 1);
      } else {
        QuotientAtLeast(n, f, rate + 1);
      }
    }
  }

  /** The rates after each of a sequence of samples, the last one only. */
  function Smooth(f: nat, rate: nat, samples: seq<nat>): nat
    requires f >= 1
    decreases |samples|
  {
    if samples == [] then rate else Smooth(f, Average(f, rate, samples[0]), samples[1..])
  }

  /** Samples at most the limit bring the rate down by one at least in every tick, and then keep it
      down. */
  lemma {:induction false} QuietRateFalls(f: nat, limit: nat, rate: nat, samples: seq<nat>)
    requires f >= 1 && forall i :: 0 <= i < |samples| ==> samples[i] <= limit
    ensures rate <= limit ==> Smooth(f, rate, samples) <= limit
    ensures rate > limit && |samples| >= rate - limit ==> Smooth(f, rate, samples) <= limit
    decreases |samples|
  {
    if samples != [] {
      AverageIsBetween(f, rate, samples[0]);
      AverageIsFixedIff(f, rate, samples[0]);
      QuietRateFalls(f, limit, Average(f, rate, samples[0]), samples[1..]);
    }
  }

  /** Samples of at least limit + f lift the rate above the limit within limit + 1 - rate ticks, and
      keep it there. */
  lemma {:induction false} BusyRateRises(f: nat, limit: nat, rate: nat, samples: seq<nat>)
    requires f >= 1 && forall i :: 0 <= i < |samples| ==> samples[i] >= limit + f
    ensures rate > limit ==> Smooth(f, rate, samples) > limit
    ensures rate <= limit && |samples| >= limit + 1 - rate ==> Smooth(f, rate, samples) > limit
    decreases |samples|
  {
    if samples != [] {
      AverageIsBetween(f, rate, samples[0]);
      AverageIsFixedIff(f, rate, samples[0]);
      BusyRateRises(f, limit, Average(f, rate, samples[0]), samples[1..]);
    }
  }

  /** The bound limit + f is sharp: smaller samples never lift a rate above the limit. */
  lemma {:induction false} AlmostBusyRateStays(f: nat, limit: nat, rate: nat, samples: seq<nat>)
    requires f >= 1 && rate <= limit && forall i :: 0 <= i < |samples| ==> samples[i] < limit + f
    ensures Smooth(f, rate, samples) <= limit
    decreases |samples|
  {
    if samples != [] {
      var n := rate * (f - 1) + samples[0];
      assert rate * (f - 1) <= limit * (f - 1);
      Split(f, limit);
      assert (limit + 1) * f == limit * f + f;
      QuotientBelow(n, f, limit + 1);
      AlmostBusyRateStays(f, limit, Average(f, rate, samples[0]), samples[1..]);
    }
  }

  function Power(b: nat, n: nat): nat {
    if n == 0 then 1 else b * Power(b, n - 1)
  }

  lemma ExcessShrinks(f: nat, limit: nat, rate: nat, sample: nat)
    requires f >= 1 && sample <= limit
    ensures (Average(f, rate, sample) - limit) * f <= (rate - limit) * (f - 1)
  {
    var n := rate * (f - 1) + sample;
    assert Average(f, rate, sample) * f <= n;
    Split(f, limit);
    assert (rate - limit) * (f - 1) == rate * (f - 1) - limit * (f - 1);
    assert (Average(f, rate, sample) - limit) * f == Average(f, rate, sample) * f - limit * f;
  }

  lemma ChainExcess(f: nat, a: int, b: int, c: int, p: nat, q: nat)
    requires f >= 1 && b * f <= a * (f - 1) && c * p <= b * q
    ensures c * (f * p) <= a * ((f - 1) * q)
  {
    assert c * (f * p) == (c * p) * f;
    assert (c * p) * f <= (b * q) * f;
    assert (b * q) * f == (b * f) * q;
    assert (b * f) * q <= (a * (f - 1)) * q;
    assert (a * (f - 1)) * q == a * ((f - 1) * q);
  }

  /** Under quiet samples the excess over the limit decays geometrically, by (f - 1) / f per tick. */
  lemma {:induction false} ExcessDecays(f: nat, limit: nat, rate: nat, samples: seq<nat>)
    requires f >= 1 && forall i :: 0 <= i < |samples| ==> samples[i] <= limit
    ensures (Smooth(f, rate, samples) - limit) * Power(f, |samples|) <= (rate - limit) * Power(f - 1, |samples|)
    decreases |samples|
  {
    if samples != [] {
      var next := Average(f, rate, samples[0]);
      ExcessShrinks(f, limit, rate, samples[0]);
      ExcessDecays(f, limit, next, samples[1..]);
      ChainExcess(f, rate - limit, next - limit, Smooth(f, rate, samples) - limit,
                  Power(f, |samples| - 1), Power(f - 1, |samples| - 1));
    }
  }

  /** The next rate is the weighted sum divided by f, rounded down. */
  lemma AverageIsQuotient(f: nat, rate: nat, sample: nat)
    requires f >= 1
    ensures var r := Average(f, rate, sample); r * f <= (f - 1) * rate + sample < (r + 1) * f
  {
    var n := Weighted(f, rate, sample);
    assert n / f * f <= n < (n / f + 1) * f;
  }
}
