/** The cycle time statistics that pd_exchange and pd_exchange_port of src/master/process_data.c keep. */
module CycleStatistics {
  import opened Endian
  import opened Sums

  /** The fields of pd_statistics_t that a completed cycle updates; count is a uint64_t. */
  datatype Stats = Stats(count: nat, min: u32, max: u32, avg: u32)

  /** pd_init and pd_reset_statistics */
  function Cleared(): Stats {
    Stats(0, WORD - 1, 0, 0)
  }

  /** One completed cycle: 64-bit count and intermediate, 32-bit results. */
  function Recorded(s: Stats, x: u32): Stats {
    var count := (s.count + 1) % DOUBLE_WORD;
    var total := (s.avg * (count - 1) + x) % DOUBLE_WORD;
    Stats(count, if x < s.min then x else s.min, if x > s.max then x else s.max,
          if count > 0 then total / count % WORD else s.avg)
  }

  /** The statistics after these cycles since they were cleared. */
  function After(samples: seq<u32>): Stats {
    if samples == [] then Cleared() else Recorded(After(samples[..|samples| - 1]), samples[|samples| - 1])
  }

  /** The statistics object, updated in place. */
  class Statistics {
    var count: nat
    var min: u32
    var max: u32
    var avg: u32
    /** The cycle times recorded since the statistics were cleared. */
    ghost var samples: seq<u32>

    ghost predicate Valid()
      reads this
    {
      Stats(count, min, max, avg) == After(samples)
    }

    constructor ()
      ensures Valid() && samples == []
    {
      count, min, max, avg := 0, WORD - 1, 0, 0;
      samples := [];
    }

    /** pd_reset_statistics */
    method Reset()
      modifies this
      ensures Valid() && samples == []
    {
      count, min, max, avg := 0, WORD - 1, 0, 0;
      samples := [];
    }

    /** Lines 343-362, and 541-560 for a selected port. */
    method Record(cycleTime: u32)
      requires Valid()
      modifies this
      ensures Valid() && samples == old(samples) + [cycleTime]
    {
      count := (count + 1) % DOUBLE_WORD;
      if cycleTime < min {
        min := cycleTime;
      }
      if cycleTime > max {
        max := cycleTime;
      }
      if count > 0 {
        var total := (avg * (count - 1) + cycleTime) % DOUBLE_WORD;
        avg := total / count % WORD;
      }
      samples := samples + [cycleTime];
      assert samples[..|samples| - 1] == old(samples);
    }
  }

  /** min and max are the extreme cycle times. */
  ghost predicate Extremes(s: Stats, samples: seq<u32>) {
    && s.min in samples && s.max in samples
    && forall i :: 0 <= i < |samples| ==> s.min <= samples[i] <= s.max
  }

  /** The running mean never exceeds the true one, and lags behind it by at most (n - 1) / 2. */
  ghost predicate MeanBounds(s: Stats, sum: nat) {
    && s.count * s.avg <= sum
    && 2 * (sum - s.count * s.avg) <= s.count * (s.count - 1)
  }

  lemma Times(a: nat, b: nat, n: nat)
    requires a <= b
    ensures a * n <= b * n
  {
  }

  lemma OneMore(a: nat, n: nat)
    requires n >= 1
    ensures a * (n - 1) + a == a * n
  {
  }

  lemma Quotient(t: nat, n: nat)
    requires n >= 1
    ensures n * (t / n) <= t < n * (t / n) + n
  {
  }

  lemma Cancel(a: nat, b: nat, n: nat)
    requires a * n < b * n
    ensures a < b
  {
    if b <= a {
      Times(b, a, n);
    }
  }

  lemma QuotientBounds(lo: nat, hi: nat, n: nat, t: nat, m: nat)
    requires n >= 1 && lo * n <= t <= hi * n && n * m <= t < n * m + n
    ensures lo <= m <= hi
  {
    OneMore(m + 1, n);
    assert (m + 1) * n == n * m + n && (hi + 1) * n == hi * n + n;
    Cancel(lo, m + 1, n);
    Cancel(m, hi + 1, n);
  }

  lemma QuotientUnique(t: nat, n: nat, q: nat)
    requires n >= 1 && n * q <= t < n * q + n
    ensures t / n == q
  {
    Quotient(t, n);
    var m := t / n;
    assert (m + 1) * n == n * m + n && (q + 1) * n == n * q + n;
    Cancel(m, q + 1, n);
    Cancel(q, m + 1, n);
  }

  /** One step of a truncating mean, with exact numbers: a of n - 1 cycles, then a cycle of x. */
  lemma MeanStep(a: nat, n: nat, x: nat, lo: nat, hi: nat)
    requires n >= 1 && lo <= x <= hi && (n == 1 || lo <= a <= hi)
    ensures var m := (a * (n - 1) + x) / n;
      lo <= m <= hi && n * m <= a * (n - 1) + x <= n * m + (n - 1)
  {
    var p := a * (n - 1);
    assert lo * (n - 1) <= p <= hi * (n - 1) by {
      if n > 1 {
        Times(lo, a, n - 1);
        Times(a, hi, n - 1);
      }
    }
    OneMore(lo, n);
    OneMore(hi, n);
    Quotient(p + x, n);
    QuotientBounds(lo, hi, n, p + x, (p + x) / n);
  }

  lemma ProductFits(a: nat, k: nat)
    requires a <= 0xFFFF_FFFF && k <= 0xFFFF_FFFE
    ensures a * k <= 0xFFFF_FFFF * 0xFFFF_FFFE
  {
    Times(a, 0xFFFF_FFFF, k);
  }

  /** With fewer than 2^32 cycles neither the 64-bit intermediate nor the 32-bit mean wraps. */
  lemma NothingWraps(a: u32, n: nat, x: u32)
    requires 1 <= n < WORD
    ensures n % DOUBLE_WORD == n && a * (n - 1) + x < DOUBLE_WORD && (a * (n - 1) + x) % DOUBLE_WORD == a * (n - 1) + x
  {
    ProductFits(a, n - 1);
    Fits(a * (n - 1) + x);
    Fits(n);
  }

  lemma RecordedExactly(s: Stats, x: u32)
    requires s.count + 1 < WORD
    ensures var n := s.count + 1;
      var m := (s.avg * (n - 1) + x) / n;
      m < WORD && Recorded(s, x).count == n && Recorded(s, x).avg == m
  {
    var n := s.count + 1;
    NothingWraps(s.avg, n, x);
    var t := s.avg * (n - 1) + x;
    if n == 1 {
      QuotientUnique(t, n, x);
    } else {
      MeanStep(s.avg, n, x, 0, WORD - 1);
    }
    Small(t / n);
  }

  lemma Small(m: nat)
    requires m <= 0xFFFF_FFFF
    ensures m % WORD == m
  {
  }

  lemma MeanBoundsStep(s: Stats, sum: nat, x: u32, m: u32)
    requires MeanBounds(s, sum)
    requires (s.count + 1) * m <= s.avg * s.count + x <= (s.count + 1) * m + s.count
    ensures MeanBounds(Stats(s.count + 1, s.min, s.max, m), sum + x)
  {
    var n := s.count;
    assert s.avg * n == n * s.avg;
    assert (n + 1) * n == n * (n - 1) + 2 * n;
  }

  /** What the statistics say about the cycle times. */
  ghost predicate Describes(s: Stats, samples: seq<u32>, sum: nat) {
    && s.count == |samples|
    && (if samples == [] then s == Cleared() else Extremes(s, samples) && s.min <= s.avg <= s.max)
    && MeanBounds(s, sum)
  }

  lemma RecordedDescribes(s: Stats, before: seq<u32>, sum: nat, x: u32)
    requires Describes(s, before, sum) && |before| + 1 < WORD
    ensures Describes(Recorded(s, x), before + [x], sum + x)
  {
    ExtremesStep(s, before, x);
    RecordedExactly(s, x);
    var r := Recorded(s, x);
    var n := s.count + 1;
    assert r.min <= x <= r.max && (n == 1 || r.min <= s.avg <= r.max);
    hide Recorded, Extremes, MeanBounds;
    MeanStep(s.avg, n, x, r.min, r.max);
    MeanBoundsStep(s, sum, x, r.avg);
    SameBounds(r, Stats(n, s.min, s.max, r.avg), sum + x);
  }

  lemma SameBounds(r: Stats, t: Stats, sum: nat)
    requires r.count == t.count && r.avg == t.avg && MeanBounds(t, sum)
    ensures MeanBounds(r, sum)
  {
  }

  /** After fewer than 2^32 cycles: min and max are the extreme cycle times with the mean between them, the mean is
      never above the true one and below it by at most (n - 1) / 2, and the next intermediate sum fits 64 bits. */
  lemma {:induction false} RunningMean(samples: seq<u32>)
    requires |samples| < WORD
    ensures var s := After(samples);
      && s.count == |samples|
      && (samples != [] ==> Extremes(s, samples) && s.min <= s.avg <= s.max)
      && MeanBounds(s, Sum(samples))
      && s.avg * s.count + (WORD - 1) < DOUBLE_WORD
  {
    hide After, Sum, Extremes, MeanBounds;
    StatsDescribe(samples);
    NothingWrapsNext(After(samples).avg, |samples|);
  }

  lemma NothingWrapsNext(a: u32, n: nat)
    requires n < WORD
    ensures a * n + (WORD - 1) < DOUBLE_WORD
  {
    assert n <= 0xFFFF_FFFF;
    Times(a, 0xFFFF_FFFF, n);
    assert a * n <= 0xFFFF_FFFF * n;
  }

  lemma {:induction false} StatsDescribe(samples: seq<u32>)
    requires |samples| < WORD
    ensures Describes(After(samples), samples, Sum(samples))
    decreases |samples|
  {
    if samples != [] {
      var before, x := samples[..|samples| - 1], samples[|samples| - 1];
      StatsDescribe(before);
      assert After(samples) == Recorded(After(before), x) && Sum(samples) == Sum(before) + x;
      hide After, Sum, Recorded, Describes;
      RecordedDescribes(After(before), before, Sum(before), x);
      assert before + [x] == samples;
    }
  }

  lemma ExtremesStep(s: Stats, before: seq<u32>, x: u32)
    requires if before == [] then s == Cleared() else Extremes(s, before)
    ensures Extremes(Recorded(s, x), before + [x])
  {
    var samples := before + [x];
    assert samples[|before|] == x;
    forall i | 0 <= i < |before|
      ensures samples[i] == before[i]
    {
    }
    if before != [] {
      var i :| 0 <= i < |before| && before[i] == s.min;
      var j :| 0 <= j < |before| && before[j] == s.max;
      assert samples[i] == s.min && samples[j] == s.max;
    }
  }

  // ---------- The lag of the mean is attained ----------

  /** Cycle times that fall by one each cycle. */
  function Falling(top: u32, n: nat): seq<u32>
    requires n <= top + 1
  {
    seq(n, i requires 0 <= i < n => top - i)
  }

  /** The mean lags as far behind as MeanBounds allows. */
  ghost predicate Lags(s: Stats, sum: nat) {
    2 * (sum - s.count * s.avg) == s.count * (s.count - 1)
  }

  /** The bound is tight: on falling cycle times the reported mean is the latest time itself. */
  lemma {:induction false} LagIsAttained(top: u32, n: nat)
    requires 1 <= n <= top + 1 && n < WORD
    ensures var s := After(Falling(top, n));
      s.count == n && s.avg == top - (n - 1) && Lags(s, Sum(Falling(top, n)))
    decreases n
  {
    hide Recorded, Lags;
    var samples := Falling(top, n);
    var before, x: u32 := samples[..n - 1], top - (n - 1);
    assert before == Falling(top, n - 1) && samples[n - 1] == x;
    var s := After(before);
    assert After(samples) == Recorded(s, x) && Sum(samples) == Sum(before) + x;
    if n == 1 {
      FirstCycle(x);
      assert s == Cleared() && Sum(before) == 0;
    } else {
      LagIsAttained(top, n - 1);
      hide After, Sum, Falling;
      FallingStep(s, n);
      SumStep(s, Sum(before), Recorded(s, x), x);
    }
  }

  lemma FirstCycle(x: u32)
    ensures Recorded(Cleared(), x).count == 1 && Recorded(Cleared(), x).avg == x && Lags(Recorded(Cleared(), x), x)
  {
    RecordedExactly(Cleared(), x);
    QuotientUnique(x, 1, x);
  }

  /** A cycle one shorter than the mean takes the mean down by one. */
  lemma FallingStep(s: Stats, n: nat)
    requires 2 <= n < WORD && s.count == n - 1 && 1 <= s.avg
    ensures Recorded(s, s.avg - 1).count == n && Recorded(s, s.avg - 1).avg == s.avg - 1
  {
    var a := s.avg;
    NothingWraps(a, n, a - 1);
    OneMore(a, n);
    var t := a * (n - 1) + (a - 1);
    assert n * (a - 1) == a * n - n;
    QuotientUnique(t, n, a - 1);
  }

  lemma SumStep(s: Stats, sum: nat, r: Stats, x: nat)
    requires Lags(s, sum) && s.count >= 1 && s.avg == x + 1 && r.count == s.count + 1 && r.avg == x
    ensures Lags(r, sum + x)
  {
    var k := s.count;
    assert k * (x + 1) == k * x + k && (k + 1) * x == k * x + x;
    assert (k + 1) * k == k * (k - 1) + 2 * k;
  }
}
