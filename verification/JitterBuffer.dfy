/** `AdaptiveJitter`: which arrivals count, the running update, and the buffer depth it asks for. */
module JitterBuffer {
  import opened Words
  import opened JitterCoverage
  import opened Jitter

  /** The time of the last arrival; zero stands for none. */
  function LastArrival(arrivals: seq<u64>): u64 {
    if arrivals == [] then 0 else arrivals[|arrivals| - 1]
  }

  /** The time between two arrivals; a clock that steps back gives zero. */
  function Interval(earlier: u64, later: u64): nat {
    if later >= earlier then later - earlier else 0
  }

  /**
   The intervals that count: none is measured while the last arrival is zero, and gaps of more than
   a second are skipped.
   */
  function Counted(arrivals: seq<u64>): seq<real> {
    if arrivals == [] then []
    else
      var init, now := arrivals[..|arrivals| - 1], arrivals[|arrivals| - 1];
      var gap := Interval(LastArrival(init), now);
      Counted(init) + if LastArrival(init) == 0 || gap > 1_000_000 then [] else [gap as real]
  }

  /** The initial estimate followed by the intervals that count. */
  function History(initial: real, arrivals: seq<u64>): seq<real> {
    [initial] + Counted(arrivals)
  }

  /** A depth in samples, cut to an unsigned 32-bit integer as a float-to-integer cast does. */
  function ToSamples(us: real, sampleRate: u32, channels: u32): u32 {
    var x := us * (sampleRate as real) * (channels as real) / 1_000_000.0;
    if x <= 0.0 then 0 else if x >= 0xffff_ffff as real then 0xffff_ffff else x.Floor
  }

  function Clamp(x: u32, low: u32, high: u32): u32 {
    if x < low then low else if x > high then high else x
  }

  // ---------------------------------------------------------------- over whole arrival histories

  datatype Estimate = Estimate(mean: real, variance: real)

  /** The two running updates for one counted interval. */
  function Updated(e: Estimate, interval: real): Estimate {
    var diff := interval - e.mean;
    Estimate(e.mean + 0.02 * diff, (1.0 - 0.02) * (e.variance + 0.02 * diff * diff))
  }

  lemma UpdatedIsBatch(h: seq<real>, interval: real)
    requires h != []
    ensures Updated(Estimate(Mean(h), Variance(h)), interval)
         == Estimate(Mean(h + [interval]), Variance(h + [interval]))
  {
    RunningUpdateIsExact(h, interval);
  }

  /** What the two running updates make of an arrival history, one arrival at a time. */
  function Replay(initial: real, arrivals: seq<u64>): Estimate {
    if arrivals == [] then Estimate(initial, 0.0)
    else
      var init, now := arrivals[..|arrivals| - 1], arrivals[|arrivals| - 1];
      var e := Replay(initial, init);
      var gap := Interval(LastArrival(init), now);
      if LastArrival(init) == 0 || gap > 1_000_000 then e else Updated(e, gap as real)
  }

  /** After every arrival history the running estimate is the batch one. */
  lemma {:induction false} ReplayIsBatch(initial: real, arrivals: seq<u64>)
    ensures var h := History(initial, arrivals);
            Replay(initial, arrivals) == Estimate(Mean(h), Variance(h))
  {
    if arrivals == [] {
      SinglePoint(initial, Value());
      SinglePoint(initial, Gap2(initial));
      assert Sq(0.0) == 0.0;
      assert History(initial, []) == [initial];
    } else {
      var init, now := arrivals[..|arrivals| - 1], arrivals[|arrivals| - 1];
      var gap := Interval(LastArrival(init), now);
      ReplayIsBatch(initial, init);
      if LastArrival(init) == 0 || gap > 1_000_000 {
        assert History(initial, arrivals) == History(initial, init);
      } else {
        assert History(initial, arrivals) == History(initial, init) + [gap as real];
        UpdatedIsBatch(History(initial, init), gap as real);
      }
    }
  }

  /** For every arrival history, at most a tenth of the weight lies above the running target. */
  lemma ReplayCovers(initial: real, arrivals: seq<u64>, stddev: real)
    requires stddev >= 0.0 && stddev * stddev == Replay(initial, arrivals).variance
    ensures ShareAbove(History(initial, arrivals), Replay(initial, arrivals).mean + 3.0 * stddev) <= 0.1
  {
    ReplayIsBatch(initial, arrivals);
    Coverage(History(initial, arrivals), stddev);
  }

  /** So many milliseconds in samples, as the source computes it in 32 bits. */
  function DepthSamples(sampleRate: u32, channels: u32, ms: u32): u32 {
    WrapMul32(WrapMul32(sampleRate, channels), ms) / 1000
  }

  lemma Fits(rate: u32, ms: u32, product: int)
    requires product == rate * ms && product < 0x1_0000_0000
    ensures WrapMul32(rate, ms) == product
  {
    MulSign(rate, ms);
  }

  lemma Shorter(rate: nat, ms: nat, product: int, longest: int)
    requires ms <= 200 && product == rate * ms && longest == rate * 200
    ensures 0 <= product <= longest
  {
    MulSign(rate, ms);
    MulSign(rate, 200 - ms);
    assert rate * (200 - ms) == longest - product;
  }

  /**
   While 200 ms in samples, times a thousand, fits 32 bits, depths of up to 200 ms are the exact
   number of samples.
   */
  lemma DepthIsExact(sampleRate: u32, channels: u32, ms: u32, rate: nat, product: nat)
    requires ms <= 200 && rate == sampleRate * channels && product == rate * ms
    requires rate * 200 < 0x1_0000_0000
    ensures DepthSamples(sampleRate, channels, ms) == product / 1000
    ensures DepthSamples(sampleRate, channels, ms) <= DepthSamples(sampleRate, channels, 200)
  {
    var longest := rate * 200;
    Shorter(rate, ms, product, longest);
    Fits(sampleRate, channels, rate);
    Fits(rate, ms, product);
    Fits(rate, 200, longest);
  }

  // ---------------------------------------------------------------- what the target depth means

  /** `n` samples of the stream, all channels counted, play for no longer than `us` microseconds. */
  predicate PlaysWithin(n: int, us: real, sampleRate: u32, channels: u32) {
    n as real * 1_000_000.0 <= us * (sampleRate as real) * (channels as real)
  }

  lemma MillionTimes(n: int, x: real, y: real)
    requires x == y / 1_000_000.0
    ensures n as real <= x <==> n as real * 1_000_000.0 <= y
  {
  }

  lemma AtMostFloor(n: int, x: real)
    ensures n <= x.Floor <==> n as real <= x
  {
    if n <= x.Floor {
      assert n as real <= x.Floor as real;
    } else {
      assert n >= x.Floor + 1 && n as real >= (x.Floor + 1) as real;
    }
  }

  /** A depth holds exactly the samples that play within the time it was computed from, as far as 32 bits go. */
  lemma ToSamplesIff(us: real, sampleRate: u32, channels: u32, n: nat)
    requires 1 <= n <= 0xffff_ffff
    ensures n <= ToSamples(us, sampleRate, channels) <==> PlaysWithin(n, us, sampleRate, channels)
  {
    var y := us * (sampleRate as real) * (channels as real);
    var x := y / 1_000_000.0;
    MillionTimes(n, x, y);
    AtMostFloor(n, x);
  }

  lemma TimesThousand(rate: int, channels: int, ms: int, us: real, product: int, y: real)
    requires us == ms as real * 1000.0 && product == (rate * channels) * ms
    requires y == us * (rate as real) * (channels as real)
    ensures y == product as real * 1000.0
  {
    var rc := rate * channels;
    assert (rate as real) * (channels as real) == rc as real;
    assert (rc as real) * (ms as real) == product as real;
    assert y == us * ((rate as real) * (channels as real));
    assert us * rc as real == 1000.0 * (rc as real * ms as real);
  }

  lemma ThousandthFloor(product: nat)
    ensures (product as real * 1000.0 / 1_000_000.0).Floor == product / 1000
  {
    var q, r := product / 1000, product % 1000;
    assert product as real * 1000.0 / 1_000_000.0 == q as real + r as real / 1000.0;
  }

  /** The two ways to turn a time into samples agree: the running target's and that of the bounds. */
  lemma DepthsAgree(sampleRate: u32, channels: u32, ms: u32, rate: nat, product: nat)
    requires rate == sampleRate * channels && product == rate * ms && rate < 0x1_0000_0000 && product < 0x1_0000_0000
    ensures ToSamples(ms as real * 1000.0, sampleRate, channels) == DepthSamples(sampleRate, channels, ms)
  {
    var us := ms as real * 1000.0;
    Fits(sampleRate, channels, rate);
    Fits(rate, ms, product);
    TimesThousand(sampleRate, channels, ms, us, product, us * (sampleRate as real) * (channels as real));
    ThousandthFloor(product);
  }

  /** The depth chosen holds n samples exactly if the lower bound does, or the upper bound and the target do. */
  predicate DepthFor(depth: u32, us: real, sampleRate: u32, channels: u32, low: u32, high: u32) {
    && low <= depth <= high
    && forall n: nat :: low < n <= high ==> (n <= depth <==> PlaysWithin(n, us, sampleRate, channels))
  }

  lemma ClampedDepth(us: real, sampleRate: u32, channels: u32, low: u32, high: u32)
    requires low <= high
    ensures DepthFor(Clamp(ToSamples(us, sampleRate, channels), low, high), us, sampleRate, channels, low, high)
  {
    var depth := Clamp(ToSamples(us, sampleRate, channels), low, high);
    forall n: nat | low < n <= high ensures n <= depth <==> PlaysWithin(n, us, sampleRate, channels) {
      ToSamplesIff(us, sampleRate, channels, n);
    }
  }

  /** Only one depth within the bounds does that. */
  lemma DepthUnique(a: u32, b: u32, us: real, sampleRate: u32, channels: u32, low: u32, high: u32)
    requires DepthFor(a, us, sampleRate, channels, low, high) && DepthFor(b, us, sampleRate, channels, low, high)
    ensures a == b
  {
    if a < b {
      DepthHolds(a, b, us, sampleRate, channels, low, high);
      DepthHolds(b, b, us, sampleRate, channels, low, high);
    } else if b < a {
      DepthHolds(b, a, us, sampleRate, channels, low, high);
      DepthHolds(a, a, us, sampleRate, channels, low, high);
    }
  }

  lemma DepthHolds(depth: u32, n: nat, us: real, sampleRate: u32, channels: u32, low: u32, high: u32)
    requires DepthFor(depth, us, sampleRate, channels, low, high) && low < n <= high
    ensures n <= depth <==> PlaysWithin(n, us, sampleRate, channels)
  {
  }

  /**
   The depth is the upper bound if that much plays within the target time, the lower one if one sample more
   does not, and otherwise the most that does.
   */
  lemma DepthCases(depth: u32, us: real, sampleRate: u32, channels: u32, low: u32, high: u32)
    requires DepthFor(depth, us, sampleRate, channels, low, high)
    ensures depth == high <==> low == high || PlaysWithin(high, us, sampleRate, channels)
    ensures depth == low <==> low == high || !PlaysWithin(low + 1, us, sampleRate, channels)
    ensures low < depth < high ==>
              PlaysWithin(depth, us, sampleRate, channels) && !PlaysWithin(depth + 1, us, sampleRate, channels)
  {
    if low < high {
      DepthHolds(depth, high, us, sampleRate, channels, low, high);
      DepthHolds(depth, low + 1, us, sampleRate, channels, low, high);
    }
    if low < depth < high {
      DepthHolds(depth, depth, us, sampleRate, channels, low, high);
      DepthHolds(depth, depth + 1, us, sampleRate, channels, low, high);
    }
  }

  /** An interval counts exactly if two arrivals in a row lie that far apart, the first not at zero, within a second. */
  lemma {:induction false} CountedIff(arrivals: seq<u64>, gap: nat)
    ensures gap as real in Counted(arrivals) <==>
            gap <= 1_000_000 && exists i :: 1 <= i < |arrivals| && Apart(arrivals, i, gap)
  {
    if arrivals != [] {
      var init := arrivals[..|arrivals| - 1];
      CountedIff(init, gap);
      assert forall i | 1 <= i < |init| :: Apart(arrivals, i, gap) <==> Apart(init, i, gap);
      if |arrivals| > 1 {
        assert LastArrival(init) == arrivals[|arrivals| - 2];
        assert Apart(arrivals, |arrivals| - 1, gap) <==>
               arrivals[|arrivals| - 2] != 0 && Interval(LastArrival(init), arrivals[|arrivals| - 1]) == gap;
      }
    }
  }

  /** Arrival i comes `gap` after the one before it, or not later than it for a gap of zero. */
  predicate Apart(arrivals: seq<u64>, i: nat, gap: nat)
    requires 1 <= i < |arrivals|
  {
    var earlier: int, later: int := arrivals[i - 1], arrivals[i];
    earlier != 0 && (later - earlier == gap || (gap == 0 && later < earlier))
  }

  /**
   The documented coverage missed by two packets: at an initial estimate of 0 ms, arrivals at 1 and
   51 microseconds leave 2% of the weight above the target.
   */
  lemma ArrivalsUncovered()
    ensures History(0.0, [1, 51]) == [0.0, 50.0]
    ensures Replay(0.0, [1, 51]) == Estimate(1.0, 49.0)
    ensures ShareAbove(History(0.0, [1, 51]), 1.0 + 3.0 * 7.0) == 0.02
  {
    var arrivals: seq<u64> := [1, 51];
    assert arrivals[..1] == [1] && [1][..0] == [];
    assert Counted([1]) == [];
    assert Counted(arrivals) == [50.0];
    ReplayIsBatch(0.0, arrivals);
    DocumentedCoverageFails();
  }

  class AdaptiveJitter {
    var meanUs: real
    var varianceUs: real
    var lastArrivalUs: u64
    const minDepth: u32
    const maxDepth: u32
    var targetDepth: u32
    const sampleRate: u32
    const channels: u32
    var depthSamples: u32
    ghost const initial: real
    ghost var arrivals: seq<u64>

    /** The fields are the statistics of all arrivals so far, and the depth is within its bounds once set. */
    ghost predicate Valid()
      reads this
    {
      && Estimate(meanUs, varianceUs) == Replay(initial, arrivals)
      && lastArrivalUs == LastArrival(arrivals)
      && depthSamples == targetDepth
      && (Counted(arrivals) != [] && minDepth <= maxDepth ==> minDepth <= targetDepth <= maxDepth)
    }

    /** The products wrap; while they do not, the depths are the given times in samples. */
    constructor (sampleRate: u32, channels: u32, initialMs: u32)
      ensures Valid() && arrivals == [] && initial == initialMs as real * 1000.0
      ensures targetDepth == DepthSamples(sampleRate, channels, initialMs)
      ensures minDepth == DepthSamples(sampleRate, channels, 10)
      ensures maxDepth == DepthSamples(sampleRate, channels, 200)
      ensures this.sampleRate == sampleRate && this.channels == channels
    {
      var rate := WrapMul32(sampleRate, channels);
      meanUs := initialMs as real * 1000.0;
      varianceUs := 0.0;
      lastArrivalUs := 0;
      minDepth := WrapMul32(rate, 10) / 1000;
      maxDepth := WrapMul32(rate, 200) / 1000;
      targetDepth := WrapMul32(rate, initialMs) / 1000;
      this.sampleRate, this.channels := sampleRate, channels;
      depthSamples := WrapMul32(rate, initialMs) / 1000;
      initial := initialMs as real * 1000.0;
      arrivals := [];
    }

    /** Takes one arrival in; returns the depth in samples to aim for from now on. */
    method OnPacket(nowUs: u64, sqrt: real -> real) returns (depth: u32)
      requires Valid() && IsSqrt(sqrt)
      // The source panics when it clamps to bounds out of order.
      requires Counted(arrivals + [nowUs]) != Counted(arrivals) ==> minDepth <= maxDepth
      modifies this
      ensures Valid() && arrivals == old(arrivals) + [nowUs]
      ensures depth == targetDepth
      ensures var h := History(initial, arrivals);
              && meanUs == Mean(h) && varianceUs == Variance(h)
              && ShareAbove(h, meanUs + 3.0 * sqrt(varianceUs)) <= 0.1
      ensures var target := ToSamples(meanUs + 3.0 * sqrt(varianceUs), sampleRate, channels);
              targetDepth == if Counted(arrivals) == old(Counted(arrivals)) then old(targetDepth)
                             else Clamp(target, minDepth, maxDepth)
      ensures Counted(arrivals) != old(Counted(arrivals)) ==>
                DepthFor(targetDepth, meanUs + 3.0 * sqrt(varianceUs), sampleRate, channels, minDepth, maxDepth)
    {
      assert (arrivals + [nowUs])[..|arrivals|] == arrivals;
      var last := lastArrivalUs;
      arrivals := arrivals + [nowUs];
      lastArrivalUs := nowUs;
      ReplayIsBatch(initial, arrivals);
      VarianceNonNegative(History(initial, arrivals));
      Coverage(History(initial, arrivals), sqrt(Variance(History(initial, arrivals))));
      if last == 0 {
        return targetDepth;
      }
      var interval := Interval(last, nowUs);
      if interval > 1_000_000 {
        return targetDepth;
      }
      Update(interval as real, sqrt);
      return targetDepth;
    }

    method Update(interval: real, sqrt: real -> real)
      requires minDepth <= maxDepth
      modifies `meanUs, `varianceUs, `targetDepth, `depthSamples
      ensures Estimate(meanUs, varianceUs) == Updated(old(Estimate(meanUs, varianceUs)), interval)
      ensures targetDepth == Clamp(ToSamples(meanUs + 3.0 * sqrt(varianceUs), sampleRate, channels), minDepth, maxDepth)
      ensures DepthFor(targetDepth, meanUs + 3.0 * sqrt(varianceUs), sampleRate, channels, minDepth, maxDepth)
      ensures depthSamples == targetDepth
    {
      var diff := interval - meanUs;
      meanUs := meanUs + 0.02 * diff;
      varianceUs := (1.0 - 0.02) * (varianceUs + 0.02 * diff * diff);
      var stddev := sqrt(varianceUs);
      var targetUs := meanUs + 3.0 * stddev;
      targetDepth := Clamp(ToSamples(targetUs, sampleRate, channels), minDepth, maxDepth);
      depthSamples := targetDepth;
      ClampedDepth(targetUs, sampleRate, channels, minDepth, maxDepth);
    }
  }
}
