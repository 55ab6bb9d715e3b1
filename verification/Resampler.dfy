/** The linear resampler, over exact rationals: a phase accumulator with an exact output count. */
module Resampler {
  import opened Words
  import opened Reals

  function Ceil(x: real): int {
    -((-x).Floor)
  }

  /** The cast to an integer: towards zero. */
  function Trunc(x: real): int {
    if x >= 0.0 then x.Floor else -((-x).Floor)
  }

  /** Where output k falls, in input samples from the start of the block. */
  function Position(phase: real, step: real, k: nat): real {
    if k == 0 then phase else Position(phase, step, k - 1) + step
  }

  /** The sample remembered when the reading position has moved on to index i. */
  function Previous(input: seq<i16>, last: i16, i: nat): i16
    requires i > 0 ==> input != []
  {
    if i == 0 then last else input[Min(i - 1, |input| - 1)]
  }

  function Following(input: seq<i16>, i: nat): i16
    requires i < |input|
  {
    if i + 1 < |input| then input[i + 1] else input[i]
  }

  function Blend(a: i16, b: i16, frac: real): real {
    a as real * (1.0 - frac) + b as real * frac
  }

  lemma BlendBetween(a: i16, b: i16, frac: real)
    requires 0.0 <= frac <= 1.0
    ensures a <= b ==> a as real <= Blend(a, b, frac) <= b as real
    ensures b <= a ==> b as real <= Blend(a, b, frac) <= a as real
  {
    MixBetween(a as real, b as real, b as real - a as real, frac, Blend(a, b, frac));
  }

  lemma MixBetween(x: real, y: real, d: real, frac: real, v: real)
    requires 0.0 <= frac <= 1.0 && y == x + d && v == x * (1.0 - frac) + y * frac
    ensures x <= y ==> x <= v <= y
    ensures y <= x ==> y <= v <= x
  {
    var xf, df := x * frac, d * frac;
    assert x * (1.0 - frac) == x - xf;
    assert y * frac == xf + df;
    FractionOf(d, frac, df);
  }

  /** Output k of a block: a blend of the samples on either side, cut to an integer. */
  function Sample(a: i16, b: i16, frac: real): (s: i16)
    requires 0.0 <= frac <= 1.0
    ensures Min(a, b) <= s <= Max(a, b)
  {
    BlendBetween(a, b, frac);
    Trunc(Blend(a, b, frac))
  }

  function OutputAt(input: seq<i16>, last: i16, position: real): i16
    requires 0.0 <= position < |input| as real
  {
    var i := position.Floor;
    Sample(Previous(input, last, i), Following(input, i), position - i as real)
  }

  lemma OutputHere(input: seq<i16>, last: i16, position: real, i: nat, phase: real)
    requires i < |input| && 0.0 <= phase < 1.0 && position == i as real + phase
    ensures OutputAt(input, last, position) == Sample(Previous(input, last, i), Following(input, i), phase)
  {
    assert position.Floor == i;
  }

  /** The outputs made so far are those of the positions from `phase` on, all of them in the block. */
  predicate Made(out: seq<i16>, input: seq<i16>, last: i16, phase: real, step: real) {
    forall k: nat | k < |out| ::
      && 0.0 <= Position(phase, step, k) < |input| as real
      && out[k] == OutputAt(input, last, Position(phase, step, k))
  }

  /** The state of the loop after `outIdx` outputs: what has been made, and where it stands. */
  ghost predicate Filled(input: seq<i16>, first: i16, start: real, step: real, was: seq<i16>, out: seq<i16>,
                         outIdx: nat, inIdx: nat, phase: real, last: i16)
  {
    && outIdx <= |out| == |was|
    && 0.0 <= phase < 1.0
    && inIdx as real + phase == Position(start, step, outIdx)
    && (inIdx > 0 || outIdx > 0 ==> input != [])
    && last == Previous(input, first, inIdx)
    && Made(out[..outIdx], input, first, start, step)
    && out[outIdx..] == was[outIdx..]
  }

  lemma FilledOneMore(input: seq<i16>, first: i16, start: real, step: real, was: seq<i16>, out: seq<i16>,
                      outIdx: nat, at: nat, position: real, inIdx: nat, phase: real, last: i16)
    requires exists p, l :: Filled(input, first, start, step, was, out, outIdx, at, p, l) && position == at as real + p
    requires at < |input| && outIdx < |out|
    requires 0.0 <= phase < 1.0 && inIdx as real + phase == position + step
    requires last == Previous(input, first, inIdx)
    ensures Filled(input, first, start, step, was, out[outIdx := OutputAt(input, first, position)],
                   outIdx + 1, inIdx, phase, last)
  {
    var more := out[outIdx := OutputAt(input, first, position)];
    assert more[..outIdx + 1] == out[..outIdx] + [OutputAt(input, first, position)];
    assert more[outIdx + 1..] == out[outIdx..][1..];
    assert was[outIdx + 1..] == was[outIdx..][1..];
  }

  // ---------------------------------------------------------------- how many outputs a block gives

  lemma {:induction false} PositionLinear(phase: real, step: real, k: nat)
    ensures Position(phase, step, k) == phase + k as real * step
  {
    if k > 0 {
      PositionLinear(phase, step, k - 1);
      assert (k - 1) as real * step == k as real * step - step;
    }
  }

  /** Output positions below n are counted by rounding up the distance to n over the step. */
  function Needed(n: nat, phase: real, ratio: real): nat {
    if n == 0 then 0 else var c := Ceil((n as real - phase) * ratio); if c < 0 then 0 else c
  }

  /** Output w falls at or beyond sample n exactly when the needed outputs come before it. */
  lemma ReachedIff(n: nat, phase: real, ratio: real, w: nat)
    requires n > 0 && ratio > 0.0 && 0.0 <= phase < 1.0
    ensures Position(phase, 1.0 / ratio, w) >= n as real <==> w >= Needed(n, phase, ratio)
  {
    var step, gap := 1.0 / ratio, n as real - phase;
    var far, x := w as real * step, gap * ratio;
    PositionLinear(phase, step, w);
    TimesRatio(w, far, step, ratio);
    ScaledOrder(gap, far, ratio, x, w as real);
    CeilBound(x, w);
  }

  lemma CeilBound(x: real, w: int)
    ensures x <= w as real <==> Ceil(x) <= w
  {
  }

  lemma TimesRatio(w: nat, far: real, step: real, ratio: real)
    requires ratio > 0.0 && step == 1.0 / ratio && far == w as real * step
    ensures far * ratio == w as real
  {
    assert step * ratio == 1.0;
    assert far * ratio == w as real * (step * ratio);
  }

  /** `output_size` always leaves room for every output of the block. */
  function OutputSize(n: nat, ratio: real): int {
    Ceil(n as real * ratio) + 1
  }

  lemma BufferSuffices(n: nat, phase: real, ratio: real)
    requires ratio > 0.0 && 0.0 <= phase < 1.0
    ensures Needed(n, phase, ratio) <= OutputSize(n, ratio)
  {
    TimesOrder(n as real - phase, n as real, ratio);
    TimesOrder(0.0, n as real, ratio);
  }

  class LinearResampler {
    const ratio: real
    var phase: real
    var lastSample: i16

    ghost predicate Valid()
      reads this
    {
      ratio > 0.0 && 0.0 <= phase < 1.0
    }

    constructor (ratio: real)
      requires ratio > 0.0
      ensures Valid() && this.ratio == ratio && phase == 0.0 && lastSample == 0
    {
      this.ratio := ratio;
      phase := 0.0;
      lastSample := 0;
    }

    /** A resampler, unless the rates are the same. */
    static method New(inputRate: u32, outputRate: u32) returns (r: Option<LinearResampler>)
      requires inputRate != outputRate ==> inputRate > 0 && outputRate > 0
      ensures r.None? <==> inputRate == outputRate
      ensures r.Some? ==>
        && fresh(r.value) && r.value.Valid() && r.value.phase == 0.0 && r.value.lastSample == 0
        && r.value.ratio * inputRate as real == outputRate as real
    {
      if inputRate == outputRate {
        return None;
      }
      RatioSize(inputRate, outputRate);
      var resampler := new LinearResampler(outputRate as real / inputRate as real);
      return Some(resampler);
    }

    /** Moves the reading position up to the whole part of the phase. */
    method Advance(input: seq<i16>, inIdx: nat, ghost first: i16) returns (next: nat)
      requires phase >= 0.0 && input != []
      requires lastSample == Previous(input, first, inIdx)
      modifies this
      ensures next as real + phase == inIdx as real + old(phase)
      ensures 0.0 <= phase < 1.0
      ensures lastSample == Previous(input, first, next)
    {
      next := inIdx;
      while phase >= 1.0
        invariant phase >= 0.0 && next as real + phase == inIdx as real + old(phase)
        invariant lastSample == Previous(input, first, next)
        decreases phase.Floor
      {
        lastSample := input[Min(next, |input| - 1)];
        next := next + 1;
        phase := phase - 1.0;
      }
    }

    /** Writes one output and moves the reading position on by one step. */
    method Emit(input: seq<i16>, output: array<i16>, outIdx: nat, inIdx: nat, step: real,
                ghost first: i16, ghost position: real)
      returns (next: nat)
      requires 0.0 <= phase < 1.0 && step >= 0.0 && inIdx < |input| && outIdx < output.Length
      requires lastSample == Previous(input, first, inIdx)
      requires position == inIdx as real + phase
      modifies this, output
      ensures output[..] == old(output[..])[outIdx := OutputAt(input, first, position)]
      ensures next as real + phase == position + step
      ensures 0.0 <= phase < 1.0 && lastSample == Previous(input, first, next)
    {
      var following := if inIdx + 1 < |input| then input[inIdx + 1] else input[inIdx];
      var frac := phase - phase.Floor as real;
      assert frac == phase;
      OutputHere(input, first, position, inIdx, phase);
      output[outIdx] := Sample(lastSample, following, frac);
      phase := phase + step;
      next := Advance(input, inIdx, first);
    }

    /** The loop of `Process`, for a step of any size. */
    method Fill(input: seq<i16>, output: array<i16>, step: real) returns (outIdx: nat, inIdx: nat)
      requires 0.0 <= phase < 1.0 && step >= 0.0
      modifies this, output
      ensures outIdx <= output.Length && (inIdx >= |input| || outIdx >= output.Length)
      ensures Filled(input, old(lastSample), old(phase), step, old(output[..]), output[..],
                     outIdx, inIdx, phase, lastSample)
    {
      outIdx, inIdx := 0, 0;
      ghost var start, first, was := phase, lastSample, output[..];
      assert output[..0] == [];
      while inIdx < |input| && outIdx < output.Length
        invariant Filled(input, first, start, step, was, output[..], outIdx, inIdx, phase, lastSample)
        decreases output.Length - outIdx
      {
        ghost var before, position := output[..], inIdx as real + phase;
        ghost var at := inIdx;
        inIdx := Emit(input, output, outIdx, inIdx, step, first, position);
        FilledOneMore(input, first, start, step, was, before, outIdx, at, position, inIdx, phase, lastSample);
        outIdx := outIdx + 1;
      }
    }

    /**
     Fills `output` from the front. Exactly the outputs whose positions fall in the block are made,
     as far as there is room, and the position reached is kept as index and phase.
     */
    method Process(input: seq<i16>, output: array<i16>) returns (written: nat, consumed: nat)
      requires Valid()
      modifies this, output
      ensures Valid()
      ensures written == Min(output.Length, Needed(|input|, old(phase), ratio))
      ensures consumed as real + phase == Position(old(phase), 1.0 / ratio, written)
      ensures Needed(|input|, old(phase), ratio) <= output.Length ==> consumed >= |input|
      ensures consumed > 0 ==> input != []
      ensures phase == Frac(Position(old(phase), 1.0 / ratio, written))
      ensures lastSample == Previous(input, old(lastSample), consumed)
      ensures 0 < consumed < |input| ==> lastSample == input[consumed - 1]
      ensures 0 < |input| <= consumed ==> lastSample == input[|input| - 1]
      ensures Made(output[..written], input, old(lastSample), old(phase), 1.0 / ratio)
      ensures output[written..] == old(output[..])[written..]
    {
      ghost var start, first := phase, lastSample;
      written, consumed := Fill(input, output, 1.0 / ratio);
      assert written > 0 ==> Position(start, 1.0 / ratio, written - 1) < |input| as real by {
        assert Made(output[..written], input, first, start, 1.0 / ratio);
      }
      LoopCount(|input|, output.Length, start, ratio, written, consumed, phase);
      FracOf(Position(start, 1.0 / ratio, written), consumed, phase);
    }
  }

  function Frac(x: real): real {
    x - x.Floor as real
  }

  lemma FracOf(x: real, i: int, p: real)
    requires x == i as real + p && 0.0 <= p < 1.0
    ensures Frac(x) == p
  {
    assert x.Floor == i;
  }

  /** Where the loop stops, the outputs made are those needed, or the buffer is full. */
  lemma LoopCount(n: nat, room: nat, start: real, ratio: real, outIdx: nat, inIdx: nat, phase: real)
    requires ratio > 0.0 && 0.0 <= start < 1.0 && 0.0 <= phase < 1.0
    requires inIdx as real + phase == Position(start, 1.0 / ratio, outIdx)
    requires outIdx > 0 ==> Position(start, 1.0 / ratio, outIdx - 1) < n as real
    requires inIdx >= n || outIdx >= room
    requires outIdx <= room && (n == 0 ==> outIdx == 0)
    ensures outIdx == Min(room, Needed(n, start, ratio))
    ensures Needed(n, start, ratio) <= room ==> inIdx >= n
  {
    if n > 0 {
      ReachedIff(n, start, ratio, outIdx);
      if outIdx > 0 {
        ReachedIff(n, start, ratio, outIdx - 1);
      }
    }
  }

  // ---------------------------------------------------------------- one stream in many blocks

  /** What has been written, and the phase, after blocks with room for all their outputs. */
  datatype Pass = Pass(written: nat, phase: real)

  function Blocks(ratio: real, blocks: seq<nat>): (p: Pass)
    requires ratio > 0.0
    ensures 0.0 <= p.phase < 1.0
  {
    if blocks == [] then Pass(0, 0.0)
    else
      var p, n := Blocks(ratio, blocks[..|blocks| - 1]), blocks[|blocks| - 1];
      var w := Needed(n, p.phase, ratio);
      Pass(p.written + w, Frac(Position(p.phase, 1.0 / ratio, w)))
  }

  function Total(blocks: seq<nat>): nat {
    if blocks == [] then 0 else Total(blocks[..|blocks| - 1]) + blocks[|blocks| - 1]
  }

  lemma {:induction false} PositionAppend(phase: real, step: real, j: nat, k: nat)
    ensures Position(phase, step, j + k) - Position(phase, step, j) == Position(0.0, step, k)
  {
    if k > 0 {
      PositionAppend(phase, step, j, k - 1);
    }
  }

  /** Upsampling, a block ends exactly at its last sample, less than one step into the next. */
  lemma BlockEnds(n: nat, phase: real, ratio: real)
    requires n > 0 && ratio >= 1.0 && 0.0 <= phase < 1.0 && phase < 1.0 / ratio <= 1.0
    ensures var p := Position(phase, 1.0 / ratio, Needed(n, phase, ratio));
            p.Floor == n && 0.0 <= p - n as real < 1.0 / ratio
  {
    var w := Needed(n, phase, ratio);
    ReachedIff(n, phase, ratio, w);
    ReachedIff(n, phase, ratio, 0);
    ReachedIff(n, phase, ratio, w - 1);
  }

  lemma StepAtMostOne(ratio: real)
    requires ratio >= 1.0
    ensures 0.0 < 1.0 / ratio <= 1.0
  {
  }

  lemma {:induction false} BlocksPosition(ratio: real, blocks: seq<nat>)
    requires ratio >= 1.0
    ensures var p := Blocks(ratio, blocks);
            && p.phase < 1.0 / ratio
            && Position(0.0, 1.0 / ratio, p.written) == Total(blocks) as real + p.phase
  {
    StepAtMostOne(ratio);
    if blocks != [] {
      var init, n := blocks[..|blocks| - 1], blocks[|blocks| - 1];
      BlocksPosition(ratio, init);
      var p := Blocks(ratio, init);
      if n > 0 {
        var w := Needed(n, p.phase, ratio);
        BlockEnds(n, p.phase, ratio);
        PositionAppend(0.0, 1.0 / ratio, p.written, w);
        PositionAppend(p.phase, 1.0 / ratio, 0, w);
      }
    }
  }

  /** Upsampling, a stream gives the same number of outputs however it is cut into blocks. */
  lemma SplitLaw(ratio: real, blocks: seq<nat>)
    requires ratio >= 1.0
    ensures Blocks(ratio, blocks).written == Needed(Total(blocks), 0.0, ratio)
  {
    var p, n := Blocks(ratio, blocks), Total(blocks);
    BlocksPosition(ratio, blocks);
    StepAtMostOne(ratio);
    if n > 0 {
      ReachedIff(n, 0.0, ratio, p.written);
      if p.written > 0 {
        ReachedIff(n, 0.0, ratio, p.written - 1);
      }
    } else {
      EmptyBlocks(ratio, blocks);
    }
  }

  lemma {:induction false} EmptyBlocks(ratio: real, blocks: seq<nat>)
    requires ratio > 0.0 && Total(blocks) == 0
    ensures Blocks(ratio, blocks).written == 0
  {
    if blocks != [] {
      EmptyBlocks(ratio, blocks[..|blocks| - 1]);
    }
  }

  /** Downsampling, single-sample blocks give one output each. */
  lemma {:induction false} SingleSamples(ratio: real, k: nat)
    requires 0.0 < ratio < 1.0
    ensures Blocks(ratio, seq(k, _ => 1)).written == k && Total(seq(k, _ => 1)) == k
  {
    if k > 0 {
      var blocks: seq<nat> := seq(k, _ => 1);
      assert blocks[..k - 1] == seq(k - 1, _ => 1);
      SingleSamples(ratio, k - 1);
      var phase := Blocks(ratio, blocks[..k - 1]).phase;
      StepAboveOne(ratio);
      ReachedIff(1, phase, ratio, 0);
      ReachedIff(1, phase, ratio, 1);
      assert Position(phase, 1.0 / ratio, 1) == Position(phase, 1.0 / ratio, 0) + 1.0 / ratio;
    }
  }

  lemma StepAboveOne(ratio: real)
    requires 0.0 < ratio < 1.0
    ensures 1.0 / ratio > 1.0
  {
  }

  /** Block independence holds for every way of cutting the stream exactly when upsampling. */
  lemma SplitLawIff(inputRate: u32, outputRate: u32)
    requires inputRate > 0 && outputRate > 0 && inputRate != outputRate
    ensures var ratio := outputRate as real / inputRate as real;
            ratio > 0.0
            && ((forall blocks :: Blocks(ratio, blocks).written == Needed(Total(blocks), 0.0, ratio))
                <==> inputRate < outputRate)
  {
    var ratio := outputRate as real / inputRate as real;
    RatioSize(inputRate, outputRate);
    if inputRate < outputRate {
      forall blocks ensures Blocks(ratio, blocks).written == Needed(Total(blocks), 0.0, ratio) {
        SplitLaw(ratio, blocks);
      }
    } else {
      var blocks: seq<nat> := seq(inputRate, _ => 1);
      SingleSamples(ratio, inputRate);
      assert Needed(inputRate, 0.0, ratio) == outputRate;
      assert Blocks(ratio, blocks).written != Needed(Total(blocks), 0.0, ratio);
    }
  }

  lemma RatioSize(inputRate: u32, outputRate: u32)
    requires inputRate > 0 && outputRate > 0
    ensures var ratio := outputRate as real / inputRate as real;
            && ratio > 0.0
            && (ratio < 1.0 <==> outputRate < inputRate)
            && inputRate as real * ratio == outputRate as real
  {
    var i, o := inputRate as real, outputRate as real;
    var ratio := o / i;
    assert ratio * i == o;
    ScaledOrder(1.0, ratio, i, i, o);
    ScaledOrder(ratio, 0.0, i, o, 0.0);
  }

  // ---------------------------------------------------------------- what is interpolated

  /** The value at a position of a block, before it is cut to an integer. */
  function ValueAt(input: seq<i16>, last: i16, position: real): real
    requires 0.0 <= position < |input| as real
  {
    var i := position.Floor;
    Blend(Previous(input, last, i), Following(input, i), position - i as real)
  }

  /** The value the code comments promise there: between the current and the next sample. */
  function PromisedAt(input: seq<i16>, position: real): real
    requires 0.0 <= position < |input| as real
  {
    var i := position.Floor;
    Blend(input[i], Following(input, i), position - i as real)
  }

  lemma OutputIsValueCut(input: seq<i16>, last: i16, position: real)
    requires 0.0 <= position < |input| as real
    ensures OutputAt(input, last, position) == Trunc(ValueAt(input, last, position))
  {
  }

  /**
   At every position of every block, the value before the cut is the promised one exactly when the
   remembered sample, the one before the current, equals the current one.
   */
  lemma BlendsCurrentIff(input: seq<i16>, last: i16, position: real)
    requires 0.0 <= position < |input| as real
    ensures var i := position.Floor;
            ValueAt(input, last, position) == PromisedAt(input, position) <==> Previous(input, last, i) == input[i]
  {
    var i := position.Floor;
    var frac := position - i as real;
    SameMixIff(Previous(input, last, i) as real, input[i] as real, Following(input, i) as real, 1.0 - frac, frac,
               ValueAt(input, last, position), PromisedAt(input, position));
  }

  lemma SameMixIff(x: real, y: real, z: real, rest: real, frac: real, u: real, v: real)
    requires rest > 0.0 && u == x * rest + z * frac && v == y * rest + z * frac
    ensures u == v <==> x == y
  {
    var p, q, r := x * rest, y * rest, z * frac;
    ScaledOrder(x, y, rest, p, q);
  }

  /**
   At whole positions the cut changes nothing: what is written is the sample before the current one,
   what is promised the current one, so the output is the promised one exactly when they are equal.
   */
  lemma WholePositionIff(input: seq<i16>, last: i16, i: nat)
    requires i < |input|
    ensures var written, promised := OutputAt(input, last, i as real), Trunc(PromisedAt(input, i as real));
            && written == Previous(input, last, i) && promised == input[i]
            && (written == promised <==> Previous(input, last, i) == input[i])
  {
    assert (i as real).Floor == i;
    OutputIsValueCut(input, last, i as real);
    BlendEnds(Previous(input, last, i), Following(input, i));
    BlendEnds(input[i], Following(input, i));
  }

  /** The first output of a new resampler is zero, whatever the first sample is. */
  lemma FirstOutputIff(input: seq<i16>)
    requires input != []
    ensures OutputAt(input, 0, 0.0) == 0
    ensures OutputAt(input, 0, 0.0) == Trunc(PromisedAt(input, 0.0)) <==> input[0] == 0
  {
    WholePositionIff(input, 0, 0);
  }

  lemma BlendEnds(a: i16, b: i16)
    ensures Blend(a, b, 0.0) == a as real && Blend(a, b, 1.0) == b as real
  {
  }

  lemma BlendForm(a: i16, b: i16, frac: real)
    ensures Blend(a, b, frac) == a as real + (b as real - a as real) * frac
  {
    MixForm(a as real, b as real, frac, Blend(a, b, frac));
  }

  lemma MixForm(x: real, y: real, frac: real, v: real)
    requires v == x * (1.0 - frac) + y * frac
    ensures v == x + (y - x) * frac
  {
    var xf, yf := x * frac, y * frac;
    assert x * (1.0 - frac) == x - xf;
    assert (y - x) * frac == yf - xf;
  }

  lemma AffineForm(i: real, x: real, d: real, p: real, r: real, q: real, vp: real, vr: real, vq: real)
    requires vp == x + d * (p - i) && vr == x + d * (r - i) && vq == x + d * (q - i)
    ensures (q - p) * vr == (q - r) * vp + (r - p) * vq
  {
    var y, dp, dr, dq := x - d * i, d * p, d * r, d * q;
    var qr, pr, qp := d * (q * r), d * (p * r), d * (q * p);
    assert vp == y + dp && vr == y + dr && vq == y + dq;
    assert (q - p) * dr == qr - pr;
    assert (q - r) * dp == qp - pr;
    assert (r - p) * dq == qr - qp;
    assert (q - p) * y == (q - r) * y + (r - p) * y;
  }

  lemma OnLine(input: seq<i16>, last: i16, i: nat, position: real, x: real, d: real)
    requires i < |input| && i as real <= position < i as real + 1.0
    requires x == Previous(input, last, i) as real && d == Following(input, i) as real - x
    ensures ValueAt(input, last, position) == x + d * (position - i as real)
  {
    ValueHere(input, last, i, position - i as real, position);
    BlendForm(Previous(input, last, i), Following(input, i), position - i as real);
  }

  /** Within one input interval the value before the cut is an affine function of the position. */
  lemma ValueAffine(input: seq<i16>, last: i16, i: nat, p: real, r: real, q: real)
    requires i < |input| && i as real <= p <= r <= q < i as real + 1.0
    ensures (q - p) * ValueAt(input, last, r) == (q - r) * ValueAt(input, last, p) + (r - p) * ValueAt(input, last, q)
  {
    var x := Previous(input, last, i) as real;
    var d := Following(input, i) as real - x;
    OnLine(input, last, i, p, x, d);
    OnLine(input, last, i, r, x, d);
    OnLine(input, last, i, q, x, d);
    AffineForm(i as real, x, d, p, r, q, ValueAt(input, last, p), ValueAt(input, last, r), ValueAt(input, last, q));
  }

  lemma ValueHere(input: seq<i16>, last: i16, i: nat, frac: real, position: real)
    requires i < |input| && 0.0 <= frac < 1.0 && position == i as real + frac
    ensures ValueAt(input, last, position) == Blend(Previous(input, last, i), Following(input, i), frac)
  {
    assert position.Floor == i;
  }

  /**
   The value between two samples, by the samples of the block alone: it starts at the sample before the
   current one, or the remembered one, and moves towards the one after it, or the current one at the end.
   */
  lemma ValueFromSamples(input: seq<i16>, last: i16, i: nat, frac: real)
    requires i < |input| && 0.0 <= frac < 1.0
    ensures var a := (if i == 0 then last else input[i - 1]) as real;
            var b := (if i == |input| - 1 then input[i] else input[i + 1]) as real;
            ValueAt(input, last, i as real + frac) == a + (b - a) * frac
  {
    ValueHere(input, last, i, frac, i as real + frac);
    BlendForm(Previous(input, last, i), Following(input, i), frac);
  }

  /** The sample written is the integer next to that value, on the side of zero. */
  lemma OutputFromSamples(input: seq<i16>, last: i16, i: nat, frac: real)
    requires i < |input| && 0.0 <= frac < 1.0
    ensures var a := (if i == 0 then last else input[i - 1]) as real;
            var b := (if i == |input| - 1 then input[i] else input[i + 1]) as real;
            var value, written := a + (b - a) * frac, OutputAt(input, last, i as real + frac) as real;
            && (value >= 0.0 ==> written <= value < written + 1.0)
            && (value <= 0.0 ==> written - 1.0 < value <= written)
  {
    var position := i as real + frac;
    ValueFromSamples(input, last, i, frac);
    OutputIsValueCut(input, last, position);
    TruncTowardsZero(ValueAt(input, last, position));
  }

  lemma TruncTowardsZero(x: real)
    ensures x >= 0.0 ==> Trunc(x) as real <= x < Trunc(x) as real + 1.0
    ensures x <= 0.0 ==> Trunc(x) as real - 1.0 < x <= Trunc(x) as real
  {
  }

  /** A straight line of samples. */
  ghost predicate Ramp(input: seq<i16>, start: int, slope: int) {
    forall i | 0 <= i < |input| :: input[i] == start + slope * i
  }

  /**
   A straight line comes out as a saw: inside a block it falls back by one slope at every whole position
   and rises twice as fast in between, where the documented value goes on along the line.
   */
  lemma RampBecomesSaw(input: seq<i16>, last: i16, start: int, slope: int, i: nat, frac: real)
    requires Ramp(input, start, slope) && 1 <= i < |input| - 1 && 0.0 <= frac < 1.0
    ensures var position := i as real + frac;
            var line := start as real + slope as real * position;
            && PromisedAt(input, position) == line
            && ValueAt(input, last, position) == line - slope as real * (1.0 - frac)
  {
    PromisedOnLine(input, start, slope, i, frac);
    SawUnderLine(input, last, start, slope, i, frac);
  }

  lemma PromisedOnLine(input: seq<i16>, start: int, slope: int, i: nat, frac: real)
    requires Ramp(input, start, slope) && 1 <= i < |input| - 1 && 0.0 <= frac < 1.0
    ensures PromisedAt(input, i as real + frac) == start as real + slope as real * (i as real + frac)
  {
    var position, d, here := i as real + frac, slope as real, input[i] as real;
    assert position.Floor == i;
    BlendForm(input[i], input[i + 1], frac);
    LinePoints(input, start, slope, i);
    SawForm(start as real, d, i as real, frac, d * i as real, d * frac, here - d, here, here + d);
  }

  lemma SawUnderLine(input: seq<i16>, last: i16, start: int, slope: int, i: nat, frac: real)
    requires Ramp(input, start, slope) && 1 <= i < |input| - 1 && 0.0 <= frac < 1.0
    ensures ValueAt(input, last, i as real + frac)
         == start as real + slope as real * (i as real + frac) - slope as real * (1.0 - frac)
  {
    var d, here := slope as real, input[i] as real;
    ValueFromSamples(input, last, i, frac);
    LinePoints(input, start, slope, i);
    SawForm(start as real, d, i as real, frac, d * i as real, d * frac, here - d, here, here + d);
  }

  lemma LinePoints(input: seq<i16>, start: int, slope: int, i: nat)
    requires Ramp(input, start, slope) && 1 <= i < |input| - 1
    ensures var here := start as real + slope as real * i as real;
            && input[i] as real == here
            && input[i - 1] as real == here - slope as real && input[i + 1] as real == here + slope as real
  {
    var at := slope * i;
    assert slope * (i - 1) == at - slope && slope * (i + 1) == at + slope;
    assert slope as real * i as real == at as real;
    assert input[i - 1] == start + slope * (i - 1) && input[i + 1] == start + slope * (i + 1);
  }

  lemma SawForm(start: real, d: real, i: real, frac: real, di: real, df: real, before: real, here: real, after: real)
    requires di == d * i && df == d * frac
    requires here == start + di && before == here - d && after == here + d
    ensures here + (after - here) * frac == start + d * (i + frac)
    ensures before + (after - before) * frac == start + d * (i + frac) - d * (1.0 - frac)
  {
    assert (after - here) * frac == df;
    assert (after - before) * frac == df + df;
    assert d * (i + frac) == di + df && d * (1.0 - frac) == d - df;
  }

  /** One second in is one second out: a block of the input rate's samples gives the output rate's. */
  lemma OneSecond(inputRate: u32, outputRate: u32)
    requires inputRate > 0 && outputRate > 0
    ensures var ratio := outputRate as real / inputRate as real;
            ratio > 0.0 && Needed(inputRate, 0.0, ratio) == outputRate
  {
    RatioSize(inputRate, outputRate);
    var ratio := outputRate as real / inputRate as real;
    assert (inputRate as real - 0.0) * ratio == outputRate as real;
  }
}
