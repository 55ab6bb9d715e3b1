/** `SbcCodecLive`: decoding that remembers the last good frame, and packet loss concealment. */
module Codec {
  import opened Words

  /** What libsbc answers: a frame with its length in bytes, or an error. */
  datatype Decoded<S> =
    | Frame(ctx: S, consumed: nat, pcm: seq<i16>)
    | Corrupt(ctx: S)

  /** The library decoder as a state machine over an abstract context. */
  datatype Decoder<!S(!new)> = Decoder(decode: (S, seq<u8>) -> Decoded<S>, frameLength: nat, codesize: nat)
  {
    /** Room for four times the samples of one frame. */
    function MaxPcm(): nat {
      codesize / 2 * 4
    }

    function SamplesPerFrame(): nat {
      if codesize / 2 >= 1 then codesize / 2 else 1
    }

    /**
     The decoder looks at `frameLength` bytes at most, takes at least one of them when it
     succeeds, and fits its samples into the buffer the engine allocates.
     */
    ghost predicate Contract() {
      && frameLength >= 1
      && codesize >= 2
      && (forall s, a, b | |a| >= frameLength && |b| >= frameLength && a[..frameLength] == b[..frameLength] ::
            decode(s, a) == decode(s, b))
      && (forall s, input | |input| >= frameLength && decode(s, input).Frame? ::
            1 <= decode(s, input).consumed <= frameLength && |decode(s, input).pcm| <= MaxPcm())
    }
  }

  const PLC_MAX: nat := 8

  datatype State<S> = State(ctx: S, lastPcm: seq<i16>, concealed: u32)

  /** The sample shifted right arithmetically, one place at a time; each place rounds down. */
  function Shr(x: i16, shift: nat): i16
    decreases shift
  {
    if shift == 0 then x else Shr(x / 2, shift - 1)
  }

  lemma {:induction false} ShrIsDivision(x: i16, shift: nat)
    ensures Shr(x, shift) == x / Pow2(shift)
    decreases shift
  {
    if shift > 0 {
      ShrIsDivision(x / 2, shift - 1);
      DivDiv(x, 2, Pow2(shift - 1));
    }
  }

  /** The state after a good decode. */
  function Remember<S>(s: State<S>, ctx: S, pcm: seq<i16>): State<S> {
    if pcm == [] then s.(ctx := ctx) else State(ctx, pcm, 0)
  }

  /** The replacement frame of at most `n` samples that `plc` produces. */
  function Concealment<S>(s: State<S>, n: nat): seq<i16> {
    if s.lastPcm == [] then
      Silence(n)
    else
      var len := Min(n, |s.lastPcm|);
      var k := WrapAdd32(s.concealed, 1);
      if k > PLC_MAX then Silence(len) else seq(len, i requires 0 <= i < len => Shr(s.lastPcm[i], Min(k, 15)))
  }

  /** The state `plc` leaves: the attenuated frame replaces the remembered one. */
  function Conceal<S>(s: State<S>, n: nat): State<S> {
    if s.lastPcm == [] then
      s
    else
      var k := WrapAdd32(s.concealed, 1);
      if k > PLC_MAX then
        s.(concealed := k)
      else
        var out := Concealment(s, n);
        s.(lastPcm := out + s.lastPcm[|out|..], concealed := k)
  }

  class SbcCodec<S(!new)> {
    const dec: Decoder<S>
    var ctx: S
    var lastPcm: seq<i16>
    var plcConsecutive: u32

    constructor (dec: Decoder<S>, ctx: S)
      ensures this.dec == dec && View() == State(ctx, [], 0)
    {
      this.dec := dec;
      this.ctx := ctx;
      lastPcm := [];
      plcConsecutive := 0;
    }

    function View(): State<S>
      reads this
    {
      State(ctx, lastPcm, plcConsecutive)
    }

    method DecodeFrame(input: seq<u8>, output: array<i16>) returns (ok: bool, consumed: nat, written: nat)
      requires dec.Contract() && |input| >= dec.frameLength && output.Length == dec.MaxPcm()
      modifies this, output
      ensures match dec.decode(old(ctx), input)
              case Frame(c, n, pcm) =>
                ok && consumed == n && written == |pcm| <= output.Length && output[..written] == pcm
                && View() == Remember(old(View()), c, pcm)
              case Corrupt(c) =>
                !ok && View() == old(View()).(ctx := c)
      ensures ok && written > 0 ==> lastPcm == output[..written] && plcConsecutive == 0
      ensures !ok || written == 0 ==> lastPcm == old(lastPcm) && plcConsecutive == old(plcConsecutive)
    {
      match dec.decode(ctx, input) {
        case Frame(c, n, pcm) =>
          ctx := c;
          forall i | 0 <= i < |pcm| {
            output[i] := pcm[i];
          }
          ok, consumed, written := true, n, |pcm|;
          assert output[..written] == pcm;
          if written > 0 {
            lastPcm := output[..written];
            plcConsecutive := 0;
          }
        case Corrupt(c) =>
          ctx := c;
          ok, consumed, written := false, 0, 0;
      }
    }

    /** Silence in the first `n` places. */
    static method Mute(output: array<i16>, n: nat)
      requires n <= output.Length
      modifies output
      ensures output[..n] == Silence(n)
    {
      for i := 0 to n
        invariant forall j | 0 <= j < i :: output[j] == 0
      {
        output[i] := 0;
      }
    }

    /** Fills the first `n` places of `output`, or as many as there are remembered samples. */
    method Plc(output: array<i16>, n: nat) returns (written: nat)
      requires n <= output.Length
      modifies this, output
      ensures written == |Concealment(old(View()), n)| <= n
      ensures output[..written] == Concealment(old(View()), n)
      ensures View() == Conceal(old(View()), n)
    {
      if lastPcm == [] {
        Mute(output, n);
        return n;
      }

      plcConsecutive := WrapAdd32(plcConsecutive, 1);
      written := Min(n, |lastPcm|);
      if plcConsecutive > PLC_MAX {
        Mute(output, written);
        return;
      }

      var shift := Min(plcConsecutive, 15);
      for i := 0 to written
        invariant View() == old(View()).(concealed := WrapAdd32(old(plcConsecutive), 1))
        invariant forall j | 0 <= j < i :: output[j] == Shr(lastPcm[j], shift)
      {
        output[i] := Shr(lastPcm[i], shift);
      }
      ghost var out := Concealment(old(View()), n);
      assert output[..written] == out;
      for i := 0 to written
        invariant output[..written] == out
        invariant |lastPcm| == |old(lastPcm)|
        invariant forall j | 0 <= j < |lastPcm| :: lastPcm[j] == if j < i then out[j] else old(lastPcm)[j]
        invariant ctx == old(ctx) && plcConsecutive == WrapAdd32(old(plcConsecutive), 1)
      {
        assert output[i] == output[..written][i];
        lastPcm := lastPcm[i := output[i]];
      }
      assert lastPcm == out + old(lastPcm)[written..];
    }

    method Reset()
      modifies this
      ensures View() == State(old(ctx), [], 0)
    {
      lastPcm := [];
      plcConsecutive := 0;
    }
  }

  // ---------------------------------------------------------------- the fade-out in closed form

  /** The state after concealing frames of the given lengths in a row. */
  function ConcealRun<S>(s: State<S>, lengths: seq<nat>): State<S> {
    if lengths == [] then s else Conceal(ConcealRun(s, lengths[..|lengths| - 1]), lengths[|lengths| - 1])
  }

  /** How far sample `i` has been shifted: concealment k adds k when its frame reaches that far. */
  function TotalShift(lengths: seq<nat>, i: nat): nat {
    if lengths == [] then 0
    else TotalShift(lengths[..|lengths| - 1], i) + (if i < lengths[|lengths| - 1] then |lengths| else 0)
  }

  lemma {:induction false} ShrShr(x: i16, j: nat, k: nat)
    ensures Shr(Shr(x, j), k) == Shr(x, j + k)
    decreases j
  {
    if j > 0 {
      ShrShr(x / 2, j - 1, k);
    }
  }

  /** One concealment before the limit, sample by sample. */
  lemma ConcealOnce<S>(s: State<S>, n: nat)
    requires s.lastPcm != [] && s.concealed < PLC_MAX
    ensures Conceal(s, n).concealed == s.concealed + 1
    ensures |Conceal(s, n).lastPcm| == |s.lastPcm| && |Concealment(s, n)| == Min(n, |s.lastPcm|)
    ensures forall i | 0 <= i < |s.lastPcm| ::
              Conceal(s, n).lastPcm[i] == if i < n then Shr(s.lastPcm[i], s.concealed + 1) else s.lastPcm[i]
    ensures forall i | 0 <= i < Min(n, |s.lastPcm|) ::
              Concealment(s, n)[i] == Shr(s.lastPcm[i], s.concealed + 1)
  {
  }

  /** Every sample of `t` is the sample of `s` shifted by its accumulated amount. */
  predicate Cascaded<S>(s: State<S>, t: State<S>, lengths: seq<nat>) {
    && t.concealed == |lengths|
    && |t.lastPcm| == |s.lastPcm|
    && forall i | 0 <= i < |s.lastPcm| :: t.lastPcm[i] == Shr(s.lastPcm[i], TotalShift(lengths, i))
  }

  lemma CascadeStep<S>(s: State<S>, t: State<S>, u: State<S>, lengths: seq<nat>)
    requires lengths != [] && Cascaded(s, t, lengths[..|lengths| - 1])
    requires u.concealed == t.concealed + 1 && |u.lastPcm| == |t.lastPcm|
    requires forall i | 0 <= i < |t.lastPcm| ::
               u.lastPcm[i] == if i < lengths[|lengths| - 1] then Shr(t.lastPcm[i], |lengths|) else t.lastPcm[i]
    ensures Cascaded(s, u, lengths)
  {
    var init, n := lengths[..|lengths| - 1], lengths[|lengths| - 1];
    forall i | 0 <= i < |s.lastPcm| ensures u.lastPcm[i] == Shr(s.lastPcm[i], TotalShift(lengths, i)) {
      var shift := TotalShift(lengths, i);
      CascadeSample(s.lastPcm[i], t.lastPcm[i], u.lastPcm[i], TotalShift(init, i), |lengths|, i < n, shift);
    }
  }

  lemma CascadeSample(p: i16, q: i16, r: i16, j: nat, k: nat, reached: bool, total: nat)
    requires q == Shr(p, j) && r == if reached then Shr(q, k) else q
    requires total == if reached then j + k else j
    ensures r == Shr(p, total)
  {
    ShrShr(p, j, k);
  }

  /** The remembered frame after a run of concealments. */
  lemma {:induction false} ConcealRunState<S>(s: State<S>, lengths: seq<nat>)
    requires s.lastPcm != [] && s.concealed == 0 && |lengths| <= PLC_MAX
    ensures Cascaded(s, ConcealRun(s, lengths), lengths)
  {
    if lengths == [] {
      assert forall i | 0 <= i < |s.lastPcm| :: TotalShift(lengths, i) == 0;
    } else {
      var init, n := lengths[..|lengths| - 1], lengths[|lengths| - 1];
      ConcealRunState(s, init);
      var t := ConcealRun(s, init);
      ConcealOnce(t, n);
      CascadeStep(s, t, Conceal(t, n), lengths);
    }
  }

  lemma LastConcealment<S>(s: State<S>, t: State<S>, lengths: seq<nat>, out: seq<i16>)
    requires lengths != [] && Cascaded(s, t, lengths[..|lengths| - 1])
    requires |out| == Min(lengths[|lengths| - 1], |s.lastPcm|)
    requires forall i | 0 <= i < |out| :: out[i] == Shr(t.lastPcm[i], |lengths|)
    ensures forall i | 0 <= i < |out| :: out[i] == Shr(s.lastPcm[i], TotalShift(lengths, i))
  {
    var init := lengths[..|lengths| - 1];
    forall i | 0 <= i < |out| ensures out[i] == Shr(s.lastPcm[i], TotalShift(lengths, i)) {
      var shift := TotalShift(lengths, i);
      CascadeSample(s.lastPcm[i], t.lastPcm[i], out[i], TotalShift(init, i), |lengths|, true, shift);
    }
  }

  /** The last concealment of a run, sample by sample. */
  lemma ConcealmentClosedForm<S>(s: State<S>, lengths: seq<nat>)
    requires s.lastPcm != [] && s.concealed == 0 && 1 <= |lengths| <= PLC_MAX
    ensures var n := lengths[|lengths| - 1];
            var out := Concealment(ConcealRun(s, lengths[..|lengths| - 1]), n);
            && |out| == Min(n, |s.lastPcm|)
            && forall i | 0 <= i < |out| :: out[i] == Shr(s.lastPcm[i], TotalShift(lengths, i))
  {
    var init, n := lengths[..|lengths| - 1], lengths[|lengths| - 1];
    ConcealRunState(s, init);
    var t := ConcealRun(s, init);
    ConcealOnce(t, n);
    LastConcealment(s, t, lengths, Concealment(t, n));
  }

  /** One concealment past the limit. */
  lemma ConcealSilently<S>(s: State<S>, n: nat)
    requires s.lastPcm != [] && PLC_MAX <= s.concealed < 0xffff_ffff
    ensures Conceal(s, n) == s.(concealed := s.concealed + 1)
    ensures Concealment(s, n) == Silence(Min(n, |s.lastPcm|))
  {
  }

  lemma {:induction false} ConcealRunSilent<S>(s: State<S>, lengths: seq<nat>)
    requires s.lastPcm != [] && s.concealed == 0 && PLC_MAX <= |lengths| < 0x1_0000_0000
    ensures ConcealRun(s, lengths).concealed == |lengths|
    ensures |ConcealRun(s, lengths).lastPcm| == |s.lastPcm|
  {
    if |lengths| == PLC_MAX {
      ConcealRunState(s, lengths);
    } else {
      var init := lengths[..|lengths| - 1];
      ConcealRunSilent(s, init);
      ConcealSilently(ConcealRun(s, init), lengths[|lengths| - 1]);
    }
  }

  /** From the ninth concealment on, up to the wrap of the counter, the output is silence. */
  lemma SilentFromNine<S>(s: State<S>, lengths: seq<nat>)
    requires s.lastPcm != [] && s.concealed == 0 && PLC_MAX < |lengths| < 0x1_0000_0000
    ensures var n := lengths[|lengths| - 1];
            Concealment(ConcealRun(s, lengths[..|lengths| - 1]), n) == Silence(Min(n, |s.lastPcm|))
  {
    var init := lengths[..|lengths| - 1];
    ConcealRunSilent(s, init);
    ConcealSilently(ConcealRun(s, init), lengths[|lengths| - 1]);
  }

  function Triangle(k: nat): nat {
    if k == 0 then 0 else Triangle(k - 1) + k
  }

  lemma {:induction false} TriangleForm(k: nat)
    ensures 2 * Triangle(k) == k * (k + 1)
  {
    if k > 0 {
      TriangleForm(k - 1);
      assert k * (k + 1) == (k - 1) * k + 2 * k;
    }
  }

  lemma {:induction false} TriangleMono(j: nat, k: nat)
    requires j <= k
    ensures Triangle(j) <= Triangle(k)
  {
    if j < k {
      TriangleMono(j, k - 1);
    }
  }

  lemma {:induction false} TotalShiftConstant(n: nat, k: nat, i: nat)
    ensures TotalShift(seq(k, _ => n), i) == if i < n then Triangle(k) else 0
  {
    if k > 0 {
      assert seq(k, _ => n)[..k - 1] == seq(k - 1, _ => n);
      TotalShiftConstant(n, k - 1, i);
    }
  }

  /**
   The k-th concealment in a row after the good frame p, with frames of n samples, is
   floor(p / 2^(k(k+1)/2)) for k up to eight.
   */
  lemma PlcClosedForm<S>(s: State<S>, n: nat, k: nat)
    requires s.lastPcm != [] && s.concealed == 0 && 1 <= k <= PLC_MAX
    ensures var out := Concealment(ConcealRun(s, seq(k - 1, _ => n)), n);
            && |out| == Min(n, |s.lastPcm|)
            && forall i | 0 <= i < |out| :: out[i] == s.lastPcm[i] / Pow2(Triangle(k))
    ensures 2 * Triangle(k) == k * (k + 1)
  {
    TriangleForm(k);
    var lengths: seq<nat> := seq(k, _ => n);
    assert lengths[..k - 1] == seq(k - 1, _ => n);
    ConcealmentClosedForm(s, lengths);
    forall i | 0 <= i < Min(n, |s.lastPcm|)
      ensures Shr(s.lastPcm[i], TotalShift(lengths, i)) == s.lastPcm[i] / Pow2(Triangle(k))
    {
      TotalShiftConstant(n, k, i);
      ShrIsDivision(s.lastPcm[i], Triangle(k));
    }
  }

  lemma {:induction false} ShrSmall(p: i16, k: nat)
    ensures Shr(p, k) == 0 || Shr(p, k) == -1 <==> -Pow2(k) <= p < Pow2(k)
    decreases k
  {
    if k > 0 {
      ShrSmall(p / 2, k - 1);
    }
  }

  lemma {:induction false} ShrSign(p: i16, k: nat)
    ensures Shr(p, k) >= 0 <==> p >= 0
    decreases k
  {
    if k > 0 {
      ShrSign(p / 2, k - 1);
    }
  }

  lemma {:induction false} ShrMoves(q: i16, m: nat)
    ensures q > 0 ==> 0 <= Shr(q, m + 1) < q
    ensures q < -1 ==> q < Shr(q, m + 1) < 0
    ensures q == 0 || q == -1 ==> Shr(q, m + 1) == q
    decreases m
  {
    if m > 0 {
      ShrMoves(q / 2, m - 1);
    }
  }

  /** Five concealments shift by fifteen places, which is all there are. */
  lemma FifteenPlaces()
    ensures Triangle(5) == 15 && Pow2(15) == 0x8000
  {
    assert Triangle(3) == 6;
    assert Pow2(4) == 16;
    assert Pow2(8) == 256;
    assert Pow2(12) == 4096;
  }

  /** From the fifth concealment on, every sample is 0 or -1. */
  lemma PlcInaudibleFromFive(p: i16, k: nat)
    requires 5 <= k
    ensures p / Pow2(Triangle(k)) == if p >= 0 then 0 else -1
  {
    TriangleMono(5, k);
    FifteenPlaces();
    ShrShr(p, 15, Triangle(k) - 15);
    ShrSmall(p, 15);
    ShrSign(p, Triangle(k));
    if Triangle(k) > 15 {
      ShrMoves(Shr(p, 15), Triangle(k) - 16);
    }
    ShrIsDivision(p, Triangle(k));
  }

  /**
   The documented 6 dB per frame would make the k-th concealment floor(p / 2^k). It is that for
   the first one, and afterwards only for samples already too small to survive the shift.
   */
  lemma SixDecibelsIff(p: i16, k: nat)
    requires 1 <= k <= PLC_MAX
    ensures p / Pow2(Triangle(k)) == p / Pow2(k) <==> k == 1 || -Pow2(k) <= p < Pow2(k)
  {
    ShrIsDivision(p, k);
    ShrIsDivision(p, Triangle(k));
    assert Triangle(1) == 1;
    if k > 1 {
      TriangleMono(1, k - 1);
      ShrShr(p, k, Triangle(k - 1));
      ShrMoves(Shr(p, k), Triangle(k - 1) - 1);
      ShrSmall(p, k);
    }
  }

  // ---------------------------------------------------------------- runs of decodes and losses

  /** What the engine asks of a codec. */
  datatype Act = Decode(input: seq<u8>) | Lose(n: nat) | Restart

  /** The state after one call, in terms of what the decoder answers. */
  function Do<S(!new)>(dec: Decoder<S>, s: State<S>, act: Act): State<S> {
    match act
    case Decode(input) =>
      (match dec.decode(s.ctx, input)
       case Frame(ctx, _, pcm) => Remember(s, ctx, pcm)
       case Corrupt(ctx) => s.(ctx := ctx))
    case Lose(n) => Conceal(s, n)
    case Restart => State(s.ctx, [], 0)
  }

  function Ran<S(!new)>(dec: Decoder<S>, s: State<S>, acts: seq<Act>): State<S> {
    if acts == [] then s else Do(dec, Ran(dec, s, acts[..|acts| - 1]), acts[|acts| - 1])
  }

  lemma {:induction false} RanAppend<S(!new)>(dec: Decoder<S>, s: State<S>, a: seq<Act>, b: seq<Act>)
    ensures Ran(dec, s, a + b) == Ran(dec, Ran(dec, s, a), b)
  {
    if b == [] {
      assert a + b == a;
    } else {
      var n := |b| - 1;
      assert (a + b)[..|a + b| - 1] == a + b[..n];
      RanAppend(dec, s, a, b[..n]);
    }
  }

  /** The decoder answers with a frame of the samples `pcm`, which are not none. */
  predicate Decodes<S(!new)>(dec: Decoder<S>, ctx: S, input: seq<u8>, pcm: seq<i16>) {
    pcm != [] && dec.decode(ctx, input).Frame? && dec.decode(ctx, input).pcm == pcm
  }

  /** The call neither resets the codec nor decodes a frame with samples in it. */
  predicate Idles<S(!new)>(dec: Decoder<S>, ctx: S, act: Act) {
    match act
    case Decode(input) => dec.decode(ctx, input).Corrupt? || dec.decode(ctx, input).pcm == []
    case Lose(_) => true
    case Restart => false
  }

  predicate Quiet<S(!new)>(dec: Decoder<S>, s: State<S>, acts: seq<Act>) {
    acts != [] ==>
      var init := acts[..|acts| - 1];
      Quiet(dec, s, init) && Idles(dec, Ran(dec, s, init).ctx, acts[|acts| - 1])
  }

  /** The frame lengths of the losses. */
  function Losses(acts: seq<Act>): seq<nat> {
    if acts == [] then []
    else
      var last := acts[|acts| - 1];
      Losses(acts[..|acts| - 1]) + if last.Lose? then [last.n] else []
  }

  lemma ConcealElsewhere<S>(s: State<S>, ctx: S, n: nat)
    ensures Conceal(s.(ctx := ctx), n) == Conceal(s, n).(ctx := ctx)
    ensures Concealment(s.(ctx := ctx), n) == Concealment(s, n)
  {
  }

  /** Errors and empty frames leave the fade where it is: only the losses count. */
  lemma {:induction false} OnlyLossesCount<S(!new)>(dec: Decoder<S>, s: State<S>, acts: seq<Act>)
    requires Quiet(dec, s, acts)
    ensures Ran(dec, s, acts).(ctx := s.ctx) == ConcealRun(s, Losses(acts))
  {
    if acts != [] {
      var init, last := acts[..|acts| - 1], acts[|acts| - 1];
      OnlyLossesCount(dec, s, init);
      if last.Lose? {
        ConcealElsewhere(Ran(dec, s, init), s.ctx, last.n);
        assert Losses(acts)[..|Losses(init)|] == Losses(init);
      } else {
        assert Losses(acts) == Losses(init);
      }
    }
  }

  /** A frame of samples `p` was decoded after `before`, and `after` holds no further one. */
  ghost predicate LastGood<S(!new)>(dec: Decoder<S>, s: State<S>, before: seq<Act>, input: seq<u8>, after: seq<Act>,
                                    p: seq<i16>)
  {
    && Decodes(dec, Ran(dec, s, before).ctx, input, p)
    && Quiet(dec, Ran(dec, s, before + [Decode(input)]), after)
  }

  /** The state right after decoding a frame with samples. */
  lemma DecodedState<S(!new)>(dec: Decoder<S>, s: State<S>, before: seq<Act>, input: seq<u8>, p: seq<i16>)
    requires Decodes(dec, Ran(dec, s, before).ctx, input, p)
    ensures Ran(dec, s, before + [Decode(input)])
         == State(dec.decode(Ran(dec, s, before).ctx, input).ctx, p, 0)
  {
    assert (before + [Decode(input)])[..|before|] == before;
  }

  /**
   Whatever happened before a frame p was decoded, the k-th loss of n samples since then is concealed by
   floor(p / 2^(k(k+1)/2)) for k up to eight, and by silence from the ninth on up to the wrap of the counter.
   */
  lemma FadeSinceDecode<S(!new)>(dec: Decoder<S>, s: State<S>, before: seq<Act>, input: seq<u8>, after: seq<Act>,
                                 p: seq<i16>, n: nat, k: nat)
    requires LastGood(dec, s, before, input, after, p)
    requires 1 <= k < 0x1_0000_0000 && Losses(after) == seq(k - 1, _ => n)
    ensures var out := Concealment(Ran(dec, s, before + [Decode(input)] + after), n);
            && |out| == Min(n, |p|)
            && forall i | 0 <= i < |out| :: out[i] == if k <= 8 then p[i] / Pow2(Triangle(k)) else 0
  {
    var t := Ran(dec, s, before + [Decode(input)]);
    DecodedState(dec, s, before, input, p);
    RanAppend(dec, s, before + [Decode(input)], after);
    OnlyLossesCount(dec, t, after);
    ConcealElsewhere(Ran(dec, t, after), t.ctx, n);
    FadeOf(t, n, k);
  }

  lemma FadeOf<S>(t: State<S>, n: nat, k: nat)
    requires t.lastPcm != [] && t.concealed == 0 && 1 <= k < 0x1_0000_0000
    ensures var out := Concealment(ConcealRun(t, seq(k - 1, _ => n)), n);
            && |out| == Min(n, |t.lastPcm|)
            && forall i | 0 <= i < |out| :: out[i] == if k <= 8 then t.lastPcm[i] / Pow2(Triangle(k)) else 0
  {
    if k <= PLC_MAX {
      PlcClosedForm(t, n, k);
    } else {
      var lengths: seq<nat> := seq(k, _ => n);
      assert lengths[..k - 1] == seq(k - 1, _ => n);
      SilentFromNine(t, lengths);
    }
  }

  /** After a frame with samples, nothing before it matters any more, except for the decoder's own context. */
  lemma PastForgotten<S(!new)>(dec: Decoder<S>, s: State<S>, t: State<S>, a: seq<Act>, b: seq<Act>, input: seq<u8>,
                               after: seq<Act>, p: seq<i16>)
    requires Ran(dec, s, a).ctx == Ran(dec, t, b).ctx && Decodes(dec, Ran(dec, s, a).ctx, input, p)
    ensures Ran(dec, s, a + [Decode(input)] + after) == Ran(dec, t, b + [Decode(input)] + after)
  {
    DecodedState(dec, s, a, input, p);
    DecodedState(dec, t, b, input, p);
    RanAppend(dec, s, a + [Decode(input)], after);
    RanAppend(dec, t, b + [Decode(input)], after);
  }

  /** Until a frame with samples has been decoded, by a new codec or since a reset, every loss gives n zeros. */
  lemma SilenceUntilDecode<S(!new)>(dec: Decoder<S>, s: State<S>, before: seq<Act>, after: seq<Act>, n: nat)
    requires Quiet(dec, Ran(dec, s, before + [Restart]), after)
    ensures var out := Concealment(Ran(dec, s, before + [Restart] + after), n);
            |out| == n && forall i | 0 <= i < n :: out[i] == 0
  {
    var t := Ran(dec, s, before + [Restart]);
    assert (before + [Restart])[..|before|] == before;
    RanAppend(dec, s, before + [Restart], after);
    OnlyLossesCount(dec, t, after);
    NothingToConceal(t, Losses(after));
  }

  lemma {:induction false} NothingToConceal<S>(s: State<S>, lengths: seq<nat>)
    requires s.lastPcm == []
    ensures ConcealRun(s, lengths) == s
  {
    if lengths != [] {
      NothingToConceal(s, lengths[..|lengths| - 1]);
    }
  }
}
