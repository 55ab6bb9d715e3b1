/** Interleaved channels: no overrun, concealment or underrun ever shifts one channel into another. */
module Channels {
  import opened Words
  import Codec
  import Reader
  import opened Spsc

  predicate Multiple(n: int, c: nat) {
    c > 0 && n % c == 0
  }

  lemma MultipleSum(a: int, b: int, c: nat)
    requires Multiple(a, c)
    ensures (a + b) % c == b % c
  {
    assert a + b == c * (a / c + b / c) + b % c;
    DivUnique(a + b, c, a / c + b / c, b % c);
  }

  lemma MultipleDifference(a: int, b: int, c: nat)
    requires Multiple(a, c) && Multiple(b, c)
    ensures Multiple(a - b, c)
  {
    assert a - b == c * (a / c - b / c) + 0;
    DivUnique(a - b, c, a / c - b / c, 0);
  }

  // ---------------------------------------------------------------- the frames the reader offers

  /** The decoder only makes whole groups of `c` samples. */
  ghost predicate WholeGroups<S(!new)>(dec: Codec.Decoder<S>, c: nat) {
    && Multiple(dec.SamplesPerFrame(), c)
    && forall s, input | dec.decode(s, input).Frame? :: Multiple(|dec.decode(s, input).pcm|, c)
  }

  lemma ConcealmentGroups<S>(s: Codec.State<S>, n: nat, c: nat)
    requires Multiple(n, c) && Multiple(|s.lastPcm|, c)
    ensures Multiple(|Codec.Concealment(s, n)|, c) && |Codec.Conceal(s, n).lastPcm| == |s.lastPcm|
  {
  }

  /** Every frame offered to the ring, decoded or made up, is a non-empty whole number of groups. */
  lemma {:induction false} OfferedGroups<S(!new)>(dec: Codec.Decoder<S>, s: Codec.State<S>, bytes: seq<u8>, c: nat)
    requires dec.Contract() && WholeGroups(dec, c) && Multiple(|s.lastPcm|, c)
    ensures forall f | f in Reader.Offered(Reader.Greedy(dec, s, bytes).produced) :: f != [] && Multiple(|f|, c)
    decreases |bytes|
  {
    if |bytes| >= dec.frameLength {
      var m := Reader.Turn(dec, s, bytes);
      match dec.decode(s.ctx, bytes) {
        case Frame(ctx, n, pcm) =>
        case Corrupt(ctx) => ConcealmentGroups(s.(ctx := ctx), dec.SamplesPerFrame(), c);
      }
      OfferedGroups(dec, m.state, bytes[m.taken..], c);
      var p := Reader.Greedy(dec, m.state, bytes[m.taken..]);
      assert ([m.frame] + p.produced)[1..] == p.produced;
    }
  }

  // ---------------------------------------------------------------- the ring

  /** Every buffer the consumer asks for is a whole number of groups. */
  predicate AlignedStep(step: Step, c: nat) {
    match step
    case Callback(needed) => Multiple(needed, c)
    case Fetch(count) => Multiple(count, c)
    case _ => true
  }

  /** Every chunk handed to the ring is a whole number of groups. */
  ghost predicate AlignedOffers(offers: seq<Offer>, c: nat) {
    forall o | o in offers :: Multiple(|o.frame|, c)
  }

  predicate AlignedProducer(p: Producer, c: nat) {
    p.Writing? ==> Multiple(|p.frame|, c)
  }

  predicate AlignedConsumer(k: Consumer, c: nat) {
    k.Reading? ==> Multiple(k.count, c)
  }

  ghost predicate AlignedOutputs(outputs: seq<Output>, c: nat) {
    forall o | o in outputs :: Multiple(o.start, c) && Multiple(o.filled, c)
  }

  ghost predicate Aligned(s: State, c: nat) {
    && Multiple(s.head, c) && Multiple(s.tail, c)
    && AlignedProducer(s.producer, c) && AlignedConsumer(s.consumer, c) && AlignedOutputs(s.outputs, c)
  }

  lemma PushAligned(s: State, frame: seq<i16>, c: nat)
    requires Capacity(s) > 0 && Aligned(s, c) && AlignedOffers(Next(s, Push(frame)).offers, c)
    ensures Aligned(Next(s, Push(frame)), c)
  {
    var t := Next(s, Push(frame));
    if t != s {
      assert t.offers[|t.offers| - 1].frame == frame;
    }
  }

  lemma CommitWriteAligned(s: State, c: nat)
    requires Capacity(s) > 0 && Aligned(s, c)
    ensures Aligned(Next(s, CommitWrite), c)
  {
    if s.producer.Writing? {
      MultipleSum(s.tail, |s.producer.frame|, c);
    }
  }

  /** A callback asks for whole groups, or gets all there is. */
  lemma OpenAligned(s: State, step: Step, c: nat)
    requires Capacity(s) > 0 && Aligned(s, c) && AlignedStep(step, c) && (step.Callback? || step.Fetch?)
    ensures Aligned(Next(s, step), c)
  {
    MultipleDifference(s.tail, s.head, c);
    if c > 0 {
      DivUnique(0, c, 0, 0);
    }
  }

  lemma CommitReadAligned(s: State, o: Output, c: nat)
    requires Aligned(s, c) && s.consumer.Reading? && o.start == s.head && o.filled == s.consumer.count
    ensures Aligned(PlayedOn(s, o), c)
  {
    MultipleSum(s.head, o.filled, c);
  }

  lemma NextAligned(s: State, step: Step, c: nat)
    requires Inv(s) && Aligned(s, c) && AlignedStep(step, c) && AlignedOffers(Next(s, step).offers, c)
    ensures Aligned(Next(s, step), c)
  {
    match step
    case Push(frame) => PushAligned(s, frame, c);
    case CommitWrite => CommitWriteAligned(s, c);
    case Callback(_) => OpenAligned(s, step, c);
    case Fetch(_) => OpenAligned(s, step, c);
    case CommitRead =>
      if s.consumer.Reading? && |s.consumer.got| >= s.consumer.count {
        var o := Next(s, step).outputs[|s.outputs|];
        CommitReadIs(s, o);
        CommitReadAligned(s, o, c);
      }
    case WriteSlot =>
    case ReadSlot =>
  }

  lemma {:induction false} RunAligned(capacity: nat, steps: seq<Step>, c: nat)
    requires capacity > 0 && c > 0
    requires forall step | step in steps :: AlignedStep(step, c)
    requires AlignedOffers(Run(Init(capacity), steps).offers, c)
    ensures Aligned(Run(Init(capacity), steps), c)
  {
    if steps != [] {
      var init := steps[..|steps| - 1];
      assert Run(Init(capacity), init).offers <= Run(Init(capacity), steps).offers;
      RunAligned(capacity, init, c);
      RunKeepsInv(capacity, init);
      NextAligned(Run(Init(capacity), init), steps[|steps| - 1], c);
    }
  }

  /** Position `p` of the stream is sample `i` of chunk `k`. */
  predicate At(offers: seq<Offer>, p: nat, k: nat, i: nat) {
    && k < |offers| && offers[k].Taken? && i < |offers[k].frame|
    && p == |Stream(offers[..k])| + i
  }

  lemma LastChunk(offers: seq<Offer>)
    requires offers != []
    ensures var init, last := offers[..|offers| - 1], offers[|offers| - 1];
            Stream(offers) == Stream(init) + if last.Taken? then last.frame else []
  {
  }

  /** Where in its own chunk a sample of the stream came from. */
  lemma {:induction false} Locate(offers: seq<Offer>, p: nat) returns (k: nat, i: nat)
    requires p < |Stream(offers)|
    ensures At(offers, p, k, i) && offers[k].frame[i] == Stream(offers)[p]
  {
    var n := |offers| - 1;
    LastChunk(offers);
    if p < |Stream(offers[..n])| {
      k, i := Locate(offers[..n], p);
      assert offers[..n][..k] == offers[..k];
    } else {
      k, i := n, p - |Stream(offers[..n])|;
    }
  }

  lemma {:induction false} StreamGroups(offers: seq<Offer>, c: nat)
    requires c > 0 && AlignedOffers(offers, c)
    ensures Multiple(|Stream(offers)|, c)
  {
    if offers != [] {
      var init, last := offers[..|offers| - 1], offers[|offers| - 1];
      LastChunk(offers);
      assert last in offers;
      StreamGroups(init, c);
      MultipleSum(|Stream(init)|, if last.Taken? then |last.frame| else 0, c);
    }
  }

  /**
   Sample `j` of a buffer is the one at stream position `start + j`: a sample of the chunk that holds
   this position, at an index of the same channel.
   */
  ghost predicate SameChannel(o: Output, j: nat, offers: seq<Offer>, c: nat)
    requires j < |o.data| && c > 0
  {
    exists k: nat, i: nat ::
      At(offers, o.start + j, k, i) && offers[k].frame[i] == o.data[j] && i % c == j % c
  }

  /** In every run the level stays a whole number of groups and no sample changes channel. */
  lemma ChannelsKept(capacity: nat, steps: seq<Step>, c: nat)
    requires capacity > 0 && c > 0
    requires forall step | step in steps :: AlignedStep(step, c)
    requires AlignedOffers(Run(Init(capacity), steps).offers, c)
    ensures var s := Run(Init(capacity), steps);
            && Multiple(Level(s), c)
            && forall o, j: nat | o in s.outputs && j < o.filled <= |o.data| :: SameChannel(o, j, s.offers, c)
  {
    var s := Run(Init(capacity), steps);
    RunKeepsInv(capacity, steps);
    RunAligned(capacity, steps, c);
    AlignedKeeps(s, c);
  }

  lemma AlignedKeeps(s: State, c: nat)
    requires c > 0 && Inv(s) && Aligned(s, c) && AlignedOffers(s.offers, c)
    ensures Multiple(Level(s), c)
    ensures forall o, j: nat | o in s.outputs && j < o.filled <= |o.data| :: SameChannel(o, j, s.offers, c)
  {
    LevelAligned(s, c);
    OutputsKept(s.outputs, s.offers, c);
  }

  lemma OutputsKept(outputs: seq<Output>, offers: seq<Offer>, c: nat)
    requires c > 0 && AlignedOffers(offers, c)
    requires forall o | o in outputs :: GoodOutput(o, Stream(offers)) && Multiple(o.start, c)
    ensures forall o, j: nat | o in outputs && j < o.filled <= |o.data| :: SameChannel(o, j, offers, c)
  {
    forall o, j: nat | o in outputs && j < o.filled <= |o.data| ensures SameChannel(o, j, offers, c) {
      OutputKept(o, j, offers, c);
    }
  }

  lemma LevelAligned(s: State, c: nat)
    requires Inv(s) && Aligned(s, c)
    ensures Multiple(Level(s), c)
  {
    MultipleDifference(s.tail, s.head, c);
  }

  lemma OutputKept(o: Output, j: nat, offers: seq<Offer>, c: nat)
    requires AlignedOffers(offers, c) && Multiple(o.start, c)
    requires GoodOutput(o, Stream(offers)) && j < o.filled
    ensures SameChannel(o, j, offers, c)
  {
    var p := o.start + j;
    assert o.data[..o.filled][j] == Stream(offers)[p];
    var k, i := Locate(offers, p);
    StreamGroups(offers[..k], c);
    MultipleSum(o.start, j, c);
    MultipleSum(|Stream(offers[..k])|, i, c);
  }

  // ---------------------------------------------------------------- from the Bluetooth bytes to the speaker

  lemma {:induction false} HandedContains(offers: seq<Offer>)
    ensures forall o | o in offers :: o.frame in Handed(offers)
  {
    if offers != [] {
      HandedContains(offers[..|offers| - 1]);
    }
  }

  /**
   Whatever bytes arrive, however the reads cut them and however the threads interleave: the chunks handed
   over are the first frames of one greedy decode of all bytes, what is played is the beginning of those
   that fitted, and the audio callback keeps the channels apart, provided the codec, the engine and the
   callback work in whole groups of `c` samples.
   */
  lemma BytesToSpeaker<S(!new)>(dec: Codec.Decoder<S>, ctx: S, chunks: seq<seq<u8>>,
                                capacity: nat, steps: seq<Step>, c: nat)
    requires dec.Contract() && WholeGroups(dec, c) && capacity > 0
    requires forall step | step in steps :: AlignedStep(step, c)
    requires Handed(Run(Init(capacity), steps).offers)
          <= Reader.Offered(Reader.FeedAll(dec, Reader.Start(Codec.State(ctx, [], 0)), chunks).produced)
    ensures var s := Run(Init(capacity), steps);
            && Handed(s.offers)
               <= Reader.Offered(Reader.Greedy(dec, Codec.State(ctx, [], 0), Reader.Concat(chunks)).produced)
            && Played(s.outputs) <= Stream(s.offers)
            && |Stream(s.offers)| - |Played(s.outputs)| == Level(s) + |Pending(s)|
            && s.overruns == Drops(s.offers)
    ensures var s := Run(Init(capacity), steps);
            && Multiple(Level(s), c)
            && forall o, j: nat | o in s.outputs && j < o.filled <= |o.data| :: SameChannel(o, j, s.offers, c)
  {
    Fifo(capacity, steps);
    var s0, offers := Codec.State(ctx, [], 0), Run(Init(capacity), steps).offers;
    Reader.ChunkingIndependence(dec, s0, chunks);
    OfferedGroups(dec, s0, Reader.Concat(chunks), c);
    HandedContains(offers);
    forall o | o in offers ensures Multiple(|o.frame|, c) {
      assert o.frame in Reader.Offered(Reader.Greedy(dec, s0, Reader.Concat(chunks)).produced);
    }
    ChannelsKept(capacity, steps, c);
  }
}
