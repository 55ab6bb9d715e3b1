/** `bt_reader_loop`: cutting a byte stream into frames, whatever the reads it arrives in. */
module Reader {
  import opened Words
  import opened Codec

  /** A PCM frame the reader produced, decoded from the stream or made up for a skipped byte. */
  datatype Produced = Good(pcm: seq<i16>) | Concealed(pcm: seq<i16>)

  /** Where a greedy decode stands: what it made, how many bytes good frames took, what is left. */
  datatype Parse<S> = Parse(state: State<S>, produced: seq<Produced>, consumed: nat, rest: seq<u8>)

  /** One turn of the decode loop: the frame it makes and how many bytes it moves on. */
  datatype Move<S> = Move(state: State<S>, frame: Produced, taken: nat)

  function Turn<S(!new)>(dec: Decoder<S>, s: State<S>, bytes: seq<u8>): (m: Move<S>)
    requires dec.Contract() && |bytes| >= dec.frameLength
    ensures 1 <= m.taken <= dec.frameLength
  {
    match dec.decode(s.ctx, bytes)
    case Frame(ctx, n, pcm) =>
      Move(Remember(s, ctx, pcm), Good(pcm), n)
    case Corrupt(ctx) =>
      var t := s.(ctx := ctx);
      Move(Conceal(t, dec.SamplesPerFrame()), Concealed(Concealment(t, dec.SamplesPerFrame())), 1)
  }

  /** One left-to-right decode of a whole byte string. */
  function Greedy<S(!new)>(dec: Decoder<S>, s: State<S>, bytes: seq<u8>): Parse<S>
    requires dec.Contract()
    decreases |bytes|
  {
    if |bytes| < dec.frameLength then
      Parse(s, [], 0, bytes)
    else
      var m := Turn(dec, s, bytes);
      Prepend(m, Greedy(dec, m.state, bytes[m.taken..]))
  }

  function Prepend<S>(m: Move<S>, p: Parse<S>): Parse<S> {
    p.(produced := [m.frame] + p.produced, consumed := (if m.frame.Good? then m.taken else 0) + p.consumed)
  }

  /** The frames handed to the ring buffer: the ones with samples in them. */
  function Offered(produced: seq<Produced>): seq<seq<i16>> {
    if produced == [] then []
    else if produced[0].pcm == [] then Offered(produced[1..])
    else [produced[0].pcm] + Offered(produced[1..])
  }

  function Fillers(produced: seq<Produced>): nat {
    if produced == [] then 0
    else (if produced[0].Concealed? then 1 else 0) + Fillers(produced[1..])
  }

  // ---------------------------------------------------------------- the loop

  /** What one turn of the outer loop meets: the stop flag, or an outcome of `read`. */
  datatype Poll = Stop | Eof | Retry | Failure | Data(bytes: seq<u8>)

  /** The bytes read before the loop ends. */
  function Delivered(script: seq<Poll>): seq<u8> {
    if script == [] then []
    else match script[0]
      case Data(bytes) => bytes + Delivered(script[1..])
      case Retry => Delivered(script[1..])
      case _ => []
  }

  /** What is still to come, seen from a loop state, completes what has been done to the whole. */
  ghost predicate Completes<S>(whole: Parse<S>, offered: seq<seq<i16>>, todo: Parse<S>) {
    && Offered(whole.produced) == offered + Offered(todo.produced)
    && whole.state == todo.state
    && whole.rest == todo.rest
  }

  /** Nothing complete is left: the rest of the whole is what follows `offset`. */
  ghost predicate Completed<S>(whole: Parse<S>, offered: seq<seq<i16>>, s: State<S>, source: seq<u8>, offset: nat) {
    && offered == Offered(whole.produced)
    && s == whole.state
    && offset <= |source|
    && source[offset..] == whole.rest
  }

  /** One turn of the decode loop: a decoded frame, or a concealment and one byte skipped. */
  method NextFrame<S(!new)>(codec: SbcCodec<S>, input: seq<u8>, pcmBuf: array<i16>) returns (taken: nat, pcm: seq<i16>)
    requires codec.dec.Contract() && pcmBuf.Length == codec.dec.MaxPcm()
    requires |input| >= codec.dec.frameLength
    modifies codec, pcmBuf
    ensures var m := Turn(codec.dec, old(codec.View()), input);
            taken == m.taken && pcm == m.frame.pcm && codec.View() == m.state
  {
    var ok, consumed, written := codec.DecodeFrame(input, pcmBuf);
    if ok {
      taken := consumed;
    } else {
      written := codec.Plc(pcmBuf, codec.dec.SamplesPerFrame());
      taken := 1;
    }
    pcm := pcmBuf[..written];
  }

  /** Decodes what stands at `offset` of `source`, and offers it if it is not empty. */
  method DecodeNext<S(!new)>(codec: SbcCodec<S>, source: seq<u8>, offset: nat, offered: seq<seq<i16>>,
                             pcmBuf: array<i16>, ghost whole: Parse<S>)
    returns (next: nat, more: seq<seq<i16>>)
    requires codec.dec.Contract() && pcmBuf.Length == codec.dec.MaxPcm()
    requires offset + codec.dec.frameLength <= |source|
    requires Completes(whole, offered, Greedy(codec.dec, codec.View(), source[offset..]))
    modifies codec, pcmBuf
    ensures offset < next <= |source|
    ensures Completes(whole, more, Greedy(codec.dec, codec.View(), source[next..]))
  {
    ghost var bytes := source[offset..];
    ghost var todo := DecodeStep(codec.dec, codec.View(), whole, offered, bytes);
    var taken, pcm := NextFrame(codec, source[offset..], pcmBuf);
    next := offset + taken;
    assert bytes[taken..] == source[next..];
    more := if |pcm| != 0 then offered + [pcm] else offered;
  }

  /** Decodes every complete frame of `source` and offers the non-empty ones to the ring buffer. */
  method DecodeBuffered<S(!new)>(codec: SbcCodec<S>, source: seq<u8>, pcmBuf: array<i16>)
    returns (offered: seq<seq<i16>>, offset: nat)
    requires codec.dec.Contract() && pcmBuf.Length == codec.dec.MaxPcm()
    modifies codec, pcmBuf
    ensures Completed(Greedy(codec.dec, old(codec.View()), source), offered, codec.View(), source, offset)
  {
    offered, offset := [], 0;
    ghost var whole := Greedy(codec.dec, codec.View(), source);
    assert source[0..] == source;
    while offset + codec.dec.frameLength <= |source|
      invariant 0 <= offset <= |source|
      invariant Completes(whole, offered, Greedy(codec.dec, codec.View(), source[offset..]))
      decreases |source| - offset
    {
      offset, offered := DecodeNext(codec, source, offset, offered, pcmBuf, whole);
    }
  }

  /** One read: decode the leftover followed by the new bytes, and keep what remains. */
  method ReadOnce<S(!new)>(codec: SbcCodec<S>, pending: seq<u8>, bytes: seq<u8>, pcmBuf: array<i16>)
    returns (offered: seq<seq<i16>>, leftover: seq<u8>)
    requires codec.dec.Contract() && pcmBuf.Length == codec.dec.MaxPcm()
    modifies codec, pcmBuf
    ensures var p := Greedy(codec.dec, old(codec.View()), pending + bytes);
            offered == Offered(p.produced) && leftover == p.rest && codec.View() == p.state
  {
    leftover := pending;
    if leftover != [] {
      leftover := leftover + bytes;
    }
    var source := if leftover == [] then bytes else leftover;
    assert source == pending + bytes;
    var offset;
    offered, offset := DecodeBuffered(codec, source, pcmBuf);
    if leftover == [] {
      leftover := source[offset..];
    } else {
      leftover := leftover[offset..];
    }
  }

  /**
   The frames offered, the codec state and the final leftover depend on the bytes read alone,
   not on how the reads cut them: they are those of one greedy decode.
   */
  method BtReaderLoop<S(!new)>(codec: SbcCodec<S>, script: seq<Poll>)
    returns (offered: seq<seq<i16>>, leftover: seq<u8>)
    requires codec.dec.Contract()
    requires forall i | 0 <= i < |script| && script[i].Data? :: 0 < |script[i].bytes| <= 4096
    modifies codec
    ensures var p := Greedy(codec.dec, old(codec.View()), Delivered(script));
            offered == Offered(p.produced) && leftover == p.rest && codec.View() == p.state
  {
    var pcmBuf := new i16[codec.dec.MaxPcm()](_ => 0);
    offered, leftover := [], [];
    ghost var before, s0, dec := [], codec.View(), codec.dec;
    ghost var p := Start(s0);
    var turn := 0;
    while turn < |script|
      invariant 0 <= turn <= |script|
      invariant Delivered(script) == Concat(before) + Delivered(script[turn..])
      invariant p == FeedAll(dec, Start(s0), before)
      invariant offered == Offered(p.produced) && leftover == p.rest && codec.View() == p.state
    {
      assert script[turn..][1..] == script[turn + 1..];
      match script[turn] {
        case Stop => break;
        case Eof => break;
        case Failure => break;
        case Retry =>
          turn := turn + 1;
        case Data(bytes) =>
          var frames;
          OfferedFeed(dec, p, bytes);
          ConcatSnoc(before, bytes, Delivered(script[turn + 1..]));
          FeedAllSnoc(dec, s0, before, bytes);
          p := Feed(dec, p, bytes);
          frames, leftover := ReadOnce(codec, leftover, bytes, pcmBuf);
          offered := offered + frames;
          before := before + [bytes];
          turn := turn + 1;
      }
    }
    assert Delivered(script[turn..]) == [];
    assert Delivered(script) == Concat(before);
    ChunkingIndependence(dec, s0, before);
  }

  /** Bytes beyond the first frame length do not change what the decoder answers. */
  lemma SamePrefix<S(!new)>(dec: Decoder<S>, s: State<S>, bytes: seq<u8>, more: seq<u8>)
    requires dec.Contract() && |bytes| >= dec.frameLength
    ensures Turn(dec, s, bytes + more) == Turn(dec, s, bytes)
  {
    assert (bytes + more)[..dec.frameLength] == bytes[..dec.frameLength];
    assert dec.decode(s.ctx, bytes + more) == dec.decode(s.ctx, bytes);
  }

  function Offer(offered: seq<seq<i16>>, pcm: seq<i16>): seq<seq<i16>> {
    if pcm == [] then offered else offered + [pcm]
  }

  lemma OfferedCons(f: Produced, fs: seq<Produced>, offered: seq<seq<i16>>)
    ensures offered + Offered([f] + fs) == Offer(offered, f.pcm) + Offered(fs)
  {
    assert ([f] + fs)[1..] == fs;
  }

  lemma {:induction false} OfferedAppend(fs: seq<Produced>, gs: seq<Produced>)
    ensures Offered(fs + gs) == Offered(fs) + Offered(gs)
  {
    if fs == [] {
      assert [] + gs == gs;
    } else {
      var tail := fs[1..];
      OfferedAppend(tail, gs);
      assert (fs + gs)[1..] == tail + gs && (fs + gs)[0] == fs[0];
    }
  }

  function SamplesOf(produced: seq<Produced>): seq<i16> {
    if produced == [] then [] else produced[0].pcm + SamplesOf(produced[1..])
  }

  function Joined(frames: seq<seq<i16>>): seq<i16> {
    if frames == [] then [] else frames[0] + Joined(frames[1..])
  }

  /** What is handed to the ring is every sample produced, in order, and never an empty frame. */
  lemma {:induction false} OfferedSamples(produced: seq<Produced>)
    ensures Joined(Offered(produced)) == SamplesOf(produced)
    ensures [] !in Offered(produced)
  {
    if produced != [] {
      var pcm, tail := produced[0].pcm, produced[1..];
      OfferedSamples(tail);
      if pcm == [] {
        assert [] + SamplesOf(tail) == SamplesOf(tail);
      } else {
        JoinedCons(pcm, Offered(tail));
      }
    }
  }

  lemma JoinedCons(frame: seq<i16>, frames: seq<seq<i16>>)
    ensures Joined([frame] + frames) == frame + Joined(frames)
  {
    assert ([frame] + frames)[1..] == frames;
  }

  predicate Ends(p: Poll) {
    p == Stop || p == Eof || p == Failure
  }

  /** Reads are delivered in order until the first end; interrupted ones are tried again. */
  lemma {:induction false} DeliveredUntilEnd(before: seq<Poll>, end: Poll, after: seq<Poll>)
    requires Ends(end) && forall p | p in before :: !Ends(p)
    ensures Delivered(before + [end] + after) == Delivered(before)
    ensures Delivered(before + after) == Delivered(before) + Delivered(after)
    decreases |before|
  {
    if before == [] {
      assert before + after == after && ([end] + after)[0] == end;
      assert before + [end] + after == [end] + after && [] + Delivered(after) == Delivered(after);
    } else {
      var tail := before[1..];
      assert before[0] in before;
      DeliveredUntilEnd(tail, end, after);
      assert (before + [end] + after)[1..] == tail + [end] + after && (before + after)[1..] == tail + after;
      if before[0].Data? {
        var bytes := before[0].bytes;
        assert bytes + (Delivered(tail) + Delivered(after)) == (bytes + Delivered(tail)) + Delivered(after);
      }
    }
  }

  /** One decode on the bytes at hand keeps what remains to be done in line with the whole. */
  lemma DecodeStep<S(!new)>(dec: Decoder<S>, s: State<S>, whole: Parse<S>, offered: seq<seq<i16>>, bytes: seq<u8>)
    returns (todo: Parse<S>)
    requires dec.Contract() && |bytes| >= dec.frameLength
    requires Completes(whole, offered, Greedy(dec, s, bytes))
    ensures var m := Turn(dec, s, bytes);
            todo == Greedy(dec, m.state, bytes[m.taken..]) && Completes(whole, Offer(offered, m.frame.pcm), todo)
  {
    var m := Turn(dec, s, bytes);
    todo := Greedy(dec, m.state, bytes[m.taken..]);
    OfferedCons(m.frame, Greedy(dec, m.state, bytes[m.taken..]).produced, offered);
  }

  // ---------------------------------------------------------------- chunking, as folds

  /** The reader between two reads. */
  function Start<S>(s: State<S>): Parse<S> {
    Parse(s, [], 0, [])
  }

  /** What was made before, and then by a further decode. */
  function Join<S>(p: Parse<S>, q: Parse<S>): Parse<S> {
    Parse(q.state, p.produced + q.produced, p.consumed + q.consumed, q.rest)
  }

  /** One read: decode the leftover followed by the new bytes. */
  function Feed<S(!new)>(dec: Decoder<S>, p: Parse<S>, chunk: seq<u8>): Parse<S>
    requires dec.Contract()
  {
    Join(p, Greedy(dec, p.state, p.rest + chunk))
  }

  function FeedAll<S(!new)>(dec: Decoder<S>, p: Parse<S>, chunks: seq<seq<u8>>): Parse<S>
    requires dec.Contract()
  {
    if chunks == [] then p else Feed(dec, FeedAll(dec, p, chunks[..|chunks| - 1]), chunks[|chunks| - 1])
  }

  function Concat(chunks: seq<seq<u8>>): seq<u8> {
    if chunks == [] then [] else Concat(chunks[..|chunks| - 1]) + chunks[|chunks| - 1]
  }

  /** Decoding a + b is decoding a, then what it left together with b. */
  lemma {:induction false} GreedyAppend<S(!new)>(dec: Decoder<S>, s: State<S>, a: seq<u8>, b: seq<u8>)
    requires dec.Contract()
    ensures Greedy(dec, s, a + b) == Feed(dec, Greedy(dec, s, a), b)
    decreases |a|
  {
    if |a| >= dec.frameLength {
      var m := Turn(dec, s, a);
      SamePrefix(dec, s, a, b);
      assert (a + b)[m.taken..] == a[m.taken..] + b;
      GreedyAppend(dec, m.state, a[m.taken..], b);
      FeedPrepend(dec, m, Greedy(dec, m.state, a[m.taken..]), b);
    } else {
      assert [] + Greedy(dec, s, a + b).produced == Greedy(dec, s, a + b).produced;
    }
  }

  lemma FeedPrepend<S(!new)>(dec: Decoder<S>, m: Move<S>, p: Parse<S>, b: seq<u8>)
    requires dec.Contract()
    ensures Feed(dec, Prepend(m, p), b) == Prepend(m, Feed(dec, p, b))
  {
    JoinPrepend(m, p, Greedy(dec, p.state, p.rest + b));
  }

  lemma JoinPrepend<S>(m: Move<S>, p: Parse<S>, q: Parse<S>)
    ensures Join(Prepend(m, p), q) == Prepend(m, Join(p, q))
  {
    assert [m.frame] + p.produced + q.produced == [m.frame] + (p.produced + q.produced);
  }

  /** However a stream is cut into reads, the outcome is that of one greedy decode of all of it. */
  lemma {:induction false} ChunkingIndependence<S(!new)>(dec: Decoder<S>, s: State<S>, chunks: seq<seq<u8>>)
    requires dec.Contract()
    ensures FeedAll(dec, Start(s), chunks) == Greedy(dec, s, Concat(chunks))
  {
    if chunks != [] {
      var init, last := chunks[..|chunks| - 1], chunks[|chunks| - 1];
      ChunkingIndependence(dec, s, init);
      GreedyAppend(dec, s, Concat(init), last);
    }
  }

  lemma FeedAllSnoc<S(!new)>(dec: Decoder<S>, s: State<S>, chunks: seq<seq<u8>>, chunk: seq<u8>)
    requires dec.Contract()
    ensures FeedAll(dec, Start(s), chunks + [chunk]) == Feed(dec, FeedAll(dec, Start(s), chunks), chunk)
  {
    assert (chunks + [chunk])[..|chunks|] == chunks;
  }

  lemma ConcatSnoc(chunks: seq<seq<u8>>, chunk: seq<u8>, tail: seq<u8>)
    ensures Concat(chunks + [chunk]) + tail == Concat(chunks) + (chunk + tail)
  {
    assert (chunks + [chunk])[..|chunks|] == chunks;
  }

  lemma OfferedFeed<S(!new)>(dec: Decoder<S>, p: Parse<S>, chunk: seq<u8>)
    requires dec.Contract()
    ensures Offered(Feed(dec, p, chunk).produced)
         == Offered(p.produced) + Offered(Greedy(dec, p.state, p.rest + chunk).produced)
  {
    OfferedAppend(p.produced, Greedy(dec, p.state, p.rest + chunk).produced);
  }

  // ---------------------------------------------------------------- where the frames lie

  /** A stretch of a stream that decodes to one frame, and the decoder's context after it. */
  datatype Unit<S> = Unit(bytes: seq<u8>, ctx: S, pcm: seq<i16>)

  function UnitBytes<S>(units: seq<Unit<S>>): seq<u8> {
    if units == [] then [] else units[0].bytes + UnitBytes(units[1..])
  }

  function Samples<S>(units: seq<Unit<S>>): seq<Produced> {
    if units == [] then [] else [Good(units[0].pcm)] + Samples(units[1..])
  }

  /** The decoder, put at the start of each unit in turn, reports exactly that unit; then less than a frame is left. */
  ghost predicate DecodesTo<S(!new)>(dec: Decoder<S>, ctx: S, units: seq<Unit<S>>, tail: seq<u8>) {
    if units == [] then |tail| < dec.frameLength
    else
      var u, bytes := units[0], UnitBytes(units) + tail;
      && |bytes| >= dec.frameLength
      && dec.decode(ctx, bytes) == Frame(u.ctx, |u.bytes|, u.pcm)
      && DecodesTo(dec, u.ctx, units[1..], tail)
  }

  /** One good frame at the start of the bytes: the decode goes on behind what the decoder consumed. */
  lemma GreedyGood<S(!new)>(dec: Decoder<S>, s: State<S>, bytes: seq<u8>, later: seq<u8>, u: Unit<S>)
    returns (t: State<S>)
    requires dec.Contract() && |bytes| >= dec.frameLength && bytes == u.bytes + later
    requires dec.decode(s.ctx, bytes) == Frame(u.ctx, |u.bytes|, u.pcm)
    ensures var p, q := Greedy(dec, s, bytes), Greedy(dec, t, later);
            && t.ctx == u.ctx
            && p == Parse(q.state, [Good(u.pcm)] + q.produced, |u.bytes| + q.consumed, q.rest)
  {
    var m := Turn(dec, s, bytes);
    t := m.state;
    assert bytes[|u.bytes|..] == later;
  }

  /** What comes back from a stream of units and a tail. */
  predicate CameBack<S(==)>(p: Parse<S>, ctx: S, units: seq<Unit<S>>, tail: seq<u8>) {
    && p.produced == Samples(units)
    && p.consumed == |UnitBytes(units)|
    && p.rest == tail
    && p.state.ctx == if units == [] then ctx else units[|units| - 1].ctx
  }

  lemma CameBackCons<S>(p: Parse<S>, q: Parse<S>, ctx: S, units: seq<Unit<S>>, tail: seq<u8>)
    requires units != [] && CameBack(q, units[0].ctx, units[1..], tail)
    requires p.state == q.state && p.rest == q.rest && p.produced == [Good(units[0].pcm)] + q.produced
    requires p.consumed == |units[0].bytes| + q.consumed
    ensures CameBack(p, ctx, units, tail)
  {
  }

  lemma FirstUnit<S(!new)>(dec: Decoder<S>, ctx: S, units: seq<Unit<S>>, tail: seq<u8>, bytes: seq<u8>)
    returns (later: seq<u8>)
    requires units != [] && DecodesTo(dec, ctx, units, tail) && bytes == UnitBytes(units) + tail
    ensures later == UnitBytes(units[1..]) + tail && bytes == units[0].bytes + later && |bytes| >= dec.frameLength
    ensures dec.decode(ctx, bytes) == Frame(units[0].ctx, |units[0].bytes|, units[0].pcm)
    ensures DecodesTo(dec, units[0].ctx, units[1..], tail)
  {
    later := UnitBytes(units[1..]) + tail;
    assert units[0].bytes + UnitBytes(units[1..]) + tail == units[0].bytes + later;
  }

  /** A stream of frames laid end to end gives back these frames, takes exactly their bytes, and leaves the tail. */
  lemma {:induction false} FramesComeBack<S(!new)>(dec: Decoder<S>, s: State<S>, units: seq<Unit<S>>, tail: seq<u8>,
                                                   bytes: seq<u8>)
    requires dec.Contract() && DecodesTo(dec, s.ctx, units, tail) && bytes == UnitBytes(units) + tail
    ensures CameBack(Greedy(dec, s, bytes), s.ctx, units, tail)
    decreases |units|
  {
    if units == [] {
      assert UnitBytes(units) + tail == tail;
    } else {
      var later := FirstUnit(dec, s.ctx, units, tail, bytes);
      var t := GreedyGood(dec, s, bytes, later, units[0]);
      FramesComeBack(dec, t, units[1..], tail, later);
      CameBackCons(Greedy(dec, s, bytes), Greedy(dec, t, later), s.ctx, units, tail);
    }
  }

  /** Every unit is a frame long and decodes on its own, one context after the other. */
  ghost predicate EachDecodes<S(!new)>(dec: Decoder<S>, ctx: S, units: seq<Unit<S>>) {
    units != [] ==>
      var u := units[0];
      && |u.bytes| >= dec.frameLength
      && dec.decode(ctx, u.bytes) == Frame(u.ctx, |u.bytes|, u.pcm)
      && EachDecodes(dec, u.ctx, units[1..])
  }

  lemma SameDecode<S(!new)>(dec: Decoder<S>, ctx: S, own: seq<u8>, more: seq<u8>)
    requires dec.Contract() && |own| >= dec.frameLength
    ensures dec.decode(ctx, own + more) == dec.decode(ctx, own)
  {
    assert (own + more)[..dec.frameLength] == own[..dec.frameLength];
  }

  lemma DecodesToCons<S(!new)>(dec: Decoder<S>, ctx: S, units: seq<Unit<S>>, tail: seq<u8>, later: seq<u8>)
    requires units != [] && later == UnitBytes(units[1..]) + tail && |units[0].bytes + later| >= dec.frameLength
    requires dec.decode(ctx, units[0].bytes + later) == Frame(units[0].ctx, |units[0].bytes|, units[0].pcm)
    requires DecodesTo(dec, units[0].ctx, units[1..], tail)
    ensures DecodesTo(dec, ctx, units, tail)
  {
    assert UnitBytes(units) + tail == units[0].bytes + later;
  }

  /** Byte strings that each decode on their own to a frame of their length do so end to end as well. */
  lemma {:induction false} EachInPlace<S(!new)>(dec: Decoder<S>, ctx: S, units: seq<Unit<S>>, tail: seq<u8>)
    requires dec.Contract() && EachDecodes(dec, ctx, units) && |tail| < dec.frameLength
    ensures DecodesTo(dec, ctx, units, tail)
    decreases |units|
  {
    if units != [] {
      var u, later := units[0], UnitBytes(units[1..]) + tail;
      EachInPlace(dec, u.ctx, units[1..], tail);
      SameDecode(dec, ctx, u.bytes, later);
      DecodesToCons(dec, ctx, units, tail, later);
    }
  }

  /** Frames that each decode on their own come back from their concatenation, whatever unfinished bytes follow. */
  lemma SeparateFramesComeBack<S(!new)>(dec: Decoder<S>, s: State<S>, units: seq<Unit<S>>, tail: seq<u8>)
    requires dec.Contract() && EachDecodes(dec, s.ctx, units) && |tail| < dec.frameLength
    ensures var p := Greedy(dec, s, UnitBytes(units) + tail);
            p.produced == Samples(units) && p.consumed == |UnitBytes(units)| && p.rest == tail
  {
    EachInPlace(dec, s.ctx, units, tail);
    FramesComeBack(dec, s, units, tail, UnitBytes(units) + tail);
  }

  /**
   `at[i]` is where the i-th frame starts and `states[i]` the codec's state there: the first at zero, each
   further one behind what the decoder said it consumed, or one byte on after an error.
   */
  ghost predicate Walked<S(!new)>(dec: Decoder<S>, bytes: seq<u8>, produced: seq<Produced>, at: seq<nat>,
                                  states: seq<State<S>>)
  {
    && |at| == |states| == |produced| + 1
    && at[0] == 0
    && (forall i | 0 <= i < |produced| ::
          WalkStep(dec, bytes, produced[i], at[i], states[i], at[i + 1], states[i + 1]))
  }

  ghost predicate WalkStep<S(!new)>(dec: Decoder<S>, bytes: seq<u8>, frame: Produced, at: nat, s: State<S>, next: nat,
                                    t: State<S>)
  {
    && at + dec.frameLength <= |bytes|
    && match dec.decode(s.ctx, bytes[at..])
       case Frame(c, n, pcm) =>
         && frame == Good(pcm) && next == at + n
         && t == if pcm == [] then s.(ctx := c) else State(c, pcm, 0)
       case Corrupt(c) =>
         && frame == Concealed(Concealment(s.(ctx := c), dec.SamplesPerFrame())) && next == at + 1
         && t == Conceal(s.(ctx := c), dec.SamplesPerFrame())
  }

  lemma TurnWalks<S(!new)>(dec: Decoder<S>, s: State<S>, bytes: seq<u8>)
    requires dec.Contract() && |bytes| >= dec.frameLength
    ensures var m := Turn(dec, s, bytes);
            WalkStep(dec, bytes, m.frame, 0, s, m.taken, m.state)
  {
    assert bytes[0..] == bytes;
  }

  lemma WalkLater<S(!new)>(dec: Decoder<S>, bytes: seq<u8>, taken: nat, frame: Produced, at: nat, s: State<S>,
                           next: nat, t: State<S>)
    requires taken <= |bytes| && WalkStep(dec, bytes[taken..], frame, at, s, next, t)
    ensures WalkStep(dec, bytes, frame, taken + at, s, taken + next, t)
  {
    assert bytes[taken..][at..] == bytes[taken + at..];
  }

  /** Positions counted from `taken` bytes earlier. */
  function Shifted(places: seq<nat>, taken: nat): (at: seq<nat>)
    ensures |at| == |places| && forall i | 0 <= i < |at| :: at[i] == taken + places[i]
  {
    seq(|places|, i requires 0 <= i < |places| => taken + places[i])
  }

  lemma WalkedLater<S(!new)>(dec: Decoder<S>, bytes: seq<u8>, taken: nat, produced: seq<Produced>, places: seq<nat>,
                             later: seq<State<S>>, at: seq<nat>, i: nat)
    requires taken <= |bytes| && Walked(dec, bytes[taken..], produced, places, later) && at == Shifted(places, taken)
    requires i < |produced|
    ensures WalkStep(dec, bytes, produced[i], at[i], later[i], at[i + 1], later[i + 1])
  {
    WalkLater(dec, bytes, taken, produced[i], places[i], later[i], places[i + 1], later[i + 1]);
  }

  lemma WalkedCons<S(!new)>(dec: Decoder<S>, bytes: seq<u8>, taken: nat, frame: Produced, s: State<S>,
                            produced: seq<Produced>, places: seq<nat>, later: seq<State<S>>)
    returns (at: seq<nat>)
    requires taken <= |bytes| && Walked(dec, bytes[taken..], produced, places, later)
    requires WalkStep(dec, bytes, frame, 0, s, taken, later[0])
    ensures Walked(dec, bytes, [frame] + produced, at, [s] + later)
    ensures at[|produced| + 1] == taken + places[|produced|]
  {
    var moved := Shifted(places, taken);
    at := [0] + moved;
    forall i | 0 <= i < |produced|
      ensures WalkStep(dec, bytes, produced[i], moved[i], later[i], moved[i + 1], later[i + 1])
    {
      WalkedLater(dec, bytes, taken, produced, places, later, moved, i);
    }
    StepsCons(dec, bytes, frame, s, produced, moved, later);
  }

  lemma StepsCons<S(!new)>(dec: Decoder<S>, bytes: seq<u8>, frame: Produced, s: State<S>, produced: seq<Produced>,
                           at: seq<nat>, states: seq<State<S>>)
    requires |at| == |states| == |produced| + 1 && WalkStep(dec, bytes, frame, 0, s, at[0], states[0])
    requires forall i | 0 <= i < |produced| ::
               WalkStep(dec, bytes, produced[i], at[i], states[i], at[i + 1], states[i + 1])
    ensures Walked(dec, bytes, [frame] + produced, [0] + at, [s] + states)
  {
    var all, places, more := [frame] + produced, [0] + at, [s] + states;
    forall i | 0 <= i < |all| ensures WalkStep(dec, bytes, all[i], places[i], more[i], places[i + 1], more[i + 1]) {
      if i > 0 {
        var j := i - 1;
        assert WalkStep(dec, bytes, produced[j], at[j], states[j], at[j + 1], states[j + 1]);
      }
    }
  }

  /** Where each frame of a greedy decode lies, by the decoder's own account; the rest starts at the last position. */
  lemma {:induction false} Positions<S(!new)>(dec: Decoder<S>, s: State<S>, bytes: seq<u8>)
    returns (at: seq<nat>, states: seq<State<S>>)
    requires dec.Contract()
    ensures var p := Greedy(dec, s, bytes);
            && Walked(dec, bytes, p.produced, at, states)
            && states[0] == s && states[|p.produced|] == p.state
            && at[|p.produced|] + |p.rest| == |bytes|
    decreases |bytes|
  {
    if |bytes| < dec.frameLength {
      at, states := [0], [s];
    } else {
      var m := Turn(dec, s, bytes);
      var places, later := Positions(dec, m.state, bytes[m.taken..]);
      TurnWalks(dec, s, bytes);
      var produced := Greedy(dec, m.state, bytes[m.taken..]).produced;
      at := WalkedCons(dec, bytes, m.taken, m.frame, s, produced, places, later);
      states := [s] + later;
    }
  }

  // ---------------------------------------------------------------- how the fillers fade

  predicate AllConcealed(produced: seq<Produced>, from: nat, to: nat) {
    forall j | from <= j < to && j < |produced| :: produced[j].Concealed?
  }

  /** The state `u` is that of `s` after `j` losses of a frame each. */
  predicate After<S(==)>(s: State<S>, u: State<S>, n: nat, j: nat) {
    u.(ctx := s.ctx) == ConcealRun(s, seq(j, _ => n))
  }

  lemma AfterOneMore<S>(s: State<S>, u: State<S>, ctx: S, n: nat, j: nat)
    requires After(s, u, n, j)
    ensures After(s, Conceal(u.(ctx := ctx), n), n, j + 1)
    ensures Concealment(u.(ctx := ctx), n) == Concealment(ConcealRun(s, seq(j, _ => n)), n)
  {
    ConcealElsewhere(u, s.ctx, n);
    ConcealElsewhere(u, ctx, n);
    assert seq(j + 1, _ => n)[..j] == seq(j, _ => n);
  }

  lemma {:induction false} FillersOfRun<S(!new)>(dec: Decoder<S>, bytes: seq<u8>, produced: seq<Produced>,
                                                 at: seq<nat>, states: seq<State<S>>, i: nat, k: nat)
    requires Walked(dec, bytes, produced, at, states)
    requires i + k <= |produced| && AllConcealed(produced, i, i + k)
    ensures var n := dec.SamplesPerFrame();
            && After(states[i], states[i + k], n, k)
            && (k > 0 ==>
                  produced[i + k - 1].pcm == Concealment(ConcealRun(states[i], seq(k - 1, _ => n)), n))
    decreases k
  {
    if k > 0 {
      var j := i + k - 1;
      FillersOfRun(dec, bytes, produced, at, states, i, k - 1);
      assert WalkStep(dec, bytes, produced[j], at[j], states[j], at[j + 1], states[j + 1]);
      assert produced[j].Concealed?;
      AfterOneMore(states[i], states[j], dec.decode(states[j].ctx, bytes[at[j]..]).ctx, dec.SamplesPerFrame(), k - 1);
    }
  }

  /**
   The k-th filler in a row after a decoded frame p is floor(p / 2^(k(k+1)/2)) for k up to eight, and
   silence from the ninth on up to the wrap of the counter.
   */
  lemma FillersFade<S(!new)>(dec: Decoder<S>, s: State<S>, bytes: seq<u8>, i: nat, p: seq<i16>, k: nat,
                             produced: seq<Produced>)
    requires dec.Contract() && produced == Greedy(dec, s, bytes).produced
    requires 1 <= k < 0x1_0000_0000 && i + k < |produced|
    requires p != [] && produced[i] == Good(p) && AllConcealed(produced, i + 1, i + 1 + k)
    ensures var filler := produced[i + k].pcm;
            && |filler| == Min(dec.codesize / 2, |p|)
            && forall j | 0 <= j < |filler| :: filler[j] == if k <= 8 then p[j] / Pow2(Triangle(k)) else 0
  {
    var at, states := Positions(dec, s, bytes);
    FadeInTrace(dec, bytes, produced, at, states, i, p, k);
  }

  lemma FadeInTrace<S(!new)>(dec: Decoder<S>, bytes: seq<u8>, produced: seq<Produced>, at: seq<nat>,
                             states: seq<State<S>>, i: nat, p: seq<i16>, k: nat)
    requires Walked(dec, bytes, produced, at, states) && 1 <= k < 0x1_0000_0000 && i + k < |produced|
    requires p != [] && produced[i] == Good(p) && AllConcealed(produced, i + 1, i + 1 + k)
    ensures var filler := produced[i + k].pcm;
            && |filler| == Min(dec.SamplesPerFrame(), |p|)
            && forall j | 0 <= j < |filler| :: filler[j] == if k <= 8 then p[j] / Pow2(Triangle(k)) else 0
  {
    AfterGood(dec, bytes, produced, at, states, i, p);
    FillersOfRun(dec, bytes, produced, at, states, i + 1, k);
    FadeOfFiller(states[i + 1], p, dec.SamplesPerFrame(), k, produced[i + k].pcm);
  }

  lemma AfterGood<S(!new)>(dec: Decoder<S>, bytes: seq<u8>, produced: seq<Produced>, at: seq<nat>,
                           states: seq<State<S>>, i: nat, p: seq<i16>)
    requires Walked(dec, bytes, produced, at, states) && i < |produced| && p != [] && produced[i] == Good(p)
    ensures states[i + 1].lastPcm == p && states[i + 1].concealed == 0
  {
    assert WalkStep(dec, bytes, produced[i], at[i], states[i], at[i + 1], states[i + 1]);
  }

  lemma FadeOfFiller<S>(t: State<S>, p: seq<i16>, n: nat, k: nat, filler: seq<i16>)
    requires p != [] && t.lastPcm == p && t.concealed == 0 && 1 <= k < 0x1_0000_0000
    requires filler == Concealment(ConcealRun(t, seq(k - 1, _ => n)), n)
    ensures |filler| == Min(n, |p|)
    ensures forall j | 0 <= j < |filler| :: filler[j] == if k <= 8 then p[j] / Pow2(Triangle(k)) else 0
  {
    FadeOf(t, n, k);
  }

  // ---------------------------------------------------------------- accounting

  /** Where the bytes went: into good frames, one for each filler, and what is left over. */
  predicate Balanced<S>(p: Parse<S>, bytes: seq<u8>, frameLength: nat, samples: nat) {
    && |bytes| == p.consumed + Fillers(p.produced) + |p.rest|
    && |p.rest| < frameLength
    && p.rest == bytes[|bytes| - |p.rest|..]
    && forall f | f in p.produced && f.Concealed? :: 1 <= |f.pcm| <= samples
  }

  /**
   Every byte read was taken by a good frame, skipped on an error with exactly one non-empty
   filler frame made for it, or is still left over; and the leftover is a suffix shorter than a frame.
   */
  lemma {:induction false} Accounting<S(!new)>(dec: Decoder<S>, s: State<S>, bytes: seq<u8>)
    requires dec.Contract()
    ensures Balanced(Greedy(dec, s, bytes), bytes, dec.frameLength, dec.SamplesPerFrame())
    decreases |bytes|
  {
    if |bytes| >= dec.frameLength {
      var m := Turn(dec, s, bytes);
      Accounting(dec, m.state, bytes[m.taken..]);
      TurnMakes(dec, s, bytes);
      PrependAccounts(m, Greedy(dec, m.state, bytes[m.taken..]), bytes, dec.frameLength, dec.SamplesPerFrame());
    }
  }

  lemma TurnMakes<S(!new)>(dec: Decoder<S>, s: State<S>, bytes: seq<u8>)
    requires dec.Contract() && |bytes| >= dec.frameLength
    ensures var m := Turn(dec, s, bytes);
            m.frame.Concealed? ==> m.taken == 1 && 1 <= |m.frame.pcm| <= dec.SamplesPerFrame()
  {
  }

  lemma PrependAccounts<S>(m: Move<S>, later: Parse<S>, bytes: seq<u8>, frameLength: nat, samples: nat)
    requires m.taken <= |bytes| && Balanced(later, bytes[m.taken..], frameLength, samples)
    requires m.frame.Concealed? ==> m.taken == 1 && 1 <= |m.frame.pcm| <= samples
    ensures Balanced(Prepend(m, later), bytes, frameLength, samples)
  {
    FillersCons(m.frame, later.produced);
  }

  lemma FillersCons(f: Produced, fs: seq<Produced>)
    ensures Fillers([f] + fs) == (if f.Concealed? then 1 else 0) + Fillers(fs)
  {
    assert ([f] + fs)[1..] == fs;
  }
}
