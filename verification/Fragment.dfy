/** Cutting codec frames into numbered fragments, the transport's counters, and putting frames together again. */
module Fragment {
  import opened Words
  import opened Wire

  const FRAGMENT_HEADER_SIZE: nat := 7
  const DCF_MAX_PAYLOAD: nat := 1455
  const FIRST: u8 := 1
  const LAST: u8 := 2
  const COMPLETE: u8 := 3

  /** The seven-byte header and the bytes of the codec frame it places. */
  datatype Piece = Piece(frameId: u16, index: u8, count: u8, offset: u16, flags: u8, body: seq<u8>)

  function PieceBytes(p: Piece): seq<u8> {
    ToBytes(p.frameId, 2) + [p.index] + [p.count] + ToBytes(p.offset, 2) + [p.flags] + p.body
  }

  function ParsePiece(payload: seq<u8>): Option<Piece> {
    if |payload| < FRAGMENT_HEADER_SIZE then None
    else
      PowersOf256();
      Some(Piece(Field(payload, 0, 2), payload[2], payload[3], Field(payload, 4, 6), payload[6], payload[7..]))
  }

  lemma PieceRoundTrip(p: Piece)
    ensures ParsePiece(PieceBytes(p)) == Some(p)
  {
    PowersOf256();
    FieldOf(PieceBytes(p), 0, 2, p.frameId);
    FieldOf(PieceBytes(p), 4, 6, p.offset);
  }

  /** The layout of a fragment, byte by byte. */
  lemma PieceLayout(p: Piece)
    ensures var b := PieceBytes(p);
            && |b| == 7 + |p.body| && b[7..] == p.body
            && b[0] == p.frameId / 256 && b[1] == p.frameId % 256
            && b[2] == p.index && b[3] == p.count
            && b[4] == p.offset / 256 && b[5] == p.offset % 256
            && b[6] == p.flags
  {
    TwoBytes(p.frameId);
    TwoBytes(p.offset);
  }

  lemma TwoBytes(v: u16)
    ensures ToBytes(v, 2) == [v / 256, v % 256]
  {
    ByteOf(v, 2, 0);
    ByteOf(v, 2, 1);
  }

  // ---------------------------------------------------------------- fragmentation

  /** How many pieces of `usable` bytes it takes. */
  function ChunkCount(length: nat, usable: nat): nat
    requires usable > 0
  {
    (length + usable - 1) / usable
  }

  /** What the fragment header leaves of a payload; below seven bytes the difference wraps, in 64 bits. */
  function Room(maxPayload: nat): nat {
    if maxPayload >= FRAGMENT_HEADER_SIZE then maxPayload - FRAGMENT_HEADER_SIZE
    else maxPayload + 0x1_0000_0000_0000_0000 - FRAGMENT_HEADER_SIZE
  }

  /** What `chunks` demands: a frame that does not fit needs pieces of at least one byte. */
  predicate Cuttable(length: nat, usable: nat) {
    length > usable ==> usable > 0
  }

  function Chunk(frame: seq<u8>, usable: nat, i: nat): seq<u8>
    requires i * usable <= |frame|
  {
    frame[i * usable..Min(i * usable + usable, |frame|)]
  }

  function Flags(i: nat, n: nat): u8 {
    if i == 0 then FIRST else if i + 1 == n then LAST else 0
  }

  function NthPiece(frame: seq<u8>, usable: nat, fid: u16, i: nat): Piece
    requires usable > 0 && i < ChunkCount(|frame|, usable)
  {
    ChunkStart(|frame|, usable, i);
    var n := ChunkCount(|frame|, usable);
    Piece(fid, i % 0x100, n % 0x100, (i * usable) % 0x1_0000, Flags(i, n), Chunk(frame, usable, i))
  }

  /** The pieces of one codec frame, in order. */
  function Pieces(frame: seq<u8>, usable: nat, fid: u16): (ps: seq<Piece>)
    requires Cuttable(|frame|, usable)
    ensures ps != []
  {
    if |frame| <= usable then
      [Piece(fid, 0, 1, 0, COMPLETE, frame)]
    else
      TwoChunks(|frame|, usable);
      seq(ChunkCount(|frame|, usable),
          i requires 0 <= i < ChunkCount(|frame|, usable) => NthPiece(frame, usable, fid, i))
  }

  lemma ChunkBounds(length: nat, usable: nat)
    requires usable > 0
    ensures var n := ChunkCount(length, usable);
            length <= n * usable < length + usable
  {
    var q := (length + usable - 1) / usable;
    assert length + usable - 1 == usable * q + (length + usable - 1) % usable;
  }

  lemma ChunkStart(length: nat, usable: nat, i: nat)
    requires usable > 0 && i < ChunkCount(length, usable)
    ensures i * usable < length
    ensures i + 1 < ChunkCount(length, usable) ==> i * usable + usable < length
  {
    var n := ChunkCount(length, usable);
    ChunkBounds(length, usable);
    MulSign(usable, n - 1 - i);
    assert (n - 1 - i) * usable == n * usable - usable - i * usable;
    if i + 1 < n {
      MulSign(usable, n - 2 - i);
      assert (n - 2 - i) * usable == n * usable - 2 * usable - i * usable;
    }
  }

  lemma TwoChunks(length: nat, usable: nat)
    requires 0 < usable < length
    ensures ChunkCount(length, usable) >= 2
  {
    var n := ChunkCount(length, usable);
    ChunkBounds(length, usable);
    MulSign(usable, 1 - n);
    assert (1 - n) * usable == usable - n * usable;
  }

  function PieceType(frame: seq<u8>, usable: nat): u8 {
    ToU8(if |frame| <= usable then AudioFrame else AudioFragment)
  }

  /** The DCF frames of one codec frame: consecutive sequence numbers, one clock reading each. */
  function Packets(frame: seq<u8>, usable: nat, fid: u16, sequence: u32, clock: nat -> u64): seq<Frame>
    requires Cuttable(|frame|, usable)
  {
    var ps := Pieces(frame, usable, fid);
    seq(|ps|, i requires 0 <= i < |ps| =>
      NewFrame(PieceType(frame, usable), WrapAdd32(sequence, i), clock(i), PieceBytes(ps[i])))
  }

  lemma NthPacket(frame: seq<u8>, usable: nat, fid: u16, sequence: u32, clock: nat -> u64, i: nat)
    requires 0 < usable < |frame| && i < ChunkCount(|frame|, usable)
    ensures var fs := Packets(frame, usable, fid, sequence, clock);
            var payload := PieceBytes(NthPiece(frame, usable, fid, i));
            && |fs| == ChunkCount(|frame|, usable)
            && fs[i] == NewFrame(ToU8(AudioFragment), WrapAdd32(sequence, i), clock(i), payload)
  {
  }

  /** The payload of fragment `i` of a codec frame that takes `count` of them. */
  method FragmentPayload(codecFrame: seq<u8>, usable: nat, frameId: u16, i: nat, count: nat) returns (payload: seq<u8>)
    requires 0 < usable < |codecFrame| && i < count == ChunkCount(|codecFrame|, usable)
    ensures payload == PieceBytes(NthPiece(codecFrame, usable, frameId, i))
  {
    TwoChunks(|codecFrame|, usable);
    ChunkStart(|codecFrame|, usable, i);
    MulSign(usable, i);
    var flags := if i == 0 then FIRST else if i == count - 1 then LAST else 0;
    var offset := (i * usable) % 0x1_0000;
    payload := ToBytes(frameId, 2) + [i % 0x100] + [count % 0x100] + ToBytes(offset, 2) + [flags]
               + Chunk(codecFrame, usable, i);
    assert NthPiece(codecFrame, usable, frameId, i)
        == Piece(frameId, i % 0x100, count % 0x100, offset, flags, Chunk(codecFrame, usable, i));
  }

  /** A frame that does not fit, cut into fragments. */
  method FragmentChunks(codecFrame: seq<u8>, sequence: u32, usable: nat, frameId: u16, clock: nat -> u64)
    returns (frames: seq<Frame>, next: u32)
    requires 0 < usable < |codecFrame|
    ensures frames == Packets(codecFrame, usable, frameId, sequence, clock)
    ensures next == WrapAdd32(sequence, |frames|)
  {
    var count := ChunkCount(|codecFrame|, usable);
    ghost var all := Packets(codecFrame, usable, frameId, sequence, clock);
    TwoChunks(|codecFrame|, usable);
    NthPacket(codecFrame, usable, frameId, sequence, clock, 0);
    frames, next := [], sequence;
    for i := 0 to count
      invariant |all| == count && next == WrapAdd32(sequence, i) && frames == all[..i]
    {
      var payload := FragmentPayload(codecFrame, usable, frameId, i, count);
      NthPacket(codecFrame, usable, frameId, sequence, clock, i);
      frames := frames + [NewFrame(ToU8(AudioFragment), next, clock(i), payload)];
      assert frames == all[..i + 1];
      WrapTwice(sequence, i, 1);
      next := WrapAdd32(next, 1);
    }
  }

  /** `fragment_audio`: the frames, and the sequence number after them. */
  method FragmentAudio(codecFrame: seq<u8>, sequence: u32, maxPayload: nat, frameId: u16, clock: nat -> u64)
    returns (frames: seq<Frame>, next: u32)
    requires Cuttable(|codecFrame|, Room(maxPayload))
    ensures frames == Packets(codecFrame, Room(maxPayload), frameId, sequence, clock)
    ensures next == WrapAdd32(sequence, |frames|)
  {
    var usable := Room(maxPayload);
    if |codecFrame| <= usable {
      var payload := ToBytes(frameId, 2) + [0] + [1] + ToBytes(0, 2) + [COMPLETE] + codecFrame;
      assert payload == PieceBytes(Pieces(codecFrame, usable, frameId)[0]);
      frames := [NewFrame(ToU8(AudioFrame), sequence, clock(0), payload)];
      next := WrapAdd32(sequence, 1);
    } else {
      frames, next := FragmentChunks(codecFrame, sequence, usable, frameId, clock);
    }
  }

  // ---------------------------------------------------------------- the transport

  datatype Transport = Transport(sequence: u32, frameId: u16, maxPayload: nat)
  datatype Call = Packetize(codecFrame: seq<u8>) | Control(kind: MessageType, payload: seq<u8>)

  function Usable(t: Transport): nat {
    Room(t.maxPayload)
  }

  /** The source panics on calls that are not. */
  predicate Allowed(t: Transport, call: Call) {
    call.Packetize? ==> Cuttable(|call.codecFrame|, Usable(t))
  }

  /** The frames one call makes. */
  function Made(t: Transport, call: Call, clock: nat -> u64): seq<Frame>
    requires Allowed(t, call)
  {
    match call
    case Packetize(codecFrame) => Packets(codecFrame, Usable(t), t.frameId, t.sequence, clock)
    case Control(kind, payload) => [NewFrame(ToU8(kind), t.sequence, clock(0), payload)]
  }

  function After(t: Transport, call: Call, clock: nat -> u64): Transport
    requires Allowed(t, call)
  {
    t.(sequence := WrapAdd32(t.sequence, |Made(t, call, clock)|),
       frameId := if call.Packetize? then WrapAdd16(t.frameId, 1) else t.frameId)
  }

  class DcfTransport {
    var sequence: u32
    var frameId: u16
    const maxPayload: nat

    constructor (maxPayload: nat)
      ensures View() == Transport(0, 0, Min(maxPayload, DCF_MAX_PAYLOAD))
    {
      sequence, frameId := 0, 0;
      this.maxPayload := Min(maxPayload, DCF_MAX_PAYLOAD);
    }

    function View(): Transport
      reads this
    {
      Transport(sequence, frameId, maxPayload)
    }

    method PacketizeFrame(codecFrame: seq<u8>, clock: nat -> u64) returns (frames: seq<Frame>)
      requires Allowed(View(), Packetize(codecFrame))
      modifies this
      ensures frames == Made(old(View()), Packetize(codecFrame), clock)
      ensures View() == After(old(View()), Packetize(codecFrame), clock)
    {
      var fid := frameId;
      frameId := WrapAdd16(frameId, 1);
      frames, sequence := FragmentAudio(codecFrame, sequence, maxPayload, fid, clock);
    }

    method ControlMessage(kind: MessageType, payload: seq<u8>, clock: nat -> u64) returns (frame: Frame)
      modifies this
      ensures [frame] == Made(old(View()), Control(kind, payload), clock)
      ensures View() == After(old(View()), Control(kind, payload), clock)
    {
      frame := NewFrame(ToU8(kind), sequence, clock(0), payload);
      sequence := WrapAdd32(sequence, 1);
    }
  }

  /** None of the calls panics; this depends on the payload limit alone. */
  predicate AllAllowed(t: Transport, calls: seq<Call>) {
    forall j | 0 <= j < |calls| :: Allowed(t, calls[j])
  }

  /** What the clock shows during call j, reading after reading. */
  function Reading(clock: (nat, nat) -> u64, j: nat): nat -> u64 {
    (i: nat) => clock(j, i)
  }

  /** The frames call n makes. */
  function MadeBy(t: Transport, calls: seq<Call>, clock: (nat, nat) -> u64, n: nat): seq<Frame>
    requires AllAllowed(t, calls) && n < |calls|
  {
    Made(StateAfter(t, calls[..n], clock), calls[n], Reading(clock, n))
  }

  /** All frames of a list of calls; call j reads the clock as clock(j, _). */
  function Emitted(t: Transport, calls: seq<Call>, clock: (nat, nat) -> u64): seq<Frame>
    requires AllAllowed(t, calls)
  {
    if calls == [] then []
    else Emitted(t, calls[..|calls| - 1], clock) + MadeBy(t, calls, clock, |calls| - 1)
  }

  function StateAfter(t: Transport, calls: seq<Call>, clock: (nat, nat) -> u64): (r: Transport)
    requires AllAllowed(t, calls)
    ensures r.maxPayload == t.maxPayload
  {
    if calls == [] then t
    else
      var j := |calls| - 1;
      After(StateAfter(t, calls[..j], clock), calls[j], Reading(clock, j))
  }

  /** What a call makes does not depend on the calls after it. */
  lemma MadeEarlier(t: Transport, calls: seq<Call>, clock: (nat, nat) -> u64, m: nat, n: nat)
    requires AllAllowed(t, calls) && n < m <= |calls|
    ensures MadeBy(t, calls[..m], clock, n) == MadeBy(t, calls, clock, n)
  {
    assert calls[..m][..n] == calls[..n];
  }

  /** The call that emitted a frame. */
  lemma {:induction false} EmittedBy(t: Transport, calls: seq<Call>, clock: (nat, nat) -> u64, f: Frame)
    returns (n: nat)
    requires AllAllowed(t, calls) && f in Emitted(t, calls, clock)
    ensures n < |calls| && f in MadeBy(t, calls, clock, n)
  {
    var j := |calls| - 1;
    if f in MadeBy(t, calls, clock, j) {
      n := j;
    } else {
      n := EmittedBy(t, calls[..j], clock, f);
      MadeEarlier(t, calls, clock, j, n);
    }
  }

  /** The frames of call n stand behind those of the calls before it. */
  lemma {:induction false} EmittedAt(t: Transport, calls: seq<Call>, clock: (nat, nat) -> u64, n: nat, i: nat)
    returns (at: nat)
    requires AllAllowed(t, calls) && n < |calls| && i < |MadeBy(t, calls, clock, n)|
    ensures at == |Emitted(t, calls[..n], clock)| + i
    ensures at < |Emitted(t, calls, clock)| && Emitted(t, calls, clock)[at] == MadeBy(t, calls, clock, n)[i]
    decreases |calls|
  {
    var j := |calls| - 1;
    if n == j {
      at := |Emitted(t, calls[..j], clock)| + i;
    } else {
      MadeEarlier(t, calls, clock, j, n);
      at := EmittedAt(t, calls[..j], clock, n, i);
      assert calls[..j][..n] == calls[..n];
    }
  }

  predicate Numbered(fs: seq<Frame>, from: u32) {
    forall i | 0 <= i < |fs| :: fs[i].header.sequence == WrapAdd32(from, i)
  }

  lemma PacketsNumbered(frame: seq<u8>, usable: nat, fid: u16, sequence: u32, clock: nat -> u64)
    requires Cuttable(|frame|, usable)
    ensures Numbered(Packets(frame, usable, fid, sequence, clock), sequence)
  {
    var ps := Pieces(frame, usable, fid);
    forall i: nat | i < |ps|
      ensures Packets(frame, usable, fid, sequence, clock)[i].header.sequence == WrapAdd32(sequence, i)
    {
      assert Packets(frame, usable, fid, sequence, clock)[i]
          == NewFrame(PieceType(frame, usable), WrapAdd32(sequence, i), clock(i), PieceBytes(ps[i]));
    }
  }

  lemma SingleNumbered(f: Frame)
    ensures Numbered([f], f.header.sequence)
  {
    forall i | 0 <= i < 1 ensures [f][i].header.sequence == WrapAdd32(f.header.sequence, i) {
      assert i == 0;
    }
  }

  lemma MadeNumbered(t: Transport, call: Call, clock: nat -> u64) returns (fs: seq<Frame>)
    requires Allowed(t, call)
    ensures fs == Made(t, call, clock) && Numbered(fs, t.sequence)
  {
    if call.Packetize? {
      fs := Packets(call.codecFrame, Usable(t), t.frameId, t.sequence, clock);
      PacketsNumbered(call.codecFrame, Usable(t), t.frameId, t.sequence, clock);
    } else {
      var f := NewFrame(ToU8(call.kind), t.sequence, clock(0), call.payload);
      fs := [f];
      SingleNumbered(f);
    }
  }

  lemma NumberedAppend(fs: seq<Frame>, gs: seq<Frame>, from: u32)
    requires Numbered(fs, from) && Numbered(gs, WrapAdd32(from, |fs|))
    ensures Numbered(fs + gs, from)
  {
    forall i | |fs| <= i < |fs + gs| ensures (fs + gs)[i].header.sequence == WrapAdd32(from, i) {
      assert (fs + gs)[i] == gs[i - |fs|];
      WrapTwice(from, |fs|, i - |fs|);
    }
  }

  /** Any mix of audio and control calls numbers its frames consecutively, modulo 2^32. */
  lemma {:induction false} SequencesConsecutive(t: Transport, calls: seq<Call>, clock: (nat, nat) -> u64)
    requires AllAllowed(t, calls)
    ensures Numbered(Emitted(t, calls, clock), t.sequence)
    ensures StateAfter(t, calls, clock).sequence == WrapAdd32(t.sequence, |Emitted(t, calls, clock)|)
  {
    if calls != [] {
      var j := |calls| - 1;
      SequencesConsecutive(t, calls[..j], clock);
      var u := StateAfter(t, calls[..j], clock);
      var fs := MadeNumbered(u, calls[j], Reading(clock, j));
      SequencesGoOn(Emitted(t, calls[..j], clock), fs, t.sequence, u.sequence);
    }
  }

  lemma SequencesGoOn(es: seq<Frame>, fs: seq<Frame>, from: u32, next: u32)
    requires Numbered(es, from) && next == WrapAdd32(from, |es|) && Numbered(fs, next)
    ensures Numbered(es + fs, from) && WrapAdd32(next, |fs|) == WrapAdd32(from, |es + fs|)
  {
    NumberedAppend(es, fs, from);
    WrapTwice(from, |es|, |fs|);
  }

  /** One packet carries a whole frame as type 0x10; of several, each carries a fragment as type 0x11. */
  lemma PacketTypes(frame: seq<u8>, usable: nat, fid: u16, sequence: u32, clock: nat -> u64, i: nat)
    requires Cuttable(|frame|, usable) && i < |Pieces(frame, usable, fid)|
    ensures var fs := Packets(frame, usable, fid, sequence, clock);
            && |fs| == |Pieces(frame, usable, fid)|
            && (|fs| == 1 <==> |frame| <= usable)
            && FrameBytes(fs[i])[0] == fs[i].header.msgType == (if |fs| == 1 then 0x10 else 0x11)
            && fs[i].header.timestamp == clock(i)
  {
    var fs, ps := Packets(frame, usable, fid, sequence, clock), Pieces(frame, usable, fid);
    assert fs[i] == NewFrame(PieceType(frame, usable), WrapAdd32(sequence, i), clock(i), PieceBytes(ps[i]));
    if |frame| > usable {
      TwoChunks(|frame|, usable);
    }
  }

  /**
   The frame at every position of what any list of calls emits: its sequence number counts the frames
   before it, its time is the clock's at the reading made for it, and its type is that of its content.
   */
  lemma FrameAt(t: Transport, calls: seq<Call>, clock: (nat, nat) -> u64, n: nat, i: nat) returns (at: nat)
    requires AllAllowed(t, calls) && n < |calls| && i < |MadeBy(t, calls, clock, n)|
    ensures at == |Emitted(t, calls[..n], clock)| + i < |Emitted(t, calls, clock)|
    ensures var f, call := Emitted(t, calls, clock)[at], calls[n];
            && f.header.sequence == WrapAdd32(t.sequence, at)
            && f.header.timestamp == clock(n, i)
            && f.header.msgType == (if call.Control? then ToU8(call.kind)
                                    else if |MadeBy(t, calls, clock, n)| == 1 then 0x10 else 0x11)
            && (call.Control? ==> i == 0 && f.payload == call.payload)
  {
    at := EmittedAt(t, calls, clock, n, i);
    SequencesConsecutive(t, calls, clock);
    var u := StateAfter(t, calls[..n], clock);
    if calls[n].Packetize? {
      PacketTypes(calls[n].codecFrame, Usable(u), u.frameId, u.sequence, Reading(clock, n), i);
    }
  }
}
