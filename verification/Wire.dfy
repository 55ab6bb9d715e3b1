/** DCF headers and frames as bytes, and streams of frames without any delimiter but their lengths. */
module Wire {
  import opened Words

  // ---------------------------------------------------------------- big-endian integers

  function Pow256(n: nat): (p: nat)
    ensures p >= 1
  {
    if n == 0 then 1 else 256 * Pow256(n - 1)
  }

  /** The last `n` bytes of `v`, most significant first. */
  function ToBytes(v: nat, n: nat): (b: seq<u8>)
    ensures |b| == n
  {
    if n == 0 then [] else ToBytes(v / 256, n - 1) + [v % 256]
  }

  function FromBytes(b: seq<u8>): nat {
    if b == [] then 0 else FromBytes(b[..|b| - 1]) * 256 + b[|b| - 1]
  }

  lemma {:induction false} FromToBytes(v: nat, n: nat)
    requires v < Pow256(n)
    ensures FromBytes(ToBytes(v, n)) == v
  {
    if n > 0 {
      FromToBytes(v / 256, n - 1);
      assert ToBytes(v, n)[..n - 1] == ToBytes(v / 256, n - 1);
    }
  }

  lemma {:induction false} ToFromBytes(b: seq<u8>)
    ensures FromBytes(b) < Pow256(|b|)
    ensures ToBytes(FromBytes(b), |b|) == b
  {
    if b != [] {
      ToFromBytes(b[..|b| - 1]);
      assert b == b[..|b| - 1] + [b[|b| - 1]];
    }
  }

  /** Byte i is the i-th most significant one of the last n. */
  lemma {:induction false} ByteOf(v: nat, n: nat, i: nat)
    requires i < n
    ensures ToBytes(v, n)[i] == (v / Pow256(n - 1 - i)) % 256
  {
    if i < n - 1 {
      ByteOf(v / 256, n - 1, i);
      DivDiv(v, 256, Pow256(n - 2 - i));
    }
  }

  lemma PowersOf256()
    ensures Pow256(2) == 0x1_0000
    ensures Pow256(4) == 0x1_0000_0000
    ensures Pow256(8) == 0x1_0000_0000_0000_0000
  {
    assert Pow256(3) == 256 * Pow256(2);
    assert Pow256(5) == 256 * Pow256(4);
    assert Pow256(6) == 256 * Pow256(5);
    assert Pow256(7) == 256 * Pow256(6);
  }

  // ---------------------------------------------------------------- message types

  datatype MessageType =
    | Heartbeat | Ack | DeviceInfo
    | AudioFrame | AudioFragment | AudioSilence
    | CodecConfig | VolumeChange
    | TrackMetadata | PlaybackState

  function ToU8(t: MessageType): u8 {
    match t
    case Heartbeat => 0x01
    case Ack => 0x04
    case DeviceInfo => 0x05
    case AudioFrame => 0x10
    case AudioFragment => 0x11
    case AudioSilence => 0x12
    case CodecConfig => 0x20
    case VolumeChange => 0x21
    case TrackMetadata => 0x30
    case PlaybackState => 0x31
  }

  function FromU8(v: u8): (r: Option<MessageType>)
    ensures forall t :: r == Some(t) <==> ToU8(t) == v
  {
    match v
    case 0x01 => Some(Heartbeat)
    case 0x04 => Some(Ack)
    case 0x05 => Some(DeviceInfo)
    case 0x10 => Some(AudioFrame)
    case 0x11 => Some(AudioFragment)
    case 0x12 => Some(AudioSilence)
    case 0x20 => Some(CodecConfig)
    case 0x21 => Some(VolumeChange)
    case 0x30 => Some(TrackMetadata)
    case 0x31 => Some(PlaybackState)
    case _ => None
  }

  // ---------------------------------------------------------------- headers and frames

  const HEADER_SIZE: nat := 17

  datatype Header = Header(msgType: u8, sequence: u32, timestamp: u64, payloadLen: u32)
  datatype Frame = Frame(header: Header, payload: seq<u8>)
  datatype Result<+T> = Ok(value: T) | TooShort(expected: nat, got: nat)

  /** `DcfFrame::new`: the length field is the payload length cut to 32 bits. */
  function NewFrame(t: u8, sequence: u32, now: u64, payload: seq<u8>): Frame {
    Frame(Header(t, sequence, now, |payload| % 0x1_0000_0000), payload)
  }

  function HeaderBytes(h: Header): (b: seq<u8>)
    ensures |b| == HEADER_SIZE
  {
    [h.msgType] + ToBytes(h.sequence, 4) + ToBytes(h.timestamp, 8) + ToBytes(h.payloadLen, 4)
  }

  /** The unsigned integer in bytes `from` to `to`, of at most eight bytes. */
  function Field(data: seq<u8>, from: nat, to: nat): (v: nat)
    requires from <= to <= |data|
    ensures v < Pow256(to - from)
  {
    ToFromBytes(data[from..to]);
    FromBytes(data[from..to])
  }

  function ParseHeader(data: seq<u8>): Result<Header> {
    if |data| < HEADER_SIZE then
      TooShort(HEADER_SIZE, |data|)
    else
      PowersOf256();
      Ok(Header(data[0], Field(data, 1, 5), Field(data, 5, 13), Field(data, 13, 17)))
  }

  function FrameBytes(f: Frame): seq<u8> {
    HeaderBytes(f.header) + f.payload
  }

  function ParseFrame(data: seq<u8>): Result<Frame> {
    match ParseHeader(data)
    case TooShort(e, g) => TooShort(e, g)
    case Ok(h) =>
      var end := HEADER_SIZE + h.payloadLen;
      if |data| < end then TooShort(end, |data|) else Ok(Frame(h, data[HEADER_SIZE..end]))
  }

  /** A header is recovered from its bytes whatever follows them. */
  lemma HeaderRoundTrip(h: Header, rest: seq<u8>)
    ensures ParseHeader(HeaderBytes(h) + rest) == Ok(h)
  {
    PowersOf256();
    var data := HeaderBytes(h) + rest;
    FieldOf(data, 1, 5, h.sequence);
    FieldOf(data, 5, 13, h.timestamp);
    FieldOf(data, 13, 17, h.payloadLen);
  }

  lemma FieldOf(data: seq<u8>, from: nat, to: nat, v: nat)
    requires from <= to <= |data| && v < Pow256(to - from)
    requires data[from..to] == ToBytes(v, to - from)
    ensures Field(data, from, to) == v
  {
    FromToBytes(v, to - from);
  }

  /** Any seventeen bytes are the bytes of the header read from them. */
  lemma HeaderOfBytes(data: seq<u8>)
    requires |data| >= HEADER_SIZE
    ensures ParseHeader(data).Ok? && HeaderBytes(ParseHeader(data).value) == data[..HEADER_SIZE]
  {
    ToFromBytes(data[1..5]);
    ToFromBytes(data[5..13]);
    ToFromBytes(data[13..17]);
    assert data[..HEADER_SIZE] == [data[0]] + data[1..5] + data[5..13] + data[13..17];
  }

  /** The bytes of `v`, most significant first. */
  predicate BigEndian(b: seq<u8>, v: nat) {
    forall i | 0 <= i < |b| :: b[i] == (v / Pow256(|b| - 1 - i)) % 256
  }

  lemma BytesBigEndian(v: nat, n: nat)
    ensures BigEndian(ToBytes(v, n), v)
  {
    forall i: nat | i < n ensures ToBytes(v, n)[i] == (v / Pow256(n - 1 - i)) % 256 {
      ByteOf(v, n, i);
    }
  }

  /** The layout of a frame on the wire: a byte for the type, the sequence number, the time, the length, the payload. */
  lemma FrameLayout(f: Frame)
    ensures var b, h := FrameBytes(f), f.header;
            && |b| == 17 + |f.payload| && b[17..] == f.payload
            && b[0] == h.msgType
            && BigEndian(b[1..5], h.sequence)
            && BigEndian(b[5..13], h.timestamp)
            && BigEndian(b[13..17], h.payloadLen)
  {
    var b, h := FrameBytes(f), f.header;
    BytesBigEndian(h.sequence, 4);
    BytesBigEndian(h.timestamp, 8);
    BytesBigEndian(h.payloadLen, 4);
    assert b[1..5] == ToBytes(h.sequence, 4);
    assert b[5..13] == ToBytes(h.timestamp, 8);
    assert b[13..17] == ToBytes(h.payloadLen, 4);
  }

  predicate Consistent(f: Frame) {
    f.header.payloadLen == |f.payload|
  }

  /** A frame comes back whole, whatever follows it on the wire. */
  lemma FrameRoundTrip(f: Frame, rest: seq<u8>)
    requires Consistent(f)
    ensures ParseFrame(FrameBytes(f) + rest) == Ok(f)
  {
    HeaderRoundTrip(f.header, f.payload + rest);
    assert FrameBytes(f) + rest == HeaderBytes(f.header) + (f.payload + rest);
  }

  /** A frame survives serialisation exactly when its length field is its payload length. */
  lemma FrameRoundTripIff(f: Frame)
    ensures ParseFrame(FrameBytes(f)) == Ok(f) <==> Consistent(f)
  {
    HeaderRoundTrip(f.header, f.payload);
    assert FrameBytes(f) + [] == FrameBytes(f);
    if Consistent(f) {
      FrameRoundTrip(f, []);
    }
  }

  /** Frames made by the library survive exactly when the payload is shorter than 2^32 bytes. */
  lemma NewFrameRoundTripIff(t: u8, sequence: u32, now: u64, payload: seq<u8>)
    ensures var f := NewFrame(t, sequence, now, payload);
            ParseFrame(FrameBytes(f)) == Ok(f) <==> |payload| < 0x1_0000_0000
  {
    FrameRoundTripIff(NewFrame(t, sequence, now, payload));
  }

  /** Whatever parses is consistent, and is the start of the data it was parsed from. */
  lemma ParsedIsPrefix(data: seq<u8>)
    requires ParseFrame(data).Ok?
    ensures var f := ParseFrame(data).value;
            Consistent(f) && FrameBytes(f) == data[..HEADER_SIZE + |f.payload|]
  {
    HeaderOfBytes(data);
    var f := ParseFrame(data).value;
    assert data[..HEADER_SIZE + |f.payload|] == data[..HEADER_SIZE] + f.payload;
  }

  /** No proper prefix of a frame parses: what is reported is how much was needed and how much there was. */
  lemma CutFrameIsTooShort(f: Frame, n: nat)
    requires Consistent(f) && n < |FrameBytes(f)|
    ensures ParseFrame(FrameBytes(f)[..n]) == TooShort(if n < 17 then 17 else |FrameBytes(f)|, n)
  {
    if n >= HEADER_SIZE {
      var data := FrameBytes(f)[..n];
      HeaderOfBytes(data);
      HeaderRoundTrip(f.header, f.payload);
      assert data[..HEADER_SIZE] == HeaderBytes(f.header) + [];
      HeaderRoundTrip(f.header, []);
      HeaderRoundTrip(ParseHeader(data).value, []);
      assert HeaderBytes(ParseHeader(data).value) + [] == HeaderBytes(f.header) + [];
    }
  }

  // ---------------------------------------------------------------- streams

  function StreamBytes(fs: seq<Frame>): seq<u8> {
    if fs == [] then [] else FrameBytes(fs[0]) + StreamBytes(fs[1..])
  }

  /** Frames read from the front, one after the other, and the bytes that make no further frame. */
  datatype Parsed = Parsed(frames: seq<Frame>, rest: seq<u8>)

  function ParseStream(data: seq<u8>): Parsed
    decreases |data|
  {
    match ParseFrame(data)
    case TooShort(_, _) => Parsed([], data)
    case Ok(f) =>
      var p := ParseStream(data[HEADER_SIZE + |f.payload|..]);
      p.(frames := [f] + p.frames)
  }

  /** Concatenated frames come back in order, whatever unfinished bytes follow. */
  lemma {:induction false} StreamRoundTrip(fs: seq<Frame>, rest: seq<u8>)
    requires forall f | f in fs :: Consistent(f)
    requires ParseFrame(rest).TooShort?
    ensures ParseStream(StreamBytes(fs) + rest) == Parsed(fs, rest)
  {
    if fs == [] {
      assert StreamBytes(fs) + rest == rest;
    } else {
      var tail := StreamBytes(fs[1..]) + rest;
      assert StreamBytes(fs) + rest == FrameBytes(fs[0]) + tail;
      FrameRoundTrip(fs[0], tail);
      assert (FrameBytes(fs[0]) + tail)[HEADER_SIZE + |fs[0].payload|..] == tail;
      StreamRoundTrip(fs[1..], rest);
      assert [fs[0]] + fs[1..] == fs;
    }
  }

  /** Parsing loses nothing: the frames and the rest are the data, and the rest holds no frame. */
  lemma {:induction false} StreamOfParsed(data: seq<u8>)
    ensures var p := ParseStream(data);
            && StreamBytes(p.frames) + p.rest == data
            && ParseFrame(p.rest).TooShort?
            && forall f | f in p.frames :: Consistent(f)
    decreases |data|
  {
    if ParseFrame(data).Ok? {
      ParsedIsPrefix(data);
      var f := ParseFrame(data).value;
      var n := HEADER_SIZE + |f.payload|;
      StreamOfParsed(data[n..]);
      StreamCons(f, ParseStream(data[n..]), data, n);
    }
  }

  lemma StreamCons(f: Frame, p: Parsed, data: seq<u8>, n: nat)
    requires n <= |data| && FrameBytes(f) == data[..n] && StreamBytes(p.frames) + p.rest == data[n..]
    ensures StreamBytes([f] + p.frames) + p.rest == data
  {
    assert ([f] + p.frames)[1..] == p.frames;
    assert StreamBytes([f] + p.frames) == FrameBytes(f) + StreamBytes(p.frames);
    assert data == data[..n] + data[n..];
  }
}
