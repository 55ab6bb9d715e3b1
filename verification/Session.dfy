/** The AVDTP session: typed transitions, the event driver, and what a history of events leaves stored. */
module Session {
  import opened Words

  datatype AudioCodec = CodecSBC | CodecAAC | CodecAptX | CodecLDAC | CodecLC3

  datatype Session =
    | IdleSession
    | ConfiguredSession(codec: AudioCodec, config: seq<u8>, endpoint: string)
    | OpenSession(codec: AudioCodec, config: seq<u8>, endpoint: string, transport: string)
    | StreamingSession(codec: AudioCodec, config: seq<u8>, endpoint: string, transport: string)
    | ClosingSession(transport: string)

  datatype AvdtpEvent =
    | EvCodecConfigured(codec: AudioCodec, config: seq<u8>, endpoint: string)
    | EvTransportOpened(path: string)
    | EvStreamStarted
    | EvStreamSuspended
    | EvTransportClosed
    | EvAbort

  // ---------------------------------------------------------------- typed transitions

  function Configure(s: Session, codec: AudioCodec, config: seq<u8>, endpoint: string): Session
    requires s.IdleSession?
  {
    ConfiguredSession(codec, config, endpoint)
  }

  function Open(s: Session, path: string): Session
    requires s.ConfiguredSession?
  {
    OpenSession(s.codec, s.config, s.endpoint, path)
  }

  function Start(s: Session): Session
    requires s.OpenSession?
  {
    StreamingSession(s.codec, s.config, s.endpoint, s.transport)
  }

  function Suspend(s: Session): Session
    requires s.StreamingSession?
  {
    OpenSession(s.codec, s.config, s.endpoint, s.transport)
  }

  function Close(s: Session): Session
    requires s.OpenSession?
  {
    ClosingSession(s.transport)
  }

  function Abort(s: Session): Session {
    IdleSession
  }

  /** Drives the session by one event; a combination without a transition leaves it as it is. */
  function DriveEvent(s: Session, e: AvdtpEvent): Session {
    match (s, e)
    case (IdleSession, EvCodecConfigured(codec, config, endpoint)) => Configure(s, codec, config, endpoint)
    case (ConfiguredSession(_, _, _), EvTransportOpened(path)) => Open(s, path)
    case (OpenSession(_, _, _, _), EvStreamStarted) => Start(s)
    case (StreamingSession(_, _, _, _), EvStreamSuspended) => Suspend(s)
    case (OpenSession(_, _, _, _), EvTransportClosed) => Abort(Close(s))
    case (StreamingSession(_, _, _, _), EvTransportClosed) => Abort(s)
    case (_, EvAbort) => Abort(s)
    case _ => s
  }

  /** The driver without logging, for the one event that needs none. */
  function DriveEventPure(s: Session, e: AvdtpEvent): Option<Session> {
    if e.EvAbort? then Some(IdleSession) else None
  }

  // ---------------------------------------------------------------- events of the control plane

  /** The events the control plane receives from the runtime. */
  datatype Event =
    | DeviceConnected(info: string)
    | DeviceDisconnected(address: string)
    | TransportPending(path: string)
    | TransportAcquired(path: string)
    | TransportReleased(path: string)
    | CodecNegotiated(name: string, config: seq<u8>)
    | VolumeChanged(volume: u16)
    | Error(message: string)

  function LowerChar(c: char): char {
    if 'A' <= c <= 'Z' then (c as int - 'A' as int + 'a' as int) as char else c
  }

  function Lower(s: string): string {
    seq(|s|, i requires 0 <= i < |s| => LowerChar(s[i]))
  }

  /** The codec a negotiated name stands for; unknown names are taken to be SBC. */
  function CodecOf(name: string): AudioCodec {
    if Lower(name) == "aac" then CodecAAC else if Lower(name) == "lc3" then CodecLC3 else CodecSBC
  }

  /** Names are told apart by their letters alone, whatever their case; two of the five codecs are never named. */
  lemma CodecOfIff(name: string)
    ensures CodecOf(name) == CodecAAC <==>
              |name| == 3 && name[0] in "aA" && name[1] in "aA" && name[2] in "cC"
    ensures CodecOf(name) == CodecLC3 <==>
              |name| == 3 && name[0] in "lL" && name[1] in "cC" && name[2] == '3'
    ensures CodecOf(name) in {CodecAAC, CodecLC3, CodecSBC}
  {
    LowerIs(name, "aac");
    LowerIs(name, "lc3");
    forall i | 0 <= i < |name| ensures LetterIs(name[i]) {
      LetterCases(name[i]);
    }
  }

  lemma LowerIs(s: string, t: string)
    ensures Lower(s) == t <==> |s| == |t| && forall i | 0 <= i < |s| :: LowerChar(s[i]) == t[i]
  {
  }

  predicate LetterIs(c: char) {
    && (LowerChar(c) == 'a' <==> c in "aA")
    && (LowerChar(c) == 'c' <==> c in "cC")
    && (LowerChar(c) == 'l' <==> c in "lL")
    && (LowerChar(c) == '3' <==> c == '3')
  }

  lemma LetterCases(c: char)
    ensures LetterIs(c)
  {
  }

  /** What handling an event does to the stored session. */
  function HandleSession(s: Session, e: Event): Session {
    match e
    case DeviceDisconnected(_) =>
      (match DriveEventPure(s, EvAbort)
       case Some(t) => t
       case None => s)
    case TransportAcquired(path) => DriveEvent(DriveEvent(s, EvTransportOpened(path)), EvStreamStarted)
    case TransportReleased(_) => DriveEvent(s, EvTransportClosed)
    case CodecNegotiated(name, _) => DriveEvent(s, EvCodecConfigured(CodecOf(name), [], name))
    case _ => s
  }

  /** The session stored after a history of handled events. */
  function SessionAfter(h: seq<Event>): Session {
    if h == [] then IdleSession else HandleSession(SessionAfter(h[..|h| - 1]), h[|h| - 1])
  }

  // ---------------------------------------------------------------- whole histories

  /** Between events the session is never half open nor closing. */
  lemma {:induction false} StoredStates(h: seq<Event>)
    ensures var s := SessionAfter(h);
            s.IdleSession? || s.ConfiguredSession? || s.StreamingSession?
  {
    if h != [] {
      StoredStates(h[..|h| - 1]);
    }
  }

  predicate EndsConfigured(e: Event) {
    e.TransportAcquired? || e.DeviceDisconnected?
  }

  predicate EndsStreaming(e: Event) {
    e.TransportReleased? || e.DeviceDisconnected?
  }

  predicate IsCodec(e: Event, name: string) {
    e.CodecNegotiated? && e.name == name
  }

  /** Event i is a codec `name` that found the session idle, and nothing before j ended the configuration. */
  ghost predicate ConfiguredAt(h: seq<Event>, i: nat, j: nat, name: string) {
    && i < j <= |h|
    && SessionAfter(h[..i]).IdleSession?
    && IsCodec(h[i], name)
    && forall k | i < k < j :: !EndsConfigured(h[k])
  }

  /** Event j then acquired `path`, and nothing after it ended the stream. */
  ghost predicate StreamedAt(h: seq<Event>, i: nat, j: nat, name: string, path: string) {
    && j < |h|
    && ConfiguredAt(h, i, j, name)
    && h[j] == TransportAcquired(path)
    && forall k | j < k < |h| :: !EndsStreaming(h[k])
  }

  function Configured(name: string): Session {
    ConfiguredSession(CodecOf(name), [], name)
  }

  function Streaming(name: string, path: string): Session {
    StreamingSession(CodecOf(name), [], name, path)
  }

  lemma {:induction false} ConfiguredStays(h: seq<Event>, i: nat, j: nat, name: string)
    requires ConfiguredAt(h, i, j, name)
    ensures SessionAfter(h[..j]) == Configured(name)
  {
    assert h[..j][..j - 1] == h[..j - 1];
    if j > i + 1 {
      ConfiguredStays(h, i, j - 1, name);
    }
  }

  lemma {:induction false} StreamingStays(h: seq<Event>, i: nat, j: nat, name: string, path: string)
    requires StreamedAt(h, i, j, name, path)
    ensures SessionAfter(h) == Streaming(name, path)
  {
    var init := h[..|h| - 1];
    if |h| == j + 1 {
      ConfiguredStays(h, i, j, name);
    } else {
      assert init[..i] == h[..i];
      StreamingStays(init, i, j, name, path);
    }
  }

  /** Where a configured session came from. */
  lemma {:induction false} ConfiguredOrigin(h: seq<Event>) returns (i: nat, name: string)
    requires SessionAfter(h).ConfiguredSession?
    ensures ConfiguredAt(h, i, |h|, name) && SessionAfter(h) == Configured(name)
  {
    var init, e := h[..|h| - 1], h[|h| - 1];
    if SessionAfter(init).ConfiguredSession? {
      i, name := ConfiguredOrigin(init);
      assert h[..i] == init[..i];
    } else {
      StoredStates(init);
      i, name := |h| - 1, e.name;
    }
  }

  /** Where a streaming session came from. */
  lemma {:induction false} StreamingOrigin(h: seq<Event>) returns (i: nat, j: nat, name: string, path: string)
    requires SessionAfter(h).StreamingSession?
    ensures StreamedAt(h, i, j, name, path) && SessionAfter(h) == Streaming(name, path)
  {
    var init, e := h[..|h| - 1], h[|h| - 1];
    if SessionAfter(init).StreamingSession? {
      i, j, name, path := StreamingOrigin(init);
      assert h[..i] == init[..i];
    } else {
      StoredStates(init);
      i, name := ConfiguredOrigin(init);
      assert h[..i] == init[..i];
      j, path := |h| - 1, e.path;
    }
  }

  /** Configured exactly after a codec event that found the session idle, with nothing since to end it. */
  lemma ConfiguredIff(h: seq<Event>, name: string)
    ensures SessionAfter(h) == Configured(name) <==> exists i: nat :: ConfiguredAt(h, i, |h|, name)
  {
    if SessionAfter(h) == Configured(name) {
      var i, n := ConfiguredOrigin(h);
    }
    assert h[..|h|] == h;
    forall i: nat | ConfiguredAt(h, i, |h|, name) ensures SessionAfter(h) == Configured(name) {
      ConfiguredStays(h, i, |h|, name);
    }
  }

  /**
   Streaming with `name` on `path` exactly when the history is h1, the codec, h2, the acquisition, h3,
   with the session idle after h1, nothing acquired or disconnected in h2, and nothing released or
   disconnected in h3.
   */
  lemma StreamingIff(h: seq<Event>, name: string, path: string)
    ensures SessionAfter(h) == Streaming(name, path) <==> exists i: nat, j: nat :: StreamedAt(h, i, j, name, path)
  {
    if SessionAfter(h) == Streaming(name, path) {
      var i, j, n, p := StreamingOrigin(h);
    }
    forall i: nat, j: nat | StreamedAt(h, i, j, name, path) ensures SessionAfter(h) == Streaming(name, path) {
      StreamingStays(h, i, j, name, path);
    }
  }
}
