/** The GUI socket: frames broadcast to every client, and the loop that reads a client's frames. */
module DcfServer {
  import opened Words
  import opened Wire
  import opened Session

  // ---------------------------------------------------------------- reading

  /** What the Unicode tables decide: the decoding of bytes, and the upper case of a character. */
  datatype Unicode = Unicode(lossy: seq<u8> -> string, upper: char -> string)

  const MAX_CLIENT_PAYLOAD: nat := 256

  function TrimNul(s: string): string {
    if s != [] && s[|s| - 1] == '\0' then TrimNul(s[..|s| - 1]) else s
  }

  function CapitalizeFirst(s: string, u: Unicode): string {
    if s == [] then [] else u.upper(s[0]) + s[1..]
  }

  /** The message for a playback command. */
  function CommandMessage(payload: seq<u8>, u: Unicode): string {
    "AVRCP:" + CapitalizeFirst(TrimNul(u.lossy(payload)), u)
  }

  /**
   Whoever reads commands in lower case does not notice the capitalising exactly if the lower case of the
   first character's upper case is that character in lower case again.
   */
  lemma CommandInLowerCaseIff(text: string, u: Unicode)
    ensures Lower("AVRCP:" + CapitalizeFirst(text, u)) == "avrcp:" + Lower(text)
       <==> text == [] || Lower(u.upper(text[0])) == [LowerChar(text[0])]
  {
    LowerConcat("AVRCP:", CapitalizeFirst(text, u));
    var whole, plain := Lower(CapitalizeFirst(text, u)), Lower(text);
    assert Lower("AVRCP:") == "avrcp:";
    SamePrefixIff("avrcp:", whole, plain);
    if text != [] {
      LowerConcat(u.upper(text[0]), text[1..]);
      LowerConcat([text[0]], text[1..]);
      assert [text[0]] + text[1..] == text && Lower([text[0]]) == [LowerChar(text[0])];
      SameSuffixIff(Lower(u.upper(text[0])), Lower([text[0]]), Lower(text[1..]));
    }
  }

  lemma LowerConcat(s: string, t: string)
    ensures Lower(s + t) == Lower(s) + Lower(t)
  {
  }

  lemma SamePrefixIff(p: string, s: string, t: string)
    ensures p + s == p + t <==> s == t
  {
    assert (p + s)[|p|..] == s && (p + t)[|p|..] == t;
  }

  lemma SameSuffixIff(s: string, t: string, r: string)
    ensures s + r == t + r <==> s == t
  {
    if s + r == t + r {
      assert |s| == |t|;
      assert (s + r)[..|s|] == s && (t + r)[..|t|] == t;
    }
  }

  /** What is left is the string without the zeros at its end, all of them. */
  lemma {:induction false} TrimNulIff(s: string, t: string)
    ensures TrimNul(s) == t <==>
              && t <= s
              && (forall i | |t| <= i < |s| :: s[i] == '\0')
              && (t != [] ==> t[|t| - 1] != '\0')
  {
    if s != [] && s[|s| - 1] == '\0' {
      var init := s[..|s| - 1];
      TrimNulIff(init, t);
      assert s == init + ['\0'];
    }
  }

  /** What one client frame asks for. */
  function Handle(f: Frame, u: Unicode): seq<Event> {
    if f.header.msgType == ToU8(VolumeChange) && f.payload != [] then [VolumeChanged(f.payload[0])]
    else if f.header.msgType == ToU8(PlaybackState) then [Event.Error(CommandMessage(f.payload, u))]
    else []
  }

  /** The events of the frames before the first one that is too long. */
  function Events(fs: seq<Frame>, u: Unicode): seq<Event> {
    if fs == [] || |fs[0].payload| > MAX_CLIENT_PAYLOAD then [] else Handle(fs[0], u) + Events(fs[1..], u)
  }

  /** The events of a byte stream. */
  function StreamEvents(data: seq<u8>, u: Unicode): seq<Event> {
    Events(ParseStream(data).frames, u)
  }

  /** One turn of the loop: the next frame is handled, or the reader is done. */
  method ReadFrame(unread: seq<u8>, u: Unicode) returns (done: bool, events: seq<Event>, rest: seq<u8>)
    ensures done ==> StreamEvents(unread, u) == []
    ensures !done ==> StreamEvents(unread, u) == events + StreamEvents(rest, u) && |rest| < |unread|
  {
    done, events, rest := true, [], [];
    if |unread| < HEADER_SIZE {
      Stops(unread, u);
      return;
    }
    var header := ParseHeader(unread).value;
    if header.payloadLen > MAX_CLIENT_PAYLOAD || |unread| - HEADER_SIZE < header.payloadLen {
      Stops(unread, u);
      return;
    }
    var end := HEADER_SIZE + header.payloadLen;
    Continues(unread, end, Frame(header, unread[HEADER_SIZE..end]), u);
    done := false;
    events := HandleFrame(header, unread[HEADER_SIZE..end], u);
    rest := unread[end..];
  }

  /**
   `read_client` on the bytes a client sent before closing: the events are those of its frames, in
   order, up to the first that is too long or incomplete.
   */
  method ReadClient(stream: seq<u8>, u: Unicode) returns (events: seq<Event>)
    ensures events == StreamEvents(stream, u)
  {
    events := [];
    var done, unread := false, stream;
    while !done
      invariant StreamEvents(stream, u) == events + (if done then [] else StreamEvents(unread, u))
      decreases !done, |unread|
    {
      var handled, rest;
      done, handled, rest := ReadFrame(unread, u);
      if !done {
        assert events + (handled + StreamEvents(rest, u)) == (events + handled) + StreamEvents(rest, u);
        events := events + handled;
        unread := rest;
      }
    }
  }

  method HandleFrame(header: Header, payload: seq<u8>, u: Unicode) returns (events: seq<Event>)
    ensures events == Handle(Frame(header, payload), u)
  {
    if header.msgType == 0x21 && |payload| > 0 {
      events := [VolumeChanged(payload[0])];
    } else if header.msgType == 0x31 {
      events := [Event.Error(CommandMessage(payload, u))];
    } else {
      events := [];
    }
  }

  /** The loop ends where the next frame is incomplete or too long. */
  lemma Stops(data: seq<u8>, u: Unicode)
    requires ParseHeader(data).Ok? ==>
               var n := ParseHeader(data).value.payloadLen;
               n > MAX_CLIENT_PAYLOAD || |data| - HEADER_SIZE < n
    ensures StreamEvents(data, u) == []
  {
  }

  /** Otherwise the next frame is handled and the loop goes on behind it. */
  lemma Continues(data: seq<u8>, end: nat, f: Frame, u: Unicode)
    requires ParseHeader(data).Ok? && f.header == ParseHeader(data).value
    requires f.header.payloadLen <= MAX_CLIENT_PAYLOAD && end == HEADER_SIZE + f.header.payloadLen <= |data|
    requires f.payload == data[HEADER_SIZE..end]
    ensures StreamEvents(data, u) == Handle(f, u) + StreamEvents(data[end..], u)
  {
    var fs := ParseStream(data[end..]).frames;
    assert ParseFrame(data) == Ok(f);
    assert ParseStream(data).frames == [f] + fs;
    assert ([f] + fs)[1..] == fs;
  }

  predicate Short(fs: seq<Frame>) {
    forall f | f in fs :: |f.payload| <= MAX_CLIENT_PAYLOAD
  }

  /** Frames of at most 256 bytes, sent back to back, are all handled, in order. */
  lemma ClientFramesHandled(fs: seq<Frame>, u: Unicode)
    requires Short(fs) && forall f | f in fs :: Consistent(f)
    ensures ParseStream(StreamBytes(fs)).frames == fs
    ensures StreamEvents(StreamBytes(fs), u) == AllEvents(fs, u)
  {
    StreamRoundTrip(fs, []);
    assert StreamBytes(fs) + [] == StreamBytes(fs);
    ShortEvents(fs, u);
  }

  predicate Sendable(fs: seq<Frame>) {
    Short(fs) && forall f | f in fs :: Consistent(f)
  }

  /** One more frame adds what it asks for behind what the frames before it asked for. */
  lemma OneMoreFrame(before: seq<Frame>, f: Frame, u: Unicode)
    requires Sendable(before) && Sendable([f])
    ensures StreamEvents(StreamBytes(before + [f]), u) == StreamEvents(StreamBytes(before), u) + Handle(f, u)
  {
    assert f in [f];
    ClientFramesHandled(before, u);
    ClientFramesHandled(before + [f], u);
    assert (before + [f])[..|before|] == before;
  }

  /** A volume frame sent by a client sets the volume to its first byte; the frames before it are handled first. */
  lemma ClientVolumeHandled(before: seq<Frame>, f: Frame, u: Unicode)
    requires Sendable(before) && Sendable([f]) && f.header.msgType == 0x21 && f.payload != []
    ensures StreamEvents(StreamBytes(before + [f]), u)
         == StreamEvents(StreamBytes(before), u) + [VolumeChanged(f.payload[0])]
  {
    OneMoreFrame(before, f, u);
    VolumeAsked(f, u);
  }

  lemma VolumeAsked(f: Frame, u: Unicode)
    requires f.header.msgType == 0x21 && f.payload != []
    ensures Handle(f, u) == [VolumeChanged(f.payload[0])]
  {
  }

  /** A command, sent as a text with any number of zeros behind it, comes with its first letter in upper case. */
  lemma ClientCommandHandled(before: seq<Frame>, f: Frame, text: string, u: Unicode)
    requires Sendable(before) && Sendable([f]) && f.header.msgType == 0x31
    requires text != [] && text[|text| - 1] != '\0' && text <= u.lossy(f.payload)
    requires forall i | |text| <= i < |u.lossy(f.payload)| :: u.lossy(f.payload)[i] == '\0'
    ensures StreamEvents(StreamBytes(before + [f]), u)
         == StreamEvents(StreamBytes(before), u) + [Event.Error("AVRCP:" + (u.upper(text[0]) + text[1..]))]
  {
    OneMoreFrame(before, f, u);
    CommandAsked(f, text, u, u.lossy(f.payload));
  }

  lemma CommandAsked(f: Frame, text: string, u: Unicode, received: string)
    requires f.header.msgType == 0x31 && received == u.lossy(f.payload)
    requires text != [] && text[|text| - 1] != '\0' && text <= received
    requires forall i | |text| <= i < |received| :: received[i] == '\0'
    ensures Handle(f, u) == [Event.Error("AVRCP:" + (u.upper(text[0]) + text[1..]))]
  {
    TrimNulIff(received, text);
  }

  /** The first frame longer than 256 bytes ends the reading: nothing from it on is handled. */
  lemma LongFrameEnds(fs: seq<Frame>, f: Frame, more: seq<Frame>, u: Unicode)
    requires Short(fs) && |f.payload| > 256 && forall g | g in fs + [f] + more :: Consistent(g)
    ensures StreamEvents(StreamBytes(fs + [f] + more), u) == AllEvents(fs, u)
  {
    var all := fs + [f] + more;
    StreamRoundTrip(all, []);
    assert StreamBytes(all) + [] == StreamBytes(all);
    EventsUntil(fs, f, more, u);
    ShortEvents(fs, u);
  }

  lemma {:induction false} EventsUntil(fs: seq<Frame>, f: Frame, more: seq<Frame>, u: Unicode)
    requires Short(fs) && |f.payload| > 256
    ensures Events(fs + [f] + more, u) == Events(fs, u)
  {
    var all := fs + [f] + more;
    if fs == [] {
      assert all[0] == f;
    } else {
      assert fs[0] in fs && all[0] == fs[0] && all[1..] == fs[1..] + [f] + more;
      EventsUntil(fs[1..], f, more, u);
    }
  }

  function AllEvents(fs: seq<Frame>, u: Unicode): seq<Event> {
    if fs == [] then [] else AllEvents(fs[..|fs| - 1], u) + Handle(fs[|fs| - 1], u)
  }

  lemma {:induction false} ShortEvents(fs: seq<Frame>, u: Unicode)
    requires Short(fs)
    ensures Events(fs, u) == AllEvents(fs, u)
  {
    if fs != [] {
      var init, last := fs[..|fs| - 1], fs[|fs| - 1];
      assert fs == init + [last];
      assert last in fs;
      ShortEvents(init, u);
      EventsSnoc(init, last, u);
    }
  }

  lemma {:induction false} EventsSnoc(fs: seq<Frame>, f: Frame, u: Unicode)
    requires Short(fs) && |f.payload| <= MAX_CLIENT_PAYLOAD
    ensures Events(fs + [f], u) == Events(fs, u) + Handle(f, u)
  {
    var all := fs + [f];
    if fs == [] {
      assert all == [f] && all[1..] == [];
      assert Events(all, u) == Handle(f, u) + Events([], u);
    } else {
      var tail := fs[1..];
      assert all[1..] == tail + [f] && all[0] == fs[0];
      assert fs[0] in fs;
      EventsSnoc(tail, f, u);
      assert Events(all, u) == Handle(fs[0], u) + (Events(tail, u) + Handle(f, u));
    }
  }

  // ---------------------------------------------------------------- broadcasting

  /** The clients whose writes succeeded, each with the new bytes behind what it already had. */
  function Retained(clients: seq<seq<u8>>, alive: seq<bool>, bytes: seq<u8>): seq<seq<u8>>
    requires |alive| == |clients|
  {
    if clients == [] then []
    else
      var n := |clients| - 1;
      Retained(clients[..n], alive[..n], bytes) + if alive[n] then [clients[n] + bytes] else []
  }

  /** How many of the first `n` writes succeed. */
  function Succeeded(alive: seq<bool>, n: nat): nat
    requires n <= |alive|
  {
    if n == 0 then 0 else Succeeded(alive, n - 1) + if alive[n - 1] then 1 else 0
  }

  /** A client whose write succeeds keeps its rank among those, with the bytes behind what it had; no other is kept. */
  lemma {:induction false} RetainedAt(clients: seq<seq<u8>>, alive: seq<bool>, bytes: seq<u8>, i: nat)
    requires |alive| == |clients|
    ensures |Retained(clients, alive, bytes)| == Succeeded(alive, |alive|)
    ensures i < |clients| && alive[i] ==>
              var rank := Succeeded(alive, i);
              rank < Succeeded(alive, |alive|) && Retained(clients, alive, bytes)[rank] == clients[i] + bytes
  {
    if clients != [] {
      var n := |clients| - 1;
      RetainedAt(clients[..n], alive[..n], bytes, i);
      SucceededPrefix(alive, n, n);
      if i <= n {
        SucceededPrefix(alive, n, i);
      }
    }
  }

  lemma {:induction false} SucceededPrefix(alive: seq<bool>, n: nat, i: nat)
    requires i <= n <= |alive|
    ensures Succeeded(alive[..n], i) == Succeeded(alive, i)
  {
    if i > 0 {
      SucceededPrefix(alive, n, i - 1);
    }
  }

  lemma {:induction false} StreamSnoc(fs: seq<Frame>, f: Frame)
    ensures StreamBytes(fs + [f]) == StreamBytes(fs) + FrameBytes(f)
  {
    if fs == [] {
      assert fs + [f] == [f] && [f][1..] == [];
      assert StreamBytes([f]) == FrameBytes(f) + [];
    } else {
      var rest := StreamBytes(fs[1..]);
      StreamSnoc(fs[1..], f);
      assert (fs + [f])[1..] == fs[1..] + [f];
      assert StreamBytes(fs + [f]) == FrameBytes(fs[0]) + (rest + FrameBytes(f));
      assert FrameBytes(fs[0]) + (rest + FrameBytes(f)) == FrameBytes(fs[0]) + rest + FrameBytes(f);
    }
  }

  predicate UpToDate(written: seq<u8>, since: nat, history: seq<Frame>) {
    since <= |history| && written == StreamBytes(history[since..])
  }

  ghost predicate AllUpToDate(clients: seq<seq<u8>>, joined: seq<nat>, history: seq<Frame>) {
    |joined| == |clients| && forall i | 0 <= i < |clients| :: UpToDate(clients[i], joined[i], history)
  }

  predicate HistoryNumbered(history: seq<Frame>, next: u32) {
    && next == |history| % 0x1_0000_0000
    && forall i | 0 <= i < |history| :: history[i].header.sequence == i % 0x1_0000_0000
  }

  lemma OneMoreClient(clients: seq<seq<u8>>, joined: seq<nat>, history: seq<Frame>)
    requires AllUpToDate(clients, joined, history)
    ensures AllUpToDate(clients + [[]], joined + [|history|], history)
  {
    assert history[|history|..] == [];
  }

  lemma OneMoreNumber(history: seq<Frame>, next: u32, f: Frame)
    requires HistoryNumbered(history, next) && f.header.sequence == next
    ensures HistoryNumbered(history + [f], WrapAdd32(next, 1))
  {
  }

  class Server {
    var seqNo: u32
    var clients: seq<seq<u8>>
    ghost var history: seq<Frame>
    ghost var joined: seq<nat>

    /** Every client still connected holds exactly the frames broadcast since it joined. */
    ghost predicate Valid()
      reads this
    {
      HistoryNumbered(history, seqNo) && AllUpToDate(clients, joined, history)
    }

    constructor ()
      ensures Valid() && history == [] && clients == []
    {
      seqNo, clients, history, joined := 0, [], [], [];
    }

    method Accept()
      requires Valid()
      modifies this
      ensures Valid()
      ensures history == old(history)
      ensures clients == old(clients) + [[]] && joined == old(joined) + [|history|]
    {
      OneMoreClient(clients, joined, history);
      clients := clients + [[]];
      joined := joined + [|history|];
    }

    /** Writes one frame to every client and keeps those whose writes succeed. */
    method Broadcast(msgType: u8, payload: seq<u8>, now: u64, alive: seq<bool>)
      requires Valid() && |alive| == |clients|
      modifies this
      ensures Valid()
      ensures history == old(history) + [NewFrame(msgType, old(seqNo), now, payload)]
      ensures clients == Retained(old(clients), alive, FrameBytes(NewFrame(msgType, old(seqNo), now, payload)))
    {
      var header := Header(msgType, seqNo, now, |payload| % 0x1_0000_0000);
      ghost var frame := NewFrame(msgType, seqNo, now, payload);
      OneMoreNumber(history, seqNo, frame);
      seqNo := WrapAdd32(seqNo, 1);
      clients, joined := RetainWritable(clients, alive, HeaderBytes(header), payload, joined, history, frame);
      history := history + [frame];
    }
  }

  /** Writes the header and the payload to every client and keeps those that took both. */
  method RetainWritable(clients: seq<seq<u8>>, alive: seq<bool>, headerBytes: seq<u8>, payload: seq<u8>,
                        ghost joined: seq<nat>, ghost history: seq<Frame>, ghost frame: Frame)
    returns (kept: seq<seq<u8>>, ghost keptJoined: seq<nat>)
    requires |alive| == |clients|
    requires headerBytes + payload == FrameBytes(frame)
    requires AllUpToDate(clients, joined, history)
    ensures kept == Retained(clients, alive, FrameBytes(frame))
    ensures AllUpToDate(kept, keptJoined, history + [frame])
  {
    kept, keptJoined := [], [];
    for i := 0 to |clients|
      invariant kept == Retained(clients[..i], alive[..i], FrameBytes(frame))
      invariant AllUpToDate(kept, keptJoined, history + [frame])
    {
      assert clients[..i + 1][..i] == clients[..i] && alive[..i + 1][..i] == alive[..i];
      if alive[i] {
        StaysUpToDate(clients[i], joined[i], history, frame);
        assert clients[i] + headerBytes + payload == clients[i] + FrameBytes(frame);
        kept := kept + [clients[i] + headerBytes + payload];
        keptJoined := keptJoined + [joined[i]];
      }
    }
    assert clients[..|clients|] == clients && alive[..|clients|] == alive;
  }

  lemma StaysUpToDate(written: seq<u8>, since: nat, history: seq<Frame>, f: Frame)
    requires UpToDate(written, since, history)
    ensures UpToDate(written + FrameBytes(f), since, history + [f])
  {
    StreamSnoc(history[since..], f);
    assert (history + [f])[since..] == history[since..] + [f];
  }

  /** A client that reads its stream by lengths finds the frames broadcast since it joined, and no more. */
  lemma ClientReadsHistory(server: Server, i: nat)
    requires server.Valid() && i < |server.clients|
    requires forall f | f in server.history :: Consistent(f)
    ensures ParseStream(server.clients[i]) == Parsed(server.history[server.joined[i]..], [])
  {
    var fs := server.history[server.joined[i]..];
    StreamRoundTrip(fs, []);
    assert StreamBytes(fs) + [] == StreamBytes(fs);
    assert UpToDate(server.clients[i], server.joined[i], server.history);
  }
}
