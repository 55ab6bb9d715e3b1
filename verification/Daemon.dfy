/** The handler of the event loop as the program runs it, on the runtime object and the stored session. */
module Daemon {
  import opened Words
  import S = Session
  import opened R = Runtime
  import opened C = ControlPlane

  /** What handling an event does to the runtime when nothing happens in between. */
  function HandleRuntime(s: State, e: S.Event, c: Choice): State {
    match e
    case DeviceDisconnected(_) => if IsStreaming(s) then StopStream(s) else s
    case TransportPending(path) => if IsStreaming(s) then s else AcquireAndStart(s, path, c.reply, c.attempt)
    case TransportReleased(_) => StopStream(s)
    case VolumeChanged(v) => SetVolume(s, v)
    case Error(message) =>
      var v := AskedVolume(message, GetVolume(s));
      if v.Some? then SetVolume(s, v.value) else s
    case _ => s
  }

  /** The stored session and the runtime between two rounds of the event loop. */
  datatype Desk = Desk(session: S.Session, rt: State)

  /** One round: the next event, synthetic or queued, is handled; without one nothing changes. */
  function RoundOf(d: Desk, c: Choice): Desk {
    match EventOf(PollAnswer(d.rt))
    case Some(e) => Desk(S.HandleSession(d.session, e), HandleRuntime(Poll(d.rt), e, c))
    case None => d
  }

  class Daemon {
    const runtime: R.Runtime
    var session: S.Session

    constructor (runtime: R.Runtime)
      ensures this.runtime == runtime && session == S.IdleSession
    {
      this.runtime, session := runtime, S.IdleSession;
    }

    method HandleEvent(e: S.Event, c: Choice)
      modifies this, runtime, runtime.pipeline`generation, runtime.pipeline.metrics
      ensures session == S.HandleSession(old(session), e)
      ensures runtime.View() == HandleRuntime(old(runtime.View()), e, c)
      ensures S.EndsStreaming(e) ==> !runtime.Streaming() && !session.OpenSession? && !session.StreamingSession?
    {
      match e
      case DeviceConnected(_) =>
      case DeviceDisconnected(_) =>
        if runtime.Streaming() {
          runtime.Stop();
        }
        var next := S.DriveEventPure(session, S.EvAbort);
        session := if next.Some? then next.value else session;
      case TransportPending(path) =>
        if !runtime.Streaming() {
          var outcome := runtime.Acquire(path, c.reply, c.attempt);
        }
      case TransportAcquired(path) =>
        session := S.DriveEvent(session, S.EvTransportOpened(path));
        session := S.DriveEvent(session, S.EvStreamStarted);
      case TransportReleased(_) =>
        runtime.Stop();
        session := S.DriveEvent(session, S.EvTransportClosed);
      case CodecNegotiated(name, _) =>
        session := S.DriveEvent(session, S.EvCodecConfigured(S.CodecOf(name), [], name));
      case VolumeChanged(volume) =>
        runtime.SetRemoteVolume(volume);
      case Error(message) =>
        var v := AskedVolume(message, GetVolume(runtime.View()));
        if v.Some? {
          var write := runtime.SetLocalVolume(v.value);
        }
    }

    /** One round of the event loop: the next event, synthetic or queued, is handled; without one nothing changes. */
    method Round(c: Choice)
      modifies this, runtime, runtime.pipeline`generation, runtime.pipeline.metrics
      ensures Desk(session, runtime.View()) == RoundOf(old(Desk(session, runtime.View())), c)
    {
      var event := runtime.PollEvent();
      if event.Some? {
        HandleEvent(event.value, c);
      }
    }
  }

  // ---------------------------------------------------------------- a stream comes up and goes down

  /** What three rounds make of a negotiation and a pending transport: the codec is set, then audio streams. */
  lemma StreamComesUp(s: State, name: string, config: seq<u8>, path: string, c: Choice, r1: Desk, r2: Desk, r3: Desk)
    requires s.connected && s.engine.None? && c.reply.Granted? && c.attempt.comesUp
    requires s.queue == [S.CodecNegotiated(name, config), S.TransportPending(path)]
    requires r1 == RoundOf(Desk(S.IdleSession, s), c) && r2 == RoundOf(r1, c) && r3 == RoundOf(r2, c)
    ensures r1.session == S.ConfiguredSession(S.CodecOf(name), [], name) && !IsStreaming(r1.rt)
    ensures r2.session == r1.session && IsStreaming(r2.rt)
    ensures r3.session == S.StreamingSession(S.CodecOf(name), [], name, path) && IsStreaming(r3.rt)
    ensures r3.rt.queue == [] && r3.rt.active == Some(path) && GetVolume(r3.rt) == Clamp(s.lastVolume)
    ensures r3.rt.codecConfig == if config == [] then DEFAULT_SBC_CONFIG else config
  {
  }

  /** A pending transport is acquired exactly if nothing streams yet; it streams then exactly if all goes well. */
  lemma PendingStreamsIff(s: State, path: string, c: Choice)
    ensures var t := HandleRuntime(s, S.TransportPending(path), c);
            && (IsStreaming(t) <==> IsStreaming(s) || (s.connected && c.reply.Granted? && c.attempt.comesUp))
            && (S.TransportAcquired(path) in t.queue[|s.queue|..] <==>
                  !IsStreaming(s) && s.connected && c.reply.Granted?)
  {
  }

  /** After a release or a disconnection nothing streams, whatever was going on; neither touches the volume. */
  lemma StreamGoesDown(s: State, e: S.Event, c: Choice)
    requires R.Inv(s) && S.EndsStreaming(e)
    ensures var t := HandleRuntime(s, e, c);
            !IsStreaming(t) && GetVolume(t) == GetVolume(s)
  {
  }

  function HandleAll(s: State, events: seq<S.Event>, c: Choice): State {
    if events == [] then s
    else HandleRuntime(HandleAll(s, events[..|events| - 1], c), events[|events| - 1], c)
  }

  lemma KeyPressed(s: State, message: string, c: Choice)
    requires R.Inv(s)
    ensures var t := HandleRuntime(s, S.Error(message), c);
            && R.Inv(t)
            && (ParseCommand(message) == Some(VolumeUp) ==> GetVolume(t) == Min(127, GetVolume(s) + 10))
            && (ParseCommand(message) == Some(VolumeDown) ==> GetVolume(t) == Max(0, GetVolume(s) - 10))
  {
  }

  lemma HandleOneMore(s: State, message: string, c: Choice, k: nat)
    ensures HandleAll(s, seq(k + 1, _ => S.Error(message)), c)
         == HandleRuntime(HandleAll(s, seq(k, _ => S.Error(message)), c), S.Error(message), c)
  {
    assert seq(k + 1, _ => S.Error(message))[..k] == seq(k, _ => S.Error(message));
  }

  /** Each volume command moves the volume by ten, up to 127 and down to 0. */
  lemma {:induction false} VolumeKeys(s: State, c: Choice, up: string, down: string, k: nat)
    requires R.Inv(s) && ParseCommand(up) == Some(VolumeUp) && ParseCommand(down) == Some(VolumeDown)
    ensures var louder := HandleAll(s, seq(k, _ => S.Error(up)), c);
            var quieter := HandleAll(s, seq(k, _ => S.Error(down)), c);
            && R.Inv(louder) && GetVolume(louder) == Min(127, GetVolume(s) + 10 * k)
            && R.Inv(quieter) && GetVolume(quieter) == Max(0, GetVolume(s) - 10 * k)
  {
    if k > 0 {
      VolumeKeys(s, c, up, down, k - 1);
      HandleOneMore(s, up, c, k - 1);
      HandleOneMore(s, down, c, k - 1);
      KeyPressed(HandleAll(s, seq(k - 1, _ => S.Error(up)), c), up, c);
      KeyPressed(HandleAll(s, seq(k - 1, _ => S.Error(down)), c), down, c);
    }
  }

  // ---------------------------------------------------------------- against the single calls

  function HandlerSteps(e: S.Event): nat {
    if e.DeviceDisconnected? then 3 else if e.TransportPending? || e.TransportReleased? then 2 else 1
  }

  /** Left alone, the single calls on an event taken come to exactly what the handler does. */
  lemma UninterruptedHandling(m: Machine, e: S.Event, c: Choice)
    requires m.control == Took(e)
    ensures var moves := seq(HandlerSteps(e), _ => LoopStep(c));
            var t := After(m, moves);
            && t.control.Idle? && t.handled == m.handled + [e]
            && t.session == S.HandleSession(m.session, e)
            && t.rt == HandleRuntime(m.rt, e, c)
  {
    var moves := seq(HandlerSteps(e), _ => LoopStep(c));
    var one := Moved(m, LoopStep(c));
    var two := Moved(one, LoopStep(c));
    assert After(m, moves[..1]) == one by {
      assert moves[..1][..0] == [];
    }
    if HandlerSteps(e) >= 2 {
      assert moves[..2][..1] == moves[..1];
      assert After(m, moves[..2]) == two;
    }
    assert moves[..HandlerSteps(e)] == moves;
  }
}
