/** The runtime: engine lifecycle, the event queue with its synthetic releases, and the volume. */
module Runtime {
  import opened Words
  import opened Session
  import Pipeline
  import SinkEngine

  const MAX_VOLUME: u16 := 127
  const DEFAULT_SBC_CONFIG: seq<u8> := [0x48, 0x8A, 53, 53]

  /** A running audio engine: its volume, and whether its reader thread has not exited yet. */
  datatype Engine = Engine(volume: u16, alive: bool)

  datatype State = State(
    connected: bool, engine: Option<Engine>, queue: seq<Event>, codecConfig: seq<u8>,
    active: Option<string>, lastVolume: u16, running: bool, frames: u32, generation: u32)

  /**
   What the outside decides while an engine starts: whether the audio device and the thread come up,
   how many callbacks move audio before the start returns, and whether the reader thread has exited
   by the time the stream is marked as running.
   */
  datatype Attempt = Attempt(comesUp: bool, callbacks: u32, exited: bool)

  /** What BlueZ answers when asked for a transport. */
  datatype Reply = Granted | NotReady | Refused

  datatype Outcome = Done | NotConnected | TransportNotReady | TransportAcquire | EngineStart

  /** What a poll returns: nothing, a release made up for an engine found dead, or the next queued event. */
  datatype Answer = Nothing | Synthetic(path: string) | Queued(event: Event)

  datatype Write = Write(path: string, volume: u16)

  // ---------------------------------------------------------------- the operations on values

  function Clamp(v: u16): u16 {
    if v <= MAX_VOLUME then v else MAX_VOLUME
  }

  function IsStreaming(s: State): bool {
    s.engine.Some? && s.running
  }

  function GetVolume(s: State): u16 {
    if s.engine.Some? then s.engine.value.volume else s.lastVolume
  }

  /** An engine is there whose reader has marked the stream as stopped after audio had been played. */
  predicate FoundDead(s: State) {
    s.engine.Some? && !s.running && s.frames > 0
  }

  function PollAnswer(s: State): Answer {
    if FoundDead(s) then Synthetic(if s.active.Some? then s.active.value else "")
    else if s.queue != [] then Queued(s.queue[0])
    else Nothing
  }

  function Poll(s: State): State {
    if FoundDead(s) then s.(engine := None, active := None)
    else if s.queue == [] then s
    else if s.queue[0].CodecNegotiated? then s.(queue := s.queue[1..], codecConfig := s.queue[0].config)
    else s.(queue := s.queue[1..])
  }

  /** Joining a reader that is still alive marks the stream as stopped. */
  function StopStream(s: State): State {
    if s.engine.None? then s
    else s.(engine := None, active := None, running := s.running && !s.engine.value.alive)
  }

  function StartStream(s: State, config: seq<u8>, a: Attempt): State {
    var t := StopStream(s).(generation := WrapAdd32(s.generation, 1), frames := a.callbacks, running := false);
    if a.comesUp then
      t.(engine := Some(Engine(Clamp(s.lastVolume), !a.exited)), codecConfig := config, running := true)
    else t
  }

  function AcquireAndStart(s: State, path: string, reply: Reply, a: Attempt): State {
    if !s.connected || !reply.Granted? then s
    else
      var t := s.(queue := s.queue + [TransportAcquired(path)], active := Some(path));
      StartStream(t, if s.codecConfig == [] then DEFAULT_SBC_CONFIG else s.codecConfig, a)
  }

  function AcquireOutcome(s: State, reply: Reply, a: Attempt): Outcome {
    if !s.connected then NotConnected
    else match reply
      case NotReady => TransportNotReady
      case Refused => TransportAcquire
      case Granted => if a.comesUp then Done else EngineStart
  }

  function EngineVolume(e: Option<Engine>, v: u16): Option<Engine> {
    if e.Some? then Some(e.value.(volume := Clamp(v))) else None
  }

  /** Setting the volume here; from which side it is set decides only about the write to BlueZ. */
  function SetVolume(s: State, v: u16): State {
    s.(engine := EngineVolume(s.engine, Clamp(v)), lastVolume := Clamp(v))
  }

  /** The write to BlueZ: only for a new volume, and only with a connection and a transport. */
  function VolumeWrite(s: State, v: u16): Option<Write> {
    if Clamp(v) != s.lastVolume && s.connected && s.active.Some? then Some(Write(s.active.value, Clamp(v))) else None
  }

  // ---------------------------------------------------------------- the object

  class Runtime {
    const pipeline: Pipeline.AudioPipeline
    var connected: bool
    var engine: Option<Engine>
    var queue: seq<Event>
    var lastCodecConfig: seq<u8>
    var activeTransport: Option<string>
    var lastVolumeSent: u16

    constructor (sampleRate: u32, channels: u16, jitterMs: u32, dcfPayload: nat)
      ensures View() == Fresh()
      ensures fresh(pipeline) && fresh(pipeline.metrics)
    {
      pipeline := new Pipeline.AudioPipeline(sampleRate, channels, jitterMs, dcfPayload);
      connected, engine, queue, lastCodecConfig := false, None, [], [];
      activeTransport, lastVolumeSent := None, MAX_VOLUME;
    }

    function View(): State
      reads this, pipeline, pipeline.metrics
    {
      State(connected, engine, queue, lastCodecConfig, activeTransport, lastVolumeSent,
            pipeline.metrics.running, pipeline.metrics.framesProcessed, pipeline.generation)
    }

    method PollEvent() returns (event: Option<Event>)
      modifies this
      ensures View() == Poll(old(View()))
      ensures event == EventOf(PollAnswer(old(View())))
    {
      if engine.Some? && !pipeline.metrics.running && pipeline.metrics.framesProcessed > 0 {
        engine := None;
        var path := if activeTransport.Some? then activeTransport.value else "";
        activeTransport := None;
        return Some(TransportReleased(path));
      }
      if queue == [] {
        return None;
      }
      var e := queue[0];
      queue := queue[1..];
      if e.CodecNegotiated? {
        lastCodecConfig := e.config;
      }
      return Some(e);
    }

    method Stop()
      modifies this, pipeline.metrics
      ensures View() == StopStream(old(View()))
      ensures !Streaming() && GetVolume(View()) == lastVolumeSent
    {
      if engine.Some? {
        pipeline.metrics.running := pipeline.metrics.running && !engine.value.alive;
        engine := None;
        activeTransport := None;
      }
    }

    method Start(config: seq<u8>, a: Attempt) returns (outcome: Outcome)
      modifies this, pipeline`generation, pipeline.metrics
      ensures View() == StartStream(old(View()), config, a)
      ensures outcome == if a.comesUp then Done else EngineStart
      ensures Streaming() <==> outcome.Done?
    {
      if engine.Some? {
        Stop();
      }
      var ring := pipeline.CreateStreamBuffers();
      pipeline.metrics.framesProcessed := a.callbacks;
      if !a.comesUp {
        return EngineStart;
      }
      pipeline.metrics.running := true;
      engine := Some(Engine(Clamp(lastVolumeSent), !a.exited));
      lastCodecConfig := config;
      return Done;
    }

    method Acquire(path: string, reply: Reply, a: Attempt) returns (outcome: Outcome)
      modifies this, pipeline`generation, pipeline.metrics
      ensures View() == AcquireAndStart(old(View()), path, reply, a)
      ensures outcome == AcquireOutcome(old(View()), reply, a)
      ensures outcome == NotConnected <==> !connected
      ensures outcome == TransportNotReady <==> connected && reply == NotReady
      ensures outcome == TransportAcquire <==> connected && reply == Refused
      ensures outcome !in {Done, EngineStart} ==> View() == old(View())
      ensures outcome.Done? ==> Streaming()
    {
      if !connected {
        return NotConnected;
      }
      if reply.NotReady? {
        return TransportNotReady;
      }
      if reply.Refused? {
        return TransportAcquire;
      }
      queue := queue + [TransportAcquired(path)];
      activeTransport := Some(path);
      var config := if lastCodecConfig == [] then DEFAULT_SBC_CONFIG else lastCodecConfig;
      outcome := Start(config, a);
    }

    function Streaming(): bool
      reads this, pipeline, pipeline.metrics
    {
      engine.Some? && pipeline.metrics.running
    }

    /** Sets the volume here; `write` is what goes out to BlueZ. */
    method SetLocalVolume(volume: u16) returns (write: Option<Write>)
      modifies this
      ensures View() == SetVolume(old(View()), volume)
      ensures write == VolumeWrite(old(View()), volume)
      ensures lastVolumeSent == Min(volume, 127)
      ensures write.Some? <==> lastVolumeSent != old(lastVolumeSent) && connected && activeTransport.Some?
      ensures write.Some? ==> Some(write.value.path) == activeTransport && write.value.volume == lastVolumeSent
    {
      var v := Clamp(volume);
      if v == lastVolumeSent {
        if engine.Some? {
          engine := Some(engine.value.(volume := Clamp(v)));
        }
        return None;
      }
      if engine.Some? {
        engine := Some(engine.value.(volume := Clamp(v)));
      }
      lastVolumeSent := v;
      if connected && activeTransport.Some? {
        return Some(Write(activeTransport.value, v));
      }
      return None;
    }

    method SetRemoteVolume(volume: u16)
      modifies this
      ensures View() == SetVolume(old(View()), volume)
    {
      var v := Clamp(volume);
      if engine.Some? {
        engine := Some(engine.value.(volume := Clamp(v)));
      }
      lastVolumeSent := v;
    }
  }

  function EventOf(a: Answer): Option<Event> {
    match a
    case Nothing => None
    case Synthetic(path) => Some(TransportReleased(path))
    case Queued(e) => Some(e)
  }

  function Fresh(): State {
    State(false, None, [], [], None, MAX_VOLUME, false, 0, 0)
  }

  // ---------------------------------------------------------------- runs

  /** One step of a run: what the outside does, and the calls made on the runtime. */
  datatype Step =
    | Connect
    | Post(event: Event)
    | Callback
    | ReaderExits
    | PollStep
    | StartStep(config: seq<u8>, attempt: Attempt)
    | StopStep
    | AcquireStep(path: string, reply: Reply, attempt: Attempt)
    | LocalVolume(volume: u16)
    | RemoteVolume(volume: u16)

  /** A callback that moved audio. */
  function CallbackRuns(s: State): State {
    if s.engine.Some? then s.(frames := WrapAdd32(s.frames, 1)) else s
  }

  function ReaderGone(s: State): State {
    if s.engine.Some? && s.engine.value.alive then
      s.(engine := Some(s.engine.value.(alive := false)), running := false)
    else s
  }

  function Next(s: State, step: Step): State {
    match step
    case Connect => s.(connected := true)
    case Post(e) => s.(queue := s.queue + [e])
    case Callback => CallbackRuns(s)
    case ReaderExits => ReaderGone(s)
    case PollStep => Poll(s)
    case StartStep(config, a) => StartStream(s, config, a)
    case StopStep => StopStream(s)
    case AcquireStep(path, reply, a) => AcquireAndStart(s, path, reply, a)
    case LocalVolume(v) => SetVolume(s, v)
    case RemoteVolume(v) => SetVolume(s, v)
  }

  function Run(s: State, steps: seq<Step>): State {
    if steps == [] then s else Next(Run(s, steps[..|steps| - 1]), steps[|steps| - 1])
  }

  lemma {:induction false} RunAppend(s: State, a: seq<Step>, b: seq<Step>)
    ensures Run(s, a + b) == Run(Run(s, a), b)
  {
    if b == [] {
      assert a + b == a;
    } else {
      var n := |b| - 1;
      assert (a + b)[..|a + b| - 1] == a + b[..n];
      RunAppend(s, a, b[..n]);
    }
  }

  // ---------------------------------------------------------------- the volume

  /** The engine plays at the last volume set, and a live reader means the stream is marked as running. */
  predicate Inv(s: State) {
    && s.lastVolume <= MAX_VOLUME
    && (s.engine.Some? ==> s.engine.value.volume == s.lastVolume && (s.engine.value.alive ==> s.running))
  }

  lemma NextKeepsInv(s: State, step: Step)
    requires Inv(s)
    ensures Inv(Next(s, step))
    ensures Next(s, step).lastVolume
         == if step.LocalVolume? || step.RemoteVolume? then Clamp(step.volume) else s.lastVolume
  {
  }

  lemma {:induction false} RunKeepsInv(s: State, steps: seq<Step>)
    requires Inv(s)
    ensures Inv(Run(s, steps))
  {
    if steps != [] {
      var init := steps[..|steps| - 1];
      RunKeepsInv(s, init);
      NextKeepsInv(Run(s, init), steps[|steps| - 1]);
    }
  }

  /** The newest volume set by either side in a run, or `v` if none was. */
  function NewestSetting(v: u16, steps: seq<Step>): u16 {
    if steps == [] then v
    else
      var step := steps[|steps| - 1];
      if step.LocalVolume? || step.RemoteVolume? then Min(step.volume, 127)
      else NewestSetting(v, steps[..|steps| - 1])
  }

  /**
   Whatever engines start, stop, fail or die in between, the volume read back is the newest one set
   by either side, and the engine plays at it.
   */
  lemma {:induction false} VolumeSurvivesRestarts(s: State, steps: seq<Step>)
    requires Inv(s)
    ensures var t := Run(s, steps);
            GetVolume(t) == t.lastVolume == NewestSetting(s.lastVolume, steps)
  {
    RunKeepsInv(s, steps);
    if steps != [] {
      var init := steps[..|steps| - 1];
      VolumeSurvivesRestarts(s, init);
      RunKeepsInv(s, init);
      NextKeepsInv(Run(s, init), steps[|steps| - 1]);
    }
  }

  // ---------------------------------------------------------------- the events

  /** What a step puts into the queue. */
  function Sent(s: State, step: Step): seq<Event> {
    match step
    case Post(e) => [e]
    case AcquireStep(path, reply, _) => if s.connected && reply.Granted? then [TransportAcquired(path)] else []
    case _ => []
  }

  function AllSent(s: State, steps: seq<Step>): seq<Event> {
    if steps == [] then []
    else
      var init := steps[..|steps| - 1];
      AllSent(s, init) + Sent(Run(s, init), steps[|steps| - 1])
  }

  /** The answers of the polls of a run, in order. */
  function Answers(s: State, steps: seq<Step>): seq<Answer> {
    if steps == [] then []
    else
      var init := steps[..|steps| - 1];
      Answers(s, init) + if steps[|steps| - 1].PollStep? then [PollAnswer(Run(s, init))] else []
  }

  function QueuedOf(answers: seq<Answer>): seq<Event> {
    if answers == [] then []
    else
      var last := answers[|answers| - 1];
      QueuedOf(answers[..|answers| - 1]) + if last.Queued? then [last.event] else []
  }

  function Synthetics(answers: seq<Answer>): nat {
    if answers == [] then 0
    else Synthetics(answers[..|answers| - 1]) + if answers[|answers| - 1].Synthetic? then 1 else 0
  }

  lemma AnswerAppend(answers: seq<Answer>, a: Answer)
    ensures QueuedOf(answers + [a]) == QueuedOf(answers) + if a.Queued? then [a.event] else []
    ensures Synthetics(answers + [a]) == Synthetics(answers) + if a.Synthetic? then 1 else 0
  {
    assert (answers + [a])[..|answers|] == answers;
  }

  lemma AnswersAppend(s: State, steps: seq<Step>)
    requires steps != []
    ensures var init, step := steps[..|steps| - 1], steps[|steps| - 1];
            && QueuedOf(Answers(s, steps)) == QueuedOf(Answers(s, init)) + Taken(Run(s, init), step)
            && Synthetics(Answers(s, steps)) == Synthetics(Answers(s, init)) + Dies(Run(s, init), step)
  {
    var init, step := steps[..|steps| - 1], steps[|steps| - 1];
    if step.PollStep? {
      AnswerAppend(Answers(s, init), PollAnswer(Run(s, init)));
    } else {
      assert Answers(s, steps) == Answers(s, init);
    }
  }

  /** What a step takes out of the queue. */
  function Taken(s: State, step: Step): seq<Event> {
    if step.PollStep? && PollAnswer(s).Queued? then [PollAnswer(s).event] else []
  }

  /** Whether a step reports an engine dead. */
  function Dies(s: State, step: Step): nat {
    Indicator(step.PollStep? && FoundDead(s))
  }

  lemma NextQueue(s: State, step: Step)
    ensures s.queue + Sent(s, step) == Taken(s, step) + Next(s, step).queue
  {
  }

  lemma Regroup(q: seq<Event>, sent: seq<Event>, more: seq<Event>,
                got: seq<Event>, left: seq<Event>, taken: seq<Event>, rest: seq<Event>)
    requires q + sent == got + left && left + more == taken + rest
    ensures q + (sent + more) == (got + taken) + rest
  {
    assert q + (sent + more) == (q + sent) + more;
    assert (got + left) + more == got + (left + more);
    assert got + (taken + rest) == (got + taken) + rest;
  }

  /** Every event sent is returned by a poll or still queued: in order, none lost, none twice. */
  lemma {:induction false} EventDelivery(s: State, steps: seq<Step>)
    ensures s.queue + AllSent(s, steps) == QueuedOf(Answers(s, steps)) + Run(s, steps).queue
  {
    if steps != [] {
      var init, step := steps[..|steps| - 1], steps[|steps| - 1];
      var t := Run(s, init);
      EventDelivery(s, init);
      NextQueue(t, step);
      AnswersAppend(s, steps);
      Regroup(s.queue, AllSent(s, init), Sent(t, step),
              QueuedOf(Answers(s, init)), t.queue, Taken(t, step), Next(t, step).queue);
    }
  }

  // ---------------------------------------------------------------- the life of an engine

  /** The step brings an engine up. */
  predicate Begins(s: State, step: Step) {
    match step
    case StartStep(_, a) => a.comesUp
    case AcquireStep(_, reply, a) => s.connected && reply.Granted? && a.comesUp
    case _ => false
  }

  /** The step stops the engine that is there, to end the stream or to make room for the next one. */
  predicate Stops(s: State, step: Step) {
    && s.engine.Some?
    && match step
       case StopStep => true
       case StartStep(_, _) => true
       case AcquireStep(_, reply, _) => s.connected && reply.Granted?
       case _ => false
  }

  function Indicator(b: bool): nat {
    if b then 1 else 0
  }

  function Begun(s: State, steps: seq<Step>): nat {
    if steps == [] then 0
    else
      var init := steps[..|steps| - 1];
      Begun(s, init) + Indicator(Begins(Run(s, init), steps[|steps| - 1]))
  }

  function Stopped(s: State, steps: seq<Step>): nat {
    if steps == [] then 0
    else
      var init := steps[..|steps| - 1];
      Stopped(s, init) + Indicator(Stops(Run(s, init), steps[|steps| - 1]))
  }

  function Present(s: State): nat {
    Indicator(s.engine.Some?)
  }

  lemma NextEngine(s: State, step: Step)
    ensures Present(s) + Indicator(Begins(s, step))
         == Dies(s, step) + Indicator(Stops(s, step)) + Present(Next(s, step))
    ensures Next(s, step).engine.Some? && !Begins(s, step) ==> s.engine.Some? && Next(s, step).active == s.active
    ensures Next(s, step).engine.Some? && Begins(s, step) ==> Next(s, step).active == TransportOf(s, step)
  {
  }

  /**
   Every engine that comes up is stopped once, or reported dead by one synthetic release, or is still
   there. So synthetic releases never outnumber successful starts.
   */
  lemma {:induction false} EngineConservation(s: State, steps: seq<Step>)
    ensures Present(s) + Begun(s, steps)
         == Synthetics(Answers(s, steps)) + Stopped(s, steps) + Present(Run(s, steps))
  {
    if steps != [] {
      var init, step := steps[..|steps| - 1], steps[|steps| - 1];
      EngineConservation(s, init);
      NextEngine(Run(s, init), step);
      AnswersAppend(s, steps);
    }
  }

  /** The transport an engine is announced under when it dies, fixed by the step that began it. */
  function TransportOf(s: State, step: Step): Option<string> {
    if s.engine.Some? then None
    else if step.AcquireStep? then Some(step.path)
    else s.active
  }

  /** Step i began an engine, and that engine is still there after all of `steps`. */
  predicate BegunBy(s: State, steps: seq<Step>, i: nat) {
    && i < |steps|
    && var init, step := steps[..|steps| - 1], steps[|steps| - 1];
       if i == |steps| - 1 then Begins(Run(s, init), step)
       else BegunBy(s, init, i) && !Begins(Run(s, init), step) && Next(Run(s, init), step).engine.Some?
  }

  /**
   The engine there at the end of a run was begun by one step of it, and `active` is what that step
   left: the acquired path when it found no engine, nothing when it replaced one.
   */
  lemma {:induction false} EngineOrigin(s: State, steps: seq<Step>) returns (i: nat)
    requires s.engine.None? && Run(s, steps).engine.Some?
    ensures BegunBy(s, steps, i)
    ensures Run(s, steps).active == TransportOf(Run(s, steps[..i]), steps[i])
  {
    var n := |steps| - 1;
    var init := steps[..n];
    NextEngine(Run(s, init), steps[n]);
    if Begins(Run(s, init), steps[n]) {
      i := n;
    } else {
      i := EngineOrigin(s, init);
      assert init[..i] == steps[..i];
    }
  }

  /**
   A synthetic release carries the path of the acquisition that began the dead engine, whenever that
   acquisition found no engine; when it replaced one, the path is empty.
   */
  lemma SyntheticReleasePath(s: State, steps: seq<Step>) returns (i: nat)
    requires s.engine.None? && PollAnswer(Run(s, steps)).Synthetic?
    ensures BegunBy(s, steps, i)
    ensures var before, path := Run(s, steps[..i]), PollAnswer(Run(s, steps)).path;
            && (before.engine.None? && steps[i].AcquireStep? ==> path == steps[i].path)
            && (before.engine.Some? ==> path == "")
  {
    i := EngineOrigin(s, steps);
  }

  lemma OneMore(s: State, steps: seq<Step>, step: Step, more: seq<Step>)
    requires more == steps + [step]
    ensures Run(s, more) == Next(Run(s, steps), step)
  {
    assert more[..|steps|] == steps;
  }

  lemma RunOfFour(s: State, a: Step, b: Step, c: Step, d: Step)
    ensures Run(s, [a, b, c, d]) == Next(Next(Next(Next(s, a), b), c), d)
  {
    OneMore(s, [], a, [a]);
    OneMore(s, [a], b, [a, b]);
    OneMore(s, [a, b], c, [a, b, c]);
    OneMore(s, [a, b, c], d, [a, b, c, d]);
  }

  /**
   A run that loses the path: one transport is acquired, another one over the running engine, and the
   reader exits. The release announces no path, although "q" was the transport in use.
   */
  lemma PathIsLost(up: Attempt)
    requires up == Attempt(true, 1, false)
    ensures var steps := [Connect, AcquireStep("p", Granted, up), AcquireStep("q", Granted, up), ReaderExits];
            PollAnswer(Run(Fresh(), steps)) == Synthetic("")
  {
    RunOfFour(Fresh(), Connect, AcquireStep("p", Granted, up), AcquireStep("q", Granted, up), ReaderExits);
  }

  lemma {:induction false} AnswersOfAppend(s: State, a: seq<Step>, b: seq<Step>)
    ensures Answers(s, a + b) == Answers(s, a) + Answers(Run(s, a), b)
  {
    if b == [] {
      assert a + b == a;
    } else {
      var n := |b| - 1;
      assert (a + b)[..|a + b| - 1] == a + b[..n];
      AnswersOfAppend(s, a, b[..n]);
      RunAppend(s, a, b[..n]);
    }
  }

  // ---------------------------------------------------------------- transports and configurations

  /** The step acquires a transport. */
  predicate Acquires(s: State, step: Step) {
    step.AcquireStep? && s.connected && step.reply.Granted?
  }

  /** No step after the first `n` acquires a transport. */
  predicate NoneAcquired(s: State, steps: seq<Step>, n: nat) {
    |steps| > n ==>
      var init := steps[..|steps| - 1];
      NoneAcquired(s, init, n) && !Acquires(Run(s, init), steps[|steps| - 1])
  }

  lemma NextActive(s: State, step: Step)
    requires Next(s, step).active.Some?
    ensures Acquires(s, step) ==> Next(s, step).active == Some(step.path)
    ensures !Acquires(s, step) ==> s.active == Next(s, step).active
  {
  }

  /** The active transport is that of the newest acquisition granted. */
  lemma {:induction false} ActiveOrigin(s: State, steps: seq<Step>) returns (i: nat)
    requires s.active.None? && Run(s, steps).active.Some?
    ensures i < |steps| && Acquires(Run(s, steps[..i]), steps[i]) && NoneAcquired(s, steps, i + 1)
    ensures Run(s, steps).active == Some(steps[i].path)
  {
    var n := |steps| - 1;
    var init := steps[..n];
    NextActive(Run(s, init), steps[n]);
    if Acquires(Run(s, init), steps[n]) {
      i := n;
    } else {
      i := ActiveOrigin(s, init);
      assert init[..i] == steps[..i];
    }
  }

  /** A write to BlueZ goes to the transport of the newest acquisition granted, and carries the new volume. */
  lemma WritesToNewest(s: State, steps: seq<Step>, volume: u16) returns (i: nat)
    requires s.active.None? && VolumeWrite(Run(s, steps), volume).Some?
    ensures i < |steps| && Acquires(Run(s, steps[..i]), steps[i]) && NoneAcquired(s, steps, i + 1)
    ensures VolumeWrite(Run(s, steps), volume) == Some(Write(steps[i].path, Min(volume, 127)))
    ensures Run(s, steps).lastVolume != Min(volume, 127)
  {
    i := ActiveOrigin(s, steps);
  }

  /** The configuration a step announces: one negotiated and polled, or one an engine was started with directly. */
  function Announced(s: State, step: Step): Option<seq<u8>> {
    match step
    case PollStep =>
      if PollAnswer(s).Queued? && PollAnswer(s).event.CodecNegotiated? then Some(PollAnswer(s).event.config) else None
    case StartStep(config, a) => if a.comesUp then Some(config) else None
    case _ => None
  }

  /** The newest configuration announced in a run; none at all is the empty one. */
  function NewestConfig(s: State, steps: seq<Step>): seq<u8> {
    if steps == [] then []
    else
      var init := steps[..|steps| - 1];
      match Announced(Run(s, init), steps[|steps| - 1])
      case Some(config) => config
      case None => NewestConfig(s, init)
  }

  /** What is kept is the newest configuration announced, or the default once an acquisition has used it. */
  predicate KeepsConfig(kept: seq<u8>, newest: seq<u8>) {
    kept == newest || (newest == [] && kept == [0x48, 0x8A, 53, 53])
  }

  lemma NextConfig(s: State, step: Step, newest: seq<u8>)
    requires KeepsConfig(s.codecConfig, newest)
    ensures var more := Announced(s, step);
            KeepsConfig(Next(s, step).codecConfig, if more.Some? then more.value else newest)
    ensures step.AcquireStep? && Begins(s, step) ==>
              Next(s, step).codecConfig == if newest == [] then [0x48, 0x8A, 53, 53] else newest
  {
  }

  lemma {:induction false} RunConfig(s: State, steps: seq<Step>)
    requires s.codecConfig == []
    ensures KeepsConfig(Run(s, steps).codecConfig, NewestConfig(s, steps))
  {
    if steps != [] {
      var init := steps[..|steps| - 1];
      RunConfig(s, init);
      NextConfig(Run(s, init), steps[|steps| - 1], NewestConfig(s, init));
    }
  }

  /** An acquisition starts its engine with the newest configuration announced, or with the default for none. */
  lemma AcquiredConfig(s: State, steps: seq<Step>, step: Step)
    requires s.codecConfig == [] && step.AcquireStep? && Begins(Run(s, steps), step)
    ensures var newest := NewestConfig(s, steps);
            Next(Run(s, steps), step).codecConfig == if newest == [] then [0x48, 0x8A, 53, 53] else newest
  {
    RunConfig(s, steps);
    NextConfig(Run(s, steps), step, NewestConfig(s, steps));
  }

  // ---------------------------------------------------------------- what becomes of a reader's exit

  /** The step neither starts nor stops an engine. */
  predicate LeavesEngine(s: State, step: Step) {
    !step.StartStep? && !step.StopStep? && !(step.AcquireStep? && s.connected && step.reply.Granted?)
  }

  /** No step starts or stops an engine, and no poll finds one dead. */
  predicate Unreported(s: State, steps: seq<Step>) {
    steps != [] ==>
      var init, step := steps[..|steps| - 1], steps[|steps| - 1];
      Unreported(s, init) && LeavesEngine(Run(s, init), step) && Dies(Run(s, init), step) == 0
  }

  function Callbacks(steps: seq<Step>): nat {
    if steps == [] then 0
    else Callbacks(steps[..|steps| - 1]) + Indicator(steps[|steps| - 1].Callback?)
  }

  /** Where an engine stands: gone before its stream was marked as running, or later, and what it has played. */
  ghost predicate Stands(s: State, early: bool, late: bool, played: nat) {
    && s.engine.Some?
    && s.engine.value.alive == (!early && !late)
    && s.running == (early || !late)
    && s.frames == played % 0x1_0000_0000
  }

  lemma NextStands(s: State, step: Step, early: bool, late: bool, played: nat)
    requires Stands(s, early, late, played) && LeavesEngine(s, step) && Dies(s, step) == 0
    ensures Stands(Next(s, step), early, late || step.ReaderExits?, played + Indicator(step.Callback?))
  {
  }

  lemma {:induction false} RunStands(s: State, config: seq<u8>, a: Attempt, steps: seq<Step>)
    requires a.comesUp && Unreported(StartStream(s, config, a), steps)
    ensures var t := Run(StartStream(s, config, a), steps);
            Stands(t, a.exited, ReaderExits in steps, a.callbacks + Callbacks(steps))
  {
    if steps != [] {
      var init, step := steps[..|steps| - 1], steps[|steps| - 1];
      RunStands(s, config, a, init);
      var t := Run(StartStream(s, config, a), init);
      NextStands(t, step, a.exited, ReaderExits in init, a.callbacks + Callbacks(init));
      SeenBefore(steps);
    }
  }

  lemma SeenBefore(steps: seq<Step>)
    requires steps != []
    ensures var init, step := steps[..|steps| - 1], steps[|steps| - 1];
            ReaderExits in steps <==> ReaderExits in init || step.ReaderExits?
  {
    assert steps == steps[..|steps| - 1] + [steps[|steps| - 1]];
  }

  /**
   After a successful start and any steps that neither start nor stop an engine nor report one dead, the
   next poll reports this one exactly if its reader was still there when the stream was marked as
   running, has exited since, and the callbacks that moved audio, counted in 32 bits, are not zero.
   */
  lemma DeadReaderFoundIff(s: State, config: seq<u8>, a: Attempt, steps: seq<Step>)
    requires a.comesUp && Unreported(StartStream(s, config, a), steps)
    ensures PollAnswer(Run(StartStream(s, config, a), steps)).Synthetic? <==>
      && !a.exited
      && ReaderExits in steps
      && (a.callbacks + Callbacks(steps)) % 0x1_0000_0000 > 0
  {
    RunStands(s, config, a, steps);
    var t, late, played := Run(StartStream(s, config, a), steps), ReaderExits in steps, a.callbacks + Callbacks(steps);
    AnswerWhereStands(t, a.exited, late, played);
  }

  lemma AnswerWhereStands(s: State, early: bool, late: bool, played: nat)
    requires Stands(s, early, late, played)
    ensures PollAnswer(s).Synthetic? <==> !early && late && played % 0x1_0000_0000 > 0
  {
  }

  /** No step starts or stops an engine. */
  predicate LeaveEngine(s: State, steps: seq<Step>) {
    steps != [] ==>
      var init := steps[..|steps| - 1];
      LeaveEngine(s, init) && LeavesEngine(Run(s, init), steps[|steps| - 1])
  }

  /**
   A reader that exits before its stream is marked as running is never found dead: until an engine is
   started or stopped the stream counts as running, and no synthetic release is made.
   */
  lemma {:induction false} EarlyExitUnnoticed(s: State, config: seq<u8>, a: Attempt, steps: seq<Step>)
    requires a.comesUp && a.exited && LeaveEngine(StartStream(s, config, a), steps)
    ensures var t := StartStream(s, config, a);
            && Unreported(t, steps)
            && IsStreaming(Run(t, steps)) && !Run(t, steps).engine.value.alive
            && Synthetics(Answers(t, steps)) == 0
  {
    var t := StartStream(s, config, a);
    if steps != [] {
      var init := steps[..|steps| - 1];
      EarlyExitUnnoticed(s, config, a, init);
      AnswersAppend(t, steps);
    }
    RunStands(s, config, a, steps);
  }
}
