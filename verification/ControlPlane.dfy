/**
 The control plane: the event loop that polls the runtime and drives the session, with everything
 that can happen between its single calls.
 */
module ControlPlane {
  import opened Words
  import opened Session
  import opened R = Runtime

  // ---------------------------------------------------------------- commands inside error events

  datatype Command =
    | Play | Pause | StopPlayback | NextTrack | PreviousTrack | FastForward | Rewind
    | VolumeUp | VolumeDown

  predicate IsSpace(c: char) {
    c == ' ' || '\t' <= c <= '\r'
  }

  function StripStart(s: string): string {
    if s != [] && IsSpace(s[0]) then StripStart(s[1..]) else s
  }

  function StripEnd(s: string): string {
    if s != [] && IsSpace(s[|s| - 1]) then StripEnd(s[..|s| - 1]) else s
  }

  function ParseCommand(message: string): Option<Command> {
    var t := Lower(StripEnd(StripStart(message)));
    if t == "avrcp:play" then Some(Play)
    else if t == "avrcp:pause" then Some(Pause)
    else if t == "avrcp:stop" then Some(StopPlayback)
    else if t == "avrcp:next" then Some(NextTrack)
    else if t == "avrcp:previous" then Some(PreviousTrack)
    else if t == "avrcp:fastforward" then Some(FastForward)
    else if t == "avrcp:rewind" then Some(Rewind)
    else if t == "avrcp:volumeup" then Some(VolumeUp)
    else if t == "avrcp:volumedown" then Some(VolumeDown)
    else None
  }

  /** Neither the case of letters nor space around a command makes a difference. */
  lemma CommandLoosely(before: string, message: string, after: string, other: string)
    requires (forall c | c in before :: IsSpace(c)) && forall c | c in after :: IsSpace(c)
    requires Lower(message) == Lower(other)
    ensures ParseCommand(before + message + after) == ParseCommand(other)
  {
    StripSurrounded(before, message, after);
    StripAlike(message, other);
  }

  /** The two commands that change the volume, as the program's clients write them. */
  lemma VolumeCommands()
    ensures ParseCommand("AVRCP:VolumeUp") == Some(VolumeUp) && ParseCommand("AVRCP:VolumeDown") == Some(VolumeDown)
  {
    assert Lower("AVRCP:VolumeUp") == "avrcp:volumeup" && Lower("AVRCP:VolumeDown") == "avrcp:volumedown";
  }

  function Stripped(s: string): string {
    StripEnd(StripStart(s))
  }

  lemma {:induction false} StripStartSpaces(before: string, s: string)
    requires forall c | c in before :: IsSpace(c)
    ensures StripStart(before + s) == StripStart(s)
  {
    if before == [] {
      assert before + s == s;
    } else {
      assert (before + s)[1..] == before[1..] + s && before[0] in before;
      StripStartSpaces(before[1..], s);
    }
  }

  lemma {:induction false} StripEndSpaces(s: string, after: string)
    requires forall c | c in after :: IsSpace(c)
    ensures StripEnd(s + after) == StripEnd(s)
  {
    if after == [] {
      assert s + after == s;
    } else {
      var n := |after| - 1;
      assert (s + after)[..|s + after| - 1] == s + after[..n] && after[n] in after;
      StripEndSpaces(s, after[..n]);
    }
  }

  /** Spaces at the end come off either way: with the ones in front, if there is nothing else. */
  lemma {:induction false} StripStartBefore(s: string, after: string)
    requires forall c | c in after :: IsSpace(c)
    ensures StripEnd(StripStart(s + after)) == StripEnd(StripStart(s))
  {
    if s == [] {
      assert s + after == after + [];
      StripStartSpaces(after, []);
    } else if IsSpace(s[0]) {
      assert (s + after)[1..] == s[1..] + after;
      StripStartBefore(s[1..], after);
    } else {
      StripEndSpaces(s, after);
    }
  }

  lemma StripSurrounded(before: string, s: string, after: string)
    requires (forall c | c in before :: IsSpace(c)) && forall c | c in after :: IsSpace(c)
    ensures Stripped(before + s + after) == Stripped(s)
  {
    assert before + s + after == before + (s + after);
    StripStartSpaces(before, s + after);
    StripStartBefore(s, after);
  }

  lemma LowerSpace(c: char)
    ensures IsSpace(LowerChar(c)) <==> IsSpace(c)
  {
  }

  lemma {:induction false} LowerStripStart(s: string)
    ensures Lower(StripStart(s)) == StripStart(Lower(s))
  {
    if s != [] {
      LowerSpace(s[0]);
      assert Lower(s)[1..] == Lower(s[1..]);
      LowerStripStart(s[1..]);
    }
  }

  lemma {:induction false} LowerStripEnd(s: string)
    ensures Lower(StripEnd(s)) == StripEnd(Lower(s))
  {
    if s != [] {
      var n := |s| - 1;
      LowerSpace(s[n]);
      assert Lower(s)[..n] == Lower(s[..n]);
      LowerStripEnd(s[..n]);
    }
  }

  lemma StripAlike(s: string, t: string)
    requires Lower(s) == Lower(t)
    ensures Lower(Stripped(s)) == Lower(Stripped(t))
  {
    LowerStripStart(s);
    LowerStripStart(t);
    LowerStripEnd(StripStart(s));
    LowerStripEnd(StripStart(t));
  }

  /** The volume a message asks for, given the current one. */
  function AskedVolume(message: string, current: u16): Option<u16> {
    match ParseCommand(message)
    case Some(VolumeUp) => Some(Min(MAX_VOLUME, current + 10))
    case Some(VolumeDown) => Some(Max(0, current - 10))
    case _ => None
  }

  // ---------------------------------------------------------------- the machine

  /** Where the loop is: between events, or holding one, with its first question asked or its calls made. */
  datatype Control =
    | Idle
    | Took(event: Event)
    | Asked(event: Event, streaming: bool)
    | Quiet(event: Event)

  /**
   The daemon and the volume at BlueZ, with BlueZ's signals that the runtime has not received yet, in
   order. The last two fields count for the record.
   */
  datatype Machine = Machine(
    rt: State, session: Session, control: Control, handled: seq<Event>,
    bluez: u16, flight: seq<Event>, writes: nat, localSets: nat)

  /** What the outside decides during one step of the loop. */
  datatype Choice = Choice(reply: Reply, attempt: Attempt, accepted: bool)

  datatype Move =
    | Posted(event: Event)
    | BluezVolume(volume: u16)
    | SignalArrives
    | OutputCallback
    | ReaderExit
    | LoopStep(choice: Choice)
    | ClientVolume(volume: u16, accepted: bool)

  function TakeEvent(m: Machine): Machine {
    var answer := EventOf(PollAnswer(m.rt));
    m.(rt := Poll(m.rt), control := if answer.Some? then Took(answer.value) else Idle)
  }

  /** The session part of handling, which ends it. */
  function Finish(m: Machine, e: Event): Machine {
    m.(session := HandleSession(m.session, e), control := Idle, handled := m.handled + [e])
  }

  /** BlueZ takes an accepted write, and signals it if it changes its volume. */
  function Signal(m: Machine, v: u16, accepted: bool): seq<Event> {
    var w := VolumeWrite(m.rt, v);
    if w.Some? && accepted && w.value.volume != m.bluez then [VolumeChanged(w.value.volume)] else []
  }

  function SetLocally(m: Machine, v: u16, accepted: bool): Machine {
    var w := VolumeWrite(m.rt, v);
    m.(rt := SetVolume(m.rt, v),
       flight := m.flight + Signal(m, v, accepted),
       bluez := if w.Some? && accepted then w.value.volume else m.bluez,
       writes := m.writes + (if w.Some? then 1 else 0),
       localSets := m.localSets + 1)
  }

  /** The first call on an event just taken. */
  function First(m: Machine, e: Event, c: Choice): Machine {
    match e
    case DeviceDisconnected(_) => m.(control := Asked(e, IsStreaming(m.rt)))
    case TransportPending(_) => m.(control := Asked(e, IsStreaming(m.rt)))
    case TransportReleased(_) => m.(rt := StopStream(m.rt), control := Quiet(e))
    case VolumeChanged(v) => Finish(m.(rt := SetVolume(m.rt, v)), e)
    case Error(message) =>
      var v := AskedVolume(message, GetVolume(m.rt));
      Finish(if v.Some? then SetLocally(m, v.value, c.accepted) else m, e)
    case _ => Finish(m, e)
  }

  /** The call after the question whether audio is streaming. */
  function Second(m: Machine, e: Event, streaming: bool, c: Choice): Machine {
    match e
    case TransportPending(path) =>
      Finish(if streaming then m else m.(rt := AcquireAndStart(m.rt, path, c.reply, c.attempt)), e)
    case _ => m.(rt := if streaming then StopStream(m.rt) else m.rt, control := Quiet(e))
  }

  /** One step of the loop: a poll, or the next call of the handler. */
  function Loop(m: Machine, c: Choice): Machine {
    match m.control
    case Idle => TakeEvent(m)
    case Took(e) => First(m, e, c)
    case Asked(e, streaming) => Second(m, e, streaming, c)
    case Quiet(e) => Finish(m, e)
  }

  /** One move of anyone; a move that is not possible changes nothing. */
  function Moved(m: Machine, move: Move): Machine {
    match move
    case Posted(e) => m.(rt := m.rt.(queue := m.rt.queue + [e]))
    case BluezVolume(v) =>
      if v == m.bluez || v > MAX_VOLUME then m
      else m.(bluez := v, flight := m.flight + [VolumeChanged(v)])
    case SignalArrives =>
      if m.flight == [] then m
      else m.(rt := m.rt.(queue := m.rt.queue + [m.flight[0]]), flight := m.flight[1..])
    case OutputCallback => m.(rt := CallbackRuns(m.rt))
    case ReaderExit => m.(rt := ReaderGone(m.rt))
    case LoopStep(c) => Loop(m, c)
    case ClientVolume(v, accepted) => SetLocally(m, v, accepted)
  }

  function After(m: Machine, moves: seq<Move>): Machine {
    if moves == [] then m else Moved(After(m, moves[..|moves| - 1]), moves[|moves| - 1])
  }

  /** The daemon before its first poll. */
  predicate Initial(m: Machine) {
    && R.Inv(m.rt)
    && m.session.IdleSession? && m.control.Idle?
    && m.handled == [] && m.writes == m.localSets == 0
  }

  // ---------------------------------------------------------------- session and engine at teardown

  /** The session is what the handled events make it; once the handler is quiet the audio has stopped. */
  ghost predicate Agreement(m: Machine) {
    && m.session == SessionAfter(m.handled)
    && (m.control.Quiet? ==> !IsStreaming(m.rt) && EndsStreaming(m.control.event))
    && (m.control.Asked? ==> m.control.event.DeviceDisconnected? || m.control.event.TransportPending?)
    && (m.control.Asked? && !m.control.streaming ==> !IsStreaming(m.rt))
  }

  lemma FinishAgrees(m: Machine, e: Event)
    requires m.session == SessionAfter(m.handled)
    ensures Finish(m, e).session == SessionAfter(Finish(m, e).handled)
  {
    assert (m.handled + [e])[..|m.handled|] == m.handled;
  }

  lemma TookAgrees(m: Machine, c: Choice)
    requires Agreement(m) && m.control.Took?
    ensures Agreement(First(m, m.control.event, c))
  {
    var e := m.control.event;
    match e
    case VolumeChanged(v) => FinishAgrees(m.(rt := SetVolume(m.rt, v)), e);
    case Error(message) => ErrorAgrees(m, e, AskedVolume(message, GetVolume(m.rt)), c.accepted);
    case _ => FinishAgrees(m, e);
  }

  lemma ErrorAgrees(m: Machine, e: Event, v: Option<u16>, accepted: bool)
    requires Agreement(m)
    ensures Agreement(Finish(if v.Some? then SetLocally(m, v.value, accepted) else m, e))
  {
    if v.Some? {
      FinishAgrees(SetLocally(m, v.value, accepted), e);
    } else {
      FinishAgrees(m, e);
    }
  }

  lemma AskedAgrees(m: Machine, c: Choice)
    requires Agreement(m) && m.control.Asked?
    ensures Agreement(Second(m, m.control.event, m.control.streaming, c))
  {
    FinishAgrees(m, m.control.event);
  }

  lemma LoopKeepsAgreement(m: Machine, c: Choice)
    requires Agreement(m)
    ensures Agreement(Loop(m, c))
  {
    match m.control
    case Idle =>
    case Took(_) => TookAgrees(m, c);
    case Asked(_, _) => AskedAgrees(m, c);
    case Quiet(e) => FinishAgrees(m, e);
  }

  lemma {:induction false} RunKeepsAgreement(m: Machine, moves: seq<Move>)
    requires Initial(m)
    ensures Agreement(After(m, moves))
  {
    if moves != [] {
      var n := |moves| - 1;
      RunKeepsAgreement(m, moves[..n]);
      if moves[n].LoopStep? {
        LoopKeepsAgreement(After(m, moves[..n]), moves[n].choice);
      }
    }
  }

  /** In every run the stored session is the one the handled events make, and is Idle, Configured or Streaming. */
  lemma SessionFollowsHistory(m: Machine, moves: seq<Move>)
    requires Initial(m)
    ensures var t := After(m, moves);
            && t.session == SessionAfter(t.handled)
            && (t.session.IdleSession? || t.session.ConfiguredSession? || t.session.StreamingSession?)
  {
    RunKeepsAgreement(m, moves);
    StoredStates(After(m, moves).handled);
  }

  /** The last move of the run finishes handling `e`. */
  ghost predicate Finishes(m: Machine, moves: seq<Move>, e: Event) {
    moves != [] && After(m, moves).handled == After(m, moves[..|moves| - 1]).handled + [e]
  }

  /**
   Whatever reader threads, callbacks, BlueZ and clients do between the calls of the handler: when it
   finishes a release or a disconnection, nothing is streaming and the session is neither open nor
   streaming; after a disconnection it is idle.
   */
  lemma TeardownAgreement(m: Machine, moves: seq<Move>, e: Event)
    requires Initial(m) && Finishes(m, moves, e) && EndsStreaming(e)
    ensures var t := After(m, moves);
            && !IsStreaming(t.rt)
            && (t.session.IdleSession? || t.session.ConfiguredSession?)
            && (e.DeviceDisconnected? ==> t.session.IdleSession?)
  {
    var n := |moves| - 1;
    var before := After(m, moves[..n]);
    RunKeepsAgreement(m, moves[..n]);
    StoredStates(before.handled);
    FinishedFromQuiet(before, moves[n], e);
  }

  /** A release or a disconnection is finished by the last step of its handler only. */
  lemma FinishedFromQuiet(m: Machine, move: Move, e: Event)
    requires Agreement(m) && Moved(m, move).handled == m.handled + [e] && EndsStreaming(e)
    ensures m.control == Quiet(e) && Moved(m, move) == Finish(m, e)
  {
    assert (m.handled + [e])[|m.handled|] == e;
    if move.LoopStep? && !m.control.Idle? {
      assert (m.handled + [m.control.event])[|m.handled|] == m.control.event;
    }
  }

  // ---------------------------------------------------------------- the machine runs the runtime

  function LoopCalls(m: Machine, c: Choice): seq<Step> {
    match m.control
    case Idle => [PollStep]
    case Took(TransportReleased(_)) => [StopStep]
    case Took(VolumeChanged(v)) => [RemoteVolume(v)]
    case Took(Error(message)) =>
      var v := AskedVolume(message, GetVolume(m.rt));
      if v.Some? then [LocalVolume(v.value)] else []
    case Asked(TransportPending(path), streaming) =>
      if streaming then [] else [AcquireStep(path, c.reply, c.attempt)]
    case Asked(_, streaming) => if streaming then [StopStep] else []
    case _ => []
  }

  /** The runtime steps one move amounts to. */
  function Calls(m: Machine, move: Move): seq<Step> {
    match move
    case Posted(e) => [Post(e)]
    case BluezVolume(_) => []
    case SignalArrives => if m.flight == [] then [] else [Post(m.flight[0])]
    case OutputCallback => [Callback]
    case ReaderExit => [ReaderExits]
    case LoopStep(c) => LoopCalls(m, c)
    case ClientVolume(v, _) => [LocalVolume(v)]
  }

  function Trace(m: Machine, moves: seq<Move>): seq<Step> {
    if moves == [] then []
    else
      var init := moves[..|moves| - 1];
      Trace(m, init) + Calls(After(m, init), moves[|moves| - 1])
  }

  lemma OneStep(s: State, step: Step)
    ensures R.Run(s, [step]) == R.Next(s, step)
    ensures Answers(s, [step]) == if step.PollStep? then [PollAnswer(s)] else []
  {
    assert [step][..0] == [];
    assert R.Run(s, []) == s && Answers(s, []) == [];
  }

  lemma CallsRun(m: Machine, move: Move)
    ensures R.Run(m.rt, Calls(m, move)) == Moved(m, move).rt
    ensures Answers(m.rt, Calls(m, move)) == if move.LoopStep? && m.control.Idle? then [PollAnswer(m.rt)] else []
  {
    var calls := Calls(m, move);
    OneCall(m, move);
    if calls != [] {
      assert calls == [calls[0]];
      OneStep(m.rt, calls[0]);
    }
  }

  /** A move makes one call on the runtime, or none; only the loop polls, and only between events. */
  lemma OneCall(m: Machine, move: Move)
    ensures var calls := Calls(m, move);
            && |calls| <= 1
            && Moved(m, move).rt == (if calls == [] then m.rt else R.Next(m.rt, calls[0]))
            && (calls != [] && calls[0].PollStep? <==> move.LoopStep? && m.control.Idle?)
  {
    if move.LoopStep? {
      LoopCall(m, move.choice);
    }
  }

  lemma LoopCall(m: Machine, c: Choice)
    ensures var calls := LoopCalls(m, c);
            && |calls| <= 1
            && Loop(m, c).rt == (if calls == [] then m.rt else R.Next(m.rt, calls[0]))
            && (calls != [] && calls[0].PollStep? <==> m.control.Idle?)
  {
    match m.control
    case Idle =>
    case Took(e) =>
    case Asked(e, streaming) =>
    case Quiet(e) =>
  }

  /** Every run of the daemon is a run of the runtime, so what holds of those holds here. */
  lemma {:induction false} TraceRuns(m: Machine, moves: seq<Move>)
    ensures R.Run(m.rt, Trace(m, moves)) == After(m, moves).rt
  {
    if moves != [] {
      var n := |moves| - 1;
      var t := After(m, moves[..n]);
      TraceRuns(m, moves[..n]);
      CallsRun(t, moves[n]);
      RunAppend(m.rt, Trace(m, moves[..n]), Calls(t, moves[n]));
    }
  }

  // ---------------------------------------------------------------- the events that are handled

  function EventsOf(answers: seq<Answer>): seq<Event> {
    if answers == [] then []
    else
      var e := EventOf(answers[|answers| - 1]);
      EventsOf(answers[..|answers| - 1]) + if e.Some? then [e.value] else []
  }

  /** The events handled, and the one being handled. */
  function Received(m: Machine): seq<Event> {
    m.handled + if m.control.Idle? then [] else [m.control.event]
  }

  lemma {:induction false} ReceivedIsPolled(m: Machine, moves: seq<Move>)
    requires Initial(m)
    ensures Received(After(m, moves)) == EventsOf(Answers(m.rt, Trace(m, moves)))
  {
    if moves != [] {
      var n := |moves| - 1;
      var t := After(m, moves[..n]);
      ReceivedIsPolled(m, moves[..n]);
      TraceRuns(m, moves[..n]);
      CallsRun(t, moves[n]);
      AnswersOfAppend(m.rt, Trace(m, moves[..n]), Calls(t, moves[n]));
      NextReceived(t, moves[n]);
      var polled := Answers(m.rt, Trace(m, moves[..n]));
      if moves[n].LoopStep? && t.control.Idle? {
        assert (polled + [PollAnswer(t.rt)])[..|polled|] == polled;
      } else {
        assert polled + [] == polled;
      }
    }
  }

  lemma NextReceived(m: Machine, move: Move)
    ensures var e := EventOf(PollAnswer(m.rt));
            Received(Moved(m, move))
              == Received(m) + (if move.LoopStep? && m.control.Idle? && e.Some? then [e.value] else [])
  {
    if move.LoopStep? {
      LoopReceived(m, move.choice);
    }
  }

  lemma LoopReceived(m: Machine, c: Choice)
    ensures var e := EventOf(PollAnswer(m.rt));
            Received(Loop(m, c)) == Received(m) + (if m.control.Idle? && e.Some? then [e.value] else [])
  {
    match m.control
    case Idle =>
    case Took(e) =>
    case Asked(e, streaming) =>
    case Quiet(e) =>
  }

  /**
   The events handled are the polled ones in order; leaving out the synthetic releases, of which there
   are no more than engines, they are the events sent, in order, up to those still queued.
   */
  lemma HandledInOrder(m: Machine, moves: seq<Move>)
    requires Initial(m)
    ensures var trace := Trace(m, moves);
            var answers := Answers(m.rt, trace);
            && Received(After(m, moves)) == EventsOf(answers)
            && m.rt.queue + AllSent(m.rt, trace) == QueuedOf(answers) + After(m, moves).rt.queue
            && Synthetics(answers) <= Present(m.rt) + R.Begun(m.rt, trace)
  {
    ReceivedIsPolled(m, moves);
    TraceRuns(m, moves);
    EventDelivery(m.rt, Trace(m, moves));
    EngineConservation(m.rt, Trace(m, moves));
  }
}
