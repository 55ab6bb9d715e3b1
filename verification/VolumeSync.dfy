/** The two-way volume: BlueZ's volume against the local one and the changes still on their way. */
module VolumeSync {
  import opened Words
  import opened Session
  import opened R = Runtime
  import opened C = ControlPlane

  /** The event polled and not handled yet. */
  function InHand(m: Machine): seq<Event> {
    if m.control.Took? then [m.control.event] else []
  }

  /** The events not yet handled: the one in hand, those queued, and the signals still on their way. */
  function Pending(m: Machine): seq<Event> {
    InHand(m) + m.rt.queue + m.flight
  }

  /** The local volume once all of `events` are handled: the newest change among them, or `v`. */
  function Newest(events: seq<Event>, v: u16): u16 {
    if events == [] then v
    else Newest(events[1..], if events[0].VolumeChanged? then events[0].volume else v)
  }

  lemma {:induction false} NewestConcat(a: seq<Event>, b: seq<Event>, v: u16)
    ensures Newest(a + b, v) == Newest(b, Newest(a, v))
  {
    if a == [] {
      assert a + b == b;
    } else {
      assert (a + b)[1..] == a[1..] + b;
      NewestConcat(a[1..], b, if a[0].VolumeChanged? then a[0].volume else v);
    }
  }

  predicate HasVolume(events: seq<Event>) {
    exists e | e in events :: e.VolumeChanged?
  }

  lemma NewestAppend(events: seq<Event>, e: Event, v: u16)
    ensures Newest(events + [e], v) == if e.VolumeChanged? then e.volume else Newest(events, v)
  {
    NewestConcat(events, [e], v);
    assert [e][1..] == [];
  }

  /** The local volume matters only as long as no change is on its way. */
  lemma {:induction false} NewestOf(events: seq<Event>, v: u16, w: u16)
    ensures HasVolume(events) ==> Newest(events, v) == Newest(events, w)
    ensures !HasVolume(events) ==> Newest(events, v) == v && Newest(events, w) == w
  {
    if events != [] {
      var head, tail := events[0], events[1..];
      assert forall e :: e in events <==> e == head || e in tail;
      NewestOf(tail, if head.VolumeChanged? then head.volume else v, if head.VolumeChanged? then head.volume else w);
    }
  }

  /**
   BlueZ's volume is the newest change still pending, or the local volume when none is. No volume
   lies above the maximum.
   */
  ghost predicate Synced(bluez: u16, pending: seq<Event>, local: u16) {
    && local <= MAX_VOLUME && bluez <= MAX_VOLUME
    && (forall e | e in pending && e.VolumeChanged? :: e.volume <= MAX_VOLUME)
    && bluez == Newest(pending, local)
  }

  ghost predicate InSync(m: Machine) {
    Synced(m.bluez, Pending(m), m.rt.lastVolume)
  }

  /** An event about something else may come in anywhere among the pending ones, or be taken out. */
  lemma OtherBetween(bluez: u16, before: seq<Event>, e: Event, after: seq<Event>, local: u16)
    requires !e.VolumeChanged?
    ensures Synced(bluez, before + [e] + after, local) <==> Synced(bluez, before + after, local)
    ensures HasVolume(before + [e] + after) <==> HasVolume(before + after)
  {
    NewestConcat(before + [e], after, local);
    NewestAppend(before, e, local);
    NewestConcat(before, after, local);
    assert forall x :: x in before + [e] + after <==> x == e || x in before + after;
  }

  lemma ChangeHandled(bluez: u16, v: u16, pending: seq<Event>, local: u16)
    requires Synced(bluez, [VolumeChanged(v)] + pending, local)
    ensures Synced(bluez, pending, Clamp(v))
  {
    assert ([VolumeChanged(v)] + pending)[1..] == pending;
    assert VolumeChanged(v) in [VolumeChanged(v)] + pending;
  }

  lemma ChangePosted(bluez: u16, pending: seq<Event>, local: u16, v: u16)
    requires v <= MAX_VOLUME && Synced(bluez, pending, local)
    ensures Synced(v, pending + [VolumeChanged(v)], local)
  {
    NewestAppend(pending, VolumeChanged(v), local);
  }

  /** A new local volume that is written: BlueZ follows, and its signal comes after all that is pending. */
  lemma WrittenLocally(bluez: u16, pending: seq<Event>, local: u16, v: u16)
    requires v <= MAX_VOLUME && v != local && Synced(bluez, pending, local)
    ensures Synced(v, pending + (if v != bluez then [VolumeChanged(v)] else []), v)
  {
    if v != bluez {
      NewestAppend(pending, VolumeChanged(v), v);
    } else {
      NewestOf(pending, local, v);
      assert pending + [] == pending;
    }
  }

  lemma UnwrittenLocally(bluez: u16, pending: seq<Event>, local: u16, v: u16)
    requires v <= MAX_VOLUME && Synced(bluez, pending, local)
    ensures Synced(bluez, pending, v) <==> v == local || HasVolume(pending)
  {
    NewestOf(pending, local, v);
  }

  // ---------------------------------------------------------------- the moves of the daemon

  /** The volume a move sets locally, and whether BlueZ would accept it. */
  function LocalSet(m: Machine, move: Move): Option<(u16, bool)> {
    match move
    case ClientVolume(v, accepted) => Some((v, accepted))
    case LoopStep(c) =>
      if m.control.Took? && m.control.event.Error? then
        var v := AskedVolume(m.control.event.message, GetVolume(m.rt));
        if v.Some? then Some((v.value, c.accepted)) else None
      else None
    case _ => None
  }

  predicate Live(s: State) {
    s.connected && s.active.Some?
  }

  /** A new volume is set here that never reaches BlueZ, with no change on its way to put it right. */
  ghost predicate Unheard(m: Machine, move: Move) {
    var change := LocalSet(m, move);
    && change.Some?
    && Clamp(change.value.0) != m.rt.lastVolume
    && !(Live(m.rt) && change.value.1)
    && !HasVolume(Pending(m))
  }

  /** Only BlueZ announces volumes. */
  predicate FromBluez(move: Move) {
    move.Posted? ==> !move.event.VolumeChanged?
  }

  /** Setting the volume locally, at any time, also with a change in hand. */
  lemma SetLocallySync(m: Machine, v: u16, accepted: bool)
    requires InSync(m)
    ensures InSync(SetLocally(m, v, accepted))
        <==> Clamp(v) == m.rt.lastVolume || (Live(m.rt) && accepted) || HasVolume(Pending(m))
  {
    var t := SetLocally(m, v, accepted);
    assert Pending(t) == Pending(m) + Signal(m, v, accepted);
    if Clamp(v) != m.rt.lastVolume && Live(m.rt) && accepted {
      WrittenLocally(m.bluez, Pending(m), m.rt.lastVolume, Clamp(v));
    } else {
      UnwrittenLocally(m.bluez, Pending(m), m.rt.lastVolume, Clamp(v));
      assert Pending(t) == Pending(m);
    }
  }

  /** Finishing an event about something else drops it from the pending ones. */
  lemma OtherDone(m: Machine, t: Machine)
    requires t.bluez == m.bluez && t.rt.lastVolume == m.rt.lastVolume
    requires t.rt.queue == m.rt.queue && t.flight == m.flight && !t.control.Took?
    requires m.control.Took? ==> !m.control.event.VolumeChanged?
    ensures InSync(t) <==> InSync(m)
    ensures HasVolume(Pending(t)) <==> HasVolume(Pending(m))
  {
    assert Pending(t) == [] + (m.rt.queue + m.flight);
    if m.control.Took? {
      OtherBetween(m.bluez, [], m.control.event, m.rt.queue + m.flight, m.rt.lastVolume);
      assert Pending(m) == [] + [m.control.event] + (m.rt.queue + m.flight);
    } else {
      assert Pending(m) == Pending(t);
    }
  }

  lemma PollSync(m: Machine)
    requires m.control.Idle? && InSync(m)
    ensures InSync(TakeEvent(m))
  {
    var t := TakeEvent(m);
    if PollAnswer(m.rt).Queued? {
      assert Pending(t) == Pending(m);
    } else if PollAnswer(m.rt).Synthetic? {
      OtherDone(t, t.(control := Idle));
      assert Pending(t.(control := Idle)) == Pending(m);
    }
  }

  lemma ChangeSync(m: Machine)
    requires InSync(m) && m.control.Took? && m.control.event.VolumeChanged?
    ensures var t := Finish(m.(rt := SetVolume(m.rt, m.control.event.volume)), m.control.event);
            InSync(t)
  {
    var rest := m.rt.queue + m.flight;
    assert Pending(m) == [m.control.event] + rest;
    ChangeHandled(m.bluez, m.control.event.volume, rest, m.rt.lastVolume);
    assert [] + m.rt.queue + m.flight == rest;
  }

  lemma AcquireSync(m: Machine, path: string, reply: Reply, a: Attempt)
    requires InSync(m) && !m.control.Took?
    ensures InSync(m.(rt := AcquireAndStart(m.rt, path, reply, a)))
  {
    var e := TransportAcquired(path);
    OtherBetween(m.bluez, m.rt.queue, e, m.flight, m.rt.lastVolume);
    assert [] + m.rt.queue + m.flight == m.rt.queue + m.flight;
    assert [] + (m.rt.queue + [e]) + m.flight == m.rt.queue + [e] + m.flight;
  }

  lemma TookSync(m: Machine, c: Choice)
    requires InSync(m) && m.control.Took? && !m.control.event.VolumeChanged?
    ensures InSync(Loop(m, c)) <==> !Unheard(m, LoopStep(c))
  {
    var change := LocalSet(m, LoopStep(c));
    if change.Some? {
      var (v, accepted) := change.value;
      SetLocallySync(m, v, accepted);
      OtherDone(SetLocally(m, v, accepted), Loop(m, c));
    } else {
      OtherDone(m, Loop(m, c));
    }
  }

  lemma LoopSync(m: Machine, c: Choice)
    requires InSync(m)
    ensures InSync(Loop(m, c)) <==> !Unheard(m, LoopStep(c))
  {
    match m.control
    case Idle => PollSync(m);
    case Took(e) =>
      if e.VolumeChanged? {
        ChangeSync(m);
      } else {
        TookSync(m, c);
      }
    case Asked(e, streaming) =>
      if e.TransportPending? && !streaming {
        AcquireSync(m, e.path, c.reply, c.attempt);
        OtherDone(m.(rt := AcquireAndStart(m.rt, e.path, c.reply, c.attempt)), Loop(m, c));
      } else {
        OtherDone(m, Loop(m, c));
      }
    case Quiet(_) => OtherDone(m, Loop(m, c));
  }

  lemma PostSync(m: Machine, e: Event)
    requires InSync(m) && !e.VolumeChanged?
    ensures InSync(Moved(m, Posted(e)))
  {
    var before := InHand(m) + m.rt.queue;
    OtherBetween(m.bluez, before, e, m.flight, m.rt.lastVolume);
    assert InHand(m) + (m.rt.queue + [e]) + m.flight == before + [e] + m.flight;
  }

  lemma BluezSync(m: Machine, v: u16)
    requires InSync(m)
    ensures InSync(Moved(m, BluezVolume(v)))
  {
    if v != m.bluez && v <= MAX_VOLUME {
      ChangePosted(m.bluez, Pending(m), m.rt.lastVolume, v);
      assert Pending(Moved(m, BluezVolume(v))) == Pending(m) + [VolumeChanged(v)];
    }
  }

  lemma NothingChanges(m: Machine, move: Move)
    requires move.SignalArrives? || move.OutputCallback? || move.ReaderExit?
    ensures var t := Moved(m, move);
            Pending(t) == Pending(m) && t.bluez == m.bluez && t.rt.lastVolume == m.rt.lastVolume
  {
  }

  /** One move keeps BlueZ and the runtime in step exactly when it is not a volume set unheard. */
  lemma MoveKeepsSyncIff(m: Machine, move: Move)
    requires InSync(m) && FromBluez(move)
    ensures InSync(Moved(m, move)) <==> !Unheard(m, move)
  {
    match move
    case Posted(e) => PostSync(m, e);
    case BluezVolume(v) => BluezSync(m, v);
    case SignalArrives => NothingChanges(m, move);
    case OutputCallback => NothingChanges(m, move);
    case ReaderExit => NothingChanges(m, move);
    case LoopStep(c) => LoopSync(m, c);
    case ClientVolume(v, accepted) => SetLocallySync(m, v, accepted);
  }

  // ---------------------------------------------------------------- whole runs

  /** Volumes are announced by BlueZ alone, and every new volume set locally reaches it. */
  ghost predicate AllHeard(m: Machine, moves: seq<Move>) {
    moves != [] ==>
      var init := moves[..|moves| - 1];
      && AllHeard(m, init)
      && FromBluez(moves[|moves| - 1])
      && !Unheard(After(m, init), moves[|moves| - 1])
  }

  /**
   In every run that starts in step and loses no local volume, the two stay in step; and whenever no
   change is pending the volume read back is BlueZ's.
   */
  lemma {:induction false} VolumeConvergence(m: Machine, moves: seq<Move>)
    requires R.Inv(m.rt) && InSync(m) && AllHeard(m, moves)
    ensures var t := After(m, moves);
            InSync(t) && (!HasVolume(Pending(t)) ==> GetVolume(t.rt) == t.bluez)
  {
    var t := After(m, moves);
    if moves != [] {
      var n := |moves| - 1;
      VolumeConvergence(m, moves[..n]);
      MoveKeepsSyncIff(After(m, moves[..n]), moves[n]);
    }
    NewestOf(Pending(t), t.rt.lastVolume, t.rt.lastVolume);
    TraceRuns(m, moves);
    RunKeepsInv(m.rt, Trace(m, moves));
  }

  lemma MoveWrites(m: Machine, move: Move)
    ensures var t := Moved(m, move);
            && m.writes <= t.writes
            && t.localSets == m.localSets + (if LocalSet(m, move).Some? then 1 else 0)
            && t.writes - m.writes <= t.localSets - m.localSets
            && (t.writes > m.writes ==> Clamp(LocalSet(m, move).value.0) != m.rt.lastVolume)
  {
  }

  predicate NoneLocal(m: Machine, moves: seq<Move>) {
    moves != [] ==>
      var init := moves[..|moves| - 1];
      NoneLocal(m, init) && LocalSet(After(m, init), moves[|moves| - 1]).None?
  }

  /**
   No echo: a volume changed by BlueZ is never written back. Writes come from local calls alone, at
   most one for each.
   */
  lemma {:induction false} WritesAreLocal(m: Machine, moves: seq<Move>)
    ensures var t := After(m, moves);
            && m.writes <= t.writes
            && t.writes - m.writes <= t.localSets - m.localSets
    ensures NoneLocal(m, moves) ==> After(m, moves).writes == m.writes
  {
    if moves != [] {
      var n := |moves| - 1;
      WritesAreLocal(m, moves[..n]);
      MoveWrites(After(m, moves[..n]), moves[n]);
    }
  }
}
