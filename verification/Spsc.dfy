/**
 The ring buffer between the Bluetooth thread and the audio callback, at the grain at which the two
 threads meet: each slot is written or read in a step of its own, and a chunk becomes visible to
 the other side only when it is committed. A run is any sequence of steps, so it is any interleaving.
 */
module Spsc {
  import opened Words

  /** A chunk handed to the ring: it fitted when the producer looked, or it was an overrun. */
  datatype Offer = Taken(frame: seq<i16>) | Dropped(frame: seq<i16>)

  datatype Producer = Idle | Writing(frame: seq<i16>, done: nat)
  datatype Consumer = Waiting | Reading(needed: nat, count: nat, got: seq<i16>)

  /** A buffer handed back by the consumer: `filled` samples from position `start` on, then silence. */
  datatype Output = Output(start: nat, filled: nat, data: seq<i16>)

  datatype State = State(
    slots: seq<i16>, head: nat, tail: nat,
    producer: Producer, consumer: Consumer,
    overruns: nat, offers: seq<Offer>, outputs: seq<Output>)

  datatype Step =
    | Push(frame: seq<i16>)   // reserve room for a chunk, or count an overrun
    | WriteSlot
    | CommitWrite
    | Callback(needed: nat)   // take what there is, up to `needed`
    | Fetch(count: nat)       // take exactly `count`, or nothing yet
    | ReadSlot
    | CommitRead

  function Capacity(s: State): nat {
    |s.slots|
  }

  function Init(capacity: nat): State {
    State(seq(capacity, _ => 0), 0, 0, Idle, Waiting, 0, [], [])
  }

  function Level(s: State): int {
    s.tail - s.head
  }

  /** The slot of a position: positions go round the ring. */
  function Slot(position: nat, capacity: nat): (slot: nat)
    requires capacity > 0
    ensures slot < capacity
  {
    if position < capacity then position else Slot(position - capacity, capacity)
  }

  /** One step; a step whose thread is not at that point does nothing. */
  function Next(s: State, step: Step): State
    requires Capacity(s) > 0
  {
    match step
    case Push(frame) =>
      if !s.producer.Idle? || frame == [] then s
      else if Capacity(s) - Level(s) >= |frame| then
        s.(producer := Writing(frame, 0), offers := s.offers + [Taken(frame)])
      else
        s.(overruns := s.overruns + 1, offers := s.offers + [Dropped(frame)])
    case WriteSlot =>
      if s.producer.Writing? && s.producer.done < |s.producer.frame| then
        var i := s.producer.done;
        s.(slots := s.slots[Slot(s.tail + i, Capacity(s)) := s.producer.frame[i]],
           producer := s.producer.(done := i + 1))
      else s
    case CommitWrite =>
      if s.producer.Writing? && s.producer.done >= |s.producer.frame| then
        s.(tail := s.tail + |s.producer.frame|, producer := Idle)
      else s
    case Callback(needed) =>
      if s.consumer.Waiting? then
        s.(consumer := Reading(needed, if Level(s) >= needed then needed else if Level(s) > 0 then Level(s) else 0, []))
      else s
    case Fetch(count) =>
      if s.consumer.Waiting? && Level(s) >= count then s.(consumer := Reading(count, count, [])) else s
    case ReadSlot =>
      if s.consumer.Reading? && |s.consumer.got| < s.consumer.count then
        var i := |s.consumer.got|;
        s.(consumer := s.consumer.(got := s.consumer.got + [s.slots[Slot(s.head + i, Capacity(s))]]))
      else s
    case CommitRead =>
      if s.consumer.Reading? && |s.consumer.got| >= s.consumer.count then
        var filled := |s.consumer.got|;
        var rest := if s.consumer.needed >= filled then s.consumer.needed - filled else 0;
        s.(head := s.head + s.consumer.count, consumer := Waiting,
           outputs := s.outputs + [Output(s.head, filled, s.consumer.got + Silence(rest))])
      else s
  }

  function Run(s: State, steps: seq<Step>): (t: State)
    requires Capacity(s) > 0
    ensures Capacity(t) == Capacity(s)
  {
    if steps == [] then s else Next(Run(s, steps[..|steps| - 1]), steps[|steps| - 1])
  }

  // ---------------------------------------------------------------- history

  /** The samples of the chunks that were taken, in order. */
  function Stream(offers: seq<Offer>): seq<i16> {
    if offers == [] then []
    else Stream(offers[..|offers| - 1]) + (if offers[|offers| - 1].Taken? then offers[|offers| - 1].frame else [])
  }

  function Drops(offers: seq<Offer>): nat {
    if offers == [] then 0
    else Drops(offers[..|offers| - 1]) + (if offers[|offers| - 1].Dropped? then 1 else 0)
  }

  /** What was played, with the silence at the end of each buffer removed. */
  function Played(outputs: seq<Output>): seq<i16> {
    if outputs == [] then []
    else
      var o := outputs[|outputs| - 1];
      Played(outputs[..|outputs| - 1]) + o.data[..Min(o.filled, |o.data|)]
  }

  // ---------------------------------------------------------------- the invariant

  /** The chunk being written, if any, is the last one taken. */
  function Pending(s: State): seq<i16> {
    if s.producer.Writing? then s.producer.frame else []
  }

  /** The committed slots hold the part of the stream that has not been played. */
  predicate SlotsHold(slots: seq<i16>, from: nat, to: nat, stream: seq<i16>) {
    && |slots| > 0
    && (from < to ==> to <= |stream|)
    && forall k {:trigger stream[k]} | from <= k < to :: slots[Slot(k, |slots|)] == stream[k]
  }

  predicate GoodOutput(o: Output, stream: seq<i16>) {
    && o.start + o.filled <= |stream|
    && o.filled <= |o.data|
    && o.data[..o.filled] == stream[o.start..o.start + o.filled]
    && o.data[o.filled..] == Silence(|o.data| - o.filled)
  }

  /** How much of the chunk being written is in its slots. */
  function Done(p: Producer): nat {
    if p.Writing? then p.done else 0
  }

  predicate Positions(head: nat, tail: nat, capacity: nat, taken: nat, pending: nat) {
    head <= tail <= head + capacity && tail + pending == taken <= head + capacity
  }

  predicate WriterAt(p: Producer, tail: nat, stream: seq<i16>) {
    p.Writing? ==> p.done <= |p.frame| && tail <= |stream| && stream[tail..] == p.frame
  }

  predicate ReaderAt(c: Consumer, head: nat, tail: nat, stream: seq<i16>) {
    c.Reading? ==>
      && |c.got| <= c.count <= c.needed
      && head + c.count <= tail <= |stream|
      && c.got == stream[head..head + |c.got|]
  }

  ghost predicate Recorded(outputs: seq<Output>, head: nat, stream: seq<i16>) {
    && head <= |stream| && Played(outputs) == stream[..head]
    && forall o | o in outputs :: GoodOutput(o, stream)
  }

  ghost predicate Inv(s: State) {
    var stream := Stream(s.offers);
    && Positions(s.head, s.tail, Capacity(s), |stream|, |Pending(s)|)
    && WriterAt(s.producer, s.tail, stream)
    && SlotsHold(s.slots, s.head, s.tail + Done(s.producer), stream)
    && ReaderAt(s.consumer, s.head, s.tail, stream)
    && s.overruns == Drops(s.offers)
    && Recorded(s.outputs, s.head, stream)
  }

  // ---------------------------------------------------------------- slots

  lemma {:induction false} SlotIsRemainder(position: nat, capacity: nat)
    requires capacity > 0
    ensures Slot(position, capacity) == position % capacity
    decreases position
  {
    if position >= capacity {
      var rest := position - capacity;
      SlotIsRemainder(rest, capacity);
      assert position == capacity * (rest / capacity + 1) + rest % capacity;
      DivUnique(position, capacity, rest / capacity + 1, rest % capacity);
    } else {
      DivUnique(position, capacity, 0, position);
    }
  }

  /** Less than one round on, the slot is that much further, or that much further less one round. */
  lemma {:induction false} SlotAdd(position: nat, i: nat, capacity: nat)
    requires i < capacity
    ensures var slot := Slot(position, capacity) + i;
            Slot(position + i, capacity) == if slot < capacity then slot else slot - capacity
    decreases position
  {
    if position >= capacity {
      SlotAdd(position - capacity, i, capacity);
    }
  }

  /** Two positions less than one capacity apart never share a slot. */
  lemma SlotsDiffer(a: nat, b: nat, capacity: nat)
    requires a < b < a + capacity
    ensures Slot(a, capacity) != Slot(b, capacity)
  {
    SlotAdd(a, b - a, capacity);
  }

  lemma WriteKeeps(slots: seq<i16>, from: nat, to: nat, stream: seq<i16>)
    requires SlotsHold(slots, from, to, stream) && from <= to < |stream| && to < from + |slots|
    ensures SlotsHold(slots[Slot(to, |slots|) := stream[to]], from, to + 1, stream)
  {
    forall k | from <= k < to ensures slots[Slot(to, |slots|) := stream[to]][Slot(k, |slots|)] == stream[k] {
      SlotsDiffer(k, to, |slots|);
    }
  }

  // ---------------------------------------------------------------- longer streams keep what is known

  lemma LongerHold(slots: seq<i16>, from: nat, to: nat, stream: seq<i16>, more: seq<i16>)
    requires SlotsHold(slots, from, to, stream)
    ensures SlotsHold(slots, from, to, stream + more)
  {
  }

  lemma LongerReader(c: Consumer, head: nat, tail: nat, stream: seq<i16>, more: seq<i16>)
    requires ReaderAt(c, head, tail, stream)
    ensures ReaderAt(c, head, tail, stream + more)
  {
    if c.Reading? {
      assert (stream + more)[head..head + |c.got|] == stream[head..head + |c.got|];
    }
  }

  lemma LongerRecord(outputs: seq<Output>, head: nat, stream: seq<i16>, more: seq<i16>)
    requires Recorded(outputs, head, stream)
    ensures Recorded(outputs, head, stream + more)
  {
    var longer := stream + more;
    assert longer[..head] == stream[..head];
    forall o | o in outputs ensures GoodOutput(o, longer) {
      assert longer[o.start..o.start + o.filled] == stream[o.start..o.start + o.filled];
    }
  }

  // ---------------------------------------------------------------- the steps

  lemma PushKeepsInv(s: State, frame: seq<i16>, t: State)
    requires Inv(s) && t == Next(s, Push(frame))
    ensures Inv(t)
  {
    if t != s {
      var stream, more := Stream(s.offers), Pending(t);
      assert t.offers[..|t.offers| - 1] == s.offers;
      assert Stream(t.offers) == stream + more;
      LongerHold(s.slots, s.head, s.tail, stream, more);
      LongerReader(s.consumer, s.head, s.tail, stream, more);
      LongerRecord(s.outputs, s.head, stream, more);
    }
  }

  function Written(s: State, slots: seq<i16>): State
    requires s.producer.Writing?
  {
    s.(slots := slots, producer := s.producer.(done := s.producer.done + 1))
  }

  lemma WriteSlotIs(s: State, at: nat, x: i16)
    requires Capacity(s) > 0 && s.producer.Writing? && s.producer.done < |s.producer.frame|
    requires at == s.tail + s.producer.done && x == s.producer.frame[s.producer.done]
    ensures Next(s, WriteSlot) == Written(s, s.slots[Slot(at, |s.slots|) := x])
  {
  }

  lemma WrittenKeepsInv(s: State, slots: seq<i16>, stream: seq<i16>)
    requires Inv(s) && s.producer.Writing? && s.producer.done < |s.producer.frame| && stream == Stream(s.offers)
    requires |slots| == |s.slots| && SlotsHold(slots, s.head, s.tail + s.producer.done + 1, stream)
    ensures Inv(Written(s, slots))
  {
  }

  lemma WriteSlotKeepsInv(s: State, t: State)
    requires Inv(s) && t == Next(s, WriteSlot)
    ensures Inv(t)
  {
    if s.producer.Writing? && s.producer.done < |s.producer.frame| {
      var at, stream := s.tail + s.producer.done, Stream(s.offers);
      var x := s.producer.frame[s.producer.done];
      ChunkInStream(s.producer.frame, s.tail, stream, s.producer.done);
      WriteKeeps(s.slots, s.head, at, stream);
      WriteSlotIs(s, at, x);
      WrittenKeepsInv(s, s.slots[Slot(at, |s.slots|) := x], stream);
    }
  }

  lemma ChunkInStream(frame: seq<i16>, tail: nat, stream: seq<i16>, i: nat)
    requires tail <= |stream| && stream[tail..] == frame && i < |frame|
    ensures tail + i < |stream| && frame[i] == stream[tail + i]
  {
  }

  lemma CommitWriteIs(s: State, frame: seq<i16>)
    requires Capacity(s) > 0 && s.producer == Writing(frame, |frame|)
    ensures Next(s, CommitWrite) == s.(tail := s.tail + |frame|, producer := Idle)
  {
  }

  lemma CommittedKeepsInv(s: State, frame: seq<i16>)
    requires Inv(s) && s.producer == Writing(frame, |frame|)
    ensures Inv(s.(tail := s.tail + |frame|, producer := Idle))
  {
  }

  lemma CommitWriteKeepsInv(s: State, t: State)
    requires Inv(s) && t == Next(s, CommitWrite)
    ensures Inv(t)
  {
    if s.producer.Writing? && s.producer.done >= |s.producer.frame| {
      CommitWriteIs(s, s.producer.frame);
      CommittedKeepsInv(s, s.producer.frame);
    }
  }

  lemma OpenReader(s: State, step: Step, t: State)
    requires Inv(s) && (step.Callback? || step.Fetch?) && t == Next(s, step)
    ensures Inv(t)
  {
  }

  lemma SlotHolds(slots: seq<i16>, from: nat, to: nat, stream: seq<i16>, k: nat)
    requires SlotsHold(slots, from, to, stream) && from <= k < to <= |stream|
    ensures slots[Slot(k, |slots|)] == stream[k]
  {
  }

  lemma StretchGrows(stream: seq<i16>, from: nat, to: nat, got: seq<i16>, x: i16)
    requires from <= to < |stream| && got == stream[from..to] && x == stream[to]
    ensures got + [x] == stream[from..to + 1]
  {
  }

  function ReadOn(s: State, x: i16): State
    requires s.consumer.Reading?
  {
    s.(consumer := s.consumer.(got := s.consumer.got + [x]))
  }

  lemma ReadSlotIs(s: State, at: nat)
    requires Capacity(s) > 0 && s.consumer.Reading? && |s.consumer.got| < s.consumer.count
    requires at == s.head + |s.consumer.got|
    ensures Next(s, ReadSlot) == ReadOn(s, s.slots[Slot(at, |s.slots|)])
  {
  }

  lemma ReadOnKeepsInv(s: State, x: i16, stream: seq<i16>)
    requires Inv(s) && s.consumer.Reading? && |s.consumer.got| < s.consumer.count && stream == Stream(s.offers)
    requires s.consumer.got + [x] == stream[s.head..s.head + |s.consumer.got| + 1]
    ensures Inv(ReadOn(s, x))
  {
  }

  lemma NextSample(s: State, at: nat, x: i16, stream: seq<i16>)
    requires Inv(s) && s.consumer.Reading? && |s.consumer.got| < s.consumer.count && stream == Stream(s.offers)
    requires at == s.head + |s.consumer.got| && x == s.slots[Slot(at, |s.slots|)]
    ensures s.consumer.got + [x] == stream[s.head..at + 1]
  {
    SlotHolds(s.slots, s.head, s.tail + Done(s.producer), stream, at);
    StretchGrows(stream, s.head, at, s.consumer.got, x);
  }

  lemma ReadingKeepsInv(s: State, at: nat, x: i16)
    requires Inv(s) && s.consumer.Reading? && |s.consumer.got| < s.consumer.count
    requires at == s.head + |s.consumer.got| && x == s.slots[Slot(at, |s.slots|)]
    ensures Inv(ReadOn(s, x))
  {
    NextSample(s, at, x, Stream(s.offers));
    ReadOnKeepsInv(s, x, Stream(s.offers));
  }

  lemma ReadSlotKeepsInv(s: State, t: State)
    requires Inv(s) && t == Next(s, ReadSlot)
    ensures Inv(t)
  {
    if s.consumer.Reading? && |s.consumer.got| < s.consumer.count {
      var at := s.head + |s.consumer.got|;
      ReadSlotIs(s, at);
      ReadingKeepsInv(s, at, s.slots[Slot(at, |s.slots|)]);
    }
  }

  function PlayedOn(s: State, o: Output): State {
    s.(head := s.head + o.filled, consumer := Waiting, outputs := s.outputs + [o])
  }

  lemma CommitReadIs(s: State, o: Output)
    requires Capacity(s) > 0 && s.consumer.Reading? && |s.consumer.got| == s.consumer.count <= s.consumer.needed
    requires o == Output(s.head, s.consumer.count, s.consumer.got + Silence(s.consumer.needed - s.consumer.count))
    ensures Next(s, CommitRead) == PlayedOn(s, o)
  {
  }

  lemma PlayedOnKeepsInv(s: State, o: Output, stream: seq<i16>)
    requires Inv(s) && s.consumer.Reading? && stream == Stream(s.offers)
    requires |s.consumer.got| == s.consumer.count == o.filled
    requires Recorded(s.outputs + [o], s.head + o.filled, stream)
    ensures Inv(PlayedOn(s, o))
  {
  }

  lemma CommitReadKeepsInv(s: State, t: State)
    requires Inv(s) && t == Next(s, CommitRead)
    ensures Inv(t)
  {
    if s.consumer.Reading? && |s.consumer.got| >= s.consumer.count {
      var o := OutputMade(s);
      CommitReadIs(s, o);
      PlayedOnKeepsInv(s, o, Stream(s.offers));
    }
  }

  /** The buffer a commit hands back. */
  lemma OutputMade(s: State) returns (o: Output)
    requires Inv(s) && s.consumer.Reading? && |s.consumer.got| >= s.consumer.count
    ensures |s.consumer.got| == s.consumer.count == o.filled <= s.consumer.needed
    ensures o == Output(s.head, s.consumer.count, s.consumer.got + Silence(s.consumer.needed - s.consumer.count))
    ensures Recorded(s.outputs + [o], s.head + o.filled, Stream(s.offers))
  {
    var got, stream := s.consumer.got, Stream(s.offers);
    o := Output(s.head, |got|, got + Silence(s.consumer.needed - |got|));
    RecordOutput(s.outputs, o, got, stream);
  }

  lemma RecordOutput(outputs: seq<Output>, o: Output, got: seq<i16>, stream: seq<i16>)
    requires Recorded(outputs, o.start, stream)
    requires o.filled == |got| <= |o.data| && o.start + |got| <= |stream|
    requires got == stream[o.start..o.start + |got|] && o.data == got + Silence(|o.data| - |got|)
    ensures Recorded(outputs + [o], o.start + o.filled, stream)
  {
    assert o.data[..o.filled] == got;
    assert o.data[o.filled..] == Silence(|o.data| - o.filled);
    assert (outputs + [o])[..|outputs|] == outputs;
    assert stream[..o.start] + got == stream[..o.start + o.filled];
  }

  lemma StepKeepsInv(s: State, step: Step, t: State)
    requires Inv(s) && t == Next(s, step)
    ensures Inv(t)
  {
    match step
    case Push(frame) => PushKeepsInv(s, frame, t);
    case WriteSlot => WriteSlotKeepsInv(s, t);
    case CommitWrite => CommitWriteKeepsInv(s, t);
    case Callback(needed) => OpenReader(s, step, t);
    case Fetch(count) => OpenReader(s, step, t);
    case ReadSlot => ReadSlotKeepsInv(s, t);
    case CommitRead => CommitReadKeepsInv(s, t);
  }

  lemma NextKeepsInv(s: State, step: Step)
    requires Inv(s)
    ensures Inv(Next(s, step))
  {
    StepKeepsInv(s, step, Next(s, step));
  }

  /** Every run of the two threads, in every interleaving, stays within the invariant. */
  lemma {:induction false} RunKeepsInv(capacity: nat, steps: seq<Step>)
    requires capacity > 0
    ensures Inv(Run(Init(capacity), steps))
  {
    if steps == [] {
      assert Inv(Init(capacity));
    } else {
      RunKeepsInv(capacity, steps[..|steps| - 1]);
      NextKeepsInv(Run(Init(capacity), steps[..|steps| - 1]), steps[|steps| - 1]);
    }
  }

  // ---------------------------------------------------------------- what every run guarantees

  /**
   First in, first out: what has been played, silence removed, is a prefix of the stream of chunks
   taken; the chunks dropped are exactly the overruns; and what is neither played nor still being
   written is the level, which never exceeds the capacity.
   */
  lemma Fifo(capacity: nat, steps: seq<Step>)
    requires capacity > 0
    ensures var s := Run(Init(capacity), steps);
            && Played(s.outputs) <= Stream(s.offers)
            && |Stream(s.offers)| - |Played(s.outputs)| == Level(s) + |Pending(s)| <= capacity
            && s.overruns == Drops(s.offers)
            && forall o | o in s.outputs :: GoodOutput(o, Stream(s.offers))
  {
    RunKeepsInv(capacity, steps);
  }

  lemma SlotsApart(s: State, i: nat, j: nat)
    requires Inv(s) && s.producer.Writing? && s.consumer.Reading?
    requires i < |s.producer.frame| && j < s.consumer.count
    ensures Slot(s.tail + i, Capacity(s)) != Slot(s.head + j, Capacity(s))
  {
    SlotsDiffer(s.head + j, s.tail + i, Capacity(s));
  }

  lemma Reached(capacity: nat, steps: seq<Step>, s: State)
    requires capacity > 0 && s == Run(Init(capacity), steps)
    ensures Inv(s)
  {
    RunKeepsInv(capacity, steps);
  }

  /** The two threads never touch the same slot: what is being read is not being written. */
  lemma NoSlotShared(capacity: nat, steps: seq<Step>, s: State, i: nat, j: nat)
    requires capacity > 0 && s == Run(Init(capacity), steps)
    requires s.producer.Writing? && i < |s.producer.frame|
    requires s.consumer.Reading? && j < s.consumer.count
    ensures Slot(s.tail + i, Capacity(s)) != Slot(s.head + j, Capacity(s))
  {
    Reached(capacity, steps, s);
    SlotsApart(s, i, j);
  }

  /** The chunks handed to the ring, in order, whether or not they fitted. */
  function Handed(offers: seq<Offer>): seq<seq<i16>> {
    if offers == [] then [] else Handed(offers[..|offers| - 1]) + [offers[|offers| - 1].frame]
  }
}
