/** The sink engine's shared ring as a circular array, and the two operations that meet on it. */
module SinkEngine {
  import opened Words
  import Spsc

  /** The samples in the slots of positions `from` to `to`. */
  function Window(slots: seq<i16>, from: nat, to: nat): seq<i16>
    requires |slots| > 0 && from <= to
  {
    seq(to - from, i requires 0 <= i < to - from => slots[Spsc.Slot(from + i, |slots|)])
  }

  /** The committed slots hold a stretch of a stream exactly when the window is that stretch. */
  lemma WindowIsStretch(slots: seq<i16>, from: nat, to: nat, stream: seq<i16>)
    requires |slots| > 0 && from <= to <= |stream|
    ensures Spsc.SlotsHold(slots, from, to, stream) <==> Window(slots, from, to) == stream[from..to]
  {
    if Window(slots, from, to) == stream[from..to] {
      forall k | from <= k < to ensures slots[Spsc.Slot(k, |slots|)] == stream[k] {
        assert Window(slots, from, to)[k - from] == stream[from..to][k - from];
      }
    }
  }

  lemma NextLap(position: nat, capacity: nat)
    requires capacity > 0
    ensures Spsc.Slot(position + (capacity - Spsc.Slot(position, capacity)), capacity) == 0
  {
    var slot := Spsc.Slot(position, capacity);
    if slot > 0 {
      Spsc.SlotAdd(position, capacity - slot, capacity);
    }
  }

  /** The stream as far as the ring knows it: something played, what it holds, and a chunk to be written. */
  function Known(played: nat, held: seq<i16>, pcm: seq<i16>): seq<i16> {
    Silence(played) + held + pcm
  }

  lemma BeforeWriting(slots: seq<i16>, head: nat, tail: nat, pcm: seq<i16>, first: nat)
    requires |slots| > 0 && head <= tail && first <= |pcm|
    ensures var stream := Known(head, Window(slots, head, tail), pcm);
            && |stream| == tail + |pcm|
            && Spsc.SlotsHold(slots, head, tail, stream)
            && stream[tail..tail + first] == pcm[..first]
            && stream[tail + first..tail + |pcm|] == pcm[first..]
  {
    var stream := Known(head, Window(slots, head, tail), pcm);
    assert stream[head..tail] == Window(slots, head, tail);
    WindowIsStretch(slots, head, tail, stream);
  }

  lemma AfterWriting(slots: seq<i16>, head: nat, held: seq<i16>, pcm: seq<i16>, to: nat)
    requires to == head + |held| + |pcm| && Spsc.SlotsHold(slots, head, to, Known(head, held, pcm))
    ensures Window(slots, head, to) == held + pcm
  {
    assert Known(head, held, pcm)[head..to] == held + pcm;
    WindowIsStretch(slots, head, to, Known(head, held, pcm));
  }

  class SampleRing {
    const slots: array<i16>
    var head: nat
    var tail: nat

    constructor (capacity: nat)
      requires capacity > 0
      ensures Valid() && fresh(slots) && slots.Length == capacity && Contents() == []
    {
      slots := new i16[capacity](_ => 0);
      head, tail := 0, 0;
    }

    ghost predicate Valid()
      reads this
    {
      slots.Length > 0 && head <= tail <= head + slots.Length
    }

    function Contents(): seq<i16>
      requires Valid()
      reads this, slots
    {
      Window(slots[..], head, tail)
    }

    /** Writes one slice of a chunk: positions `position`.. lie in the slots from `first` on. */
    method FillSlice(first: nat, part: seq<i16>, ghost position: nat, ghost stream: seq<i16>)
      requires first + |part| <= slots.Length && head <= position && position + |part| <= head + slots.Length
      requires part != [] ==> Spsc.Slot(position, slots.Length) == first
      requires position + |part| <= |stream| && stream[position..position + |part|] == part
      requires Spsc.SlotsHold(slots[..], head, position, stream)
      modifies slots
      ensures Spsc.SlotsHold(slots[..], head, position + |part|, stream)
    {
      for i := 0 to |part|
        invariant Spsc.SlotsHold(slots[..], head, position + i, stream)
      {
        Spsc.SlotAdd(position, i, slots.Length);
        Spsc.WriteKeeps(slots[..], head, position + i, stream);
        assert stream[position..position + |part|][i] == part[i];
        slots[first + i] := part[i];
      }
    }

    /** Copies a chunk in, in the two slices on either side of the end of the array; all or nothing. */
    method WriteChunk(pcm: seq<i16>) returns (ok: bool)
      requires Valid()
      modifies this`tail, slots
      ensures Valid()
      ensures ok == (|old(Contents())| + |pcm| <= slots.Length)
      ensures Contents() == old(Contents()) + (if ok then pcm else [])
    {
      if slots.Length - (tail - head) < |pcm| {
        return false;
      }
      var start := tail % slots.Length;
      Spsc.SlotIsRemainder(tail, slots.Length);
      ghost var held := Contents();
      FillSlices(start, pcm, held);
      AfterWriting(slots[..], head, held, pcm, tail + |pcm|);
      tail := tail + |pcm|;
      return true;
    }

    /** Writes both slices of a chunk that fits. */
    method FillSlices(start: nat, pcm: seq<i16>, ghost held: seq<i16>)
      requires Valid() && held == Contents() && |held| + |pcm| <= slots.Length
      requires start == Spsc.Slot(tail, slots.Length)
      modifies slots
      ensures Spsc.SlotsHold(slots[..], head, tail + |pcm|, Known(head, held, pcm))
    {
      var firstLen := Min(|pcm|, slots.Length - start);
      ghost var stream := Known(head, held, pcm);
      BeforeWriting(slots[..], head, tail, pcm, firstLen);
      FillSlice(start, pcm[..firstLen], tail, stream);
      if firstLen < |pcm| {
        NextLap(tail, slots.Length);
      }
      FillSlice(0, pcm[firstLen..], tail + firstLen, stream);
    }

    /** Copies the oldest `n` samples out, in two slices, and frees their slots. */
    method ReadChunk(n: nat, data: array<i16>)
      requires Valid() && n <= |Contents()| && n <= data.Length && data != slots
      modifies this`head, data
      ensures Valid()
      ensures data[..] == old(Contents()[..n] + data[n..])
      ensures Contents() == old(Contents())[n..]
    {
      var start := head % slots.Length;
      Spsc.SlotIsRemainder(head, slots.Length);
      var firstLen := Min(n, slots.Length - start);
      forall i | 0 <= i < firstLen {
        data[i] := slots[start + i];
      }
      forall i | 0 <= i < n - firstLen {
        data[firstLen + i] := slots[i];
      }
      forall i | 0 <= i < n ensures data[i] == Contents()[i] {
        Spsc.SlotAdd(head, i, slots.Length);
      }
      head := head + n;
    }
  }

  // ---------------------------------------------------------------- volume

  /** Division as the source's integers do it, towards zero. */
  function TruncDiv(x: int, d: int): int
    requires d > 0
  {
    if x >= 0 then x / d else -((-x) / d)
  }

  function Scale(sample: i16, volume: u16): i16
    requires volume <= 127
  {
    if volume < 127 then TruncDiv(sample * volume, 127) else sample
  }

  function ScaleAll(samples: seq<i16>, volume: u16): seq<i16>
    requires volume <= 127
  {
    seq(|samples|, i requires 0 <= i < |samples| => Scale(samples[i], volume))
  }

  lemma TruncDivOdd(x: int)
    ensures TruncDiv(-x, 127) == -TruncDiv(x, 127)
  {
  }

  lemma TruncDivMonotone(x: nat, y: nat)
    requires x <= y
    ensures 0 <= TruncDiv(x, 127) <= TruncDiv(y, 127)
  {
  }

  lemma SizeLaws(size: nat, volume: u16, louder: u16)
    requires volume <= louder <= 127
    ensures 0 <= TruncDiv(size * volume, 127) <= TruncDiv(size * louder, 127) <= size
  {
    var quiet, loud := size * volume, size * louder;
    MulSign(size, volume);
    MulSign(size, louder - volume);
    MulSign(size, 127 - louder);
    assert loud == quiet + size * (louder - volume);
    assert size * 127 == loud + size * (127 - louder);
    TruncDivMonotone(quiet, loud);
    TruncDivMonotone(loud, size * 127);
  }

  /** At full volume the formula that is skipped would change nothing either. */
  lemma ScaleIsDivision(sample: i16, volume: u16)
    requires volume <= 127
    ensures Scale(sample, volume) == TruncDiv(sample * volume, 127)
  {
  }

  /**
   Scaling never amplifies or changes sign, grows with the volume, mutes at zero, and at full volume agrees
   with the formula it skips.
   */
  lemma ScaleLaws(sample: i16, volume: u16, louder: u16)
    requires volume <= louder <= 127
    ensures sample >= 0 ==> 0 <= Scale(sample, volume) <= Scale(sample, louder) <= sample
    ensures sample <= 0 ==> sample <= Scale(sample, louder) <= Scale(sample, volume) <= 0
    ensures Scale(sample, 0) == 0 && Scale(sample, 127) == TruncDiv(sample * 127, 127)
  {
    var negated := 0 - sample;
    var size: nat := if sample >= 0 then sample else negated;
    ScaleIsDivision(sample, volume);
    ScaleIsDivision(sample, louder);
    ScaleIsDivision(sample, 127);
    SizeLaws(size, volume, louder);
    NegatedProduct(sample, negated, volume);
    NegatedProduct(sample, negated, louder);
    TruncDivOdd(sample * volume);
    TruncDivOdd(sample * louder);
  }

  /** The scaled sample is sample * volume / 127, cut to the next integer on the side of zero. */
  lemma ScaleRounds(sample: i16, volume: u16, product: int)
    requires volume <= 127 && product == sample * volume
    ensures sample >= 0 ==> 0 <= product - 127 * Scale(sample, volume) < 127
    ensures sample <= 0 ==> -127 < product - 127 * Scale(sample, volume) <= 0
  {
    ScaleIsDivision(sample, volume);
    MulSign(volume, sample);
    TruncDivRest(product);
  }

  lemma TruncDivRest(x: int)
    ensures x >= 0 ==> 0 <= x - 127 * TruncDiv(x, 127) < 127
    ensures x <= 0 ==> -127 < x - 127 * TruncDiv(x, 127) <= 0
  {
  }

  lemma NegatedProduct(a: int, b: int, volume: int)
    requires a + b == 0
    ensures b * volume == -(a * volume)
  {
  }

  /** Scaling treats both signs alike: a wave keeps its symmetry. */
  lemma ScaleOdd(sample: i16, negated: i16, volume: u16)
    requires negated + sample == 0 && volume <= 127
    ensures Scale(negated, volume) + Scale(sample, volume) == 0
  {
    var p, q := sample * volume, negated * volume;
    assert Scale(sample, volume) == TruncDiv(p, 127) by {
      ScaleIsDivision(sample, volume);
    }
    assert Scale(negated, volume) == TruncDiv(q, 127) by {
      ScaleIsDivision(negated, volume);
    }
    NegatedProduct(sample, negated, volume);
    TruncDivOdd(p);
  }

  // ---------------------------------------------------------------- the two sides

  class Metrics {
    var framesProcessed: u32
    var underruns: u32
    var overruns: u32
    var bufferLevel: u32
    var running: bool

    constructor ()
      ensures framesProcessed == underruns == overruns == bufferLevel == 0 && !running
    {
      framesProcessed, underruns, overruns, bufferLevel, running := 0, 0, 0, 0, false;
    }
  }

  /** `push_pcm`: the chunk goes in whole, or is dropped whole and counted. */
  method PushPcm(ring: SampleRing, metrics: Metrics, pcm: seq<i16>)
    requires ring.Valid()
    modifies ring`tail, ring.slots, metrics`overruns
    ensures ring.Valid()
    ensures var fits := |old(ring.Contents())| + |pcm| <= ring.slots.Length;
            && ring.Contents() == old(ring.Contents()) + (if fits then pcm else [])
            && metrics.overruns
               == if fits || pcm == [] then old(metrics.overruns) else WrapAdd32(old(metrics.overruns), 1)
  {
    if |pcm| == 0 {
      return;
    }
    var ok := ring.WriteChunk(pcm);
    if !ok {
      metrics.overruns := WrapAdd32(metrics.overruns, 1);
    }
  }

  method ZeroFill(data: array<i16>, from: nat)
    requires from <= data.Length
    modifies data
    ensures data[..] == old(data[..from]) + Silence(data.Length - from)
  {
    for i := from to data.Length
      invariant data[..from] == old(data[..from])
      invariant forall j | from <= j < i :: data[j] == 0
    {
      data[i] := 0;
    }
  }

  method ScaleInPlace(data: array<i16>, volume: u16)
    requires volume <= 127
    modifies data
    ensures data[..] == ScaleAll(old(data[..]), volume)
  {
    if volume < 127 {
      for i := 0 to data.Length
        invariant forall j | 0 <= j < i :: data[j] == Scale(old(data[j]), volume)
        invariant forall j | i <= j < data.Length :: data[j] == old(data[j])
      {
        MulSign(volume, data[i]);
        data[i] := TruncDiv(data[i] * volume, 127);
      }
    }
  }

  /** Takes as many samples as the buffer has places, or as many as there are. */
  method Drain(ring: SampleRing, data: array<i16>) returns (filled: nat)
    requires ring.Valid() && data != ring.slots
    modifies ring`head, data
    ensures ring.Valid()
    ensures var was := old(ring.Contents());
            && filled == Min(|was|, data.Length)
            && data[..filled] == was[..filled]
            && ring.Contents() == was[filled..]
  {
    var available, needed := ring.tail - ring.head, data.Length;
    filled := 0;
    if available >= needed {
      ring.ReadChunk(needed, data);
      filled := needed;
    } else if available > 0 {
      ring.ReadChunk(available, data);
      filled := available;
    }
  }

  /** The CPAL output callback: drain what there is, fill the rest with silence, then scale. */
  method OutputCallback(ring: SampleRing, metrics: Metrics, volume: u16, data: array<i16>)
    requires ring.Valid() && volume <= 127 && data != ring.slots
    modifies ring`head, data, metrics`framesProcessed, metrics`underruns, metrics`bufferLevel
    ensures ring.Valid()
    ensures var was := old(ring.Contents());
            var filled := Min(|was|, data.Length);
            && data[..] == ScaleAll(was[..filled] + Silence(data.Length - filled), volume)
            && ring.Contents() == was[filled..]
            && metrics.framesProcessed == WrapAdd32(old(metrics.framesProcessed), if filled > 0 then 1 else 0)
            && metrics.underruns == WrapAdd32(old(metrics.underruns), if filled < data.Length then 1 else 0)
            && metrics.bufferLevel == (|was| - filled) % 0x1_0000_0000
  {
    var needed := data.Length;
    ghost var was := ring.Contents();
    var filled := Drain(ring, data);
    ZeroFill(data, filled);
    ScaleInPlace(data, volume);
    if filled > 0 {
      metrics.framesProcessed := WrapAdd32(metrics.framesProcessed, 1);
    }
    if filled < needed {
      metrics.underruns := WrapAdd32(metrics.underruns, 1);
    }
    metrics.bufferLevel := (ring.tail - ring.head) % 0x1_0000_0000;
  }

  /** The CPAL input callback of the source engine: the whole buffer goes in, or is counted as lost. */
  method CaptureCallback(ring: SampleRing, metrics: Metrics, data: seq<i16>)
    requires ring.Valid()
    modifies ring`tail, ring.slots, metrics`overruns, metrics`framesProcessed
    ensures ring.Valid()
    ensures var fits := |old(ring.Contents())| + |data| <= ring.slots.Length;
            && ring.Contents() == old(ring.Contents()) + (if fits then data else [])
            && metrics.framesProcessed == WrapAdd32(old(metrics.framesProcessed), if fits then 1 else 0)
            && metrics.overruns == WrapAdd32(old(metrics.overruns), if fits then 0 else 1)
  {
    var ok := ring.WriteChunk(data);
    if ok {
      metrics.framesProcessed := WrapAdd32(metrics.framesProcessed, 1);
    } else {
      metrics.overruns := WrapAdd32(metrics.overruns, 1);
    }
  }

  /** One turn of `bt_writer_loop`: exactly one codec frame's samples, or none yet. */
  method FetchFrame(ring: SampleRing, pcmBuf: array<i16>) returns (fetched: bool)
    requires ring.Valid() && pcmBuf != ring.slots
    modifies ring`head, pcmBuf
    ensures ring.Valid()
    ensures fetched == (|old(ring.Contents())| >= pcmBuf.Length)
    ensures old(ring.Contents()) == (if fetched then pcmBuf[..] else []) + ring.Contents()
    ensures !fetched ==> pcmBuf[..] == old(pcmBuf[..])
  {
    if ring.tail - ring.head < pcmBuf.Length {
      return false;
    }
    ring.ReadChunk(pcmBuf.Length, pcmBuf);
    return true;
  }

  // ---------------------------------------------------------------- against the interleaved model

  /** The samples visible to the consumer in the slot-by-slot model. */
  function Visible(s: Spsc.State): seq<i16>
    requires |s.slots| > 0 && s.head <= s.tail
  {
    Window(s.slots, s.head, s.tail)
  }

  lemma VisibleIsStretch(s: Spsc.State)
    requires Spsc.Inv(s)
    ensures Visible(s) == Spsc.Stream(s.offers)[s.head..s.tail]
  {
    WindowIsStretch(s.slots, s.head, s.tail, Spsc.Stream(s.offers));
  }

  /** After j reads the consumer holds the first j visible samples; nothing else has moved. */
  lemma {:induction false} ReadSlots(s: Spsc.State, j: nat)
    requires Spsc.Inv(s) && s.consumer.Reading? && s.consumer.got == [] && j <= s.consumer.count
    ensures Spsc.Run(s, seq(j, _ => Spsc.ReadSlot)) == s.(consumer := s.consumer.(got := Visible(s)[..j]))
  {
    if j > 0 {
      ReadSlots(s, j - 1);
      var steps: seq<Spsc.Step> := seq(j, _ => Spsc.ReadSlot);
      assert steps[..j - 1] == seq(j - 1, _ => Spsc.ReadSlot) && steps[j - 1] == Spsc.ReadSlot;
      ReadOne(s.(consumer := s.consumer.(got := Visible(s)[..j - 1])), j - 1);
    }
  }

  lemma ReadOne(s: Spsc.State, i: nat)
    requires |s.slots| > 0 && s.head + i < s.tail
    requires s.consumer.Reading? && s.consumer.got == Visible(s)[..i] && i < s.consumer.count
    ensures Spsc.Next(s, Spsc.ReadSlot) == s.(consumer := s.consumer.(got := Visible(s)[..i + 1]))
  {
    assert Visible(s)[..i] + [Visible(s)[i]] == Visible(s)[..i + 1];
  }

  /** Run slot by slot without the producer in between, a callback does what the method does. */
  lemma UninterruptedCallback(s: Spsc.State, needed: nat, r: Spsc.State, w: Spsc.State, t: Spsc.State)
    requires Spsc.Inv(s) && s.consumer.Waiting? && r == Spsc.Next(s, Spsc.Callback(needed))
    requires w == Spsc.Run(r, seq(Min(|Visible(s)|, needed), _ => Spsc.ReadSlot))
    requires t == Spsc.Next(w, Spsc.CommitRead)
    ensures var was, filled := Visible(s), Min(|Visible(s)|, needed);
            && Spsc.Inv(t)
            && t.outputs == s.outputs + [Spsc.Output(s.head, filled, was[..filled] + Silence(needed - filled))]
            && Visible(t) == was[filled..]
  {
    var filled := Min(|Visible(s)|, needed);
    Spsc.StepKeepsInv(s, Spsc.Callback(needed), r);
    Opens(s, needed, filled, r);
    ReadsAll(s, r, filled, w);
    CommitVisible(w, t);
  }

  /** A fetch, left alone, takes exactly the samples asked for, or nothing where there are fewer. */
  lemma UninterruptedFetch(s: Spsc.State, count: nat, r: Spsc.State, w: Spsc.State, t: Spsc.State)
    requires Spsc.Inv(s) && s.consumer.Waiting? && r == Spsc.Next(s, Spsc.Fetch(count))
    requires w == Spsc.Run(r, seq(if |Visible(s)| >= count then count else 0, _ => Spsc.ReadSlot))
    requires t == Spsc.Next(w, Spsc.CommitRead)
    ensures var was := Visible(s);
            if |was| >= count then
              && Spsc.Inv(t)
              && t.outputs == s.outputs + [Spsc.Output(s.head, count, was[..count])]
              && Visible(t) == was[count..]
            else t == s
  {
    if |Visible(s)| >= count {
      FetchOpens(s, count, r);
      FetchDone(s, count, r, w, t);
    } else {
      FetchWaits(s, count, r, w, t);
    }
  }

  lemma FetchOpens(s: Spsc.State, count: nat, r: Spsc.State)
    requires Spsc.Inv(s) && s.consumer.Waiting? && |Visible(s)| >= count && r == Spsc.Next(s, Spsc.Fetch(count))
    ensures Spsc.Inv(r) && r == s.(consumer := Spsc.Reading(count, count, []))
  {
    Spsc.StepKeepsInv(s, Spsc.Fetch(count), r);
  }

  lemma FetchDone(s: Spsc.State, count: nat, r: Spsc.State, w: Spsc.State, t: Spsc.State)
    requires Spsc.Inv(s) && Spsc.Inv(r) && r == s.(consumer := Spsc.Reading(count, count, []))
    requires w == Spsc.Run(r, seq(count, _ => Spsc.ReadSlot)) && t == Spsc.Next(w, Spsc.CommitRead)
    ensures Spsc.Inv(t) && count <= |Visible(s)|
    ensures t.outputs == s.outputs + [Spsc.Output(s.head, count, Visible(s)[..count])]
    ensures Visible(t) == Visible(s)[count..]
  {
    ReadsAll(s, r, count, w);
    CommitVisible(w, t);
    assert Visible(s)[..count] + Silence(0) == Visible(s)[..count];
  }

  lemma FetchWaits(s: Spsc.State, count: nat, r: Spsc.State, w: Spsc.State, t: Spsc.State)
    requires |s.slots| > 0 && s.head <= s.tail && s.consumer.Waiting? && |Visible(s)| < count
    requires r == Spsc.Next(s, Spsc.Fetch(count)) && w == Spsc.Run(r, seq(0, _ => Spsc.ReadSlot))
    requires t == Spsc.Next(w, Spsc.CommitRead)
    ensures t == s
  {
  }

  lemma Opens(s: Spsc.State, needed: nat, filled: nat, r: Spsc.State)
    requires |s.slots| > 0 && s.head <= s.tail
    requires s.consumer.Waiting? && filled == Min(|Visible(s)|, needed)
    requires r == Spsc.Next(s, Spsc.Callback(needed))
    ensures r == s.(consumer := Spsc.Reading(needed, filled, []))
  {
  }

  lemma ReadsAll(s: Spsc.State, r: Spsc.State, filled: nat, w: Spsc.State)
    requires Spsc.Inv(s) && Spsc.Inv(r) && r.consumer.Reading? && filled == r.consumer.count
    requires r == s.(consumer := Spsc.Reading(r.consumer.needed, filled, []))
    requires w == Spsc.Run(r, seq(filled, _ => Spsc.ReadSlot))
    ensures Spsc.Inv(w) && filled <= |Visible(s)|
    ensures w == s.(consumer := Spsc.Reading(r.consumer.needed, filled, Visible(s)[..filled]))
  {
    ReadSlots(r, filled);
    RunFromKeepsInv(r, seq(filled, _ => Spsc.ReadSlot));
  }

  lemma CommitVisible(s: Spsc.State, t: Spsc.State)
    requires Spsc.Inv(s) && s.consumer.Reading? && |s.consumer.got| == s.consumer.count
    requires t == Spsc.Next(s, Spsc.CommitRead)
    ensures var c := s.consumer;
            && Spsc.Inv(t)
            && t.outputs == s.outputs + [Spsc.Output(s.head, c.count, c.got + Silence(c.needed - c.count))]
            && Visible(t) == Visible(s)[c.count..]
  {
    var c := s.consumer;
    Spsc.StepKeepsInv(s, Spsc.CommitRead, t);
    Spsc.CommitReadIs(s, Spsc.Output(s.head, c.count, c.got + Silence(c.needed - c.count)));
    VisibleShrinks(s, t);
  }

  lemma VisibleShrinks(s: Spsc.State, t: Spsc.State)
    requires Spsc.Inv(s) && Spsc.Inv(t) && s.offers == t.offers && s.head <= t.head && s.tail == t.tail
    ensures Visible(t) == Visible(s)[t.head - s.head..]
  {
    VisibleIsStretch(s);
    VisibleIsStretch(t);
  }

  lemma {:induction false} RunFromKeepsInv(s: Spsc.State, steps: seq<Spsc.Step>)
    requires Spsc.Inv(s) && |s.slots| > 0
    ensures Spsc.Inv(Spsc.Run(s, steps))
  {
    if steps != [] {
      RunFromKeepsInv(s, steps[..|steps| - 1]);
      Spsc.NextKeepsInv(Spsc.Run(s, steps[..|steps| - 1]), steps[|steps| - 1]);
    }
  }

  /** `t` differs from `s` in the slots and in how much of the chunk has been written. */
  predicate StillWriting(s: Spsc.State, t: Spsc.State, done: nat) {
    s.producer.Writing? && |t.slots| == |s.slots| && t == s.(slots := t.slots, producer := s.producer.(done := done))
  }

  lemma {:induction false} WriteSlots(s: Spsc.State, j: nat)
    requires |s.slots| > 0 && s.producer.Writing? && s.producer.done == 0 && j <= |s.producer.frame|
    ensures StillWriting(s, Spsc.Run(s, seq(j, _ => Spsc.WriteSlot)), j)
  {
    if j > 0 {
      WriteSlots(s, j - 1);
      var steps: seq<Spsc.Step> := seq(j, _ => Spsc.WriteSlot);
      assert steps[..j - 1] == seq(j - 1, _ => Spsc.WriteSlot) && steps[j - 1] == Spsc.WriteSlot;
    }
  }

  lemma {:induction false} IdleWrites(s: Spsc.State, j: nat)
    requires |s.slots| > 0 && s.producer.Idle?
    ensures Spsc.Run(s, seq(j, _ => Spsc.WriteSlot)) == s
  {
    if j > 0 {
      IdleWrites(s, j - 1);
      var steps: seq<Spsc.Step> := seq(j, _ => Spsc.WriteSlot);
      assert steps[..j - 1] == seq(j - 1, _ => Spsc.WriteSlot) && steps[j - 1] == Spsc.WriteSlot;
    }
  }

  /** What a push hands to the ring. */
  function Offering(frame: seq<i16>, fits: bool): seq<Spsc.Offer> {
    if frame == [] then [] else if fits then [Spsc.Taken(frame)] else [Spsc.Dropped(frame)]
  }

  /**
   Run slot by slot without the consumer in between, a push does what `PushPcm` does: a chunk that fits
   is appended, one that does not is dropped whole and counted, and an empty one changes nothing.
   */
  lemma UninterruptedPush(s: Spsc.State, frame: seq<i16>, r: Spsc.State, w: Spsc.State, t: Spsc.State)
    requires Spsc.Inv(s) && s.producer.Idle? && r == Spsc.Next(s, Spsc.Push(frame))
    requires w == Spsc.Run(r, seq(|frame|, _ => Spsc.WriteSlot))
    requires t == Spsc.Next(w, Spsc.CommitWrite)
    ensures var fits := |Visible(s)| + |frame| <= |s.slots|;
            && Spsc.Inv(t) && t.producer.Idle?
            && t.overruns == s.overruns + (if fits then 0 else 1)
            && Visible(t) == Visible(s) + (if fits then frame else [])
            && t.offers == s.offers + Offering(frame, fits)
  {
    if frame != [] && |Visible(s)| + |frame| <= |s.slots| {
      FittingPush(s, frame, r, w, t);
    } else {
      IdleWrites(r, |frame|);
      Spsc.StepKeepsInv(s, Spsc.Push(frame), r);
      assert t == r && Visible(r) == Visible(s);
    }
  }

  lemma FittingPush(s: Spsc.State, frame: seq<i16>, r: Spsc.State, w: Spsc.State, t: Spsc.State)
    requires Spsc.Inv(s) && s.producer.Idle? && frame != [] && |Visible(s)| + |frame| <= |s.slots|
    requires r == Spsc.Next(s, Spsc.Push(frame))
    requires w == Spsc.Run(r, seq(|frame|, _ => Spsc.WriteSlot))
    requires t == Spsc.Next(w, Spsc.CommitWrite)
    ensures Spsc.Inv(t) && t.producer.Idle? && t.overruns == s.overruns
    ensures Visible(t) == Visible(s) + frame && t.offers == s.offers + [Spsc.Taken(frame)]
  {
    Spsc.StepKeepsInv(s, Spsc.Push(frame), r);
    WriteSlots(r, |frame|);
    RunFromKeepsInv(r, seq(|frame|, _ => Spsc.WriteSlot));
    Spsc.StepKeepsInv(w, Spsc.CommitWrite, t);
    VisibleGrows(s, t, frame);
  }

  lemma VisibleGrows(s: Spsc.State, t: Spsc.State, frame: seq<i16>)
    requires Spsc.Inv(s) && Spsc.Inv(t) && s.producer.Idle? && t.producer.Idle?
    requires t.offers == s.offers + [Spsc.Taken(frame)] && t.head == s.head && t.tail == s.tail + |frame|
    ensures Visible(t) == Visible(s) + frame
  {
    assert t.offers[..|t.offers| - 1] == s.offers;
    assert Spsc.Stream(t.offers) == Spsc.Stream(s.offers) + frame;
    VisibleIsStretch(s);
    VisibleIsStretch(t);
  }
}
