/** The audio pipeline: a fresh ring and zeroed metrics for every stream, and codec frames put on the wire. */
module Pipeline {
  import opened Words
  import Wire
  import Fragment
  import Reassembly
  import SinkEngine

  const MIN_BUFFER_SAMPLES: nat := 4096

  /** Samples the ring of a stream holds. */
  function RingCapacity(sampleRate: u32, channels: u16, jitterMs: u32): (n: nat) {
    Max(sampleRate * channels * jitterMs / 1000, MIN_BUFFER_SAMPLES)
  }

  /**
   The ring holds the configured milliseconds of audio to the sample, but never less than 4096 samples:
   `n` samples fit exactly when they are no more than that or play for no longer than the configured time.
   */
  lemma CapacityIsJitterDepth(sampleRate: u32, channels: u16, jitterMs: u32, n: nat)
    ensures n <= RingCapacity(sampleRate, channels, jitterMs)
       <==> n <= 4096 || n * 1000 <= sampleRate * channels * jitterMs
  {
    var product: nat := (sampleRate * channels) * jitterMs by {
      MulSign(channels, sampleRate);
      MulSign(jitterMs, sampleRate * channels);
    }
  }

  class AudioPipeline {
    const sampleRate: u32
    const channels: u16
    const jitterMs: u32
    const metrics: SinkEngine.Metrics
    const dcf: Fragment.DcfTransport
    var generation: u32

    constructor (sampleRate: u32, channels: u16, jitterMs: u32, dcfPayload: nat)
      ensures this.sampleRate == sampleRate && this.channels == channels && this.jitterMs == jitterMs
      ensures fresh(metrics) && fresh(dcf) && generation == 0
      ensures metrics.framesProcessed == metrics.underruns == metrics.overruns == metrics.bufferLevel == 0
      ensures !metrics.running
      ensures dcf.View() == Fragment.Transport(0, 0, Min(dcfPayload, Fragment.DCF_MAX_PAYLOAD))
    {
      this.sampleRate, this.channels, this.jitterMs, generation := sampleRate, channels, jitterMs, 0;
      metrics := new SinkEngine.Metrics();
      dcf := new Fragment.DcfTransport(dcfPayload);
    }

    /** Nothing of an earlier stream is left: the ring is new and empty, every counter is zero. */
    method CreateStreamBuffers() returns (ring: SinkEngine.SampleRing)
      modifies this`generation, metrics
      ensures fresh(ring) && fresh(ring.slots) && ring.Valid() && ring.Contents() == []
      ensures ring.slots.Length == RingCapacity(sampleRate, channels, jitterMs)
      ensures generation == WrapAdd32(old(generation), 1)
      ensures metrics.framesProcessed == metrics.underruns == metrics.overruns == metrics.bufferLevel == 0
      ensures !metrics.running
    {
      var bufferSamples := Max(sampleRate * channels * jitterMs / 1000, MIN_BUFFER_SAMPLES);
      generation := WrapAdd32(generation, 1);
      metrics.framesProcessed, metrics.underruns, metrics.overruns, metrics.bufferLevel := 0, 0, 0, 0;
      metrics.running := false;
      ring := new SinkEngine.SampleRing(bufferSamples);
    }

    /**
     The wire bytes of one codec frame. Each parses back to the DCF frame it was made from, unless a payload
     limit below the fragment header lets a payload grow beyond the length field.
     */
    method PacketizeAudio(codecFrame: seq<u8>, clock: nat -> u64) returns (wires: seq<seq<u8>>)
      requires Fragment.Allowed(dcf.View(), Fragment.Packetize(codecFrame))
      requires dcf.maxPayload <= Fragment.DCF_MAX_PAYLOAD
      modifies dcf
      ensures var made := Fragment.Made(old(dcf.View()), Fragment.Packetize(codecFrame), clock);
              && |wires| == |made|
              && (forall i | 0 <= i < |made| :: wires[i] == Wire.FrameBytes(made[i]))
              && (dcf.maxPayload >= Fragment.FRAGMENT_HEADER_SIZE || |codecFrame| < 0xffff_fff9 ==>
                    forall i | 0 <= i < |made| :: Wire.ParseFrame(wires[i]) == Wire.Ok(made[i]))
      ensures dcf.View() == Fragment.After(old(dcf.View()), Fragment.Packetize(codecFrame), clock)
    {
      ghost var t := dcf.View();
      var frames := dcf.PacketizeFrame(codecFrame, clock);
      wires := seq(|frames|, i requires 0 <= i < |frames| => Wire.FrameBytes(frames[i]));
      forall i: nat | i < |frames| && (t.maxPayload >= Fragment.FRAGMENT_HEADER_SIZE || |codecFrame| < 0xffff_fff9)
        ensures Wire.ParseFrame(Wire.FrameBytes(frames[i])) == Wire.Ok(frames[i])
      {
        MadeConsistent(t, codecFrame, clock, i);
        Wire.FrameRoundTripIff(frames[i]);
      }
    }
  }

  lemma MadeConsistent(t: Fragment.Transport, codecFrame: seq<u8>, clock: nat -> u64, i: nat)
    requires Fragment.Allowed(t, Fragment.Packetize(codecFrame)) && t.maxPayload <= Fragment.DCF_MAX_PAYLOAD
    requires t.maxPayload >= Fragment.FRAGMENT_HEADER_SIZE || |codecFrame| < 0xffff_fff9
    requires i < |Fragment.Made(t, Fragment.Packetize(codecFrame), clock)|
    ensures Wire.Consistent(Fragment.Made(t, Fragment.Packetize(codecFrame), clock)[i])
  {
    var usable := Fragment.Usable(t);
    Reassembly.PieceAt(codecFrame, usable, t.frameId, i);
    Reassembly.PacketPayload(codecFrame, usable, t.frameId, t.sequence, clock, i);
  }
}
