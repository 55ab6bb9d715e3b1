# DeMoD Bluetooth audio: a verified model

DeMoD receives Bluetooth audio (A2DP), decodes it, plays it, forwards it in DCF frames, and keeps a
session and a volume in step with BlueZ. This project models that program in Dafny and proves what it
guarantees, part by part:

- **Audio data path.** `Codec` is the state-keeping half of the SBC codec around an abstract decoder,
  with packet-loss concealment. `Reader` is the Bluetooth reader thread. `Spsc` is the ring between two
  threads, one slot access per step, in every interleaving; `SinkEngine` is the same ring on an array,
  with the audio callbacks, the volume scaling and the metrics. `Channels` follows samples from the
  Bluetooth bytes to the speaker.
- **DCF.** `Crc` proves the checksum loop to be a polynomial remainder (`Gf2` is the algebra). `Wire` is
  the frame format, `Fragment` the fragmentation and the transport's counters, `Reassembly` the inverse of
  fragmentation, `DcfServer` the GUI socket, `Pipeline` the ring sizing and packetized audio.
- **Adaptive estimators.** `Jitter` and `JitterBuffer` are the jitter estimator over exact reals, and
  `JitterCoverage` says how much of a history its target covers; `Resampler` is the linear resampler.
  `Reals` holds facts about products, `Words` machine integers.
- **Control.** `Session` is the AVDTP session. `Runtime` is the engine lifecycle, the event queue and the
  volume. `ControlPlane` is the event loop broken into its single calls, with reader threads, callbacks,
  BlueZ and clients moving in between; `VolumeSync` is the two-way volume on top of it, `Daemon` the loop
  on the runtime object.

Code that works in place is modelled in place: classes with fields, arrays, loops with invariants, each
method proved against a function of the old state; the theorems are about those functions.

## Where the code differs from its comments

Where a property fails, a theorem below gives the exact condition under which it holds, or proves what the code
does instead.

- Concealment does not fade by 6 dB a frame (`rust/src/codec.rs:310`): the attenuated frame is written back
  and shifted again, further each time, so the k-th concealment is shifted by k(k+1)/2.
- The resampler does not blend the current and the next sample (`rust/src/audio.rs:184`) but the previous and
  the next one. Before the cut to an integer the two values agree exactly where these samples are equal; at
  whole positions that decides the written sample too, so the first output is zero whatever the input, and a
  straight line of samples comes out as a saw.
- A jitter target of mean + 3 stddev does not cover 99.7% of arrivals (`rust/src/audio.rs:27`). A target of
  mean + k stddev leaves at most the share p of every history above it exactly when p (1 + k^2) >= 1: at three
  standard deviations that is 90%, and 99.7% needs more than eighteen. A single late arrival after any number
  of regular ones is covered to 99.7% again exactly from the 94th regular one on.
- The CRC is called CRC-8/MAXIM (`rust/src/dcf.rs:346`), a name that usually means the bit-reflected form; the
  code shifts to the left. The code is what is modelled.
- The DCF transport is said to do reassembly (`rust/src/dcf.rs:289`); there is none in the repository. The ones in
  `Reassembly` are specifications. Going by offsets, as the offset field suggests, a frame is recovered exactly
  when its last fragment starts below byte 65536. Going by indices, a frame of any length is recovered as long
  as it has at most 256 fragments. Two fragments of one frame agree in both fields only a multiple of 256
  fragments and of 65536 bytes apart.
- `acquire_and_start` over a running engine forgets the transport it has just acquired
  (`rust/src/runtime.rs:539`, then `rust/src/runtime.rs:500`), so that engine's synthetic release has an empty path
  and volume changes no longer reach BlueZ.
- A reader thread that exits before its stream is marked as running (`rust/src/engine.rs:214`) is never noticed,
  and one that exits later only once a callback has moved audio (`rust/src/runtime.rs:421`).

## Assumptions

- The decoder (libsbc) is any state machine that looks at no more than `frameLength` bytes, takes at least one
  of them when it succeeds, and fits its samples into the buffer the engine allocates (`Codec.Decoder.Contract`).
- Floating point is exact real arithmetic. The square root is a parameter s with s >= 0 and s * s = v.
- The clock, what each read returns, whether BlueZ grants a transport or accepts a volume, whether an engine
  comes up, and which socket writes succeed are parameters or moves of the outside.
- Sums, differences and products of machine words wrap, as in release builds, where the model does not say
  otherwise under "Left out".
- With a payload limit of exactly 7, cutting a frame that is not empty panics (`rust/src/dcf.rs:254`). Clamping to
  bounds out of order panics too (`rust/src/audio.rs:109`). These are preconditions of the calls in question.

## Model

| member | source | states |
|---|---|---|
| Crc.Crc8Maxim | rust/src/dcf.rs:347-360 | the loop computes the checksum function the theorems are about |
| Crc.CrcIsRemainder | rust/src/dcf.rs:347-360 | the checksum, and no other byte, is M(x) x^8 mod x^8+x^5+x^4+1 over GF(2) |
| Crc.CrcLinear | rust/src/dcf.rs:347-360 | the checksum of the xor of two equally long messages is the xor of their checksums |
| Crc.CollisionIff | rust/src/dcf.rs:347-360 | two messages of any lengths collide exactly when the generator divides their difference |
| Crc.MsgPolyBits | rust/src/dcf.rs:347-360 | which bit of which byte each power of the message polynomial stands for |
| Crc.ErrorBits | rust/src/dcf.rs:347-360 | the error positions of two messages are exactly the bits in which they differ |
| Crc.CrcParity | rust/src/dcf.rs:347-360 | the checksum has the parity of the message |
| Crc.OddErrorDetected | rust/src/dcf.rs:347-360 | every odd number of flipped bits changes the checksum |
| Crc.BurstDetected | rust/src/dcf.rs:347-360 | every change within eight consecutive bits, also across bytes, changes the checksum |
| Crc.CyclesIff | rust/src/dcf.rs:347-360 | powers of x repeat modulo the generator with period exactly 127 |
| Crc.TwoBitErrorDetectedIff | rust/src/dcf.rs:347-360 | two flipped bits go unnoticed exactly when their distance is a multiple of 127 |
| Gf2.RemainderIffDivisible | rust/src/dcf.rs:347-360 | a byte is the remainder exactly when it is narrow enough and congruent to the dividend |
| Gf2.RemainderUnique | rust/src/dcf.rs:347-360 | there is only one remainder |
| Wire.FromU8 | rust/src/dcf.rs:49-82 | a byte is the type whose byte it is, and none for every other byte |
| Wire.HeaderRoundTrip | rust/src/dcf.rs:116-141 | a header comes back from its seventeen bytes, whatever follows |
| Wire.HeaderOfBytes | rust/src/dcf.rs:116-141 | any seventeen bytes are the bytes of the header they parse to |
| Wire.FrameLayout | rust/src/dcf.rs:88-171 | type, sequence number, time and length at their places, most significant byte first, then the payload |
| Wire.FrameRoundTripIff | rust/src/dcf.rs:167-191 | a frame survives serialisation exactly when its length field is its payload length |
| Wire.NewFrameRoundTripIff | rust/src/dcf.rs:161-191 | a frame made by the library survives exactly when its payload is shorter than 2^32 |
| Wire.ParsedIsPrefix | rust/src/dcf.rs:175-191 | whatever parses is the serialisation of a prefix of the data |
| Wire.CutFrameIsTooShort | rust/src/dcf.rs:175-191 | no proper prefix of a frame parses; reported is how many bytes were needed and how many there were |
| Wire.StreamRoundTrip | rust/src/dcf.rs:167-191 | concatenated frames are parsed back exactly, in order, with any unfinished rest left over |
| Wire.StreamOfParsed | rust/src/dcf.rs:175-191 | parsing a stream loses no byte, and what is left holds no frame |
| Fragment.PieceRoundTrip | rust/src/dcf.rs:209-222 | the seven-byte fragment header and body come back from the payload |
| Fragment.PieceLayout | rust/src/dcf.rs:209-222 | frame id, index, count, offset and flags at their places in the seven bytes, then the body |
| Fragment.FragmentPayload | rust/src/dcf.rs:260-276 | the bytes built for fragment i are those of the piece at index i, with its narrowed index, count and offset |
| Fragment.FragmentChunks | rust/src/dcf.rs:253-282 | a frame that does not fit becomes its fragments, numbered onwards |
| Fragment.FragmentAudio | rust/src/dcf.rs:230-283 | the frames made are the packets of the codec frame, for every limit that does not panic, and the sequence number moves on by their number |
| Fragment.PacketTypes | rust/src/dcf.rs:239-281 | a frame that fits goes out as one packet of type 0x10, otherwise each of several has type 0x11; each carries its own clock reading |
| Fragment.DcfTransport.constructor | rust/src/dcf.rs:301-307 | counters start at zero, the payload limit is capped at 1455 |
| Fragment.DcfTransport.PacketizeFrame | rust/src/dcf.rs:315-319 | the frames of the call and the counters after it, both wrapping |
| Fragment.DcfTransport.ControlMessage | rust/src/dcf.rs:322-326 | one frame with the next sequence number, the frame id untouched |
| Fragment.SequencesConsecutive | rust/src/dcf.rs:315-326 | any mix of audio and control calls, under any payload limit, numbers its frames consecutively modulo 2^32 |
| Fragment.FrameAt | rust/src/dcf.rs:103-326 | every frame any calls emit: its sequence number counts those before it, its time is the reading made for it, its type and payload are those of the call |
| Reassembly.WrittenMeaning | rust/src/dcf.rs:254-276 | a byte is known exactly when a received piece covers it, and then it is the frame's byte |
| Reassembly.ReassembleFaithful | rust/src/dcf.rs:254-276 | faithful pieces give the frame back exactly when they cover it up to a known end |
| Reassembly.PieceAt | rust/src/dcf.rs:254-276 | which bytes, offset, index, count and FIRST and LAST flags each fragment carries, and that the fragments adjoin |
| Reassembly.PacketsFit | rust/src/dcf.rs:230-283 | no packet is larger than the payload limit, all but the last of several fill it, and the last is not without a byte of the frame |
| Reassembly.RecoveredIff | rust/src/dcf.rs:269 | going by offsets, with all fragments at hand, a frame is recovered exactly when its last offset fits 16 bits |
| Reassembly.SamePlaceIff | rust/src/dcf.rs:269-274 | two fragments of a frame carry the same index and offset exactly when a multiple of 256 fragments and of 65536 bytes lies between them |
| Reassembly.IndexRecovers | rust/src/dcf.rs:253-276 | going by indices, a frame of up to 256 fragments comes back exactly if all of them arrived, however long it is |
| Reassembly.IndexRecoversReceived | rust/src/dcf.rs:230-283 | the same among the fragments of up to 65536 calls, lost, repeated or reordered |
| Reassembly.ReassembleReceived | rust/src/dcf.rs:230-283 | from any mix of fragments of up to 65536 calls, lost, repeated or reordered, a frame comes back exactly if all of its fragments arrived |
| Reassembly.WireToFrame | rust/src/dcf.rs:230-326 | the codec frame of a packetize call, among control messages none of which passes for a fragment of it, comes back over serialisation, the byte stream, parsing and reassembly by offsets exactly if every frame made for it has arrived |
| Reassembly.PiecesArriveWithPackets | rust/src/dcf.rs:230-283 | all fragments of a frame are found in what arrived exactly if all its packets arrived |
| Reassembly.PassingReplaces | rust/src/dcf.rs:237-326 | a control message that passes for a frame sent whole replaces it: the frame comes back exactly if the message carries its bytes |
| DcfServer.ReadFrame | rust/src/dcf_server.rs:156-182 | one turn handles the next frame, or ends the loop where it is incomplete or too long |
| DcfServer.ReadClient | rust/src/dcf_server.rs:150-185 | the events are those of the client's frames, in order, up to the first that is incomplete or longer than 256 |
| DcfServer.CommandInLowerCaseIff | rust/src/dcf_server.rs:174-194 | a command's message, read in lower case, is the command in lower case exactly if the first character's upper case lower-cases back to that character |
| DcfServer.ClientFramesHandled | rust/src/dcf_server.rs:155-165 | frames of at most 256 bytes sent back to back are all handled, in order |
| DcfServer.ClientVolumeHandled | rust/src/dcf_server.rs:168-172 | a volume frame sets the volume to its first byte, behind what the frames before it asked for |
| DcfServer.ClientCommandHandled | rust/src/dcf_server.rs:173-194 | a command followed by any number of zeros is forwarded with its first letter in upper case |
| DcfServer.LongFrameEnds | rust/src/dcf_server.rs:160 | from the first frame longer than 256 bytes on nothing is handled |
| DcfServer.TrimNulIff | rust/src/dcf_server.rs:175-177 | all zeros at the end of a command come off, and nothing else |
| DcfServer.Server.constructor | rust/src/dcf_server.rs:64-89 | a new server has no client and sequence number zero |
| DcfServer.Server.Accept | rust/src/dcf_server.rs:68-80 | a new client has been sent nothing |
| DcfServer.Server.Broadcast | rust/src/dcf_server.rs:94-115 | the clients whose writes succeed are kept in order, each with the new frame behind what it had |
| DcfServer.RetainWritable | rust/src/dcf_server.rs:111-114 | header and payload are written to every client; those that took both are kept |
| DcfServer.RetainedAt | rust/src/dcf_server.rs:111-114 | exactly the clients whose writes succeed are kept, each in its rank, with the frame behind what it had |
| DcfServer.ClientReadsHistory | rust/src/dcf_server.rs:94-115 | a connected client parses its bytes to exactly the frames broadcast since it joined |
| Pipeline.CapacityIsJitterDepth | rust/src/transport.rs:174-179 | n samples fit the ring exactly when they are no more than 4096 or last no longer than the configured time |
| Pipeline.AudioPipeline.constructor | rust/src/transport.rs:146-165 | no stream begun, all metrics at zero, a fresh transport |
| Pipeline.AudioPipeline.CreateStreamBuffers | rust/src/transport.rs:173-198 | a new empty ring of the right size, all metrics zero, not running, the next generation |
| Pipeline.AudioPipeline.PacketizeAudio | rust/src/transport.rs:216-222 | the serialised DCF frames of the call; each parses back to its frame, unless a payload limit below 7 lets a payload outgrow the length field; the transport's counters move on |
| Codec.ShrIsDivision | rust/src/codec.rs:341 | the arithmetic right shift is division by a power of two, rounding down |
| Codec.SbcCodec.constructor | rust/src/codec.rs:224-231 | nothing remembered, no concealment so far |
| Codec.SbcCodec.DecodeFrame | rust/src/codec.rs:259-283 | a good frame with samples is remembered and resets the concealment count; an error or an empty frame changes neither |
| Codec.SbcCodec.Plc | rust/src/codec.rs:303-350 | the replacement frame in the output and the state left for the next one, in all three branches |
| Codec.SbcCodec.Reset | rust/src/codec.rs:352-357 | forgets the frame and the count, keeps the decoder |
| Codec.ConcealRunState | rust/src/codec.rs:324-347 | the remembered frame after any run of concealments with frames of varying lengths |
| Codec.ConcealmentClosedForm | rust/src/codec.rs:303-350 | the last concealment of such a run, sample by sample |
| Codec.SilentFromNine | rust/src/codec.rs:326-333 | silence from the ninth concealment in a row on |
| Codec.PlcClosedForm | rust/src/codec.rs:303-350 | the k-th concealment of frame p is floor(p / 2^(k(k+1)/2)) for k up to 8 |
| Codec.PlcInaudibleFromFive | rust/src/codec.rs:303-350 | from the fifth concealment on every sample is 0 or -1 |
| Codec.SixDecibelsIff | rust/src/codec.rs:310-347 | the documented 6 dB a frame holds for the first concealment, and later only for samples already too small to survive |
| Codec.FadeSinceDecode | rust/src/codec.rs:259-350 | whatever happened before a frame p was decoded, and with any errors and empty frames since, the k-th loss is floor(p / 2^(k(k+1)/2)) for k up to 8, then silence |
| Codec.OnlyLossesCount | rust/src/codec.rs:259-350 | errors and empty frames leave the fade where it is |
| Codec.PastForgotten | rust/src/codec.rs:277-280 | after a frame with samples nothing before it matters, except for the decoder's own context |
| Codec.SilenceUntilDecode | rust/src/codec.rs:315-322 | after a reset, or in a new codec, every loss of n samples gives n zeros until a frame has been decoded |
| Reader.NextFrame | rust/src/engine.rs:338-355 | a decoded frame, or one concealment and one byte skipped |
| Reader.DecodeBuffered | rust/src/engine.rs:336-356 | decodes all complete frames as the greedy decode does |
| Reader.ReadOnce | rust/src/engine.rs:324-364 | one read with the leftover in front: the greedy decode of both, and its rest |
| Reader.BtReaderLoop | rust/src/engine.rs:301-365 | frames offered, codec state and leftover are those of one greedy decode of all bytes read, however they were cut |
| Reader.DeliveredUntilEnd | rust/src/engine.rs:301-322 | reads count in order up to the first stop, end of file or error; interrupted ones are tried again |
| Reader.GreedyAppend | rust/src/engine.rs:324-364 | decoding a + b is decoding a, then its rest together with b |
| Reader.FramesComeBack | rust/src/engine.rs:336-364 | frames laid end to end, by the decoder's own account of each, are all decoded, take exactly their bytes, and leave the tail |
| Reader.SeparateFramesComeBack | rust/src/engine.rs:336-364 | the same for byte strings that each decode on their own |
| Reader.Positions | rust/src/engine.rs:336-364 | each frame starts where the decoder says the one before it ended, or one byte on after an error; what is decoded there and the codec state after it |
| Reader.FillersFade | rust/src/engine.rs:346-354 | the k-th filler in a row after a decoded frame p is floor(p / 2^(k(k+1)/2)) for k up to 8, then silence |
| Reader.OfferedSamples | rust/src/engine.rs:277-281 | handed to the ring are all samples produced, in order, and no empty frame |
| Reader.ChunkingIndependence | rust/src/engine.rs:301-365 | every cutting of a stream into reads gives the outcome of one greedy decode |
| Reader.SamePrefix | rust/src/engine.rs:338-341 | bytes beyond the first frame length do not change a decode |
| Reader.Accounting | rust/src/engine.rs:324-364 | bytes read = consumed + skipped + leftover, one filler frame a skipped byte, leftover shorter than a frame |
| Spsc.RunKeepsInv | rust/src/engine.rs:124-299 | the ring invariant in every interleaving of slot accesses and commits |
| Spsc.Fifo | rust/src/engine.rs:124-299 | what is played is a prefix of the chunks taken, drops are the overruns, the rest is the level, never above capacity |
| Spsc.NoSlotShared | rust/src/engine.rs:285-294 | the slots being written and the slots being read never coincide |
| SinkEngine.SampleRing.constructor | rust/src/transport.rs:197 | an empty ring of the given capacity |
| SinkEngine.SampleRing.FillSlice | rust/src/engine.rs:288-293 | one slice of a chunk lands in the slots of its stream positions |
| SinkEngine.SampleRing.WriteChunk | rust/src/engine.rs:285-294 | a chunk goes in whole across the end of the array, or not at all for lack of room |
| SinkEngine.SampleRing.ReadChunk | rust/src/engine.rs:133-140 | the oldest samples are copied out in order and their slots freed |
| SinkEngine.PushPcm | rust/src/engine.rs:281-299 | a frame is queued whole or counted as one overrun; an empty one does nothing |
| SinkEngine.ZeroFill | rust/src/engine.rs:163-166 | silence from the given index on, nothing before it touched |
| SinkEngine.ScaleInPlace | rust/src/engine.rs:171-175 | every sample scaled once |
| SinkEngine.ScaleLaws | rust/src/engine.rs:168-175 | scaling never amplifies or changes sign, is monotone in the volume, mute at zero, and equal to the formula it skips at 127 |
| SinkEngine.ScaleRounds | rust/src/engine.rs:168-175 | the scaled sample is sample * volume / 127 cut to the next integer on the side of zero |
| SinkEngine.ScaleOdd | rust/src/engine.rs:168-175 | negating a sample negates the scaled one: truncation is towards zero |
| SinkEngine.Drain | rust/src/engine.rs:125-161 | as many of the oldest samples as fit the buffer, or all there are |
| SinkEngine.OutputCallback | rust/src/engine.rs:124-187 | plays the oldest samples then silence, scaled, with exact metrics and ring contents |
| SinkEngine.CaptureCallback | rust/src/engine.rs:409-424 | a captured buffer is queued whole and counted, or counted as one overrun |
| SinkEngine.FetchFrame | rust/src/engine.rs:485-497 | exactly one codec frame's samples in order, or none |
| SinkEngine.VisibleIsStretch | rust/src/engine.rs:124-161 | what the consumer sees is the unplayed stretch of the stream |
| SinkEngine.UninterruptedCallback | rust/src/engine.rs:124-187 | the slot-by-slot callback, left alone, does what the method does |
| SinkEngine.UninterruptedFetch | rust/src/engine.rs:485-497 | the slot-by-slot fetch, left alone, takes exactly the samples asked for, or nothing |
| SinkEngine.UninterruptedPush | rust/src/engine.rs:281-299 | the slot-by-slot push, left alone, appends a chunk that fits, drops one that does not whole with one overrun, and ignores an empty one |
| Channels.OfferedGroups | rust/src/engine.rs:338-355 | decoded and filler frames are whole numbers of channel groups |
| Channels.RunAligned | rust/src/engine.rs:131-166 | ring positions stay whole groups through overruns and partial underruns |
| Channels.ChannelsKept | rust/src/engine.rs:131-299 | in every run the level is a whole number of groups, and each played sample is the one at its stream position, from the chunk holding it, at an index of the same channel |
| Channels.BytesToSpeaker | rust/src/engine.rs:124-365 | from arbitrary Bluetooth bytes, reads and interleavings: chunks taken are those of one greedy decode, samples played a prefix of theirs, the rest is the level, drops are the overruns, and each played sample is in its channel |
| Jitter.RunningUpdateIsExact | rust/src/audio.rs:96-98 | the two running updates give the batch exponentially weighted mean and variance of the longer history |
| JitterCoverage.OneSidedBound | rust/src/audio.rs:100-102 | at most 1/(1 + k^2) of the weight of any history lies above mean + k stddev |
| JitterCoverage.Coverage | rust/src/audio.rs:100-102 | at most a tenth of the weight of any history lies above mean + 3 stddev |
| JitterCoverage.CoversIff | rust/src/audio.rs:27 | mean + k stddev leaves at most the share p of every history above it exactly when p (1 + k^2) >= 1 |
| JitterCoverage.LateArrivalIff | rust/src/audio.rs:95-102 | an interval lies above the target it leads to exactly when it is late and 0.8 d^2 exceeds nine variances; then 2% of the weight does |
| JitterCoverage.DocumentedCoverageFails | rust/src/audio.rs:27 | a history for which 2%, not 0.3%, lies above the target |
| JitterCoverage.OutlierShare | rust/src/audio.rs:95-102 | regular arrivals, one outlier, j regular ones: 0.02 * 0.98^j of the weight lies above the target if it was late, else nothing |
| JitterCoverage.OutlierCoveredIff | rust/src/audio.rs:27 | such a history is covered to 99.7% exactly if the outlier was not late or j >= 94 |
| JitterBuffer.ReplayIsBatch | rust/src/audio.rs:81-98 | after every arrival history the running estimate is the batch one, first packets and long gaps skipped |
| JitterBuffer.ReplayCovers | rust/src/audio.rs:94-110 | after every arrival history at most a tenth of the weight lies above the target |
| JitterBuffer.DepthIsExact | rust/src/audio.rs:57-59 | while 200 ms fits 32 bits, depths of up to 200 ms are exact and not above the upper bound |
| JitterBuffer.ToSamplesIff | rust/src/audio.rs:104-106 | a depth computed from a time holds exactly the samples, all channels counted, that play within it |
| JitterBuffer.DepthsAgree | rust/src/audio.rs:57-106 | the running target and the bounds turn the same time into the same depth, while the products fit |
| JitterBuffer.DepthCases | rust/src/audio.rs:104-110 | when the depth is the upper bound, the lower bound, or the most that plays within the target |
| JitterBuffer.DepthUnique | rust/src/audio.rs:104-110 | within the bounds only one depth does that |
| JitterBuffer.CountedIff | rust/src/audio.rs:81-93 | an interval counts exactly if it lies between two arrivals in a row, the first not at zero, and is no longer than a second |
| JitterBuffer.ArrivalsUncovered | rust/src/audio.rs:78-102 | two arrivals that leave 2% of the weight above the target |
| JitterBuffer.AdaptiveJitter.constructor | rust/src/audio.rs:56-74 | the state before the first packet, with bounds computed in wrapping 32-bit products |
| JitterBuffer.AdaptiveJitter.OnPacket | rust/src/audio.rs:78-122 | the fields are the batch statistics of all arrivals, the depth holds what plays within mean + 3 stddev, cut to its bounds, and skipped arrivals leave it |
| JitterBuffer.AdaptiveJitter.Update | rust/src/audio.rs:95-110 | one counted interval: both updates and the new depth, by what plays within the target |
| Resampler.PositionLinear | rust/src/audio.rs:196-201 | output k falls at phase + k times the step |
| Resampler.ReachedIff | rust/src/audio.rs:183-202 | output w lies at or beyond sample n exactly when ceil((n - phase) ratio) outputs come before it |
| Resampler.BlendBetween | rust/src/audio.rs:191-193 | every output lies between the two samples it blends, so it fits 16 bits |
| Resampler.ValueAffine | rust/src/audio.rs:191-192 | between two whole positions the value before the cut is an affine function of the position |
| Resampler.ValueFromSamples | rust/src/audio.rs:183-192 | that value in terms of the samples before and after the current one, at the edges of a block too |
| Resampler.OutputFromSamples | rust/src/audio.rs:183-193 | the sample written is the integer next to that value on the side of zero |
| Resampler.RampBecomesSaw | rust/src/audio.rs:183-202 | a straight line of samples comes out as a saw, below the documented line by one slope times what is left of the interval |
| Resampler.BufferSuffices | rust/src/audio.rs:208-210 | a buffer of output_size always takes every output of the block |
| Resampler.LinearResampler.constructor | rust/src/audio.rs:168-172 | the given ratio, phase zero, no sample remembered |
| Resampler.LinearResampler.New | rust/src/audio.rs:157-173 | none for equal rates, else a new resampler of their ratio |
| Resampler.LinearResampler.Advance | rust/src/audio.rs:197-201 | the whole part of the phase moves into the index, the remembered sample with it |
| Resampler.LinearResampler.Emit | rust/src/audio.rs:184-201 | one output written, the position moved on by one step |
| Resampler.LinearResampler.Fill | rust/src/audio.rs:180-204 | the loop: all outputs made are those of their positions |
| Resampler.LinearResampler.Process | rust/src/audio.rs:179-205 | exactly the outputs falling into the block are written, as far as there is room, and index + phase is the position reached |
| Resampler.SplitLaw | rust/src/audio.rs:179-205 | upsampling, the total over any split into blocks is ceil(total ratio) |
| Resampler.SingleSamples | rust/src/audio.rs:197-204 | downsampling, blocks of one sample give one output each |
| Resampler.SplitLawIff | rust/src/audio.rs:179-205 | the count is independent of the split exactly when upsampling |
| Resampler.OneSecond | rust/src/audio.rs:168-205 | a block of one second at the input rate gives one second at the output rate |
| Resampler.BlendsCurrentIff | rust/src/audio.rs:184-192 | at every position of every block the blend before the cut is the documented one exactly when the remembered and the current sample are equal |
| Resampler.WholePositionIff | rust/src/audio.rs:184-193 | at whole positions the sample before the current one is written, so the output is the documented one exactly when they are equal |
| Resampler.FirstOutputIff | rust/src/audio.rs:168-193 | the first output is zero, the documented one exactly if the first sample is zero |
| Session.StoredStates | haskell/src/DeMoD/BT.hs:106-156 | after every history the stored session is idle, configured or streaming |
| Session.ConfiguredIff | haskell/src/DeMoD/BT.hs:106-156 | configured exactly after a codec event that found it idle, with no acquisition or disconnection since |
| Session.StreamingIff | haskell/src/DeMoD/BT.hs:106-156 | streaming exactly if the history is h1, codec, h2, acquisition, h3 with idle after h1, nothing ending h2 and nothing ending h3 |
| Session.CodecOfIff | haskell/src/DeMoD/BT.hs:146-152 | which names stand for which codec, whatever the case of their letters; all others are SBC |
| Runtime.Runtime.constructor | rust/src/runtime.rs:76-113 | no engine, empty queue, volume 127 |
| Runtime.Runtime.PollEvent | rust/src/runtime.rs:417-439 | the synthetic release of a dead engine first, then the queue in order, codec configurations remembered |
| Runtime.Runtime.Stop | rust/src/runtime.rs:497-503 | no engine, no transport, nothing streaming; the volume read back is the last one set |
| Runtime.Runtime.Start | rust/src/runtime.rs:447-494 | stops what runs, resets the metrics, and streams exactly if the engine comes up, at the last volume |
| Runtime.Runtime.Acquire | rust/src/runtime.rs:510-550 | all four outcomes and when each occurs; a granted transport is announced before the engine starts; a refusal changes nothing |
| Runtime.Runtime.SetLocalVolume | rust/src/runtime.rs:561-585 | the volume here, and the write to BlueZ only for a new volume with a connection and a transport |
| Runtime.Runtime.SetRemoteVolume | rust/src/runtime.rs:589-595 | the volume here, without a write |
| Runtime.RunKeepsInv | rust/src/runtime.rs:484-486 | in every run the engine plays at the last volume, and a live reader means a running stream |
| Runtime.VolumeSurvivesRestarts | rust/src/runtime.rs:561-602 | in every run the volume read back is the newest one set by either side, whatever engines did |
| Runtime.EventDelivery | rust/src/runtime.rs:417-439 | in every run the events sent are those returned by polls followed by those queued: in order, none lost, none twice |
| Runtime.EngineConservation | rust/src/runtime.rs:417-503 | engines begun = synthetic releases + engines stopped + the one still there |
| Runtime.EngineOrigin | rust/src/runtime.rs:447-550 | the engine there was begun by one step of the run, and the active transport is what that step left |
| Runtime.SyntheticReleasePath | rust/src/runtime.rs:417-430 | a synthetic release carries the path of the acquisition that began the engine if it found none, and no path if it replaced one |
| Runtime.PathIsLost | rust/src/runtime.rs:417-550 | a run of two acquisitions whose release announces no path |
| Runtime.WritesToNewest | rust/src/runtime.rs:561-585 | in every run a write to BlueZ goes to the transport of the newest acquisition granted, with the new volume |
| Runtime.AcquiredConfig | rust/src/runtime.rs:433-545 | in every run an acquisition starts its engine with the newest configuration negotiated and polled or started with, or with the default |
| Runtime.EarlyExitUnnoticed | rust/src/engine.rs:201-214 | after a start whose reader was gone before the stream was marked as running, no poll reports it and the stream counts as running until the next start or stop |
| Runtime.DeadReaderFoundIff | rust/src/runtime.rs:419-430 | after a start and any steps that keep the engine unreported, the next poll reports it exactly if its reader outlived the start, has exited, and the callbacks that moved audio, counted in 32 bits, are not zero |
| ControlPlane.RunKeepsAgreement | haskell/src/DeMoD/BT.hs:96-156 | between any two calls of the handler, session and streaming are as far as its progress says |
| ControlPlane.SessionFollowsHistory | haskell/src/DeMoD/BT.hs:81-156 | in every interleaving the stored session is the one the handled events make |
| ControlPlane.TeardownAgreement | haskell/src/DeMoD/BT.hs:106-144 | in every interleaving, when a release or disconnection is finished nothing streams and the session is neither open nor streaming |
| ControlPlane.TraceRuns | haskell/src/DeMoD/BT.hs:81-171 | every run of the daemon is a run of the runtime |
| ControlPlane.CommandLoosely | haskell/src/DeMoD/BT/AVRCP.hs:59-70 | case and surrounding space make no difference to a command |
| ControlPlane.VolumeCommands | haskell/src/DeMoD/BT/AVRCP.hs:59-70 | the two volume commands as clients write them |
| ControlPlane.HandledInOrder | haskell/src/DeMoD/BT.hs:81-86 | events are handled in the order polled; without synthetic releases, in the order sent, none lost |
| VolumeSync.SetLocallySync | rust/src/runtime.rs:561-585 | a volume set locally at any time, also with a change in hand, keeps the two in step exactly if it is no news, reaches BlueZ, or a change is pending |
| VolumeSync.MoveKeepsSyncIff | rust/src/runtime.rs:561-595 | a move keeps BlueZ and runtime in step exactly when it does not set a new volume that fails to reach BlueZ with no change pending |
| VolumeSync.VolumeConvergence | haskell/src/DeMoD/BT.hs:158-169 | in every run without such a move BlueZ's volume is the newest pending change, or the local volume, which is then what is read back |
| VolumeSync.WritesAreLocal | rust/src/runtime.rs:587-595 | writes to BlueZ never outnumber local settings, and a run without local settings writes nothing: no echo |
| Daemon.Daemon.constructor | haskell/src/DeMoD/BT.hs:60 | the session is idle before the first poll |
| Daemon.Daemon.HandleEvent | haskell/src/DeMoD/BT.hs:96-171 | session and runtime after each of the eight events, with the teardown guarantee |
| Daemon.Daemon.Round | haskell/src/DeMoD/BT.hs:81-86 | one round handles the next event, synthetic or queued, or changes nothing, as the round function of the theorems below |
| Daemon.StreamComesUp | haskell/src/DeMoD/BT.hs:81-156 | a negotiation and a pending transport lead in three rounds to a configured and then a streaming session, with audio, the negotiated configuration and the last volume |
| Daemon.PendingStreamsIff | haskell/src/DeMoD/BT.hs:113-123 | a pending transport is acquired exactly if nothing streams, and audio streams then exactly if it is granted and the engine comes up |
| Daemon.StreamGoesDown | haskell/src/DeMoD/BT.hs:104-144 | after a release or a disconnection nothing streams and the volume is as before |
| Daemon.VolumeKeys | haskell/src/DeMoD/BT/AVRCP.hs:88-97 | k volume commands move the volume by 10 k, up to 127 or down to 0 |
| Daemon.UninterruptedHandling | haskell/src/DeMoD/BT.hs:96-171 | left alone, the single calls come to exactly what the handler does |

## Left out

- libsbc and liblc3 themselves: the decoder is abstract. The LC3 codec reports all of its input as consumed
  (`rust/src/codec.rs:462`) and does not meet the contract; the engine only ever creates SBC
  (`rust/src/engine.rs:249`).
- encode_frame and the socket write behind `FetchFrame`: what libsbc makes of the samples is not modelled.
- Rounding of floating point: means, variances and phases are exact reals.
- Memory ordering of the ring: its indices are published in order, as rtrb guarantees.
- The concealment counter beyond 2^32 concealments in a row, where the source overflows.
- Overflow of the ring size computation: products beyond the machine word are exact here.
- "Session streaming if and only if the engine streams" is no invariant: the acquisition is queued before the
  engine can fail to start (`rust/src/bluez.rs:449`), and a synthetic release overtakes queued events.
- Sample values at block edges of the resampler: they depend on the split (`rust/src/audio.rs:185-189`); only the
  output count is shown independent of it.
- `register` except for the connection it establishes, adapter enumeration, the D-Bus watcher's parsing and the
  SCMS-T retry. A posted event stands for whatever the watcher and the endpoint send.
- File descriptors and MTUs of an acquired transport, which no modelled code reads.
- Direct calls of `demod_bt_start_stream` and `demod_bt_stop_stream` by clients other than the event loop: they are
  steps of `Runtime`, but not moves of `ControlPlane`, where other clients only set the volume.
- Shutdown, logging, metrics printing, environment variables and C string marshalling.
- Strings beyond ASCII: command names are compared after lower-casing ASCII letters and stripping ASCII spaces.
- DcfServer.ReadClient: the lossy decoding of UTF-8 and the upper case of a character are parameters. The module is
  not listed in `rust/src/lib.rs`, so its volume messages are not among the moves of `VolumeSync`.
- Resampler.LinearResampler.New: a rate of zero, where the source computes with an infinite ratio or step; the reals
  have neither.
- Reassembly.WireToFrame: payload limits of 7 and below, and control messages of 2^32 bytes or more or passing for a
  fragment of the frame in question. The source forbids none of them; `PassingReplaces` says what the last kind does.
- select_configuration, BLE-MIDI, BlueZ version detection, AVRCP metadata and property getters, device-change
  monitoring, and Haskell's D-Bus signal parsing: they hold finite choices or no state worth a theorem here.
