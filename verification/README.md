# A verified model of the WDR lossless audio path

This project models, in Dafny, the path that audio takes through WDR: capture blocks are re-cut into whole frames, encoded,
numbered, checksummed and packed; packed frames cross a network that may reorder and repeat them; the receiver cuts items
out of streams, guards them, puts them back in order, decodes and renders. It also models the machines this path rests on:
the byte ring between the audio callback and its worker, the replay window and the session cipher, the streaming resampler,
the drift estimator, the session machine and the pairing URI.

Classes are the original's structs, updated in place, and every method is proved against a function on the abstract state.
What the repository promises about whole runs is then proved about those functions, for all inputs and all runs.

| Module | What it is |
|---|---|
| `Prelude`, `Bits`, `Machines` | results, fixed-width integers, bitwise operators on naturals, runs of step machines |
| `Crc32`, `Frames`, `Deframing`, `Framing` | checksum, frame wire format, incremental de-framing, items and end marker |
| `Crc32Vectors`, `WireFormat` | what pins them to the published checksum and the stored wire vectors |
| `Jitter`, `JitterRuns`, `JitterCapacity` | the jitter buffer, its runs, what bounds it and what it evicts |
| `ArrivalOrder`, `JitterOrder` | what is asked of the order of arrival, and what the buffer delivers then |
| `Pcm`, `Emitter`, `Sink`, `Receiver` | samples and bytes, numbering and sending, re-cutting, receiving and accounting |
| `ReceiverLaws` | the guard, foreign streams, what follows the end |
| `EndToEnd`, `Lossless` | the composition of all of the above |
| `ReceiverServer`, `Loopback` | the receive loops over datagrams and streams, and the sink run against them |
| `Spsc`, `SpscConcurrent`, `SpscProgress` | the byte ring, driven by one thread and by two, and its progress |
| `Replay`, `DataCipher`, `Secure`, `SecureDelivery` | the anti-replay window, the session cipher, sealed frames, their delivery |
| `Resampler`, `Interpolation` | the resampler, and what its outputs mean |
| `LineFit`, `LeastSquares`, `Drift`, `DriftRuns` | the least-squares fit, the drift controller and its runs |
| `Session`, `SessionLaws` | the session machine, and its laws over runs |
| `ManualUri`, `UriText` | the pairing token, and its text |

## Main results

- **End to end** (`Lossless.CaptureIsRendered`, `Lossless.PcmEndToEnd`, `Loopback.OverDatagrams`, `Loopback.OverStreams`).
  For every profile, every split of a capture into blocks and every delivery in which each frame arrives at least once,
  nothing is lost, and the render device gets the captured whole frames, if and only if the order of arrival is fit
  (`EndToEnd.WellOrdered`): frame 0 arrives first, no frame arrives further ahead than the reorder window, and every new
  frame finds fewer than `cap` others waiting for a missing one. For `Low` and `Balanced` the last condition always holds
  (`EndToEnd.WellOrderedProfiles`). Raw 24-bit PCM is exact if and only if, moreover, no captured sample is −2^23, because
  the encoder clamps symmetrically. `Loopback` runs the sink and the receiver against each other, over datagrams and over
  reliable streams; `ReceiverServer.StreamLane` adds streams of garbage in between.
- **Secure lane end to end** (`SecureDelivery.SecureDeliveryExact`): the same for sealed frames, if and only if, moreover,
  no frame first arrives when one 256 or more ahead of it has arrived.
- **Jitter buffer** (`JitterOrder.SortsAndDeduplicates`, `JitterOrder.CompleteDelivery`, `JitterCapacity.CapHoldsExactly`,
  `JitterCapacity.EvictionExactly`), for every window and capacity.
- **Byte ring under every interleaving and every stale view** (`SpscConcurrent.RefinesQueue`, `WholeFrames`), wait-free on
  both sides (`SpscProgress.PushIsWaitFree`, `PopIsWaitFree`).
- **Replay window** (`Replay.VerdictExact`, `Replay.ReplayWindow.CheckAndRecord`) and **exactly-once opening**
  (`DataCipher.OpenedExact`, `DataCipher.ExactlyOnce`).
- **CRC-32** finds every burst of up to 32 bits, and not every one of 33 (`Crc32.BurstDetected`, `BurstBoundIsSharp`), and is
  the published one (`Crc32Vectors.ResidueExactly`, `CheckValue`).
- **Wire format**: round trip, no proper prefix taken for a frame, stored vectors (`Frames.FrameRoundTrip`,
  `WireFormat.CutFrameIsTruncated`, `LosslessVector`).
- **Resampler** chunk independence, exact counts and bounded history (`Resampler.ChunkIndependence`, `ExactCount`,
  `ResamplerI16.Process`), and that it interpolates (`Interpolation.FrameInterpolates`).
- **Drift**: a steady drift is corrected to the nominal rate after exactly as many updates as the step demands
  (`DriftRuns.SteadyDriftIsCorrected`); least squares, exactness of the fit on a line, which points survive rejection and when these are the points near the line
  (`LineFit.NearPointsKeptExactly`), convergence of the controller, and when it keeps one sign over whole runs.
- **Session** safety over all runs (`SessionLaws.StreamingNeeds`, `EnteredExactly`) and **pairing URI** round trip, both as
  exact conditions.

## Where the code differs from its documentation

The model follows the code.

- The jitter buffer's doc comment says that a full queue emits its oldest frame early. The code drops that frame and counts
  it late (crates/wdr_refsim/src/receiver.rs:458-463), and the frame never comes out. `JitterCapacity.FrameTwoIsLost` is a
  run on which that happens; `JitterCapacity.EvictionExactly` says for which windows and caps it happens at all (of
  the shipped profiles for `Resilient` only), and `JitterOrder.CompleteDelivery` which deliveries escape it.
- The same comment says that a jump counts the missing run as late. The code counts only the frames that were queued and are
  given up (crates/wdr_refsim/src/receiver.rs:442-452), as `JitterRuns.GapJump` states.
- The doc comment calls `cap` a hard bound. A frame that fills the gap while the queue is full is inserted below the new
  watermark and stays there until a gap is jumped or the final drain; until then nothing is evicted, so the queue can
  exceed `cap`.
  `JitterCapacity.CapHoldsExactly` says exactly when the bound holds; of the shipped profiles it fails for `Resilient` only.
- `median` sorts the residuals in place before they are matched with the points again
  (crates/wdr_refsim/src/drift.rs:195-201), so rejection keeps a contiguous stretch of the window and not the points near
  the line. `LineFit.SurvivorsAreContiguous` says what is kept, `LineFit.NearPointsKeptExactly` when that is the points near
  the line, and `LineFit.OutlierSurvives` and `OutlierOutOfPlace` give an outlier that stays.
- The 24-bit adapter's "canonical" form loses −2^23 (crates/wdr_codec/src/adapters/pcm.rs:219). See
  `Pcm.AdapterRoundTrip` and `Pcm.LowestSample`.
- The resampler's comments mention 1024 phases; the table has 4096.
- The replay window is updated before the ciphertext is authenticated (crates/wdr_crypto/src/data_cipher.rs:107-112), so an
  index that fails authentication is spent (`DataCipher.ForgerySpendsIndex`). `DataCipher.OpenedExact` is the exact
  condition under which a record opens.
- `Balanced` and `Resilient` wait for a frame that is 256 behind, but on the secure lane the replay window refuses it
  (crates/wdr_crypto/src/replay.rs:92-104). `SecureDelivery.BalancedOutwaitsReplay` is such a delivery.
- Behind the end marker a datagram is only counted, but on a reliable stream a frame in the same chunk is still rendered
  (crates/wdr_refsim/src/receiver_server.rs:184-189). See `ReceiverLaws.StreamRendersBehindTheEnd`.
- Resetting the drift estimator keeps the time of the last update (crates/wdr_refsim/src/drift.rs:154-162).
- Hex parsing accepts upper case and a leading plus sign, port parsing a leading plus sign, and an unbracketed host may
  hold colons, of which only the last one separates the port (crates/wdr_discovery/src/manual.rs:112-129,197-206).

## Model

| member | source | states |
|---|---|---|
| Crc32.Crc32 | crates/wdr_proto/src/crc.rs:6-16 | the nested bit loop computes `Checksum`, the register function that the detection theorems are about |
| Crc32.BitStepLinear | crates/wdr_proto/src/crc.rs:10-13 | one bit step distributes over exclusive or |
| Crc32.BitStepInjective | crates/wdr_proto/src/crc.rs:10-13 | one bit step loses no information on 32-bit registers |
| Crc32.AbsorbsAsWord | crates/wdr_proto/src/crc.rs:8-14 | absorbing a payload byte by byte is folding it in as one long word and then stepping bit by bit |
| Crc32.SameChecksum | crates/wdr_proto/src/crc.rs:6-16 | two equally long payloads share a checksum if and only if their difference is annihilated by the bit steps |
| Crc32.BurstDetected | crates/wdr_proto/src/crc.rs:6-16 | payloads of any length that differ only inside 32 consecutive bits, at any bit offset, have different checksums |
| Crc32.ByteBurstDetected | crates/wdr_proto/src/crc.rs:6-16 | the same for any window of four consecutive bytes |
| Crc32.BurstBoundIsSharp | crates/wdr_proto/src/crc.rs:6-16 | two payloads that differ inside 33 bits and share a checksum |
| Crc32Vectors.ResidueLaw | crates/wdr_proto/src/crc.rs:6-16 | whatever the message, followed by its checksum it has the one checksum 0x2144DF1C |
| Crc32Vectors.ResidueExactly | crates/wdr_proto/src/crc.rs:6-16 | of all four-byte tails only the checksum, lowest byte first, leaves that residue |
| Crc32Vectors.EmptyChecksum | crates/wdr_proto/src/crc.rs:25 | the empty message has checksum 0 |
| Crc32Vectors.CheckValue | crates/wdr_proto/src/crc.rs:26 | "123456789" has checksum 0xCBF43926 |
| Crc32Vectors.ZerosValue | crates/wdr_proto/src/crc.rs:27 | 32 zero bytes have checksum 0x190A55AD |
| Crc32Vectors.ZeroValue | crates/wdr_proto/src/crc.rs:6-16 | one zero byte has checksum 0xD202EF8D |
| Frames.ReadPayload | crates/wdr_proto/src/frame.rs:295-323 | the payload loop yields exactly the declared bytes, or refuses an overlong or truncated payload |
| Frames.VarintRoundTrip | crates/wdr_proto/src/frame.rs:171-196 | every integer field of a width decodes from its varint, within the width's byte count |
| Frames.FlagsRoundTrip | crates/wdr_proto/src/frame.rs:327-337 | the flag byte keeps both flags and the low six reserved bits |
| Frames.EncodedDecodes | crates/wdr_proto/src/frame.rs:163-250 | a packed frame within the payload cap decodes to the frame with its reserved bits cut to six, in 13 to 4160 bytes |
| Frames.FrameRoundTrip | crates/wdr_proto/src/frame.rs:154-169 | `unpack(pack(f)) = f` if and only if the payload is at most 4096 bytes and the reserved bits are below 64 |
| Frames.PackedLength | crates/wdr_proto/src/frame.rs:86-89 | a packed frame never exceeds the header bound plus the payload cap |
| Frames.MagicIsNoFrame | crates/wdr_refsim/src/framing.rs:107-130 | nothing that starts with the end-marker magic decodes as a frame |
| Frames.PackedIsNoMarker | crates/wdr_refsim/src/framing.rs:107-130 | no packed frame starts with the end-marker magic |
| WireFormat.CutFrameIsTruncated | crates/wdr_proto/src/frame.rs:163-169 | every proper prefix of a packed frame is refused as truncated, and for nothing else |
| WireFormat.TooLongExactly | crates/wdr_proto/src/frame.rs:163-167 | exactly what is longer than any frame is refused for its size, by the frame decoder and by the item parser |
| WireFormat.OversizeIsInvalid | crates/wdr_proto/src/frame.rs:295-323 | a declared length over the cap with more than the cap behind it is invalid; a length beyond the bytes is truncated; else exactly the declared bytes are read |
| WireFormat.WrapWindowVector | crates/wdr_proto/tests/golden/MANIFEST.md:61 | the bytes of a stored vector with numbers at the top of 64 bits, field by field |
| WireFormat.LosslessVector | crates/wdr_proto/tests/golden/MANIFEST.md:59 | the bytes of a stored lossless vector with a checksum, field by field |
| WireFormat.MarkerExactly | crates/wdr_refsim/src/framing.rs:107-130 | nothing but its own encoding parses as an end marker |
| WireFormat.EndLayout | crates/wdr_refsim/src/framing.rs:93-98 | an end marker is "WDRZE" and eight bytes, lowest first |
| WireFormat.ItemLayout | crates/wdr_refsim/src/framing.rs:73-82 | an item on a stream follows its length in two bytes, the lower one first |
| WireFormat.MalformedIsSkipped | crates/wdr_refsim/src/framing.rs:150-157 | behind an item that does not parse the stream goes on with the next one |
| Deframing.LittleEndianRoundTrip | crates/wdr_refsim/src/framing.rs:93-98 | a little-endian number reads back as itself |
| Deframing.StreamBuffer.TakeStreamItems | crates/wdr_refsim/src/framing.rs:138-159 | the draining loop terminates and returns the items, the first failure and the remaining bytes that `Take` defines |
| Deframing.TakeResumes | crates/wdr_refsim/src/framing.rs:138-159 | taking from a longer buffer continues exactly where taking from its front stopped |
| Deframing.FeedIsTake | crates/wdr_refsim/src/framing.rs:132-159 | however a stream is cut into chunks, items and first failure are those of the whole stream |
| Deframing.ResidueIsPartial | crates/wdr_refsim/src/framing.rs:141-150 | after an error-free call less than one item is buffered, whatever bytes arrived |
| Deframing.StreamPrefix | crates/wdr_refsim/src/framing.rs:138-159 | of any prefix of an item stream the whole items are out and a proper prefix of the next one is kept |
| Deframing.StreamRoundTrip | crates/wdr_refsim/src/framing.rs:73-82 | wrapped items in any chunking come out in order with an empty buffer |
| Framing.ItemRoundTrip | crates/wdr_refsim/src/framing.rs:93-130 | a frame or an end marker parses back to itself, and neither is taken for the other |
| Framing.ItemStreamRoundTrip | crates/wdr_refsim/src/framing.rs:107-159 | any list of valid frames and markers survives the reliable stream in any chunking |
| Jitter.JitterBuffer.Push | crates/wdr_refsim/src/receiver.rs:412-467 | one arrival changes the buffer and returns frames as `Pushed` says, in every branch and counter |
| Jitter.JitterBuffer.Enqueue | crates/wdr_refsim/src/receiver.rs:457-464 | eviction when full, insertion, emission |
| Jitter.JitterBuffer.Abandon | crates/wdr_refsim/src/receiver.rs:446-450 | everything queued below the jump is dropped and counted late |
| Jitter.JitterBuffer.DeclareEmitted | crates/wdr_refsim/src/receiver.rs:471-485 | the watermark walks past a number, dropping and counting what is queued on the way |
| Jitter.JitterBuffer.EmitContiguous | crates/wdr_refsim/src/receiver.rs:488-500 | exactly the run of consecutive keys at the watermark leaves the queue |
| Jitter.JitterBuffer.DrainAll | crates/wdr_refsim/src/receiver.rs:503-509 | the queue is emptied in ascending order |
| JitterRuns.PushKeepsSettled | crates/wdr_refsim/src/receiver.rs:412-485 | for every window and cap, after a push the watermark is not queued, at most one key lies below it and none beyond the window |
| JitterRuns.GapJump | crates/wdr_refsim/src/receiver.rs:442-452 | a gap deeper than the window leaves only the new frame, which is emitted, and counts every holdover late |
| JitterRuns.SettledSize | crates/wdr_refsim/src/receiver.rs:412-467 | at most window + 1 frames are queued, and at most window when none is stranded |
| JitterRuns.RunStrandsNothing | crates/wdr_refsim/src/receiver.rs:457-464 | with window < cap no run strands a key, eviction never fires and at most window frames are queued |
| JitterRuns.RunAccounts | crates/wdr_refsim/src/receiver.rs:412-467 | over every run pushes = output + queued + late + duplicate, the output is strictly ascending and consists of arrivals |
| JitterRuns.RenderedOnce | crates/wdr_refsim/src/receiver.rs:412-509 | no number is output twice, not even counting the final drain, and all output arrived |
| JitterRuns.LossIsExact | crates/wdr_refsim/src/receiver.rs:831-841 | if all numbers are below the total, the loss is exactly the count of numbers never rendered |
| JitterRuns.ReorderIsExact | crates/wdr_refsim/src/receiver.rs:413-419 | on every run the reorder counter is the number of arrivals that came after a larger number |
| JitterOrder.SortsAndDeduplicates | crates/wdr_refsim/src/receiver.rs:412-509 | for every window and cap: a minimal first arrival, no arrival beyond the window and room for every new number make pushes and drain give the first arrival of every number in ascending order |
| JitterOrder.CompleteDelivery | crates/wdr_refsim/src/receiver.rs:412-509 | for every window and cap: a delivery of all frames 0..total is rendered completely if and only if frame 0 arrives first, reordering stays within the window, and every number arriving for the first time finds fewer than cap numbers (or none) waiting for a missing one |
| JitterOrder.CompleteWithinWindow | crates/wdr_refsim/src/receiver.rs:412-509 | with window < cap the room is always there, so the window alone decides |
| JitterOrder.ViolationLosesOne | crates/wdr_refsim/src/receiver.rs:442-464 | the first arrival beyond the window, or without room, makes the watermark pass a number that never comes out: the missing one, or the oldest one that waits |
| JitterOrder.OrderlyComplete | crates/wdr_refsim/src/receiver.rs:412-509 | then, for every window and cap, place i of the output is the first arrival of frame i |
| JitterOrder.OrderlyCounters | crates/wdr_refsim/src/receiver.rs:430-457 | over an orderly run the late counter counts exactly the repeats more than a window behind the missing number, the duplicate counter exactly all other repeats |
| ArrivalOrder.RepeatsAddUp | crates/wdr_refsim/src/receiver.rs:430-457 | together these are the arrivals minus the distinct numbers |
| ArrivalOrder.NoStaleRepeats | crates/wdr_refsim/src/receiver.rs:430-437 | nothing is counted late if and only if no repeat lags more than a window behind |
| ArrivalOrder.RepeatCountedLate | crates/wdr_refsim/src/receiver.rs:430-437 | frames 0 to w + 1 in sequence and then 0 again: a fit order on which the repeat is counted late |
| ArrivalOrder.WindowIsRoom | crates/wdr_refsim/src/receiver.rs:404-407 | what stays within a window smaller than the cap always has room |
| ArrivalOrder.FullWindowLacksRoom | crates/wdr_refsim/src/receiver.rs:457-464 | with cap = window an arrival lacks room exactly when it is the missing number and the whole window behind it waits |
| ArrivalOrder.FirstsOrderly | crates/wdr_refsim/src/receiver.rs:454-457 | repeated arrivals change nothing about whether an order is fit |
| JitterCapacity.OverflowReachable | crates/wdr_refsim/src/receiver.rs:457-485 | for every cap up to the window a run that leaves cap + 1 frames queued |
| JitterCapacity.CapHoldsExactly | crates/wdr_refsim/src/receiver.rs:404-407 | the cap bounds the queue on all runs if and only if window < cap or the window is zero |
| JitterCapacity.ProfileCaps | crates/wdr_refsim/src/receiver.rs:51-68 | of the three profiles exactly Resilient can outgrow its bound |
| JitterCapacity.EvictionReachable | crates/wdr_refsim/src/receiver.rs:457-464 | for every cap up to a nonzero window a run that reaches an arrival for which a frame is evicted |
| JitterCapacity.EvictionExactly | crates/wdr_refsim/src/receiver.rs:457-464 | some run evicts a frame if and only if cap <= window and the window is not zero |
| JitterCapacity.ProfileEvicts | crates/wdr_refsim/src/receiver.rs:51-68 | of the three profiles exactly Resilient ever evicts |
| JitterCapacity.LateOneRendered | crates/wdr_refsim/src/receiver.rs:457-464 | every frame arrives and none beyond the window w, in the order 0, 2, ..., w + 1, 1: all are rendered if and only if w < cap |
| JitterCapacity.FrameTwoIsLost | crates/wdr_refsim/src/receiver.rs:457-464 | with window and cap 2, arrivals 0, 2, 3, 1 come out as 0, 3, 1 |
| JitterCapacity.ProfilesTolerate | crates/wdr_refsim/src/receiver.rs:51-68 | one frame may be overtaken by 32 others in Low, by 256 in Balanced, and by 1023 in Resilient, and by no more |
| JitterCapacity.WindowBound | crates/wdr_refsim/src/receiver.rs:412-467 | the bound window + 1 holds on every run for every window and cap |
| Pcm.GroupRoundTrip | crates/wdr_codec/src/adapters/pcm.rs:228-247 | packing a sign-extended group gives back its bytes |
| Pcm.SampleRoundTrip | crates/wdr_codec/src/adapters/pcm.rs:166-198 | a sample in range is the sign-extended value of its bytes |
| Pcm.BytesRoundTrip | crates/wdr_refsim/src/receiver.rs:761-772 | whole groups of bytes come back from the samples they unpack to |
| Pcm.AdapterRoundTrip | crates/wdr_codec/src/adapters/pcm.rs:166-247 | decoding what was encoded gives the samples back if and only if none is the lowest 24-bit value; 16-bit samples always come back |
| Pcm.LowestSample | crates/wdr_codec/src/adapters/pcm.rs:219 | the sample -2^23 comes back as -2^23 + 1, the sample -2^15 as itself |
| Pcm.ClampIsNearest | crates/wdr_codec/src/adapters/pcm.rs:209-226 | clamping moves a sample to the nearest 24-bit value other than the lowest |
| Pcm.WholeFramesOnly | crates/wdr_codec/src/adapters/pcm.rs:166-247 | exactly whole frames of samples are encoded and decoded; else the error reports the length |
| Emitter.Emitter.EmitPcmFrame | crates/wdr_refsim/src/emitter.rs:472-477 | exactly a frame that was encoded, packed and sent is counted and advances the sequence number; every failure leaves the emitter as it was |
| Emitter.Emitter.EmitEndMarker | crates/wdr_refsim/src/emitter.rs:551-568 | the marker announces the number of frames |
| Emitter.MediaTsAdvances | crates/wdr_refsim/src/emitter.rs:584-586 | until 64 bits are used up, timestamps are number times frame size and advance by one frame of samples |
| Emitter.SentFrameParses | crates/wdr_refsim/src/emitter.rs:584-614 | a sent frame parses back to the frame with its number, its stream and its payload, and is no end marker |
| Sink.WireDescribes | crates/wdr_refsim/src/emitter.rs:584-614 | item k of the wire parses to a frame with number k, timestamp k times the frame size until 64 bits are used up, the format of the lane, and for lossless codecs the checksum of its payload |
| Sink.WireAdvances | crates/wdr_refsim/src/emitter.rs:584-586 | neighbours on the wire are one number and one frame of samples apart |
| Sink.WirePlanExactly | crates/wdr_refsim/src/sink.rs:336-369 | which rates are planned, that Opus frames last 20 ms, and that a plan resamples exactly when it changes the rate |
| Sink.BlocksAndRest | crates/wdr_refsim/src/sink.rs:594-600 | the whole blocks and the rest are the captured bytes, in order |
| Sink.CutResumes | crates/wdr_refsim/src/sink.rs:594-600 | cutting a longer capture continues where cutting its front stopped |
| Sink.QuicAudioSink.OnBlock | crates/wdr_refsim/src/sink.rs:576-639 | while nothing fails, the wire holds exactly the whole blocks captured so far, packed in order under 0, 1, 2 and so on; when block n fails, the blocks before it are on the wire, it is gone and all behind it still waits |
| Sink.QuicAudioSink.EmitBlock | crates/wdr_refsim/src/sink.rs:600-637 | the next block follows on the wire under the next number |
| Sink.QuicAudioSink.Finish | crates/wdr_refsim/src/sink.rs:641-656 | the end marker follows with the frame count; a partial frame is dropped |
| Receiver.DamageRejected | crates/wdr_refsim/src/receiver.rs:226-250 | a lossless frame damaged within any 32 consecutive bits of its payload is refused with a checksum mismatch |
| Receiver.MadeFramePasses | crates/wdr_refsim/src/receiver.rs:214-252 | every frame the emitter makes passes the guard |
| ReceiverLaws.GuardExactly | crates/wdr_refsim/src/receiver.rs:214-252 | the guard passes exactly version 1, 16 or 24 bits, and for lossless codecs a checksum that is right; a refusal names the first fault |
| ReceiverLaws.ForeignFramesIgnored | crates/wdr_refsim/src/receiver.rs:856-863 | frames of other streams change nothing but the late counter, wherever they come in |
| ReceiverLaws.BehindTheEnd | crates/wdr_refsim/src/receiver.rs:801-841 | behind the end an item is only counted, and a second marker only renews total and loss |
| ReceiverLaws.NothingBehindTheEnd | crates/wdr_refsim/src/receiver.rs:801-841 | so whatever follows the end, nothing more is rendered |
| ReceiverLaws.StreamRendersBehindTheEnd | crates/wdr_refsim/src/receiver_server.rs:117-128 | on a stream, a frame behind the marker in the same chunk is still rendered, and the loss is not corrected |
| ReceiverLaws.RenderedOrMalformed | crates/wdr_refsim/src/receiver.rs:908-945 | every frame handed to the renderer is a packet or malformed |
| ReceiverLaws.DecodableIsRendered | crates/wdr_refsim/src/receiver.rs:908-945 | what is rendered is the sound of the frames that decode, in order |
| Receiver.Receiver.IngestBytes | crates/wdr_refsim/src/receiver.rs:801-819 | one raw item, with the marker, malformed, ended and frame cases, as `BytesIngested` says |
| Receiver.Receiver.IngestFramePostGuard | crates/wdr_refsim/src/receiver.rs:856-873 | push, render, and counters copied from the buffer; a foreign stream is counted and dropped |
| Receiver.Receiver.RenderFrames | crates/wdr_refsim/src/receiver.rs:891-945 | every frame is decoded and rendered in order, or counted malformed and skipped |
| Receiver.Receiver.FinishAfterEnd | crates/wdr_refsim/src/receiver.rs:831-841 | the buffer is drained and rendered, and the loss is the announced total minus the packets rendered, not below zero |
| Receiver.Receiver.PushItem | crates/wdr_refsim/src/receiver_server.rs:117-128 | an item cut out of a reliable stream; a second marker changes nothing |
| EndToEnd.RunFollows | crates/wdr_refsim/src/receiver.rs:856-873 | over any run of good frames the receiver's buffer is the jitter run, and what it rendered is what that run put out |
| EndToEnd.EndRenders | crates/wdr_refsim/src/receiver.rs:831-841 | after the marker the device has the decoded bytes of everything the buffer renders, the loss is what is missing, and every item is a packet, a duplicate or late |
| EndToEnd.FramesDelivered | crates/wdr_refsim/src/receiver.rs:831-873 | good frames that cover everything have no loss at the end if and only if their order is fit; then everything is heard once, in order |
| EndToEnd.WellOrderedProfiles | crates/wdr_refsim/src/receiver.rs:51-68 | for Low and Balanced the window alone decides whether an order is fit; for Resilient, moreover, no missing frame may come when the whole window waits |
| EndToEnd.InSequenceIsWellOrdered | crates/wdr_refsim/src/receiver.rs:412-509 | frames in the order of sending are fit for every profile |
| EndToEnd.DeliveryExact | crates/wdr_refsim/src/receiver.rs:801-841 | for every profile, a delivery of all frames has no loss if and only if frame 0 is first, reordering stays within the window and every new frame has room; then every block is heard once, in order, and the counters count the repeats |
| Lossless.AllHeardExactly | crates/wdr_refsim/src/receiver.rs:747-773 | with a codec that is lossless on whole frames, each block is heard as its own bytes |
| Lossless.CaptureIsRendered | crates/wdr_refsim/src/sink.rs:576-656 | every profile, any lossless codec, any delivery of all frames: no loss if and only if the order is fit, and the first N whole frames of captured bytes are rendered if and only if it is |
| Lossless.PlannedFrameFits | crates/wdr_refsim/src/sink.rs:336-369 | whatever lossless lane is planned for whatever rate, its raw frame fits the payload cap in 16 and 24 bits, sealing tag included, at the captured rate and without resampling |
| Lossless.PcmHeard | crates/wdr_codec/src/adapters/pcm.rs:209-247 | every block can be sent as raw PCM, and is heard unchanged if and only if no sample had to be clamped |
| Lossless.PcmLosslessExactly | crates/wdr_codec/src/adapters/pcm.rs:209-247 | the raw lane is lossless on a block if and only if no sample had to be clamped, so 16-bit capture meets what the loopback theorems ask of a codec |
| Lossless.PcmEndToEnd | crates/wdr_refsim/src/emitter.rs:472-504 | raw PCM at every planned rate, every profile and every delivery of all frames: no loss if and only if the order is fit, and the captured bytes if and only if, moreover, no sample is the lowest 24-bit value |
| ReceiverServer.ReadStream | crates/wdr_refsim/src/receiver_server.rs:164-190 | one stream chunk by chunk: a failure is counted, reading goes on, and the end is looked for after each chunk |
| ReceiverServer.RunStreamLane | crates/wdr_refsim/src/receiver_server.rs:140-195 | the first item must be a frame that passes the guard; then stream after stream until the end |
| ReceiverServer.RunDatagramLane | crates/wdr_refsim/src/receiver_server.rs:196-226 | the first item is checked and then goes through the same path as the rest, until the end |
| ReceiverServer.ItemStreamRead | crates/wdr_refsim/src/receiver_server.rs:164-190 | a stream with one item, in any chunking, hands over that item and miscounts nothing |
| ReceiverServer.MalformedIsSilent | crates/wdr_refsim/src/receiver_server.rs:179-183 | an item that does not parse, alone on its stream, only bumps the malformed counter |
| ReceiverServer.StreamLane | crates/wdr_refsim/src/receiver_server.rs:140-195 | items on streams of their own, in any chunking, with any streams in between out of which no item can be cut, leave the receiver where the delivery theorems say but for the malformed counter |
| ReceiverServer.DatagramLane | crates/wdr_refsim/src/receiver_server.rs:196-226 | the same items as datagrams leave it exactly there |
| ReceiverServer.MarkerStopsReading | crates/wdr_refsim/src/receiver_server.rs:187-189 | behind the end marker no chunk, no stream and no datagram is read |
| ReceiverServer.OversizeStream | crates/wdr_refsim/src/framing.rs:141-150 | behind a length over the bound nothing comes out of the stream, and every further chunk counts as malformed |
| ReceiverServer.FirstFrameExactly | crates/wdr_refsim/src/receiver_server.rs:140-148 | the lane starts exactly with a frame that passes the guard |
| Loopback.Capture | crates/wdr_refsim/src/sink.rs:576-656 | over every split of a capture, the sink's wire holds its packed whole frames and the end marker; if all can be packed, only the transport can fail |
| Loopback.OverDatagrams | crates/wdr_refsim/src/receiver_server.rs:196-226 | sink against receiver: unless the transport fails, no loss and the captured bytes if and only if the order of arrival is fit |
| Loopback.OverStreams | crates/wdr_refsim/src/receiver_server.rs:152-195 | the same over streams cut into chunks in any way |
| Spsc.DistanceSurvivesWrap | crates/wdr_rt/src/spsc.rs:61-75 | the wrapping difference of the wrapped cursors is the true distance |
| Spsc.MaskFindsSlot | crates/wdr_rt/src/spsc.rs:92 | masking a wrapped 64-bit cursor gives the slot of the unbounded position, because the capacity divides 2^64 |
| Spsc.SlotOfIsRemainder | crates/wdr_rt/src/spsc.rs:92 | that slot is the position modulo the capacity |
| Spsc.SlotsDiffer | crates/wdr_rt/src/spsc.rs:92-97 | positions less than a capacity apart have different slots |
| Spsc.FillAppends | crates/wdr_rt/src/spsc.rs:92-97 | copying into the free slots, head and wrapped tail, appends to the queue and disturbs nothing in it |
| Spsc.GatherTakes | crates/wdr_rt/src/spsc.rs:116-121 | copying out takes the oldest bytes of the queue in order |
| Spsc.SpscRing.FreeSpace | crates/wdr_rt/src/spsc.rs:61-65 | capacity minus what is queued |
| Spsc.SpscRing.AvailableLen | crates/wdr_rt/src/spsc.rs:71-75 | the number of queued bytes |
| Spsc.SpscRing.TryPush | crates/wdr_rt/src/spsc.rs:83-103 | all of the data is appended if it fits, else nothing changes |
| Spsc.SpscRing.TryPopExact | crates/wdr_rt/src/spsc.rs:110-126 | the buffer is filled with the oldest bytes if there are enough, else nothing changes |
| Spsc.SpscRing.CopyIn | crates/wdr_rt/src/spsc.rs:128-132 | exactly the given slots take the bytes |
| Spsc.SpscRing.CopyOut | crates/wdr_rt/src/spsc.rs:134-138 | exactly the given places take the slots' bytes |
| SpscConcurrent.StepKept | crates/wdr_rt/src/spsc.rs:83-126 | every atomic step of either thread keeps cursors, distances, live slots and both copies in progress as claimed |
| SpscConcurrent.SlotsDisjoint | crates/wdr_rt/src/spsc.rs:92-121 | no slot of a push under way is a slot of a pop under way |
| SpscConcurrent.ProducerView | crates/wdr_rt/src/spsc.rs:61-65 | free space computed from a stale read cursor is neither negative nor more than there is |
| SpscConcurrent.ConsumerView | crates/wdr_rt/src/spsc.rs:71-75 | available bytes computed from a stale write cursor are not more than there are |
| SpscConcurrent.RefinesQueue | crates/wdr_rt/src/spsc.rs:83-126 | under every interleaving and stale view the answers are those of a bounded first-in first-out queue |
| SpscConcurrent.PoppedIsPrefix | crates/wdr_rt/src/spsc.rs:83-126 | the bytes popped are always a prefix of the bytes pushed, at most a capacity behind |
| SpscConcurrent.WholeFrames | crates/wdr_rt/src/spsc.rs:14-17 | with one frame size no frame is torn, reordered, lost or repeated |
| SpscConcurrent.PushVerdict | crates/wdr_rt/src/spsc.rs:84-91 | a push is refused exactly when it does not fit the space seen; what does not fit is never admitted, and with a fresh view exactly what fits is |
| SpscConcurrent.PopVerdict | crates/wdr_rt/src/spsc.rs:111-115 | the same for a pop and the bytes seen |
| SpscProgress.PushIsWaitFree | crates/wdr_rt/src/spsc.rs:83-103 | a push of n bytes is answered after at most n + 2 own steps, whatever the consumer does in between |
| SpscProgress.PopIsWaitFree | crates/wdr_rt/src/spsc.rs:110-126 | the same for a pop |
| SpscProgress.PushBegins | crates/wdr_rt/src/spsc.rs:83-91 | a push larger than the ring is refused at once, any other one begins |
| Replay.VerdictExact | crates/wdr_crypto/src/replay.rs:57-104 | in every run an index is accepted if and only if it was never checked before and none checked before is 256 or more ahead |
| Replay.NeverTwice | crates/wdr_crypto/src/replay.rs:57-104 | no index is accepted twice |
| Replay.SplitBits | crates/wdr_crypto/src/replay.rs:125-131 | the two parts of a shifted word hold all its bits, moved up |
| Replay.AddedMoves | crates/wdr_crypto/src/replay.rs:74-83 | one round of the loop moves exactly the 64 bits of one source word |
| Replay.SlideRefines | crates/wdr_crypto/src/replay.rs:65-89 | the four-word shift followed by setting bit 0 spells the accepted set seen from the newer index |
| Replay.ReplayWindow.CheckAndRecord | crates/wdr_crypto/src/replay.rs:57-104 | bit p is set if and only if newest - p was accepted, before and after; the verdict is that of the accepted set |
| Replay.ReplayWindow.SlideTo | crates/wdr_crypto/src/replay.rs:65-89 | a newer index slides the window and joins the set |
| Replay.ReplayWindow.Mark | crates/wdr_crypto/src/replay.rs:92-104 | inside the window an index is accepted exactly if its bit was clear |
| DataCipher.SessionDataCipher.EncryptSessionData | crates/wdr_crypto/src/data_cipher.rs:74-93 | refused unless confirmed and an index is left; otherwise sealed under the next index, which advances |
| DataCipher.SessionDataCipher.DecryptSessionData | crates/wdr_crypto/src/data_cipher.rs:103-114 | gate, then window with recording, then authentication |
| DataCipher.RunKept | crates/wdr_crypto/src/data_cipher.rs:74-114 | in every run, whatever the status does, records carry indices 0, 1, 2 and so on, and the window is fed exactly the indices checked while the gate was open |
| DataCipher.OpenedExact | crates/wdr_crypto/src/data_cipher.rs:103-114 | a ciphertext opens to a plaintext if and only if the gate is open, it is that plaintext's seal, its index was never checked and none checked is 256 or more ahead |
| DataCipher.RefusedExact | crates/wdr_crypto/src/data_cipher.rs:103-114 | in every run, which of the three refusals a ciphertext meets, and that the first two change nothing |
| DataCipher.OpenedOnce | crates/wdr_crypto/src/data_cipher.rs:103-114 | in every run no index is opened twice |
| DataCipher.ExactlyOnce | crates/wdr_crypto/src/data_cipher.rs:74-114 | across sender and receiver on one key, with drops, repeats and reordering, each record opens at most once and to its own plaintext |
| DataCipher.ZeroTagIsSound | crates/wdr_crypto/src/data_cipher.rs:74-114 | what is asked of the AEAD can be met |
| DataCipher.ForgerySpendsIndex | crates/wdr_crypto/src/data_cipher.rs:107-112 | a record that opens on its own is rejected once a forgery under its index was checked before it |
| Secure.SecureSession.FinishSession | crates/wdr_refsim/src/secure.rs:168-192 | both ciphers start fresh and confirmed on the same key |
| Secure.SecureSession.SealFrame | crates/wdr_refsim/src/secure.rs:196-207 | size check, then index check, then seal; a refused frame uses up no index |
| Secure.SecureSession.OpenFrame | crates/wdr_refsim/src/secure.rs:211-222 | the cipher's outcome as an error or the plaintext |
| Secure.SealsWhileAligned | crates/wdr_refsim/src/emitter.rs:450-477 | in every run a frame of legal size is sealed if and only if no sealed frame before it failed to be sent and an index is left; afterwards every frame is refused for divergence |
| Secure.SealedFrameCrosses | crates/wdr_refsim/src/secure.rs:196-222 | a sealed payload fits a frame, crosses the wire in it and opens to the original |
| SecureDelivery.SecureReceiver.IngestSecure | crates/wdr_refsim/src/receiver_server.rs:261-282 | guard over the ciphertext, then open, then the pipeline with the plaintext; a guard failure counts as malformed, a refused record as rejected |
| SecureDelivery.DamageSpendsNothing | crates/wdr_refsim/src/receiver_server.rs:261-282 | a sealed frame damaged within 32 consecutive bits is stopped before the replay window: it can still be opened when it comes again |
| SecureDelivery.ForgerySpendsNumber | crates/wdr_refsim/src/receiver_server.rs:261-282 | a forgery with a right checksum is rejected and spends its number |
| SecureDelivery.AllSealed | crates/wdr_refsim/src/emitter.rs:450-477 | when the transport takes every frame, block k is sealed under index k |
| SecureDelivery.SecureRun | crates/wdr_refsim/src/receiver_server.rs:261-282 | over any arrivals of sealed frames, exactly those admitted by the replay window enter the pipeline, opened, and the rest are counted as rejected |
| SecureDelivery.SecureDeliveryExact | crates/wdr_refsim/src/receiver_server.rs:288-364 | sealed frames that cover everything: no loss, and the captured bytes, if and only if the order is fit and no frame first arrives when one 256 or more ahead has arrived |
| SecureDelivery.WindowKeepsInTime | crates/wdr_refsim/src/receiver.rs:51-68 | a reorder window below 256 keeps everything in time for the replay window |
| SecureDelivery.BalancedOutwaitsReplay | crates/wdr_refsim/src/receiver.rs:51-68 | an order that is fit for Balanced and still loses a frame to the replay window |
| Resampler.FeedTwice | crates/wdr_codec/src/resample.rs:145-177 | from any position, feeding x and then y produces what feeding both at once does and ends at the same position |
| Resampler.ChunkIndependence | crates/wdr_codec/src/resample.rs:15-18 | any two ways of cutting one signal give the same outputs and position |
| Resampler.ExactCount | crates/wdr_codec/src/resample.rs:171-185 | after T frames exactly ⌈(T − 32) / step⌉ frames are out, none up to 32 |
| Resampler.InHistory | crates/wdr_codec/src/resample.rs:211-222 | every tap index is in bounds and reads the sample that the whole signal has there |
| Resampler.ResamplerI16.New | crates/wdr_codec/src/resample.rs:124-140 | zero rates or channels are refused and nothing else; one or two channels give a resampler that keeps its invariant |
| Resampler.ResamplerI16.Process | crates/wdr_codec/src/resample.rs:145-177 | appends exactly what the whole signal fed so far determines, leaves nothing producible, and keeps at most max(64, ⌊step⌋) frames of history for the widest step in force |
| Resampler.ResamplerI16.TrimHistory | crates/wdr_codec/src/resample.rs:189-200 | trimming keeps the history a suffix of the signal that still holds every sample a later output reads |
| Resampler.ResamplerI16.EmitOne | crates/wdr_codec/src/resample.rs:203-225 | one frame, as the whole signal determines it |
| Resampler.ResamplerI16.Flush | crates/wdr_codec/src/resample.rs:231-241 | emits nothing after `process` and starts over |
| Resampler.ResamplerI16.SetRatio | crates/wdr_codec/src/resample.rs:280-286 | signal and position stay |
| Resampler.ResamplerI16.Retune | crates/wdr_codec/src/resample.rs:262-271 | refused for a zero rate, with nothing changed |
| Interpolation.NearestRow | crates/wdr_codec/src/resample.rs:207-209 | no row of the table is nearer to the fractional position than the one picked; of two the higher is taken |
| Interpolation.FrameInterpolates | crates/wdr_codec/src/resample.rs:203-225 | with a table sampled from a kernel, the frame at a position is the signal convolved with the kernel at the row centre nearest to the position |
| Interpolation.FrameBelongs | crates/wdr_codec/src/resample.rs:145-177 | frame i of the output belongs to the position i steps on |
| Interpolation.EqualRatesPassThrough | crates/wdr_codec/src/resample.rs:203-225 | with an impulse in the first row, equal rates pass the signal through but for its last 32 frames |
| Interpolation.RatesAreKept | crates/wdr_codec/src/resample.rs:136 | from T frames at the input rate come as many at the output rate as last as long, up to one frame |
| LineFit.Sorts | crates/wdr_refsim/src/drift.rs:268-279 | sorting gives the same values in ascending order |
| LineFit.Median | crates/wdr_refsim/src/drift.rs:268-279 | sorts its argument in place and returns the middle |
| LineFit.FitSlope | crates/wdr_refsim/src/drift.rs:174-223 | the accumulator loops, the rejection round and the refit compute `Fit` |
| LineFit.Survivors | crates/wdr_refsim/src/drift.rs:192-206 | residuals are matched with the points after they were sorted in place |
| LineFit.SpreadOfPairs | crates/wdr_refsim/src/drift.rs:187 | n Σx² − (Σx)² is the sum of the squared differences of all pairs |
| LineFit.SpreadDecides | crates/wdr_refsim/src/drift.rs:187-190 | for integer timestamps the denominator is below its threshold if and only if all are equal, and at least one otherwise |
| LineFit.ExactOnLine | crates/wdr_refsim/src/drift.rs:174-223 | arrivals on a line at integer timestamps give back its slope if and only if the timestamps are not all equal, else no estimate |
| LeastSquares.FitIsLeastSquares | crates/wdr_refsim/src/drift.rs:174-191 | no line has a smaller squared error than the one of the fitted slope and intercept |
| LeastSquares.MiddleSplits | crates/wdr_refsim/src/drift.rs:268-279 | at least half of the values are at most the median, and at least half at least it |
| LeastSquares.MiddleOfSymmetric | crates/wdr_refsim/src/drift.rs:268-279 | symmetric values have their centre as the median |
| LineFit.MajoritySurvives | crates/wdr_refsim/src/drift.rs:195-210 | at least half of the points and at least two survive rejection, so the guard on too few cannot fire |
| LineFit.SurvivorsAreContiguous | crates/wdr_refsim/src/drift.rs:195-206 | the survivors are a contiguous stretch of the window |
| LineFit.NearPointsKeptExactly | crates/wdr_refsim/src/drift.rs:195-206 | exactly the points near the first line are kept if and only if these stand behind as many points as lie below the band and before as many as lie above it |
| LineFit.AllKeptExactly | crates/wdr_refsim/src/drift.rs:195-206 | nothing is dropped if and only if no point is out of the band |
| LineFit.IncreasingAlwaysFits | crates/wdr_refsim/src/drift.rs:174-223 | with strictly increasing integer timestamps there is an estimate if and only if there are two points, whatever the arrivals |
| LineFit.OutlierSurvives | crates/wdr_refsim/src/drift.rs:195-206 | seven points of which the one off the line survives and bends the slope |
| LineFit.OutlierOutOfPlace | crates/wdr_refsim/src/drift.rs:195-206 | at that input the condition fails at points 3 and 6, of which the wrong one is kept |
| Drift.UpdateBounded | crates/wdr_refsim/src/drift.rs:225-264 | every update keeps the correction within the limit, moves it by at most the step, leaves it zero with ratio one until the first correction, and changes nothing applied on an excessive estimate |
| Drift.After | crates/wdr_refsim/src/drift.rs:225-264 | the same over all runs |
| Drift.NarrowStepNeverCorrects | crates/wdr_refsim/src/drift.rs:239-254 | a step below the deadband never corrects |
| Drift.ReachedExactly | crates/wdr_refsim/src/drift.rs:239-263 | a constant in-range estimate R is reached after exactly ⌈abs(R) / step⌉ updates |
| Drift.SignKeptExactly | crates/wdr_refsim/src/drift.rs:239-263 | in no run do two applied corrections have opposite signs, however far apart, if and only if the step is below twice the deadband or nothing can be corrected: a limit below the deadband, a zero step or a zero limit |
| Drift.DriftRecovered | crates/wdr_refsim/src/drift.rs:225-231 | arrivals of a steadily drifting source give back exactly its drift in ppm |
| Drift.RatioRestoresNominal | crates/wdr_refsim/src/drift.rs:263 | a source that drifts by p ppm, resampled at the ratio for p, comes out at its nominal rate |
| DriftRuns.SteadyDriftIsCorrected | crates/wdr_refsim/src/drift.rs:225-264 | under a steady drift the output plays at the nominal rate if and only if ⌈abs(p) / step⌉ updates have been made |
| Drift.SignalExactly | crates/wdr_refsim/src/drift.rs:232-262 | the signal tells which of the three cases an estimate was, and an idle controller keeps what it applied |
| Drift.DriftEstimator.SampleFrame | crates/wdr_refsim/src/drift.rs:117-129 | one observation moves window, count, time and controller as `Sampled` says |
| DriftRuns.WindowIsLatest | crates/wdr_refsim/src/drift.rs:164-171 | in every run the window holds exactly the latest observations, in order |
| DriftRuns.UpdatesAreSpaced | crates/wdr_refsim/src/drift.rs:117-128 | in every run updates are at least the interval apart, and none comes before the warm-up |
| DriftRuns.DueObservationUpdates | crates/wdr_refsim/src/drift.rs:117-128 | behind the warm-up an observation updates if and only if the interval has passed |
| Drift.DriftEstimator.RunUpdate | crates/wdr_refsim/src/drift.rs:225-264 | no estimate changes nothing; an estimate moves the controller |
| Drift.DriftEstimator.Reset | crates/wdr_refsim/src/drift.rs:154-162 | everything but the time of the last update starts over |
| Session.Session.Advance | crates/wdr_session/src/lib.rs:147-335 | one event moves the fields and puts out effects as `Next` says |
| Session.Session.TransitionTo | crates/wdr_session/src/lib.rs:338-352 | entering a state stamps the time; entering recovery starts a new backoff |
| Session.StreamingNeedsHandshake | crates/wdr_session/src/lib.rs:147-196 | every run that reaches Streaming has the six handshake events in order as a subsequence |
| SessionLaws.EnteredExactly | crates/wdr_session/src/lib.rs:147-335 | each state is entered by exactly the listed steps, in particular Streaming by NegotiationOk out of Negotiating or StreamResume out of Paused |
| SessionLaws.EffectsExactly | crates/wdr_session/src/lib.rs:147-335 | entering Negotiating puts out exactly the control timer of 5 s; every other effect has its own occasion |
| SessionLaws.StreamingNeeds | crates/wdr_session/src/lib.rs:147-335 | from any state, a run that streams in the end holds what that state still needed, in order |
| SessionLaws.LostLinkRenegotiates | crates/wdr_session/src/lib.rs:254-275 | behind a link lost in streaming, streaming again needs LinkBack and then NegotiationOk |
| SessionLaws.WakeRenegotiates | crates/wdr_session/src/lib.rs:242-253 | behind a wake-up out of a pause, streaming again needs NegotiationOk |
| SessionLaws.TimeoutsBite | crates/wdr_session/src/lib.rs:205-227 | in every run the control timeout ends a negotiation exactly after 5 s, the keep-alive a stream exactly after 60 s in the state |
| Session.AbsorbingExactly | crates/wdr_session/src/lib.rs:147-335 | exactly Terminated, Error and Renegotiating are left by no event at no time |
| Session.AbsorbedForever | crates/wdr_session/src/lib.rs:147-335 | and no run leaves them |
| Session.BackoffShape | crates/wdr_session/src/lib.rs:97-101 | the delays never shrink and reach the cap of 30 s exactly from the ninth attempt on |
| Session.RecoveriesInEpisodes | crates/wdr_session/src/lib.rs:254-320 | in every run each recovery episode announces attempts 1, 2, up to at most 9, each with its fold of the backoff of 1500 ms |
| Session.DelaysGrow | crates/wdr_session/src/lib.rs:282-315 | within an episode the announced delays never shrink and stay within the cap |
| ManualUri.Hex | crates/wdr_discovery/src/manual.rs:188-194 | the loop spells every byte with two lower-case digits |
| ManualUri.Dehex | crates/wdr_discovery/src/manual.rs:197-206 | the loop reads exactly 2n digits or fails |
| ManualUri.HexRoundTrip | crates/wdr_discovery/src/manual.rs:188-206 | any bytes come back from their hex |
| ManualUri.ReadQuery | crates/wdr_discovery/src/manual.rs:137-149 | the parameter loop, with unknown keys ignored and later values winning |
| ManualUri.QueryRoundTrip | crates/wdr_discovery/src/manual.rs:78-83 | nonce and fingerprint come back from the query |
| ManualUri.HostRoundTrip | crates/wdr_discovery/src/manual.rs:112-135 | a good host and a nonzero port come back, with brackets where the host has a colon |
| ManualUri.ParsedShape | crates/wdr_discovery/src/manual.rs:97-176 | whatever parses has a nonzero port, a nonempty host without # and ?, and a proper label or none |
| ManualUri.UriRoundTrip | crates/wdr_discovery/src/manual.rs:72-176 | `parse_uri(encode_uri(p)) = Ok(p)` if and only if port, host and label meet conditions that can be read off the token |
| UriText.OutcomeExactly | crates/wdr_discovery/src/manual.rs:97-176 | what becomes of every token with a good host: port zero, a long label and a bad label each have their error, an empty label is dropped |
| UriText.SchemeExactly | crates/wdr_discovery/src/manual.rs:98 | exactly what does not start with the scheme is refused for it |
| UriText.SampleText | crates/wdr_discovery/src/manual.rs:72-95 | the sample tokens, spelled out |
| UriText.HexDigit | crates/wdr_discovery/src/manual.rs:188-194 | every byte is two lower-case digits, the high one first |
| UriText.LaterWins | crates/wdr_discovery/src/manual.rs:137-149 | whatever stands before, the last nonce and the last fingerprint count |
| UriText.OtherParams | crates/wdr_discovery/src/manual.rs:139-148 | a parameter with another key changes nothing, one without a value spoils the query |
| UriText.LastColonSeparates | crates/wdr_discovery/src/manual.rs:123-128 | of a host without brackets only the last colon separates the port |
| UriText.BoundsExactly | crates/wdr_discovery/src/manual.rs:179-185 | exactly what exceeds 512 bytes is refused for its size |
| ManualUri.TokenFits | crates/wdr_discovery/src/manual.rs:179-185 | with a host of at most 358 bytes the token fits 512 bytes and parses back |

## Left out

- Jitter.JitterBuffer.Push: sequence numbers are unbounded here; the original's `no + 1` overflows after number 2^64 − 1, which no run is taken to reach.
- JitterCapacity.CapHoldsExactly: stated for caps far below 2^64, so that the overflowing run has numbers to use.
- Receiver.Receiver.IngestBytes: the render device never fails here, the stream's decoder is fixed, and drift correction is off; underruns, byte metrics and the format announcement are not modelled.
- Receiver.Receiver.IngestFramePostGuard: the late counter that a foreign stream bumps is overwritten by the next good frame, as in the original; the end-to-end theorems have one stream.
- Emitter.Emitter.EmitPcmFrame: impairment, pacing, held datagrams and the fixture run are not modelled; the transport either takes an item or fails, and errors are merged by kind. Sequence numbers and media timestamps wrap at 64 bits, where a debug build panics.
- Sink.QuicAudioSink.OnBlock: one format per run; a format change in mid-stream restarts numbering and is not modelled, nor is the worker resampler in front of the accumulator.
- ReceiverServer.RunStreamLane: the streams are given as a list in the order of acceptance; timeouts, which end the original's loops with an error, and the decoder built from the first frame are not modelled.
- SecureDelivery.SecureDeliveryExact: items arrive already cut out of their streams, and the transport takes every frame that was sealed; the refusal of a first frame that does not open is not modelled.
- Loopback.OverDatagrams: only captures with at least one whole frame, because a receiver refuses an end marker as the first item (`ReceiverServer.EndIsNoFirst`).
- Lossless.CaptureIsRendered: FLAC is any encoder and decoder that are functions and lossless on whole frames; Opus has no such theorem.
- Frames.ReadPayload: errors of the postcard library are merged into truncated and invalid data.
- Spsc.SpscRing.WithCapacity: cursors have 64 bits; the original panics on a capacity that is not a power of two.
- SpscConcurrent.RefinesQueue: steps interleave sequentially consistently except that a thread may see an old value of the other's cursor; that a release store publishes the bytes before it is taken from the memory model and not derived.
- DataCipher.SessionDataCipher.EncryptSessionData: a debug build panics when the session is rejected or terminated; here, as in a release build, it refuses.
- DataCipher.ExactlyOnce: that nobody without the key makes a ciphertext that authenticates is an assumption about the AEAD; key derivation, salt and handshake are not modelled.
- Replay.ReplayWindow.CheckAndRecord: the mutex, and `would_accept`, which records in spite of its name.
- Resampler.ResamplerI16.New: with more than two channels the invariant is not promised, because the frame loop only ever appends two.
- Resampler.ResamplerI16.Process: reals instead of floating point; the coefficient table and the final rounding are abstract functions, so nothing is said about sound quality.
- LineFit.FitSlope: reals instead of floating point.
- Drift.DriftEstimator.SampleFrame: timestamps convert to reals exactly, where the original rounds above 2^53; feeding blocks to the resampler is the resampler's own contract.
- Session.Session.Advance: the peer's and the own tier fields are never read and are left out; the public `mode` may be set between events.
- ManualUri.TokenFits: strings are Unicode text; that the QR payload's bytes are valid UTF-8 is not checked here.
- QUIC, timeouts, discovery, capture and render back ends, graphical shells, entitlements, telemetry and codec internals are not part of this model.
