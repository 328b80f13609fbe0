# Streamhaul transport core in Dafny

Streamhaul carries a remote desktop over an unreliable network: it cuts encoded video into datagrams, rebuilds
frames from whatever arrives, detects gaps and asks for keyframes, adapts its bitrate, switches encoders, forwards
input under a rate limit, transfers files with resume and cleans pasted text. This project models those state
machines and protocols and proves what they promise over every input, every run and every interleaving.

The method is the same throughout. The data of a component is a value, and one step of it is a function. Where the
program updates an object or loops, a class or a method does the same, and its contract equates it with that function
or with a plain mathematical description. The promises are then lemmas about whole runs of steps. Time,
randomness, the network and the choices of other parties are arguments.

| files | content |
|---|---|
| `Arith`, `Chunking`, `MaskBits` | shared arithmetic, chunking, bits of a 16-bit mask |
| `Wire`, `Utf8` | the packet headers, byte for byte; UTF-8 |
| `Packetize`, `Reassembly`, `OverflowRuns` | fragmenting, the bounded reassembler, its guarantees on a faulty network, runs at its limit |
| `VideoStream`, `StreamDelivery`, `BakedFrames` | the host's video loop, its stream end to end, the frame fixture |
| `GapDetection`, `LossRecovery`, `Recovery` | loss detection over wrapping sequence numbers, keyframe decisions, both together |
| `Classifier` | the content-mode machine |
| `Congestion`, `Gcc`, `Scream`, `TokenBucketPacing` | bitrate control and pacing, over the reals |
| `ModeSwitch` | double-buffered encoder switching on a shared session pool |
| `FileName`, `FileTransfer` | the check on file names; sender and receiver with resume |
| `InputAdmission`, `ButtonInjector`, `Teardown` | the input guard, the button injector, and the concurrent end of a session |
| `Sanitize` | the paste sanitizer |

## Where the code and its description differ

The model follows the code. Each difference is stated by a lemma.

- The reassembler makes room before it knows that a new frame completes at once, so at most 32 open frames after every
  step is not enough to lose nothing (`FrameLostAtTheLimit`, `SingleFragmentOverflow`). The exact condition is
  `LosslessExactlyWhenItFits`.
- A duplicate is documented to give nothing. A completed frame leaves no trace, so late duplicates open its buffer again
  and can bring it out again (`DuplicateComesOutAgain`). Exactly when is `EmissionExactly`.
- The gap detector always reports a frame gap of zero (`GapDetector.OnReceive`), so the gap thresholds of the keyframe
  decision never act on its reports (`WithoutFrameGap`).
- A pending NACK pre-empts the keyframe that a stale keyframe would force, and nothing else
  (`NackPreemptsStaleKeyframe`, with the state in `StaleKeyframeWaits`).
- At the exact end of the suppression window `suppression_remaining` still answers zero seconds while feedback is no
  longer suppressed (`SuppressionRemaining`, with the run in `AtTheBoundary`).
- After Game is left, Scrolling is four ticks away, not one (`ScrollingAfterGame`, `ScrollingOnTheFourthTick`, with the
  run in `NotOnTheNextTick`).
- An input event that releases a button is documented as always admitted. One that also presses another is refused when
  the bucket is empty (`ReleaseRefusedExactlyWhen`, with the run in `MixedReleaseIsRefused`).
- GCC's anchor is meant to lie above the delivered rate. The delay path records it only then; the loss path does so
  without that check, and a later cut of the delay path can leave a low anchor standing (`AnchorAboveDelivered`, with the
  runs in `LossAnchorIsDiscarded` and `LossAnchorOutlivesADelayCut`).
- GCC freezes the estimate under moderate loss but lets it grow under heavy loss while the last cut still holds the
  next one off (`WhenTheEstimateMoves`, with the run in `GrowthUnderHeavyLoss`).
- SCReAM's recorded slow-start threshold is never consulted: slow start is re-entered only by a restart, which resets it
  (`Scream.RunIsSane`). A report with a zero RTT is skipped, not read as the least RTT (`ZeroRttIsNotLeastRtt`).

## Model

| member | source | states |
|---|---|---|
| Wire.BigEndianRoundTrip | crates/sh-protocol/src/common.rs:60-77 | Reading a big-endian field gives back the value modulo the field's width. |
| Wire.CommonRoundTrip | crates/sh-protocol/src/common.rs:60-113 | Decoding an encoded common header, whatever follows it, gives the header back with the timestamp cut to 32 bits. |
| Wire.CommonCanonical | crates/sh-protocol/src/common.rs:93-113 | Every byte string that decodes as a common header is the encoding of what it decodes to. |
| Wire.CommonLayout | crates/sh-protocol/src/common.rs:93-113 | By byte places and literal numbers: exactly which nine bytes are accepted, and what each field is read from. |
| Wire.VideoRoundTrip | crates/sh-protocol/src/video.rs:99-167 | The same round trip for every video header that can be encoded. |
| Wire.VideoCanonical | crates/sh-protocol/src/video.rs:150-167 | Every accepted video header is in canonical form. |
| Wire.VideoLayout | crates/sh-protocol/src/video.rs:150-167 | The same for the twelve bytes of the video header. |
| Chunking.FlattenChunks | crates/sh-core/src/packetize.rs:60-86 | The chunks of a frame concatenate to the frame. |
| Chunking.ChunkAt | crates/sh-core/src/packetize.rs:81-86 | Chunk i is the slice from i times the chunk size, so no longer than a chunk and never past the end. |
| Chunking.ChunkLengths | crates/sh-core/src/packetize.rs:81-86 | Every chunk but the last is full. |
| Packetize.TooManyChunks | crates/sh-core/src/packetize.rs:56-78 | More than a limit of chunks are needed exactly when the data is longer than the limit times the chunk size. |
| Packetize.Fragment | crates/sh-core/src/packetize.rs:50-138 | Exactly which error comes back when; otherwise datagram i decodes to the packet's metadata, index i of the total and chunk i, in sequence, and fits the size limit. |
| Packetize.Parse | crates/sh-core/src/packetize.rs:197-213 | Whatever bytes arrive, an accepted piece has an index below its total and a frame id of 24 bits. |
| Packetize.Concatenate | crates/sh-core/src/packetize.rs:263-267 | Emission concatenates the slots in order. |
| Packetize.Reassembler.Ingest | crates/sh-core/src/packetize.rs:197-278 | One datagram acts on the buffers as the value-level step does, and keeps at most 32 buffers, each partly filled. |
| Packetize.Reassembler.Accept | crates/sh-core/src/packetize.rs:213-278 | Finding or opening the buffer, filling the slot and emitting agree with the value-level placement. |
| Packetize.Reassembler.Evict | crates/sh-core/src/packetize.rs:213-220 | Only a new key on a full table drops a frame, and it drops the lowest key. |
| Packetize.DeliverKeepsStructure | crates/sh-core/src/packetize.rs:197-278 | For arbitrary bytes: at most 32 frames, one slot per fragment, the count equals the filled slots and is above zero and below the total. |
| Packetize.ContradictionIsIgnored | crates/sh-core/src/packetize.rs:233-247 | Any piece whose total differs from that of its frame's first piece, or whose slot is filled, changes nothing. |
| Packetize.FirstPieceDecides | crates/sh-core/src/packetize.rs:222-277 | The first piece of a frame sets total and metadata, and a single-piece frame comes out at once with that piece's bytes and metadata. |
| Reassembly.FragmentsAreGenuine | crates/sh-core/src/packetize.rs:81-135 | Every fragment parses, on the receiving side, to its own piece of the packet it was cut from. |
| Reassembly.NoCorruption | crates/sh-core/src/packetize.rs:197-278 | Under any loss, duplication, reordering, interleaving and eviction of genuine datagrams, every packet emitted equals the sent packet of that frame id, as it survives the wire. |
| Reassembly.NothingIsInvented | crates/sh-core/src/packetize.rs:197-278 | For arbitrary bytes from anyone: every packet handed out is the concatenation of pieces that came under its id with one and the same total, one for each index. |
| Reassembly.Completeness | crates/sh-core/src/packetize.rs:215-277 | While every datagram finds room, the bounded buffer holds exactly what an unbounded, buffer-free reference holds, and emits exactly when the last missing index arrives. |
| Reassembly.OverflowLoses | crates/sh-core/src/packetize.rs:215-228 | A datagram that finds no room costs the lowest open frame, which the reference still has. |
| Reassembly.SingleFragmentOverflow | crates/sh-core/src/packetize.rs:215-277 | That happens even when the new frame is a single fragment and leaves the number of open frames as it was; see FrameLostAtTheLimit for a run. |
| Reassembly.LosslessExactlyWhenItFits | crates/sh-core/src/packetize.rs:215-277 | Over a whole run the buffer keeps up with the reference if and only if no new frame arrives while 32 others are open. |
| Reassembly.FirstEmission | crates/sh-core/src/packetize.rs:215-277 | While every datagram finds room, a frame whose indices had not all arrived is emitted at a step exactly when that step delivers the last of them. |
| Reassembly.EmissionExactly | crates/sh-core/src/packetize.rs:197-278 | For any frame of any run of genuine datagrams, whether the table overflows or not: it is handed out at a step if and only if all of its indices have arrived since it last left the table, handed out or pushed out. |
| OverflowRuns.FrameLostAtTheLimit | crates/sh-core/src/packetize.rs:213-220 | A genuine run of 34 datagrams with at most 32 frames open after every step, in which both fragments of a frame arrive and it never comes out. |
| OverflowRuns.DuplicateComesOutAgain | crates/sh-core/src/packetize.rs:190-194 | A second copy of a single-fragment frame makes the reassembler hand the frame out again. |
| VideoStream.ChunkSize | bins/streamhaul-webrtc-host/src/lib.rs:592-604 | The chunk size is positive and fits the 16-bit length field, whatever the configured limit; WithinLimit and SendableExactly say what it is. |
| VideoStream.SendableExactly | bins/streamhaul-webrtc-host/src/lib.rs:600-604 | A frame can be sent exactly if its payload is at most 255 times the configured limit, kept between 1 and 65535. |
| VideoStream.TimestampSteps | bins/streamhaul-webrtc-host/src/lib.rs:1394 | The first frame is stamped zero and each next one a frame period later, modulo 2^64. |
| VideoStream.FragmentFields | bins/streamhaul-webrtc-host/src/lib.rs:606-638 | What is on the wire of fragment i of frame k, by literal numbers: sequence, lengths, k times the period modulo 2^32, k modulo 2^24, index, markers. |
| VideoStream.BuildFragments | bins/streamhaul-webrtc-host/src/lib.rs:592-638 | Fails exactly on payloads longer than 255 times the limit, which is the configured one kept between 1 and 65535; otherwise fragment i carries its sequence number, the masked frame id, the timestamp, chunk i and the marker on the last only, at most the limit of payload bytes and exactly the limit if it is not the last. |
| VideoStream.SendOneFrame | bins/streamhaul-webrtc-host/src/lib.rs:1380-1423 | A frame is sent whole, cut off by the peer, or skipped, exactly if its payload is longer than 255 times the limit; a skipped one uses no number and re-arms a keyframe; every datagram stays within the limit. |
| VideoStream.RunVideoSendLoop | bins/streamhaul-webrtc-host/src/lib.rs:1427-1464 | Over the whole loop the i-th fragment sent carries i modulo 65536, the k-th frame sent carries id k, fragments concatenate to payloads, the frames sent are the sendable frames of the source in order, and every datagram has at most the configured limit of payload bytes, exactly that if it is not a frame's last. |
| StreamDelivery.HostFragmentIsGenuine | bins/streamhaul-webrtc-host/src/lib.rs:592-638 | As long as the 24-bit ids have not run over, every fragment of the host's loop is a genuine piece for the reassembler, so all guarantees on a faulty network apply. |
| StreamDelivery.OpenInOrder | crates/sh-core/src/packetize.rs:215-277 | Delivered in order, at most one frame of the stream is open at any time: the one being sent. The stream may be of any length, also after the frame ids have run over. |
| StreamDelivery.EmptyBetweenFrames | crates/sh-core/src/packetize.rs:197-278 | Between two frames of the in-order stream the table is empty. |
| StreamDelivery.StreamFits | crates/sh-core/src/packetize.rs:215-277 | The in-order stream always finds room, for any number of frames. |
| StreamDelivery.InOrderDelivery | crates/sh-core/src/packetize.rs:197-278 | Across loop and reassembler, for any number of frames: every frame comes back, in order, exactly at its last fragment, and nothing else is emitted. |
| StreamDelivery.ReceiveStream | crates/sh-core/src/packetize.rs:197-278 | A reassembler object fed the stream, cut off or not, hands out exactly its whole frames, in order. |
| StreamDelivery.StreamAndReceive | bins/streamhaul-webrtc-host/src/lib.rs:1427-1464 | From encoder to receiver, however many frames are sent: the packets rebuilt are the first sendable frames the encoder produced, in order. They are as many as were asked for, or as the source could give, or, if the peer went away, exactly those whose every fragment went out, with the next frame cut short on the channel. |
| BakedFrames.Print | crates/sh-codec-openh264/examples/gen_browser_fixture.rs:65-79 | The printing loop writes the frames one after the other, length, type and payload. |
| BakedFrames.ParseBakedFrames | bins/streamhaul-webrtc-host/src/lib.rs:147-174 | The parsing loop computes the recursive parse of any bytes, malformed tails included. |
| BakedFrames.FirstFrame | bins/streamhaul-webrtc-host/src/lib.rs:147-174 | A cut inside a frame loses the frame and what follows; a cut after it does not affect it. |
| BakedFrames.Truncation | bins/streamhaul-webrtc-host/src/lib.rs:147-174 | Any truncation of printed bytes parses to exactly the frames wholly before the cut. |
| BakedFrames.RoundTrip | bins/streamhaul-webrtc-host/src/lib.rs:147-174 | The parser inverts the printer. |
| BakedFrames.FixtureLayout | bins/streamhaul-webrtc-host/src/lib.rs:147-174 | By byte places: four length bytes, lowest first, a type byte of 1 for IDR and 2 for refresh, the payload. |
| GapDetection.UnwrapsTrueNumber | crates/sh-adaptive/src/loss_recovery.rs:536-591 | A packet number within half the sequence space of the highest is recovered from its 16 bits. |
| GapDetection.UnwrapCases | crates/sh-adaptive/src/loss_recovery.rs:546-582 | The wrapping comparisons of the detector distinguish newer, equal and older numbers correctly. |
| GapDetection.MissingIsExact | crates/sh-adaptive/src/loss_recovery.rs:627-637 | The list of missing numbers has exactly the unreceived ones of the range, each once, newest first. |
| GapDetection.WindowAdvances | crates/sh-adaptive/src/loss_recovery.rs:547-572 | Shifting the mask and marking the old highest keeps "bit i is set iff highest - 1 - i was received" for any jump. |
| GapDetection.WindowMarks | crates/sh-adaptive/src/loss_recovery.rs:576-586 | Marking a late packet keeps the same, also when it is older than the window. |
| GapDetection.TrailingZeros | crates/sh-adaptive/src/loss_recovery.rs:623-625 | The position of the lowest set bit, 16 if none. |
| GapDetection.GapDetector.OnReceive | crates/sh-adaptive/src/loss_recovery.rs:536-591 | The bitmap, counters and wrapping sequence refine a plain set of numbers: the set grows by the unwrapped number and the report describes the set. |
| GapDetection.GapDetector.BuildReport | crates/sh-adaptive/src/loss_recovery.rs:593-645 | The NACK bitmap, the missing list and the run just below the highest are those of the set of numbers received since the first; the frame gap is zero. |
| GapDetection.GapDetector.ListMissing | crates/sh-adaptive/src/loss_recovery.rs:627-637 | The loop over the bitmap lists exactly the wire numbers of the missing packets, newest first. |
| GapDetection.Observe | crates/sh-adaptive/src/loss_recovery.rs:536-645 | Over a whole run of true packet numbers seen 16 bits at a time, the last report is the one the true numbers call for, however often the sequence wraps. |
| LossRecovery.ForcedIdrIsMonotone | crates/sh-adaptive/src/loss_recovery.rs:299-364 | A forced keyframe stays forced when RTT, frame gap, loss, consecutive loss or keyframe age grow. |
| LossRecovery.NackPreemptsStaleKeyframe | crates/sh-adaptive/src/loss_recovery.rs:318-352 | Exactly when adding missing packets withdraws a forced keyframe, and that it is then a stale-keyframe one. |
| LossRecovery.StaleKeyframeWaits | crates/sh-adaptive/src/loss_recovery.rs:318-352 | Such a state: it forces a keyframe with nothing missing and asks for the packet with one missing. |
| LossRecovery.WithoutFrameGap | crates/sh-adaptive/src/loss_recovery.rs:299-364 | Exactly which states force a keyframe when the frame gap is zero, as the gap detector reports it. |
| LossRecovery.Tiers | crates/sh-adaptive/src/loss_recovery.rs:299-364 | The four tiers by literal numbers, each with the exact states that lead to it. |
| LossRecovery.MoreRedundancy | crates/sh-adaptive/src/loss_recovery.rs:355-364 | More redundancy changes nothing but that nothing is done, exactly if it then exceeds the loss. |
| LossRecovery.SuppressedExactly | crates/sh-adaptive/src/loss_recovery.rs:292-296 | By numbers: a keyframe is held back for 500 ms or two RTTs after the last one, also before it. |
| LossRecovery.OutOfRange | crates/sh-adaptive/src/loss_recovery.rs:199-212 | Measurements outside their range count as the end of the range. |
| LossRecovery.LossRecoveryController.OnFeedback | crates/sh-adaptive/src/loss_recovery.rs:199-236 | Decision and suppression act on the last request time as the value-level step does. |
| LossRecovery.LossRecoveryController.SuppressionRemaining | crates/sh-adaptive/src/loss_recovery.rs:272-294 | Suppression holds if and only if the answer is a positive duration; the answer zero comes exactly at the boundary. |
| LossRecovery.AtTheBoundary | crates/sh-adaptive/src/loss_recovery.rs:272-294 | A controller at the end of its window: the answer is zero seconds, and the same feedback forces the next keyframe. |
| LossRecovery.IdrSpacing | crates/sh-adaptive/src/loss_recovery.rs:199-236 | Under any clock, even a backward one, two forced keyframes of a run are in time order and at least 500 ms and twice the current RTT apart. |
| LossRecovery.OnlyForcedKeyframesCount | crates/sh-adaptive/src/loss_recovery.rs:214-236 | The time the window runs from is that of the last forced keyframe and of nothing else. |
| Recovery.NackAsksForTheMissing | crates/sh-adaptive/src/loss_recovery.rs:318-330 | For a report of the detector, a request lists exactly the packets missing of the last sixteen since the first; the limit of sixteen requests never cuts one off. |
| Recovery.NeverAsksForAReceived | crates/sh-adaptive/src/loss_recovery.rs:318-330 | No packet received within half the sequence space of the highest is asked for, however the sequence wraps. |
| Recovery.ObserveAndDecide | crates/sh-adaptive/src/loss_recovery.rs:199-236 | Detector and controller together over a run of true packet numbers: a request asks for exactly the missing ones and none received; without one, a keyframe is forced exactly for loss or a stale keyframe outside the suppression window. |
| Classifier.ContentClassifier.OnTick | crates/sh-adaptive/src/classifier.rs:594-598 | The object's state is that of the run of all scores it was ticked with, and the mode returned is the mode of that run, so every result about runs is one about the object. |
| Classifier.CountersAreRunLengths | crates/sh-adaptive/src/classifier.rs:611-722 | In every reachable state each counter is the trailing run of scores beyond its threshold and below its dwell, Scrolling's two counters are never both running, and Work's counter is the trailing run in the scroll band, counted from when Work was entered. |
| Classifier.ModeChangeNeedsDwell | crates/sh-adaptive/src/classifier.rs:611-722 | A mode changes only at the end of a full dwell of scores on the right side of its threshold. |
| Classifier.ModeChangesAreSpaced | crates/sh-adaptive/src/classifier.rs:87-139 | Any two mode changes of a run are at least the dwell of the later one apart, so at least four ticks. |
| Classifier.GameEntryTime | crates/sh-adaptive/src/classifier.rs:611-722 | The k-th entry into Game comes no earlier than tick 8 + 38 (k - 1). |
| Classifier.HighScoresReachGame | crates/sh-adaptive/src/classifier.rs:611-722 | From any state, high scores end in Game exactly when there are as many as that state still needs. |
| Classifier.LowScoresReachWork | crates/sh-adaptive/src/classifier.rs:611-722 | The same for low scores and Work. |
| Classifier.Converges | crates/sh-adaptive/src/classifier.rs:594-722 | After any past, 8 high scores end in Game and 30 low ones in Work. |
| Classifier.ScrollingAfterGame | crates/sh-adaptive/src/classifier.rs:700-722 | In the three ticks after Game is left the mode stays Work, whatever the scores. |
| Classifier.ScrollingOnTheFourthTick | crates/sh-adaptive/src/classifier.rs:700-722 | On the fourth tick after Game is left the mode is Scrolling if and only if all four scores were in its band. |
| Classifier.NotOnTheNextTick | crates/sh-adaptive/src/classifier.rs:707-712 | A concrete run: Game is entered and left, the next score is in the band, and the mode is still Work. |
| Congestion.LossFraction | crates/sh-adaptive/src/gcc.rs:357-365 | The loss of a report, explicit or from byte counts, is a fraction between 0 and 1. |
| Congestion.LossExactly | crates/sh-adaptive/src/gcc.rs:357-365 | The explicit loss in 256ths if given; else lost over acknowledged bytes, and all of it from equal counts on. |
| Congestion.TimingExactly | crates/sh-adaptive/src/gcc.rs:327-345 | By numbers: a report is ignored before 1 ms has passed since the last one, and a restart after 30 s. |
| Congestion.TargetOf | crates/sh-adaptive/src/gcc.rs:540-543 | A target is the whole bitrate just below the rate, or the nearer configured bound when the rate is outside. |
| Congestion.SmoothedStaysValid | crates/sh-adaptive/src/scream.rs:251-255 | Each RTT moves the smoothed one an eighth of the way, so it stays between 100 microseconds and 10 seconds, whatever is reported. |
| Congestion.HeldOffForOneRtt | crates/sh-adaptive/src/gcc.rs:290-298 | A cut is held off exactly for one smoothed RTT after the last one. |
| Congestion.CutsInTraceAreSpaced | crates/sh-adaptive/src/gcc.rs:290-298 | For any controller whose cuts respect the hold-off and whose restarts follow a 30 s gap, two cuts are at least one smoothed RTT apart. |
| Congestion.ZeroRttIsNotLeastRtt | crates/sh-adaptive/src/scream.rs:406-409 | A zero RTT leaves the smoothed RTT as it is, and this equals reading it as the least RTT only at the least RTT. |
| Gcc.GccController.constructor | crates/sh-adaptive/src/gcc.rs:263-278 | A new controller is in Hold at the clamped initial bitrate, without anchor. |
| Gcc.GccController.ColdRestart | crates/sh-adaptive/src/gcc.rs:301-318 | A restart resets everything but the time of the last report. |
| Gcc.GccController.DelayPath | crates/sh-adaptive/src/gcc.rs:404-500 | The three arms act on estimate, anchor and cut time as the value-level delay path. |
| Gcc.GccController.LossPath | crates/sh-adaptive/src/gcc.rs:507-533 | The loss adjustment acts as the value-level loss path, relative to the estimate before the delay path. |
| Gcc.GccController.OnFeedback | crates/sh-adaptive/src/gcc.rs:325-543 | One report changes the controller as the value-level step does; a gap of more than 30 s restarts it (RestartResets, RestartForgets). |
| Gcc.EstimateMovesSlowly | crates/sh-adaptive/src/gcc.rs:378-543 | A regular report cuts by exactly 15 percent or not at all, never twice; what it adds is between the smaller of 8 percent and 1 bit per second and the larger of 8 percent and 8000. |
| Gcc.WhenTheEstimateMoves | crates/sh-adaptive/src/gcc.rs:378-535 | Exactly which reports lower and which raise a positive estimate. |
| Gcc.GrowthUnderHeavyLoss | crates/sh-adaptive/src/gcc.rs:515-533 | A concrete run: heavy loss cuts the estimate, and the next report of 25 percent loss raises it. |
| Gcc.AnchorAboveDelivered | crates/sh-adaptive/src/gcc.rs:405-527 | After a cut the anchor, if there is one, lies above the delivered rate if and only if the estimate exceeded that rate, or the cut came from the delay path and no anchor at or below that rate stood. |
| Gcc.LossAnchorIsDiscarded | crates/sh-adaptive/src/gcc.rs:515-527 | A concrete run in which the loss path records an anchor below the delivered rate and the next report drops it and resumes 8 percent growth. |
| Gcc.LossAnchorOutlivesADelayCut | crates/sh-adaptive/src/gcc.rs:405-425 | A concrete run in which a cut of the delay path leaves such an anchor standing below the delivered rate. |
| Gcc.PhaseIsHistory | crates/sh-adaptive/src/gcc.rs:387-397 | In every run the phase is decided by the reports alone: by the number of calm ones since the last overuse, none, one (or a fresh start), two or more. |
| Gcc.RunIsSane | crates/sh-adaptive/src/gcc.rs:325-543 | In every run: SRTT between 100 microseconds and 10 seconds, estimate and anchor not negative, and the target is the estimate brought within the configured bounds. |
| Gcc.RestartResets | crates/sh-adaptive/src/gcc.rs:301-342 | After any past, the first report after more than 30 s leaves Hold, no anchor, no cut time, the clamped initial RTT, and estimate and target at the initial bitrate brought within the bounds. |
| Gcc.RestartForgets | crates/sh-adaptive/src/gcc.rs:301-342 | Two runs that share what came from such a report on end in the same state, whatever came before. |
| Gcc.GrowthExactly | crates/sh-adaptive/src/gcc.rs:458-495 | What a growing report adds, by numbers: half the way to the anchor between 1 and 8000, 8 percent, or 8000. |
| Gcc.DeliveredRate | crates/sh-adaptive/src/gcc.rs:367-385 | The delivered rate times the interval is the bits acknowledged. |
| Gcc.CutsAreSpaced | crates/sh-adaptive/src/gcc.rs:290-298 | Any two cuts of a run, with or without a restart between them, are at least the smoothed RTT of the later one apart. |
| Gcc.OvershootIsBounded | crates/sh-adaptive/src/gcc.rs:458-495 | While an anchor stands the estimate exceeds it by at most one bit per second for each report since it was recorded. |
| Scream.ScreamController.constructor | crates/sh-adaptive/src/scream.rs:218-240 | A new controller is in slow start with the clamped initial window. |
| Scream.ScreamController.UpdateTargetBitrate | crates/sh-adaptive/src/scream.rs:269-284 | The target is derived from window and SRTT and clamped, nothing else changes; TargetFollowsWindow says what it is. |
| Scream.ScreamController.ApplyIncrease | crates/sh-adaptive/src/scream.rs:308-336 | Growth and graduation from slow start as the value-level increase. |
| Scream.ScreamController.ApplyDecrease | crates/sh-adaptive/src/scream.rs:344-355 | The cut as the value-level decrease. |
| Scream.ScreamController.Restart | crates/sh-adaptive/src/scream.rs:379-400 | A restart resets everything to the initial state, re-derives the target and keeps the report time. |
| Scream.ScreamController.OnFeedback | crates/sh-adaptive/src/scream.rs:366-440 | One report changes the controller as the value-level step does. |
| Scream.WindowMoves | crates/sh-adaptive/src/scream.rs:288-440 | Outside restarts the window falls exactly on an unsuppressed congested report, to 85 percent or two segments; exactly how much it grows out of slow start and how much it can in it; exactly when slow start ends; steady state is not left. |
| Scream.RunIsSane | crates/sh-adaptive/src/scream.rs:366-440 | In every run: window, SRTT and target in range, the target derived from the window in force, and slow start with the initial threshold and no cut behind it. |
| Scream.TargetFollowsWindow | crates/sh-adaptive/src/scream.rs:269-284 | After any run with a report: target times SRTT is at most eight times the window, which is less than one more times SRTT, each unless a bound holds the target there. |
| Scream.InitialWindow | crates/sh-adaptive/src/scream.rs:222-230 | The initial window carries the initial bitrate over the initial RTT, between 2920 bytes and 2.5 MB. |
| Scream.FirstReportKeepsInitialBitrate | crates/sh-adaptive/src/scream.rs:366-440 | A first calm report that confirms the initial RTT gives back the initial bitrate, when nothing is clamped. |
| Scream.CongestedExactly | crates/sh-adaptive/src/scream.rs:427-428 | By numbers: 20 ms of queue or 2 percent of loss. |
| Scream.RestartResets | crates/sh-adaptive/src/scream.rs:379-400 | After any past, the first report after more than 30 s leaves slow start, the initial window, threshold and RTT. |
| Scream.RestartForgets | crates/sh-adaptive/src/scream.rs:379-400 | Two runs that share what came from such a report on end in the same state. |
| Scream.CutsAreSpaced | crates/sh-adaptive/src/scream.rs:288-300 | Any two cuts of a run are at least one smoothed RTT apart. |
| Scream.SlowStartIsExact | crates/sh-adaptive/src/scream.rs:308-321 | While slow start lasts, the window is the initial one plus eight times all bytes acknowledged since the last restart. |
| TokenBucketPacing.TokenBucket.SetRate | crates/sh-adaptive/src/pacer.rs:86-92 | A new rate keeps the balance within the new capacity. |
| TokenBucketPacing.TokenBucket.Advance | crates/sh-adaptive/src/pacer.rs:95-98 | Time adds tokens at the rate up to the capacity. |
| TokenBucketPacing.TokenBucket.TryConsume | crates/sh-adaptive/src/pacer.rs:103-114 | Exactly when a request is granted and what it costs. |
| TokenBucketPacing.TokenBucket.TimeUntil | crates/sh-adaptive/src/pacer.rs:125-139 | None if and only if no single wait could make the request succeed; a returned wait always does, and no wait shorter by more than the slack does. |
| TokenBucketPacing.NeverOverspends | crates/sh-adaptive/src/pacer.rs:86-115 | Over any run of advances, rate changes and requests, bytes granted plus the balance are at most the starting balance, the accrual and half a byte per grant. |
| TokenBucketPacing.PacingBound | crates/sh-adaptive/src/pacer.rs:72-115 | From a fresh bucket, the bytes granted are at most the burst, the accrual and half a byte per grant. |
| TokenBucketPacing.RateIsBits | crates/sh-adaptive/src/pacer.rs:72-80 | The rate is in bits: eight times the fill is the rate, eight times the capacity the rate times the burst. |
| TokenBucketPacing.WhatAccrues | crates/sh-adaptive/src/pacer.rs:95-114 | An empty bucket can give some bytes after some time exactly if their bits, four short, have accrued at the rate and fit the burst. |
| TokenBucketPacing.WaitsAddUp | crates/sh-adaptive/src/pacer.rs:95-98 | Waiting twice is waiting once for as long as both. |
| TokenBucketPacing.NewRateKeepsBalance | crates/sh-adaptive/src/pacer.rs:86-92 | A new rate keeps the balance, or as much of it as the new burst holds. |
| TokenBucketPacing.GrantCosts | crates/sh-adaptive/src/pacer.rs:103-114 | A grant takes exactly its bytes, or all there is if at most half a byte was missing; a refusal takes nothing. |
| ModeSwitch.SessionLimiter.TryAcquire | crates/sh-codec-hw/src/mode_switch.rs:223-234 | A slot is granted exactly when one is free, without blocking. |
| ModeSwitch.NewEncoder | crates/sh-codec-hw/src/mode_switch.rs:476-497 | A slot is taken exactly when a switcher comes back; each failure has its error and gives the slot back. |
| ModeSwitch.DoubleBufferedEncoder.Encode | crates/sh-codec-hw/src/mode_switch.rs:569-574 | A frame always goes to the active encoder; the packet handed back, if any, is the oldest inside. |
| ModeSwitch.DoubleBufferedEncoder.SwitchTo | crates/sh-codec-hw/src/mode_switch.rs:739-811 | A switch succeeds exactly if a slot is free and the factory succeeds; a failed one changes nothing; either way the free slots are as before; the tail is what the old encoder still held. |
| ModeSwitch.SwitchIsAllOrNothing | crates/sh-codec-hw/src/mode_switch.rs:739-811 | The six steps of a switch compose to either no change at all or the complete switch with a primed encoder. |
| ModeSwitch.EveryRunIsSound | crates/sh-codec-hw/src/mode_switch.rs:223-245 | In every interleaving of any number of switchers, mid-switch included: free plus held slots equal the maximum, accepted frames are each in one place and in order, and each encoder switched to opens with an IDR. |
| ModeSwitch.EveryFrameOnceInOrder | crates/sh-codec-hw/src/mode_switch.rs:770-811 | If no flush failed and nothing is left inside, the frames delivered through outputs and tails are the frames submitted, once each, in order. |
| ModeSwitch.SwitchNeedsASpareSlot | crates/sh-codec-hw/src/mode_switch.rs:739-761 | With all switchers at rest, a switch begins if and only if fewer encoders run than there are slots; with a full pool it changes nothing. |
| FileTransfer.HeaderRoundTrip | crates/sh-protocol/src/file.rs:375-416 | Decoding an encoded chunk header gives it back. |
| Utf8.RoundTrip | crates/sh-core/src/file.rs:153 | Decoding the UTF-8 form of any scalar values gives them back. |
| Utf8.Canonical | crates/sh-core/src/file.rs:153 | Every byte string that decodes is the UTF-8 form of what it decodes to: no overlong forms, no surrogates. |
| Utf8.Forms | crates/sh-core/src/file.rs:153 | The four forms by their byte places. |
| FileName.AcceptedExactly | crates/sh-core/src/file.rs:146-167 | The names accepted are exactly the UTF-8 forms, up to 255 bytes, of path components without separators and control characters, other than one or two dots. |
| FileName.NoUnsafeByte | crates/sh-core/src/file.rs:154-161 | No byte of an accepted name is a slash, a backslash or an ASCII control. |
| FileTransfer.NewSender | crates/sh-core/src/file.rs:193-216 | Exactly which names and chunk sizes are refused with which error; a new sender starts at the beginning. |
| FileTransfer.FileSender.OnAccept | crates/sh-core/src/file.rs:235-251 | The cursor moves to the resume offset exactly if the id matches and the offset is within the file. |
| FileTransfer.FileSender.NextChunk | crates/sh-core/src/file.rs:258-295 | The next frame is the file's frame at the cursor, and none once the file is sent. |
| FileTransfer.SendAll | crates/sh-core/src/file.rs:258-295 | Draining a sender yields exactly the frames of the attempt from its cursor. |
| FileTransfer.AcceptOffer | crates/sh-core/src/file.rs:358-398 | The order of the refusals, capability bit and name check included, and that an accepted offer resumes behind what is already held, within the cap. |
| FileTransfer.FileReceiver.OnChunk | crates/sh-core/src/file.rs:406-465 | A frame is refused with the error of the first check it fails and then changes nothing; an accepted one is appended and hashed; completion is reported exactly at full size. OnlyItsContinuation says what is accepted without these checks. |
| FileTransfer.FileReceiver.Finish | crates/sh-core/src/file.rs:471-482 | The bytes come back exactly if they are complete and their digest is the offered one. |
| FileTransfer.IngestKeepsBounds | crates/sh-core/src/file.rs:406-465 | For arbitrary frames: held bytes never exceed the total, the total never the cap, the hash covers exactly the held bytes, and nothing held is ever changed. |
| FileTransfer.OnlyItsContinuation | crates/sh-core/src/file.rs:406-465 | Any bytes at all, as a frame, by their places: they are appended exactly if they name this transfer, the place the receiver stands at and the length of what follows, end within total and cap, and mark the last only at the end; otherwise nothing changes. |
| FileTransfer.WhyRefused | crates/sh-core/src/file.rs:416-435 | A frame of another transfer is refused as an unknown transfer, one of this transfer at another place as an offset mismatch. |
| FileTransfer.RefusalByPlaces | crates/sh-core/src/file.rs:406-465 | Why any bytes at all are refused, by their places and literal numbers, the first reason in the order of the checks. |
| FileTransfer.GenuineFrame | crates/sh-core/src/file.rs:406-465 | A frame the sender can emit is accepted exactly when it continues where the receiver stands. |
| FileTransfer.ReplaySafety | crates/sh-core/src/file.rs:406-465 | Any frames the sender ever emitted, at any resume offset, lost, repeated or reordered, leave the receiver with a prefix of the file. |
| FileTransfer.Isolation | crates/sh-core/src/file.rs:406-465 | What a receiver makes of any frames is what it makes of those whose first eight bytes name its transfer. |
| FileTransfer.MixedReplaySafety | crates/sh-core/src/file.rs:406-465 | Frames of any number of transfers, mixed, lost and repeated, leave each receiver with a prefix of its own file. |
| FileTransfer.AttemptShape | crates/sh-core/src/file.rs:258-295 | An attempt has ceil(remaining / chunk size) frames, and LAST is set on the final one only. |
| FileTransfer.AttemptProgress | crates/sh-core/src/file.rs:406-465 | The first n frames of an attempt in order are all accepted; all of them complete the file. |
| FileTransfer.ResumeChain | crates/sh-core/src/file.rs:358-465 | Over any number of interrupted, replayed or mixed attempts, the bytes each accepts, put together, continue the prefix held at the start: none lost, none twice. |
| FileTransfer.ChainThenFinish | crates/sh-core/src/file.rs:358-482 | After any such chain one complete attempt makes finishing return the original file. |
| FileTransfer.TransferWithResume | crates/sh-core/src/file.rs:235-482 | Sender and receiver objects driven through any number of disturbed attempts and one undisturbed: finishing returns the file. |
| FileTransfer.FinishIsIntegrity | crates/sh-core/src/file.rs:406-482 | For arbitrary frames and an arbitrary retained prefix: finishing succeeds if and only if the bytes held are the offered file at the offered size, and then returns it, for a hash that tells the file from other bytes. |
| InputAdmission.RateLimiter.TryAllow | crates/sh-input/src/rate_limiter.rs:94-115 | Refill, cap and spending as the value-level limiter, backward clocks included; GrantedExactlyWhen says what that grants without it. |
| InputAdmission.InputGuard.AdmitInput | bins/streamhaul-webrtc-host/src/lib.rs:1736-1762 | An event is admitted exactly if it is a pure release or the limiter grants it. |
| InputAdmission.InputGuard.ForwardInput | bins/streamhaul-webrtc-host/src/lib.rs:1341-1362 | The mirror moves exactly on an enqueued Button event; refusals are counted. |
| InputAdmission.MirrorIsExact | bins/streamhaul-webrtc-host/src/lib.rs:1341-1362 | In every run the mirror is the button state an injector has after the enqueued events, whatever the queue dropped. |
| InputAdmission.ReleaseIsNeverRefused | bins/streamhaul-webrtc-host/src/lib.rs:1736-1762 | An event that only releases held buttons is never refused, and is enqueued if there is room. |
| InputAdmission.ReleaseRefusedExactlyWhen | bins/streamhaul-webrtc-host/src/lib.rs:1736-1762 | An event that releases a held button is refused if and only if it also presses another and the bucket is empty. |
| InputAdmission.MixedReleaseIsRefused | bins/streamhaul-webrtc-host/src/lib.rs:1719-1728 | A concrete run at whose end an event that releases a held button is refused. |
| InputAdmission.BypassIsAmortised | bins/streamhaul-webrtc-host/src/lib.rs:1736-1762 | Over a whole session, events that bypass the limiter number at most three times the paid Button events enqueued. |
| InputAdmission.TokensAreConserved | crates/sh-input/src/rate_limiter.rs:94-115 | In any stretch of time of any session, wherever it begins, the tokens spent are at most the burst plus the rate times its length, also under backward clocks. |
| InputAdmission.GrantedExactlyWhen | crates/sh-input/src/rate_limiter.rs:94-115 | The exact law of the bucket, from the times and answers of a session alone: an event that is not a pure release is granted if and only if, since every earlier try, one more grant stays within 120 and 500 for each second since. |
| InputAdmission.QuietRefills | crates/sh-input/src/rate_limiter.rs:94-115 | After 240 ms without events any 120 of them get through at once. |
| InputAdmission.SteadyIsNeverRefused | crates/sh-input/src/rate_limiter.rs:94-115 | From an event that was granted on, events at least 2 ms apart are never refused. |
| InputAdmission.ThrottledAreTheRefused | bins/streamhaul-webrtc-host/src/lib.rs:1341-1362 | The count of throttled events is the number of tries that were not granted. |
| InputAdmission.FloodIsBounded | bins/streamhaul-webrtc-host/src/lib.rs:1341-1362 | In any stretch of time of any session at most four times (burst + rate times seconds) events reach the injector, plus one for each button held when the stretch begins, so at most three. |
| InputAdmission.BypassInWindow | bins/streamhaul-webrtc-host/src/lib.rs:1736-1762 | From any place of a run on, the events that bypass the limiter are paid for by the Button events enqueued since, three each, or by buttons held at that place. |
| InputAdmission.MostAtOnceIsExact | bins/streamhaul-webrtc-host/src/lib.rs:1736-1762 | The most that gets through at one instant, at any point of any session, is exactly one event for each button held and four for each whole token: that many is reached and no more. |
| InputAdmission.BurstExceededExactlyWhen | bins/streamhaul-webrtc-host/src/lib.rs:1736-1762 | More than four events per token of the burst get through at one instant if and only if a button is held and the bucket is full. |
| InputAdmission.FourEightyThreeAtOnce | bins/streamhaul-webrtc-host/src/lib.rs:1736-1762 | A run that reaches the bound of FloodIsBounded: ten seconds after all three buttons went down, 483 events get through at once. |
| Teardown.StepKeepsInv | bins/streamhaul-webrtc-host/src/lib.rs:1531-1592 | Every step of driver, input task, clipboard task and injection thread keeps the protocol's invariant. |
| Teardown.ReturnIsClean | bins/streamhaul-webrtc-host/src/lib.rs:1531-1592 | In every interleaving, a session that returns has no sender left, both tasks ended, exactly the enqueued events injected in order, and one release of everything after the last. |
| Teardown.NoStuckButton | bins/streamhaul-webrtc-host/src/lib.rs:1316-1336 | When a session has returned, the display server has no button down, has seen no press or release out of turn, and as many releases as presses of each button. |
| Teardown.MirrorMatchesServer | bins/streamhaul-webrtc-host/src/lib.rs:1341-1362 | In every interleaving, whenever the queue is empty and the session still injects, the buttons down at the display server are those of the admission guard's mirror. |
| Teardown.DroppedOnlyWhenFull | bins/streamhaul-webrtc-host/src/lib.rs:1341-1362 | An event the guard lets through is enqueued unless 256 are waiting. |
| ButtonInjector.XTestInjector.Inject | crates/sh-platform-linux/src/injector.rs:279-311 | The loop over the button map sends exactly one press or release for each button that differs from the remembered mask. |
| ButtonInjector.XTestInjector.ReleaseAll | crates/sh-platform-linux/src/injector.rs:432-451 | Releases exactly the buttons of the remembered mask, and nothing if it has none. |
| ButtonInjector.ServerFollows | crates/sh-platform-linux/src/injector.rs:279-311 | After any calls the buttons down at the server are those of the remembered mask, and every press hit an up button, every release a down one. |
| ButtonInjector.Balance | crates/sh-platform-linux/src/injector.rs:279-311 | Of each button there were as many presses as releases, and one more if it is down. |
| ButtonInjector.ButtonBits | crates/sh-platform-linux/src/injector.rs:57 | The three lowest bits of a mask are the left, middle and right button. |
| ButtonInjector.ReleaseAllBalances | crates/sh-platform-linux/src/injector.rs:432-451 | After a release of everything nothing is down and presses and releases balance. |
| ButtonInjector.ServerHoldsTheMirror | crates/sh-platform-linux/src/injector.rs:279-311 | After any events the buttons down at the server are those of the last Button mask, the reference of the guard's mirror. |
| Teardown.NoDeadlock | bins/streamhaul-webrtc-host/src/lib.rs:1470-1502 | Until the session returns, some party can always take a step. |
| Teardown.CanAlwaysReturn | bins/streamhaul-webrtc-host/src/lib.rs:1531-1592 | From every state of every interleaving, also before the sender is dropped, the session can still return, within a bound known there. |
| Teardown.TeardownAdvances | bins/streamhaul-webrtc-host/src/lib.rs:1531-1592 | Once the last sender of the driver is dropped, every step of any party brings the session closer to its return. |
| Teardown.TeardownIsBounded | bins/streamhaul-webrtc-host/src/lib.rs:1531-1592 | So any schedule ends in the return within a bound known when the sender is dropped. |
| Sanitize.SanitizeClipboardText | crates/sh-clipboard/src/sanitize.rs:78-98 | The single pass with lookahead computes "normalise line endings, then drop forbidden characters". |
| Sanitize.SanitizeForPaste | crates/sh-clipboard/src/sanitize.rs:120-123 | Nothing comes back exactly when the input has no allowed character, CR or line separator. |
| Sanitize.NothingDangerousSurvives | crates/sh-clipboard/src/sanitize.rs:134-157 | By literal ranges: no control but tab and line feed, no bidirectional override or isolate, no tag or other invisible scalar in the result. |
| Sanitize.OrdinaryTextSurvives | crates/sh-clipboard/src/sanitize.rs:134-157 | By literal ranges: text of all other characters is left as it is. |
| Sanitize.LineEndings | crates/sh-clipboard/src/sanitize.rs:78-98 | CR LF together, and CR, LF and the two separators alone, each give one line feed. |
| Sanitize.Idempotent | crates/sh-clipboard/src/sanitize.rs:78-98 | The result has nothing forbidden, sanitizing again changes nothing, and exactly the safe texts are left as they are. |
| Sanitize.NeverGrows | crates/sh-clipboard/src/sanitize.rs:78-98 | The UTF-8 form of the result is no longer than that of the input. |
| Sanitize.SplitDoublesTheLine | crates/sh-clipboard/src/sanitize.rs:78-98 | Sanitizing the two sides of a split CR LF gives exactly one line feed too many. |
| Sanitize.DistributesExactly | crates/sh-clipboard/src/sanitize.rs:78-98 | Sanitizing distributes over concatenation if and only if no CR LF is split. |

## Left out

- Header error kinds: a header that does not decode or encode is one outcome; which error it names is not modelled.
- Floating-point rounding, NaN and infinities: GCC, SCReAM, the token bucket and the rate limiter are over the reals, so their guards against non-finite values have no counterpart.
- Duration arithmetic: saturation at the largest duration and rounding to nanoseconds are not modelled.
- GapDetection.Observe: the first packet number fixes the origin of the count, so it is taken below 65536; likewise in `ObserveAndDecide`.
- ModeSwitch.DoubleBufferedEncoder.Encode: the encoder is any first-in-first-out pipeline that may emit, buffer or refuse a frame; a refused frame keeps a pending keyframe request. Encoders that reorder frames are not covered.
- VideoStream.RunVideoSendLoop: the frame source is a finite script, so a source that yields unsendable frames for ever is not covered, and neither is the pacing between frames.
- FileTransfer.FileReceiver.Finish: SHA-256 is an arbitrary function; that it tells the file from other bytes is an assumption of `FinishIsIntegrity` alone.
- Teardown.ReturnIsClean: a panic inside the injector is not modelled.
- ButtonInjector.XTestInjector.Inject: errors of the display connection, pointer motion, wheel and keys are not modelled.
- InputAdmission.InputGuard.ForwardInput: input events arrive decoded; bytes that do not decode are ignored before this step.
- The classifier's score and its signals: the machine is proved for any scores.
- Forward error correction policy, rolling intra refresh, rate allocation, codec negotiation, backpressure selection, pacing intervals: constants, tables or straight-line code that would only add easy members.
- Raw video and audio codecs, capturers, downscaling, the OpenH264 library: copies of rows and foreign code.
- Signaling, Noise, SDP, ICE, DTLS, clipboard and display back ends, command lines, the web client, logging: input and output.
