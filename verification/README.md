# Verified models of the WebRTC stack's algorithms and protocols

A Dafny model of the parts of this WebRTC repository whose correctness does not show in
any one function body, with proofs that hold for every input, every run and every
interleaving.

- **Ogg page checksum** (`Words`, `Crc32`, `CrcAlgebra`, `OggCrc`). The table generator,
  the table form, and the two forms that run the reflected ARM CRC instructions over
  bit-reversed bytes. All are proved equal to bit-by-bit division by 0x04c11db7
  (section 6 of RFC 3533), that division is proved to be polynomial division over GF(2),
  and from there follow linearity, the exact set of undetected changes, and the detection
  of every burst of up to 32 bits with 32 as the limit.
- **Perfect negotiation** (`Signaling`, `SignalingRuns`, `Negotiation`,
  `PerfectNegotiation`, `NegotiationTraffic`). Two peers running the same handler over a
  peer connection's signalling state machine, joined by two FIFO relays. Each branch of a
  peer's event loop is one atomic step. An eleven-phase inductive invariant gives safety
  of every run (no call is refused, answers match offers), agreement when nothing is in
  flight, the fact that delivering what is in flight always ends in agreement, exactly
  when offers are made, and the whereabouts of every candidate.
- **Receiver loss counting** (`ReceiverLoss`). A per-bit walk with 16-bit wrap-around
  against masked, word-at-a-time counting with laps around a cyclic bitmap.
- **H.264 in RTP** (`AnnexB`, `H264`, `H264Packets`). Three start-code scanners that agree everywhere, the
  division of an Annex B stream into NAL units, and the payload format of RFC 6184 end to
  end: what is packetized (single units, STAP-A aggregates, FU-A fragments) and
  depacketized again comes out as exactly the units carried, and which those are; every
  packet fits the MTU and a unit's fragments are the only ones that could be.
- **Rendition switching** (`Renditions`), **playlist demultiplexing** (`Playlist`,
  `PlaylistNames`, `PlaylistMessage`) and the **lossy-path filter** (`DropFilter`): three example programs
  with whole-run invariants.
- **The clock-read gate** (`ClockGate`, `AllowList`) and the **manifest editor**
  (`Manifest`): a line scanner with a printer and parser pair, and a lossless text split
  with insert-only edits. Both read lines as Python does (`LineSplitting`).

`Wrappers`, `Sequences`, `Arithmetic` and `Text` hold what several of these share. A machine word is a
sequence of bits, most significant first. Where the source updates an object or loops,
the model is a class or a method, proved against a function on values; the lemmas are
about that function.

`dafny verify dfyconfig.toml` checks everything.

Where the code and its own description differ, the model follows the code, and a lemma
says exactly when they agree:

- `append_table` says the new table is separated by a blank line; `Manifest.SetOff` gives
  the condition, which fails when the last table is a bare header without a line end
  (`Manifest.NotSetOffInput`).
- `insert_entry` adds an entry to "the table", yet a table it had to create is not found
  the next time (`Manifest.AppendedTwice`), and an entry put after an unended line joins
  that line (`Manifest.InsertStartsLine`).
- The clock scanner skips test items, but not one that begins on its attribute's own line
  (`ClockGate.AttributeLineNeedsItsOwn`); `ClockGate.SkipsTestItems` says exactly what it
  skips and `ClockGate.ReportsExactly` what it reports of a whole file.
- The H.264 payloader says parameter sets are sent ahead of the next unit; a pair that does
  not fit one packet is dropped (`H264.SetsLost`), and `H264.NothingLost` says when
  everything is carried. The depacketizer is to return bytes or an error; it indexes past
  the end of some aggregates (`H264.CrashesExactly`).
- The H.264 payload format loses the forbidden bit of fragmented units and refuses whole
  units of one or two bytes; `H264.UnitRoundTrip` gives the exact condition.
- An allow-list line is split at colons and stripped, so not every path can be read back;
  `AllowList.EntryReadsBack` gives the exact condition.

## Model

| member | source | states |
|---|---|---|
| OggCrc.ReflectedPoly | benchmarks/simd-probes/ogg_crc.rs:10-13 | the generator 0xedb88320 wired into the ARM instructions is 0x04c11db7 read backwards |
| OggCrc.ChecksumTable | benchmarks/simd-probes/ogg_crc.rs:20-38 | every one of the 256 entries of the generated table is the remainder of its index placed at the top of the register, divided bit by bit |
| OggCrc.OggTable | benchmarks/simd-probes/ogg_crc.rs:43-48 | the byte-at-a-time table form returns the bit-by-bit checksum, from every state and for every input |
| OggCrc.OggNeonCrc | benchmarks/simd-probes/ogg_crc.rs:53-66 | the 16-byte form, remainder bytes included, returns the same checksum as the table form |
| OggCrc.OggCrcWords | benchmarks/simd-probes/ogg_crc.rs:71-82 | the 8-byte form, remainder bytes included, returns the same checksum as the table form |
| OggCrc.ChecksumIsRemainder | benchmarks/simd-probes/ogg_crc.rs:1-48 | from state zero, a word is the checksum if and only if it is the remainder of the message times x^32 by the degree-32 generator |
| OggCrc.BurstDetected | benchmarks/simd-probes/ogg_crc.rs:43-48 | two inputs of one length that differ only within four consecutive bytes never share a checksum, from any state |
| Crc32.TableStep | benchmarks/simd-probes/ogg_crc.rs:45-46 | one table look-up with an 8-bit shift does what feeding the byte's eight bits does |
| Crc32.FeedWord | benchmarks/simd-probes/ogg_crc.rs:26-33 | feeding up to 32 bits one at a time is that many division steps of the register with the bits added at its top |
| Crc32.CrcAppend | benchmarks/simd-probes/ogg_crc.rs:43-48 | the checksum of a concatenation is the checksums chained across the split, wherever it is |
| Crc32.ReflectWide | benchmarks/simd-probes/ogg_crc.rs:53-82 | a wide CRC instruction on bit-reversed bytes mirrors the unreflected checksum of those bytes, for operands of any number of bytes |
| Crc32.SwapReversed | benchmarks/simd-probes/ogg_crc.rs:75-76 | reversing all bits of a little-endian word and then its bytes reverses the bits of each byte in place |
| CrcAlgebra.CrcIsTheRemainder | benchmarks/simd-probes/ogg_crc.rs:20-48 | for any polynomial of degree 32, state and bits, the register is the one and only polynomial remainder of the dividend |
| CrcAlgebra.CrcXor | benchmarks/simd-probes/ogg_crc.rs:20-48 | the checksum is linear: that of two messages combined by XOR is the XOR of theirs |
| CrcAlgebra.Collision | benchmarks/simd-probes/ogg_crc.rs:20-48 | for a generator with a constant term, two messages of one length collide if and only if they are equal or their difference is a multiple of it |
| CrcAlgebra.BurstDetected | benchmarks/simd-probes/ogg_crc.rs:20-48 | any change confined to 32 consecutive bits changes the checksum, for any generator with a constant term |
| CrcAlgebra.BurstLimit | benchmarks/simd-probes/ogg_crc.rs:20-48 | 32 is the limit: a 33-bit change that goes unnoticed exists at every place of every message |
| ReceiverLoss.LossPerBit | benchmarks/simd-probes/receiver_loss.rs:19-31 | the loop counts the missing packets of the masked walk with 16-bit wrap-around, for a bitmap of any size |
| ReceiverLoss.MaskIsModulo | benchmarks/simd-probes/receiver_loss.rs:20-24 | masking by one less than a power of two is the remainder by it |
| ReceiverLoss.MaskedWalkIsWalk | benchmarks/simd-probes/receiver_loss.rs:19-31 | for power-of-two capacities wrapping the sequence number at 16 bits never changes which bit is looked at |
| ReceiverLoss.MaskedClear | benchmarks/simd-probes/receiver_loss.rs:35-43 | the shifted mask counts exactly the clear bits of its stretch of the word |
| ReceiverLoss.CountLinear | benchmarks/simd-probes/receiver_loss.rs:34-54 | head, whole words and tail together count the clear bits of the stretch, each once, with every shift and slice in range |
| ReceiverLoss.LossByWord | benchmarks/simd-probes/receiver_loss.rs:58-71 | counting by words around the bitmap, laps included, terminates and counts what the cyclic walk counts |
| ReceiverLoss.Laps | benchmarks/simd-probes/receiver_loss.rs:58-71 | a range longer than the bitmap counts every clear bit once per lap and then the rest, from any start |
| ReceiverLoss.CountsMatch | benchmarks/simd-probes/receiver_loss.rs:74-100 | for every bitmap of power-of-two capacity up to 32768, every start and every count, the two ways of counting agree |
| Negotiation.Handler.constructor | examples/perfect-negotiation/perfect-negotiation.rs:119-127 | a new handler is stable, makes no offer and ignores none |
| Negotiation.Handler.HandleRemoteDescriptionWithResponse | examples/perfect-negotiation/perfect-negotiation.rs:137-215 | the in-place handler does the collision test, ignoring, rollback, tracking and answering of the value-level step, errors included |
| Negotiation.Handler.UndoOwnOffer | examples/perfect-negotiation/perfect-negotiation.rs:163-176 | a polite peer's rollback, or its refusal by the connection |
| Negotiation.Handler.AcceptDescription | examples/perfect-negotiation/perfect-negotiation.rs:178-214 | the description is applied, the tracked state follows its kind, and an offer is answered |
| Negotiation.Handler.AnswerIfOffered | examples/perfect-negotiation/perfect-negotiation.rs:202-214 | an answer is made and applied exactly when the tracked state says a remote offer is waiting |
| Negotiation.Handler.HandleRemoteCandidate | examples/perfect-negotiation/perfect-negotiation.rs:220-231 | candidates are dropped while ignoring and handed to the connection otherwise |
| Negotiation.Handler.DrainEvents | examples/perfect-negotiation/perfect-negotiation.rs:479-537 | polling until no event is left applies every queued event in order; what that comes to is `PerfectNegotiation.DrainLaw` and `PerfectNegotiation.DrainedCandidates` |
| Negotiation.Handler.HandlePendingNegotiation | examples/perfect-negotiation/perfect-negotiation.rs:540-574 | the in-place step offers, forgets or ends the task as the value-level one does; when it offers is `PerfectNegotiation.OfferLaw` |
| PerfectNegotiation.DrainLaw | examples/perfect-negotiation/perfect-negotiation.rs:479-537 | after a drain the tracked state is the last one reported, and a negotiation is pending if it was or if one was reported needed |
| PerfectNegotiation.DrainedCandidates | examples/perfect-negotiation/perfect-negotiation.rs:485-496 | a drain sends one candidate for each candidate event and nothing else |
| PerfectNegotiation.OfferLaw | examples/perfect-negotiation/perfect-negotiation.rs:540-574 | a drained peer makes an offer if and only if one is pending and it is stable; the offer is never refused and pending afterwards, the request is used up, and the session is left alone |
| PerfectNegotiation.AcceptLaw | examples/perfect-negotiation/perfect-negotiation.rs:148-212 | an offer reaching a stable or polite peer is answered with an answer to that offer, after undoing an own offer if need be, and the peer ends stable in the new session |
| PerfectNegotiation.CompleteLaw | examples/perfect-negotiation/perfect-negotiation.rs:178-200 | an answer reaching a peer with an offer out is accepted and completes that offer's session |
| SignalingRuns.StateFitsSlots | src/peer_connection/internal.rs:457-655 | after any sequence of calls, refused ones included, the state says exactly which descriptions are pending and the session is one offer with one answer |
| SignalingRuns.AcceptedExactly | src/peer_connection/state/signaling_state.rs:308-412 | after any calls, a description is accepted if and only if what is pending calls for it and, if local, it is the text generated last |
| SignalingRuns.Filed | src/peer_connection/internal.rs:457-655 | both sides file a description alike: an answer makes a session of itself and what was pending opposite, a rollback takes back its side's, anything else becomes pending; the new state is reported, and a need to negotiate if it is stable |
| SignalingRuns.AnswerableExactly | src/peer_connection/mod.rs:966-1010 | after any calls an answer can be made if and only if a remote offer is pending, and it answers that offer |
| SignalingRuns.ClosedRefuses | src/peer_connection/state/signaling_state.rs:308-412 | a closed connection accepts no description |
| SignalingRuns.AnswerAccepted | src/peer_connection/mod.rs:1131-1180 | an answer just made is accepted, and an empty text stands for it |
| SignalingRuns.OfferAccepted | src/peer_connection/mod.rs:1131-1180 | an offer just made is accepted if and only if nothing remote is pending, and an empty text stands for it |
| SignalingRuns.RollbackRestores | src/peer_connection/internal.rs:457-655 | rolling back an offer taken in the stable state is accepted and restores every slot, whichever side it came from |
| PerfectNegotiation.QueueLaw | src/peer_connection/internal.rs:457-655 | every accepted description leaves the event queue ending on the connection's own state |
| PerfectNegotiation.EveryRun | examples/perfect-negotiation/perfect-negotiation.rs:472-711 | every interleaving of every length stays within eleven phases that fix what is in flight, pending, negotiated and answered |
| PerfectNegotiation.NeverOutOfOrder | examples/perfect-negotiation/perfect-negotiation.rs:137-215 | in every run no call a handler makes is refused by its connection, and between steps the tracked state is the connection's |
| PerfectNegotiation.LegalCalls | examples/perfect-negotiation/perfect-negotiation.rs:137-215 | in every run a local offer is made in the stable state only, a remote answer read in have-local-offer only, a rollback made there only and to the stable state, and a remote offer applied in the stable state only |
| PerfectNegotiation.InFlightBounds | examples/perfect-negotiation/perfect-negotiation.rs:340-341 | never more than three descriptions head to the impolite peer, nor more than two to the polite one |
| PerfectNegotiation.AnswersMatch | examples/perfect-negotiation/perfect-negotiation.rs:202-212 | every answer in flight answers the one offer its receiver has outstanding |
| PerfectNegotiation.AnsweredInOrder | examples/perfect-negotiation/perfect-negotiation.rs:148-212 | the polite peer answers the impolite offers once each and in order, never more than one behind |
| PerfectNegotiation.PoliteOffersDecided | examples/perfect-negotiation/perfect-negotiation.rs:148-212 | every polite offer but possibly the last was either answered once by the impolite peer or undone once by the polite one, never both; the last at most one of these |
| PerfectNegotiation.Quiescence | examples/perfect-negotiation/perfect-negotiation.rs:148-215 | with no description in flight both peers are stable, hold mirror images of one session, and ignored and rolled-back offers are the same list |
| PerfectNegotiation.DeliveriesSettle | examples/perfect-negotiation/perfect-negotiation.rs:680-711 | from any run, finitely many deliveries and nothing else empty both channels and leave the peers agreed |
| PerfectNegotiation.DeliveryLightens | examples/perfect-negotiation/perfect-negotiation.rs:680-711 | every delivery, responses included, lowers the weight of what is in flight, so no chain of replies goes on for ever |
| PerfectNegotiation.CandidatesNeedDescription | examples/perfect-negotiation/perfect-negotiation.rs:220-231 | a connection holding a remote candidate has accepted a remote description |
| PerfectNegotiation.IgnoringLasts | examples/perfect-negotiation/perfect-negotiation.rs:152-231 | from a colliding offer at the impolite peer until the next description handed to it, through any steps of either peer, no candidate reaches its connection |
| NegotiationTraffic.WakingOffers | examples/perfect-negotiation/perfect-negotiation.rs:479-574 | in every run a peer that wakes up sends its candidates and then its next offer, which is then pending, if and only if it is stable and something is to be negotiated; either way the request is used up |
| NegotiationTraffic.QuietStart | examples/perfect-negotiation/perfect-negotiation.rs:119-127 | a new peer ignores nothing and sends nothing until it is asked to |
| NegotiationTraffic.RequestIsOffered | examples/perfect-negotiation/perfect-negotiation.rs:540-633 | from any run, asking a stable peer to renegotiate or giving it a data channel makes its next waking up end with an offer |
| NegotiationTraffic.CandidateReaches | examples/perfect-negotiation/perfect-negotiation.rs:220-231 | a candidate read while no offer is being ignored reaches the connection |
| NegotiationTraffic.CandidatesAccounted | examples/perfect-negotiation/perfect-negotiation.rs:220-492 | in every run and each way, candidates raised are those drained and those still queued, and candidates drained are those in flight, taken by the other peer and discarded by it |
| NegotiationTraffic.PoliteTakesAll | examples/perfect-negotiation/perfect-negotiation.rs:152-231 | in every run the polite peer has discarded no candidate |
| AnnexB.Scalar | benchmarks/simd-probes/annexb_scan.rs:17-30 | the forward scan with its zero counter returns the reference answer for every start up to the length |
| AnnexB.ByteSearch | benchmarks/simd-probes/annexb_scan.rs:33-46 | searching for a one and walking back returns the same answer |
| AnnexB.SubstringSearch | benchmarks/simd-probes/annexb_scan.rs:49-59 | searching for 00 00 01 and walking back returns the same answer |
| AnnexB.NextIndFinds | rtc-rtp/src/codec/h264/mod.rs:78-88 | the answer is the first 00 00 01 at or after the start with all zeros before it down to the start, or (-1, -1) when there is none |
| AnnexB.FindsUnique | benchmarks/simd-probes/annexb_scan.rs:17-59 | only one answer fits that description |
| AnnexB.SplitJoin | rtc-rtp/src/codec/h264/mod.rs:204-234 | units written behind start codes and split again come back if and only if none contains a start code and none but the last ends in a zero |
| AnnexB.UnitsCover | rtc-rtp/src/codec/h264/mod.rs:204-234 | nothing but start codes lies between the units of a stream |
| H264.Payloader.Fragment | rtc-rtp/src/codec/h264/mod.rs:128-194 | the fragmenting loop produces the fragments that `H264Packets.FragmentShape` describes, and none when the size leaves no room |
| H264.Payloader.EmitUnit | rtc-rtp/src/codec/h264/mod.rs:90-195 | parameter sets are held, released together ahead of the next unit, and forgotten when they do not fit |
| H264.Payloader.Payload | rtc-rtp/src/codec/h264/mod.rs:204-234 | the payloading loop emits exactly the stream's units, in order |
| H264.Depacketizer.TakeApart | rtc-rtp/src/codec/h264/mod.rs:278-302 | the aggregate loop returns the framed units, the error of the first length that is too long, or stops the program where the source indexes past the end |
| H264.Depacketizer.Packet | rtc-rtp/src/codec/h264/mod.rs:251-338 | one packet moves the fragment buffer and returns bytes, an error or a crash as the value-level step says |
| H264.UnstapOutcome | rtc-rtp/src/codec/h264/mod.rs:278-302 | taking an aggregate apart gives bytes if and only if it is whole length-prefixed units, and crashes if and only if they are followed by exactly one byte |
| H264.CrashesExactly | rtc-rtp/src/codec/h264/mod.rs:251-338 | a packet stops the program if and only if it is an aggregate of whole units followed by one byte |
| H264.CrashInput | rtc-rtp/src/codec/h264/mod.rs:280-282 | the four bytes 24, 0, 0, 5 are such a packet |
| H264.FragmentsReassemble | rtc-rtp/src/codec/h264/mod.rs:134-335 | the fragments of a unit rebuild it at the last one and leave the buffer empty, for every size that can fragment |
| H264.UnstapBoth | rtc-rtp/src/codec/h264/mod.rs:109-303 | an aggregate of two parameter sets is taken apart into those two |
| H264.UnitRoundTrip | rtc-rtp/src/codec/h264/mod.rs:90-338 | one unit sent on its own comes back as it was if and only if either it fits whole, is longer than two bytes and has a type from 1 to 23, or it does not fit, fragments have room for data and its forbidden bit is clear |
| H264.CodedArrive | rtc-rtp/src/codec/h264/mod.rs:90-195 | every coded unit there is room for is carried, in order and once; with room for fragments that is all of them |
| H264.SetsReach | rtc-rtp/src/codec/h264/mod.rs:96-125 | ahead of a coded unit go the last SPS and the last PPS before it, if and only if both are there and together fit a packet; a pair is then forgotten either way, half a pair waits |
| H264.SetsWait | rtc-rtp/src/codec/h264/mod.rs:101-106 | parameter sets with no coded unit behind them are not sent |
| H264.SetsLost | rtc-rtp/src/codec/h264/mod.rs:107-125 | a pair too long for one packet is lost though either set alone would fit |
| H264.NothingLost | rtc-rtp/src/codec/h264/mod.rs:90-195 | what is carried is all that is meant to be, in order, if and only if every coded unit has room and every parameter set stands in an SPS and PPS pair that fits, right before a coded unit |
| H264.EndToEnd | rtc-rtp/src/codec/h264/mod.rs:90-338 | any sequence of sendable units gives, at the far side, exactly the framed units carried, fragmented ones with the forbidden bit cleared, with no error and no fragment left over |
| H264.ArrivedUnchanged | rtc-rtp/src/codec/h264/mod.rs:134-335 | units arrive as they were if and only if no fragmented one has its forbidden bit set |
| H264.UnreadableUnit | rtc-rtp/src/codec/h264/mod.rs:251-338 | a coded unit sent whole that is too short, or of a type the far side does not take, spoils the train it is in |
| H264.StreamArrives | rtc-rtp/src/codec/h264/mod.rs:204-338 | an Annex B stream of sendable units comes out as the Annex B stream of what arrives of the units carried, which are all but the dropped ones when they are grouped |
| H264Packets.PacketsFit | rtc-rtp/src/codec/h264/mod.rs:90-195 | whatever units are payloaded, no packet is longer than the MTU |
| H264Packets.AggregateShape | rtc-rtp/src/codec/h264/mod.rs:107-125 | held parameter sets that fit go out in front of the next coded unit as one packet: header 0x78, then each set after its length |
| H264Packets.FragmentShape | rtc-rtp/src/codec/h264/mod.rs:134-193 | a unit too long is cut into two fragments or more, all exactly as long as the MTU but the last, which carries at least a byte; start bit on the first only, end bit on the last only, importance and type kept, and the bodies joined are the unit without its header byte |
| H264Packets.FragmentsUnique | rtc-rtp/src/codec/h264/mod.rs:134-193 | no other packets answer that description |
| H264Packets.RefusedExactly | rtc-rtp/src/codec/h264/mod.rs:251-338 | a packet is an error if and only if it is too short, of a type not taken, or an aggregate that breaks off inside a unit |
| H264Packets.FragmentsWait | rtc-rtp/src/codec/h264/mod.rs:267-303 | a packet that is not a fragment comes out the same whatever fragments are held, and leaves them held |
| H264Packets.FragmentsJoin | rtc-rtp/src/codec/h264/mod.rs:304-335 | any train of fragments, whatever its start bits and whatever is already held, comes out as one unit at the first end bit, bodies in order |
| H264Packets.LengthsReadBack | rtc-rtp/src/codec/h264/mod.rs:269-329 | with length prefixes instead of start codes, a reader recovers every unit of less than 4 GiB, whatever bytes it holds |
| DropFilter.Interceptor.HandleWritePacket | examples/play-from-disk-fec/play-from-disk-fec.rs:192-221 | one write counts, drops or queues as the value-level filter does |
| DropFilter.Interceptor.PollWritePacket | examples/play-from-disk-fec/play-from-disk-fec.rs:223-225 | polling takes the oldest queued packet |
| DropFilter.Interceptor.BindLocalStream | examples/play-from-disk-fec/play-from-disk-fec.rs:237-243 | binding remembers a repair SSRC |
| DropFilter.Interceptor.UnbindLocalStream | examples/play-from-disk-fec/play-from-disk-fec.rs:245-249 | unbinding forgets every copy of it |
| DropFilter.RepairLaw | examples/play-from-disk-fec/play-from-disk-fec.rs:237-249 | after any calls an SSRC counts as repair if and only if it was bound and not unbound since |
| DropFilter.CounterLaw | examples/play-from-disk-fec/play-from-disk-fec.rs:192-221 | the counters are the media packets written, the repair packets written, and the drops among the media |
| DropFilter.NothingElseLost | examples/play-from-disk-fec/play-from-disk-fec.rs:192-225 | packets polled followed by packets queued are exactly the packets not dropped, in the order written |
| DropFilter.DropRate | examples/play-from-disk-fec/play-from-disk-fec.rs:192-221 | drops are the media packets divided by the setting, rounded down, and none when it is zero |
| DropFilter.OneInEvery | examples/play-from-disk-fec/play-from-disk-fec.rs:192-221 | among any group of consecutive media packets of the set size exactly one is dropped, wherever the group starts |
| Renditions.SwitchQualityLevel | examples/bandwidth-estimation-from-disk/bandwidth-estimation-from-disk.rs:664-684 | the reading loop stops at the first keyframe not older than the timestamp, or at the end |
| Renditions.FindEntryLaw | examples/bandwidth-estimation-from-disk/bandwidth-estimation-from-disk.rs:664-684 | what it stops at is such a keyframe, none before it is, and at the end there is none |
| Renditions.KeyframeBit | examples/bandwidth-estimation-from-disk/bandwidth-estimation-from-disk.rs:533-541 | a frame is a keyframe if and only if the low bit of its first byte is clear |
| Renditions.StreamVideo | examples/bandwidth-estimation-from-disk/bandwidth-estimation-from-disk.rs:587-648 | the streaming loop does, tick by tick, what the run function says |
| Renditions.EveryFrameFits | examples/bandwidth-estimation-from-disk/bandwidth-estimation-from-disk.rs:587-648 | every tick, told from the log and the estimate alone: at a switch the new file's first keyframe not older than the last frame sent, or a restart if there is none; otherwise the successor of the frame just sent, the first frame after a restart, or a restart at the end of the file |
| Renditions.EveryFrameDecodable | examples/bandwidth-estimation-from-disk/bandwidth-estimation-from-disk.rs:587-648 | every frame sent is reached from a place to start decoding by frames sent without a gap |
| Renditions.TimeNeverGoesBack | examples/bandwidth-estimation-from-disk/bandwidth-estimation-from-disk.rs:587-684 | of any two frames with no restart between them the later is not older, across switches too, when each file is in time order |
| Renditions.NoOscillation | examples/bandwidth-estimation-from-disk/bandwidth-estimation-from-disk.rs:592-607 | on an increasing ladder a move is never followed by the opposite one for the same estimate |
| Renditions.PlayOneWay | examples/bandwidth-estimation-from-disk/bandwidth-estimation-from-disk.rs:592-625 | while the estimate stays the same the rendition being streamed moves a step at a time in one direction, from wherever the run had come to |
| Renditions.PlaySettles | examples/bandwidth-estimation-from-disk/bandwidth-estimation-from-disk.rs:592-625 | once an estimate has lasted one tick fewer than there are levels, the run is at a level where neither rule fires |
| Renditions.RestIsUnique | examples/bandwidth-estimation-from-disk/bandwidth-estimation-from-disk.rs:78-82 | where it rests depends on the start only when the estimate is exactly a bitrate of the ladder |
| Playlist.ParsePlaylist | examples/play-from-disk-playlist-control/play-from-disk-playlist-control.rs:218-329 | the single pass over interleaved pages returns the tracks each stream would make on its own, or an error; what is in them is `Playlist.TrackHolds` and `PlaylistNames.PlaylistNamed` |
| Playlist.AddToTracks | examples/play-from-disk-playlist-control/play-from-disk-playlist-control.rs:243-311 | one page updates its own stream's track and last position and leaves the others alone |
| Playlist.OrderTracks | examples/play-from-disk-playlist-control/play-from-disk-playlist-control.rs:314-328 | the tracks with pages come out named and in order of first page |
| Playlist.TrackHolds | examples/play-from-disk-playlist-control/play-from-disk-playlist-control.rs:253-311 | a track holds exactly its stream's audio pages in order, each lasting what the latest parsed header makes of its position and the previous audio page's, and runs for the sum |
| Playlist.AudioLaw | examples/play-from-disk-playlist-control/play-from-disk-playlist-control.rs:253-296 | the audio pages are exactly the data pages after the first header that parsed, in file order |
| Playlist.CollectLaw | examples/play-from-disk-playlist-control/play-from-disk-playlist-control.rs:314-328 | one track per listed stream with audio, page-less ones omitted, numbered when it has no title |
| Playlist.TracksInOrder | examples/play-from-disk-playlist-control/play-from-disk-playlist-control.rs:243-328 | of two tracks of the playlist, some page of the first one's stream stands before every page of the other's |
| Playlist.SerialsLaw | examples/play-from-disk-playlist-control/play-from-disk-playlist-control.rs:243-249 | every stream in the file is listed, once |
| Playlist.SerialsOrder | examples/play-from-disk-playlist-control/play-from-disk-playlist-control.rs:243-249 | streams are listed in the order of their first pages |
| Playlist.InterleavingIsInvisible | examples/play-from-disk-playlist-control/play-from-disk-playlist-control.rs:218-329 | two files with the same streams, first pages in the same order, make the same playlist however the rest is interleaved |
| PlaylistNames.TrackNamed | examples/play-from-disk-playlist-control/play-from-disk-playlist-control.rs:265-286 | a track's title is the value of the last comment of its stream with that key in any case, over all tag pages that parsed, or made from its serial when there is none; the artist likewise, or empty; the vendor is the first one named, and the tags are the last ones parsed |
| PlaylistNames.PlaylistNamed | examples/play-from-disk-playlist-control/play-from-disk-playlist-control.rs:265-328 | a track of the playlist has its stream's title, artist, vendor and tags, except that an empty title or one that starts with "serial-" is replaced by the track's number in the playlist, from one |
| PlaylistMessage.BuildPlaylistMessage | examples/play-from-disk-playlist-control/play-from-disk-playlist-control.rs:893-917 | the appended text is the records of the playlist, one line each |
| PlaylistMessage.CleanLaw | examples/play-from-disk-playlist-control/play-from-disk-playlist-control.rs:962-964 | cleaned text has a space for each newline, a slash for each bar and every other character in its place |
| PlaylistMessage.MessageReadsBack | examples/play-from-disk-playlist-control/play-from-disk-playlist-control.rs:893-964 | splitting at newlines and bars recovers every record field by field, whatever the titles, artists and tags are |
| PlaylistMessage.HeaderReadsBack | examples/play-from-disk-playlist-control/play-from-disk-playlist-control.rs:893-898 | a client finds the message's name and the index played in the first record, and one more record per track and for what is playing |
| PlaylistMessage.TrackRecordReadsBack | examples/play-from-disk-playlist-control/play-from-disk-playlist-control.rs:893-917 | a client finds one six-field "track" record per track, giving back its index, serial and run time and its cleaned title and artist |
| PlaylistMessage.MillisLaw | examples/play-from-disk-playlist-control/play-from-disk-playlist-control.rs:904 | run times are given in whole milliseconds, the rest dropped |
| PlaylistMessage.NowRecordReadsBack | examples/play-from-disk-playlist-control/play-from-disk-playlist-control.rs:911-994 | a playlist with tracks ends in one ten-field "now" record of the track nearest to the index asked for: its numbers, two channels at 48000 when no header parsed, cleaned texts and comments |
| PlaylistMessage.CommentsReadBack | examples/play-from-disk-playlist-control/play-from-disk-playlist-control.rs:927-938 | comments without commas are all read back from the last field of that record, in order |
| PlaylistMessage.CommentReadsBack | examples/play-from-disk-playlist-control/play-from-disk-playlist-control.rs:927-938 | each is cut at its first equals sign into its cleaned key and value |
| ClockGate.ClockReads | scripts/check-sans-io-deterministic-time.py:90-133 | the loop reports the line numbers of the scanner function |
| ClockGate.InsertedItem | scripts/check-sans-io-deterministic-time.py:96-133 | inserting a test item where the scanner is neutral only shifts the line numbers reported after it |
| ClockGate.ItemSkips | scripts/check-sans-io-deterministic-time.py:100-126 | a test item reports nothing and leaves the scanner neutral |
| ClockGate.SkipsTestItems | scripts/check-sans-io-deterministic-time.py:100-126 | after a test attribute the scanner returns to neutral at the end of some lines, and not before, if and only if they form a test item |
| ClockGate.AttributeLineNeedsItsOwn | scripts/check-sans-io-deterministic-time.py:121-126 | an item that begins on its attribute's line, block or declaration, hides the next line's clock read |
| ClockGate.ReportsExactly | scripts/check-sans-io-deterministic-time.py:90-133 | every file divides in one way only into code lines, test items and perhaps an unfinished one, and the reports are exactly the code lines of that division that read a clock and are not comments |
| ClockGate.ReadsAppend | scripts/check-sans-io-deterministic-time.py:96-133 | a file may be scanned in pieces, passing the mode on |
| AllowList.LoadAllowlist | scripts/check-sans-io-deterministic-time.py:144-158 | a missing file allows nothing; otherwise its lines are loaded in order |
| AllowList.LastLineWins | scripts/check-sans-io-deterministic-time.py:149-158 | a file is an error if and only if some line is malformed; otherwise it allows a path if and only if some line does, and the last one that does says how much |
| AllowList.ParseLineLaw | scripts/check-sans-io-deterministic-time.py:150-157 | a stripped line that is empty or a comment says nothing; any other is cut at its colons and needs a path and a number, which are stripped too |
| AllowList.StripCuts | scripts/check-sans-io-deterministic-time.py:150-157 | stripping takes off the white space at both ends, all of it, and nothing else |
| AllowList.IntLaw | scripts/check-sans-io-deterministic-time.py:157 | numbers are read with either sign in front or none |
| AllowList.UnderscoreLaw | scripts/check-sans-io-deterministic-time.py:157 | a single underscore between digits changes nothing, and spoils the number at its ends or doubled |
| AllowList.WriteSnapshot | scripts/check-sans-io-deterministic-time.py:211-246 | the file written is the three sections in order, every entry in the one its budget calls for |
| AllowList.WrittenUnder | scripts/check-sans-io-deterministic-time.py:211-246 | every entry is written: awaiting injection if its path has no permanent budget, with its reason if the budget is the whole count, and otherwise with both parts |
| AllowList.MixedAddsUp | scripts/check-sans-io-deterministic-time.py:218-224 | the two parts given for a mixed entry read back as the budget and the rest of the count |
| AllowList.LinesReadBack | scripts/check-sans-io-deterministic-time.py:144-158 | lines without line ends come back from the text they are written to |
| AllowList.EntryReadsBack | scripts/check-sans-io-deterministic-time.py:144-246 | an entry's line is read back as its path and count if and only if the path is free of colons, does not start a comment and has no blanks around it |
| AllowList.SnapshotReadsBack | scripts/check-sans-io-deterministic-time.py:144-246 | loading a snapshot just written gives back exactly its counts if and only if every path is free of colons and line ends, does not start a comment and has no blanks around it |
| AllowList.LoadedWritable | scripts/check-sans-io-deterministic-time.py:144-158 | no file whatever loads to a path outside those |
| AllowList.Compare | scripts/check-sans-io-deterministic-time.py:276-316 | the gate passes if and only if every path's count is its allowed count, absent meaning zero; what it reports as new is found above its budget, and as stale found below it or budgeted and not found |
| AllowList.SnapshotPasses | scripts/check-sans-io-deterministic-time.py:211-316 | right after a snapshot the gate's counts balance if and only if every path can be carried |
| Manifest.SplitTablesLoop | scripts/bench.py:441-451 | the in-place loop returns the tables that `Manifest.SplitTablesShape` describes |
| Manifest.SplitTablesShape | scripts/bench.py:441-451 | the tables of a text hold its lines, once and in order; every table but the first starts at a header line, and no body holds one |
| LineSplitting.CutAtLineEnds | scripts/bench.py:446 | the lines joined are the text; none is empty, each but the last ends in a line end, none has a line end before its own, and CR LF is never cut |
| LineSplitting.OneWayToCut | scripts/bench.py:446 | no other lines that make the text have these properties |
| LineSplitting.LinesAreChopped | scripts/check-sans-io-deterministic-time.py:149 | without line ends the lines are the same ones, each with its line end taken off |
| Manifest.JoinSplit | scripts/bench.py:441-455 | joining the split tables gives every text back exactly |
| Manifest.TableEntries | scripts/bench.py:466-484 | the loop over a body finds the entries of the search function |
| Manifest.SpansLaw | scripts/bench.py:466-484 | entry spans are in range, ordered and disjoint, start at a line with their key, and every line with a key belongs to one |
| Manifest.EntriesClose | scripts/bench.py:466-484 | an entry ends on the line its brackets close on and no sooner, or at the end of the body |
| Manifest.DepthLaw | scripts/bench.py:479-483 | the bracket depth is the largest surplus of opening brackets over any number of last lines, so closing brackets with none open count for nothing |
| Manifest.InsertIsInsertOnly | scripts/bench.py:498-505 | adding to an existing table puts the text in at one place and changes nothing else |
| Manifest.InsertStartsLine | scripts/bench.py:498-505 | the added text starts a line of its own if and only if the last non-empty header or line before it is ended, or there is none |
| Manifest.AppendIsAppendOnly | scripts/bench.py:508-518 | appending a table leaves all text before it in place |
| Manifest.InsertKeepsText | scripts/bench.py:498-518 | inserting an entry, whether its table exists or not, is a single insertion: deleting it restores the text |
| Manifest.SetOff | scripts/bench.py:508-518 | the appended table is set off by a blank line if and only if the text before it is empty or its last line is ended or gets ended |
| Manifest.NotSetOff | scripts/bench.py:508-518 | a manifest that is one header without a line end gets no blank line before the appended table |
| Manifest.NotSetOffInput | scripts/bench.py:508-518 | appending to the text `[x]` gives two headers on adjacent lines |
| Manifest.AppendedTwice | scripts/bench.py:458-518 | two insertions make two tables if and only if the section has a name and the manifest lacks it |
| Manifest.AppendedTwiceInput | scripts/bench.py:458-518 | two insertions into `s` in an empty manifest write `[s]` twice |
| Manifest.Editor.Append | scripts/bench.py:508-518 | the in-place append trims, ends lines and adds as the value-level one does |
| Manifest.Editor.Insert | scripts/bench.py:498-505 | the in-place insertion changes the first table of that name or appends one |

## Left out

- H264.EndToEnd: states what arrives when all units are sendable. For one unit the condition is exact (`H264.UnitRoundTrip`) and unreadable units spoil any train (`H264.UnreadableUnit`); left out are trains with a whole unit of a type RFC 6184 keeps for aggregates or fragments, or with a parameter set too long for its length field.
- Playlist.ParsePlaylist: how long a page lasts, and lower-casing of tag names, are parameters; the floating-point duration is not modelled.
- AllowList.LoadAllowlist: `int` reads ASCII digits, signs and underscores; decimal digits of other scripts are not modelled.
- AllowList.SnapshotReadsBack: the comment blocks and the table of permanent reads are parameters, required to be what the script's are (comments or blanks, one-line reasons).
- ClockGate.ClockReads: reports line numbers; the text of the line, carried along for display, is left out.
- Renditions.StreamVideo: bitrates are reals, so estimates that are not numbers are not modelled; pacing and timers are left out.
- DropFilter.CounterLaw: the counters do not overflow.
- The ARM CRC and bit-reversal instructions, `memchr` and `memmem` are foreign code, given by their definitions.
- Session descriptions are texts that remember their author and what they answer, and are numbered so that no two are the same; transceivers, ICE, DTLS and SCTP inside the peer connection are not modelled, and whether it finds negotiation needed is an arbitrary choice at each step.
- Descriptions injected through the browser socket, the capacity of the relay channels, and a peer whose task ends for another reason are left out: the model is two parties over FIFO channels.
- Regular expressions are predicates on lines: the clock gate is given what they say of each line, the manifest editor a grammar.
- The filter's read queue, its report, and the pass-through interceptors.
- IVF and Ogg readers are sequences of frames and pages; sockets, HTTP, tasks, logging and command lines are left out everywhere.
- The remaining examples, crates and scripts, and the timing drivers of the probes: plumbing, or properties settled by one branch.
