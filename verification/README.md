# Verification of the camera stream pipeline

A Dafny model of the path a camera's video and command messages take through the server, with proofs of
what it promises:

1. **Receiving video** (`SequenceNumbers`, `ReorderQueue`, `QueueEffects`, `VideoRefinement`, `RefinementLimits`,
   `FrameReassembly`, `ReassemblyMeaning`, `FrameIntegrity`). Packets carry 16-bit wrapping numbers and may be reordered, duplicated or lost. The
   reorder queue is shown to simulate a receiver over unbounded packet indices, whose history is a list of
   contiguous runs, with the exact conditions under which it does; the reassembler behind it emits exactly the sent frames that lie inside one run. `QueueEffects` and
   `ReassemblyMeaning` say what both do on any packets and in any state, with no hypothesis.
2. **Receiving commands** (`PartOrder`, `CommandParser`, `ParserEffects`, `CommandRoundTrip`, `CommandDelivery`). Messages framed
   by "XZYH" headers survive any division into packets, and their parts any outcome of the part sort.
3. **The client as it is written** (`P2PClient`, `Reordering`, `Reception`). A class with the client's fields, whose
   methods update them in place; each is proved against the functions the theorems are about. `Reordering` gives
   conditions on the arrivals alone under which nothing is lost, and `Reception` feeds new objects whole streams.
4. **A stream session** (`VideoHeader`, `KeyframeScan`, `FrameWindow`, `Timestamps`, `StreamSessions`). The
   bounded frame window, its IDs, the cached keyframe index, the keyframe scan and the rebasing of timestamps
   in wrapping 64-bit arithmetic.
5. **Serving** (`Serving`, `ViewerTimeline`, `StreamServer`, `Broadcast`, `RawFraming`, `RawBroadcast`). What a viewer is
   sent over every interleaving of frames, clears, session replacements and polls, on values and then on
   session, viewer and page objects; the raw endpoint's framing and the page's parse loop.
6. **Shutting down** (`Watchers`, `StreamRegistry`, `Supervision`). The protocol that stops a session after its last
   consumer has left, what it guarantees and exactly when it falls short, and the two objects that carry it.
7. **Payloads** (`TrimJson`, `Padding`). Recovering JSON from behind block padding, and ECB over an abstract
   block cipher.

The main theorems are `FrameIntegrity.FrameIntegrity`, `CommandDelivery.CommandsDelivered`,
`Serving.DecodableServing`, `Serving.MuxerTimelineRises`, `Watchers.StopsOnlyTheBoundSession`, `Watchers.NoLeak`,
`RawFraming.RoundTrip` and `Padding.JsonThroughPadding`. `Reception.ReceiveStream`, `Reception.ReceiveCommands`,
`Broadcast.ServeViewer` and `RawBroadcast.ServeRawViewer` carry them over to the objects, from conditions a reader can
check on the inputs. `RefinementLimits.StepRefinesExactly`, `Watchers.StopHitsExactly`,
`Watchers.GraceCutShortExactly`, `Watchers.OrphanedExactly` and `Padding.UnpadAfterPad` say exactly when the code does
not do what it promises.

## Where the code differs from what it says

- The sequence comparison shifts by 65535, not by the 65536 of the number space (`pkg/p2p/client.go:1012-1021`),
  while the increment uses all 65536 numbers. It therefore takes packet 65535 for one that comes after packet 0.
  `IsSeqBeforeVersusRfc1982` and `WindowOrder` say on which pairs it is right. For packets within half the number
  space, a step goes wrong exactly on two occasions (`StepRefinesExactly`; for commands, on the first alone,
  `CommandStepRefinesExactly`):
  - A copy of packet 65535 arrives while 0 is awaited. It is queued and delivered as new one round later
    (`StaleDuplicateIsReplayed`), or, past the resync threshold, delivered again at once
    (`StaleDuplicateIsDeliveredAtOnce`).
  - A video resync finds 65535 as the nearest number with 0 waiting behind it. What it delivers then depends on
    the map's iteration order (`ScanDeterminism`, `ResyncDependsOnOrder`).
- The message parser can slice out of range: exactly when more bytes have been read than the installed header
  declares and the next bytes do not open with the magic word (`PanicsExactly`). An unfinished message followed by
  the header of a shorter one with at most 16 bytes behind it leads there (`UnfinishedThenShort`); the messages of
  the round trip never do.
- A message that is abandoned when the next header arrives leaves its parts behind, and they are joined into the
  next message (`AbandonedSpoilsNext`). The body handed on is the one sent exactly when no part of another packet
  was left behind (`IntactExactly`).
- The unpadding strips a pad only if it completes the padded data to whole blocks
  (`pkg/crypto/aes.go:99-106`), so from block-aligned data only a full 16-byte pad; it undoes the padding exactly
  for data that already filled its blocks (`UnpadAfterPad`). The trimming of JSON makes up for that
  (`JsonThroughPadding`). On fewer than eight bytes it can index before the start of the data
  (`UnpadFailsExactly`); this cannot occur in the program, whose only call passes whole blocks
  (`pkg/crypto/aes.go:37-52`).
- The comments speak of zero-padded command payloads (`pkg/crypto/aes.go:136-137`, `pkg/p2p/packet.go:254-255`);
  the code pads with the number of padding bytes.
- A consumer that arrives around the recount is promised that its stream is not killed
  (`pkg/web/handler.go:92-96`). A stop hits a joined consumer bound to the session if and only if one arrived
  between the recount and the stop, came bound to it or bound to it, and has not left (`StopHitsExactly`).
- A departure is promised the full grace period (`pkg/web/handler.go:41-44`). Without an arrival, another timer
  can decide while the departure's own is pending if and only if, at the departure, an older timer is pending or
  has its callback on the way (`GraceCutShortExactly`).
- After the grace period of the last departure the session is meant to be stopped. Left alone from a moment
  when nobody is joined, it is gone once every timer has run its course if and only if, at that moment, some timer
  still due had an owner bound to it (`OrphanedExactly`).

## Model

| member | source | states |
|---|---|---|
| SequenceNumbers.IsSeqBeforeVersusRfc1982 | pkg/p2p/client.go:1012-1021 | on every pair for which section 3.2 of RFC 1982 defines an order the comparison agrees with it if and only if the pair is not (65535, 0); at the half range the numerically larger number counts as earlier |
| SequenceNumbers.WrapNext | pkg/p2p/client.go:1052-1054 | incrementing a number is advancing the unbounded index by one, round the whole space of 65536 |
| SequenceNumbers.WindowOrder | pkg/p2p/client.go:1012-1021 | for indices within half the space the comparison decides their order, exactly except for 65535 against its successor 0 |
| ReorderQueue.HandleVideoKeepsBounded | pkg/p2p/client.go:815-935 | any packet keeps the awaited number out of the queue and the queue at 1024 packets or fewer |
| ReorderQueue.QueueAlwaysBounded | pkg/p2p/client.go:815-935 | with no hypothesis at all on arrivals, timing or map iteration, no history takes the queue past 1024 packets or leaves the awaited packet in it |
| QueueEffects.DrainTakesTheRun | pkg/p2p/client.go:875-888 | in any state the drain delivers the longest run of consecutive queued numbers, round the number space, and leaves the rest as it was |
| QueueEffects.AwaitedIsDelivered | pkg/p2p/client.go:822-837 | the first packet and every awaited one are delivered, with the queued run behind them |
| QueueEffects.LateIsDropped | pkg/p2p/client.go:839-850 | a packet before the awaited one changes nothing, in any state |
| QueueEffects.AheadAndDue | pkg/p2p/client.go:856-935 | in any state, a packet ahead that arrives past the threshold or makes more than 1024 wait resets reassembly, delivers the packet the scan chose, forgets exactly what waits before that one, and delivers the run behind it |
| QueueEffects.AheadWaits | pkg/p2p/client.go:852-863 | a packet ahead, in time and with at most 1024 waiting, waits; nothing else changes |
| QueueEffects.AwaitedCommandIsDelivered | pkg/p2p/client.go:755-787 | on the command path the first and every awaited packet is delivered, with the queued run behind it |
| QueueEffects.OtherCommandWaits | pkg/p2p/client.go:788-802 | every other command packet waits, and exactly what comes before the awaited number is forgotten |
| VideoRefinement.DrainSpaced | pkg/p2p/client.go:875-888 | the drain delivers the maximal contiguous run: every awaited index up to its end was waiting, and exactly the waiting indices past its end stay |
| VideoRefinement.IdealStepSpaced | pkg/p2p/client.go:815-935 | every packet leaves nonempty runs strictly apart and only indices ahead of the awaited one waiting; no new run opens without a resync |
| VideoRefinement.RunsApart | pkg/p2p/client.go:815-935 | runs are disjoint and increasing, so no index is delivered twice |
| VideoRefinement.ScanFindsNearest | pkg/p2p/client.go:902-910 | in every iteration order the scan picks the number nearest ahead |
| VideoRefinement.ScanDeterminism | pkg/p2p/client.go:902-910 | the scan's result is the nearest number in all iteration orders if and only if 65535 is not the nearest with 0 queued behind it |
| VideoRefinement.ResyncRefines | pkg/p2p/client.go:896-935 | a resync purges nothing still reachable and delivers the maximal run from the nearest waiting packet |
| VideoRefinement.StepRefines | pkg/p2p/client.go:815-935 | one packet within half the number space keeps the 16-bit receiver a simulation of the unbounded one |
| VideoRefinement.PlayRefines | pkg/p2p/client.go:815-935 | the simulation holds after every accepted history, whose delivered indices form increasing contiguous runs |
| VideoRefinement.NothingLost | pkg/p2p/client.go:815-935 | while no resync happens, every packet that arrived is delivered, waiting, or older than the first packet |
| VideoRefinement.CompleteDelivery | pkg/p2p/client.go:815-935 | packet 0 first, every packet at least once, no resync: all packets are delivered, in one run |
| VideoRefinement.ShortIsAccepted | pkg/p2p/client.go:815-935 | a stream of up to 32767 packets whose numbers stay below 65535 meets the hypotheses whatever happens to its packets |
| RefinementLimits.StepRefinesExactly | pkg/p2p/client.go:815-935 | for a packet within half the number space, resync or not, the step simulates the unbounded receiver in every iteration order if and only if the packet is not 65535 with 0 awaited and a resync does not meet 65535 as the nearest number with 0 waiting behind it |
| RefinementLimits.CommandStepRefinesExactly | pkg/p2p/client.go:746-803 | on the command path the step simulates the unbounded receiver if and only if the packet is not 65535 with 0 awaited |
| RefinementLimits.StaleDuplicateIsQueued | pkg/p2p/client.go:839-859 | from a new receiver: packet 65535 and a copy of it leave the copy queued |
| RefinementLimits.StaleDuplicateIsReplayed | pkg/p2p/client.go:815-891 | from a new receiver: packet 65535, a copy of it and the 65535 other packets in sequence end with the copy delivered as if new, whatever the packets carry |
| RefinementLimits.StaleDuplicateIsDeliveredAtOnce | pkg/p2p/client.go:815-935 | from a new receiver: packet 65535 and a copy of it past the resync threshold reset reassembly and deliver the copy at once |
| RefinementLimits.ResyncDependsOnOrder | pkg/p2p/client.go:896-935 | from a new receiver: packets 65533, 65535 and, past the threshold, 0 lead to two different deliveries for the two iteration orders of the queue |
| FrameReassembly.HeaderRoundTrip | pkg/p2p/client.go:956-974 | decoding an encoded header gives the header, and the body follows it |
| FrameReassembly.ProcessKeepsConsistent | pkg/p2p/client.go:937-1010 | for any packet, each channel stays idle or strictly short of its declared size of at most 8 MiB, and every emitted frame has exactly its declared length |
| FrameReassembly.ResetKeepsConsistent | pkg/p2p/client.go:917-919 | abandoning reassembly keeps the invariant and every emitted frame, and leaves all channels idle |
| ReassemblyMeaning.StateIsWhatThePacketsSay | pkg/p2p/client.go:896-1010 | after any packets and resets whatsoever, a channel has a frame under construction if and only if some packet opened one of 1 byte to 8 MiB on it and since then there was no reset, no other opening and never as many bytes as declared; it holds exactly the bytes gathered |
| ReassemblyMeaning.FramesAreWhatThePacketsComplete | pkg/p2p/client.go:937-1010 | a packet hands a frame on if and only if it completes one, and then exactly the declared bytes; overruns, ill-sized headers and stray packets hand nothing on |
| FrameIntegrity.ApplyKeepsConsistent | pkg/p2p/client.go:896-1010 | no sequence of packets and resets breaks the reassembly invariant or withdraws a frame |
| FrameIntegrity.RunEmitsWholeFrames | pkg/p2p/client.go:937-1010 | from an idle reassembler, a contiguous run of packets emits exactly the frames wholly inside it, byte-identical and in order |
| FrameIntegrity.FrameIntegrity | pkg/p2p/client.go:815-1010 | end to end: under reordering, duplication, loss and resyncs the delivered packets form separate increasing runs, and the handler gets exactly the frames wholly inside one run |
| FrameIntegrity.LosslessDelivery | pkg/p2p/client.go:815-1010 | with nothing missing and no resync, the handler gets every frame sent, in order |
| Reordering.OrderlyAdmits | pkg/p2p/client.go:746-863 | if packets overtake at most a bounded number of others and repeats are not of packet 65535, every arrival is one the receivers tolerate |
| Reordering.NoResync | pkg/p2p/client.go:843-862 | a packet in time, with everything waiting within 1024 of the awaited one, triggers no resync |
| Reordering.ReorderedCommands | pkg/p2p/client.go:746-803 | under reordering within half the number space the command receiver holds exactly what arrived: a run from packet 0 and what waits past its end |
| Reordering.ReorderedVideo | pkg/p2p/client.go:815-935 | the same for video packets in time that overtake at most 1024 others, without any resync |
| Reception.ReceiveStream | pkg/p2p/client.go:729-863 | the client object, fed the encoded payloads of a short stream in any way or of an orderly one, has passed on exactly the frames wholly inside one run; all frames sent, if the stream is orderly and every packet arrives |
| Reception.ReceiveCommands | pkg/p2p/client.go:729-803 | the client object, fed the encoded payloads of messages cut anywhere, behind packets that belong to none, reordered and repeated, has passed on exactly the messages on the tag's channel |
| P2PClient.MessageState.LowestQueued | pkg/p2p/client.go:902-910 | the scan over the map's keys, in an order it reveals, yields the running minimum over that order |
| P2PClient.MessageState.PurgeBefore | pkg/p2p/client.go:922-926 | exactly the queued packets before the limit are dropped |
| P2PClient.MessageState.ParseDataMessage | pkg/p2p/client.go:1065-1155 | the parse loop's effect on leftover, builder and reports is the specified one; every reported body is a join of its parts in sort order |
| P2PClient.MessageState.HandleCommandMessage | pkg/p2p/client.go:746-803 | queue, expected number and delivery trace change as specified, and the parser has seen exactly what was delivered |
| P2PClient.SortMessageParts | pkg/p2p/client.go:1157-1175 | the result joins the parts in an order the library sort may return |
| P2PClient.Client.ProcessVideoPacket | pkg/p2p/client.go:937-1010 | the channel states, last channel and emitted frames change as specified |
| P2PClient.Client.ProcessVideoInOrder | pkg/p2p/client.go:867-891 | delivery and drain as specified; the reassembler has seen exactly what was delivered |
| P2PClient.Client.ResyncVideoQueue | pkg/p2p/client.go:896-935 | the resync as specified for the iteration order it reveals |
| P2PClient.Client.HandleVideoMessage | pkg/p2p/client.go:815-863 | the whole effect of a video packet, including the drop of late ones and the resync conditions |
| P2PClient.Client.HandleDataMessage | pkg/p2p/client.go:729-803 | short payloads change nothing; a packet changes only the state of the data type its tag selects |
| PartOrder.SpanIsExact | pkg/p2p/client.go:1162-1168 | over n consecutive numbers, starting anywhere, the comparator is the sending order if and only if n is at most 536 |
| PartOrder.WindowIsTotal | pkg/p2p/client.go:1162-1168 | over keys within 536 consecutive numbers the comparator is a strict total order |
| PartOrder.SortRestoresSendingOrder | pkg/p2p/client.go:1157-1175 | however the sort proceeds, parts within 536 packets join to the bytes in sending order |
| CommandRoundTrip.NoMagicAcross | pkg/p2p/client.go:1081 | the magic word cannot overlap itself across the boundary between a body and the next header |
| CommandRoundTrip.ParseAllInStep | pkg/p2p/client.go:1073-1154 | after every packet, leftover plus unread bytes are what remains of the messages, and the parts hold the current body so far |
| CommandRoundTrip.EveryChunkingParses | pkg/p2p/client.go:1065-1155 | for any cuts, the parser reports exactly the messages in order, never slices out of range and ends with nothing left over |
| CommandRoundTrip.EveryChunkingParsesAfterJunk | pkg/p2p/client.go:1065-1155 | the same for a parser that first meets packets of more than 16 bytes belonging to no message: they are dropped and every later message is reported |
| CommandRoundTrip.RoundTrip | pkg/p2p/client.go:1065-1175 | headers and bodies handed on are exactly those serialised, behind any such packets |
| CommandParser.PanicsExactly | pkg/p2p/client.go:1120-1129 | a packet makes the parser slice out of range if and only if more bytes have been read than the installed header declares and what comes next is not empty and does not open with the magic word |
| CommandParser.UnfinishedThenShort | pkg/p2p/client.go:1097-1129 | every input of this kind does so from a new parser: a message left unfinished after more than 16 bytes, the header of a shorter one with at most 16 bytes behind it, then bytes that are no header |
| ParserEffects.JunkIsDropped | pkg/p2p/client.go:1120-1124 | with no message open, more than 16 bytes that do not open with "XZYH" leave the parser as it was |
| ParserEffects.ShortJunkIsKept | pkg/p2p/client.go:1125-1134 | with no message open, at most 16 such bytes are kept in front of the next packet |
| ParserEffects.CutHeaderIsKept | pkg/p2p/client.go:1083-1088 | less than a header that opens with "XZYH" is kept until the rest arrives, whatever the parser was doing |
| ParserEffects.WholeMessage | pkg/p2p/client.go:1090-1153 | a message in one packet is reported at once whatever the parser was doing, together with the parts left behind |
| ParserEffects.RestOfPacket | pkg/p2p/client.go:1104-1109 | at most 16 bytes behind a message are kept for the next packet, more are taken as a packet of their own |
| ParserEffects.CarryingOnStores | pkg/p2p/client.go:1135-1144 | too little to finish a message becomes a part above 16 bytes and is kept for the next packet below |
| ParserEffects.CarryingOnFinishes | pkg/p2p/client.go:1125-1153 | exactly what is missing reports the message with its last part |
| ParserEffects.IntactExactly | pkg/p2p/client.go:1147-1175 | the body handed on for a message in one packet is the body sent if and only if no other packet's part was left behind, however the sort proceeds |
| ParserEffects.AbandonedSpoilsNext | pkg/p2p/client.go:1090-1153 | from a new parser: a message abandoned after more than 16 bytes makes the next one be handed on with a wrong body |
| CommandDelivery.PurgeIsExact | pkg/p2p/client.go:788-802 | queueing a late copy is undone by the purge, and nothing still reachable is purged |
| CommandDelivery.CommandStepRefines | pkg/p2p/client.go:746-803 | the lossless receiver simulates the unbounded one without resyncs |
| CommandDelivery.CommandsDelivered | pkg/p2p/client.go:729-1175 | messages cut anywhere, behind packets that belong to none, all packets reordered and duplicated but not lost: the handler gets exactly the messages, in order |
| VideoHeader.DecodeMetadata | pkg/p2p/stream.go:37-46 | the decoded timestamp is below 2^48 |
| VideoHeader.HeaderInBytes | pkg/p2p/stream.go:35-46 | every field of the header by byte position, in little-endian order |
| VideoHeader.ParseInBytes | pkg/p2p/stream.go:30-97 | below 22 bytes an error; otherwise, unless encrypted, the bytes behind the header, at most as many as declared |
| VideoHeader.FrameRoundTrip | pkg/p2p/stream.go:30-95 | a frame is read back as sent if and only if it is not taken for an encrypted one and declares at least its payload's length |
| VideoHeader.CameraFramesAreFrameable | pkg/p2p/client.go:969-972 | every frame that comes out of the reassembler carries a timestamp below 2^48, and its non-empty access unit is within the raw framing's limits |
| KeyframeScan.StartCodesApart | pkg/stream/session.go:52-56 | two start codes never overlap, which is what lets the scan jump ahead |
| KeyframeScan.IsKeyframeBitstream | pkg/stream/session.go:49-82 | true if and only if some start code is followed by a random-access NAL header of the codec |
| KeyframeScan.KeyframeMeans | pkg/stream/session.go:61-79 | in bytes: 00 00 01 and then a type of 19 to 21 in bits 1 to 6 for H.265, of 5 in bits 0 to 4 for H.264, either for an unknown codec |
| FrameWindow.WindowIsLongest | pkg/stream/session.go:251-272 | the window fits 600 frames and 24 MiB and no longer suffix does |
| FrameWindow.TwoCutsAreWindow | pkg/stream/session.go:251-272 | cutting by bytes and then by count leaves that window |
| FrameWindow.WindowInNumbers | pkg/stream/session.go:17-18 | in numbers: the longest suffix with at most 600 frames and at most 25165824 bytes in all |
| FrameWindow.ServedExactly | pkg/stream/session.go:317-356 | whatever ID is asked with, exactly those buffered frames are served that are newer and have a keyframe at or before and none behind them; the next ID is the newest unless no keyframe is buffered |
| FrameWindow.NoKeyframeIsPassedOver | pkg/stream/session.go:339-342 | no stretch served starts before a buffered keyframe |
| StreamSessions.SearchInts | pkg/stream/session.go:338 | over ascending IDs the binary search finds the first index whose ID is at least the one given |
| StreamSessions.SearchIsSubtraction | pkg/stream/session.go:335-343 | over the session's IDs the search is a clamped subtraction |
| StreamSessions.StreamSession.RebasePTS | pkg/stream/session.go:280-310 | the timestamp and the clock fields change as in the clock whose outputs are given in numbers below |
| StreamSessions.StreamSession.RecalcKeyFrameIdx | pkg/stream/session.go:379-386 | the index becomes that of the last keyframe in the buffer, or -1 |
| StreamSessions.StreamSession.TrimBuffer | pkg/stream/session.go:251-272 | the buffer becomes its longest fitting suffix, the IDs stay aligned and the cached index right |
| StreamSessions.StreamSession.PushFrame | pkg/stream/session.go:238-272 | after every append, IDs are the contiguous range ending at the newest, the cached index is the last keyframe's and the buffer is the window |
| FrameWindow.ChronicleNext | pkg/stream/session.go:230-272 | after every append the buffer is the end of all frames ever buffered, each carrying the rebased timestamp of its camera's |
| StreamSessions.StreamSession.BufferFrame | pkg/stream/session.go:230-272 | rebasing, keyframe decision and buffering together keep window, IDs, cache and chronicle in agreement |
| StreamSessions.StreamSession.AppendFrame | pkg/stream/session.go:180-273 | which frames are rejected or ignored, that any frame at all is remembered, the codec an unknown one becomes by stream type 0, 1 or inspection, and the whole new state for frames that are buffered |
| StreamSessions.StreamSession.GetFramesSince | pkg/stream/session.go:317-356 | the frames and ID served are those of the view, which are characterised above |
| StreamSessions.StreamSession.ClearBuffer | pkg/stream/session.go:358-367 | the buffer empties; the ID counter and the clock stay |
| Timestamps.RebaseAdvances | pkg/stream/session.go:280-310 | last output = last camera timestamp + offset (mod 2^64) is kept, and the output moves on by the camera's advance or one frame interval |
| Timestamps.RebasedOutputs | pkg/stream/session.go:280-310 | for camera timestamps below 2^48 with any jumps, each output exceeds the last by 1 to 10000, by the camera's own advance when that is in range, and none wraps within (2^64 - 1 - 1000) / 10000 further frames |
| Timestamps.OutputsInNumbers | pkg/stream/session.go:280-310 | in numbers: the first output is 1000; each moves on by the camera's advance when that is 1 to 10000, and otherwise by the interval d of the frame's rate, d * fps <= 1000 < (d + 1) * fps, or 33 when the rate is not 1 to 120 |
| Timestamps.RemapInNumbers | pkg/web/handler.go:287-302 | for any timestamp and any remapper: the least output neither before the time since the base plus 1000 nor at or before the last output |
| Timestamps.RemapAfterReset | pkg/web/handler.go:280-308 | after a reset, output k is the later of real time and one per frame past the old timeline; the clamp to the base never fires |
| Timestamps.RemapRejoins | pkg/web/handler.go:280-308 | once the timeline has caught up with real time it stays there |
| Serving.ServedStretch | pkg/stream/session.go:317-356 | a poll serves a contiguous stretch to the buffer's end that starts at a keyframe or right behind the last frame served |
| Serving.TickKeepsGood | pkg/web/handler.go:340-392 | a poll, with or without re-binding, keeps what was written a chain of frames linked by succession or keyframes |
| Serving.DecodableServing | pkg/web/handler.go:340-392 | over every interleaving, each frame written is one the camera sent, later than all before it, follows its predecessor or is a keyframe, and is preceded since the last clear by a keyframe and every frame after that |
| Serving.PollCatchesUp | pkg/stream/session.go:317-356 | after a poll of a buffer with a keyframe, the last frame written is the newest |
| Serving.PollWritesExactly | pkg/web/handler.go:340-392 | over every interleaving, a poll writes exactly the buffered frames newer than the last one written of the session with a keyframe at or before and none behind them; a viewer behind a buffered keyframe is moved to the last one |
| Serving.TimelineRises | pkg/web/handler.go:323-387 | the muxer's timestamps strictly increase over polls, clears and session replacements |
| Serving.MuxerTimelineRises | pkg/stream/session.go:280-310 | the same from the camera's 48-bit clocks onwards, whatever these do |
| ViewerTimeline.TimelineInClosedForm | pkg/web/handler.go:280-387 | over every interleaving, each timestamp the muxer is given is time since its session's first frame written plus 1000, or the old timeline plus one per frame of the session, whichever is later |
| StreamServer.PtsRemapper.Remap | pkg/web/handler.go:287-302 | the output and all four fields change as specified |
| StreamServer.MuxedConnection.Tick | pkg/web/handler.go:340-392 | one tick serves, re-binds and remaps as specified and hands the muxer exactly the logged frames' bytes; it ends when the session is gone |
| StreamServer.RawConnection.Tick | pkg/web/handler.go:482-512 | one tick serves the same frames and appends exactly their records to the bytes written |
| StreamServer.RawDelivery | static/player.html:388-415 | the page holds at every moment a prefix of the frames written, each whole; all of them once all bytes have arrived |
| Broadcast.ServeViewer | pkg/web/handler.go:340-392 | session and viewer objects under any inputs, which determine the events: every frame handed to the muxer is the camera's, later than the one before, and preceded since the last restart by a keyframe and all frames after it; its timestamps strictly increase and have the closed form |
| Broadcast.KeyframesOfNamedCodec | pkg/stream/session.go:207-236 | for a camera that always sends stream type 1, on sessions of unknown codec: a frame is buffered as a keyframe if and only if flagged or holding a NAL unit of type 19 to 21 behind a start code; with stream type 0, of type 5 |
| RawBroadcast.ServeRawViewer | pkg/web/handler.go:454-517 | reassembled frames, session, raw endpoint and page as objects, with network deliveries of any size in between: the page holds a prefix of the decodable frames served, each whole and byte-identical, having dropped no byte; all of them once every byte has arrived |
| RawFraming.Player.ProcessBuffer | static/player.html:388-404 | the parse loop takes the specified units off the accumulator and ends |
| RawFraming.Player.Receive | static/player.html:406-416 | the page's state is that of the chunks received so far, empty ones included |
| RawFraming.FeedPrefix | static/player.html:388-404 | at every point of any chunking the page has exactly the completed units, holds less than the next record and has dropped no byte |
| RawFraming.RoundTrip | pkg/web/handler.go:474-507 | for every chunking, the units come back exactly, with nothing dropped or left over, if and only if each has 1 byte to 16 MiB |
| RawFraming.RecordInBytes | pkg/web/handler.go:474-482 | four bytes of length in little-endian order, truncated to 32 bits, and the data |
| RawFraming.OneTurn | static/player.html:392-403 | one turn of the loop in bytes: a length not in 1 to 16 MiB costs one byte, an incomplete record is waited for, a whole one is taken |
| RawFraming.FindsItsWayBack | static/player.html:394-398 | after any bytes none of which can start a record, exactly those are dropped and every record behind them is parsed |
| Watchers.CountIsJoined | pkg/web/handler.go:60-87 | in every run the tracked count is the number of joined consumers |
| Watchers.DecidesExactlyWhenEmpty | pkg/web/handler.go:88-101 | a callback goes on to expire if and only if nobody is joined at its recount |
| Watchers.NoLeak | pkg/web/handler.go:72-102 | once all have left, the last departure's timer is pending, its callback on its way, or it has expired and its owner's session is no longer registered |
| Watchers.StopsOnlyTheBoundSession | pkg/web/handler.go:131-147 | whatever follows a departure, a stop by its timer hits the session the consumer was bound to, started before it left, and that session never returns |
| Watchers.StopHitsExactly | pkg/web/handler.go:88-147 | after timer t has decided, and whatever follows, a stop by t hits a joined consumer bound to the session if and only if one arrived since the recount, came bound to the session or bound to it since, and has not left |
| Watchers.StopSparesEveryone | pkg/web/handler.go:88-147 | when nobody arrives after the recount, nobody is joined at the stop |
| Watchers.GraceCutShortExactly | pkg/web/handler.go:72-102 | after the last departure, some continuation without an arrival lets another timer decide while the departure's is pending if and only if, at the departure, an older timer is pending or has its callback on the way |
| Watchers.FullGraceIsCancellable | pkg/web/handler.go:60-70 | when no older timer may decide at the departure, an arrival cancels the departure's timer as long as that is pending |
| Watchers.OrphanedExactly | pkg/web/handler.go:88-147 | from any point with nobody joined and session r registered, once every timer has run its course undisturbed, r is gone if and only if some timer still due at that point had an owner bound to r |
| Watchers.ExpiryClearsExactlyTheBoundSession | pkg/web/handler.go:131-147 | one expiry that nothing interrupts, in any state: it clears the registry if and only if its owner was bound to the registered session |
| Watchers.GraceCanBeCutShort | pkg/web/handler.go:89-101 | a run on the failing side of the grace condition: a callback decides while a newer timer is pending, which is no longer tracked |
| Watchers.StopCanHitANewConsumer | pkg/web/handler.go:97-147 | a run on the failing side of the stop condition: a stop hits the session of a joined consumer |
| Watchers.SessionCanBeOrphaned | pkg/web/handler.go:131-147 | a run on the failing side of the orphan condition: nobody joined, every timer done, a session still registered |
| Supervision.Supervise | pkg/web/handler.go:60-147 | the watcher set and the registry as objects, taken through any run, hold the protocol's tracked state, and the count is the number of joined consumers |
| Watchers.WatcherSet.Add | pkg/web/handler.go:60-70 | the channel's count and timer change as in the protocol, its pending timer is stopped, no other channel changes |
| Watchers.WatcherSet.Remove | pkg/web/handler.go:72-87 | the last removal arms one timer, a spurious one changes nothing, no other channel changes |
| Watchers.WatcherSet.Recount | pkg/web/handler.go:89-97 | the tracked timer, whichever it is, is forgotten; the answer is whether the count is zero |
| StreamRegistry.Registry.StartStream | pkg/stream/manager.go:63-89 | a live session is reused, else a new one is registered under an ID past all before it |
| StreamRegistry.Registry.StopStream | pkg/stream/manager.go:91-108 | the session is unregistered and its frames dropped, or absence is reported |
| StreamRegistry.Registry.StopStreamIfID | pkg/stream/manager.go:112-128 | the same if and only if the registered ID is the one given |
| TrimJson.TrimJSON | pkg/api/client.go:226-275 | the byte loop cuts out what the specified scan takes |
| TrimJson.ValueIsNeutral | pkg/api/client.go:244-273 | scanning a whole JSON value, strings with escapes and all, leaves depth and string state where they were |
| TrimJson.TrimRecovers | pkg/api/client.go:226-275 | any array or object is recovered exactly from before any bytes and behind bytes without an opening bracket |
| TrimJson.TrimIdempotent | pkg/api/client.go:226-275 | trimming twice is trimming once, on every input |
| TrimJson.NothingToTrim | pkg/api/client.go:226-236 | without an opening bracket the data comes back as it is |
| TrimJson.TruncatedIsKept | pkg/api/client.go:244-274 | a value cut short anywhere is returned from its bracket to the end |
| TrimJson.OtherBracketsDoNotCount | pkg/api/client.go:238-273 | brackets of the kind that did not open the value need not match |
| Padding.PKCS7Pad | pkg/crypto/aes.go:66-74 | the padding of section 6.3 of RFC 5652, with the byte truncated to 8 bits |
| Padding.PadToBlockSize | pkg/crypto/aes.go:76-87 | the same, but aligned data is left alone |
| Padding.RemovePKCS7Padding | pkg/crypto/aes.go:89-115 | strips a pad of exactly the expected length, else returns the data, or fails |
| Padding.UnpadFailsExactly | pkg/crypto/aes.go:89-115 | it indexes before the data if and only if one to seven bytes end in the number they lack to 16 |
| Padding.UnpadAfterPad | pkg/crypto/aes.go:66-115 | unpadding after padding is the identity if and only if the data filled its blocks; otherwise the padding stays |
| Padding.JsonThroughPadding | pkg/api/client.go:187-196 | trimming after unpadding after padding recovers every array or object, at every length |
| Padding.ToBlockSizeIsLeast | pkg/crypto/aes.go:76-87 | the result extends the data to the least block multiple, and padding it again changes nothing |
| Padding.TransformBlocks | pkg/crypto/aes.go:128-134 | block after block, the destination becomes the blocks' images in order |
| Padding.BlockByBlock | pkg/crypto/aes.go:127-131 | block b of the result is the image of block b |
| Padding.EncryptECB | pkg/crypto/aes.go:117-134 | the error for keys not of 16 bytes, else the encrypted blocks of the padded data |
| Padding.DecryptECBRaw | pkg/crypto/aes.go:138-162 | the errors for wrong keys and unaligned data, the empty ciphertext, else the decrypted blocks |
| Padding.EcbRoundTrip | pkg/crypto/aes.go:117-162 | decrypting the encryption gives the data extended to whole blocks, and the data itself exactly when it was aligned |
| Padding.EcbOnto | pkg/crypto/aes.go:117-162 | every aligned ciphertext is the encryption of its decryption |
| Padding.EncryptP2PPayload | pkg/p2p/packet.go:256-267 | which payloads go out encrypted, and that those decrypt to the padded data; it never fails |

## Left out

- Hypotheses of the video theorems: packets arrive within half the number space of the awaited one; no duplicate
  of packet 65535 arrives while 0 is awaited; at a resync 0 is not queued behind 65535 as the nearest. Frames
  carry valid sizes and their continuation packets do not look like headers. `Reception` and `Reordering` reduce
  the first three to conditions on the arrivals for short streams and for streams without loss.
- Hypotheses of the command theorems: bodies are non-empty and free of "XZYH", packets are non-empty, each message
  touches at most 536 packets.
- Map iteration order, elapsed time, staleness and the sniffed codec are parameters; the order a loop used is
  revealed as a ghost result.
- P2PClient.SortSlice: an insertion sort stands for the library sort; nothing beyond what the library promises of
  any sort is used.
- The channel states and message builders are values inside the client's fields, so aliasing between them is not
  modelled; of the receive buffer's reuse only the copying of queued packets is kept. The four per-type
  arrays are one object for each type. A slice out of range in the message parser is recorded as a flag.
- Locks: each locked section is one step; only the grace callback is split. A serve loop's lookup of the session and
  its storing of the ID are one step; a consumer that looks a session up before it joins takes two. Watcher keys
  are strings already formatted.
- StreamRegistry.Registry.StopStream: a stopped session keeps its frame IDs and is treated as terminal; frames that
  reach it later are not modelled.
- Serving.TimelineRises: assumes that 64 bits hold the session timestamps plus one per frame written; the bound of
  10^15 inputs in `Broadcast.ServeViewer` guarantees it.
- TrimJson.TrimRecovers: numbers and the names true, false and null are any printable bytes without structural
  characters, so the statement covers more than JSON; text that is not valid JSON is covered by idempotence only.
- Encrypted video frames, the codec sniffing, and the AES, RSA and ECDH internals.
- Acknowledgements, sending, discovery, heartbeats, relay handshakes, HTTP handlers, login, cloud calls, the
  MPEG-TS muxer and the rest of the player page.
- Wall-clock staleness and restart cooldowns appear only as clears and replacements of the session.
