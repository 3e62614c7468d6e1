# Verification of the KCP stack

This project models the reliable-datagram stack in `network/kcp` and proves what its code promises. KCP has no
published standard, so the code is the specification. The pieces build on each other:

- **Serial numbers** (`Serial`): uint32 numbers compared by the sign of their 32-bit difference, the arithmetic of
  section 3.2 of RFC 1982 with the undefined distance counted as negative, and when it agrees with unbounded numbers.
- **Wire format** (`Wire`, `Packing`): the 24-byte header written into a shared buffer, how a flush packs segments into
  datagrams, and how `Input` takes them apart.
- **Engine on values** (`Segments`, `SendWindow`, `ReceiveWindow`, `Fragmentation`, `RoundTrip`, `Congestion`,
  `Retransmit`, `KcpSpec`): what each entry point does, said by distances from `SndUna` and `RcvNxt`, not by scanning.
- **Engine in the source's form** (`KcpEngine`): a class whose methods scan and update the four queues and write bytes
  in place; every method is proved to compute the function on values. The fields of `KCP` are kept, except that settings
  that change together are grouped in records (`cfg`, `win`, `rtt`, `probe`), the `Probe` bits are two booleans and
  `Acked` is one. `outputs` collects what `Output` is given.
- **Invariants and laws** (`KcpInvariant`, `KcpLaws`, `InputLaws`, `FlushLaws`, `AckedRuns`, `AckCompression`,
  `Settings`): what holds in every state of every run, for any datagram contents and any clock, and what a whole `Input`
  or flush does to the send side.
- **Effects** (`InputEffects`, `FlushEffects`, `ClockLaws`): what one call does to an endpoint, said by the fields before
  and after, the segments of the datagram and the segments written, without the functions that compute it.
- **Two endpoints and a network** (`Delivery`, `DeliverySteps`, `Endpoints`, `Network`, `Progress`): unbounded counters
  and logs are carried beside the 32-bit ones; the network drops, duplicates, reorders and delays. Exactly-once in-order
  delivery is `Network.ExactlyOnceInOrder`.
- **Byte streams** (`Streams`, `EmptyMessages`, `SessionEngine`, `ByteStreams`): `WaitSnd`, `Read` and `biggerThan` of
  the session, and the end-to-end theorem `ByteStreams.BytesArriveInOrder`.
- **Forward error correction** (`FecPackets`, `FecCodec`, `FecEncoding`, `FecEncoderEngine`, `FecDecoding`,
  `AutoTuning`, `FecTuning`, `FecDecoderEngine`, `FecRecovery`, `FecDelivery`, `FecStream`): encoder and decoder against
  an erasure-code law, with two codes that meet it. `FecStream.EncoderFillsBook` and `FecDelivery.EveryGroupRecovers`
  together say that what a sender's groups carry reaches `kcp.Input` as soon as enough shards are stored, and nothing
  else does. `FecDecoding` is the decoder with fixed group sizes; `FecTuning` adds the sizes that follow the packet types,
  and `FecDelivery.ReceptionStaysTuned` says that with the sender's sizes and packets the two are the same.
- **The whole stack** (`Layered`): two endpoints whose datagrams travel inside the packets of the correction layer;
  `Layered.ExactlyOnceThroughTheLayer` is exactly-once in-order delivery through it.
- **Timed scheduler** (`TimedHeap`, `TimedSched`): the worker's heap with its sift loops, and the goroutines as a state
  machine.
- **Buffer pool** (`BufferPool`, `PoolSimulation`): who owns each pooled buffer, the slices behind the queues, and every
  call of the engine and the decoder as a sequence of buffer operations, whatever buffers the pool hands out.

A slice of a pooled buffer that is too long is a panic. Where the source takes one, the method that models it requires
what keeps it from panicking (`Wire.Copied`): `Fragmentation.Allocatable` for `Send`, `KcpEngine.Held` for `Input`,
`FecTuning.TakesIn` for the decoder.

Claims that are false of the code are stated as such, with the exact condition and an input that shows them false:

- one datagram raises `Cwnd` by at most 3 (`InputLaws.CwndRise`, `CwndWithinPeer`; `RiseToNine`),
- acknowledged data draws the window-slide flush (`InputLaws.AnswersToTheLast`; `ProgressWithoutAnswer`),
- a rejected write leaves no trace (`Fragmentation.RejectedSend`; `RejectedStreamSendWrites`),
- a head that is not complete is not readable (`ReceiveWindow.IncompleteIsReported`; `LoneFragmentIsRead`),
- every message is read (`Streams.ReadProgress`; `EmptyMessages.MergedWritesBlock`),
- `Ssthresh` keeps its floor (`FlushLaws.FlushThreshold`; `LossLeavesNoThreshold`),
- after a flush everything is due in the future (`KcpLaws.FlushSchedulesIff`; `FlushLaws.HalfCircleIsUnscheduled`),
- a receive window is advertised as it is (`KcpLaws.AdvertisedWindow`; `FullSizeLooksClosed`),
- dropping old acknowledgements is harmless (`AckCompression.DroppingIsHarmless`; `TooOldIsLost`),
- an accepted MTU is usable (`Settings.MtuUsable`, `SendsAllocate`; `SixtyIsAccepted`, `ThreeThousandIsAccepted`),
- the decoder's queue holds no number twice (`FecDecoding.ScanFinds`; `FecTuning.StoredTwice`),
- the decoder's queue stays within `rxlimit` (`FecTuning.StoresOne`; `RunBeyondTheLimit`),
- a decoder that changes its group sizes takes its sender's (`FecTuning.ChangesToSender`; `LostFirstMistunes`).

`dafny verify dfyconfig.toml` checks the whole project.

## Model

| member | source | states |
|---|---|---|
| `Serial.DiffExact` | network/kcp/kcp.go:96-98 | `_itimediff` of two truncated numbers is their unbounded difference exactly when that lies in [-2^31, 2^31) |
| `Serial.DiffFrom` | network/kcp/kcp.go:96-98 | comparison with `base + i` depends only on the distance ahead of `base`, also across wrap-around |
| `Serial.DiffSign` | network/kcp/kcp.go:96-98 | a number is at or after `base` exactly when it is less than half a circle ahead; half a circle counts as before |
| `Wire.Int32RoundTrip` | network/kcp/kcp.go:64-74 | a little-endian uint32 decodes to what was encoded, whatever follows |
| `Wire.EncodeHeader` | network/kcp/kcp.go:116-129 | `encode` writes the 24 header bytes at the given place and changes no other byte of the buffer |
| `Wire.HeaderRoundTrip` | network/kcp/kcp.go:116-129 | every field of an encoded header is read back, including the length |
| `Wire.HeaderLayout` | network/kcp/kcp.go:116-129 | each field stands at its byte of the header, the least significant byte first |
| `Wire.ParseInvertsBytes` | network/kcp/kcp.go:552-570 | the loop of `Input` over encoded segments yields exactly those segments, none split, lost or repeated |
| `Wire.BytesInvertsParse` | network/kcp/kcp.go:552-629 | a datagram that parses completely is its segments re-encoded, plus less than one header |
| `Packing.DatagramsCarryEmissions` | network/kcp/kcp.go:697-716 | every datagram of a flush is non-empty and within the MTU, and together they carry the emitted segments in order |
| `Packing.DatagramsTight` | network/kcp/kcp.go:697-716 | a datagram goes out only when the next segment would not have fitted, or there is none |
| `Packing.ParsingInvertsPacking` | network/kcp/kcp.go:552-570 | parsing the datagrams of a flush one after the other gives back the emitted segments |
| `SendWindow.OutstandingTest` | network/kcp/kcp.go:403-406 | the guard of `parseAck` and `parseFastack` lets exactly the outstanding numbers through |
| `SendWindow.PlaceInWindow` | network/kcp/kcp.go:408-420 | comparing a number with the i-th entry compares their places, so exactly one entry is marked |
| `SendWindow.CoveredByUna` | network/kcp/kcp.go:438-456 | `una` is beyond the i-th entry exactly when it covers more than i entries, so the loop drops the clamped prefix |
| `SendWindow.RoomTest` | network/kcp/kcp.go:802-814 | the admission loop stops exactly when the window is full |
| `SendWindow.AdvanceUnaValid` | network/kcp/kcp.go:394-401 | after `parseUna` and `shrinkBuf` the numbers are again consecutive from `SndUna` to `SndNxt` |
| `SendWindow.AdmitValid` | network/kcp/kcp.go:793-818 | admitting keeps the numbers consecutive, at most 65535 in flight, and the newest entry unskipped |
| `ReceiveWindow.AcceptanceTest` | network/kcp/kcp.go:462-467 | `parseData` accepts exactly the numbers at distances 0 to RcvWnd-1 from RcvNxt |
| `ReceiveWindow.PlacesCompare` | network/kcp/kcp.go:473-486 | inside the window every 32-bit comparison agrees with the comparison of distances |
| `ReceiveWindow.InsertOrdered` | network/kcp/kcp.go:488-500 | a new number is put where the distances stay strictly increasing and inside the window |
| `ReceiveWindow.RunIsMaximal` | network/kcp/kcp.go:502-513 | what becomes readable is the run RcvNxt, RcvNxt+1, ..., and it stops only for a gap, the end, or a full queue |
| `ReceiveWindow.DrainValid` | network/kcp/kcp.go:504-518 | after draining, RcvNxt is stored only while the receive queue is full |
| `ReceiveWindow.ParseDataValid` | network/kcp/kcp.go:462-521 | `parseData` keeps the whole receiver invariant for any segment |
| `ReceiveWindow.RecvValid` | network/kcp/kcp.go:233-293 | `Recv` keeps the whole receiver invariant |
| `ReceiveWindow.RepeatChangesNothing` | network/kcp/kcp.go:473-520 | a segment already stored changes nothing |
| `ReceiveWindow.ParseDataKeeps` | network/kcp/kcp.go:462-521 | a segment with a new number in the window is stored in whatever order it comes and what then follows on becomes readable; any other changes nothing |
| `ReceiveWindow.RecvHandsOver` | network/kcp/kcp.go:233-293 | `Recv` takes the segments of the first message, returns their bytes, and moves on what then has room, RcvNxt with it |
| `ReceiveWindow.IncompleteIsReported` | network/kcp/kcp.go:207-231 | an incomplete message is taken for a whole one exactly when the 8-bit count of its first segment is there: numbered 255, or at least Frg+1 segments |
| `ReceiveWindow.LoneFragmentIsRead` | network/kcp/kcp.go:216-218 | one byte of a message announced in 256 pieces is readable as a message of one byte |
| `Fragmentation.FragmentsCountDown` | network/kcp/kcp.go:334-354 | in message mode the pieces carry the number of pieces after them |
| `Fragmentation.FragmentsPayload` | network/kcp/kcp.go:334-354 | the pieces put together are the message |
| `Fragmentation.FragmentsSized` | network/kcp/kcp.go:334-345 | every piece but the last is exactly one full segment, none is larger, and only an empty message makes an empty piece |
| `Fragmentation.SendConservesBytes` | network/kcp/kcp.go:295-357 | in both modes an accepted write adds exactly its bytes to the queue |
| `Fragmentation.RejectedSend` | network/kcp/kcp.go:295-332 | a rejected `Send` leaves the queue alone exactly unless an oversized stream write has topped up the last segment |
| `Fragmentation.AlwaysAllocatable` | network/kcp/kcp.go:183-184 | no `Send` slices a pooled buffer beyond its end, whatever is queued and written, exactly when Mss is at most 1500 |
| `Fragmentation.RejectedStreamSendWrites` | network/kcp/kcp.go:306-328 | there is a rejected stream write that has written part of its bytes |
| `Fragmentation.NextMessage` | network/kcp/kcp.go:207-264 | on a queue built from whole sends `PeekSize` is -1 exactly until the last fragment is there, and `Recv` then takes exactly that message and leaves the later ones |
| `RoundTrip.NoOverflow` | network/kcp/kcp.go:370-392 | for samples up to 2^29 no 32-bit operation overflows: the estimator equals the one over unbounded integers |
| `RoundTrip.SmoothStays` | network/kcp/kcp.go:370-392 | one sample keeps the mean in the range of the samples and the variation below its upper end (the smoothing of section 2 of RFC 6298, mean first) |
| `RoundTrip.HistoryStays` | network/kcp/kcp.go:370-392 | over any history of samples in [lo, hi]: lo <= RxSrtt <= hi, 0 <= RxRttvar <= hi, RxRto in [30, 60000] |
| `RoundTrip.RtoBounded` | network/kcp/kcp.go:390-391 | whatever the samples, RxRto is between 30 ms and 60 s |
| `Congestion.IncreaseExact` | network/kcp/kcp.go:674-687 | the additive step is computed without any 32-bit wrap, and its bytes and segments are given (the increment of section 3.1 of RFC 5681) |
| `Congestion.SlowStart` | network/kcp/kcp.go:658-672 | below the threshold the window grows by one segment and Mss bytes, unless it is cut to the peer's |
| `Congestion.Avoidance` | network/kcp/kcp.go:658-687 | from the threshold on it grows by Mss*Mss/Incr + Mss/16 bytes over unbounded integers, and by segments only once the bytes make one more |
| `Congestion.GrowMatched` | network/kcp/kcp.go:658-687 | the growth step of `Input`, by itself, keeps (Cwnd-1)*Mss < Incr < (Cwnd+1)*Mss, ends within RmtWnd and raises Cwnd by at most 3 |
| `Congestion.GrowByThree` | network/kcp/kcp.go:658-687 | three is attained by the growth step |
| `Congestion.ShrinkMatched` | network/kcp/kcp.go:855-881 | one flush keeps the window matched and small, also when `resent` is 0xffffffff |
| `Congestion.ThresholdBelowFloor` | network/kcp/kcp.go:856-868 | Ssthresh can end at 0 although the floor of 2 was applied |
| `Congestion.ThresholdAfterFlush` | network/kcp/kcp.go:856-874 | Ssthresh ends at 2 or more exactly when the window it was halved from had at least 4 segments |
| `Retransmit.OutgoingSound` | network/kcp/kcp.go:892-951 | everything written by the pass is an unacknowledged entry, stamped with this pass |
| `Retransmit.OutgoingComplete` | network/kcp/kcp.go:900-951 | every entry that needs sending is written |
| `Retransmit.CountPositive` | network/kcp/kcp.go:906-934 | a pass counts a loss, a fast or an early retransmission exactly when there is such an entry |
| `Retransmit.ChangeNeedsTwo` | network/kcp/kcp.go:906-920 | a fast or early retransmission is of an entry that is not the newest, so at least two segments are in flight |
| `Retransmit.TouchRtoWithin` | network/kcp/kcp.go:900-942 | a pass keeps Rto <= 60000 * Xmit |
| `Retransmit.AfterPass` | network/kcp/kcp.go:883-964 | an unacknowledged entry is due no earlier than the delay the pass returns exactly when its new timeout is below half a clock circle, or it waits and is not exactly half a circle off |
| `Retransmit.SoonestRange` | network/kcp/kcp.go:888-960 | whatever the entries, the delay a pass returns is positive and at most Interval |
| `Retransmit.SoonestAttained` | network/kcp/kcp.go:958-960 | the delay returned is Interval or exactly the time to some entry's resend |
| `Retransmit.DueLaterIff` | network/kcp/kcp.go:900-958 | exactly when a pass leaves an unacknowledged entry due in the future, in 32-bit time |
| `Retransmit.HalfCircleIsNotComparable` | network/kcp/kcp.go:922-960 | exactly half a circle before its resend time an entry is neither due nor ahead |
| `FlushLaws.FlushThreshold` | network/kcp/kcp.go:855-881 | after a whole flush Ssthresh is half of what was in flight, half of the window, or as before; it is 2 or more exactly when that was 4 or more |
| `FlushLaws.LossLeavesNoThreshold` | network/kcp/kcp.go:855-868 | a flush of one lost segment leaves Ssthresh at 0, below its floor |
| `FlushLaws.HalfCircleIsUnscheduled` | network/kcp/kcp.go:922-960 | a flush exactly half a circle before a segment's resend time neither sends it nor leaves it due in the future |
| `KcpSpec.ProcessAllConcat` | network/kcp/kcp.go:552-628 | processing a datagram's segments is processing them in parts, one after the other |
| `KcpInvariant.NewInv` | network/kcp/kcp.go:163-181 | a new endpoint satisfies the endpoint invariant |
| `KcpInvariant.SendInv` | network/kcp/kcp.go:295-357 | `Send` keeps the endpoint invariant |
| `KcpInvariant.InputInv` | network/kcp/kcp.go:537-648 | whatever bytes arrive, SndBuf stays consecutive from SndUna with at most 65535 entries, RcvBuf ordered inside its window, the newest entry unskipped |
| `KcpInvariant.FlushInv` | network/kcp/kcp.go:718-853 | a flush keeps the endpoint invariant |
| `KcpInvariant.UpdateInv` | network/kcp/kcp.go:966-992 | `Update` keeps the endpoint invariant |
| `KcpInvariant.FlushEmits` | network/kcp/kcp.go:718-791 | a flush emits the filtered acknowledgements, then the probes, then the new and resent segments |
| `KcpInvariant.FlushRoundTrip` | network/kcp/kcp.go:552-628 | the datagrams of one flush are within Mtu, parse completely, and parsed in turn give exactly what was emitted |
| `KcpInvariant.OutgoingEntry` | network/kcp/kcp.go:936-951 | an outgoing data segment carries the number of its place in the window and fits one datagram |
| `KcpEngine.KCP.constructor` | network/kcp/kcp.go:163-181 | a new endpoint in its initial state with a buffer of Mtu bytes |
| `KcpEngine.KCP.ReserveBytes` | network/kcp/kcp.go:196-205 | header room is reserved exactly when it leaves a positive segment size; the settings stay usable exactly when that size fits a pooled buffer |
| `KcpEngine.KCP.SetMtu` | network/kcp/kcp.go:1041-1061 | `SetMtu` from any state: refused below 50 or when the reserved bytes do not fit the old Mtu, else a new buffer and segment size |
| `Settings.MtuUsable` | network/kcp/kcp.go:1041-1061 | an accepted Mtu leaves usable settings exactly when it has room for the header and the reserved bytes, and at most 1500 bytes besides |
| `Settings.LocksItself` | network/kcp/kcp.go:1046-1048 | an accepted Mtu makes `SetMtu` refuse every later one exactly when it has no room besides the header and the reserved bytes |
| `Settings.SendsAllocate` | network/kcp/kcp.go:183-184 | the settings after an accepted Mtu are usable exactly when there is room and every `Send` can be given its buffers |
| `Settings.LockedForGood` | network/kcp/kcp.go:1046-1048 | from then on every sequence of attempts is refused, and only then is every attempt refused |
| `Settings.SixtyIsAccepted` | network/kcp/kcp.go:196-205 | with 100 bytes reserved an Mtu of 60 is accepted, Mss wraps to 2^32 - 64, and 1400 is refused afterwards |
| `Settings.ThreeThousandIsAccepted` | network/kcp/kcp.go:1041-1061 | an Mtu of 3000 is accepted, and 2000 bytes then make one piece of 2000, longer than a pooled buffer |
| `KcpEngine.KCP.NoDelay` | network/kcp/kcp.go:1063-1092 | which settings change, with the interval clamped to [10, 5000] |
| `KcpEngine.KCP.Send` | network/kcp/kcp.go:295-357 | the loop cuts the write as Fragmentation says, with every slice of a pooled buffer within its length |
| `KcpEngine.KCP.PeekSize` | network/kcp/kcp.go:207-231 | the scan finds the size of the first message, or -1 |
| `KcpEngine.KCP.Recv` | network/kcp/kcp.go:233-293 | `Recv` returns the message or a code, drains the buffer, and asks to tell the window as ReceiveWindow.Recv says (FlushEffects.RecvAnnounces) |
| `KcpEngine.KCP.UpdateAck` | network/kcp/kcp.go:370-392 | computes RoundTrip.UpdateAck |
| `KcpEngine.KCP.ParseAck` | network/kcp/kcp.go:403-421 | the scan marks exactly the entry numbered `sn`, if it is outstanding |
| `KcpEngine.KCP.ParseFastack` | network/kcp/kcp.go:423-436 | the scan counts a skip for exactly the older entries before `sn` |
| `KcpEngine.KCP.ParseUna` | network/kcp/kcp.go:438-456 | the scan drops exactly the clamped prefix and returns its length |
| `KcpEngine.KCP.ParseData` | network/kcp/kcp.go:462-521 | the scan from the end, the copy into a pooled buffer, the insertion and the draining compute ReceiveWindow.ParseData; the result says whether the segment was new |
| `KcpEngine.KCP.OpenWindow` | network/kcp/kcp.go:658-687 | computes Congestion.Grow |
| `KcpEngine.KCP.Noc` | network/kcp/kcp.go:855-881 | computes Congestion.Shrink, with the segments then in flight |
| `KcpEngine.KCP.MakeSpace` | network/kcp/kcp.go:697-707 | hands a datagram out exactly when the next segment would not fit, and starts over behind the reserved bytes |
| `KcpEngine.KCP.Write` | network/kcp/kcp.go:936-951 | header and payload are written behind what is already in the buffer, never past Mtu |
| `KcpEngine.KCP.PutAcks` | network/kcp/kcp.go:726-738 | the acknowledgement loop writes what the filter keeps and asks for room in any case |
| `KcpEngine.KCP.ProbeTimer` | network/kcp/kcp.go:746-768 | computes KcpSpec.NextProbe |
| `KcpEngine.KCP.Admit` | network/kcp/kcp.go:800-818 | the loop moves exactly the segments the window has room for and numbers them on |
| `KcpEngine.KCP.Reschedule` | network/kcp/kcp.go:896-942 | the switch on one entry computes Retransmit.Touch and Classify |
| `KcpEngine.KCP.RangeRef` | network/kcp/kcp.go:883-964 | the pass over SndBuf: entries, counts, delay, dead link and bytes written |
| `KcpEngine.KCP.Segs` | network/kcp/kcp.go:793-853 | filling the window, the pass, the last datagram and the congestion window |
| `KcpEngine.KCP.Flush` | network/kcp/kcp.go:718-791 | a flush computes KcpSpec.Flush and hands `Output` exactly its datagrams behind the reserved bytes |
| `KcpEngine.KCP.Settings` | network/kcp/kcp.go:523-535 | `settings` and `shrinkBuf`: the remote window and the clamped prefix |
| `KcpEngine.KCP.Consume` | network/kcp/kcp.go:552-628 | the loop of `Input` with its four ways to end |
| `KcpEngine.ConsumedIs` | network/kcp/kcp.go:552-628 | taking segments off the front one at a time is parsing the datagram and processing its segments |
| `KcpEngine.KCP.Input` | network/kcp/kcp.go:537-648 | `Input` returns the code, reaches the state and hands out the datagrams of KcpSpec.Input, for every datagram whose stored segments fit pooled buffers |
| `KcpEngine.ShortIsHeld` | network/kcp/kcp.go:489 | what at most 1524 bytes carry always fits; so does what the socket reads |
| `KcpEngine.LongIsNot` | network/kcp/kcp.go:489 | an expected segment of more than 1500 bytes does not fit: the copy panics |
| `KcpEngine.KCP.Update` | network/kcp/kcp.go:966-992 | `Update` reaches the state and hands out the datagrams of KcpSpec.Update |
| `KcpEngine.KCP.Check` | network/kcp/kcp.go:994-1039 | computes KcpSpec.Check |
| `KcpLaws.NewCongested` | network/kcp/kcp.go:163-181 | the default settings leave the congestion arithmetic its headroom |
| `KcpLaws.OpenCongested` | network/kcp/kcp.go:635-637 | the growth step on a whole endpoint raises Cwnd by at most 3 and keeps it matched with Incr (the flush that may follow is in InputLaws) |
| `KcpLaws.PushCongested` | network/kcp/kcp.go:850-881 | no flush makes the congestion arithmetic wrap, and Cwnd stays at least 1 |
| `KcpLaws.InputCongested` | network/kcp/kcp.go:537-648 | no datagram, honest or not, makes the congestion arithmetic wrap |
| `KcpLaws.RunKeeps` | network/kcp/kcp.go:131-1039 | in every state of every run the queue invariants hold and the congestion window has not wrapped |
| `KcpLaws.AdvertisedWindow` | network/kcp/kcp.go:689-695 | the advertised window is the free room exactly when that fits 16 bits |
| `KcpLaws.FullSizeLooksClosed` | network/kcp/kcp.go:689-695 | 65536 free places are advertised as none |
| `KcpLaws.ProbeBacksOff` | network/kcp/kcp.go:746-768 | while the remote window is closed probes back off from 7 s to 120 s by halves, asking only on expiry; an open window stops them |
| `KcpLaws.LastSegmentDecides` | network/kcp/kcp.go:580-641 | only the last segment of a datagram decides whether the window slid |
| `KcpLaws.SameUnaNeverSlides` | network/kcp/kcp.go:580-641 | a datagram ending in two segments with the same Una never counts as sliding the window |
| `InputLaws.LoopShifts` | network/kcp/kcp.go:552-628 | the loop of `Input` drops a prefix of SndBuf and only adds marks; it slides only if that prefix is not empty |
| `InputLaws.AnswersToTheLast` | network/kcp/kcp.go:537-648 | `Input` answers with a full flush exactly when the last segment of the datagram moves SndUna; its whole result in each case |
| `InputLaws.TwinsDrawNoFlush` | network/kcp/kcp.go:580-641 | a datagram of two equal acknowledgements sends nothing, whatever it acknowledges |
| `InputLaws.ProgressWithoutAnswer` | network/kcp/kcp.go:580-641 | the same progress of SndUna draws segments from one acknowledgement and nothing from two |
| `InputLaws.FlushWindow` | network/kcp/kcp.go:855-881 | the congestion window a full flush leaves, in every case |
| `InputLaws.CwndRise` | network/kcp/kcp.go:537-648 | one `Input` raises Cwnd by at most 3 exactly unless it answers with a flush that counts a fast or early retransmission and inflight/2 + resent (mod 2^32) exceeds the old Cwnd + 3 |
| `InputLaws.CwndWithinPeer` | network/kcp/kcp.go:537-648 | exactly when Cwnd is within RmtWnd after one `Input` |
| `InputLaws.RiseToNine` | network/kcp/kcp.go:870-874 | one acknowledgement of one of 21 segments takes Cwnd from 1 to 9 with default settings |
| `InputEffects.InputSamples` | network/kcp/kcp.go:584-656 | a used-up regular datagram with an acknowledgement smooths the age of its last one into RxSrtt, RxRttvar and RxRto, unless it is from the future |
| `InputEffects.InputSamplesNothing` | network/kcp/kcp.go:631-633 | any other datagram leaves the estimate alone |
| `InputEffects.SampledExactly` | network/kcp/kcp.go:370-392 | up to 2^29 the smoothing is that of unbounded integers, written out |
| `InputEffects.PeerWindow` | network/kcp/kcp.go:523-535 | RmtWnd becomes the window of the last segment of a regular datagram and stays otherwise |
| `InputEffects.QuestionNoted` | network/kcp/kcp.go:616-617 | a question for the window is noted exactly when the datagram holds one, and nothing else of the probe changes |
| `InputEffects.AckTouches` | network/kcp/kcp.go:403-436 | one acknowledgement marks its entry and counts a skip for exactly the entries before it that were not sent later than it says; every other field is kept |
| `InputEffects.OthersTouchNothing` | network/kcp/kcp.go:583-625 | no other command touches what is in flight |
| `InputEffects.PushIsKept` | network/kcp/kcp.go:591-610 | a data segment with a new number is kept, with its number and payload; any other leaves the receiver alone |
| `InputEffects.DataIsOwed` | network/kcp/kcp.go:591-596 | a data segment before the end of the window is owed an acknowledgement with its number and time |
| `InputEffects.LoopOwes` | network/kcp/kcp.go:591-596 | nothing else is |
| `InputEffects.InputGrows` | network/kcp/kcp.go:635-637 | an `Input` without a full flush grows the window by exactly one step if SndUna moved on, and leaves it otherwise |
| `InputEffects.InputGrowsAndFlushes` | network/kcp/kcp.go:635-642 | one with a full flush grows it by that step first, and keeps that if the flush finds nothing lost or skipped |
| `FlushEffects.FlushAdmits` | network/kcp/kcp.go:793-818 | a full flush takes as many queued segments as the smallest of SndWnd, RmtWnd and Cwnd allows beyond those in flight |
| `FlushEffects.EntryAfterFlush` | network/kcp/kcp.go:892-942 | what becomes of every segment in flight: first, fast and early transmissions get RxRto, a lost one its own timeout plus RxRto or half of it, and Resendts is now plus that; waiting and acknowledged ones stay |
| `FlushEffects.NewEntryAfterFlush` | network/kcp/kcp.go:802-818 | a segment taken from the queue gets the next number and goes out with RxRto |
| `FlushEffects.FlushWrites` | network/kcp/kcp.go:718-791 | everything a flush writes, in order and field by field: the acknowledgements owed, question, answer, and each segment with one more transmission |
| `FlushEffects.FlushPacksTightly` | network/kcp/kcp.go:697-738 | a whole flush hands out no datagram that could have taken the next segment as well |
| `FlushEffects.FlushDeclaresDead` | network/kcp/kcp.go:947-949 | State becomes 0xffffffff exactly when a transmission of the flush reaches DeadLink |
| `FlushEffects.FlushSetsTimer` | network/kcp/kcp.go:745-768 | the probe timer and its back-off after a full flush |
| `FlushEffects.FlushLeaves` | network/kcp/kcp.go:718-791 | no acknowledgement stays owed and no question or answer pending; the receive side and the estimate are kept |
| `FlushEffects.WindowAfterFlush` | network/kcp/kcp.go:855-881 | Ssthresh, Cwnd and Incr after a full flush in each case |
| `FlushEffects.FlushTells` | network/kcp/kcp.go:778-784 | a full flush tells the window exactly when it was asked to |
| `FlushEffects.RecvAnnounces` | network/kcp/kcp.go:245-247 | the flush after a `Recv` tells the window exactly when it was asked to before or the `Recv` took a message from a full queue and left room |
| `FlushEffects.RecvTakes` | network/kcp/kcp.go:233-241 | `Recv` takes a message exactly when there is one and it fits, and changes nothing otherwise |
| `ClockLaws.UpdateKeepsGrid` | network/kcp/kcp.go:966-992 | `Update` flushes on the first call, when ten seconds off, and when TSFlush has come; TSFlush moves on by Interval, or to Interval after now if that has passed |
| `ClockLaws.ChecksNow` | network/kcp/kcp.go:994-1020 | `Check` says now when the flush time or a resend time has come |
| `ClockLaws.ChecksFirst` | network/kcp/kcp.go:1014-1038 | otherwise exactly the first of the flush time, the resend times and one Interval from now |
| `ClockLaws.NothingDueBetween` | network/kcp/udp.go:541-556 | until the flush that `update` schedules no segment awaiting an acknowledgement comes due |
| `KcpLaws.PushTimed` | network/kcp/kcp.go:900-942 | a flush keeps Rto <= 60000 * Xmit for every entry |
| `KcpLaws.RunTimed` | network/kcp/kcp.go:883-964 | Rto <= 60000 * Xmit in every state of every run in which no entry has been sent 2^32-1 times |
| `KcpLaws.FlushDelay` | network/kcp/kcp.go:718-791 | the delay a flush returns is positive and at most Interval |
| `KcpLaws.FlushSends` | network/kcp/kcp.go:883-964 | after a full flush every unacknowledged entry has Xmit >= 1 |
| `KcpLaws.FlushSchedulesIff` | network/kcp/kcp.go:883-964 | for any timeouts: every unacknowledged entry has Resendts - now >= r exactly when every lost one got a timeout below half a circle and no waiting one is exactly half a circle off |
| `KcpLaws.FlushSchedules` | network/kcp/kcp.go:883-964 | up to 35790 transmissions of a segment: after a full flush every unacknowledged entry has Resendts - now >= r for the returned r, exactly when none left waiting is half a clock circle off |
| `KcpLaws.AckedNeverResent` | network/kcp/kcp.go:896-898 | one flush leaves an acknowledged entry as it is and does not encode its number |
| `AckedRuns.CallFinished` | network/kcp/kcp.go:131-1039 | no call of any kind encodes an acknowledged number, and it stays marked or leaves the buffer |
| `AckedRuns.AckedStays` | network/kcp/kcp.go:403-421 | in every run an acknowledged number stays acknowledged for as long as it is in SndBuf, and no call encodes it again |
| `KcpLaws.DeadLinkIs` | network/kcp/kcp.go:953-955 | the link is declared dead exactly when a transmission reaches DeadLink |
| `KcpLaws.UpdateSchedules` | network/kcp/kcp.go:966-992 | after a flush by `Update`, now < TSFlush <= now + Interval in modular time |
| `KcpLaws.CheckNeverOversleeps` | network/kcp/kcp.go:994-1039 | the time `Check` returns is between now and now + Interval, and at no earlier moment would `Update` flush |
| `AckCompression.FilterLosesNothing` | network/kcp/kcp.go:729-736 | the filtered acknowledgements leave the sender in the same state as one acknowledgement per entry of Acklist |
| `AckCompression.OldOutside` | network/kcp/kcp.go:403-436 | a dropped acknowledgement would have been outside the window anyway |
| `AckCompression.DroppingIsHarmless` | network/kcp/kcp.go:729-736 | dropping an acknowledgement below Una is harmless to every possible sender exactly when it is at most 2^31 - 65535 behind |
| `AckCompression.TooOldIsLost` | network/kcp/kcp.go:729-736 | without the age limit the filter can lose an acknowledgement |
| `Delivery.WindowExact` | network/kcp/kcp.go:464-467 | the receive window test on 32-bit numbers is the test on unbounded numbers |
| `Delivery.AckExact` | network/kcp/kcp.go:403-420 | an acknowledged 32-bit number is found in the window only where it really is |
| `Delivery.StaleUnaDropsEverything` | network/kcp/kcp.go:438-456 | an Una just over half a circle old drops everything in flight, so the age of datagrams must be bounded |
| `Delivery.StalePushIsAccepted` | network/kcp/kcp.go:462-467 | a data segment a full circle old is taken for the next one |
| `Delivery.PushArrives` | network/kcp/kcp.go:591-610 | an arriving data segment, however late or often, keeps what was made readable equal to the first RcvNxt fragments sent |
| `Delivery.NextNumberAdvances` | network/kcp/kcp.go:502-518 | with room in RcvQueue the next expected segment is made readable at once |
| `DeliverySteps.UnaArrives` | network/kcp/kcp.go:438-456 | a cumulative acknowledgement drops only what the receiver had made readable |
| `DeliverySteps.AckArrives` | network/kcp/kcp.go:403-421 | a selective acknowledgement marks only a segment that has arrived |
| `DeliverySteps.SendKeepsLink` | network/kcp/kcp.go:334-354 | an accepted message extends the log of fragments and disturbs nothing under way |
| `DeliverySteps.FillKeepsLink` | network/kcp/kcp.go:793-818 | numbering new segments keeps every entry the logged fragment of its number |
| `DeliverySteps.RecvKeepsLink` | network/kcp/kcp.go:251-286 | reading makes readable only the next stretch of the log |
| `DeliverySteps.AckEmitted` | network/kcp/kcp.go:729-736 | every acknowledgement put on the wire is of a segment that has arrived |
| `DeliverySteps.PushEmitted` | network/kcp/kcp.go:936-951 | every data segment put on the wire is the logged fragment of its number |
| `Endpoints.StepAllFollows` | network/kcp/kcp.go:552-628 | the history carried along follows the loop of `Input` exactly |
| `Endpoints.StepAllLinks` | network/kcp/kcp.go:552-628 | a whole datagram of the peer keeps both directions, whatever mix of segments it holds |
| `Endpoints.FlushingCarried` | network/kcp/kcp.go:718-853 | every datagram of a flush parses into segments that are true of the endpoint |
| `Network.LocalFollowsSpec` | network/kcp/kcp.go:233-992 | every event at an endpoint is exactly the engine call it stands for |
| `Network.DeliverMoves` | network/kcp/kcp.go:537-648 | delivering any timely datagram keeps both directions, including the answering flush |
| `Network.ReadTakes` | network/kcp/kcp.go:233-264 | `Recv` returns the next unread message of the peer and takes exactly its fragments |
| `Network.ReadMessages` | network/kcp/kcp.go:233-264 | reading keeps what was read a prefix of what was written |
| `Network.NextKeeps` | network/kcp/kcp.go:233-992 | every step of either endpoint and of the network keeps the invariant |
| `Network.ExactlyOnceInOrder` | network/kcp/kcp.go:233-818 | in every reachable state, in both directions: messages read are a prefix of messages written, fragments made readable are the first RcvNxt sent, once and in order, and nothing is given up before it has arrived |
| `Progress.OneMessageGetsThrough` | network/kcp/kcp.go:233-964 | with a window that is open and no loss, a one-segment message is there after one write, flush, delivery and read |
| `Progress.UnopenedGetsThrough` | network/kcp/kcp.go:855-881 | with a congestion window of 0 it takes one flush more |
| `Progress.NewGetsThrough` | network/kcp/kcp.go:163-181 | so a message gets through between two endpoints as `NewKCP` builds them |
| `Streams.SplitFlattens` | network/kcp/udp.go:226-239 | the messages a write becomes add up to the write |
| `Streams.SplitPieces` | network/kcp/udp.go:226-239 | every message but the last fills exactly one segment, none is larger, and only an empty write makes an empty message |
| `Streams.ReadConserves` | network/kcp/udp.go:152-186 | what was left over and taken is returned as far as the buffer goes, and the rest left over; `Read` waits exactly when there is neither |
| `Streams.ReadProgress` | network/kcp/udp.go:156-186 | `Read` returns bytes exactly when some are left over or the head message is complete and not empty |
| `Streams.EmptyMessageBlocks` | network/kcp/udp.go:165-186 | a message of no bytes at the head is never taken off, so no sequence of reads returns anything |
| `Streams.MergedWriteQueuesEmpty` | network/kcp/kcp.go:306-354 | a stream write that fits the last segment still queues an empty one |
| `EmptyMessages.MergedWritesBlock` | network/kcp/kcp.go:295-521 | two stream writes that share a segment, flushed and delivered: the reader gets both, and then every read blocks, whatever arrives after |
| `SessionEngine.UDPSession.Read` | network/kcp/udp.go:152-186 | `Read` fills the caller's buffer from the leftover or the next message and keeps the rest |
| `SessionEngine.UDPSession.SendPieces` | network/kcp/udp.go:229-238 | the splitting loop sends exactly the messages of Streams.Split |
| `SessionEngine.UDPSession.WaitSnd` | network/kcp/udp.go:225-251 | queues all buffers, returns their total length, and flushes exactly when a window is full or writes are not delayed; what `Output` gets |
| `SessionEngine.UDPSession.Update` | network/kcp/udp.go:541-556 | `update` makes a full flush, and runs again after the delay that returns |
| `SessionEngine.UDPSession.Ranger` | network/kcp/udp.go:616-630 | a recovered shard is handed over stripped, exactly when its size field is possible; what `Output` gets |
| `SessionEngine.UDPSession.RangeAll` | network/kcp/udp.go:651-660 | all recovered shards in turn, and everything `Output` gets |
| `SessionEngine.UDPSession.DecodePacket` | network/kcp/udp.go:640-644 | the packet goes through the decoder, or through a new one of one and one if there is none |
| `SessionEngine.UDPSession.BiggerThan` | network/kcp/udp.go:632-660 | for any packet the socket can read and any decoder: the packet goes through the decoder, which may change its sizes; its own bytes reach the engine first, then everything recovered; what `Output` gets |
| `SessionEngine.UDPSession.SetMtu` | network/kcp/udp.go:403-412 | refuses exactly what is longer than a pooled buffer; otherwise answers yes, also when the engine refused |
| `ByteStreams.ReadStreamed` | network/kcp/udp.go:152-186 | bytes returned plus leftover stay the concatenation of the messages read |
| `ByteStreams.WriteSound` | network/kcp/udp.go:225-239 | bytes accepted stay the concatenation of the messages written, and delivery is kept |
| `ByteStreams.WriteAllFollows` | network/kcp/udp.go:225-239 | the engine below makes exactly the calls of `WaitSnd` |
| `ByteStreams.ReadFollows` | network/kcp/udp.go:152-186 | the engine below makes exactly the call of `Read` |
| `ByteStreams.BytesArriveInOrder` | network/kcp/udp.go:152-251 | in every reachable state the bytes returned by `Read`, then its leftover, are a prefix of the bytes the other side accepted |
| `FecPackets.RangerInverts` | network/kcp/udp.go:616-630 | padding is stripped exactly |
| `FecPackets.PacketLayout` | network/kcp/fec.go:379-391 | number, type and size field stand at bytes 0, 4 and 6, the least significant byte first |
| `FecCodec.SumLawful` | network/kcp/fec.go:43 | the one-parity code satisfies the erasure-code law for every number of data shards |
| `FecCodec.CopyLawful` | network/kcp/fec.go:43 | a code of copies satisfies it for one data shard and every number of parity shards |
| `FecEncoding.Paws` | network/kcp/fec.go:313 | the wrap-around point is the largest multiple of the group size below 2^32 |
| `FecEncoding.EncodeData` | network/kcp/fec.go:337-384 | a data packet's number lies in the data part of its group, and parity comes only with the last one |
| `FecEncoding.EncodeParity` | network/kcp/fec.go:364-391 | parity packets are numbered on in the parity part, below the wrap-around point |
| `FecEncoding.EncodeKeepsAlignment` | network/kcp/fec.go:352-374 | next % shardSize == shardCount < dataShards and next < paws are kept exactly when the erasure code succeeds |
| `FecEncoderEngine.FecEncoder.New` | network/kcp/fec.go:304-335 | no encoder for non-positive counts or a refusing code, else an aligned one |
| `FecEncoderEngine.FecEncoder.MarkData` | network/kcp/fec.go:337-339 | header and size field are written in place, the rest of the packet kept |
| `FecEncoderEngine.FecEncoder.PadRows` | network/kcp/fec.go:352-362 | rows are padded in place to the longest, stale bytes overwritten |
| `FecEncoderEngine.FecEncoder.Encode` | network/kcp/fec.go:337-377 | `encode` computes FecEncoding.Encode on the packet and the cached rows |
| `FecDecoding.InsertSorted` | network/kcp/fec.go:181-206 | a new packet goes to its place: the queue stays strictly increasing without repetition |
| `FecDecoding.WindowHoldsGroup` | network/kcp/fec.go:208-225 | the bounded window holds every stored shard of the packet's group, also when it is cut off at 0 |
| `FecDecoding.GroupStretch` | network/kcp/fec.go:80-101 | the group is one stretch of the queue |
| `FecDecoding.SplitMembers` | network/kcp/fec.go:103-128 | removing that stretch removes exactly the group |
| `FecDecoding.DecodeKeepsOrder` | network/kcp/fec.go:170-253 | for numbers within half a circle every call keeps the queue strictly increasing |
| `FecDecoding.WindowDecodeBounded` | network/kcp/fec.go:227-233 | with fixed group sizes, for packets with any numbers, the queue stays at most rxlimit long |
| `FecDecoding.ScanFinds` | network/kcp/fec.go:181-192 | a stored number is recognised exactly when nothing behind its last copy counts as older than it |
| `FecDecoding.WindowDecodeIsDecode` | network/kcp/fec.go:170-253 | while all numbers lie within half a circle, the scan and the bounded window do what the whole-queue function says |
| `FecDecoding.RepeatedRoundTheCircle` | network/kcp/fec.go:181-206 | beyond it a number can be stored twice: three data packets in data places, a third of the circle apart, then the first again |
| `FecDecoding.WindowDecodeAdds` | network/kcp/fec.go:194-206 | nothing enters the queue but the arriving packet |
| `AutoTuning.AutoTune.Sample` | network/kcp/aototune.go:14-16 | a packet's type is noted in place under its number |
| `AutoTuning.AutoTune.FindPeriod` | network/kcp/aototune.go:18-56 | the two loops compute AutoTuning.Period, for any table |
| `AutoTuning.PeriodIsRun` | network/kcp/aototune.go:18-56 | a positive period is the length of the run at the first edge, and there is none without such a run, over every table |
| `AutoTuning.PeriodsAre` | network/kcp/aototune.go:18-56 | whenever both periods are found in what one sender said they are its sizes; the data period exactly unless packet 0 was not heard before packet 1 |
| `AutoTuning.PeriodsFound` | network/kcp/aototune.go:14-56 | two groups' worth of packets under the first numbers of a lap suffice, in any order and whatever was heard before |
| `AutoTuning.FirstPacketLost` | network/kcp/aototune.go:18-56 | of groups of five and three, packets 1 to 8 without packet 0 give four and three |
| `FecTuning.AgreeingKeepSizes` | network/kcp/fec.go:134-178 | a packet whose type suits its place is decoded with the sizes as they are |
| `FecTuning.SizesAfter` | network/kcp/fec.go:134-168 | the sizes change exactly when the packet does not suit its place and the table suggests others, from 1 to 255, that have a code |
| `FecTuning.DroppedPacket` | network/kcp/fec.go:147-153 | a packet that does not suit its place, when there is no code for what the table suggests, changes the table only |
| `FecTuning.OnlyItsSizesAgree` | network/kcp/fec.go:137-145 | all packets of a sender suit their places exactly when the decoder has the sender's sizes |
| `FecTuning.TableStaysTruthful` | network/kcp/fec.go:170-178 | a sender's packets leave only true entries in the table, also when they are dropped |
| `FecTuning.ChangesToSender` | network/kcp/fec.go:147-164 | a decoder that changes its sizes on a sender's packets takes the sender's, exactly unless packet 0 was not heard before packet 1 |
| `FecTuning.TunesToSender` | network/kcp/fec.go:134-168 | once two groups' worth of a lap was heard the first packet out of place gives a decoder the sender's sizes |
| `FecTuning.LostFirstMistunes` | network/kcp/fec.go:147-164 | with packet 0 of groups of five and three lost a decoder changes to four and three |
| `FecTuning.TunedBounded` | network/kcp/fec.go:227-233 | no packet makes the queue grow beyond the limit for the sizes it leaves |
| `FecTuning.QueueAfter` | network/kcp/fec.go:227-253 | a stored packet leaves the queue of its search, less the first packet if that is beyond the limit, less exactly the packets at the front older than a minute |
| `FecTuning.QueueKept` | network/kcp/fec.go:176-192 | a packet that is dropped or repeated changes nothing |
| `FecTuning.StoresOne` | network/kcp/fec.go:227-233 | when no group completes and nothing expires, the queue is within the limit afterwards exactly when it was before |
| `FecTuning.RunBounded` | network/kcp/fec.go:227-233 | over every run the queue is bounded by three times the largest group size so far |
| `FecTuning.RunBeyondTheLimit` | network/kcp/fec.go:134-253 | eleven packets take a new decoder of five and three to one and one with seven packets stored, beyond its limit of six |
| `FecTuning.StoredTwice` | network/kcp/fec.go:181-206 | four packets of 24 bytes, all in their places, after which a new decoder stores one of them twice |
| `FecTuning.RecoveredFits` | network/kcp/fec.go:107-126 | what is recovered is no longer than the stored bodies, so it fits pooled buffers |
| `FecDecoderEngine.FecDecoder.FindPlace` | network/kcp/fec.go:181-192 | the scan from the end, for any numbers |
| `FecDecoderEngine.FecDecoder.ShoulTune` | network/kcp/fec.go:134-168 | `shoulTune` drops the packet, changes the sizes or leaves them as FecTuning.Tuned says |
| `FecDecoderEngine.FecDecoder.Gather` | network/kcp/fec.go:80-101 | the search loop over the window collects, counts and places exactly what FecDecoding.Gathered says, for any numbers |
| `FecDecoderEngine.FecDecoder.FecNestif` | network/kcp/fec.go:69-132 | recovers what is missing and frees as many packets as were collected, from the first on |
| `FecDecoderEngine.FecDecoder.FreeRange` | network/kcp/fec.go:255-267 | exactly the given range leaves the queue |
| `FecDecoderEngine.FecDecoder.Expire` | network/kcp/fec.go:235-250 | the loop drops the leading packets FecDecoding.Expired counts (FecTuning.QueueAfter says which) |
| `FecDecoderEngine.FecDecoder.Decode` | network/kcp/fec.go:170-253 | `decode` computes FecTuning.TunedDecode for every decoder and every packet that fits a pooled buffer if it is stored |
| `FecRecovery.SlotsCount` | network/kcp/fec.go:86-100 | the shard table holds every member once, data members in the data places |
| `FecRecovery.PaddingIsRight` | network/kcp/fec.go:97-114 | a group that lacks a data shard but has enough shards holds a parity shard, so maxlen is the encoder's shard length |
| `FecRecovery.GroupRecovers` | network/kcp/fec.go:107-126 | from any dataShards of its shards exactly the missing contents of a group are recovered |
| `FecDelivery.ArriveGood` | network/kcp/udp.go:610-660 | every arrival keeps the queue ordered and bounded and hands `kcp.Input` only contents of the sender |
| `FecDelivery.ArriveHandsGroup` | network/kcp/udp.go:632-660 | when the stored shards of a group reach dataShards, every content of the group has been handed over |
| `FecDelivery.ArrivalFrees` | network/kcp/fec.go:103-128 | besides a completed group only the front of the queue is cut |
| `FecDelivery.FreedIs` | network/kcp/fec.go:103-128 | a group with enough shards leaves the queue entirely, and nothing else with it |
| `FecDelivery.EveryGroupRecovers` | network/kcp/fec.go:69-253 | the same in every run, in any order, with repetitions and interleaved groups |
| `FecDelivery.LayerIsANetwork` | network/kcp/udp.go:632-660 | what reaches `kcp.Input` through the layer is among the datagrams the peer emitted (that this suffices is Layered) |
| `FecDelivery.ReceptionStaysTuned` | network/kcp/fec.go:134-178 | over every reception a decoder that tunes itself, with the sender's sizes, keeps them and goes through the states above |
| `FecStream.RunStaysAligned` | network/kcp/fec.go:337-391 | over unbounded runs every packet's type agrees with its number as the decoder checks it, and no group straddles the wrap |
| `FecStream.EncoderFillsBook` | network/kcp/fec.go:337-391 | everything a new encoder ever emits is the packet its number names, across the wrap-around |
| `FecStream.PlacedIsSent` | network/kcp/fec.go:134-145 | what an encoder emits is what a decoder that tunes itself takes for a sender's |
| `Layered.ContentOfBook` | network/kcp/fec.go:337-377 | the groups of an encoder hold exactly what it was fed |
| `Layered.FreshGrows` | network/kcp/fec.go:337-391 | a packet that is within the span stays a packet of the sender, and within it, as the sender goes on |
| `Layered.DeliverAllKeeps` | network/kcp/udp.go:632-660 | the inputs of one arrival are timely deliveries, as no counter moves by more than a window meanwhile |
| `Layered.NextStackKeeps` | network/kcp/udp.go:515-715 | every engine call, every datagram fed to an encoder and every arriving packet keeps the invariant of the whole stack |
| `Layered.ArrivalStaysTuned` | network/kcp/fec.go:134-178 | in the stack a decoder that tunes itself does what one with fixed sizes does, whatever it has heard |
| `Layered.ExactlyOnceThroughTheLayer` | network/kcp/udp.go:515-715 | exactly-once in-order delivery in both directions through the correction layer, in every state of every run |
| `TimedHeap.RootIsMin` | network/kcp/timesched.go:17-21 | in heap order the first task is due first |
| `TimedHeap.TimedFuncHeap.Push` | network/kcp/timesched.go:17-22 | pushing keeps heap order and adds exactly the task |
| `TimedHeap.TimedFuncHeap.Pop` | network/kcp/timesched.go:23-31 | popping takes the earliest task and keeps heap order and the rest |
| `TimedSched.WorkerStepOk` | network/kcp/timesched.go:59-98 | every step of a worker keeps its timer and channel in step with its heap |
| `TimedSched.WorkerStepHolds` | network/kcp/timesched.go:67-91 | a worker loses no task and runs one only after it is due |
| `TimedSched.DrainNeverBlocks` | network/kcp/timesched.go:73-76 | `<-timer.C` while re-arming never blocks |
| `TimedSched.DueTaskRuns` | network/kcp/timesched.go:81-87 | a waiting worker whose first task is due and whose timer has run out can run it in three steps |
| `TimedSched.TimersInTime` | network/kcp/timesched.go:67-91 | over every run: no timer goes off before its task is due, or later than the time a worker takes from reading the clock to setting the timer |
| `TimedSched.NextOk` | network/kcp/timesched.go:59-151 | every step of every goroutine keeps the invariant |
| `TimedSched.SchedulerKeepsTasks` | network/kcp/timesched.go:33-149 | until `Close`: tasks put are exactly those listed, in transit, in heaps and executed; none early or twice; a non-empty list has a wake-up coming, a waiting worker with tasks a timer or a fire |
| `BufferPool.NextOwns` | network/kcp/kcp.go:183-194 | every operation keeps each buffer in exactly one place |
| `BufferPool.BuffersHaveOneOwner` | network/kcp/kcp.go:1110-1135 | in every reachable state a buffer is in the pool once, owned by one live segment, packet or shard, or left behind, so none is returned twice |
| `BufferPool.Slice.RemoveFront` | network/kcp/kcp.go:1110-1118 | both branches, moving down in place or moving the start, drop exactly the front |
| `BufferPool.Slice.Append` | network/kcp/kcp.go:488-518 | appending in place or into a larger array adds exactly the element |
| `BufferPool.Slice.Insert` | network/kcp/kcp.go:493-498 | append, overlapping copy up and assignment insert the element in the middle |
| `PoolSimulation.CallSimulated` | network/kcp/kcp.go:131-1039 | every call of the engine is a sequence of buffer operations, whatever buffers `Get` hands out |
| `PoolSimulation.DecodeSimulated` | network/kcp/fec.go:134-267 | so is every packet given to the decoder, dropped, stored or after a change of sizes |
| `PoolSimulation.RunSimulated` | network/kcp/kcp.go:131-1039 | over every run of an endpoint and every choice of the pool each queued, received or unacknowledged segment owns a buffer nobody else has, and an acknowledged one owns none |
| `PoolSimulation.SessionSimulated` | network/kcp/udp.go:632-660 | the same of engine and decoder on one pool, with the shards under way |
| `PoolSimulation.EveryHistoryIsPicked` | network/kcp/kcp.go:183-194 | every history of the pool is the work of some choice, so the two results leave none out |

## Left out

- KcpEngine.KCP.SetMtu: does not keep the endpoint invariant when segments are queued under a larger MTU, because the code does not re-cut them; it is stated for empty send queues.
- KcpEngine.KCP.ReserveBytes: the same, for header room reserved after something was queued.
- SessionEngine.UDPSession.BiggerThan: is stated for packets of at most 1500 bytes, which is what the socket reads, and for codes that do not make shards longer.
- FecTuning.TunesToSender: for groups of up to 129 packets, as the table holds 258; larger ones may never show two whole groups.
- FecDelivery.EveryGroupRecovers: for a decoder with the sender's sizes; what a decoder recovers while it is out of tune is not followed.
- Network.ExactlyOnceInOrder: assumes that fewer than 2^31 - 2^17 sequence numbers pass while a datagram is under way (older ones alias, see StaleUnaDropsEverything), message mode, and a fixed Mtu and RcvWnd; it is safety, not liveness (Progress shows loss-free exchanges).
- Layered.ExactlyOnceThroughTheLayer: assumes the same of the datagrams inside, less one window, and that the packet numbers in play lie within the span FecRecovery.SPAN.
- `WndSize`, `ReleaseTX` (its effect on buffers is in BufferPool) and stream-mode delivery: the code does not support clean claims there.
- The clock is an argument of each call and does not move within the call.
- What `Output` does with a datagram: the FEC encoder writes into the reserved bytes of the shared buffer, which the engine leaves alone.
- FecCodec.SumLawful: Reed-Solomon arithmetic is not modelled; an erasure-code law stands for it, and a one-parity code for any number of data shards meets it.
- FecCodec.CopyLawful: the same, by a code of copies for one data shard and any number of parity shards.
- `reedsolomon.New` is a parameter of the decoder; SNMP counters, entropy and option setters are left out.
- Sockets, read and write loops, deadlines, blocking in `Read` and `WriteBuffers`, listener and session maps.
- The standard library's heap is modelled by its sift loops; timers by when they may fire; `sync.Pool` by a multiset.
- PoolSimulation.SessionSimulated: the copies `output` queues for sending (udp.go:515-541) and the release of a whole session are not followed; a shard the erasure code reallocates counts as the buffer it was given.
- Everything outside `network/kcp`.
