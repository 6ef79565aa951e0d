# Embedder Trace: a model of the compact trace stream

This project models the trace stream of the Embedder tracing module from end to
end: the firmware emitter, the bytes it writes, and the host tools that rebuild
events, timestamps and losses from them.

- **Wire format** (`Bytes`, `Varint`, `Packets`). LEB128 deltas, length-prefixed
  packets, the sync packet, and the framing rule of the host tools.
- **Emitter** (`Emitter`). The firmware's globals and the calls that change them,
  as a class `Tracer`, each method tied to a function on its state. The clock and
  the sink are the environment: every call is given its clock readings, and how
  many bytes the sink has room for at each of its writes. A sink that always has
  room for all or nothing is the drop or block mode; any other room is the trim
  mode or ITM. A `Run` is the first preamble and then any calls in any
  environment. The history of writes (`Log`) is kept beside the counters, so that
  what the counters say can be compared with what happened.
- **Runs** (`Writes`, `Accounting`, `StreamShape`, `SyncSchedule`). Invariants of
  every run: what is written, where losses are counted, the recovery gate, when syncs
  are sent and how far apart they are, the anchoring of events.
- **Host tools** (`SyncSearch`, `CheckDecoder`, `TimeCompare`, `DropAnalysis`,
  `Resynchronisation`, `PacketReports`, `Metadata`, `Extraction`). Each decoding loop
  is a method over arbitrary bytes; what it returns is said about the frames it
  accepts, and then about packets, cut captures and damaged bytes.
- **End to end** (`Delivery`, `Timestamps`, `OverflowTimes`, `Calls`, `Captures`,
  `AnalyserClock`, `Verdict`, `Totals`, `Reassembly`). What the host makes of any run
  over an all-or-nothing sink: which events it reads and when, what it says was lost,
  what a capture that ends anywhere gives, the descriptor.
- **Control channel and ITM** (`Control`, `ItmSink`). The command recogniser
  against a naive scan, and the prefix-writing port.

Counters, timestamps and deltas are 32 bits wide and wrap, as in the firmware; the
host's timestamps are unbounded, as in Python. The or of a varint's digits is a
sum, because the digits do not overlap (the loop invariant `val < scale`).

## Where code and documentation, or an expectation, differ

The model follows the code. Each item names the lemma that states it.

- Overflow packets are said to carry the exact drop count
  (modules/embedder-trace/include/embedder/trace_internal.h:106-108). An event lost to a failed
  sync write is not in it: `Accounting.ReportsExactIffNoFailedSync`,
  `Accounting.FailedSyncIsNotReported`.
- The caller of a failed sync "must enter overflow state"
  (modules/embedder-trace/include/embedder/trace_transport.h:64-65). The preamble does not
  (modules/embedder-trace/src/sink_rtt.c:297-301): behind a sync that fell short the firmware
  is dropping if and only if an emit call wrote it or it was dropping before,
  `StreamShape.ShortSyncStartsDropping`; a preamble's failed sync leaves the normal state
  normal, `StreamShape.PreambleSyncFailureIsIgnored`. The recovery gate therefore leaves
  that sync out.
- That failed preamble sync also reads the clock without moving the delta anchor. So
  elapsed time is exact not when successive clock readings are less than 2^32 apart
  (`Timestamps.HiddenTurnIsMissed` is a run where they are, and the host's time is a
  turn short), but exactly when successive delivered ones are: `Timestamps.TrueElapsedTime`.
- The drop analyser's verdict is wrong exactly when no overflow packet came behind the
  first sync, and losses are either reported only before it or still pending while no
  health report tells of them, or told of by a health report while there are none:
  `Verdict.VerdictWrongIff`, with a run in `Verdict.EarlyDropsAreMissed`.
- The total it prints leaves out the overflow packets before the first sync and counts
  the drops of a recovery that failed on its sync once more: `Totals.ReportedTotal` says
  when it is the firmware's count, `Totals.FourPrintedForThree` is a run where it is not.
- The validator and the comparison tool do not look for a sync packet at the last
  position one fits at: `SyncSearch.FirstSyncMissesLast`.
- The comparison tool and the drop analyser read metadata chunks as events with a
  delta: `TimeCompare.DriftIsZeroIff`, `AnalyserClock.AnalyserTimesOnRun`.
- The host's time of an overflow packet is not the firmware's reading when time went
  into an event that was lost, and is so otherwise: `OverflowTimes.OverflowTimeIff`.
- Well-formed packets alone do not keep the sync pattern unique: an overflow packet and
  the packet behind it can spell it, in one way, `Delivery.OverflowHidesSyncIff` and
  `Delivery.OverflowHidesSync`. Before the first sync of a run they never do:
  `Delivery.HostFindsFirstSync`.
- An ITM timeout of zero is described as an immediate drop if the port is not ready
  (modules/embedder-trace/Kconfig:150-152). The code then drops if the port *is* ready, and writes
  to a busy one: `ItmSink.AllWritten`.

## Model

| member | source | states |
|---|---|---|
| Varint.EncodeInto | modules/embedder-trace/include/embedder/trace_internal.h:202-210 | the encoder's loop appends exactly the varint of the value at the cursor and returns the cursor past it, leaving what was before it alone |
| Varint.EncodeIsLeb128 | modules/embedder-trace/include/embedder/trace_internal.h:202-210 | the bytes are unsigned LEB128 (DWARF Version 5, section 7.6): base-128 digits of the value, continuation bit on all but the last byte |
| Varint.EncodeAtMost5 | modules/embedder-trace/include/embedder/trace_internal.h:134-135 | a 32-bit value takes one to five bytes |
| Varint.DecodeVarint | tools/rtt_ctf_drops.py:93-108 | the tools' loop reads value and length of the varint at any offset of any bytes, five bytes at most and never past the end |
| Varint.DecodeIsLeb128 | tools/rtt_ctf_drops.py:93-108 | what is decoded, terminated or not, is the LEB128 value of the bytes consumed |
| Varint.DecodeEncode | tools/rtt_ctf_check.py:149-164 | decoding an encoded 32-bit value gives it back, and its length, whatever follows |
| Varint.EncodeIsShortest | modules/embedder-trace/include/embedder/trace_internal.h:202-210 | no byte string the decoder reads completely as the value is shorter than the encoder's |
| Varint.EncodeIsPrefixFree | modules/embedder-trace/include/embedder/trace_internal.h:202-210 | no encoding is a proper prefix of another |
| Packets.LengthByte | modules/embedder-trace/include/embedder/trace_internal.h:288-324 | the one-byte length never wraps: it is the true packet size, between 4 and 255, and 15 for a sync |
| Packets.Layout | modules/embedder-trace/include/embedder/trace_internal.h:127-135 | every byte of each kind of packet, fields least significant byte first |
| Packets.PacketFrame | tools/rtt_ctf_check.py:306-317 | where a packet's bytes sit, the tools' frame test passes, length and id are the packet's, and the sync test succeeds exactly for a sync packet, with its timestamp and frequency |
| Packets.ReadEncode | tools/rtt_ctf_drops.py:203-247 | each kind of packet is read back field by field from the bytes the firmware writes for it |
| Packets.ConcatenationRoundTrip | tools/rtt_ctf_check.py:302-331 | any list of packets, concatenated, is framed and read back as the same list, with no framing error and no byte left over |
| SyncSearch.FindSyncScan | tools/rtt_ctf_drops.py:111-129 | the byte scan returns the least position at or after the start where a sync packet starts, or -1 |
| SyncSearch.FindSyncComplete | tools/rtt_ctf_drops.py:111-129 | -1 means exactly that no sync packet starts anywhere from there on |
| SyncSearch.FirstSyncScan | tools/rtt_ctf_check.py:276-284 | the validator's own scan for its first sync packet |
| SyncSearch.FirstSyncMissesLast | tools/rtt_ctf_check.py:278 | that scan agrees with the analyser's except that a first sync packet which is also the last 15 bytes is not seen |
| SyncSearch.LoneSyncIsMissed | tools/rtt_ctf_time_compare.py:111 | a capture of one sync packet: the analyser sees it, the other two tools do not |
| CheckDecoder.ValidateDataStream | tools/rtt_ctf_check.py:264-349 | the validator's loop over arbitrary bytes computes the counters, the bytes left over and the timestamp of the frames behind the first sync |
| CheckDecoder.CleanIff | tools/rtt_ctf_check.py:302-349 | for arbitrary bytes: bytes before the first sync, in frames and left over are all of them, and the validator finds no error if and only if none is left over and it has a name for every id |
| CheckDecoder.EventTable | tools/rtt_ctf_check.py:35-94 | the ids it has names for |
| CheckDecoder.CountsOfPackets | tools/rtt_ctf_check.py:312-328 | on packets its counts of syncs, chunks and unknown ids are those of the packets |
| CheckDecoder.ClockOfPackets | tools/rtt_ctf_check.py:313-322 | on concatenated packets the validator's clock is the packet-level clock: sync sets it, metadata leaves it, every other delta adds |
| TimeCompare.ParseEvents | tools/rtt_ctf_time_compare.py:107-164 | the comparison tool's loop computes event and sync counts and the first and last timestamp of the same frames |
| TimeCompare.DecodersRelated | tools/rtt_ctf_time_compare.py:107-164 | on arbitrary bytes both tools agree on sync position, events and syncs, and their timestamps differ by exactly the values read from 0x303 packets since the last sync, so they agree if and only if those are zero |
| TimeCompare.DecodersRelatedEverywhere | tools/rtt_ctf_time_compare.py:135-156 | the same after every single frame |
| TimeCompare.FirstIsSyncTime | tools/rtt_ctf_time_compare.py:142-153 | for arbitrary bytes the first timestamp noted is the one in the first sync packet |
| TimeCompare.ChunkReadAsDelta | tools/rtt_ctf_time_compare.py:147-149 | every metadata chunk is read as a time step: its index below 128; above, the count and then the size run into it as further digits |
| TimeCompare.ChunkStepIsZeroIff | tools/rtt_ctf_time_compare.py:147-149 | a genuine chunk (index below count) is a step of at least its index, and of zero only if it is the first |
| TimeCompare.DriftOfPackets | tools/rtt_ctf_time_compare.py:142-149 | on concatenated packets the difference is the sum of those steps since the last sync |
| TimeCompare.DriftIsZeroIff | tools/rtt_ctf_time_compare.py:142-149 | with genuine chunks it is zero exactly when every chunk but a first one has a sync packet behind it |
| TimeCompare.AnalyserDrifts | tools/rtt_ctf_drops.py:208-233 | on packets the drop analyser's clock is the validator's and the same drift |
| DropAnalysis.TakeFrame | tools/rtt_ctf_drops.py:203-270 | one accepted frame: timestamp and report entries of a sync, overflow, health or other packet, also of one with the sync id that is no sync packet |
| DropAnalysis.AnalyzeStream | tools/rtt_ctf_drops.py:146-287 | the resynchronising loop over arbitrary bytes ends and returns the report of the sequence of accepted frames and skipped gaps |
| DropAnalysis.ItemsAreContiguous | tools/rtt_ctf_drops.py:182-270 | where the loop stops is where it started plus everything accepted plus everything skipped |
| DropAnalysis.ByteAccounting | tools/rtt_ctf_drops.py:272-287 | for any input the total is its length; without a sync anywhere nothing else is reported; otherwise the bytes before the first sync, in accepted packets, resynchronised over and left over are all of them, and parsed is all but the left over |
| DropAnalysis.ShortReportUnseen | tools/rtt_ctf_drops.py:235-263 | an overflow packet or health report too short for its numbers is an event and no drop |
| Resynchronisation.ItemsOfPackets | tools/rtt_ctf_drops.py:182-270 | concatenated packets are accepted one by one without a resynchronisation |
| Resynchronisation.ResyncsOverDamage | tools/rtt_ctf_drops.py:189-201 | on A ++ J ++ B, J starting with an impossible length and holding no sync start, exactly the packets of A and B are accepted and J is skipped as one gap |
| Resynchronisation.ResyncReported | tools/rtt_ctf_drops.py:196-197 | the report then has one resynchronisation point, at the end of A, as long as J, and counts the events of A and of B |
| Resynchronisation.DamageIsReported | tools/rtt_ctf_drops.py:368-372 | and the verdict on such a stream is always that events were dropped |
| PacketReports.TallyOfPackets | tools/rtt_ctf_drops.py:203-270 | what the analyser notes of concatenated packets is a function of the packets |
| PacketReports.TallyFacts | tools/rtt_ctf_drops.py:272-287 | there every packet is an event, sync packets are the syncs, unnamed ids the unknown ones, and overflow packets the overflows, with their counts in order |
| PacketReports.EntryOfPacket | tools/rtt_ctf_drops.py:235-263 | each overflow packet and health report is noted with its index, position, time and numbers |
| PacketReports.ReportOnCapture | tools/rtt_ctf_drops.py:272-287 | the whole report on packets with a tail that starts with an impossible length and holds no sync: the tail is what is unparsed, all before it is parsed, nothing is resynchronised over |
| Resynchronisation.ItemsShift | tools/rtt_ctf_drops.py:146-287 | decoding a buffer whose first c bytes are gone is decoding the whole buffer from byte c on |
| Resynchronisation.TailFromSync | tools/rtt_ctf_drops.py:208-227 | from an accepted sync packet on, the result does not depend on how the decode got there |
| Resynchronisation.LateAttach | tools/rtt_ctf_drops.py:111-129 | for arbitrary bytes and any cut: the suffix decodes, with the same timestamps, to a tail of the full decode if and only if the full decode accepts a packet at the suffix's first sync |
| Resynchronisation.LateAttachToPackets | tools/rtt_ctf_drops.py:148-169 | for a well-formed stream cut anywhere, the sync pattern occurring only at sync packets: the suffix decodes to the tail that starts with the first sync packet not cut off |
| Resynchronisation.NothingToAttachTo | tools/rtt_ctf_drops.py:149-162 | there a suffix has no sync to find exactly when no sync packet starts behind the cut |
| Metadata.ChunkBounds | modules/embedder-trace/src/trace_metadata.c:136-153 | every chunk carries 1 to 248 bytes, and the next one starts where it ends |
| Metadata.ChunksMakeDescriptor | modules/embedder-trace/src/trace_metadata.c:141-185 | the chunks partition the descriptor: joined in order they are it |
| Metadata.ExtractInlineMetadata | tools/rtt_ctf_check.py:170-215 | the extraction loop over arbitrary bytes: the chunks collected, by packets or byte by byte, and their reassembly, or nothing, and the number of chunks |
| Metadata.MetadataRoundTrip | tools/rtt_ctf_check.py:170-215 | on packets holding chunks of one descriptor in any order, repeated, mixed with others, extraction returns that descriptor exactly when every chunk is there, otherwise nothing; the number of chunks is that of the different ones |
| Extraction.LastChunkWins | tools/rtt_ctf_check.py:182-206 | for arbitrary bytes: of the chunks come by, by packets or byte by byte, the last of each index counts, and the last of all says how many to expect |
| Extraction.StrayBytesSkipped | tools/rtt_ctf_check.py:185-188 | bytes before, between and behind packets make no difference where no packet could start at them |
| Extraction.StrayRoundTrip | tools/rtt_ctf_check.py:185-188 | so the round trip holds with such bytes anywhere |
| Extraction.PartOfRun | tools/rtt_ctf_check.py:170-215 | for any part of an all-or-nothing run's stream, cut anywhere in front and behind, where no packet could start in the cut-off ones: the descriptor is returned exactly when every chunk is among the whole packets |
| Extraction.LastDescriptorWins | tools/rtt_ctf_check.py:200-213 | whatever chunks of other descriptors came before, a descriptor all of whose chunks came last is returned |
| Control.FeedAllIsScan | modules/embedder-trace/src/sink_rtt.c:143-162 | for every input the recogniser completes exactly the commands of the naive scan (leftmost magic, 8 bytes, go on behind them) |
| Control.MismatchHoldsNoMagic | modules/embedder-trace/src/sink_rtt.c:147-154 | falling back to the last byte alone loses nothing: no magic starts in what was held |
| Control.FeedKeepsPending | modules/embedder-trace/src/sink_rtt.c:95-115 | between bytes the buffer is shorter than a command and begins with as much of the magic as it holds |
| Control.Receiver.constructor | modules/embedder-trace/src/sink_rtt.c:50-52 | empty receive buffer, nothing handled |
| Control.Receiver.MagicMatchesPrefix | modules/embedder-trace/src/sink_rtt.c:95-115 | the prefix test on the receive buffer |
| Control.Receiver.FeedByte | modules/embedder-trace/src/sink_rtt.c:143-162 | one byte changes buffer and commands handled as the recogniser says |
| Control.Receiver.Dispatch | modules/embedder-trace/src/sink_rtt.c:160-161 | a whole command is acted on and the buffer emptied |
| Control.Receiver.FeedRead | modules/embedder-trace/src/sink_rtt.c:174-176 | one read is its bytes in order |
| Control.Receiver.FeedReads | modules/embedder-trace/src/sink_rtt.c:164-177 | however the input is split into reads, the commands handled are those of the naive scan of the whole |
| Control.HandleCommand | modules/embedder-trace/src/sink_rtt.c:117-141 | a command is acted on if version and checksum are right and the operation is known |
| Control.BuiltIsParsed | modules/embedder-trace/src/sink_rtt.c:117-141 | a command built for code 1 starts a session, for code 2 stops it, for any other code is ignored, whatever its spare byte |
| Control.ParsedIsBuilt | modules/embedder-trace/src/sink_rtt.c:117-141 | eight bytes with the magic are accepted as an operation exactly if they are built so for it |
| Control.ReceiveSent | modules/embedder-trace/src/sink_rtt.c:143-177 | whatever commands are sent, with bytes before each that do not hold the magic's first, in any split into reads: exactly the operations they were built for are acted on, in order |
| Control.OneBadByteIsRejected | modules/embedder-trace/src/sink_rtt.c:84-93 | changing any single byte of an accepted command makes it rejected |
| ItmSink.Port.WritePort | modules/embedder-trace/src/sink_itm.c:57-79 | whatever the port does, a prefix of the data is written, up to the first byte whose wait ends at zero, and its length returned |
| ItmSink.AllWritten | modules/embedder-trace/src/sink_itm.c:64-72 | everything is written exactly when no byte waits as long as the timeout; at timeout zero exactly when no byte finds the port ready |
| Emitter.FillEvent | modules/embedder-trace/include/embedder/trace_internal.h:290-322 | the event packet built in the buffer: length, id, delta, fields |
| Emitter.FillOverflow | modules/embedder-trace/include/embedder/trace_internal.h:233-247 | the overflow packet built in the buffer |
| Emitter.FillSync | modules/embedder-trace/src/sink_rtt.c:201-213 | the 15-byte sync packet built in the buffer |
| Emitter.FillChunk | modules/embedder-trace/src/trace_metadata.c:155-170 | the chunk packet built in the buffer |
| Emitter.Tracer.constructor | modules/embedder-trace/src/sink_rtt.c:276-289 | the resets, then the first preamble |
| Emitter.Tracer.Transmit | modules/embedder-trace/src/sink_rtt.c:292-295 | the transport takes a prefix, as much as there is room for; stream and history grow by it |
| Emitter.Tracer.Sync | modules/embedder-trace/src/sink_rtt.c:194-225 | a sync write; the delta anchor moves only if it was whole |
| Emitter.Tracer.Recover | modules/embedder-trace/include/embedder/trace_internal.h:225-271 | recovery: overflow packet, then sync; normal state and a zero pending count only after both were whole |
| Emitter.Tracer.Event | modules/embedder-trace/include/embedder/trace_internal.h:288-331 | one emit call: recovery or periodic sync, then the event; the anchor moves even if the event's write fails |
| Emitter.Tracer.GiveUp | modules/embedder-trace/src/trace_metadata.c:174-182 | all chunks not sent are added to both counters, and dropping starts |
| Emitter.Tracer.CutChunk | modules/embedder-trace/src/trace_metadata.c:150-170 | the chunk at the running offset is the i-th chunk |
| Emitter.Tracer.SendChunk | modules/embedder-trace/src/trace_metadata.c:149-185 | one turn of the chunk loop, whole or short |
| Emitter.Tracer.MetadataInline | modules/embedder-trace/src/trace_metadata.c:139-187 | the chunk loop |
| Emitter.Tracer.Preamble | modules/embedder-trace/src/sink_rtt.c:297-304 | a sync, then the chunks; a failed sync ends it and changes no counter |
| Emitter.Replay | modules/embedder-trace/include/embedder/trace_internal.h:276-286 | the emitter object follows any run of calls, in any environment, state for state, and its stream is what its writes put there |
| Writes.WritesAreFormed | modules/embedder-trace/include/embedder/trace_internal.h:233-331 | in every run every write, whole or not, carries its reading and the clock frequency if a sync, and is a chunk of the descriptor if metadata; events and overflow packets come from emit calls |
| Writes.StreamHolds | modules/embedder-trace/src/sink_rtt.c:292-295 | over any sink the stream is exactly what the sink took of each packet, in order |
| Writes.PreambleOkIff | modules/embedder-trace/src/sink_rtt.c:297-304 | a preamble returns whether its sync was whole, and only then sends chunks |
| Accounting.LossAccounting | modules/embedder-trace/include/embedder/trace_internal.h:249-270 | in every run, modulo the counter's 32 bits, dropped = counts in overflow packets whose recovery completed + pending count + sync writes that failed inside emit calls; the pending count is zero in the normal state |
| Accounting.ReportsExactIffNoFailedSync | modules/embedder-trace/include/embedder/trace_internal.h:106-108 | so the reports and the pending count are exact if and only if no such sync write failed (modulo 2^32) |
| Accounting.FailedSyncIsNotReported | modules/embedder-trace/include/embedder/trace_internal.h:304-314 | a call whose periodic sync finds no room, then one with room for all: one event is lost, none reported, the state normal |
| Accounting.BootsReadyToSync | modules/embedder-trace/src/sink_rtt.c:276-289 | the first call after a first preamble with room for it is such a call: a sync is due |
| Accounting.RecoversWithRoom | modules/embedder-trace/include/embedder/trace_internal.h:225-271 | with room for any packet, recovery succeeds, reports exactly the pending count and lets the event through |
| Accounting.EventConservation | modules/embedder-trace/include/embedder/trace_internal.h:299-329 | in every run events whole in the stream and events lost together are the emit calls, and dropped is the lost ones and the unsent chunks modulo 2^32; so events written and dropped are the calls and the unsent chunks |
| StreamShape.CounterAdvances | modules/embedder-trace/include/embedder/trace_internal.h:304-306 | the sync counter modulo the period goes up by one and wraps, also where the 32-bit counter wraps |
| StreamShape.RecoveryGate | modules/embedder-trace/include/embedder/trace_internal.h:100-113 | over any sink that takes prefixes: after a short write of an emit call or a chunk, the next event attempt comes right behind a whole overflow packet and a whole sync |
| StreamShape.DroppingIff | modules/embedder-trace/include/embedder/trace_internal.h:100-113 | in every run the firmware is dropping exactly when some write other than a preamble's sync fell short and no event was attempted since |
| StreamShape.ShortSyncStartsDropping | modules/embedder-trace/include/embedder/trace_transport.h:64-65 | in every run, behind an action in which a sync write fell short the firmware is dropping if and only if the action is an emit call or it was dropping before |
| StreamShape.PreambleSyncFailureIsIgnored | modules/embedder-trace/src/sink_rtt.c:297-301 | a preamble whose sync has no room changes nothing but the bytes written; the normal state stays normal |
| StreamShape.SyncSpacing | modules/embedder-trace/include/embedder/trace_internal.h:280-281 | in every run, at every point of the stream, at most 2^shift ordinary events lie behind the last sync |
| StreamShape.Pow2Of32 | modules/embedder-trace/include/embedder/trace_internal.h:304-306 | what 2^shift is, at the ends of the range of shifts and at 8 |
| SyncSchedule.CounterIsCalls | modules/embedder-trace/include/embedder/trace_internal.h:299-306 | in every run the sync counter is the number of calls made in the normal state, modulo 2^32 |
| SyncSchedule.SyncDueIff | modules/embedder-trace/include/embedder/trace_internal.h:299-314 | in every run a call in the normal state writes a sync first, and its event behind it if that is whole, exactly when the number of such calls before is a multiple of 2^shift, otherwise its event alone; failures, recoveries, preambles and the counter's wrap notwithstanding |
| SyncSchedule.SyncEveryPeriod | modules/embedder-trace/include/embedder/trace_internal.h:304-306 | with room for everything and no further preamble, the n-th call writes sync and event if n is a multiple of 2^shift, else the event alone, with these contents |
| StreamShape.EventsAreAnchored | modules/embedder-trace/src/sink_rtt.c:276-304 | in every run, a failed first preamble included, no event and no chunk is attempted before a whole sync is in the stream |
| Delivery.OverflowHidesSyncIff | modules/embedder-trace/include/embedder/trace_internal.h:127-128 | a sync pattern starts in an overflow packet with another packet behind it in one case only: at the last byte of a delta that ends in 15, with a count of 0x00010302 and bd e3 behind it; so never when an overflow or sync packet follows |
| Delivery.OverflowHidesSync | modules/embedder-trace/include/embedder/trace_internal.h:127-128 | such an overflow packet and event, whatever the event's fields |
| Delivery.HostFindsFirstSync | tools/rtt_ctf_drops.py:148-169 | in every all-or-nothing run with a sync out, the host's scan stops at the first sync packet; only overflow packets come before it |
| Delivery.HostFindsSyncIff | tools/rtt_ctf_drops.py:149-162 | and the host finds a sync exactly when a whole one got out |
| Timestamps.TimestampRefinement | tools/rtt_ctf_check.py:302-331 | in every all-or-nothing run with a sync out, the host reads from the first sync on exactly the delivered packets, in order, no byte left; only overflow packets come before; each event's timestamp is, modulo 2^32, the firmware's reading |
| Captures.ValidatorOnCapture | tools/rtt_ctf_check.py:276-338 | the validator's whole report on packets with or without a tail: a tail is one error more and is what remains; it sees nothing if the first sync packet is the last 15 bytes |
| Captures.ComparisonOnCapture | tools/rtt_ctf_time_compare.py:107-164 | the comparison tool's whole report on the same: it does not tell of a tail |
| Captures.CaptureOfRun | tools/rtt_ctf_check.py:276-338 | an all-or-nothing run captured up to any byte behind its first sync packet: both tools report the whole packets, and the cut-off one as left over, the analyser if no sync pattern starts in it |
| Captures.ValidatorOnRun | tools/rtt_ctf_check.py:276-338 | on a complete run the validator's only complaints are ids it has no name for |
| Timestamps.SegmentOfRun | modules/embedder-trace/include/embedder/trace_internal.h:225-271 | between a delivered sync and a later event with no sync between there are only events and metadata, so only overflow packets can carry a wrong time |
| OverflowTimes.OverflowTimeIff | modules/embedder-trace/include/embedder/trace_internal.h:225-271 | over any sink, an overflow packet behind a sync: its host time is its own reading modulo 2^32 if and only if no time went into an event write that fell short since that sync; that time is what is missing |
| OverflowTimes.NoTimeLost | modules/embedder-trace/include/embedder/trace_internal.h:225-271 | so it is right if dropping began with a failed sync or chunk |
| Timestamps.TrueElapsedTime | modules/embedder-trace/include/embedder/trace_internal.h:315-319 | between a sync and an event behind it, host elapsed time is true elapsed time at every packet if and only if no two successive delivered readings are 2^32 or more apart |
| Timestamps.HiddenTurnIsMissed | modules/embedder-trace/src/sink_rtt.c:297-301 | a sync and event, a failed preamble sync and an event, readings 3 * 10^9 ns apart: no two successive readings are 2^32 apart, two delivered ones are, and host time is 2^32 short |
| Calls.EachCallOnce | modules/embedder-trace/include/embedder/trace_internal.h:288-331 | each emit call of a run either adds its own event, id, fields and reading, to the delivered ones or counts as one lost event, never both; a preamble does neither |
| Calls.EventsAreCalls | modules/embedder-trace/include/embedder/trace_internal.h:288-331 | the delivered events of any run are, in order, those of a strictly increasing selection of its calls |
| Calls.HostSeesCalls | tools/rtt_ctf_check.py:302-331 | over an all-or-nothing sink with a sync out, the events the host reads are exactly the calls that got through, in order, with their ids, fields and, modulo 2^32, their readings |
| AnalyserClock.AnalyserRelated | tools/rtt_ctf_drops.py:203-270 | on arbitrary bytes the analyser accepts the frames the other tools read, up to the first impossible length, with the validator's times and the values read from metadata and false syncs since the last sync |
| AnalyserClock.FalseSync | tools/rtt_ctf_drops.py:203-233 | a frame with a sync's id and length but another magic: a time step for the analyser, nothing for the others |
| AnalyserClock.AnalyserTimesOnRun | tools/rtt_ctf_drops.py:208-233 | on such a run the drop analyser's time at each packet is the validator's and the chunk values since the last sync; they agree exactly when every chunk so far but first ones has a sync behind it |
| Verdict.ReportOnRun | tools/rtt_ctf_drops.py:146-287 | the analyser's whole report on an all-or-nothing run: no resynchronisation, nothing unparsed, and the findings on the packets from the first sync on |
| Verdict.VerdictSound | tools/rtt_ctf_drops.py:368-372 | something was lost if and only if the firmware is still dropping, or the analyser skipped bytes to the first sync or saw an overflow event |
| Verdict.VerdictWrongIff | tools/rtt_ctf_drops.py:368-389 | the printed verdict is wrong if and only if no overflow packet was delivered behind the first sync and (some before it, or dropping) holds exactly when no health report behind it tells of new drops |
| Verdict.EarlyDropsAreMissed | tools/rtt_ctf_drops.py:368-389 | such a run: first preamble and first sync find no room, then there is room |
| Totals.ReportedTotal | tools/rtt_ctf_drops.py:312-315 | in every such run the printed total, with the skipped reports before the first sync, is what completed recoveries reported and what recoveries that failed on their sync repeat; it is the firmware's count exactly when the repeated counts make up for failed syncs, pending drops and skipped reports |
| Totals.FailedRecoveryCountsTwice | modules/embedder-trace/include/embedder/trace_internal.h:249-270 | a recovery that fails on its sync, then one with room: the printed total goes up by twice the pending count, the firmware's by one |
| Totals.FourPrintedForThree | tools/rtt_ctf_drops.py:312-315 | a run from start to end with three events lost and a printed total of four |
| Reassembly.DescriptorRoundTrip | tools/rtt_ctf_check.py:170-215 | in every all-or-nothing run extraction returns the firmware's descriptor exactly when every chunk got out at least once, in whichever preambles |
| Reassembly.ChunksUpToFailure | modules/embedder-trace/src/trace_metadata.c:149-186 | a chunk loop failing first at chunk k leaves exactly the chunks before it whole, adds the rest to both counters and starts dropping; one that never fails writes all and changes nothing else |
| Reassembly.OnePreambleSuffices | modules/embedder-trace/src/sink_rtt.c:297-304 | after one preamble with room for it extraction returns the descriptor, whatever happened before |

## Left out

- Emitter.Tracer.Event: takes at most 247 payload bytes and an id other than 0x301 to 0x303, because the macro's callers pass at most six small fields and never those ids.
- Emitter.Tracer.Preamble: is one step, because interrupts during a preamble, whose callers do not hold the lock, are not modelled; each emit call is one step under its lock.
- Emitter.Tracer.constructor: starts from the resets, because the writes that tracing hooks attempt before transport initialisation are not part of this model.
- Timestamps.TrueElapsedTime: assumes that firmware readings are a true clock modulo 2^32, because the conversion from cycles to nanoseconds and its behaviour where the cycle counter wraps are not part of this model.
- DropAnalysis.AnalyzeStream: has no list of timestamp gaps over one second and no verbose output, because these are report text.
- CheckDecoder.ValidateDataStream: has no event histogram, because it is report text; the table of names is kept as the set of known ids.
- Metadata.ExtractInlineMetadata: returns bytes, because decoding them as text is Python's.
- StreamShape.SyncSpacing: a sync period shift of 32 or more, which the configuration does not rule out, is undefined in C and excluded, because Emitter.Config is limited to shifts below 32.
- Host realignment after a packet cut short by a trimming sink: the decoders do not guarantee it; only the firmware's recovery gate is stated there.
- Control.HandleCommand: returns the operation; the capture calls behind it are not part of this model, and the preamble it starts with is `Emitter.Tracer.Preamble`.
- SEGGER RTT, ITM registers, work queues, logging, the periodic health log and the capture scripts: the environment.
- The per-event hooks and the public API wrappers: they only pack fields.
- Zephyr wiring, examples, benchmark and build files: no properties of the stream.
