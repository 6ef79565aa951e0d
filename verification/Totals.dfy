/** End to end: the total of dropped events that the drop analyser prints, and the
    firmware's own count. */
module Totals {
  import opened Bytes
  import opened Packets
  import opened Metadata
  import opened Emitter
  import opened StreamShape
  import opened Delivery
  import opened DropAnalysis
  import opened Accounting
  import opened PacketReports
  import opened Verdict

  /** The sum of the overflow events' counts. */
  function Printed(raw: seq<byte>): nat {
    var rep := ReportOf(raw);
    if rep.Analyzed? then Total(DropsOf(rep.tally.overflows)) else 0
  }

  /** The same over packets: what the overflow packets from the first sync on say. */
  function Behind(ps: seq<Packet>): nat { Total(Counts(ps[Preface(ps)..])) }

  /** What the overflow packets before the first sync say, which the tool skips. */
  function SkippedDrops(ps: seq<Packet>): nat { Total(Counts(ps[..Preface(ps)])) }

  lemma {:induction false} TotalSplit(ps: seq<Packet>, k: nat)
    requires k <= |ps|
    ensures Total(Counts(ps)) == Total(Counts(ps[..k])) + Total(Counts(ps[k..]))
    decreases |ps|
  {
    hide Total, Counts, SomeOverflow;
    if k == |ps| {
      assert ps[..k] == ps && ps[k..] == [];
      NothingCounted();
    } else {
      var init, last := ps[..|ps| - 1], ps[|ps| - 1];
      InitAndLast(ps);
      TakeTake(ps, |init|, k);
      TakeThenDrop(ps, k, |init|);
      InitAndLast(ps[k..]);
      TotalSplit(init, k);
      PacketSnoc(init, last);
      PacketSnoc(init[k..], last);
    }
  }

  lemma NothingCounted()
    ensures Total(Counts([])) == 0
  {
  }

  lemma PrintedIs(r: Run)
    requires var log := Final(r).log; AllOrNothing(log) && Synced(log)
    ensures var ps := Stream(Final(r).log);
      && Preface(ps) < |ps| && OverflowsFirst(ps) && HasSync(ps)
      && Printed(Written(Final(r).log)) == Behind(ps)
  {
    hide Final, Synced, AllOrNothing, ReportOf, Counts, DropsOf, Total, FreshSeen, SomeFresh, OverflowsFirst,
         HasSync, Stream, Offset,
         Written, Preface;
    ReportOnRun(r);
  }

  /** The printed total, in every run over an all-or-nothing sink that got a sync
      packet out. With what was skipped before the first sync it is what completed
      recoveries reported, and once more what an overflow packet carried whose sync
      then failed. So it is the firmware's own count if and only if those repeated
      counts make up for what is missing from it: failed syncs, which no packet
      reports, drops still pending, and the skipped reports. */
  lemma ReportedTotal(r: Run)
    requires var s := Final(r); AllOrNothing(s.log) && Synced(s.log)
    ensures var s := Final(r);
      var ps, printed := Stream(s.log), Printed(Written(s.log));
      && printed + SkippedDrops(ps) == Reported(s.log) + Repeated(s.log)
      && (s.dropped == printed % TWO_32
          <==> Repeated(s.log) % TWO_32 == (FailedSyncs(s.log) + s.overflowDrops + SkippedDrops(ps)) % TWO_32)
  {
    hide Final, Synced, AllOrNothing, Counts, Total, OverflowsFirst, HasSync, Stream, Lost, Printed, Written, Preface,
         SomeOverflow, Reported, Repeated, OpenOverflow, EventsLost, EventsWritten, FailedSyncs;
    var s := Final(r);
    var ps := Stream(s.log);
    PrintedIs(r);
    RunSeen(r);
    RunBalanced(r);
    TotalSplit(ps, Preface(ps));
    SameResidue(Printed(Written(s.log)), Reported(s.log) + s.overflowDrops + FailedSyncs(s.log),
                Repeated(s.log), FailedSyncs(s.log) + s.overflowDrops + SkippedDrops(ps));
  }

  lemma SameResidue(x: int, y: int, a: int, b: int)
    requires y - x == b - a
    ensures y % TWO_32 == x % TWO_32 <==> a % TWO_32 == b % TWO_32
  {
    Residues(x, y);
    Residues(a, b);
  }

  lemma Residues(x: int, y: int)
    ensures x % TWO_32 == y % TWO_32 <==> (y - x) % TWO_32 == 0
  {
  }

  // ----- A recovery that fails on its sync -----

  lemma PrefaceStays(ps: seq<Packet>, p: Packet)
    requires Preface(ps) < |ps|
    ensures Preface(ps + [p]) == Preface(ps)
    ensures (ps + [p])[Preface(ps)..] == ps[Preface(ps)..] + [p]
  {
    hide Preface;
    var k, all := Preface(ps), ps + [p];
    DropInit(ps, p, k);
    assert all[k] == ps[k] && forall i :: 0 <= i < k ==> all[i] == ps[i];
    PrefaceUnique(all, k);
  }

  lemma BehindSnoc(ps: seq<Packet>, p: Packet)
    requires Preface(ps) < |ps|
    ensures Preface(ps + [p]) < |ps| + 1
    ensures Behind(ps + [p]) == Behind(ps) + if p.Overflow? then p.drops else 0
  {
    hide Preface, Counts, Total, SomeOverflow;
    PrefaceStays(ps, p);
    PacketSnoc(ps[Preface(ps)..], p);
  }

  /** One more write, taken whole or not at all, and all that is used here. */
  lemma WriteSnoc(log: Log, a: Attempt)
    requires AllOrNothing(log) && Synced(log) && Preface(Stream(log)) < |Stream(log)|
    requires a.accepted == 0 || Complete(a)
    ensures var after := log + [a];
      && AllOrNothing(after) && Synced(after) && Preface(Stream(after)) < |Stream(after)|
      && Behind(Stream(after)) == Behind(Stream(log)) + if Complete(a) && a.packet.Overflow? then a.packet.drops else 0
  {
    hide Encode, Complete, Stream, Preface, Behind, Synced, AllOrNothing, SinceSync, Spaced, Anchored, GateHeld,
         ShortSinceEvent, Gated;
    DeliveredSnoc(log, a);
    StreamShape.Snoc(log, a, 0);
    AllOrNothingSnoc(log, a);
    if Complete(a) {
      BehindSnoc(Stream(log), a.packet);
    }
  }

  lemma AllOrNothingSnoc(log: Log, a: Attempt)
    requires AllOrNothing(log) && (a.accepted == 0 || Complete(a))
    ensures AllOrNothing(log + [a])
  {
    hide Encode, Complete;
  }

  predicate Sound(s: State) {
    AllOrNothing(s.log) && Synced(s.log) && Preface(Stream(s.log)) < |Stream(s.log)|
  }

  /** A recovery that fails on its sync, then one with room for everything. */
  lemma FailedRecovery(s: State, c: Config, eid: OrdinaryId, payload: Payload, failed: Env, room: Env)
    requires Sound(s) && s.dropping
    requires failed.overflowRoom >= 255 && failed.syncRoom == 0
    requires room.overflowRoom >= 255 && room.syncRoom >= 255 && room.eventRoom >= 255
    ensures var s1 := EmitEvent(s, c, eid, payload, failed);
      var s2 := EmitEvent(s1, c, eid, payload, room);
      && s1.dropping && !s2.dropping && Sound(s2) && s2.dropped == Inc(s.dropped)
      && Behind(Stream(s2.log)) == Behind(Stream(s.log)) + 2 * s.overflowDrops
  {
    hide Encode, Complete, EmitEvent, Stream, Preface, Behind, Synced, AllOrNothing, Whole;
    CallFailsRecovery(s, c, eid, payload, failed);
    var s1 := EmitEvent(s, c, eid, payload, failed);
    CallRecovers(s1, c, eid, payload, room);
    var a, b := OverflowNow(s, failed), Attempt(Sync(failed.syncTs, c.freq), failed.syncTs, InEvent, 0);
    var x, y := OverflowNow(s1, room), Sync(room.syncTs, c.freq);
    var z := Event(eid, WrapSub(room.eventTs, room.syncTs), payload);
    WholeIs(a, failed.overflowTs, InEvent);
    WholeIs(x, room.overflowTs, InEvent);
    WholeIs(y, room.syncTs, InEvent);
    WholeIs(z, room.eventTs, InEvent);
    var log := s.log + [Whole(a, failed.overflowTs, InEvent)];
    WriteSnoc(s.log, Whole(a, failed.overflowTs, InEvent));
    WriteSnoc(log, b);
    WriteSnoc(log + [b], Whole(x, room.overflowTs, InEvent));
    WriteSnoc(log + [b] + [Whole(x, room.overflowTs, InEvent)], Whole(y, room.syncTs, InEvent));
    WriteSnoc(log + [b] + [Whole(x, room.overflowTs, InEvent)] + [Whole(y, room.syncTs, InEvent)], Whole(z, room.eventTs, InEvent));
  }

  /** In any run that is dropping with some count pending, a recovery that fails on
      its sync makes the printed total go up by twice that count. */
  lemma FailedRecoveryCountsTwice(r: Run, eid: OrdinaryId, payload: Payload, failed: Env, room: Env)
    requires var s := Final(r); AllOrNothing(s.log) && Synced(s.log) && s.dropping
    requires failed.overflowRoom >= 255 && failed.syncRoom == 0
    requires room.overflowRoom >= 255 && room.syncRoom >= 255 && room.eventRoom >= 255
    ensures var s, s2 := Final(r), Final(r.(actions := r.actions + [Emit(eid, payload, failed)] + [Emit(eid, payload, room)]));
      && !s2.dropping && s2.dropped == Inc(s.dropped)
      && Printed(Written(s2.log)) == Printed(Written(s.log)) + 2 * s.overflowDrops
  {
    hide Final, EmitEvent, AllOrNothing, Synced, Stream, Printed, Written, Behind, Preface, OverflowsFirst, HasSync;
    var r1 := r.(actions := r.actions + [Emit(eid, payload, failed)]);
    FinalSnoc(r, Emit(eid, payload, failed));
    FinalSnoc(r1, Emit(eid, payload, room));
    PrintedIs(r);
    FailedRecovery(Final(r), r.config, eid, payload, failed, room);
    PrintedIs(r.(actions := r1.actions + [Emit(eid, payload, room)]));
  }

  // ----- A stream with a wrong total -----

  /** From the normal state: a call whose event finds no room, then one whose
      overflow packet finds none. */
  lemma TwoLost(s: State, c: Config, eid: OrdinaryId, payload: Payload, lost: Env, pending: Env)
    requires Sound(s) && !s.dropping && s.dropped == 0 && s.overflowDrops == 0 && s.syncCounter % Period(c) == 0
    requires lost.syncRoom >= 255 && lost.eventRoom == 0 && pending.overflowRoom == 0
    ensures var s2 := EmitEvent(EmitEvent(s, c, eid, payload, lost), c, eid, payload, pending);
      && Sound(s2) && s2.dropping && s2.dropped == 2 && s2.overflowDrops == 2
      && Behind(Stream(s2.log)) == Behind(Stream(s.log))
  {
    hide Encode, Complete, EmitEvent, EmitAdmitted, Stream, Preface, Behind, Synced, AllOrNothing, Whole, Period;
    CallSyncs(s, c, eid, payload, lost);
    var q := Sync(lost.syncTs, c.freq);
    var e := Event(eid, WrapSub(lost.eventTs, lost.syncTs), payload);
    AdmittedRefused(s.(syncCounter := Inc(s.syncCounter), lastTs := lost.syncTs,
                       log := s.log + [Whole(q, lost.syncTs, InEvent)]), eid, payload, lost);
    var s1 := EmitEvent(s, c, eid, payload, lost);
    CallStillDropping(s1, c, eid, payload, pending);
    WholeIs(q, lost.syncTs, InEvent);
    WriteSnoc(s.log, Whole(q, lost.syncTs, InEvent));
    WriteSnoc(s.log + [Whole(q, lost.syncTs, InEvent)], Refused(e, lost.eventTs, InEvent));
    WriteSnoc(s1.log, Refused(OverflowNow(s1, pending), pending.overflowTs, InEvent));
  }

  lemma {:induction false} ChunksWithRoomSound(s: State, d: Descriptor, i: nat, rooms: seq<nat>)
    requires Sound(s) && forall k: nat :: i <= k < ChunkCount(d) ==> RoomAt(rooms, k) >= 255
    ensures var s1 := EmitChunks(s, d, i, rooms);
      s1 == s.(log := s1.log) && Sound(s1) && Behind(Stream(s1.log)) == Behind(Stream(s.log))
    decreases ChunkCount(d) - i
  {
    hide Encode, Complete, Stream, Preface, Behind, Synced, AllOrNothing, Whole, EmitChunks, ChunkCount, RoomAt,
         Write, Fits;
    if i >= ChunkCount(d) {
      ChunksOver(s, d, i, rooms);
    } else {
      ChunksTurn(s, d, i, rooms);
      var p := ChunkPacket(d, i);
      WriteWhole(s, p, 0, InPreamble, RoomAt(rooms, i));
      WholeIs(p, 0, InPreamble);
      WriteSnoc(s.log, Whole(p, 0, InPreamble));
      ChunksWithRoomSound(s.(log := s.log + [Whole(p, 0, InPreamble)]), d, i + 1, rooms);
    }
  }

  lemma FirstSyncSound(ts: uint32, freq: uint32)
    ensures var s := RESET.(log := [] + [Whole(Sync(ts, freq), ts, InPreamble)], lastTs := ts);
      Sound(s) && Behind(Stream(s.log)) == 0
  {
    hide Encode, Complete, Whole, Delivered, Synced;
    var a := Whole(Sync(ts, freq), ts, InPreamble);
    WholeIs(Sync(ts, freq), ts, InPreamble);
    NothingDelivered();
    DeliveredSnoc([], a);
    StreamShape.Snoc([], a, 0);
    AllOrNothingSnoc([], a);
    assert Stream([a]) == [Sync(ts, freq)];
    PacketSnoc([], Sync(ts, freq));
  }

  lemma BootSound(r: Run)
    requires r.actions == [] && r.syncRoom >= 255
    requires forall i: nat :: i < ChunkCount(r.config.descriptor) ==> RoomAt(r.chunkRooms, i) >= 255
    ensures var s := Final(r);
      && Sound(s) && !s.dropping && s.dropped == 0 && s.overflowDrops == 0 && s.syncCounter % Period(r.config) == 0
      && Behind(Stream(s.log)) == 0
  {
    hide Encode, EmitSync, EmitChunks, Sound, Behind, Stream, Whole, RoomAt, Period, ChunkCount;
    var c := r.config;
    SyncWithRoom(RESET, c, r.syncTs, InPreamble, r.syncRoom);
    FirstSyncSound(r.syncTs, c.freq);
    ChunksWithRoomSound(EmitSync(RESET, c, r.syncTs, InPreamble, r.syncRoom).state, c.descriptor, 0, r.chunkRooms);
    ZeroDue(c);
  }

  function FourCalls(eid: OrdinaryId, payload: Payload, a: Env, b: Env, c: Env, d: Env): seq<Action> {
    [] + [Emit(eid, payload, a)] + [Emit(eid, payload, b)] + [Emit(eid, payload, c)] + [Emit(eid, payload, d)]
  }

  /** After a first preamble with room for it: an event that finds no room, an
      overflow packet that finds none, a recovery that fails on its sync, and one
      that succeeds. Three events are lost, the tool prints four. */
  lemma FourPrintedForThree(r: Run, eid: OrdinaryId, payload: Payload, lost: Env, pending: Env, failed: Env, room: Env)
    requires r.actions == [] && r.syncRoom >= 255
    requires forall i: nat :: i < ChunkCount(r.config.descriptor) ==> RoomAt(r.chunkRooms, i) >= 255
    requires lost.syncRoom >= 255 && lost.eventRoom == 0 && pending.overflowRoom == 0
    requires failed.overflowRoom >= 255 && failed.syncRoom == 0
    requires room.overflowRoom >= 255 && room.syncRoom >= 255 && room.eventRoom >= 255
    ensures var s := Final(r.(actions := FourCalls(eid, payload, lost, pending, failed, room)));
      AllOrNothing(s.log) && Synced(s.log) && !s.dropping && s.dropped == 3 && Printed(Written(s.log)) == 4
  {
    hide Final, EmitEvent, AllOrNothing, Synced, Stream, Printed, Written, Behind, Preface, OverflowsFirst, HasSync,
         RoomAt, ChunkCount,
         Period;
    var c := r.config;
    var r1 := r.(actions := [] + [Emit(eid, payload, lost)]);
    var r2 := r.(actions := r1.actions + [Emit(eid, payload, pending)]);
    var r3 := r.(actions := r2.actions + [Emit(eid, payload, failed)]);
    FinalSnoc(r, Emit(eid, payload, lost));
    FinalSnoc(r1, Emit(eid, payload, pending));
    FinalSnoc(r2, Emit(eid, payload, failed));
    FinalSnoc(r3, Emit(eid, payload, room));
    BootSound(r);
    TwoLost(Final(r), c, eid, payload, lost, pending);
    FailedRecovery(Final(r2), c, eid, payload, failed, room);
    PrintedIs(r.(actions := FourCalls(eid, payload, lost, pending, failed, room)));
  }
}
