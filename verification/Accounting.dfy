/** Where lost events are counted, over every run in every environment. */
module Accounting {
  import opened Bytes
  import opened Packets
  import opened Metadata
  import opened Emitter

  // ----- What the history of writes says, independently of the counters -----

  /** A sync packet of an emit call, written whole right behind a whole overflow
      packet: the end of a recovery. */
  predicate EndsRecovery(log: Log, k: nat) {
    && 0 < k < |log|
    && log[k].packet.Sync? && log[k].cause == InEvent && Complete(log[k])
    && log[k - 1].packet.Overflow? && Complete(log[k - 1])
  }

  /** Sum of the counts in overflow packets whose recovery completed. */
  function Reported(log: Log): nat {
    if log == [] then 0
    else
      var k := |log| - 1;
      Reported(log[..k]) + if EndsRecovery(log, k) then log[k - 1].packet.drops else 0
  }

  predicate FailedSync(a: Attempt) { a.packet.Sync? && a.cause == InEvent && !Complete(a) }

  /** Sync writes that fell short inside an emit call. */
  function FailedSyncs(log: Log): nat {
    if log == [] then 0
    else FailedSyncs(log[..|log| - 1]) + if FailedSync(log[|log| - 1]) then 1 else 0
  }

  /** Ordinary events written whole. */
  function EventsWritten(log: Log): nat {
    if log == [] then 0
    else
      var last := log[|log| - 1];
      EventsWritten(log[..|log| - 1]) + if last.packet.Event? && Complete(last) then 1 else 0
  }

  /** Chunks given up on: a short chunk takes the ones behind it with it. */
  function Unsent(log: Log): int {
    if log == [] then 0
    else
      var last := log[|log| - 1];
      Unsent(log[..|log| - 1])
      + if last.packet.Metadata? && !Complete(last) then last.packet.count - last.packet.index else 0
  }

  /** Emit calls whose event did not get into the stream, one short write each. */
  function EventsLost(log: Log): nat {
    if log == [] then 0
    else
      var last := log[|log| - 1];
      EventsLost(log[..|log| - 1])
      + if FailedSync(last) || (!Complete(last) && (last.packet.Event? || last.packet.Overflow?)) then 1 else 0
  }

  predicate OpenOverflow(log: Log) {
    log != [] && log[|log| - 1].packet.Overflow? && Complete(log[|log| - 1])
  }

  lemma Snoc(log: Log, a: Attempt)
    ensures Reported(log + [a]) == Reported(log)
         + if a.packet.Sync? && a.cause == InEvent && Complete(a) && OpenOverflow(log)
           then log[|log| - 1].packet.drops else 0
    ensures FailedSyncs(log + [a]) == FailedSyncs(log) + if FailedSync(a) then 1 else 0
    ensures EventsWritten(log + [a]) == EventsWritten(log) + if a.packet.Event? && Complete(a) then 1 else 0
    ensures Unsent(log + [a]) == Unsent(log)
         + if a.packet.Metadata? && !Complete(a) then a.packet.count - a.packet.index else 0
    ensures EventsLost(log + [a]) == EventsLost(log)
         + if FailedSync(a) || (!Complete(a) && (a.packet.Event? || a.packet.Overflow?)) then 1 else 0
    ensures OpenOverflow(log + [a]) <==> a.packet.Overflow? && Complete(a)
  {
    hide Complete;
    assert (log + [a])[..|log|] == log;
  }

  // ----- The invariant -----

  /** Everything lost: events, and chunks of the descriptor. */
  function Lost(log: Log): int { EventsLost(log) + Unsent(log) }

  predicate Balanced(s: State, calls: nat) {
    && !OpenOverflow(s.log)
    && (!s.dropping ==> s.overflowDrops == 0)
    && s.dropped == (Reported(s.log) + s.overflowDrops + FailedSyncs(s.log)) % TWO_32
    && s.dropped == Lost(s.log) % TWO_32
    && EventsWritten(s.log) + EventsLost(s.log) == calls
  }

  lemma Wrapped(x: uint32, total: int, n: nat)
    requires x == total % TWO_32
    ensures WrapAdd(x, n) == (total + n) % TWO_32
  {
  }

  /** Two counters that go up together, one of them standing for a larger sum. */
  lemma WrappedPart(x: uint32, part: uint32, rest: int, n: nat)
    requires x == (rest + part) % TWO_32
    ensures WrapAdd(x, n) == (rest + WrapAdd(part, n)) % TWO_32
  {
    Wrapped(x, rest + part, n);
  }

  lemma LoseBalanced(s: State, before: State)
    requires s.dropped == before.dropped && s.overflowDrops == before.overflowDrops
    requires before.dropped == (Reported(before.log) + before.overflowDrops + FailedSyncs(before.log)) % TWO_32
    requires before.dropped == Lost(before.log) % TWO_32
    ensures Lose(s).dropped == (Reported(before.log) + s.overflowDrops + FailedSyncs(before.log) + 1) % TWO_32
    ensures Lose(s).dropped == (Lost(before.log) + 1) % TWO_32
    ensures Drop(s).dropped == (Reported(before.log) + Drop(s).overflowDrops + FailedSyncs(before.log)) % TWO_32
    ensures Drop(s).dropped == (Lost(before.log) + 1) % TWO_32
  {
    hide Lost, Reported, FailedSyncs, WrapAdd;
    Wrapped(s.dropped, Lost(before.log), 1);
    Wrapped(s.dropped, Reported(before.log) + before.overflowDrops + FailedSyncs(before.log), 1);
    WrappedPart(s.dropped, s.overflowDrops, Reported(before.log) + FailedSyncs(before.log), 1);
  }

  lemma RecoveryBalanced(s: State, c: Config, env: Env, calls: nat)
    requires Balanced(s, calls) && s.dropping
    ensures var o := TryRecovery(s, c, env);
      if o.ok then Balanced(o.state, calls) else Balanced(o.state, calls + 1) && o.state.dropping
  {
    hide Encode, Reported, FailedSyncs, EventsWritten, Unsent, EventsLost, OpenOverflow;
    var p := Overflow(WrapSub(env.overflowTs, s.lastTs), s.overflowDrops);
    var a := Attempt(p, env.overflowTs, InEvent, Min(env.overflowRoom, |Encode(p)|));
    var q := Packet.Sync(env.syncTs, c.freq);
    var b := Attempt(q, env.syncTs, InEvent, Min(env.syncRoom, |Encode(q)|));
    Snoc(s.log, a);
    Snoc(s.log + [a], b);
    LoseBalanced(s, s);
  }

  lemma AdmitBalanced(s: State, c: Config, env: Env, calls: nat)
    requires Balanced(s, calls)
    ensures var o := Admit(s, c, env);
      if o.ok then Balanced(o.state, calls) && !o.state.dropping else Balanced(o.state, calls + 1) && o.state.dropping
  {
    hide Encode, Reported, FailedSyncs, EventsWritten, Unsent, EventsLost, OpenOverflow, Pow2;
    if s.dropping {
      RecoveryBalanced(s, c, env, calls);
    } else {
      var q := Packet.Sync(env.syncTs, c.freq);
      Snoc(s.log, Attempt(q, env.syncTs, InEvent, Min(env.syncRoom, |Encode(q)|)));
      LoseBalanced(s, s);
    }
  }

  lemma AdmittedBalanced(s: State, eid: OrdinaryId, payload: Payload, env: Env, calls: nat)
    requires Balanced(s, calls)
    ensures Balanced(EmitAdmitted(s, eid, payload, env), calls + 1)
  {
    hide Encode, Reported, FailedSyncs, EventsWritten, Unsent, EventsLost, OpenOverflow;
    var p := Event(eid, WrapSub(env.eventTs, s.lastTs), payload);
    Snoc(s.log, Attempt(p, env.eventTs, InEvent, Min(env.eventRoom, |Encode(p)|)));
    LoseBalanced(s, s);
  }

  lemma {:induction false} ChunksBalanced(s: State, d: Descriptor, i: nat, rooms: seq<nat>, calls: nat)
    requires Balanced(s, calls)
    ensures Balanced(EmitChunks(s, d, i, rooms), calls)
    decreases ChunkCount(d) - i
  {
    hide Encode, Reported, FailedSyncs, EventsWritten, Unsent, EventsLost, OpenOverflow, EmitChunks, ChunkCount,
         WrapAdd;
    if i >= ChunkCount(d) {
      ChunksOver(s, d, i, rooms);
    } else {
      ChunksTurn(s, d, i, rooms);
      var p := ChunkPacket(d, i);
      Snoc(s.log, Attempt(p, 0, InPreamble, Min(RoomAt(rooms, i), |Encode(p)|)));
      if Fits(p, RoomAt(rooms, i)) {
        ChunksBalanced(Write(s, p, 0, InPreamble, RoomAt(rooms, i)), d, i + 1, rooms, calls);
      } else {
        var left := ChunkCount(d) - i;
        Wrapped(s.dropped, Lost(s.log), left);
        WrappedPart(s.dropped, s.overflowDrops, Reported(s.log) + FailedSyncs(s.log), left);
      }
    }
  }

  lemma PreambleBalanced(s: State, c: Config, ts: uint32, room: nat, rooms: seq<nat>, calls: nat)
    requires Balanced(s, calls)
    ensures Balanced(EmitPreamble(s, c, ts, room, rooms).state, calls)
  {
    hide Encode, Reported, FailedSyncs, EventsWritten, Unsent, EventsLost, OpenOverflow, EmitChunks;
    var q := Packet.Sync(ts, c.freq);
    Snoc(s.log, Attempt(q, ts, InPreamble, Min(room, |Encode(q)|)));
    var o := EmitSync(s, c, ts, InPreamble, room);
    ChunksBalanced(o.state, c.descriptor, 0, rooms, calls);
  }

  lemma {:induction false} RunBalanced(r: Run)
    ensures Balanced(Final(r), EmitCalls(r.actions))
    decreases |r.actions|
  {
    hide EmitPreamble, EmitEvent, Balanced;
    if r.actions == [] {
      assert Balanced(RESET, 0) by { ResetBalanced(); }
      PreambleBalanced(RESET, r.config, r.syncTs, r.syncRoom, r.chunkRooms, 0);
    } else {
      var n := |r.actions| - 1;
      var before := Final(r.(actions := r.actions[..n]));
      RunBalanced(r.(actions := r.actions[..n]));
      var calls := EmitCalls(r.actions[..n]);
      match r.actions[n] {
        case Emit(eid, payload, env) => EmitBalanced(before, r.config, eid, payload, env, calls);
        case Preamble(ts, room, rooms) => PreambleBalanced(before, r.config, ts, room, rooms, calls);
      }
    }
  }

  lemma ResetBalanced()
    ensures Balanced(RESET, 0)
  {
  }

  lemma EmitBalanced(s: State, c: Config, eid: OrdinaryId, payload: Payload, env: Env, calls: nat)
    requires Balanced(s, calls)
    ensures Balanced(EmitEvent(s, c, eid, payload, env), calls + 1)
  {
    hide Balanced, Admit, EmitAdmitted;
    AdmitBalanced(s, c, env, calls);
    if Admit(s, c, env).ok {
      AdmittedBalanced(Admit(s, c, env).state, eid, payload, env, calls);
    }
  }

  // ----- The theorems -----

  /** In every run, modulo the counter width: `dropped` is what completed
      recoveries reported, plus what is pending, plus the sync writes that failed
      inside an emit call; and nothing is pending outside the dropping state. */
  lemma LossAccounting(r: Run)
    ensures var s := Final(r);
      && s.dropped == (Reported(s.log) + s.overflowDrops + FailedSyncs(s.log)) % TWO_32
      && (!s.dropping ==> s.overflowDrops == 0)
  {
    hide Reported, FailedSyncs, EventsWritten, EventsLost, Unsent, OpenOverflow, Final;
    RunBalanced(r);
  }

  /** So the reports are exact if and only if no sync write of an emit call fell
      short (as many as the counter can tell apart). */
  lemma ReportsExactIffNoFailedSync(r: Run)
    ensures var s := Final(r);
      s.dropped == (Reported(s.log) + s.overflowDrops) % TWO_32 <==> FailedSyncs(s.log) % TWO_32 == 0
  {
    hide Reported, FailedSyncs, EventsWritten, EventsLost, Unsent, OpenOverflow, Final;
    RunBalanced(r);
    var s := Final(r);
    SumUnchanged(Reported(s.log) + s.overflowDrops, FailedSyncs(s.log));
  }

  lemma SumUnchanged(x: int, y: int)
    ensures (x + y) % TWO_32 == x % TWO_32 <==> y % TWO_32 == 0
  {
  }

  /** With room for any packet, recovery succeeds and reports the pending count. */
  lemma RecoversWithRoom(s: State, c: Config, eid: OrdinaryId, payload: Payload, env: Env)
    requires s.dropping && !OpenOverflow(s.log)
    requires env.overflowRoom >= 255 && env.syncRoom >= 255 && env.eventRoom >= 255
    ensures var s1 := EmitEvent(s, c, eid, payload, env);
      && !s1.dropping && s1.overflowDrops == 0 && s1.dropped == s.dropped
      && Reported(s1.log) == Reported(s.log) + s.overflowDrops
      && EventsWritten(s1.log) == EventsWritten(s.log) + 1
  {
    hide Encode, Complete, Whole, EmitEvent, Reported, FailedSyncs, EventsWritten, Unsent, EventsLost, OpenOverflow;
    CallRecovers(s, c, eid, payload, env);
    var a := Whole(OverflowNow(s, env), env.overflowTs, InEvent);
    var b := Whole(Sync(env.syncTs, c.freq), env.syncTs, InEvent);
    var e := Whole(Event(eid, WrapSub(env.eventTs, env.syncTs), payload), env.eventTs, InEvent);
    Snoc(s.log, a);
    Snoc(s.log + [a], b);
    Snoc(s.log + [a] + [b], e);
    WholeIs(OverflowNow(s, env), env.overflowTs, InEvent);
    WholeIs(Sync(env.syncTs, c.freq), env.syncTs, InEvent);
    WholeIs(Event(eid, WrapSub(env.eventTs, env.syncTs), payload), env.eventTs, InEvent);
  }

  /** The claim that an overflow packet carries the exact drop count fails here:
      a call whose periodic sync finds no room, then a call with room for
      everything. One event is lost, none is reported, and the state is normal. */
  lemma FailedSyncIsNotReported(r: Run, eid: OrdinaryId, payload: Payload, noRoom: Env, room: Env)
    requires !Final(r).dropping && Final(r).syncCounter % Period(r.config) == 0
    requires noRoom.syncRoom < SYNC_LEN
    requires room.overflowRoom >= 255 && room.syncRoom >= 255 && room.eventRoom >= 255
    ensures var s := Final(r);
      var s2 := Final(r.(actions := r.actions + [Emit(eid, payload, noRoom)] + [Emit(eid, payload, room)]));
      && !s2.dropping && s2.overflowDrops == 0
      && s2.dropped == Inc(s.dropped) && Reported(s2.log) == Reported(s.log)
  {
    hide Encode, Reported, FailedSyncs, EventsWritten, Unsent, EventsLost, OpenOverflow, Pow2, EmitEvent, Final;
    var first, second := Emit(eid, payload, noRoom), Emit(eid, payload, room);
    var s, r1 := Final(r), r.(actions := r.actions + [first]);
    FinalSnoc(r, first);
    FinalSnoc(r1, second);
    CallFailsSync(s, r.config, eid, payload, noRoom);
    Snoc(s.log, Attempt(Sync(noRoom.syncTs, r.config.freq), noRoom.syncTs, InEvent, noRoom.syncRoom));
    RunBalanced(r);
    RunBalanced(r1);
    RecoversWithRoom(Final(r1), r.config, eid, payload, room);
  }

  /** Right after a first preamble with room for it, that is the case: a sync is
      due with the first call. */
  lemma BootsReadyToSync(r: Run)
    requires r.actions == [] && r.syncRoom >= 255 && forall i: nat :: i < ChunkCount(r.config.descriptor) ==> RoomAt(r.chunkRooms, i) >= 255
    ensures !Final(r).dropping && Final(r).syncCounter % Period(r.config) == 0
  {
    hide Encode, Pow2, RoomAt, EmitChunks;
    LengthByte(Sync(r.syncTs, r.config.freq));
    var o := EmitSync(RESET, r.config, r.syncTs, InPreamble, r.syncRoom);
    assert o.ok;
    assert 0 % Period(r.config) == 0;
    ChunksWithRoom(o.state, r.config.descriptor, 0, r.chunkRooms);
  }

  lemma {:induction false} ChunksWithRoom(s: State, d: Descriptor, i: nat, rooms: seq<nat>)
    requires forall k: nat :: i <= k < ChunkCount(d) ==> RoomAt(rooms, k) >= 255
    ensures var s1 := EmitChunks(s, d, i, rooms); s1 == s.(log := s1.log)
    decreases ChunkCount(d) - i
  {
    hide Encode, RoomAt;
    if i < ChunkCount(d) {
      LengthByte(ChunkPacket(d, i));
      ChunksWithRoom(Write(s, ChunkPacket(d, i), 0, InPreamble, RoomAt(rooms, i)), d, i + 1, rooms);
    }
  }

  /** In every run the emit calls are as many as the events whole in the stream and
      the events lost together; `dropped` counts the lost ones and the chunks given
      up on. So events written and `dropped` together are the calls and the unsent
      chunks, as far as the counter goes. */
  lemma EventConservation(r: Run)
    ensures var s := Final(r);
      && EventsWritten(s.log) + EventsLost(s.log) == EmitCalls(r.actions)
      && s.dropped == (EventsLost(s.log) + Unsent(s.log)) % TWO_32
      && (EventsWritten(s.log) + s.dropped) % TWO_32 == (EmitCalls(r.actions) + Unsent(s.log)) % TWO_32
  {
    hide Reported, FailedSyncs, EventsWritten, EventsLost, Unsent, OpenOverflow, Final;
    RunBalanced(r);
    var s := Final(r);
    ResidueAdds(EventsWritten(s.log), EventsLost(s.log) + Unsent(s.log));
  }

  lemma ResidueAdds(x: int, y: int)
    ensures (x + y % TWO_32) % TWO_32 == (x + y) % TWO_32
  {
  }
}
