/** End to end: when the host's timestamp of an overflow packet is right. */
module OverflowTimes {
  import opened Bytes
  import opened Packets
  import opened Metadata
  import opened Emitter
  import opened StreamShape
  import opened Delivery
  import opened Timestamps
  import Check = CheckDecoder

  /** The deltas that went into event writes that fell short, since the last whole
      sync: what the host's clock has not been told. */
  function LostDelta(log: Log): nat {
    if log == [] then 0
    else
      var last, before := log[|log| - 1], LostDelta(log[..|log| - 1]);
      if last.packet.Sync? && Complete(last) then 0
      else if last.packet.Event? && !Complete(last) then before + last.packet.delta
      else before
  }

  /** Host clock and lost deltas together are at the reading `ts`. */
  predicate Reads(log: Log, ts: uint32) { (HostClock(Delivered(log)) + LostDelta(log)) % TWO_32 == ts }

  /** So behind every whole overflow packet that comes after a sync. */
  predicate OverflowsRead(log: Log) {
    log == [] ||
    var init, last := log[..|log| - 1], log[|log| - 1];
      OverflowsRead(init) && (last.packet.Overflow? && Complete(last) && Synced(init) ==> Reads(log, last.ts))
  }

  lemma Snoc(log: Log, a: Attempt)
    ensures LostDelta(log + [a])
         == if a.packet.Sync? && Complete(a) then 0
            else LostDelta(log) + if a.packet.Event? && !Complete(a) then a.packet.delta else 0
    ensures HostClock(Delivered(log + [a]))
         == if Complete(a) then Check.PacketTick(a.packet, HostClock(Delivered(log))) else HostClock(Delivered(log))
    ensures OverflowsRead(log + [a])
       <==> OverflowsRead(log) && (a.packet.Overflow? && Complete(a) && Synced(log) ==> Reads(log + [a], a.ts))
    ensures Synced(log + [a]) <==> Synced(log) || (a.packet.Sync? && Complete(a))
  {
    hide Encode, Complete, Delivered, HostClock, Synced, Reads, Check.PacketTick;
    TakeInit(log, a);
    Timestamps.Snoc(log, a);
    StreamShape.Snoc(log, a, 0);
  }

  // ----- The invariant -----

  /** The delta anchor is that reading, dropping or not. */
  predicate Tracked(s: State) {
    OverflowsRead(s.log) && (Synced(s.log) ==> Reads(s.log, s.lastTs))
  }

  lemma SyncTracked(s: State, c: Config, ts: uint32, cause: Cause, room: nat)
    requires Tracked(s)
    ensures Tracked(EmitSync(s, c, ts, cause, room).state)
  {
    hide Encode, Delivered, HostClock, Synced, LostDelta, OverflowsRead;
    var p := Packet.Sync(ts, c.freq);
    Snoc(s.log, Attempt(p, ts, cause, Min(room, |Encode(p)|)));
    assert ts % TWO_32 == ts;
  }

  lemma OverflowTracked(s: State, env: Env)
    requires Tracked(s)
    ensures var p := Overflow(WrapSub(env.overflowTs, s.lastTs), s.overflowDrops);
      var s1 := Write(s, p, env.overflowTs, InEvent, env.overflowRoom);
      if Fits(p, env.overflowRoom) then Tracked(s1.(lastTs := env.overflowTs)) else Tracked(s1)
  {
    hide Encode, Delivered, HostClock, Synced, LostDelta, OverflowsRead;
    var p := Overflow(WrapSub(env.overflowTs, s.lastTs), s.overflowDrops);
    Snoc(s.log, Attempt(p, env.overflowTs, InEvent, Min(env.overflowRoom, |Encode(p)|)));
    if Synced(s.log) {
      DeltaBringsToNow(HostClock(Delivered(s.log)) + LostDelta(s.log), s.lastTs, env.overflowTs);
    }
  }

  lemma TrackedIgnores(s: State)
    ensures forall t: State {:trigger Tracked(t)} :: t.lastTs == s.lastTs && t.log == s.log ==> (Tracked(t) <==> Tracked(s))
  {
    hide Synced, Reads, OverflowsRead;
  }

  lemma AdmitTracked(s: State, c: Config, env: Env)
    requires Tracked(s)
    ensures Tracked(Admit(s, c, env).state)
  {
    hide Encode, Tracked, EmitSync, Write, Fits, Pow2;
    TrackedIgnores(s);
    if s.dropping {
      OverflowTracked(s, env);
      var p := Overflow(WrapSub(env.overflowTs, s.lastTs), s.overflowDrops);
      var s1 := Write(s, p, env.overflowTs, InEvent, env.overflowRoom);
      TrackedIgnores(s1);
      if Fits(p, env.overflowRoom) {
        SyncTracked(s1.(lastTs := env.overflowTs), c, env.syncTs, InEvent, env.syncRoom);
        TrackedIgnores(EmitSync(s1.(lastTs := env.overflowTs), c, env.syncTs, InEvent, env.syncRoom).state);
      }
    } else {
      var s1 := s.(syncCounter := Inc(s.syncCounter));
      SyncTracked(s1, c, env.syncTs, InEvent, env.syncRoom);
      TrackedIgnores(EmitSync(s1, c, env.syncTs, InEvent, env.syncRoom).state);
    }
  }

  lemma EmitTracked(s: State, c: Config, eid: OrdinaryId, payload: Payload, env: Env)
    requires Tracked(s)
    ensures Tracked(EmitEvent(s, c, eid, payload, env))
  {
    hide Encode, Delivered, HostClock, Synced, LostDelta, OverflowsRead, Admit;
    AdmitTracked(s, c, env);
    var t := Admit(s, c, env).state;
    var p := Event(eid, WrapSub(env.eventTs, t.lastTs), payload);
    Snoc(t.log, Attempt(p, env.eventTs, InEvent, Min(env.eventRoom, |Encode(p)|)));
    if Synced(t.log) {
      DeltaBringsToNow(HostClock(Delivered(t.log)) + LostDelta(t.log), t.lastTs, env.eventTs);
    }
  }

  lemma {:induction false} ChunksTracked(s: State, d: Descriptor, i: nat, rooms: seq<nat>)
    requires Tracked(s)
    ensures Tracked(EmitChunks(s, d, i, rooms))
    decreases ChunkCount(d) - i
  {
    hide Encode, Delivered, HostClock, Synced, LostDelta, OverflowsRead, EmitChunks, ChunkCount, WrapAdd;
    if i >= ChunkCount(d) {
      ChunksOver(s, d, i, rooms);
    } else {
      ChunksTurn(s, d, i, rooms);
      var p := ChunkPacket(d, i);
      Snoc(s.log, Attempt(p, 0, InPreamble, Min(RoomAt(rooms, i), |Encode(p)|)));
      if Fits(p, RoomAt(rooms, i)) {
        ChunksTracked(Write(s, p, 0, InPreamble, RoomAt(rooms, i)), d, i + 1, rooms);
      }
    }
  }

  lemma PreambleTracked(s: State, c: Config, ts: uint32, room: nat, rooms: seq<nat>)
    requires Tracked(s)
    ensures Tracked(EmitPreamble(s, c, ts, room, rooms).state)
  {
    hide Encode, Tracked, EmitSync, EmitChunks;
    SyncTracked(s, c, ts, InPreamble, room);
    var o := EmitSync(s, c, ts, InPreamble, room);
    if o.ok {
      ChunksTracked(o.state, c.descriptor, 0, rooms);
    }
  }

  lemma {:induction false} RunTracked(r: Run)
    ensures Tracked(Final(r))
    decreases |r.actions|
  {
    hide EmitPreamble, EmitEvent, Tracked;
    if r.actions == [] {
      assert Tracked(RESET) by { ResetTracked(); }
      PreambleTracked(RESET, r.config, r.syncTs, r.syncRoom, r.chunkRooms);
    } else {
      var n := |r.actions| - 1;
      var earlier := r.(actions := r.actions[..n]);
      RunTracked(earlier);
      match r.actions[n] {
        case Emit(eid, payload, env) => EmitTracked(Final(earlier), r.config, eid, payload, env);
        case Preamble(ts, room, rooms) => PreambleTracked(Final(earlier), r.config, ts, room, rooms);
      }
    }
  }

  lemma ResetTracked()
    ensures Tracked(RESET)
  {
  }

  // ----- The theorem -----

  lemma {:induction false} OverflowsReadAt(log: Log, j: nat)
    requires OverflowsRead(log) && j < |log| && log[j].packet.Overflow? && Complete(log[j]) && Synced(log[..j])
    ensures Reads(log[..j + 1], log[j].ts)
  {
    hide Encode, Complete, Synced, Reads;
    if j < |log| - 1 {
      TakeTake(log, |log| - 1, j);
      TakeTake(log, |log| - 1, j + 1);
      OverflowsReadAt(log[..|log| - 1], j);
    } else {
      assert log[..j + 1] == log;
    }
  }

  lemma {:induction false} DeliveredPrefix(log: Log, n: nat)
    requires n <= |log|
    ensures Delivered(log[..n]) <= Delivered(log)
  {
    hide Encode, Complete, Delivered, Stream;
    if n < |log| {
      var init, last := log[..|log| - 1], log[|log| - 1];
      InitAndLast(log);
      DeliveredSnoc(init, last);
      TakeTake(log, |init|, n);
      DeliveredPrefix(init, n);
    } else {
      assert log[..n] == log;
    }
  }

  /** Take any run over any sink, and a whole overflow packet behind a whole sync.
      The host's time at it is the firmware's reading, modulo 2^32, if and only if no
      time went into an event write that fell short since that sync: the delta of
      that event is missing from the host's clock. */
  lemma OverflowTimeIff(r: Run, j: nat)
    requires var log := Final(r).log;
      j < |log| && log[j].packet.Overflow? && Complete(log[j]) && Synced(log[..j])
    ensures var log := Final(r).log;
      var ps, i := Stream(log), |Delivered(log[..j])|;
      && Preface(ps) <= i < |ps| && ps[i] == log[j].packet
      && (HostTime(ps, i) + LostDelta(log[..j])) % TWO_32 == log[j].ts
      && (HostTime(ps, i) % TWO_32 == log[j].ts <==> LostDelta(log[..j]) % TWO_32 == 0)
  {
    hide Encode, Final, Complete, Delivered, Synced, HostTime, LostDelta, OverflowsRead, Check.PacketClock, Preface;
    var log := Final(r).log;
    RunTracked(r);
    OverflowsReadAt(log, j);
    InitAndLast(log[..j + 1]);
    TakeTake(log, j + 1, j);
    Snoc(log[..j], log[j]);
    DeliveredUpTo(log, j);
    HostClockOfPackets(Stream(log), |Delivered(log[..j])|);
    Missing(HostClock(Delivered(log[..j + 1])), LostDelta(log[..j]), log[j].ts);
  }

  lemma Missing(clock: nat, lost: nat, ts: uint32)
    requires (clock + lost) % TWO_32 == ts
    ensures clock % TWO_32 == ts <==> lost % TWO_32 == 0
  {
  }

  /** Where a whole write lands among the delivered ones. */
  lemma DeliveredUpTo(log: Log, j: nat)
    requires j < |log| && Complete(log[j]) && Synced(log[..j])
    ensures var ds, i := Delivered(log), |Delivered(log[..j])|;
      && Preface(PacketsOf(ds)) <= i < |ds| && ds[i] == log[j]
      && PacketsOf(ds)[..i + 1] == PacketsOf(Delivered(log[..j + 1]))
  {
    hide Encode, Complete, Delivered, Synced, Preface, Stream;
    var before, upTo := log[..j], log[..j + 1];
    var ds, i := Delivered(log), |Delivered(before)|;
    assert upTo == before + [log[j]];
    DeliveredSnoc(before, log[j]);
    DeliveredPrefix(log, j + 1);
    assert ds[i] == Delivered(upTo)[i];
    SyncedMeans(before);
    var m :| 0 <= m < |before| && before[m].packet.Sync? && Complete(before[m]);
    DeliveredContains(before, m);
    var h :| 0 <= h < |Delivered(before)| && Delivered(before)[h] == before[m];
    assert ds[h] == Delivered(upTo)[h] == Delivered(before)[h];
    PrefaceUpTo(PacketsOf(ds), h);
  }

  lemma {:induction false} DeliveredContains(log: Log, m: nat)
    requires m < |log| && Complete(log[m])
    ensures exists h :: 0 <= h < |Delivered(log)| && Delivered(log)[h] == log[m]
  {
    hide Encode, Complete, Delivered, Stream;
    var init, last := log[..|log| - 1], log[|log| - 1];
    InitAndLast(log);
    DeliveredSnoc(init, last);
    if m < |init| {
      DeliveredContains(init, m);
      var h :| 0 <= h < |Delivered(init)| && Delivered(init)[h] == init[m];
      assert Delivered(log)[h] == log[m];
    } else {
      assert Delivered(log)[|Delivered(init)|] == last;
    }
  }

  /** Dropping that began with a failed sync or chunk loses no time: without a short
      event write since the last whole sync every overflow packet is on time. */
  lemma {:induction false} NoTimeLost(log: Log, k: nat)
    requires k < |log| && log[k].packet.Sync? && Complete(log[k])
    requires forall e :: k < e < |log| && log[e].packet.Event? ==> Complete(log[e])
    ensures LostDelta(log) == 0
  {
    hide Encode, Complete;
    if k < |log| - 1 {
      var init := log[..|log| - 1];
      assert forall e :: 0 <= e < |init| ==> init[e] == log[e];
      NoTimeLost(init, k);
    }
  }
}
