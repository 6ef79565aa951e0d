/** What every write of a run contains, whole or not, and what a preamble returns. */
module Writes {
  import opened Bytes
  import opened Packets
  import opened Metadata
  import opened Emitter

  /** A sync carries its own reading and the clock frequency; events and overflow
      packets come from emit calls; metadata comes from preambles and is a chunk of
      the descriptor. */
  predicate Formed(a: Attempt, c: Config) {
    match a.packet
    case Sync(ts, freq) => ts == a.ts && freq == c.freq
    case Event(_, _, _) => a.cause == InEvent
    case Overflow(_, _) => a.cause == InEvent
    case Metadata(index, _, _) =>
      a.cause == InPreamble && index < ChunkCount(c.descriptor) && a.packet == ChunkPacket(c.descriptor, index)
  }

  predicate AllFormed(log: Log, c: Config) { forall i :: 0 <= i < |log| ==> Formed(log[i], c) }

  lemma FormedSnoc(log: Log, a: Attempt, c: Config)
    requires AllFormed(log, c) && Formed(a, c)
    ensures AllFormed(log + [a], c)
  {
    hide Encode, Formed;
  }

  lemma AdmitFormed(s: State, c: Config, env: Env)
    requires AllFormed(s.log, c)
    ensures AllFormed(Admit(s, c, env).state.log, c)
  {
    hide Encode, AllFormed, Pow2, ChunkPacket, ChunkCount;
    var p := Overflow(WrapSub(env.overflowTs, s.lastTs), s.overflowDrops);
    var a := Attempt(p, env.overflowTs, InEvent, Min(env.overflowRoom, |Encode(p)|));
    var q := Packet.Sync(env.syncTs, c.freq);
    var b := Attempt(q, env.syncTs, InEvent, Min(env.syncRoom, |Encode(q)|));
    FormedSnoc(s.log, a, c);
    FormedSnoc(s.log, b, c);
    FormedSnoc(s.log + [a], b, c);
  }

  lemma EmitFormed(s: State, c: Config, eid: OrdinaryId, payload: Payload, env: Env)
    requires AllFormed(s.log, c)
    ensures AllFormed(EmitEvent(s, c, eid, payload, env).log, c)
  {
    hide Encode, AllFormed, Admit, ChunkPacket, ChunkCount;
    AdmitFormed(s, c, env);
    var t := Admit(s, c, env).state;
    var p := Event(eid, WrapSub(env.eventTs, t.lastTs), payload);
    FormedSnoc(t.log, Attempt(p, env.eventTs, InEvent, Min(env.eventRoom, |Encode(p)|)), c);
  }

  lemma {:induction false} ChunksFormed(s: State, c: Config, i: nat, rooms: seq<nat>)
    requires AllFormed(s.log, c)
    ensures AllFormed(EmitChunks(s, c.descriptor, i, rooms).log, c)
    decreases ChunkCount(c.descriptor) - i
  {
    hide Encode, AllFormed, EmitChunks, ChunkCount, Chunk, WrapAdd;
    var d := c.descriptor;
    if i >= ChunkCount(d) {
      ChunksOver(s, d, i, rooms);
    } else {
      ChunksTurn(s, d, i, rooms);
      var p := ChunkPacket(d, i);
      FormedSnoc(s.log, Attempt(p, 0, InPreamble, Min(RoomAt(rooms, i), |Encode(p)|)), c);
      if Fits(p, RoomAt(rooms, i)) {
        ChunksFormed(Write(s, p, 0, InPreamble, RoomAt(rooms, i)), c, i + 1, rooms);
      }
    }
  }

  lemma PreambleFormed(s: State, c: Config, ts: uint32, room: nat, rooms: seq<nat>)
    requires AllFormed(s.log, c)
    ensures AllFormed(EmitPreamble(s, c, ts, room, rooms).state.log, c)
  {
    hide Encode, AllFormed, EmitChunks, ChunkPacket, ChunkCount;
    var q := Packet.Sync(ts, c.freq);
    FormedSnoc(s.log, Attempt(q, ts, InPreamble, Min(room, |Encode(q)|)), c);
    var o := EmitSync(s, c, ts, InPreamble, room);
    if o.ok {
      ChunksFormed(o.state, c, 0, rooms);
    }
  }

  /** In every run, every write, whole or not, is formed like that. */
  lemma {:induction false} WritesAreFormed(r: Run)
    ensures AllFormed(Final(r).log, r.config)
    decreases |r.actions|
  {
    hide EmitPreamble, EmitEvent, AllFormed;
    if r.actions == [] {
      assert AllFormed(RESET.log, r.config) by { NoneFormed(r.config); }
      PreambleFormed(RESET, r.config, r.syncTs, r.syncRoom, r.chunkRooms);
    } else {
      var n := |r.actions| - 1;
      var earlier := r.(actions := r.actions[..n]);
      WritesAreFormed(earlier);
      match r.actions[n] {
        case Emit(eid, payload, env) => EmitFormed(Final(earlier), r.config, eid, payload, env);
        case Preamble(ts, room, rooms) => PreambleFormed(Final(earlier), r.config, ts, room, rooms);
      }
    }
  }

  lemma NoneFormed(c: Config)
    ensures AllFormed([], c)
  {
  }

  // ----- The bytes in the stream -----

  /** How many bytes the sink took. */
  function Taken(log: Log): nat {
    if log == [] then 0 else Taken(log[..|log| - 1]) + log[|log| - 1].accepted
  }

  /** Over any sink the stream is as long as what it took, and what it took of the
      j-th packet, whole or not, is in the stream behind what it took before. */
  lemma {:induction false} StreamHolds(log: Log, j: nat)
    requires j < |log|
    ensures |Written(log)| == Taken(log)
    ensures At(Written(log), Taken(log[..j]), Encode(log[j].packet)[..log[j].accepted])
  {
    hide Encode, At;
    var init, last := log[..|log| - 1], log[|log| - 1];
    InitAndLast(log);
    WrittenSnoc(init, last);
    var more := Encode(last.packet)[..last.accepted];
    if init == [] {
      NothingTaken();
      AtEnd([], more);
    } else {
      StreamHolds(init, if j < |init| then j else 0);
      if j < |init| {
        TakeTake(log, |init|, j);
        AtExtend(Written(init), more, Taken(log[..j]), Encode(log[j].packet)[..log[j].accepted]);
      } else {
        AtEnd(Written(init), more);
      }
    }
  }

  lemma NothingTaken()
    ensures Written([]) == [] && Taken([]) == 0
  {
  }

  lemma AtEnd(a: seq<byte>, b: seq<byte>)
    ensures At(a + b, |a|, b)
  {
    assert (a + b)[|a|..|a| + |b|] == b;
  }

  // ----- What a preamble returns -----

  /** A preamble, whatever went before, first attempts a sync with its own reading,
      and returns whether that was whole. Only then do chunks follow, and the host's
      session start. */
  lemma PreambleOkIff(s: State, c: Config, ts: uint32, room: nat, rooms: seq<nat>)
    ensures var o := EmitPreamble(s, c, ts, room, rooms);
      var n, log := |s.log|, o.state.log;
      && |log| > n && log[..n] == s.log
      && log[n].packet == Sync(ts, c.freq) && log[n].ts == ts && log[n].cause == InPreamble
      && (o.ok <==> Complete(log[n])) && (o.ok <==> room >= SYNC_LEN)
      && (!o.ok ==> |log| == n + 1)
  {
    LengthByte(Sync(ts, c.freq));
    hide Encode, EmitChunks;
    var o := EmitSync(s, c, ts, InPreamble, room);
    ChunksExtend(o.state, c.descriptor, 0, rooms);
  }

  lemma {:induction false} ChunksExtend(s: State, d: Descriptor, i: nat, rooms: seq<nat>)
    ensures s.log <= EmitChunks(s, d, i, rooms).log
    decreases ChunkCount(d) - i
  {
    hide Encode, EmitChunks, ChunkCount, Chunk, WrapAdd;
    if i >= ChunkCount(d) {
      ChunksOver(s, d, i, rooms);
    } else {
      ChunksTurn(s, d, i, rooms);
      var p := ChunkPacket(d, i);
      if Fits(p, RoomAt(rooms, i)) {
        ChunksExtend(Write(s, p, 0, InPreamble, RoomAt(rooms, i)), d, i + 1, rooms);
      }
    }
  }
}
