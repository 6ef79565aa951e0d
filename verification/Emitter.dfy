/** The firmware emitter: overflow state machine, delta timestamps, periodic sync
    and the stream preamble, over a sink that takes any prefix of a packet. */
module Emitter {
  import opened Bytes
  import opened Packets
  import opened Metadata
  import Varint

  // ----- What is written -----

  /** Who asked for a write: an emit call, or the stream preamble. */
  datatype Cause = InEvent | InPreamble

  datatype RawAttempt = Attempt(packet: Packet, ts: uint32, cause: Cause, accepted: nat)

  /** One call of the transport: the packet, the clock reading behind it (zero for
      metadata, which has none), and how many bytes the sink took. */
  type Attempt = a: RawAttempt | a.accepted <= |Encode(a.packet)|
    witness Attempt(Sync(0, 0), 0, InEvent, 0)

  predicate Complete(a: Attempt) { a.accepted == |Encode(a.packet)| }

  type Log = seq<Attempt>

  /** The bytes in the stream. */
  function Written(log: Log): seq<byte> {
    if log == [] then []
    else
      var last := log[|log| - 1];
      Written(log[..|log| - 1]) + Encode(last.packet)[..last.accepted]
  }

  lemma WrittenSnoc(log: Log, a: Attempt)
    ensures Written(log + [a]) == Written(log) + Encode(a.packet)[..a.accepted]
  {
    hide Encode;
    assert (log + [a])[..|log|] == log;
  }

  // ----- State -----

  datatype RawConfig = Config(shift: nat, freq: uint32, descriptor: Descriptor)

  /** The sync period is 1U << shift, defined for shifts below 32. */
  type Config = c: RawConfig | c.shift <= 31 witness Config(8, 0, [0])

  function Pow2(n: nat): (p: nat)
    ensures p >= 1
  {
    if n == 0 then 1 else 2 * Pow2(n - 1)
  }

  function Period(c: Config): nat { Pow2(c.shift) }

  /** The firmware's globals, and the history of its writes. */
  datatype State = State(lastTs: uint32, syncCounter: uint32, dropping: bool,
                         overflowDrops: uint32, dropped: uint32, log: Log)

  /** Just after the resets of `embedder_transport_init`. */
  const RESET: State := State(0, 0, false, 0, 0, [])

  // ----- One step -----

  /** What the environment supplies to one emit call: clock readings, and how many
      bytes the sink has room for at each of up to three writes. */
  datatype Env = Env(overflowTs: uint32, overflowRoom: nat, syncTs: uint32, syncRoom: nat, eventTs: uint32, eventRoom: nat)

  datatype Action =
    | Emit(eid: OrdinaryId, payload: Payload, env: Env)
    | Preamble(syncTs: uint32, syncRoom: nat, chunkRooms: seq<nat>)

  datatype Outcome = Outcome(state: State, ok: bool)

  predicate Fits(p: Packet, room: nat) { |Encode(p)| <= room }

  /** A write, whole or cut short. */
  function Write(s: State, p: Packet, ts: uint32, cause: Cause, room: nat): State {
    s.(log := s.log + [Attempt(p, ts, cause, Min(room, |Encode(p)|))])
  }

  /** One more event lost. */
  function Lose(s: State): State { s.(dropped := Inc(s.dropped)) }

  /** One more event lost that the next overflow packet will report. */
  function Drop(s: State): State {
    s.(dropped := Inc(s.dropped), overflowDrops := Inc(s.overflowDrops))
  }

  function EmitSync(s: State, c: Config, ts: uint32, cause: Cause, room: nat): Outcome {
    var p := Sync(ts, c.freq);
    var s1 := Write(s, p, ts, cause, room);
    if Fits(p, room) then Outcome(s1.(lastTs := ts), true) else Outcome(s1, false)
  }

  function TryRecovery(s: State, c: Config, env: Env): Outcome {
    var p := Overflow(WrapSub(env.overflowTs, s.lastTs), s.overflowDrops);
    var s1 := Write(s, p, env.overflowTs, InEvent, env.overflowRoom);
    if !Fits(p, env.overflowRoom) then Outcome(Drop(s1), false)
    else
      var sync := EmitSync(s1.(lastTs := env.overflowTs), c, env.syncTs, InEvent, env.syncRoom);
      if !sync.ok then Outcome(Lose(sync.state.(dropping := true)), false)
      else Outcome(sync.state.(dropping := false, overflowDrops := 0), true)
  }

  /** What comes before the event itself: recovery, or the periodic sync. */
  function Admit(s: State, c: Config, env: Env): Outcome {
    if s.dropping then TryRecovery(s, c, env)
    else
      var s1 := s.(syncCounter := Inc(s.syncCounter));
      if s.syncCounter % Period(c) == 0 then
        var sync := EmitSync(s1, c, env.syncTs, InEvent, env.syncRoom);
        if !sync.ok then Outcome(Lose(sync.state.(dropping := true)), false) else sync
      else Outcome(s1, true)
  }

  /** The event; the delta anchor moves whether or not the write succeeds. */
  function EmitAdmitted(s: State, eid: OrdinaryId, payload: Payload, env: Env): State {
    var p := Event(eid, WrapSub(env.eventTs, s.lastTs), payload);
    var s1 := Write(s.(lastTs := env.eventTs), p, env.eventTs, InEvent, env.eventRoom);
    if Fits(p, env.eventRoom) then s1 else Drop(s1.(dropping := true))
  }

  function EmitEvent(s: State, c: Config, eid: OrdinaryId, payload: Payload, env: Env): State {
    var o := Admit(s, c, env);
    if o.ok then EmitAdmitted(o.state, eid, payload, env) else o.state
  }

  function RoomAt(rooms: seq<nat>, i: nat): nat { if i < |rooms| then rooms[i] else 0 }

  /** Chunks from `i` on; the first short write gives up all that are left. */
  function EmitChunks(s: State, d: Descriptor, i: nat, rooms: seq<nat>): State
    decreases ChunkCount(d) - i
  {
    if i >= ChunkCount(d) then s
    else
      var p := ChunkPacket(d, i);
      var s1 := Write(s, p, 0, InPreamble, RoomAt(rooms, i));
      if Fits(p, RoomAt(rooms, i)) then EmitChunks(s1, d, i + 1, rooms)
      else
        var left := ChunkCount(d) - i;
        s1.(dropped := WrapAdd(s.dropped, left), overflowDrops := WrapAdd(s.overflowDrops, left), dropping := true)
  }

  /** One turn of the chunk loop. */
  lemma ChunksTurn(s: State, d: Descriptor, i: nat, rooms: seq<nat>)
    requires i < ChunkCount(d)
    ensures var p := ChunkPacket(d, i);
      var s1 := Write(s, p, 0, InPreamble, RoomAt(rooms, i));
      var left := ChunkCount(d) - i;
      EmitChunks(s, d, i, rooms) ==
        if Fits(p, RoomAt(rooms, i)) then EmitChunks(s1, d, i + 1, rooms)
        else s1.(dropped := WrapAdd(s.dropped, left), overflowDrops := WrapAdd(s.overflowDrops, left), dropping := true)
  {
  }

  lemma ChunksOver(s: State, d: Descriptor, i: nat, rooms: seq<nat>)
    requires i >= ChunkCount(d)
    ensures EmitChunks(s, d, i, rooms) == s
  {
  }

  function EmitPreamble(s: State, c: Config, syncTs: uint32, syncRoom: nat, rooms: seq<nat>): Outcome {
    var sync := EmitSync(s, c, syncTs, InPreamble, syncRoom);
    if sync.ok then Outcome(EmitChunks(sync.state, c.descriptor, 0, rooms), true) else sync
  }

  function Step(s: State, c: Config, a: Action): State {
    match a
    case Emit(eid, payload, env) => EmitEvent(s, c, eid, payload, env)
    case Preamble(ts, room, rooms) => EmitPreamble(s, c, ts, room, rooms).state
  }

  /** A run: the resets and first preamble of `embedder_transport_init`, then any
      emit calls and repeated preambles, in any environment. */
  datatype Run = Run(config: Config, syncTs: uint32, syncRoom: nat, chunkRooms: seq<nat>, actions: seq<Action>)

  function Booted(r: Run): State {
    EmitPreamble(RESET, r.config, r.syncTs, r.syncRoom, r.chunkRooms).state
  }

  function Final(r: Run): State
    decreases |r.actions|
  {
    if r.actions == [] then Booted(r)
    else
      var n := |r.actions| - 1;
      Step(Final(r.(actions := r.actions[..n])), r.config, r.actions[n])
  }

  lemma FinalSnoc(r: Run, a: Action)
    ensures Final(r.(actions := r.actions + [a])) == Step(Final(r), r.config, a)
  {
    var all := r.actions + [a];
    assert all[..|r.actions|] == r.actions;
    assert r.(actions := r.actions) == r;
  }

  /** The run up to and without its n-th action. */
  function UpTo(r: Run, n: nat): Run
    requires n <= |r.actions|
  {
    r.(actions := r.actions[..n])
  }

  lemma StepOfRun(r: Run, n: nat)
    requires n < |r.actions|
    ensures Final(UpTo(r, n + 1)) == Step(Final(UpTo(r, n)), r.config, r.actions[n])
  {
    hide Final;
    FinalSnoc(UpTo(r, n), r.actions[n]);
    assert r.actions[..n + 1] == r.actions[..n] + [r.actions[n]];
  }

  function EmitCalls(actions: seq<Action>): nat {
    if actions == [] then 0
    else EmitCalls(actions[..|actions| - 1]) + if actions[|actions| - 1].Emit? then 1 else 0
  }

  // ----- Calls in particular environments -----

  /** A packet taken whole, and one not taken at all. */
  function Whole(p: Packet, ts: uint32, cause: Cause): (a: Attempt)
    ensures Complete(a)
  {
    Attempt(p, ts, cause, |Encode(p)|)
  }

  function Refused(p: Packet, ts: uint32, cause: Cause): (a: Attempt)
    ensures !Complete(a)
  {
    LengthByte(p);
    Attempt(p, ts, cause, 0)
  }

  lemma WholeIs(p: Packet, ts: uint32, cause: Cause)
    ensures var a := Whole(p, ts, cause); a.packet == p && a.ts == ts && a.cause == cause && Complete(a)
  {
    hide Encode;
  }

  lemma NoneIsIncomplete(a: Attempt)
    requires a.accepted == 0
    ensures !Complete(a)
  {
    LengthByte(a.packet);
  }

  lemma WriteWhole(s: State, p: Packet, ts: uint32, cause: Cause, room: nat)
    requires room >= 255
    ensures Fits(p, room) && Write(s, p, ts, cause, room) == s.(log := s.log + [Whole(p, ts, cause)])
  {
    LengthByte(p);
    hide Encode;
  }

  lemma WriteRefused(s: State, p: Packet, ts: uint32, cause: Cause)
    ensures !Fits(p, 0) && Write(s, p, ts, cause, 0) == s.(log := s.log + [Refused(p, ts, cause)])
  {
    LengthByte(p);
    hide Encode;
  }

  lemma SyncWithRoom(s: State, c: Config, ts: uint32, cause: Cause, room: nat)
    requires room >= 255
    ensures EmitSync(s, c, ts, cause, room)
         == Outcome(s.(log := s.log + [Whole(Sync(ts, c.freq), ts, cause)], lastTs := ts), true)
  {
    hide Encode, Write, Whole, Fits;
    WriteWhole(s, Sync(ts, c.freq), ts, cause, room);
  }

  lemma SyncCutShort(s: State, c: Config, ts: uint32, cause: Cause, room: nat)
    requires room < SYNC_LEN
    ensures room < |Encode(Sync(ts, c.freq))|
    ensures EmitSync(s, c, ts, cause, room)
         == Outcome(s.(log := s.log + [Attempt(Sync(ts, c.freq), ts, cause, room)]), false)
  {
    LengthByte(Sync(ts, c.freq));
    hide Encode;
  }

  function OverflowNow(s: State, env: Env): Packet { Overflow(WrapSub(env.overflowTs, s.lastTs), s.overflowDrops) }

  /** Dropping, with no room for the overflow packet. */
  lemma CallStillDropping(s: State, c: Config, eid: OrdinaryId, payload: Payload, env: Env)
    requires s.dropping && env.overflowRoom == 0
    ensures EmitEvent(s, c, eid, payload, env)
         == Drop(s.(log := s.log + [Refused(OverflowNow(s, env), env.overflowTs, InEvent)]))
  {
    hide Encode, Write, Refused, EmitAdmitted, EmitSync, Fits;
    WriteRefused(s, OverflowNow(s, env), env.overflowTs, InEvent);
  }

  /** Dropping, with room for the overflow packet but not for the sync. */
  lemma CallFailsRecovery(s: State, c: Config, eid: OrdinaryId, payload: Payload, env: Env)
    requires s.dropping && env.overflowRoom >= 255 && env.syncRoom < SYNC_LEN
    ensures var q := Sync(env.syncTs, c.freq);
      && env.syncRoom < |Encode(q)|
      && EmitEvent(s, c, eid, payload, env)
         == Lose(s.(lastTs := env.overflowTs,
                    log := s.log + [Whole(OverflowNow(s, env), env.overflowTs, InEvent)]
                           + [Attempt(q, env.syncTs, InEvent, env.syncRoom)]))
  {
    hide Encode, Write, Whole, EmitAdmitted, EmitSync, Fits;
    WriteWhole(s, OverflowNow(s, env), env.overflowTs, InEvent, env.overflowRoom);
    var s1 := s.(log := s.log + [Whole(OverflowNow(s, env), env.overflowTs, InEvent)]);
    SyncCutShort(s1.(lastTs := env.overflowTs), c, env.syncTs, InEvent, env.syncRoom);
  }

  /** Dropping, with room for everything. */
  lemma CallRecovers(s: State, c: Config, eid: OrdinaryId, payload: Payload, env: Env)
    requires s.dropping && env.overflowRoom >= 255 && env.syncRoom >= 255 && env.eventRoom >= 255
    ensures EmitEvent(s, c, eid, payload, env)
         == State(env.eventTs, s.syncCounter, false, 0, s.dropped,
                  s.log + [Whole(OverflowNow(s, env), env.overflowTs, InEvent)]
                  + [Whole(Sync(env.syncTs, c.freq), env.syncTs, InEvent)]
                  + [Whole(Event(eid, WrapSub(env.eventTs, env.syncTs), payload), env.eventTs, InEvent)])
  {
    hide Encode, Write, Whole, EmitSync, Fits, EmitAdmitted;
    WriteWhole(s, OverflowNow(s, env), env.overflowTs, InEvent, env.overflowRoom);
    var s1 := s.(log := s.log + [Whole(OverflowNow(s, env), env.overflowTs, InEvent)], lastTs := env.overflowTs);
    SyncWithRoom(s1, c, env.syncTs, InEvent, env.syncRoom);
    var s2 := s1.(log := s1.log + [Whole(Sync(env.syncTs, c.freq), env.syncTs, InEvent)], lastTs := env.syncTs,
                  dropping := false, overflowDrops := 0);
    assert Admit(s, c, env) == Outcome(s2, true);
    AdmittedWithRoom(s2, eid, payload, env);
  }

  lemma AdmittedWithRoom(s: State, eid: OrdinaryId, payload: Payload, env: Env)
    requires env.eventRoom >= 255
    ensures EmitAdmitted(s, eid, payload, env)
         == s.(lastTs := env.eventTs, log := s.log + [Whole(Event(eid, WrapSub(env.eventTs, s.lastTs), payload), env.eventTs, InEvent)])
  {
    hide Encode, Write, Whole, Fits;
    WriteWhole(s.(lastTs := env.eventTs), Event(eid, WrapSub(env.eventTs, s.lastTs), payload), env.eventTs, InEvent, env.eventRoom);
  }

  /** Normal state and a sync due, with no room for it. */
  lemma CallFailsSync(s: State, c: Config, eid: OrdinaryId, payload: Payload, env: Env)
    requires !s.dropping && s.syncCounter % Period(c) == 0 && env.syncRoom < SYNC_LEN
    ensures var q := Sync(env.syncTs, c.freq);
      && env.syncRoom < |Encode(q)|
      && EmitEvent(s, c, eid, payload, env)
         == Lose(s.(syncCounter := Inc(s.syncCounter), dropping := true,
                    log := s.log + [Attempt(q, env.syncTs, InEvent, env.syncRoom)]))
  {
    hide Encode, EmitAdmitted, EmitSync, Pow2;
    SyncCutShort(s.(syncCounter := Inc(s.syncCounter)), c, env.syncTs, InEvent, env.syncRoom);
  }

  /** Normal state and a sync due, with room for it. */
  lemma CallSyncs(s: State, c: Config, eid: OrdinaryId, payload: Payload, env: Env)
    requires !s.dropping && s.syncCounter % Period(c) == 0 && env.syncRoom >= 255
    ensures var s1 := s.(syncCounter := Inc(s.syncCounter), lastTs := env.syncTs,
                         log := s.log + [Whole(Sync(env.syncTs, c.freq), env.syncTs, InEvent)]);
      EmitEvent(s, c, eid, payload, env) == EmitAdmitted(s1, eid, payload, env)
  {
    hide Encode, EmitAdmitted, EmitSync, Whole, Pow2;
    SyncWithRoom(s.(syncCounter := Inc(s.syncCounter)), c, env.syncTs, InEvent, env.syncRoom);
  }

  lemma CallSyncsWithRoom(s: State, c: Config, eid: OrdinaryId, payload: Payload, env: Env)
    requires !s.dropping && s.syncCounter % Period(c) == 0 && env.syncRoom >= 255 && env.eventRoom >= 255
    ensures EmitEvent(s, c, eid, payload, env)
         == s.(syncCounter := Inc(s.syncCounter), lastTs := env.eventTs,
               log := s.log + [Whole(Sync(env.syncTs, c.freq), env.syncTs, InEvent)]
                      + [Whole(Event(eid, WrapSub(env.eventTs, env.syncTs), payload), env.eventTs, InEvent)])
  {
    hide Encode, EmitEvent, EmitAdmitted, Whole, Pow2;
    CallSyncs(s, c, eid, payload, env);
    AdmittedWithRoom(s.(syncCounter := Inc(s.syncCounter), lastTs := env.syncTs,
                        log := s.log + [Whole(Sync(env.syncTs, c.freq), env.syncTs, InEvent)]), eid, payload, env);
  }

  /** Normal state, no sync due, and room for the event. */
  lemma CallWithoutSync(s: State, c: Config, eid: OrdinaryId, payload: Payload, env: Env)
    requires !s.dropping && s.syncCounter % Period(c) != 0 && env.eventRoom >= 255
    ensures EmitEvent(s, c, eid, payload, env)
         == s.(syncCounter := Inc(s.syncCounter), lastTs := env.eventTs,
               log := s.log + [Whole(Event(eid, WrapSub(env.eventTs, s.lastTs), payload), env.eventTs, InEvent)])
  {
    hide Encode, EmitAdmitted, EmitSync, Whole, Pow2;
    AdmittedWithRoom(s.(syncCounter := Inc(s.syncCounter)), eid, payload, env);
  }

  /** No room for the event itself. */
  lemma AdmittedRefused(s: State, eid: OrdinaryId, payload: Payload, env: Env)
    requires env.eventRoom == 0
    ensures EmitAdmitted(s, eid, payload, env)
         == Drop(s.(lastTs := env.eventTs, dropping := true,
                    log := s.log + [Refused(Event(eid, WrapSub(env.eventTs, s.lastTs), payload), env.eventTs, InEvent)]))
  {
    hide Encode, Write, Refused, Fits;
    WriteRefused(s.(lastTs := env.eventTs), Event(eid, WrapSub(env.eventTs, s.lastTs), payload), env.eventTs, InEvent);
  }

  // ----- Filling packet buffers -----

  /** `memcpy` at the cursor; returns the cursor past what was copied. */
  method Put(buf: array<byte>, cursor: nat, data: seq<byte>) returns (end: nat)
    requires cursor + |data| <= buf.Length
    modifies buf
    ensures end == cursor + |data| && buf[..end] == old(buf[..cursor]) + data
  {
    for i := 0 to |data|
      invariant buf[..cursor + i] == old(buf[..cursor]) + data[..i]
    {
      ghost var before := buf[..cursor + i];
      buf[cursor + i] := data[i];
      assert buf[..cursor + i + 1] == before + [data[i]];
    }
    end := cursor + |data|;
  }

  /** The length byte, last: the low byte of the cursor. */
  method Seal(buf: array<byte>, cursor: nat, ghost p: Packet) returns (total: byte)
    requires 1 <= cursor <= buf.Length
    requires buf[1..cursor] == U16(Eid(p)) + Body(p)
    modifies buf
    ensures total == cursor && buf[..total] == Encode(p)
  {
    LengthByte(p);
    ghost var rest := buf[1..cursor];
    total := cursor % 0x100;
    buf[0] := total;
    assert buf[..cursor] == [buf[0]] + buf[1..cursor];
    assert buf[1..cursor] == rest;
  }

  method FillEvent(eid: OrdinaryId, delta: uint32, payload: Payload) returns (pkt: array<byte>, total: byte)
    ensures fresh(pkt) && total <= pkt.Length && pkt[..total] == Encode(Event(eid, delta, payload))
  {
    pkt := new byte[3 + 5 + |payload|];
    Varint.EncodeAtMost5(delta);
    var cursor := 1;
    cursor := Put(pkt, cursor, U16(eid));
    cursor := Varint.EncodeInto(pkt, cursor, delta);
    cursor := Put(pkt, cursor, payload);
    assert pkt[1..cursor] == pkt[..cursor][1..] == U16(eid) + (Varint.Encode(delta) + payload);
    total := Seal(pkt, cursor, Event(eid, delta, payload));
  }

  method FillOverflow(delta: uint32, drops: uint32) returns (pkt: array<byte>, total: byte)
    ensures fresh(pkt) && total <= pkt.Length && pkt[..total] == Encode(Overflow(delta, drops))
  {
    pkt := new byte[3 + 5 + 4];
    Varint.EncodeAtMost5(delta);
    var cursor := 1;
    cursor := Put(pkt, cursor, U16(OVERFLOW_ID));
    cursor := Varint.EncodeInto(pkt, cursor, delta);
    cursor := Put(pkt, cursor, U32(drops));
    assert pkt[1..cursor] == pkt[..cursor][1..] == U16(OVERFLOW_ID) + (Varint.Encode(delta) + U32(drops));
    total := Seal(pkt, cursor, Overflow(delta, drops));
  }

  method FillSync(ts: uint32, freq: uint32) returns (pkt: array<byte>, total: byte)
    ensures fresh(pkt) && total <= pkt.Length && pkt[..total] == Encode(Sync(ts, freq))
  {
    pkt := new byte[1 + 2 + 4 + 4 + 4];
    var cursor := 1;
    cursor := Put(pkt, cursor, U16(SYNC_ID));
    cursor := Put(pkt, cursor, U32(SYNC_MAGIC));
    cursor := Put(pkt, cursor, U32(ts));
    cursor := Put(pkt, cursor, U32(freq));
    assert pkt[1..cursor] == pkt[..cursor][1..] == U16(SYNC_ID) + (U32(SYNC_MAGIC) + U32(ts) + U32(freq));
    total := Seal(pkt, cursor, Sync(ts, freq));
  }

  method FillChunk(index: byte, count: byte, data: ChunkData) returns (pkt: array<byte>, total: byte)
    ensures fresh(pkt) && total <= pkt.Length && pkt[..total] == Encode(Packet.Metadata(index, count, data))
  {
    pkt := new byte[255];
    var cursor := 1;
    cursor := Put(pkt, cursor, U16(METADATA_ID));
    cursor := Put(pkt, cursor, [index]);
    cursor := Put(pkt, cursor, [count]);
    cursor := Put(pkt, cursor, U16(|data|));
    cursor := Put(pkt, cursor, data);
    assert [index] + [count] == [index, count];
    assert pkt[1..cursor] == pkt[..cursor][1..] == U16(METADATA_ID) + ([index, count] + U16(|data|) + data);
    total := Seal(pkt, cursor, Packet.Metadata(index, count, data));
  }

  // ----- The emitter -----

  class Tracer {
    const config: Config
    var lastTs: uint32
    var syncCounter: uint32
    var dropping: bool
    var overflowDrops: uint32
    var dropped: uint32
    var stream: seq<byte>
    ghost var log: Log

    /** The stream is what the writes of the log put there. */
    ghost predicate Valid()
      reads this
    {
      stream == Written(log)
    }

    ghost function Now(): State
      reads this
    {
      State(lastTs, syncCounter, dropping, overflowDrops, dropped, log)
    }

    /** `embedder_transport_init`: resets, then the first preamble. */
    constructor (c: Config, syncTs: uint32, syncRoom: nat, rooms: seq<nat>)
      ensures Valid() && config == c
      ensures Now() == Booted(Run(c, syncTs, syncRoom, rooms, []))
    {
      config := c;
      lastTs, syncCounter, dropping, overflowDrops, dropped := 0, 0, false, 0, 0;
      stream, log := [], [];
      new;
      var _ := Preamble(syncTs, syncRoom, rooms);
    }

    /** The transport: takes as much as there is room for. */
    method Transmit(pkt: array<byte>, length: byte, room: nat, ghost a: Attempt) returns (w: nat)
      requires Valid() && length <= pkt.Length
      requires pkt[..length] == Encode(a.packet) && a.accepted == Min(room, length)
      modifies this
      ensures Valid() && w == a.accepted && Now() == old(Now()).(log := old(log) + [a])
      ensures stream == old(stream) + Encode(a.packet)[..w]
    {
      hide Encode, Written;
      WrittenSnoc(log, a);
      w := Min(room, length);
      assert pkt[..w] == pkt[..length][..w];
      stream := stream + pkt[..w];
      log := log + [a];
    }

    method Sync(ts: uint32, room: nat, ghost cause: Cause) returns (ok: bool)
      requires Valid()
      modifies this
      ensures Valid() && Outcome(Now(), ok) == EmitSync(old(Now()), config, ts, cause, room)
    {
      var pkt, total := FillSync(ts, config.freq);
      hide Encode;
      var w := Transmit(pkt, total, room, Attempt(Packet.Sync(ts, config.freq), ts, cause, Min(room, total)));
      if w != total {
        return false;
      }
      lastTs := ts;
      return true;
    }

    method Recover(env: Env) returns (ok: bool)
      requires Valid()
      modifies this
      ensures Valid() && Outcome(Now(), ok) == TryRecovery(old(Now()), config, env)
    {
      hide Encode, Written, EmitSync;
      var delta := WrapSub(env.overflowTs, lastTs);
      var pkt, total := FillOverflow(delta, overflowDrops);
      var w := Transmit(pkt, total, env.overflowRoom,
                        Attempt(Overflow(delta, overflowDrops), env.overflowTs, InEvent, Min(env.overflowRoom, total)));
      if w != total {
        overflowDrops := Inc(overflowDrops);
        dropped := Inc(dropped);
        return false;
      }
      lastTs := env.overflowTs;
      var synced := Sync(env.syncTs, env.syncRoom, InEvent);
      if !synced {
        dropping := true;
        dropped := Inc(dropped);
        return false;
      }
      dropping := false;
      overflowDrops := 0;
      return true;
    }

    /** EMBEDDER_CTF_EMIT; without fields the payload is empty. */
    method Event(eid: OrdinaryId, payload: Payload, env: Env)
      requires Valid()
      modifies this
      ensures Valid() && Now() == EmitEvent(old(Now()), config, eid, payload, env)
    {
      hide Encode, Written, EmitSync, TryRecovery, Pow2;
      if dropping {
        var recovered := Recover(env);
        if !recovered {
          return;
        }
      } else {
        var due := syncCounter % Period(config) == 0;
        syncCounter := Inc(syncCounter);
        if due {
          var synced := Sync(env.syncTs, env.syncRoom, InEvent);
          if !synced {
            dropping := true;
            dropped := Inc(dropped);
            return;
          }
        }
      }
      var delta := WrapSub(env.eventTs, lastTs);
      lastTs := env.eventTs;
      var pkt, total := FillEvent(eid, delta, payload);
      var w := Transmit(pkt, total, env.eventRoom,
                        Attempt(Packet.Event(eid, delta, payload), env.eventTs, InEvent, Min(env.eventRoom, total)));
      if w != total {
        dropping := true;
        overflowDrops := Inc(overflowDrops);
        dropped := Inc(dropped);
      }
    }

    /** Count the chunks that are not sent, and start dropping. */
    method GiveUp(unsent: byte)
      requires Valid()
      modifies this
      ensures Valid()
      ensures Now() == old(Now()).(dropped := WrapAdd(old(dropped), unsent),
                                   overflowDrops := WrapAdd(old(overflowDrops), unsent), dropping := true)
    {
      hide Inc, WrapAdd;
      IncWrapAdd(dropped, 0);
      IncWrapAdd(overflowDrops, 0);
      for j := 0 to unsent
        invariant Valid()
        invariant Now() == old(Now()).(dropped := WrapAdd(old(dropped), j), overflowDrops := WrapAdd(old(overflowDrops), j))
      {
        IncWrapAdd(old(dropped), j);
        IncWrapAdd(old(overflowDrops), j);
        dropped := Inc(dropped);
        overflowDrops := Inc(overflowDrops);
      }
      dropping := true;
    }

    /** One chunk; a short write gives up on it and on all chunks behind it. */
    method SendChunk(i: byte, count: byte, offset: nat, room: nat) returns (sent: bool, size: nat)
      requires Valid() && i < count == ChunkCount(config.descriptor) && offset == ChunkStart(i)
      modifies this
      ensures Valid()
      ensures var p := ChunkPacket(config.descriptor, i);
        var s := old(Now());
        && sent == Fits(p, room) && size == |p.data|
        && Now() == if sent then Write(s, p, 0, InPreamble, room)
                    else Write(s, p, 0, InPreamble, room).(dropped := WrapAdd(s.dropped, count - i),
                           overflowDrops := WrapAdd(s.overflowDrops, count - i), dropping := true)
    {
      hide Encode, Written, ChunkCount, WrapAdd, Chunk;
      ghost var p := ChunkPacket(config.descriptor, i);
      var pkt, total;
      pkt, total, size := CutChunk(i, count, offset);
      var w := Transmit(pkt, total, room, Attempt(p, 0, InPreamble, Min(room, total)));
      sent := w == total;
      if !sent {
        GiveUp(count - i);
      }
    }

    /** The packet of the chunk at `offset`. */
    method CutChunk(i: byte, count: byte, offset: nat) returns (pkt: array<byte>, total: byte, size: nat)
      requires i < count == ChunkCount(config.descriptor) && offset == ChunkStart(i)
      ensures var p := ChunkPacket(config.descriptor, i);
        fresh(pkt) && total <= pkt.Length && pkt[..total] == Encode(p) && total == |Encode(p)| && size == |p.data|
    {
      hide Encode, ChunkCount, Chunk;
      var d := config.descriptor;
      ChunkIs(d, i);
      var remaining := |d| - offset;
      size := if remaining > CHUNK_MAX then CHUNK_MAX else remaining;
      pkt, total := FillChunk(i, count, d[offset..offset + size]);
    }

    method MetadataInline(rooms: seq<nat>)
      requires Valid()
      modifies this
      ensures Valid() && Now() == EmitChunks(old(Now()), config.descriptor, 0, rooms)
    {
      hide Encode, EmitChunks, ChunkCount, Chunk, WrapAdd;
      ghost var d := config.descriptor;
      var count := ChunkCount(config.descriptor);
      var offset := 0;
      var i: byte := 0;
      while i < count
        invariant i <= count && Valid()
        invariant i < count ==> offset == ChunkStart(i)
        invariant EmitChunks(Now(), d, i, rooms) == EmitChunks(old(Now()), d, 0, rooms)
      {
        ChunksTurn(Now(), d, i, rooms);
        ChunkAdvances(d, i);
        var sent, size := SendChunk(i, count, offset, RoomAt(rooms, i));
        if !sent {
          return;
        }
        offset := offset + size;
        i := i + 1;
      }
      ChunksOver(Now(), d, count, rooms);
    }

    method Preamble(syncTs: uint32, syncRoom: nat, rooms: seq<nat>) returns (ok: bool)
      requires Valid()
      modifies this
      ensures Valid() && Outcome(Now(), ok) == EmitPreamble(old(Now()), config, syncTs, syncRoom, rooms)
    {
      hide Encode, EmitSync, EmitChunks;
      var synced := Sync(syncTs, syncRoom, InPreamble);
      if !synced {
        return false;
      }
      MetadataInline(rooms);
      return true;
    }
  }

  /** The class does what the run says, step by step. */
  method Replay(r: Run) returns (t: Tracer)
    ensures t.Valid() && t.config == r.config && t.Now() == Final(r)
  {
    hide EmitPreamble, EmitEvent;
    t := new Tracer(r.config, r.syncTs, r.syncRoom, r.chunkRooms);
    for i := 0 to |r.actions|
      invariant t.Valid() && t.config == r.config && fresh(t)
      invariant t.Now() == Final(r.(actions := r.actions[..i]))
    {
      assert r.actions[..i + 1][..i] == r.actions[..i];
      match r.actions[i] {
        case Emit(eid, payload, env) => t.Event(eid, payload, env);
        case Preamble(ts, room, rooms) => var _ := t.Preamble(ts, room, rooms);
      }
    }
    assert r.actions[..|r.actions|] == r.actions;
  }
}
