/** When emit calls send a sync packet: in every run, every 2^shift-th call made in
    the normal state, and no other. */
module SyncSchedule {
  import opened Bytes
  import opened Packets
  import opened Metadata
  import opened Emitter
  import opened StreamShape
  import Accounting

  /** Emit calls among the first `n` actions that were made in the normal state. */
  function NormalCalls(r: Run, n: nat): nat
    requires n <= |r.actions|
  {
    if n == 0 then 0
    else NormalCalls(r, n - 1) + if r.actions[n - 1].Emit? && !Final(UpTo(r, n - 1)).dropping then 1 else 0
  }

  lemma {:induction false} ChunksKeepCounter(s: State, d: Descriptor, i: nat, rooms: seq<nat>)
    ensures EmitChunks(s, d, i, rooms).syncCounter == s.syncCounter
    decreases ChunkCount(d) - i
  {
    hide Encode, EmitChunks, ChunkCount, WrapAdd;
    if i >= ChunkCount(d) {
      ChunksOver(s, d, i, rooms);
    } else {
      ChunksTurn(s, d, i, rooms);
      var p := ChunkPacket(d, i);
      if Fits(p, RoomAt(rooms, i)) {
        ChunksKeepCounter(Write(s, p, 0, InPreamble, RoomAt(rooms, i)), d, i + 1, rooms);
      }
    }
  }

  lemma PreambleKeepsCounter(s: State, c: Config, ts: uint32, room: nat, rooms: seq<nat>)
    ensures EmitPreamble(s, c, ts, room, rooms).state.syncCounter == s.syncCounter
  {
    hide Encode, EmitChunks;
    ChunksKeepCounter(EmitSync(s, c, ts, InPreamble, room).state, c.descriptor, 0, rooms);
  }

  /** A call in the normal state counts, also if its sync fails; recovery does not. */
  lemma CallCounts(s: State, c: Config, eid: OrdinaryId, payload: Payload, env: Env)
    ensures EmitEvent(s, c, eid, payload, env).syncCounter == if s.dropping then s.syncCounter else Inc(s.syncCounter)
  {
    hide Encode, Pow2;
  }

  lemma IncResidue(x: uint32, n: nat)
    requires x == n % TWO_32
    ensures Inc(x) == (n + 1) % TWO_32
  {
  }

  /** In every run the counter is the number of such calls, modulo its width. */
  lemma {:induction false} CounterIsCalls(r: Run, n: nat)
    requires n <= |r.actions|
    ensures Final(UpTo(r, n)).syncCounter == NormalCalls(r, n) % TWO_32
  {
    hide Final, EmitEvent, EmitPreamble, WrapAdd;
    if n == 0 {
      BootCounter(UpTo(r, 0));
    } else {
      CounterIsCalls(r, n - 1);
      StepOfRun(r, n - 1);
      var s := Final(UpTo(r, n - 1));
      match r.actions[n - 1] {
        case Emit(eid, payload, env) =>
          CallCounts(s, r.config, eid, payload, env);
          IncResidue(s.syncCounter, NormalCalls(r, n - 1));
        case Preamble(ts, room, rooms) => PreambleKeepsCounter(s, r.config, ts, room, rooms);
      }
    }
  }

  lemma BootCounter(r: Run)
    requires r.actions == []
    ensures Final(r).syncCounter == 0
  {
    hide EmitPreamble;
    PreambleKeepsCounter(RESET, r.config, r.syncTs, r.syncRoom, r.chunkRooms);
  }

  /** Reducing modulo 2^32 first changes nothing modulo a power of two below. */
  lemma ResidueOfResidue(n: nat, shift: nat)
    requires shift <= 31
    ensures n % TWO_32 % Pow2(shift) == n % Pow2(shift)
  {
    hide Pow2;
    Pow2Product(shift, 32 - shift);
    Pow2Of32();
    var q, x := n / TWO_32, n % TWO_32;
    assert n == TWO_32 * q + x;
    ResidueOfMultiple(Pow2(shift), Pow2(32 - shift), q, x);
  }

  lemma ResidueOfMultiple(m: nat, k: nat, q: nat, x: nat)
    requires m > 0
    ensures (m * k * q + x) % m == x % m
  {
    Quotient(x, m);
    Regroup(m, k, q, x / m);
    ModUnique(m * k * q + x, m, k * q + x / m, x % m);
  }

  lemma Quotient(x: nat, m: nat)
    requires m > 0
    ensures x == m * (x / m) + x % m && x % m < m
  {
  }

  lemma Regroup(m: nat, k: nat, q: nat, y: nat)
    ensures m * k * q + m * y == m * (k * q + y)
  {
    Distribute(m, k * q, y);
    Associate(m, k, q);
  }

  lemma Distribute(m: nat, a: nat, b: nat)
    ensures m * (a + b) == m * a + m * b
  {
  }

  lemma Associate(m: nat, k: nat, q: nat)
    ensures m * k * q == m * (k * q)
  {
  }

  /** What a call in the normal state writes, one packet or two. */
  predicate SyncsFirst(before: Log, after: Log) {
    var n := |before|;
    && |after| > n && after[..n] == before && after[n].packet.Sync? && after[n].cause == InEvent
    && if Complete(after[n]) then |after| == n + 2 && after[n + 1].packet.Event? else |after| == n + 1
  }

  predicate EventAlone(before: Log, after: Log) {
    var n := |before|;
    |after| == n + 1 && after[..n] == before && after[n].packet.Event?
  }

  lemma CallWrites(s: State, c: Config, eid: OrdinaryId, payload: Payload, env: Env)
    requires !s.dropping
    ensures var after := EmitEvent(s, c, eid, payload, env).log;
      if s.syncCounter % Period(c) == 0 then SyncsFirst(s.log, after) else EventAlone(s.log, after)
  {
    hide Encode, Pow2;
  }

  /** The schedule. Take any run and any emit call made in the normal state. It
      writes a sync, and behind it, if that is whole, its event, exactly when the
      number of such calls before it is a multiple of 2^shift; otherwise it writes its
      event alone. This does not depend on failures, recoveries and preambles between,
      nor on the counter's wrap-around. */
  lemma SyncDueIff(r: Run, n: nat)
    requires n < |r.actions| && r.actions[n].Emit? && !Final(UpTo(r, n)).dropping
    ensures var before, after := Final(UpTo(r, n)).log, Final(UpTo(r, n + 1)).log;
      if NormalCalls(r, n) % Pow2(r.config.shift) == 0 then SyncsFirst(before, after) else EventAlone(before, after)
  {
    hide Final, EmitEvent, SyncsFirst, EventAlone, NormalCalls, Pow2;
    var s, a := Final(UpTo(r, n)), r.actions[n];
    StepOfRun(r, n);
    CounterIsCalls(r, n);
    ResidueOfResidue(NormalCalls(r, n), r.config.shift);
    CallWrites(s, r.config, a.eid, a.payload, a.env);
  }

  // ----- A run without failures -----

  predicate Roomy(a: Action) {
    a.Emit? && a.env.overflowRoom >= 255 && a.env.syncRoom >= 255 && a.env.eventRoom >= 255
  }

  /** Room for the first preamble and for every packet of every call. */
  predicate Unhindered(r: Run) {
    && r.syncRoom >= 255
    && (forall i: nat :: i < ChunkCount(r.config.descriptor) ==> RoomAt(r.chunkRooms, i) >= 255)
    && forall i :: 0 <= i < |r.actions| ==> Roomy(r.actions[i])
  }

  lemma CallKeepsNormal(s: State, c: Config, eid: OrdinaryId, payload: Payload, env: Env)
    requires !s.dropping && Roomy(Emit(eid, payload, env))
    ensures !EmitEvent(s, c, eid, payload, env).dropping
  {
    hide Encode, EmitEvent, Pow2, Whole;
    if s.syncCounter % Period(c) == 0 {
      CallSyncsWithRoom(s, c, eid, payload, env);
    } else {
      CallWithoutSync(s, c, eid, payload, env);
    }
  }

  lemma {:induction false} StaysNormal(r: Run, n: nat)
    requires Unhindered(r) && n <= |r.actions|
    ensures !Final(UpTo(r, n)).dropping && NormalCalls(r, n) == n
  {
    hide Final, EmitEvent;
    if n == 0 {
      Accounting.BootsReadyToSync(UpTo(r, 0));
    } else {
      StaysNormal(r, n - 1);
      StepOfRun(r, n - 1);
      var a := r.actions[n - 1];
      assert Roomy(a);
      CallKeepsNormal(Final(UpTo(r, n - 1)), r.config, a.eid, a.payload, a.env);
    }
  }

  /** With room for everything and no further preamble, the n-th call, from zero,
      writes a sync and its event if n is a multiple of 2^shift, and its event alone
      otherwise. */
  lemma SyncEveryPeriod(r: Run, n: nat)
    requires Unhindered(r) && n < |r.actions|
    ensures var s, a := Final(UpTo(r, n)), r.actions[n];
      Final(UpTo(r, n + 1)).log ==
        if n % Pow2(r.config.shift) == 0 then
          s.log + [Whole(Sync(a.env.syncTs, r.config.freq), a.env.syncTs, InEvent)]
          + [Whole(Event(a.eid, WrapSub(a.env.eventTs, a.env.syncTs), a.payload), a.env.eventTs, InEvent)]
        else
          s.log + [Whole(Event(a.eid, WrapSub(a.env.eventTs, s.lastTs), a.payload), a.env.eventTs, InEvent)]
  {
    hide Final, EmitEvent, NormalCalls, Pow2, Whole, Encode;
    var s, a := Final(UpTo(r, n)), r.actions[n];
    StaysNormal(r, n);
    StepOfRun(r, n);
    CounterIsCalls(r, n);
    ResidueOfResidue(n, r.config.shift);
    assert Roomy(a);
    if s.syncCounter % Period(r.config) == 0 {
      CallSyncsWithRoom(s, r.config, a.eid, a.payload, a.env);
    } else {
      CallWithoutSync(s, r.config, a.eid, a.payload, a.env);
    }
  }
}
