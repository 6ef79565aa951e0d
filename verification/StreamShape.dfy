/** The order of writes in every run, over any sink that takes prefixes: recovery
    before events, syncs before events, and syncs often enough. */
module StreamShape {
  import opened Bytes
  import opened Packets
  import opened Metadata
  import opened Emitter
  import Accounting

  // ----- Reading the history -----

  /** Short writes that start dropping: all but that of a preamble's sync. */
  predicate Gated(a: Attempt) { !Complete(a) && !(a.packet.Sync? && a.cause == InPreamble) }

  /** There was a gated short write, and no event was attempted after it. */
  predicate ShortSinceEvent(log: Log) {
    if log == [] then false
    else
      var last := log[|log| - 1];
      Gated(last) || (!last.packet.Event? && ShortSinceEvent(log[..|log| - 1]))
  }

  predicate JustRecovered(log: Log) { log != [] && Accounting.EndsRecovery(log, |log| - 1) }

  /** No event was attempted on a closed gate. */
  predicate GateHeld(log: Log) {
    if log == [] then true
    else
      var init := log[..|log| - 1];
      GateHeld(init) && (log[|log| - 1].packet.Event? && ShortSinceEvent(init) ==> JustRecovered(init))
  }

  /** Whole ordinary events since the last whole sync packet. */
  function SinceSync(log: Log): nat {
    if log == [] then 0
    else
      var last, before := log[|log| - 1], SinceSync(log[..|log| - 1]);
      if !Complete(last) then before
      else if last.packet.Sync? then 0
      else if last.packet.Event? then before + 1
      else before
  }

  /** At no time were there more than `most` events since the last sync. */
  predicate Spaced(log: Log, most: nat) {
    SinceSync(log) <= most && (log == [] || Spaced(log[..|log| - 1], most))
  }

  /** Some sync packet is whole in the stream. */
  predicate Synced(log: Log) {
    log != [] && ((log[|log| - 1].packet.Sync? && Complete(log[|log| - 1])) || Synced(log[..|log| - 1]))
  }

  /** Events and metadata are attempted only after a whole sync packet. */
  predicate Anchored(log: Log) {
    log == [] ||
    var last, init := log[|log| - 1], log[..|log| - 1];
      Anchored(init) && (last.packet.Event? || last.packet.Metadata? ==> Synced(init))
  }

  lemma Snoc(log: Log, a: Attempt, most: nat)
    ensures ShortSinceEvent(log + [a]) <==> Gated(a) || (!a.packet.Event? && ShortSinceEvent(log))
    ensures GateHeld(log + [a]) <==> GateHeld(log) && (a.packet.Event? && ShortSinceEvent(log) ==> JustRecovered(log))
    ensures SinceSync(log + [a])
         == if !Complete(a) then SinceSync(log) else if a.packet.Sync? then 0
            else if a.packet.Event? then SinceSync(log) + 1 else SinceSync(log)
    ensures Spaced(log + [a], most) <==> Spaced(log, most) && SinceSync(log + [a]) <= most
    ensures Synced(log + [a]) <==> Synced(log) || (a.packet.Sync? && Complete(a))
    ensures Anchored(log + [a]) <==> Anchored(log) && (a.packet.Event? || a.packet.Metadata? ==> Synced(log))
    ensures JustRecovered(log + [a])
       <==> a.packet.Sync? && a.cause == InEvent && Complete(a) && Accounting.OpenOverflow(log)
    ensures Accounting.OpenOverflow(log + [a]) <==> a.packet.Overflow? && Complete(a)
  {
    hide Complete, Gated;
    assert (log + [a])[..|log|] == log;
  }

  lemma Nil()
    ensures !ShortSinceEvent([]) && GateHeld([]) && SinceSync([]) == 0 && !Synced([]) && Anchored([])
    ensures forall most: nat :: Spaced([], most)
  {
  }

  // ----- The sync counter -----

  /** Events that may have gone out since the last sync, with the counter at `n`. */
  function Allowed(n: uint32, c: Config): nat {
    var r := n % Period(c);
    if r == 0 then Period(c) else r
  }

  lemma {:induction false} Pow2Product(a: nat, b: nat)
    ensures Pow2(a) * Pow2(b) == Pow2(a + b)
    decreases a
  {
    hide Pow2;
    Pow2Turn(a);
    Pow2Turn(a + b);
    if a > 0 {
      Pow2Product(a - 1, b);
      TwiceTimes(Pow2(a - 1), Pow2(b));
    }
  }

  lemma Pow2Turn(n: nat)
    ensures Pow2(n) == if n == 0 then 1 else 2 * Pow2(n - 1)
  {
  }

  lemma TwiceTimes(x: nat, y: nat)
    ensures 2 * x * y == 2 * (x * y)
  {
  }

  /** Pow2 is the power of two: its values at the ends of the range of shifts, and
      in the configuration's default. */
  lemma Pow2Of32()
    ensures Pow2(0) == 1 && Pow2(8) == 256 && Pow2(31) == 0x8000_0000 && Pow2(32) == TWO_32
  {
    hide Pow2;
    Pow2Turn(0);
    Pow2Turn(1);
    Pow2Product(1, 1);
    Pow2Product(2, 2);
    Pow2Product(4, 4);
    Pow2Product(8, 8);
    Pow2Product(16, 16);
    Pow2Turn(32);
  }

  lemma ModUnique(x: nat, m: nat, q: nat, r: nat)
    requires m > 0 && x == m * q + r && r < m
    ensures x % m == r
  {
    var d := q - x / m;
    assert x == m * (x / m) + x % m;
    assert m * q - m * (x / m) == m * d;
    assert 0 - m < m * d < m;
  }

  /** One more call, modulo the period, also where the counter itself wraps. */
  lemma CounterAdvances(n: uint32, c: Config)
    ensures var m := Pow2(c.shift);
      Inc(n) % m == if n % m + 1 == m then 0 else n % m + 1
  {
    Pow2Product(c.shift, 32 - c.shift);
    Pow2Of32();
    hide Pow2;
    ModAdvances(n, Period(c), Pow2(32 - c.shift));
  }

  lemma ModAdvances(n: uint32, m: nat, k: nat)
    requires m >= 1 && m * k == TWO_32
    ensures Inc(n) % m == if n % m + 1 == m then 0 else n % m + 1
  {
    var q, r := n / m, n % m;
    assert n == m * q + r;
    if r + 1 == m {
      assert n + 1 == m * (q + 1);
      ModUnique(n + 1, m, q + 1, 0);
    } else {
      ModUnique(n + 1, m, q, r + 1);
    }
    if n + 1 == TWO_32 {
      ModUnique(n + 1, m, k, 0);
      ModUnique(0, m, 0, 0);
    }
  }

  lemma NotDueAgain(n: uint32, c: Config)
    requires n % Period(c) == 0 && c.shift >= 1
    ensures Inc(n) % Period(c) != 0
  {
    hide Pow2;
    Pow2Turn(c.shift);
    CounterAdvances(n, c);
  }

  lemma AllowedAdvances(n: uint32, c: Config)
    ensures 1 <= Allowed(n, c) <= Period(c)
    ensures n % Period(c) == 0 ==> Allowed(Inc(n), c) == 1
    ensures n % Period(c) != 0 ==> Allowed(Inc(n), c) == Allowed(n, c) + 1
  {
    hide Pow2;
    CounterAdvances(n, c);
    assert 0 <= n % Period(c) < Period(c);
  }

  // ----- The invariant -----

  predicate Shaped(s: State, c: Config) {
    && GateHeld(s.log) && (s.dropping <==> ShortSinceEvent(s.log))
    && Spaced(s.log, Period(c)) && (!s.dropping ==> SinceSync(s.log) <= Allowed(s.syncCounter, c))
    && Anchored(s.log) && (Synced(s.log) || s.dropping || s.syncCounter % Period(c) == 0)
  }

  /** What holds once a call has got as far as its event. */
  predicate Admitted(s: State, c: Config) {
    && GateHeld(s.log) && (ShortSinceEvent(s.log) ==> JustRecovered(s.log))
    && Spaced(s.log, Period(c)) && SinceSync(s.log) + 1 <= Allowed(s.syncCounter, c)
    && Anchored(s.log) && Synced(s.log)
  }

  lemma SpacedNow(log: Log, most: nat)
    requires Spaced(log, most)
    ensures SinceSync(log) <= most
  {
  }

  lemma RecoveryShaped(s: State, c: Config, env: Env)
    requires Shaped(s, c) && s.dropping
    ensures var o := TryRecovery(s, c, env);
      if o.ok then Admitted(o.state, c) else Shaped(o.state, c) && o.state.dropping
  {
    hide Encode, ShortSinceEvent, GateHeld, SinceSync, Spaced, Synced, Anchored, JustRecovered, Allowed, Pow2;
    var p := Overflow(WrapSub(env.overflowTs, s.lastTs), s.overflowDrops);
    var a := Attempt(p, env.overflowTs, InEvent, Min(env.overflowRoom, |Encode(p)|));
    var q := Packet.Sync(env.syncTs, c.freq);
    var b := Attempt(q, env.syncTs, InEvent, Min(env.syncRoom, |Encode(q)|));
    Snoc(s.log, a, Period(c));
    Snoc(s.log + [a], b, Period(c));
    SpacedNow(s.log, Period(c));
    AllowedAdvances(s.syncCounter, c);
  }

  lemma AdmitShaped(s: State, c: Config, env: Env)
    requires Shaped(s, c)
    ensures var o := Admit(s, c, env);
      if o.ok then Admitted(o.state, c) else Shaped(o.state, c) && o.state.dropping
  {
    hide Encode, ShortSinceEvent, GateHeld, SinceSync, Spaced, Synced, Anchored, JustRecovered, Allowed, Pow2,
         TryRecovery;
    if s.dropping {
      RecoveryShaped(s, c, env);
    } else {
      AllowedAdvances(s.syncCounter, c);
      SpacedNow(s.log, Period(c));
      var q := Packet.Sync(env.syncTs, c.freq);
      Snoc(s.log, Attempt(q, env.syncTs, InEvent, Min(env.syncRoom, |Encode(q)|)), Period(c));
    }
  }

  lemma EmitShaped(s: State, c: Config, eid: OrdinaryId, payload: Payload, env: Env)
    requires Shaped(s, c)
    ensures Shaped(EmitEvent(s, c, eid, payload, env), c)
  {
    hide Encode, ShortSinceEvent, GateHeld, SinceSync, Spaced, Synced, Anchored, JustRecovered, Allowed, Pow2, Admit;
    AdmitShaped(s, c, env);
    var o := Admit(s, c, env);
    if o.ok {
      var p := Event(eid, WrapSub(env.eventTs, o.state.lastTs), payload);
      Snoc(o.state.log, Attempt(p, env.eventTs, InEvent, Min(env.eventRoom, |Encode(p)|)), Period(c));
      AllowedAdvances(o.state.syncCounter, c);
      NotDropping(s, c, env);
    }
  }

  lemma NotDropping(s: State, c: Config, env: Env)
    ensures Admit(s, c, env).ok ==> !Admit(s, c, env).state.dropping
  {
    hide Encode, Pow2;
  }

  lemma {:induction false} ChunksShaped(s: State, c: Config, i: nat, rooms: seq<nat>)
    requires Shaped(s, c) && Synced(s.log)
    ensures Shaped(EmitChunks(s, c.descriptor, i, rooms), c)
    decreases ChunkCount(c.descriptor) - i
  {
    hide Encode, ShortSinceEvent, GateHeld, SinceSync, Spaced, Synced, Anchored, JustRecovered, Allowed, Pow2,
         EmitChunks, ChunkCount;
    var d := c.descriptor;
    if i >= ChunkCount(d) {
      ChunksOver(s, d, i, rooms);
    } else {
      ChunksTurn(s, d, i, rooms);
      var p := ChunkPacket(d, i);
      Snoc(s.log, Attempt(p, 0, InPreamble, Min(RoomAt(rooms, i), |Encode(p)|)), Period(c));
      SpacedNow(s.log, Period(c));
      if Fits(p, RoomAt(rooms, i)) {
        ChunksShaped(Write(s, p, 0, InPreamble, RoomAt(rooms, i)), c, i + 1, rooms);
      }
    }
  }

  lemma PreambleShaped(s: State, c: Config, ts: uint32, room: nat, rooms: seq<nat>)
    requires Shaped(s, c)
    ensures Shaped(EmitPreamble(s, c, ts, room, rooms).state, c)
  {
    hide Encode, ShortSinceEvent, GateHeld, SinceSync, Spaced, Synced, Anchored, JustRecovered, Allowed, Pow2,
         EmitChunks;
    var q := Packet.Sync(ts, c.freq);
    Snoc(s.log, Attempt(q, ts, InPreamble, Min(room, |Encode(q)|)), Period(c));
    SpacedNow(s.log, Period(c));
    var o := EmitSync(s, c, ts, InPreamble, room);
    if o.ok {
      ChunksShaped(o.state, c, 0, rooms);
    }
  }

  lemma {:induction false} RunShaped(r: Run)
    ensures Shaped(Final(r), r.config)
    decreases |r.actions|
  {
    hide EmitPreamble, EmitEvent, Shaped;
    if r.actions == [] {
      assert Shaped(RESET, r.config) by { ResetShaped(r.config); }
      PreambleShaped(RESET, r.config, r.syncTs, r.syncRoom, r.chunkRooms);
    } else {
      var n := |r.actions| - 1;
      var before := Final(r.(actions := r.actions[..n]));
      RunShaped(r.(actions := r.actions[..n]));
      match r.actions[n] {
        case Emit(eid, payload, env) => EmitShaped(before, r.config, eid, payload, env);
        case Preamble(ts, room, rooms) => PreambleShaped(before, r.config, ts, room, rooms);
      }
    }
  }

  lemma ResetShaped(c: Config)
    ensures Shaped(RESET, c)
  {
    hide Pow2;
    Nil();
    assert 0 % Period(c) == 0;
  }

  // ----- The theorems -----

  /** Write `i` fell short, gated, and no event was attempted after it. */
  predicate ShortAt(log: Log, i: nat) {
    i < |log| && Gated(log[i]) && forall e :: i < e < |log| ==> !log[e].packet.Event?
  }

  lemma ShortAtTurn(log: Log, i: nat)
    requires log != [] && i < |log| - 1
    ensures ShortAt(log, i) <==> !log[|log| - 1].packet.Event? && ShortAt(log[..|log| - 1], i)
  {
    hide Encode, Gated;
    var init := log[..|log| - 1];
    assert forall e :: 0 <= e < |init| ==> init[e] == log[e];
  }

  lemma ShortAtEnd(log: Log)
    requires log != []
    ensures ShortAt(log, |log| - 1) <==> Gated(log[|log| - 1])
  {
    hide Encode, Gated;
  }

  lemma {:induction false} ShortSinceEventIff(log: Log)
    ensures ShortSinceEvent(log) <==> exists i: nat :: ShortAt(log, i)
  {
    hide Encode, Gated, ShortSinceEvent, ShortAt, GateHeld, SinceSync, Spaced, Synced, Anchored, JustRecovered;
    if log == [] {
      Nil();
      assert forall i: nat :: !ShortAt(log, i) by { InRange(log); }
    } else {
      var init, last := log[..|log| - 1], log[|log| - 1];
      InitAndLast(log);
      Snoc(init, last, 0);
      ShortSinceEventIff(init);
      InRange(log);
      InRange(init);
      ShortAtEnd(log);
      forall i: nat | i < |init|
        ensures ShortAt(log, i) <==> !last.packet.Event? && ShortAt(init, i)
      {
        ShortAtTurn(log, i);
      }
    }
  }

  lemma InRange(log: Log)
    ensures forall i: nat :: ShortAt(log, i) ==> i < |log|
  {
    hide Encode, Gated;
  }

  /** When the firmware is dropping: in every run exactly when some write fell
      short, other than a preamble's sync, with no event attempted since. */
  lemma DroppingIff(r: Run)
    ensures Final(r).dropping <==> exists i: nat :: ShortAt(Final(r).log, i)
  {
    hide Final, ShortAt, ShortSinceEvent, GateHeld, Spaced, Anchored, Synced, SinceSync, Allowed, Pow2;
    RunShaped(r);
    ShortSinceEventIff(Final(r).log);
  }

  // ----- Sync writes that fall short -----

  /** Some write since `n` is a sync that fell short. */
  predicate CutsSync(log: Log, n: nat) { exists k :: n <= k < |log| && log[k].packet.Sync? && !Complete(log[k]) }

  lemma CutsSyncSnoc(log: Log, a: Attempt, n: nat)
    requires n <= |log|
    ensures !CutsSync(log, |log|)
    ensures CutsSync(log + [a], n) <==> CutsSync(log, n) || (a.packet.Sync? && !Complete(a))
  {
    hide Encode, Complete;
    var all := log + [a];
    assert all[|log|] == a;
    if CutsSync(log, n) {
      var k :| n <= k < |log| && log[k].packet.Sync? && !Complete(log[k]);
      assert all[k] == log[k];
    }
  }

  lemma AdmitCutsSync(s: State, c: Config, env: Env)
    ensures var o := Admit(s, c, env);
      && |s.log| <= |o.state.log|
      && if o.ok then !CutsSync(o.state.log, |s.log|) else o.state.dropping
  {
    hide Encode, CutsSync, Pow2;
    var p := Overflow(WrapSub(env.overflowTs, s.lastTs), s.overflowDrops);
    var a := Attempt(p, env.overflowTs, InEvent, Min(env.overflowRoom, |Encode(p)|));
    var q := Packet.Sync(env.syncTs, c.freq);
    var b := Attempt(q, env.syncTs, InEvent, Min(env.syncRoom, |Encode(q)|));
    CutsSyncSnoc(s.log, a, |s.log|);
    CutsSyncSnoc(s.log, b, |s.log|);
    CutsSyncSnoc(s.log + [a], b, |s.log|);
  }

  lemma EmitCutsSync(s: State, c: Config, eid: OrdinaryId, payload: Payload, env: Env)
    ensures var s1 := EmitEvent(s, c, eid, payload, env); CutsSync(s1.log, |s.log|) ==> s1.dropping
  {
    hide Encode, CutsSync, Admit;
    AdmitCutsSync(s, c, env);
    var t := Admit(s, c, env).state;
    var p := Event(eid, WrapSub(env.eventTs, t.lastTs), payload);
    CutsSyncSnoc(t.log, Attempt(p, env.eventTs, InEvent, Min(env.eventRoom, |Encode(p)|)), |s.log|);
  }

  lemma {:induction false} ChunksCutNoSync(s: State, d: Descriptor, i: nat, rooms: seq<nat>, n: nat)
    requires n <= |s.log| && !CutsSync(s.log, n)
    ensures !CutsSync(EmitChunks(s, d, i, rooms).log, n)
    decreases ChunkCount(d) - i
  {
    hide Encode, CutsSync, EmitChunks, ChunkCount, WrapAdd;
    if i >= ChunkCount(d) {
      ChunksOver(s, d, i, rooms);
    } else {
      ChunksTurn(s, d, i, rooms);
      var p := ChunkPacket(d, i);
      CutsSyncSnoc(s.log, Attempt(p, 0, InPreamble, Min(RoomAt(rooms, i), |Encode(p)|)), n);
      if Fits(p, RoomAt(rooms, i)) {
        ChunksCutNoSync(Write(s, p, 0, InPreamble, RoomAt(rooms, i)), d, i + 1, rooms, n);
      }
    }
  }

  lemma PreambleCutsSync(s: State, c: Config, ts: uint32, room: nat, rooms: seq<nat>)
    ensures var s1 := EmitPreamble(s, c, ts, room, rooms).state;
      CutsSync(s1.log, |s.log|) ==> s1.dropping == s.dropping
  {
    hide Encode, CutsSync, EmitChunks;
    var q := Packet.Sync(ts, c.freq);
    CutsSyncSnoc(s.log, Attempt(q, ts, InPreamble, Min(room, |Encode(q)|)), |s.log|);
    var o := EmitSync(s, c, ts, InPreamble, room);
    if o.ok {
      ChunksCutNoSync(o.state, c.descriptor, 0, rooms, |s.log|);
    }
  }

  /** The caller of a sync write that falls short is in the dropping state behind
      it if and only if it is an emit call or was dropping already. */
  lemma ShortSyncStartsDropping(r: Run, a: Action)
    requires CutsSync(Final(r.(actions := r.actions + [a])).log, |Final(r).log|)
    ensures Final(r.(actions := r.actions + [a])).dropping <==> a.Emit? || Final(r).dropping
  {
    hide Final, CutsSync, EmitEvent, EmitPreamble;
    FinalSnoc(r, a);
    match a {
      case Emit(eid, payload, env) => EmitCutsSync(Final(r), r.config, eid, payload, env);
      case Preamble(ts, room, rooms) => PreambleCutsSync(Final(r), r.config, ts, room, rooms);
    }
  }

  /** So a preamble whose sync does not fit ends at once and leaves no trace but
      the bytes that did: in the normal state the firmware stays in it. */
  lemma PreambleSyncFailureIsIgnored(r: Run, ts: uint32, room: nat, rooms: seq<nat>)
    requires room < SYNC_LEN
    ensures var q := Sync(ts, r.config.freq);
      && room < |Encode(q)|
      && Final(r.(actions := r.actions + [Preamble(ts, room, rooms)]))
         == Final(r).(log := Final(r).log + [Attempt(q, ts, InPreamble, room)])
  {
    hide Encode, Final, EmitSync;
    FinalSnoc(r, Preamble(ts, room, rooms));
    SyncCutShort(Final(r), r.config, ts, InPreamble, room);
  }

  lemma {:induction false} GateHeldAt(log: Log, j: nat)
    requires GateHeld(log) && j < |log| && log[j].packet.Event? && ShortSinceEvent(log[..j])
    ensures JustRecovered(log[..j])
  {
    hide Encode, Complete, Gated, ShortSinceEvent, GateHeld, SinceSync, Spaced, Synced, Anchored, JustRecovered,
         Accounting.OpenOverflow;
    var init, last := log[..|log| - 1], log[|log| - 1];
    InitAndLast(log);
    Snoc(init, last, 0);
    if j < |init| {
      TakeTake(log, |log| - 1, j);
      GateHeldAt(init, j);
    }
  }

  lemma ShortAtPrefix(log: Log, i: nat, j: nat)
    requires i < j <= |log| && Gated(log[i]) && forall e :: i < e < j ==> !log[e].packet.Event?
    ensures ShortAt(log[..j], i)
  {
    hide Encode, Gated;
    assert forall e :: 0 <= e < j ==> log[..j][e] == log[e];
  }

  /** Recovery gate. In every run over any prefix-taking sink: if write `i` falls
      short (other than a preamble's sync) and write `j` is the next attempt to
      write an event, then the two writes immediately before `j` are a whole
      overflow packet and, behind it, a whole sync packet, both after `i`. */
  lemma RecoveryGate(r: Run, i: nat, j: nat)
    requires var log := Final(r).log;
      i < j < |log| && Gated(log[i]) && log[j].packet.Event? && forall e :: i < e < j ==> !log[e].packet.Event?
    ensures var log := Final(r).log;
      && i < j - 2
      && log[j - 2].packet.Overflow? && Complete(log[j - 2])
      && log[j - 1].packet.Sync? && log[j - 1].cause == InEvent && Complete(log[j - 1])
  {
    hide GateHeld, ShortSinceEvent, ShortAt, Final, Spaced, Anchored, Synced, SinceSync, Allowed, Encode;
    var log := Final(r).log;
    RunShaped(r);
    assert ShortAt(log[..j], i) by { ShortAtPrefix(log, i, j); }
    ShortSinceEventIff(log[..j]);
    GateHeldAt(log, j);
  }

  lemma {:induction false} SpacedAt(log: Log, most: nat, n: nat)
    requires Spaced(log, most) && n <= |log|
    ensures SinceSync(log[..n]) <= most
  {
    if n < |log| {
      assert log[..|log| - 1][..n] == log[..n];
      SpacedAt(log[..|log| - 1], most, n);
    } else {
      assert log[..n] == log;
    }
  }

  /** Sync spacing. In every run, at every point of the stream, at most 2^shift
      ordinary events lie behind the last sync packet. */
  lemma SyncSpacing(r: Run, n: nat)
    requires n <= |Final(r).log|
    ensures SinceSync(Final(r).log[..n]) <= Pow2(r.config.shift)
  {
    hide Spaced, SinceSync, Final, Pow2, GateHeld, Anchored, Synced, ShortSinceEvent;
    RunShaped(r);
    SpacedAt(Final(r).log, Period(r.config), n);
  }

  lemma {:induction false} AnchoredAt(log: Log, j: nat)
    requires Anchored(log) && j < |log| && (log[j].packet.Event? || log[j].packet.Metadata?)
    ensures Synced(log[..j])
  {
    hide Synced;
    if j < |log| - 1 {
      assert log[..|log| - 1][..j] == log[..j];
      AnchoredAt(log[..|log| - 1], j);
    }
  }

  lemma {:induction false} SyncedMeans(log: Log)
    ensures Synced(log) <==> exists i :: 0 <= i < |log| && log[i].packet.Sync? && Complete(log[i])
  {
    hide Encode, Complete;
    if log != [] {
      var init := log[..|log| - 1];
      SyncedMeans(init);
      assert forall i :: 0 <= i < |init| ==> init[i] == log[i];
      if i :| 0 <= i < |init| && init[i].packet.Sync? && Complete(init[i]) {
        assert log[i].packet.Sync? && Complete(log[i]);
      }
    }
  }

  /** Anchoring. In every run, a failed first preamble included, no event and no
      metadata is even attempted before a whole sync packet is in the stream. */
  lemma EventsAreAnchored(r: Run, j: nat)
    requires j < |Final(r).log| && (Final(r).log[j].packet.Event? || Final(r).log[j].packet.Metadata?)
    ensures exists i :: 0 <= i < j && Final(r).log[i].packet.Sync? && Complete(Final(r).log[i])
  {
    hide Spaced, SinceSync, Final, Pow2, GateHeld, Anchored, Synced, ShortSinceEvent, Encode;
    var log := Final(r).log;
    RunShaped(r);
    AnchoredAt(log, j);
    SyncedMeans(log[..j]);
    var i :| 0 <= i < j && log[..j][i].packet.Sync? && Complete(log[..j][i]);
    assert log[i] == log[..j][i];
  }
}
