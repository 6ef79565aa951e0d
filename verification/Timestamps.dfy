/** End to end: the timestamps the host computes are the firmware's. */
module Timestamps {
  import opened Bytes
  import opened Packets
  import opened SyncSearch
  import opened Metadata
  import opened Emitter
  import opened StreamShape
  import opened Delivery
  import Accounting
  import Check = CheckDecoder

  /** The host's clock after the delivered writes. */
  function HostClock(ds: Log): nat { Check.PacketClock(PacketsOf(ds), 0) }

  /** A sync carries its reading; behind an event the host's clock is the reading,
      modulo the 32 bits the firmware keeps. */
  predicate OnReading(a: Attempt, clock: nat) {
    (a.packet.Sync? ==> a.packet.ts == a.ts) && (a.packet.Event? ==> clock % TWO_32 == a.ts)
  }

  /** So at every delivered write. */
  predicate Faithful(ds: Log) {
    ds == [] ||
    (Faithful(ds[..|ds| - 1]) && OnReading(ds[|ds| - 1], HostClock(ds)))
  }

  /** Since the last whole sync packet, some overflow packet was written whole. */
  predicate OverflowSinceSync(ps: seq<Packet>) {
    ps != [] &&
    (ps[|ps| - 1].Overflow? || (!ps[|ps| - 1].Sync? && OverflowSinceSync(ps[..|ps| - 1])))
  }

  /** No event was delivered between an overflow packet and the next sync. */
  predicate EventsBeforeOverflow(ps: seq<Packet>) {
    ps == [] ||
    (EventsBeforeOverflow(ps[..|ps| - 1])
     && (ps[|ps| - 1].Event? ==> !OverflowSinceSync(ps[..|ps| - 1])))
  }

  lemma ClockSnoc(ds: Log, a: Attempt)
    requires Complete(a)
    ensures HostClock(ds + [a]) == Check.PacketTick(a.packet, HostClock(ds))
    ensures Faithful(ds + [a]) <==> Faithful(ds) && OnReading(a, HostClock(ds + [a]))
  {
    hide Encode, Complete;
    var all := ds + [a];
    assert all[..|ds|] == ds;
    assert PacketsOf(all)[..|ds|] == PacketsOf(ds);
  }

  lemma OverflowSnoc(ps: seq<Packet>, p: Packet)
    ensures OverflowSinceSync(ps + [p]) <==> p.Overflow? || (!p.Sync? && OverflowSinceSync(ps))
    ensures EventsBeforeOverflow(ps + [p]) <==> EventsBeforeOverflow(ps) && (p.Event? ==> !OverflowSinceSync(ps))
  {
    assert (ps + [p])[..|ps|] == ps;
  }

  /** What one more write does to the facts about the delivered ones. */
  lemma Snoc(log: Log, a: Attempt)
    ensures var before, after := Delivered(log), Delivered(log + [a]);
      var now := Check.PacketTick(a.packet, HostClock(before));
      if !Complete(a) then after == before
      else
        && HostClock(after) == now
        && (Faithful(after) <==> Faithful(before) && OnReading(a, now))
    ensures var before, after := Stream(log), Stream(log + [a]);
      if !Complete(a) then after == before
      else
        && (OverflowSinceSync(after) <==> a.packet.Overflow? || (!a.packet.Sync? && OverflowSinceSync(before)))
        && (EventsBeforeOverflow(after) <==> EventsBeforeOverflow(before) && (a.packet.Event? ==> !OverflowSinceSync(before)))
  {
    hide Encode, Complete, Faithful, HostClock, Check.PacketTick, OverflowSinceSync, EventsBeforeOverflow, Stream;
    DeliveredSnoc(log, a);
    if Complete(a) {
      ClockSnoc(Delivered(log), a);
      OverflowSnoc(Stream(log), a.packet);
    }
  }

  // ----- The invariant -----

  /** The delta anchor is the host's clock: in the normal state, once synced. In
      the dropping state it may be anything. */
  predicate Timed(s: State) {
    && Faithful(Delivered(s.log)) && EventsBeforeOverflow(Stream(s.log))
    && (!s.dropping && Synced(s.log) ==> OnTime(s))
  }

  predicate OnTime(s: State) {
    HostClock(Delivered(s.log)) % TWO_32 == s.lastTs && !OverflowSinceSync(Stream(s.log))
  }

  lemma DeltaBringsToNow(clock: nat, last: uint32, now: uint32)
    requires clock % TWO_32 == last
    ensures (clock + WrapSub(now, last)) % TWO_32 == now
  {
  }

  lemma SyncTimed(s: State, c: Config, ts: uint32, cause: Cause, room: nat)
    requires Faithful(Delivered(s.log)) && EventsBeforeOverflow(Stream(s.log))
    ensures var o := EmitSync(s, c, ts, cause, room);
      && Faithful(Delivered(o.state.log)) && EventsBeforeOverflow(Stream(o.state.log))
      && o.state.dropping == s.dropping
      && (o.ok ==> OnTime(o.state) && Synced(o.state.log))
      && (!o.ok ==> (OnTime(s) ==> OnTime(o.state)) && (Synced(o.state.log) ==> Synced(s.log)))
  {
    hide Encode, Faithful, HostClock, OverflowSinceSync, EventsBeforeOverflow, Stream, Delivered, Synced;
    var p := Packet.Sync(ts, c.freq);
    var a := Attempt(p, ts, cause, Min(room, |Encode(p)|));
    Snoc(s.log, a);
    StreamShape.Snoc(s.log, a, 0);
    assert ts % TWO_32 == ts;
  }

  lemma RecoveryTimed(s: State, c: Config, env: Env)
    requires Timed(s) && s.dropping
    ensures var o := TryRecovery(s, c, env);
      Timed(o.state) && (o.ok ==> OnTime(o.state)) && (!o.ok ==> o.state.dropping)
  {
    hide Encode, Faithful, HostClock, OverflowSinceSync, EventsBeforeOverflow, Stream, Delivered, Synced, OnTime,
         EmitSync;
    var p := Overflow(WrapSub(env.overflowTs, s.lastTs), s.overflowDrops);
    var a := Attempt(p, env.overflowTs, InEvent, Min(env.overflowRoom, |Encode(p)|));
    Snoc(s.log, a);
    var s1 := Write(s, p, env.overflowTs, InEvent, env.overflowRoom).(lastTs := env.overflowTs);
    SyncTimed(s1, c, env.syncTs, InEvent, env.syncRoom);
    OnTimeIgnores(EmitSync(s1, c, env.syncTs, InEvent, env.syncRoom).state);
  }

  /** The counters and the dropping flag have no part in it. */
  lemma OnTimeIgnores(s: State)
    ensures forall t: State {:trigger OnTime(t)} :: t.lastTs == s.lastTs && t.log == s.log ==> (OnTime(t) <==> OnTime(s))
  {
  }

  lemma AdmitTimed(s: State, c: Config, env: Env)
    requires Timed(s) && Shaped(s, c)
    ensures var o := Admit(s, c, env);
      if o.ok then Timed(o.state) && OnTime(o.state) else Timed(o.state) && o.state.dropping
  {
    hide Encode, Faithful, EventsBeforeOverflow, Stream, Delivered, Synced, OnTime, EmitSync, TryRecovery, Spaced,
         GateHeld,
         Anchored, SinceSync, Allowed, ShortSinceEvent, Pow2;
    OnTimeIgnores(s);
    if s.dropping {
      RecoveryTimed(s, c, env);
    } else if s.syncCounter % Period(c) == 0 {
      var s1 := s.(syncCounter := Inc(s.syncCounter));
      SyncTimed(s1, c, env.syncTs, InEvent, env.syncRoom);
    }
  }

  lemma EmitTimed(s: State, c: Config, eid: OrdinaryId, payload: Payload, env: Env)
    requires Timed(s) && Shaped(s, c)
    ensures Timed(EmitEvent(s, c, eid, payload, env))
  {
    hide Encode, Faithful, HostClock, EventsBeforeOverflow, OverflowSinceSync, Stream, Delivered, Synced, Admit, Shaped;
    AdmitTimed(s, c, env);
    var o := Admit(s, c, env);
    if o.ok {
      var t := o.state;
      var p := Event(eid, WrapSub(env.eventTs, t.lastTs), payload);
      Snoc(t.log, Attempt(p, env.eventTs, InEvent, Min(env.eventRoom, |Encode(p)|)));
      DeltaBringsToNow(HostClock(Delivered(t.log)), t.lastTs, env.eventTs);
    }
  }

  lemma {:induction false} ChunksTimed(s: State, d: Descriptor, i: nat, rooms: seq<nat>)
    requires Timed(s)
    ensures Timed(EmitChunks(s, d, i, rooms))
    decreases ChunkCount(d) - i
  {
    hide Encode, Faithful, HostClock, EventsBeforeOverflow, OverflowSinceSync, Stream, Delivered, Synced, EmitChunks,
         ChunkCount;
    if i >= ChunkCount(d) {
      ChunksOver(s, d, i, rooms);
    } else {
      ChunksTurn(s, d, i, rooms);
      var p := ChunkPacket(d, i);
      var a := Attempt(p, 0, InPreamble, Min(RoomAt(rooms, i), |Encode(p)|));
      Snoc(s.log, a);
      StreamShape.Snoc(s.log, a, 0);
      if Fits(p, RoomAt(rooms, i)) {
        ChunksTimed(Write(s, p, 0, InPreamble, RoomAt(rooms, i)), d, i + 1, rooms);
      }
    }
  }

  lemma PreambleTimed(s: State, c: Config, ts: uint32, room: nat, rooms: seq<nat>)
    requires Timed(s)
    ensures Timed(EmitPreamble(s, c, ts, room, rooms).state)
  {
    hide Encode, Faithful, EventsBeforeOverflow, OnTime, Stream, Delivered, Synced, EmitChunks, EmitSync;
    SyncTimed(s, c, ts, InPreamble, room);
    var o := EmitSync(s, c, ts, InPreamble, room);
    if o.ok {
      ChunksTimed(o.state, c.descriptor, 0, rooms);
    }
  }

  lemma {:induction false} RunTimed(r: Run)
    ensures Timed(Final(r))
    decreases |r.actions|
  {
    hide EmitPreamble, EmitEvent, Shaped, Timed;
    if r.actions == [] {
      assert Timed(RESET) by { ResetTimed(); }
      PreambleTimed(RESET, r.config, r.syncTs, r.syncRoom, r.chunkRooms);
    } else {
      var n := |r.actions| - 1;
      var earlier := r.(actions := r.actions[..n]);
      RunTimed(earlier);
      RunShaped(earlier);
      match r.actions[n] {
        case Emit(eid, payload, env) => EmitTimed(Final(earlier), r.config, eid, payload, env);
        case Preamble(ts, room, rooms) => PreambleTimed(Final(earlier), r.config, ts, room, rooms);
      }
    }
  }

  lemma ResetTimed()
    ensures Timed(RESET)
  {
  }

  // ----- The host's side of the theorem -----

  /** The validator's clock, from the stream's first sync packet up to and
      including the i-th packet. */
  function HostTime(ps: seq<Packet>, i: nat): nat
    requires i < |ps| && Preface(ps) <= i
  {
    var raw, start := EncodeAll(ps), Offset(ps, Preface(ps));
    var fs := Frames(raw, start);
    var n := i - Preface(ps) + 1;
    if n <= |fs| then Check.Clock(raw, fs[..n], 0) else 0
  }

  lemma {:induction false} ClockFromSync(ps: seq<Packet>, k: nat, t: nat, u: nat)
    requires k < |ps| && ps[k].Sync?
    ensures Check.PacketClock(ps, t) == Check.PacketClock(ps[k..], u)
  {
    hide Check.PacketTick;
    var init, last, tail := ps[..|ps| - 1], ps[|ps| - 1], ps[k..];
    assert tail[|tail| - 1] == last;
    if k == |ps| - 1 {
      SyncSets(last, Check.PacketClock(init, t), Check.PacketClock(tail[..0], u));
    } else {
      assert tail[..|tail| - 1] == init[k..];
      ClockFromSync(init, k, t, u);
    }
  }

  lemma SyncSets(p: Packet, t: nat, u: nat)
    requires p.Sync?
    ensures Check.PacketTick(p, t) == Check.PacketTick(p, u)
  {
  }

  /** Framing of the stream of any packets that hold a sync. */
  lemma HostFramesPackets(ps: seq<Packet>)
    requires Preface(ps) < |ps|
    ensures var k := Preface(ps);
      Frames(EncodeAll(ps), Offset(ps, k)) == FramesOf(ps[k..], Offset(ps, k))
      && FramesEnd(EncodeAll(ps), Offset(ps, k)) == |EncodeAll(ps)|
  {
    hide Encode, EncodeAll, At, Frames, FramesOf, FramesEnd, Framed;
    var k, raw := Preface(ps), EncodeAll(ps);
    OffsetSplit(ps, k);
    FramesOfPackets(raw, Offset(ps, k), ps[k..]);
    NotFramedAtEnd(raw);
    FramesStop(raw, |raw|);
  }

  lemma NotFramedAtEnd(raw: seq<byte>)
    ensures !Framed(raw, |raw|)
  {
  }

  /** With that many frames behind the first sync. */
  lemma HostTimeIs(ps: seq<Packet>, i: nat)
    requires Preface(ps) <= i < |ps|
    requires i - Preface(ps) < |Frames(EncodeAll(ps), Offset(ps, Preface(ps)))|
    ensures var raw, k := EncodeAll(ps), Preface(ps);
      HostTime(ps, i) == Check.Clock(raw, Frames(raw, Offset(ps, k))[..i - k + 1], 0)
  {
    hide Encode, EncodeAll, Check.Clock, Frames, Offset, Preface;
  }

  lemma HostClockOfPackets(ps: seq<Packet>, i: nat)
    requires Preface(ps) <= i < |ps|
    ensures HostTime(ps, i) == Check.PacketClock(ps[..i + 1], 0)
  {
    hide Encode, EncodeAll, At, Check.PacketClock, Check.Clock, Frames, FramesOf, FramesEnd, Offset, Preface, HostTime;
    var k, raw := Preface(ps), EncodeAll(ps);
    var start, tail, n := Offset(ps, k), ps[k..], i - k + 1;
    PrefaceIsSync(ps);
    HostFramesPackets(ps);
    OffsetSplit(ps, k);
    FramesOfPrefix(tail, start, n);
    AtPrefix(raw, start, tail, n);
    TakeThenDrop(ps, k, i + 1);
    calc {
      HostTime(ps, i);
      { HostTimeIs(ps, i); }
      Check.Clock(raw, FramesOf(tail, start)[..n], 0);
      { Check.ClockOfPackets(raw, start, tail[..n], 0); }
      Check.PacketClock(tail[..n], 0);
      { ClockFromSync(ps[..i + 1], k, 0, 0); }
      Check.PacketClock(ps[..i + 1], 0);
    }
  }

  lemma PrefaceIsSync(ps: seq<Packet>)
    ensures Preface(ps) < |ps| ==> ps[Preface(ps)].Sync?
  {
  }

  /** Every packet from the first sync on is read back, in order. */
  lemma HostReadsPackets(ps: seq<Packet>)
    requires Preface(ps) < |ps|
    ensures var k := Preface(ps);
      var raw, start := EncodeAll(ps), Offset(ps, k);
      && |Frames(raw, start)| == |ps| - k && FramesEnd(raw, start) == |raw| && ReadAll(raw, start) == ps[k..]
  {
    hide Encode, EncodeAll, At, Frames, FramesOf, FramesEnd, ReadPacket, Framed;
    var k, raw := Preface(ps), EncodeAll(ps);
    HostFramesPackets(ps);
    FramesOfIndex(ps[k..], Offset(ps, k));
    OffsetSplit(ps, k);
    ReadAllOfPackets(raw, Offset(ps, k), ps[k..]);
    NotFramedAtEnd(raw);
    assert ReadAll(raw, |raw|) == [];
  }

  lemma AtPrefix(raw: seq<byte>, o: nat, ps: seq<Packet>, n: nat)
    requires At(raw, o, EncodeAll(ps)) && n <= |ps|
    ensures At(raw, o, EncodeAll(ps[..n]))
  {
    hide Encode, EncodeAll, At;
    EncodeAllSplit(ps, n);
    AtSplit(raw, o, EncodeAll(ps[..n]), EncodeAll(ps[n..]));
  }

  lemma {:induction false} FramesOfPrefix(ps: seq<Packet>, o: nat, n: nat)
    requires n <= |ps|
    ensures |FramesOf(ps, o)| == |ps| && FramesOf(ps, o)[..n] == FramesOf(ps[..n], o)
  {
    hide Encode, EncodeAll;
    if ps != [] {
      var init := ps[..|ps| - 1];
      if n == |ps| {
        FramesOfPrefix(init, o, |init|);
        assert ps[..n] == ps;
      } else {
        FramesOfPrefix(init, o, n);
        assert init[..n] == ps[..n];
      }
    }
  }

  lemma {:induction false} FaithfulAt(ds: Log, i: nat)
    requires Faithful(ds) && i < |ds| && ds[i].packet.Event?
    ensures Check.PacketClock(PacketsOf(ds)[..i + 1], 0) % TWO_32 == ds[i].ts
  {
    hide Encode, Check.PacketClock, Complete;
    var init := ds[..|ds| - 1];
    if i < |init| {
      FaithfulAt(init, i);
      assert PacketsOf(init)[..i + 1] == PacketsOf(ds)[..i + 1];
    } else {
      assert PacketsOf(ds)[..i + 1] == PacketsOf(ds);
    }
  }

  /** End-to-end timestamp refinement. In every run over an all-or-nothing sink
      that got a sync packet out, the host reads, from the first sync packet on,
      exactly the packets delivered, in order, with no byte left over; no event
      comes before; and each event's host timestamp is, modulo 2^32, the clock
      reading the firmware took for it. */
  lemma TimestampRefinement(r: Run, i: nat)
    requires var log := Final(r).log; AllOrNothing(log) && Synced(log) && i < |Delivered(log)|
    ensures FindSync(Written(Final(r).log), 0) >= 0
    ensures var log := Final(r).log;
      var ds, ps, raw := Delivered(log), Stream(log), Written(log);
      var k := Preface(ps);
      var start := FindSync(raw, 0);
      && ReadAll(raw, start) == ps[k..] && FramesEnd(raw, start) == |raw| && |Frames(raw, start)| == |ps| - k
      && (i < k ==> ds[i].packet.Overflow?)
      && (i >= k && ds[i].packet.Event? ==> Check.Clock(raw, Frames(raw, start)[..i - k + 1], 0) % TWO_32 == ds[i].ts)
  {
    hide Final, Synced, AllOrNothing, Written, Delivered, Encode, EncodeAll, Faithful, Frames, FramesEnd, Check.Clock,
         Check.PacketClock, LeastSync, FindSync, ReadAll, EventsBeforeOverflow, OnTime;
    var log := Final(r).log;
    var ds, ps := Delivered(log), Stream(log);
    HostFindsFirstSync(r);
    var k := Preface(ps);
    HostReadsPackets(ps);
    RunTimed(r);
    if i >= k && ds[i].packet.Event? {
      HostClockOfPackets(ps, i);
      FaithfulAt(ds, i);
    }
  }

  // ----- Elapsed time -----

  /** Unbounded clock readings behind a stretch of delivered writes that starts
      with a sync: congruent to what the firmware recorded and never going back.
      A chunk of metadata has no reading of its own and repeats the last one. */
  predicate Readings(seg: Log, times: seq<nat>) {
    && |times| == |seg| >= 1
    && times[0] % TWO_32 == seg[0].ts
    && forall i :: 1 <= i < |seg| ==> NextReading(seg[i], times[i - 1], times[i])
  }

  predicate NextReading(a: Attempt, before: nat, now: nat) {
    before <= now && if a.packet.Metadata? then now == before else now % TWO_32 == a.ts
  }

  /** A sync packet, then events and metadata: what is delivered between syncs up
      to an ordinary event. */
  predicate Segment(seg: Log) {
    && seg != [] && seg[0].packet.Sync? && seg[0].packet.ts == seg[0].ts
    && forall i :: 1 <= i < |seg| ==> seg[i].packet.Event? || seg[i].packet.Metadata?
  }

  /** No two successive readings are a whole turn of the 32-bit clock apart. */
  predicate NoFullTurn(times: seq<nat>) {
    forall i :: 1 <= i < |times| ==> times[i] - times[i - 1] < TWO_32
  }

  /** At every packet of the segment the host's elapsed time is the true one. */
  predicate ExactElapsed(seg: Log, times: seq<nat>)
    requires |times| == |seg| >= 1
  {
    var n := |seg| - 1;
    HostClock(seg) + times[0] == times[n] + seg[0].ts && (n == 0 || ExactElapsed(seg[..n], times[..n]))
  }

  /** In the segment the packet's delta is the true gap, less whole turns. */
  lemma GapOfDelta(clock: nat, delta: uint32, before: nat, now: nat)
    requires clock % TWO_32 == before % TWO_32 && (clock + delta) % TWO_32 == now % TWO_32 && before <= now
    ensures delta == (now - before) % TWO_32
    ensures delta == now - before <==> now - before < TWO_32
  {
    var turns := clock / TWO_32 - before / TWO_32;
    assert clock == before + turns * TWO_32;
    Congruent(before + delta, clock + delta, turns);
    var gap := now - before;
    var more := (before + delta) / TWO_32 - now / TWO_32;
    assert gap - delta == -more * TWO_32;
    ResidueIs(gap, delta, -more);
  }

  lemma Congruent(x: nat, y: nat, k: int)
    requires y == x + k * TWO_32
    ensures x % TWO_32 == y % TWO_32
  {
  }

  lemma ResidueIs(x: nat, r: uint32, k: int)
    requires x == r + k * TWO_32
    ensures x % TWO_32 == r
  {
  }

  lemma PrefixOfReadings(seg: Log, times: seq<nat>, n: nat)
    requires Readings(seg, times) && 1 <= n <= |seg|
    ensures Readings(seg[..n], times[..n])
  {
    hide Encode, HostClock, Complete;
    var s, t := seg[..n], times[..n];
    assert s[0] == seg[0] && t[0] == times[0];
    forall i | 1 <= i < |s|
      ensures NextReading(s[i], t[i - 1], t[i])
    {
      assert NextReading(seg[i], times[i - 1], times[i]);
    }
  }

  lemma PrefixOfSegment(seg: Log, times: seq<nat>)
    requires Segment(seg) && Faithful(seg) && Readings(seg, times) && |seg| >= 2
    ensures var n := |seg| - 1;
      Segment(seg[..n]) && Faithful(seg[..n]) && Readings(seg[..n], times[..n])
  {
    hide Encode, HostClock, Complete, OnReading, Readings;
    PrefixOfReadings(seg, times, |seg| - 1);
  }

  lemma SplitTurn(times: seq<nat>)
    requires |times| >= 2
    ensures var n := |times| - 1;
      NoFullTurn(times) <==> NoFullTurn(times[..n]) && times[n] - times[n - 1] < TWO_32
  {
    var n := |times| - 1;
    assert forall i {:trigger times[..n][i]} :: 0 <= i < n ==> times[..n][i] == times[i];
    if NoFullTurn(times[..n]) {
      forall i | 1 <= i < n
        ensures times[i] - times[i - 1] < TWO_32
      {
        assert times[..n][i] - times[..n][i - 1] < TWO_32;
      }
    }
  }

  lemma ClockOfSync(seg: Log)
    requires |seg| == 1 && Segment(seg)
    ensures HostClock(seg) == seg[0].ts
  {
    var ps := PacketsOf(seg);
    assert ps[..0] == [];
  }

  lemma ClockStep(seg: Log)
    requires |seg| >= 2 && Segment(seg)
    ensures var n := |seg| - 1;
      HostClock(seg) == HostClock(seg[..n]) + if seg[n].packet.Event? then seg[n].packet.delta else 0
  {
    hide Encode, Complete;
    var n := |seg| - 1;
    assert PacketsOf(seg)[..n] == PacketsOf(seg[..n]);
  }

  /** Over a segment the host's clock stays congruent to the true one, never gets
      ahead of it, and is exact all the way if and only if no gap is a full turn. */
  lemma {:induction false} ElapsedOfSegment(seg: Log, times: seq<nat>)
    requires Segment(seg) && Faithful(seg) && Readings(seg, times)
    ensures HostClock(seg) % TWO_32 == times[|times| - 1] % TWO_32
    ensures HostClock(seg) + times[0] <= times[|times| - 1] + seg[0].ts
    ensures ExactElapsed(seg, times) <==> NoFullTurn(times)
    decreases |seg|
  {
    hide Encode, HostClock, Complete, Segment, Faithful, Readings, NoFullTurn;
    Lengths(seg, times);
    var n := |seg| - 1;
    if n == 0 {
      ClockOfSync(seg);
      StartOfSegment(seg, times);
    } else {
      PrefixOfSegment(seg, times);
      ElapsedOfSegment(seg[..n], times[..n]);
      ClockStep(seg);
      SplitTurn(times);
      EndOfSegment(seg, times);
      if seg[n].packet.Event? {
        GapOfDelta(HostClock(seg[..n]), seg[n].packet.delta, times[n - 1], times[n]);
      }
    }
  }

  lemma Lengths(seg: Log, times: seq<nat>)
    requires Readings(seg, times)
    ensures |times| == |seg| >= 1
  {
  }

  lemma StartOfSegment(seg: Log, times: seq<nat>)
    requires |seg| == 1 && Segment(seg) && Readings(seg, times)
    ensures |times| == 1 && times[0] % TWO_32 == seg[0].ts % TWO_32 && NoFullTurn(times)
  {
  }

  lemma EndOfSegment(seg: Log, times: seq<nat>)
    requires |seg| >= 2 && Segment(seg) && Faithful(seg) && Readings(seg, times)
    ensures var n := |seg| - 1;
      && |times| == |seg| && times[n] >= times[n - 1]
      && (seg[n].packet.Event? ==> HostClock(seg) % TWO_32 == times[n] % TWO_32)
      && (!seg[n].packet.Event? ==> times[n] == times[n - 1])
  {
    hide Encode, HostClock, Complete;
  }

  lemma {:induction false} ExactMeans(seg: Log, times: seq<nat>)
    requires |times| == |seg| >= 1
    ensures ExactElapsed(seg, times)
      <==> forall i {:trigger times[i]} :: 0 <= i < |seg| ==> HostClock(seg[..i + 1]) + times[0] == times[i] + seg[0].ts
  {
    hide Encode, HostClock, Complete;
    var n := |seg| - 1;
    assert seg[..n + 1] == seg;
    if n > 0 {
      var init, before := seg[..n], times[..n];
      ExactMeans(init, before);
      forall i {:trigger times[i]} | 0 <= i < n
        ensures init[..i + 1] == seg[..i + 1] && before[i] == times[i]
      {
      }
      assert init[0] == seg[0];
      if ExactElapsed(seg, times) {
        forall i {:trigger times[i]} | 0 <= i < |seg|
          ensures HostClock(seg[..i + 1]) + times[0] == times[i] + seg[0].ts
        {
          if i < n { assert HostClock(init[..i + 1]) + before[0] == before[i] + seg[0].ts; }
        }
      }
      if forall i {:trigger times[i]} :: 0 <= i < |seg| ==> HostClock(seg[..i + 1]) + times[0] == times[i] + seg[0].ts {
        forall i {:trigger before[i]} | 0 <= i < |init|
          ensures HostClock(init[..i + 1]) + before[0] == before[i] + init[0].ts
        {
          assert HostClock(seg[..i + 1]) + times[0] == times[i] + seg[0].ts;
        }
        assert HostClock(seg[..n + 1]) + times[0] == times[n] + seg[0].ts;
      }
    }
  }

  lemma {:induction false} OverflowSinceSyncMeans(ps: seq<Packet>, j: nat)
    requires j < |ps| && ps[j].Overflow? && forall i :: j < i < |ps| ==> !ps[i].Sync?
    ensures OverflowSinceSync(ps)
  {
    var init := ps[..|ps| - 1];
    if j < |init| {
      assert forall i :: j < i < |init| ==> init[i] == ps[i];
      OverflowSinceSyncMeans(init, j);
    }
  }

  lemma {:induction false} NoOverflowBeforeEvent(ps: seq<Packet>, m: nat)
    requires EventsBeforeOverflow(ps) && m < |ps| && ps[m].Event?
    ensures !OverflowSinceSync(ps[..m])
  {
    hide OverflowSinceSync;
    if m < |ps| - 1 {
      assert ps[..|ps| - 1][..m] == ps[..m];
      NoOverflowBeforeEvent(ps[..|ps| - 1], m);
    }
  }

  /** Host clocks do not depend on what was delivered before the sync. */
  lemma SegmentClock(ds: Log, k: nat, i: nat)
    requires k <= i < |ds| && ds[k].packet.Sync?
    ensures Check.PacketClock(PacketsOf(ds)[..i + 1], 0) == HostClock(ds[k..i + 1])
  {
    hide Encode, Check.PacketClock, Complete;
    var ps := PacketsOf(ds)[..i + 1];
    ClockFromSync(ps, k, 0, 0);
    assert ps[k..] == PacketsOf(ds[k..i + 1]);
  }

  lemma ClockOfTail(ds: Log, k: nat)
    requires k < |ds| && ds[k].packet.Sync?
    ensures HostClock(ds) == HostClock(ds[k..])
  {
    hide Encode, Check.PacketClock, Complete;
    SegmentClock(ds, k, |ds| - 1);
    assert PacketsOf(ds)[..|ds|] == PacketsOf(ds) && ds[k..|ds|] == ds[k..];
  }

  lemma {:induction false} FaithfulFromSync(ds: Log, k: nat)
    requires Faithful(ds) && k < |ds| && ds[k].packet.Sync?
    ensures Faithful(ds[k..])
    decreases |ds|
  {
    hide Encode, Complete, HostClock, OnReading, Faithful;
    var n := |ds| - 1;
    var seg := ds[k..];
    ClockOfTail(ds, k);
    FaithfulStep(ds);
    FaithfulStep(seg);
    assert seg[|seg| - 1] == ds[n];
    if k < n {
      assert ds[..n][k..] == seg[..|seg| - 1];
      FaithfulFromSync(ds[..n], k);
    } else {
      assert seg[..|seg| - 1] == [];
      FaithfulStep([]);
    }
  }

  lemma FaithfulStep(ds: Log)
    ensures Faithful(ds) <==> ds == [] || (Faithful(ds[..|ds| - 1]) && OnReading(ds[|ds| - 1], HostClock(ds)))
  {
    hide Encode, Complete, HostClock, OnReading;
  }

  lemma {:induction false} FaithfulPrefix(ds: Log, n: nat)
    requires Faithful(ds) && n <= |ds|
    ensures Faithful(ds[..n])
    decreases |ds|
  {
    hide Encode, HostClock, Complete;
    if n < |ds| {
      assert ds[..|ds| - 1][..n] == ds[..n];
      FaithfulPrefix(ds[..|ds| - 1], n);
    } else {
      assert ds[..n] == ds;
    }
  }

  /** The deliveries from a sync up to an ordinary event, no sync between them,
      are events and metadata only. */
  lemma SegmentOfRun(r: Run, k: nat, m: nat)
    requires var ds := Delivered(Final(r).log);
      && k < m < |ds| && ds[k].packet.Sync? && ds[m].packet.Event?
      && forall i :: k < i < m ==> !ds[i].packet.Sync?
    ensures var seg := Delivered(Final(r).log)[k..m + 1];
      Segment(seg) && Faithful(seg)
  {
    hide Encode, Final, Complete, HostClock, OnTime, Synced, EventsBeforeOverflow, Delivered, Faithful, Segment;
    var log := Final(r).log;
    var ds := Delivered(log);
    RunTimed(r);
    FaithfulPrefix(ds, m + 1);
    FaithfulFromSync(ds[..m + 1], k);
    assert ds[..m + 1][k..] == ds[k..m + 1];
    SyncReading(ds[k..m + 1]);
    NoOverflowBetween(Stream(log), k, m);
    IsSegment(ds, k, m);
  }

  lemma NoOverflowBetween(ps: seq<Packet>, k: nat, m: nat)
    requires EventsBeforeOverflow(ps) && k < m < |ps| && ps[m].Event? && forall i :: k < i < m ==> !ps[i].Sync?
    ensures forall i :: k < i < m ==> !ps[i].Overflow?
  {
    hide OverflowSinceSync, EventsBeforeOverflow;
    NoOverflowBeforeEvent(ps, m);
    forall i | k < i < m
      ensures !ps[i].Overflow?
    {
      if ps[i].Overflow? {
        OverflowSinceSyncMeans(ps[..m], i);
      }
    }
  }

  lemma IsSegment(ds: Log, k: nat, m: nat)
    requires k < m < |ds| && ds[k].packet.Sync? && ds[k].packet.ts == ds[k].ts && ds[m].packet.Event?
    requires forall i :: k < i < m ==> !ds[i].packet.Sync? && !ds[i].packet.Overflow?
    ensures Segment(ds[k..m + 1])
  {
    hide Encode, Complete;
    var seg := ds[k..m + 1];
    forall i | 1 <= i < |seg|
      ensures seg[i].packet.Event? || seg[i].packet.Metadata?
    {
      assert seg[i] == ds[k + i];
    }
  }

  lemma SyncReading(seg: Log)
    requires Faithful(seg) && seg != [] && seg[0].packet.Sync?
    ensures seg[0].packet.ts == seg[0].ts
  {
    hide Encode, HostClock, Complete;
    FaithfulPrefix(seg, 1);
    assert seg[..1][0] == seg[0];
  }

  /** True elapsed time. Take any run, a delivered sync packet, a delivered event
      behind it with no sync between, and any unbounded, never decreasing clock
      whose low 32 bits are the readings behind those deliveries. Then at each of
      them the host's time since the sync is the true elapsed time if and only if
      no two successive such readings are 2^32 or more apart. */
  lemma TrueElapsedTime(r: Run, k: nat, m: nat, times: seq<nat>)
    requires var ds := Delivered(Final(r).log);
      && k < m < |ds| && ds[k].packet.Sync? && ds[m].packet.Event?
      && (forall i :: k < i < m ==> !ds[i].packet.Sync?)
      && Readings(ds[k..m + 1], times)
    ensures var ds, ps := Delivered(Final(r).log), Stream(Final(r).log);
      && Preface(ps) <= k && |times| == m - k + 1
      && ((forall j {:trigger times[j]} :: 0 <= j <= m - k ==> HostTime(ps, k + j) + times[0] == times[j] + ds[k].ts)
          <==> NoFullTurn(times))
  {
    hide Encode, Final, Complete, HostClock, HostTime, Segment, Faithful, NoFullTurn, ExactElapsed, Delivered,
         Check.PacketClock;
    var ds, ps := Delivered(Final(r).log), Stream(Final(r).log);
    var seg := ds[k..m + 1];
    SegmentOfRun(r, k, m);
    ElapsedOfSegment(seg, times);
    ExactMeans(seg, times);
    assert seg[0] == ds[k];
    forall j {:trigger times[j]} | 0 <= j <= m - k
      ensures HostTime(ps, k + j) == HostClock(seg[..j + 1])
    {
      HostClockOfPackets(ps, k + j);
      SegmentClock(ds, k, k + j);
      assert seg[..j + 1] == ds[k..k + j + 1];
    }
  }

  // ----- A turn of the clock that no packet shows -----

  /** An emit call that syncs, a preamble whose sync finds no room, and an emit
      call, with their readings 3 * 10^9 ns apart. */
  function HiddenTurn(eid: OrdinaryId, payload: Payload, first: Env, rooms: seq<nat>, second: Env): seq<Action> {
    [Emit(eid, payload, first)] + [Preamble(HALF_WAY, 0, rooms)] + [Emit(eid, payload, second)]
  }

  const HALF_WAY: uint32 := 3_000_000_000
  const LATER: nat := 6_000_000_000

  /** What the three calls write, from a normal state in which a sync is due. */
  lemma HiddenTurnWrites(r: Run, eid: OrdinaryId, payload: Payload, first: Env, rooms: seq<nat>, second: Env)
    requires !Final(r).dropping && Final(r).syncCounter % Period(r.config) == 0 && r.config.shift >= 1
    requires first.syncTs == 0 && first.eventTs == 0 && first.syncRoom >= 255 && first.eventRoom >= 255
    requires second.eventTs == LATER % TWO_32 && second.eventRoom >= 255
    ensures 0 < |Encode(Sync(HALF_WAY, r.config.freq))|
    ensures Final(r.(actions := r.actions + HiddenTurn(eid, payload, first, rooms, second))).log
         == Final(r).log
            + [Whole(Sync(0, r.config.freq), 0, InEvent)]
            + [Whole(Event(eid, 0, payload), 0, InEvent)]
            + [Attempt(Sync(HALF_WAY, r.config.freq), HALF_WAY, InPreamble, 0)]
            + [Whole(Event(eid, second.eventTs, payload), second.eventTs, InEvent)]
  {
    hide Encode, Final, EmitEvent, Whole, Period, Inc;
    var s, c := Final(r), r.config;
    var r1 := r.(actions := r.actions + [Emit(eid, payload, first)]);
    var r2 := r.(actions := r1.actions + [Preamble(HALF_WAY, 0, rooms)]);
    FinalSnoc(r, Emit(eid, payload, first));
    CallSyncsWithRoom(s, c, eid, payload, first);
    PreambleSyncFailureIsIgnored(r1, HALF_WAY, 0, rooms);
    FinalSnoc(r2, Emit(eid, payload, second));
    NotDueAgain(s.syncCounter, c);
    CallWithoutSync(Final(r2), c, eid, payload, second);
    ThreeActions(r.actions, Emit(eid, payload, first), Preamble(HALF_WAY, 0, rooms), Emit(eid, payload, second));
  }

  lemma ThreeActions(actions: seq<Action>, a: Action, b: Action, c: Action)
    ensures actions + [a] + [b] + [c] == actions + ([a] + [b] + [c])
  {
  }

  /** Behind the history `before` come four writes, starting with a sync, with all
      readings less than 2^32 ns apart. Three of them are delivered, and there the
      host's time at the end is a full turn of the clock short of the true one. */
  predicate MissesTurn(before: Log, log: Log) {
    var ds, k := Delivered(log), |Delivered(before)|;
    var all: seq<nat>, delivered: seq<nat> := [0, 0, HALF_WAY, LATER], [0, 0, LATER];
    && |log| == |before| + 4 && Readings(log[|before|..], all) && NoFullTurn(all)
    && |ds| == k + 3 && ds[k].packet.Sync? && ds[k + 2].packet.Event?
    && Readings(ds[k..], delivered) && !NoFullTurn(delivered)
    && Preface(PacketsOf(ds)) <= k
    && HostTime(PacketsOf(ds), k + 2) - ds[k].ts == LATER - TWO_32
  }

  /** The bound on the gaps is one on the readings that were delivered, not on all:
      three calls behind any run that left a sync due show the difference. */
  lemma HiddenTurnIsMissed(r: Run, eid: OrdinaryId, payload: Payload, first: Env, rooms: seq<nat>, second: Env)
    requires !Final(r).dropping && Final(r).syncCounter % Period(r.config) == 0 && r.config.shift >= 1
    requires first.syncTs == 0 && first.eventTs == 0 && first.syncRoom >= 255 && first.eventRoom >= 255
    requires second.eventTs == LATER % TWO_32 && second.eventRoom >= 255
    ensures MissesTurn(Final(r).log, Final(r.(actions := r.actions + HiddenTurn(eid, payload, first, rooms, second))).log)
  {
    hide Encode, Final, Whole, Pow2, Complete, Delivered, HostTime, Preface, Readings, NoFullTurn;
    HiddenTurnWrites(r, eid, payload, first, rooms, second);
    var c, before := r.config, Final(r).log;
    var q, v := Whole(Sync(0, c.freq), 0, InEvent), Whole(Event(eid, 0, payload), 0, InEvent);
    var x := Attempt(Sync(HALF_WAY, c.freq), HALF_WAY, InPreamble, 0);
    var w := Whole(Event(eid, second.eventTs, payload), second.eventTs, InEvent);
    WholeIs(Sync(0, c.freq), 0, InEvent);
    WholeIs(Event(eid, 0, payload), 0, InEvent);
    WholeIs(Event(eid, second.eventTs, payload), second.eventTs, InEvent);
    NoneIsIncomplete(x);
    ThreeOfFour(before, q, v, x, w);
    HiddenTurnReadings(q, v, x, w);
    Turns();
    TailClock(Delivered(before + [q] + [v] + [x] + [w]), |Delivered(before)|, q, v, w);
  }

  lemma ThreeOfFour(before: Log, q: Attempt, v: Attempt, x: Attempt, w: Attempt)
    requires Complete(q) && Complete(v) && !Complete(x) && Complete(w)
    ensures var log, k := before + [q] + [v] + [x] + [w], |Delivered(before)|;
      && log[|before|..] == [q, v, x, w]
      && |Delivered(log)| == k + 3 && Delivered(log)[k..] == [q, v, w]
      && Delivered(log)[k] == q && Delivered(log)[k + 2] == w
  {
    hide Encode, Complete, Delivered, Stream;
    DeliveredSnoc(before, q);
    DeliveredSnoc(before + [q], v);
    DeliveredSnoc(before + [q] + [v], x);
    DeliveredSnoc(before + [q] + [v] + [x], w);
    TailOf4(before, q, v, x, w);
    TailOf3(Delivered(before), q, v, w);
  }

  lemma TailOf4<T>(s: seq<T>, a: T, b: T, c: T, d: T)
    ensures (s + [a] + [b] + [c] + [d])[|s|..] == [a, b, c, d]
  {
  }

  lemma TailOf3<T>(s: seq<T>, a: T, b: T, c: T)
    ensures var t := s + [a] + [b] + [c];
      |t| == |s| + 3 && t[|s|..] == [a, b, c] && t[|s|] == a && t[|s| + 2] == c
  {
  }

  lemma HiddenTurnReadings(q: Attempt, v: Attempt, x: Attempt, w: Attempt)
    requires q.ts == 0 && v.ts == 0 && x.ts == HALF_WAY && w.ts == LATER % TWO_32
    requires v.packet.Event? && x.packet.Sync? && w.packet.Event?
    ensures Readings([q, v, x, w], [0, 0, HALF_WAY, LATER]) && Readings([q, v, w], [0, 0, LATER])
  {
    hide Encode;
  }

  lemma Turns()
    ensures NoFullTurn([0, 0, HALF_WAY, LATER]) && !NoFullTurn([0, 0, LATER])
  {
    var times := [0, 0, LATER];
    assert times[2] - times[1] >= TWO_32;
  }

  /** The host's time at the end of a stream that ends with a sync at time zero
      and two events. */
  lemma TailClock(ds: Log, k: nat, q: Attempt, v: Attempt, w: Attempt)
    requires k <= |ds| && ds[k..] == [q, v, w] && q.packet.Sync? && v.packet.Event? && w.packet.Event?
    requires q.packet.ts == 0 && Complete(q) && Complete(v) && Complete(w)
    ensures Preface(PacketsOf(ds)) <= k && |ds| == k + 3
    ensures HostTime(PacketsOf(ds), k + 2) == v.packet.delta + w.packet.delta
  {
    hide Encode, Complete, HostTime, Check.PacketClock, Preface;
    assert ds[k] == ds[k..][0];
    PrefaceUpTo(PacketsOf(ds), k);
    HostClockOfPackets(PacketsOf(ds), k + 2);
    assert PacketsOf(ds)[..k + 3] == PacketsOf(ds);
    ClockOfTail(ds, k);
    assert [q, v, w] == [] + [q] + [v] + [w];
    ClockSnoc([], q);
    ClockSnoc([] + [q], v);
    ClockSnoc([] + [q] + [v], w);
  }

  lemma PrefaceUpTo(ps: seq<Packet>, k: nat)
    requires k < |ps| && ps[k].Sync?
    ensures Preface(ps) <= k
  {
  }
}
