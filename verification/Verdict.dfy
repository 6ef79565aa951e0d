/** End to end: what the drop analyser concludes about a run, and whether it is
    right. */
module Verdict {
  import opened Bytes
  import opened Packets
  import opened SyncSearch
  import opened Metadata
  import opened Emitter
  import opened StreamShape
  import opened Delivery
  import opened DropAnalysis
  import opened PacketReports
  import opened Accounting
  import Check = CheckDecoder

  // ----- The run's side -----

  predicate SomeOverflow(ps: seq<Packet>) {
    ps != [] && (ps[|ps| - 1].Overflow? || SomeOverflow(ps[..|ps| - 1]))
  }

  /** Counts that an overflow packet carried whose recovery then failed on the
      sync: the same drops are reported again later. */
  function Repeated(log: Log): nat {
    if log == [] then 0
    else
      var k := |log| - 1;
      Repeated(log[..k])
      + if FailedSync(log[k]) && OpenOverflow(log[..k]) then log[k - 1].packet.drops else 0
  }

  lemma StreamSnoc(log: Log, a: Attempt)
    ensures SomeOverflow(Stream(log + [a])) <==> SomeOverflow(Stream(log)) || (Complete(a) && a.packet.Overflow?)
    ensures Total(Counts(Stream(log + [a])))
         == Total(Counts(Stream(log))) + if Complete(a) && a.packet.Overflow? then a.packet.drops else 0
    ensures Repeated(log + [a])
         == Repeated(log) + if FailedSync(a) && OpenOverflow(log) then log[|log| - 1].packet.drops else 0
  {
    hide Encode, Complete, Stream;
    DeliveredSnoc(log, a);
    assert (log + [a])[..|log|] == log;
    if Complete(a) {
      PacketSnoc(Stream(log), a.packet);
    }
  }

  lemma PacketSnoc(ps: seq<Packet>, p: Packet)
    ensures SomeOverflow(ps + [p]) <==> SomeOverflow(ps) || p.Overflow?
    ensures Total(Counts(ps + [p])) == Total(Counts(ps)) + if p.Overflow? then p.drops else 0
  {
    assert (ps + [p])[..|ps|] == ps;
    if p.Overflow? {
      assert Counts(ps + [p]) == Counts(ps) + [p.drops];
      assert (Counts(ps) + [p.drops])[..|Counts(ps)|] == Counts(ps);
    } else {
      assert Counts(ps + [p]) == Counts(ps);
    }
  }

  /** Something was lost if and only if the firmware is dropping or some overflow
      packet got out; and what overflow packets say in total. */
  predicate Seen(s: State) {
    && !OpenOverflow(s.log) && Lost(s.log) >= 0
    && (Lost(s.log) > 0 <==> s.dropping || SomeOverflow(Stream(s.log)))
    && Total(Counts(Stream(s.log))) == Reported(s.log) + Repeated(s.log)
  }

  lemma RecoverySeen(s: State, c: Config, env: Env)
    requires Seen(s) && s.dropping
    ensures Seen(TryRecovery(s, c, env).state)
  {
    hide Encode, Reported, FailedSyncs, EventsWritten, Unsent, EventsLost, OpenOverflow, SomeOverflow, Stream,
         Counts, Repeated;
    var p := Overflow(WrapSub(env.overflowTs, s.lastTs), s.overflowDrops);
    var a := Attempt(p, env.overflowTs, InEvent, Min(env.overflowRoom, |Encode(p)|));
    var q := Packet.Sync(env.syncTs, c.freq);
    var b := Attempt(q, env.syncTs, InEvent, Min(env.syncRoom, |Encode(q)|));
    Accounting.Snoc(s.log, a);
    Accounting.Snoc(s.log + [a], b);
    StreamSnoc(s.log, a);
    StreamSnoc(s.log + [a], b);
  }

  lemma AdmitSeen(s: State, c: Config, env: Env)
    requires Seen(s)
    ensures Seen(Admit(s, c, env).state)
  {
    hide Encode, Reported, FailedSyncs, EventsWritten, Unsent, EventsLost, OpenOverflow, SomeOverflow, Stream,
         Counts, Repeated,
         Pow2, TryRecovery;
    if s.dropping {
      RecoverySeen(s, c, env);
    } else {
      var q := Packet.Sync(env.syncTs, c.freq);
      var b := Attempt(q, env.syncTs, InEvent, Min(env.syncRoom, |Encode(q)|));
      Accounting.Snoc(s.log, b);
      StreamSnoc(s.log, b);
    }
  }

  lemma EmitSeen(s: State, c: Config, eid: OrdinaryId, payload: Payload, env: Env)
    requires Seen(s)
    ensures Seen(EmitEvent(s, c, eid, payload, env))
  {
    hide Encode, Reported, FailedSyncs, EventsWritten, Unsent, EventsLost, OpenOverflow, SomeOverflow, Stream,
         Counts, Repeated, Admit;
    AdmitSeen(s, c, env);
    var t := Admit(s, c, env).state;
    var p := Event(eid, WrapSub(env.eventTs, t.lastTs), payload);
    var a := Attempt(p, env.eventTs, InEvent, Min(env.eventRoom, |Encode(p)|));
    Accounting.Snoc(t.log, a);
    StreamSnoc(t.log, a);
  }

  lemma {:induction false} ChunksSeen(s: State, d: Descriptor, i: nat, rooms: seq<nat>)
    requires Seen(s)
    ensures Seen(EmitChunks(s, d, i, rooms))
    decreases ChunkCount(d) - i
  {
    hide Encode, Reported, FailedSyncs, EventsWritten, Unsent, EventsLost, OpenOverflow, SomeOverflow, Stream,
         Counts, Repeated,
         EmitChunks, ChunkCount;
    if i >= ChunkCount(d) {
      ChunksOver(s, d, i, rooms);
    } else {
      ChunksTurn(s, d, i, rooms);
      var p := ChunkPacket(d, i);
      var a := Attempt(p, 0, InPreamble, Min(RoomAt(rooms, i), |Encode(p)|));
      Accounting.Snoc(s.log, a);
      StreamSnoc(s.log, a);
      if Fits(p, RoomAt(rooms, i)) {
        ChunksSeen(Write(s, p, 0, InPreamble, RoomAt(rooms, i)), d, i + 1, rooms);
      }
    }
  }

  lemma PreambleSeen(s: State, c: Config, ts: uint32, room: nat, rooms: seq<nat>)
    requires Seen(s)
    ensures Seen(EmitPreamble(s, c, ts, room, rooms).state)
  {
    hide Encode, Reported, FailedSyncs, EventsWritten, Unsent, EventsLost, OpenOverflow, SomeOverflow, Stream,
         Counts, Repeated, EmitChunks;
    var q := Packet.Sync(ts, c.freq);
    var a := Attempt(q, ts, InPreamble, Min(room, |Encode(q)|));
    Accounting.Snoc(s.log, a);
    StreamSnoc(s.log, a);
    var o := EmitSync(s, c, ts, InPreamble, room);
    ChunksSeen(o.state, c.descriptor, 0, rooms);
  }

  lemma {:induction false} RunSeen(r: Run)
    ensures Seen(Final(r))
    decreases |r.actions|
  {
    hide EmitPreamble, EmitEvent, Seen;
    if r.actions == [] {
      assert Seen(RESET) by { ResetSeen(); }
      PreambleSeen(RESET, r.config, r.syncTs, r.syncRoom, r.chunkRooms);
    } else {
      var n := |r.actions| - 1;
      var earlier := r.(actions := r.actions[..n]);
      RunSeen(earlier);
      match r.actions[n] {
        case Emit(eid, payload, env) => EmitSeen(Final(earlier), r.config, eid, payload, env);
        case Preamble(ts, room, rooms) => PreambleSeen(Final(earlier), r.config, ts, room, rooms);
      }
    }
  }

  lemma ResetSeen()
    ensures Seen(RESET)
  {
  }

  lemma {:induction false} SomeOverflowMeans(ps: seq<Packet>)
    ensures SomeOverflow(ps) <==> Counts(ps) != []
    ensures SomeOverflow(ps) <==> exists i :: 0 <= i < |ps| && ps[i].Overflow?
  {
    if ps != [] {
      var init := ps[..|ps| - 1];
      SomeOverflowMeans(init);
      assert forall i :: 0 <= i < |init| ==> init[i] == ps[i];
      if i :| 0 <= i < |init| && init[i].Overflow? {
        assert ps[i].Overflow?;
      }
    }
  }

  lemma {:induction false} SomeFreshMeans(ps: seq<Packet>)
    ensures SomeFresh(ps) <==> exists i :: 0 <= i < |ps| && Fresh(ps[i])
  {
    hide Fresh;
    if ps != [] {
      var init := ps[..|ps| - 1];
      SomeFreshMeans(init);
      assert forall i :: 0 <= i < |init| ==> init[i] == ps[i];
      if i :| 0 <= i < |init| && Fresh(init[i]) {
        assert Fresh(ps[i]);
      }
    }
  }

  // ----- The theorems -----

  /** The analyser's whole report on a run over an all-or-nothing sink that got a
      sync packet out. */
  lemma ReportOnRun(r: Run)
    requires var log := Final(r).log; AllOrNothing(log) && Synced(log)
    ensures var ps, raw := Stream(Final(r).log), Written(Final(r).log);
      var k := Preface(ps);
      var rep := ReportOf(raw);
      && OverflowsFirst(ps) && HasSync(ps) && k < |ps|
      && rep == Analyzed(|raw|, Offset(ps, k), |raw|, 0, PacketTally(ps[k..], Offset(ps, k), 0), 0)
      && rep.tally.events == |ps| - k && rep.tally.syncs == Check.Syncs(ps[k..]) && rep.tally.resyncs == []
      && DropsOf(rep.tally.overflows) == Counts(ps[k..])
      && (FreshSeen(rep.tally.health) <==> SomeFresh(ps[k..]))
  {
    hide Final, Spaced, GateHeld, Anchored, Synced, ShortSinceEvent, SinceSync, LeastSync, Encode, EncodeAll,
         AllOrNothing, ReportOf, Counts, DropsOf, FreshSeen, SomeFresh, OverflowsFirst, HasSync, Stream, Offset,
         PacketTally, Written, Capture;
    var log := Final(r).log;
    var ps, raw := Stream(log), Written(log);
    RunShaped(r);
    WrittenIsStream(log);
    StreamIsAnchored(log);
    NoTail(raw, ps);
    ReportOnCapture(raw, ps, []);
    TallyFacts(ps[Preface(ps)..], Offset(ps, Preface(ps)), 0);
  }

  lemma NoTail(raw: seq<byte>, ps: seq<Packet>)
    requires raw == EncodeAll(ps)
    ensures Capture(raw, ps, []) && forall p: nat :: p > |raw| ==> !SyncAt(raw, p)
  {
    hide EncodeAll;
  }

  /** Verdict soundness. Take any run over an all-or-nothing sink that got a sync
      packet out. The analyser resynchronises nowhere and leaves no byte, and
      something was lost if and only if the firmware is still dropping, or the
      analyser skipped bytes before the first sync or saw an overflow event. */
  lemma VerdictSound(r: Run)
    requires var s := Final(r); AllOrNothing(s.log) && Synced(s.log)
    ensures var s, rep := Final(r), ReportOf(Written(Final(r).log));
      && rep.Analyzed? && rep.tally.resyncs == [] && rep.unparsed == 0
      && (Lost(s.log) > 0 <==> s.dropping || rep.skipped > 0 || rep.tally.overflows != [])
      && s.dropped == Lost(s.log) % TWO_32
  {
    hide Final, Synced, Encode, AllOrNothing, ReportOf, Counts, DropsOf, OverflowsFirst, HasSync, Stream, Lost,
         SomeOverflow,
         Reported, Repeated, OpenOverflow, EventsLost, EventsWritten, Unsent, FailedSyncs, Offset, FreshSeen, SomeFresh, Written;
    var ps := Stream(Final(r).log);
    var k, rep := Preface(ps), ReportOf(Written(Final(r).log));
    ReportOnRun(r);
    RunSeen(r);
    RunBalanced(r);
    PrefaceIsOverflows(ps);
    SomeOverflowMeans(ps[k..]);
    DropsNone(rep.tally.overflows);
    OverflowBehindOrBefore(ps, k);
    SkippedIffPreface(ps, k);
  }

  lemma DropsNone(seen: seq<OverflowSeen>)
    ensures DropsOf(seen) == [] <==> seen == []
  {
  }

  lemma OverflowBehindOrBefore(ps: seq<Packet>, k: nat)
    requires k <= |ps| && forall i :: 0 <= i < k ==> ps[i].Overflow?
    ensures SomeOverflow(ps) <==> k > 0 || SomeOverflow(ps[k..])
  {
    hide SomeOverflow, Counts;
    SomeOverflowMeans(ps);
    SomeOverflowMeans(ps[k..]);
    if k > 0 { assert ps[0].Overflow?; }
    if i :| 0 <= i < |ps[k..]| && ps[k..][i].Overflow? {
      assert ps[k + i].Overflow?;
    }
    if k == 0 { assert ps[k..] == ps; }
  }

  lemma SkippedIffPreface(ps: seq<Packet>, k: nat)
    requires k <= |ps|
    ensures Offset(ps, k) > 0 <==> k > 0
  {
    if k > 0 {
      LengthByte(ps[k - 1]);
      hide Encode;
      assert ps[..k][..k - 1] == ps[..k - 1];
    }
  }

  /** The tool's verdict itself, "drops" or "no drops". It is wrong if and only if no
      overflow packet was delivered behind the first sync, and there was a loss (told
      of before that sync, or not yet) exactly when no health report behind it tells
      of new drops. */
  lemma VerdictWrongIff(r: Run)
    requires var s := Final(r); AllOrNothing(s.log) && Synced(s.log)
    ensures var s, rep := Final(r), ReportOf(Written(Final(r).log));
      var ps := Stream(s.log);
      var k := Preface(ps);
      && rep.Analyzed?
      && (HasDrops(rep.tally) != (Lost(s.log) > 0)
          <==> && (forall i :: k <= i < |ps| ==> !ps[i].Overflow?)
               && (k > 0 || s.dropping <==> forall i :: k <= i < |ps| ==> !Fresh(ps[i])))
  {
    hide Final, Synced, Encode, AllOrNothing, ReportOf, Counts, DropsOf, OverflowsFirst, HasSync, Stream, Lost,
         SomeOverflow,
         Offset, FreshSeen, SomeFresh, Fresh, Written;
    var ps := Stream(Final(r).log);
    var k := Preface(ps);
    ReportOnRun(r);
    VerdictSound(r);
    SkippedIffPreface(ps, k);
    DropsNone(ReportOf(Written(Final(r).log)).tally.overflows);
    NoneBehind(ps, k);
  }

  lemma NoneBehind(ps: seq<Packet>, k: nat)
    requires k <= |ps|
    ensures Counts(ps[k..]) == [] <==> forall i :: k <= i < |ps| ==> !ps[i].Overflow?
    ensures !SomeFresh(ps[k..]) <==> forall i :: k <= i < |ps| ==> !Fresh(ps[i])
  {
    hide Counts, SomeOverflow, SomeFresh, Fresh;
    var tail := ps[k..];
    SomeOverflowMeans(tail);
    SomeFreshMeans(tail);
    assert forall i :: 0 <= i < |tail| ==> tail[i] == ps[k + i];
    assert forall i :: k <= i < |ps| ==> ps[i] == tail[i - k];
  }

  /** Such runs exist: the first preamble and the first call's sync find no room,
      then there is room for everything. The event of the first call is lost, its
      overflow packet is the first packet of the stream, and the tool, which skips
      it on the way to the first sync, says "no drops". */
  lemma EarlyDropsAreMissed(c: Config, ts: uint32, eid: OrdinaryId, payload: Payload, noRoom: Env, room: Env)
    requires noRoom.syncRoom == 0 && room.overflowRoom >= 255 && room.syncRoom >= 255 && room.eventRoom >= 255
    requires eid != HEALTH_ID
    ensures var r := EarlyLoss(c, ts, eid, payload, noRoom, room);
      var s, rep := Final(r), ReportOf(Written(Final(r).log));
      && AllOrNothing(s.log) && Synced(s.log) && !s.dropping
      && Lost(s.log) > 0 && rep.Analyzed? && !HasDrops(rep.tally)
  {
    hide Encode, Final, Lost, HasDrops, ReportOf, Complete, Stream, AllOrNothing, Synced, Written, Whole;
    var r := EarlyLoss(c, ts, eid, payload, noRoom, room);
    EarlyLog(c, ts, eid, payload, noRoom, room);
    var p, q := Overflow(WrapSub(room.overflowTs, 0), 0), Sync(room.syncTs, c.freq);
    var e := Event(eid, WrapSub(room.eventTs, room.syncTs), payload);
    WholeIs(p, room.overflowTs, InEvent);
    WholeIs(q, room.syncTs, InEvent);
    WholeIs(e, room.eventTs, InEvent);
    EarlyStream(Attempt(Sync(ts, c.freq), ts, InPreamble, 0), Attempt(Sync(noRoom.syncTs, c.freq), noRoom.syncTs, InEvent, 0),
                Whole(p, room.overflowTs, InEvent), Whole(q, room.syncTs, InEvent), Whole(e, room.eventTs, InEvent));
    VerdictWrongIff(r);
    VerdictSound(r);
    RunSeen(r);
    EarlyPackets([p, q, e]);
  }

  function EarlyLoss(c: Config, ts: uint32, eid: OrdinaryId, payload: Payload, noRoom: Env, room: Env): Run {
    Run(c, ts, 0, [], [] + [Emit(eid, payload, noRoom)] + [Emit(eid, payload, room)])
  }

  lemma EarlyLog(c: Config, ts: uint32, eid: OrdinaryId, payload: Payload, noRoom: Env, room: Env)
    requires noRoom.syncRoom == 0 && room.overflowRoom >= 255 && room.syncRoom >= 255 && room.eventRoom >= 255
    ensures 0 < |Encode(Sync(ts, c.freq))| && 0 < |Encode(Sync(noRoom.syncTs, c.freq))|
    ensures var s := Final(EarlyLoss(c, ts, eid, payload, noRoom, room));
      && !s.dropping
      && s.log == []
         + [Attempt(Sync(ts, c.freq), ts, InPreamble, 0)]
         + [Attempt(Sync(noRoom.syncTs, c.freq), noRoom.syncTs, InEvent, 0)]
         + [Whole(Overflow(WrapSub(room.overflowTs, 0), 0), room.overflowTs, InEvent)]
         + [Whole(Sync(room.syncTs, c.freq), room.syncTs, InEvent)]
         + [Whole(Event(eid, WrapSub(room.eventTs, room.syncTs), payload), room.eventTs, InEvent)]
  {
    hide Encode, EmitEvent, EmitSync, Whole, Pow2;
    var boot := Run(c, ts, 0, [], []);
    var first, second := Emit(eid, payload, noRoom), Emit(eid, payload, room);
    var r1 := boot.(actions := [] + [first]);
    SyncCutShort(RESET, c, ts, InPreamble, 0);
    assert Final(boot) == RESET.(log := [] + [Attempt(Sync(ts, c.freq), ts, InPreamble, 0)]);
    hide Final;
    FinalSnoc(boot, first);
    FinalSnoc(r1, second);
    ZeroDue(c);
    CallFailsSync(Final(boot), c, eid, payload, noRoom);
    CallRecovers(Final(r1), c, eid, payload, room);
  }

  lemma ZeroDue(c: Config)
    ensures 0 % Period(c) == 0
  {
    hide Pow2;
  }

  lemma EarlyStream(a0: Attempt, a1: Attempt, b0: Attempt, b1: Attempt, b2: Attempt)
    requires a0.accepted == 0 && a1.accepted == 0 && b1.packet.Sync?
    requires Complete(b0) && Complete(b1) && Complete(b2)
    ensures var log := [] + [a0] + [a1] + [b0] + [b1] + [b2];
      AllOrNothing(log) && Synced(log) && Stream(log) == [b0.packet, b1.packet, b2.packet]
  {
    hide Encode, Complete, Stream, Synced, Delivered, AllOrNothing;
    NoneIsIncomplete(a0);
    NoneIsIncomplete(a1);
    NothingDelivered();
    DeliveredSnoc([], a0);
    DeliveredSnoc([] + [a0], a1);
    DeliveredSnoc([] + [a0] + [a1], b0);
    DeliveredSnoc([] + [a0] + [a1] + [b0], b1);
    DeliveredSnoc([] + [a0] + [a1] + [b0] + [b1], b2);
    FiveWhole(a0, a1, b0, b1, b2);
  }

  lemma FiveWhole(a0: Attempt, a1: Attempt, b0: Attempt, b1: Attempt, b2: Attempt)
    requires a0.accepted == 0 && a1.accepted == 0 && b1.packet.Sync?
    requires Complete(b0) && Complete(b1) && Complete(b2)
    ensures var log := [] + [a0] + [a1] + [b0] + [b1] + [b2];
      AllOrNothing(log) && Synced(log)
  {
    hide Encode, Complete, Synced;
    var log := [] + [a0] + [a1] + [b0] + [b1] + [b2];
    assert log == [a0, a1, b0, b1, b2];
    assert log[3] == b1;
    SyncedMeans(log);
  }

  lemma EarlyPackets(ps: seq<Packet>)
    requires |ps| == 3 && ps[0].Overflow? && ps[1].Sync? && ps[2].Event? && ps[2].eid != HEALTH_ID
    ensures Preface(ps) == 1 && SomeOverflow(ps)
    ensures forall i :: 1 <= i < |ps| ==> !ps[i].Overflow? && !Fresh(ps[i])
  {
    SomeOverflowMeans(ps);
  }
}
