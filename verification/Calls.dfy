/** End to end: the events the host reads are the emit calls that got through. */
module Calls {
  import opened Bytes
  import opened Packets
  import opened SyncSearch
  import opened Metadata
  import opened Emitter
  import opened StreamShape
  import opened Delivery
  import opened Accounting
  import Check = CheckDecoder
  import Timestamps

  /** The write is the event of the call: id, fields and clock reading. */
  predicate Carries(a: Attempt, call: Action) {
    && call.Emit? && a.packet.Event?
    && a.packet.eid == call.eid && a.packet.payload == call.payload && a.ts == call.env.eventTs
  }

  /** The events among the delivered writes. */
  function EventsOf(ds: Log): Log {
    if ds == [] then []
    else
      var last := ds[|ds| - 1];
      EventsOf(ds[..|ds| - 1]) + if last.packet.Event? then [last] else []
  }

  lemma EventsOfSnoc(ds: Log, a: Attempt)
    ensures EventsOf([]) == [] && EventsOf(ds + [a]) == EventsOf(ds) + if a.packet.Event? then [a] else []
  {
    hide Encode;
    TakeInit(ds, a);
  }

  /** One more write: the delivered events, and the counts of events. */
  lemma WriteSnoc(log: Log, a: Attempt)
    ensures EventsOf(Delivered(log + [a])) == EventsOf(Delivered(log)) + if Complete(a) && a.packet.Event? then [a] else []
    ensures EventsWritten(log + [a]) == EventsWritten(log) + if a.packet.Event? && Complete(a) then 1 else 0
    ensures EventsLost(log + [a]) == EventsLost(log)
         + if FailedSync(a) || (!Complete(a) && (a.packet.Event? || a.packet.Overflow?)) then 1 else 0
  {
    hide Encode, Complete, Delivered, Stream, EventsOf, Reported, FailedSyncs, FailedSync, EventsWritten, Unsent,
         EventsLost,
         OpenOverflow;
    DeliveredSnoc(log, a);
    Accounting.Snoc(log, a);
    if Complete(a) {
      EventsOfSnoc(Delivered(log), a);
    }
  }

  // ----- One call -----

  /** The call's event is the one more event delivered. */
  predicate WentThrough(before: Log, after: Log, call: Action) {
    var es := EventsOf(Delivered(after));
    && |es| > 0 && es[..|es| - 1] == EventsOf(Delivered(before)) && Carries(es[|es| - 1], call)
    && EventsWritten(after) == EventsWritten(before) + 1 && EventsLost(after) == EventsLost(before)
  }

  predicate WasLost(before: Log, after: Log) {
    && EventsOf(Delivered(after)) == EventsOf(Delivered(before))
    && EventsWritten(after) == EventsWritten(before) && EventsLost(after) == EventsLost(before) + 1
  }

  predicate NoEvent(before: Log, after: Log) {
    && EventsOf(Delivered(after)) == EventsOf(Delivered(before))
    && EventsWritten(after) == EventsWritten(before) && EventsLost(after) == EventsLost(before)
  }

  lemma AdmitOutcome(s: State, c: Config, env: Env)
    ensures var o := Admit(s, c, env);
      if o.ok then NoEvent(s.log, o.state.log) else WasLost(s.log, o.state.log)
  {
    hide Encode, Delivered, EventsOf, EventsWritten, EventsLost, Pow2;
    var p := Overflow(WrapSub(env.overflowTs, s.lastTs), s.overflowDrops);
    var a := Attempt(p, env.overflowTs, InEvent, Min(env.overflowRoom, |Encode(p)|));
    var q := Packet.Sync(env.syncTs, c.freq);
    var b := Attempt(q, env.syncTs, InEvent, Min(env.syncRoom, |Encode(q)|));
    WriteSnoc(s.log, a);
    WriteSnoc(s.log, b);
    WriteSnoc(s.log + [a], b);
  }

  lemma CallOutcome(s: State, c: Config, eid: OrdinaryId, payload: Payload, env: Env)
    ensures var s1 := EmitEvent(s, c, eid, payload, env);
      WentThrough(s.log, s1.log, Emit(eid, payload, env)) || WasLost(s.log, s1.log)
  {
    hide Encode, Delivered, EventsOf, EventsWritten, EventsLost, Admit;
    AdmitOutcome(s, c, env);
    var t := Admit(s, c, env).state;
    var p := Event(eid, WrapSub(env.eventTs, t.lastTs), payload);
    var a := Attempt(p, env.eventTs, InEvent, Min(env.eventRoom, |Encode(p)|));
    WriteSnoc(t.log, a);
    TakeInit(EventsOf(Delivered(t.log)), a);
  }

  lemma {:induction false} ChunksHoldNoEvent(s: State, d: Descriptor, i: nat, rooms: seq<nat>)
    ensures NoEvent(s.log, EmitChunks(s, d, i, rooms).log)
    decreases ChunkCount(d) - i
  {
    hide Encode, Delivered, EventsOf, EventsWritten, EventsLost, EmitChunks, ChunkCount, WrapAdd;
    if i >= ChunkCount(d) {
      ChunksOver(s, d, i, rooms);
    } else {
      ChunksTurn(s, d, i, rooms);
      var p := ChunkPacket(d, i);
      WriteSnoc(s.log, Attempt(p, 0, InPreamble, Min(RoomAt(rooms, i), |Encode(p)|)));
      if Fits(p, RoomAt(rooms, i)) {
        ChunksHoldNoEvent(Write(s, p, 0, InPreamble, RoomAt(rooms, i)), d, i + 1, rooms);
      }
    }
  }

  lemma PreambleHoldsNoEvent(s: State, c: Config, ts: uint32, room: nat, rooms: seq<nat>)
    ensures NoEvent(s.log, EmitPreamble(s, c, ts, room, rooms).state.log)
  {
    hide Encode, Delivered, EventsOf, EventsWritten, EventsLost, EmitChunks;
    var q := Packet.Sync(ts, c.freq);
    WriteSnoc(s.log, Attempt(q, ts, InPreamble, Min(room, |Encode(q)|)));
    var o := EmitSync(s, c, ts, InPreamble, room);
    if o.ok {
      ChunksHoldNoEvent(o.state, c.descriptor, 0, rooms);
    }
  }

  // ----- All calls of a run -----

  /** Which calls got their event through: positions in the list of actions. */
  function Through(r: Run, n: nat): seq<nat>
    requires n <= |r.actions|
  {
    if n == 0 then []
    else
      Through(r, n - 1)
      + if EventsWritten(Final(UpTo(r, n)).log) > EventsWritten(Final(UpTo(r, n - 1)).log) then [n - 1] else []
  }

  predicate Increasing(sel: seq<nat>) { forall i, j :: 0 <= i < j < |sel| ==> sel[i] < sel[j] }

  /** What each action of a run adds. An emit call either adds its own event to the
      delivered ones or is counted as one lost event, never both or neither. */
  lemma EachCallOnce(r: Run, n: nat)
    requires n < |r.actions|
    ensures var before, after := Final(UpTo(r, n)).log, Final(UpTo(r, n + 1)).log;
      if r.actions[n].Emit? then WentThrough(before, after, r.actions[n]) || WasLost(before, after)
      else NoEvent(before, after)
  {
    hide Final, EmitEvent, EmitPreamble, WentThrough, WasLost, NoEvent;
    StepOfRun(r, n);
    var s := Final(UpTo(r, n));
    match r.actions[n] {
      case Emit(eid, payload, env) => CallOutcome(s, r.config, eid, payload, env);
      case Preamble(ts, room, rooms) => PreambleHoldsNoEvent(s, r.config, ts, room, rooms);
    }
  }

  /** The j-th event is that of the call at position `sel[j]`. */
  predicate Matched(es: Log, actions: seq<Action>, sel: seq<nat>) {
    |es| == |sel| && Increasing(sel) && forall j :: 0 <= j < |sel| ==> sel[j] < |actions| && Carries(es[j], actions[sel[j]])
  }

  lemma MatchedSnoc(es: Log, actions: seq<Action>, sel: seq<nat>, a: Attempt, n: nat)
    requires Matched(es, actions, sel) && n < |actions| && Carries(a, actions[n])
    requires forall j :: 0 <= j < |sel| ==> sel[j] < n
    ensures Matched(es + [a], actions, sel + [n])
    ensures forall j :: 0 <= j < |sel + [n]| ==> (sel + [n])[j] < n + 1
  {
    hide Encode, Carries;
  }

  lemma NoneYet(r: Run)
    requires r.actions == []
    ensures EventsOf(Delivered(Final(r).log)) == []
  {
    hide Encode, EmitPreamble, EventsOf, EventsWritten, EventsLost;
    PreambleHoldsNoEvent(RESET, r.config, r.syncTs, r.syncRoom, r.chunkRooms);
    assert EventsOf(Delivered([])) == [] by { NothingDelivered(); EmptyEvents(); }
  }

  lemma EmptyEvents()
    ensures EventsOf(Delivered([])) == []
  {
  }

  lemma {:induction false} ThroughMatches(r: Run, n: nat)
    requires n <= |r.actions|
    ensures Matched(EventsOf(Delivered(Final(UpTo(r, n)).log)), r.actions, Through(r, n))
    ensures forall j :: 0 <= j < |Through(r, n)| ==> Through(r, n)[j] < n
  {
    hide Final, Encode, EventsOf, Delivered, EventsWritten, EventsLost, Carries, Matched;
    if n == 0 {
      NoneYet(UpTo(r, 0));
      assert Matched([], r.actions, []) by { NoMatch(r.actions); }
    } else {
      ThroughMatches(r, n - 1);
      EachCallOnce(r, n - 1);
      var before, after := Final(UpTo(r, n - 1)).log, Final(UpTo(r, n)).log;
      if EventsWritten(after) > EventsWritten(before) {
        var es := EventsOf(Delivered(after));
        InitAndLast(es);
        MatchedSnoc(EventsOf(Delivered(before)), r.actions, Through(r, n - 1), es[|es| - 1], n - 1);
      } else {
        assert Through(r, n - 1) + [] == Through(r, n - 1);
      }
    }
  }

  lemma NoMatch(actions: seq<Action>)
    ensures Matched([], actions, [])
  {
  }

  /** The delivered events of a run are, in order, the events of a strictly
      increasing selection of its calls: id, fields and clock reading. */
  lemma EventsAreCalls(r: Run)
    ensures Matched(EventsOf(Delivered(Final(r).log)), r.actions, Through(r, |r.actions|))
  {
    hide Final, EventsOf, Delivered, Matched, Through;
    ThroughMatches(r, |r.actions|);
    assert r.actions[..|r.actions|] == r.actions;
  }

  // ----- What the host reads -----

  datatype Seen = Seen(eid: OrdinaryId, payload: Payload, time: nat)

  /** The ordinary events among the first `n` packets read from `start` on, with the
      validator's timestamp behind each. */
  function EventsSeen(raw: seq<byte>, start: nat, n: nat): seq<Seen>
    requires n <= |ReadAll(raw, start)| && n <= |Frames(raw, start)|
  {
    if n == 0 then []
    else
      var p := ReadAll(raw, start)[n - 1];
      EventsSeen(raw, start, n - 1)
      + if p.Event? then [Seen(p.eid, p.payload, Check.Clock(raw, Frames(raw, start)[..n], 0))] else []
  }

  /** The host's event for a delivered one. */
  predicate SeenAs(e: Seen, a: Attempt) {
    a.packet.Event? && e.eid == a.packet.eid && e.payload == a.packet.payload && e.time % TWO_32 == a.ts
  }

  predicate AllSeenAs(seen: seq<Seen>, es: Log) {
    |seen| == |es| && forall j :: 0 <= j < |es| ==> SeenAs(seen[j], es[j])
  }

  lemma SeenTurn(raw: seq<byte>, start: nat, n: nat)
    requires 0 < n <= |ReadAll(raw, start)| && n <= |Frames(raw, start)|
    ensures var p := ReadAll(raw, start)[n - 1];
      EventsSeen(raw, start, n) == EventsSeen(raw, start, n - 1)
      + if p.Event? then [Seen(p.eid, p.payload, Check.Clock(raw, Frames(raw, start)[..n], 0))] else []
  {
    hide ReadAll, Frames, Check.Clock;
  }

  lemma AllSeenAsSnoc(seen: seq<Seen>, es: Log, e: Seen, a: Attempt)
    requires AllSeenAs(seen, es) && SeenAs(e, a)
    ensures AllSeenAs(seen + [e], es + [a])
  {
    hide Encode, SeenAs;
  }

  lemma {:induction false} NoEventsIn(ds: Log)
    requires forall i :: 0 <= i < |ds| ==> ds[i].packet.Overflow?
    ensures EventsOf(ds) == []
  {
    hide Encode;
    if ds != [] {
      NoEventsIn(ds[..|ds| - 1]);
    }
  }

  /** All an induction over the host's packets needs of the stream. */
  predicate Readable(raw: seq<byte>, start: nat, ds: Log, k: nat) {
    && k <= |ds| && |Frames(raw, start)| == |ds| - k && ReadAll(raw, start) == PacketsOf(ds)[k..]
    && forall i :: k <= i < |ds| && ds[i].packet.Event? ==>
         Check.Clock(raw, Frames(raw, start)[..i - k + 1], 0) % TWO_32 == ds[i].ts
  }

  lemma {:induction false} SeenMatches(raw: seq<byte>, start: nat, ds: Log, k: nat, n: nat)
    requires Readable(raw, start, ds, k) && n <= |ds| - k
    requires forall i :: 0 <= i < k ==> ds[i].packet.Overflow?
    ensures AllSeenAs(EventsSeen(raw, start, n), EventsOf(ds[..k + n]))
    decreases n
  {
    hide Encode, ReadAll, Frames, Check.Clock, EventsOf, EventsSeen, AllSeenAs;
    if n == 0 {
      NoEventsIn(ds[..k]);
      NoneSeen(raw, start);
    } else {
      SeenMatches(raw, start, ds, k, n - 1);
      var i := k + n - 1;
      assert ds[..i + 1] == ds[..i] + [ds[i]];
      assert ReadAll(raw, start)[n - 1] == PacketsOf(ds)[i];
      EventsOfSnoc(ds[..i], ds[i]);
      SeenTurn(raw, start, n);
      if ds[i].packet.Event? {
        var e := ds[i].packet;
        AllSeenAsSnoc(EventsSeen(raw, start, n - 1), EventsOf(ds[..i]),
                      Seen(e.eid, e.payload, Check.Clock(raw, Frames(raw, start)[..n], 0)), ds[i]);
      } else {
        assert EventsSeen(raw, start, n - 1) + [] == EventsSeen(raw, start, n - 1) && EventsOf(ds[..i]) + [] == EventsOf(ds[..i]);
      }
    }
  }

  lemma NoneSeen(raw: seq<byte>, start: nat)
    ensures EventsSeen(raw, start, 0) == [] && AllSeenAs([], [])
  {
  }

  lemma StreamIsReadable(r: Run)
    requires var log := Final(r).log; AllOrNothing(log) && Synced(log)
    ensures FindSync(Written(Final(r).log), 0) >= 0
    ensures var raw, ds := Written(Final(r).log), Delivered(Final(r).log);
      var k := Preface(PacketsOf(ds));
      && Readable(raw, FindSync(raw, 0), ds, k) && forall i :: 0 <= i < k ==> ds[i].packet.Overflow?
  {
    hide Final, Synced, AllOrNothing, Written, Delivered, Encode, EncodeAll, Frames, FramesEnd, Check.Clock,
         FindSync, ReadAll, Preface;
    var raw, ds := Written(Final(r).log), Delivered(Final(r).log);
    HostFindsFirstSync(r);
    Timestamps.TimestampRefinement(r, |ds| - 1);
    var k := Preface(PacketsOf(ds));
    forall i | 0 <= i < |ds|
      ensures i < k ==> ds[i].packet.Overflow?
      ensures i >= k && ds[i].packet.Event?
        ==> Check.Clock(raw, Frames(raw, FindSync(raw, 0))[..i - k + 1], 0) % TWO_32 == ds[i].ts
    {
      Timestamps.TimestampRefinement(r, i);
    }
  }

  /** The host's event is that of the call, its time the call's reading modulo the
      firmware's 32 bits. */
  predicate Reports(e: Seen, call: Action) {
    call.Emit? && e.eid == call.eid && e.payload == call.payload && e.time % TWO_32 == call.env.eventTs
  }

  /** What the host makes of a run. Over an all-or-nothing sink that got a sync
      packet out, the events the host reads are, in order and in number, the calls
      that got through: each with the call's id, fields and clock reading. */
  lemma HostSeesCalls(r: Run)
    requires var log := Final(r).log; AllOrNothing(log) && Synced(log)
    ensures FindSync(Written(Final(r).log), 0) >= 0
    ensures var raw, sel := Written(Final(r).log), Through(r, |r.actions|);
      var start := FindSync(raw, 0);
      var n := |Frames(raw, start)|;
      && |ReadAll(raw, start)| == n
      && var seen := EventsSeen(raw, start, n);
      && |seen| == |sel| && Increasing(sel)
      && forall j :: 0 <= j < |sel| ==> sel[j] < |r.actions| && Reports(seen[j], r.actions[sel[j]])
  {
    hide Final, Synced, AllOrNothing, Written, Delivered, Encode, Frames, Check.Clock, FindSync, ReadAll, Preface,
         EventsOf, EventsSeen,
         Through, Increasing;
    var raw, ds := Written(Final(r).log), Delivered(Final(r).log);
    var k := Preface(PacketsOf(ds));
    StreamIsReadable(r);
    SeenMatches(raw, FindSync(raw, 0), ds, k, |ds| - k);
    assert ds[..|ds|] == ds;
    EventsAreCalls(r);
  }
}
