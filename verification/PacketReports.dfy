/** What the drop analyser reports on well-formed packets, with or without a cut-off
    tail behind them. */
module PacketReports {
  import opened Bytes
  import opened Packets
  import opened SyncSearch
  import opened Delivery
  import opened DropAnalysis
  import opened Resynchronisation
  import Check = CheckDecoder
  import Varint

  // ----- The report on concatenated packets -----

  /** The counts in the overflow packets of a list, in order. */
  function Counts(ps: seq<Packet>): seq<uint32> {
    if ps == [] then []
    else
      var last := ps[|ps| - 1];
      Counts(ps[..|ps| - 1]) + if last.Overflow? then [last.drops] else []
  }

  function DropsOf(seen: seq<OverflowSeen>): seq<uint32> {
    if seen == [] then [] else DropsOf(seen[..|seen| - 1]) + [seen[|seen| - 1].drops]
  }

  function Total(counts: seq<uint32>): nat {
    if counts == [] then 0 else Total(counts[..|counts| - 1]) + counts[|counts| - 1]
  }

  /** A health report, and one that says events were dropped since the last. */
  predicate Health(p: Packet) { p.Event? && p.eid == 0x300 && |p.payload| >= 8 }

  predicate Fresh(p: Packet) { Health(p) && U32At(p.payload, 4) > 0 }

  predicate SomeFresh(ps: seq<Packet>) {
    ps != [] && (Fresh(ps[|ps| - 1]) || SomeFresh(ps[..|ps| - 1]))
  }

  lemma U32AtSlice(raw: seq<byte>, a: nat, b: nat, i: nat)
    requires a <= b <= |raw| && i + 4 <= b - a
    ensures U32At(raw[a..b], i) == U32At(raw, a + i)
  {
  }

  lemma HealthOfPacket(raw: seq<byte>, o: nat, p: Packet, index: nat, ts: nat)
    requires At(raw, o, Encode(p)) && !p.Sync?
    ensures HealthIn(raw, Frame(o, |Encode(p)|, Eid(p)), index, ts)
         == if Health(p) then [HealthSeen(index, o, ts, U32At(p.payload, 0), U32At(p.payload, 4))] else []
  {
    hide At, Encode, U32At, Varint.Decode;
    if p.Event? {
      PayloadAt(raw, o, p);
      var at := o + 3 + Varint.Decode(raw, o + 3).consumed;
      if |p.payload| >= 8 {
        U32AtSlice(raw, at, o + |Encode(p)|, 0);
        U32AtSlice(raw, at, o + |Encode(p)|, 4);
      }
    }
  }

  /** What the tool notes for a packet at `pos`, in terms of the packet. */
  function Noted(n: Tally, p: Packet, pos: nat, ts: nat): Tally {
    Tally(n.events + 1,
          n.syncs + (if p.Sync? then 1 else 0),
          n.unknown + (if KnownEvent(Eid(p)) then 0 else 1),
          n.overflows + (if p.Overflow? then [OverflowSeen(n.events, pos, ts, p.drops)] else []),
          n.health + (if Health(p) then [HealthSeen(n.events, pos, ts, U32At(p.payload, 0), U32At(p.payload, 4))] else []),
          n.resyncs)
  }

  lemma AddPacket(raw: seq<byte>, o: nat, p: Packet, n: Tally, ts: nat)
    requires At(raw, o, Encode(p))
    ensures Add(raw, n, Accepted(Frame(o, |Encode(p)|, Eid(p)), ts)) == Noted(n, p, o, ts)
  {
    hide At, Encode, SyncAt, Body, U32At, Check.DeltaAt, HealthIn, Varint.Decode;
    PacketFrame(raw, o, p);
    if !p.Sync? {
      HealthOfPacket(raw, o, p, n.events, ts);
    }
    if p.Overflow? {
      DropsAt(raw, o, p);
    }
    assert n.overflows + [] == n.overflows && n.health + [] == n.health;
  }

  lemma FreshSnoc(health: seq<HealthSeen>, h: HealthSeen)
    ensures FreshSeen(health + [h]) <==> FreshSeen(health) || h.newDrops > 0
  {
    var all := health + [h];
    assert all[|health|] == h;
    if FreshSeen(health) {
      var i :| 0 <= i < |health| && health[i].newDrops > 0;
      assert all[i].newDrops > 0;
    }
  }

  /** The findings on a list of packets laid out from `o` on. */
  function PacketTally(ps: seq<Packet>, o: nat, t: nat): Tally {
    if ps == [] then EMPTY_TALLY
    else
      var init := ps[..|ps| - 1];
      Noted(PacketTally(init, o, t), ps[|ps| - 1], o + |EncodeAll(init)|, PacketTime(ps, t))
  }

  lemma {:induction false} TallyOfPackets(raw: seq<byte>, o: nat, ps: seq<Packet>, t: nat)
    requires At(raw, o, EncodeAll(ps))
    ensures TallyOf(raw, ItemsOf(ps, o, t)) == PacketTally(ps, o, t)
  {
    hide At, Encode, EncodeAll, Add, PacketTime, TallyOf, ItemsOf, Noted;
    if ps == [] {
      NothingTallied(raw, o, t);
    } else {
      var init, last := ps[..|ps| - 1], ps[|ps| - 1];
      var at, ts := o + |EncodeAll(init)|, PacketTime(ps, t);
      LastItem(ps, o, t);
      AtLast(raw, o, ps);
      TallyOfPackets(raw, o, init, t);
      TallySnoc(raw, ItemsOf(init, o, t), Accepted(Frame(at, |Encode(last)|, Eid(last)), ts));
      AddPacket(raw, at, last, TallyOf(raw, ItemsOf(init, o, t)), ts);
    }
  }

  lemma NothingTallied(raw: seq<byte>, o: nat, t: nat)
    ensures TallyOf(raw, ItemsOf([], o, t)) == EMPTY_TALLY
  {
  }

  /** Packets the tool has no name for: metadata, and ids outside its table. */
  function Unnamed(ps: seq<Packet>): nat {
    if ps == [] then 0 else Unnamed(ps[..|ps| - 1]) + if KnownEvent(Eid(ps[|ps| - 1])) then 0 else 1
  }

  /** The findings in numbers: every packet is an event, sync packets are the syncs,
      overflow packets the overflows, in order and with their counts. */
  lemma {:induction false} TallyFacts(ps: seq<Packet>, o: nat, t: nat)
    ensures var n := PacketTally(ps, o, t);
      && n.events == |ps| && n.syncs == Check.Syncs(ps) && n.unknown == Unnamed(ps) && n.resyncs == []
      && DropsOf(n.overflows) == Counts(ps) && (FreshSeen(n.health) <==> SomeFresh(ps))
  {
    hide Encode, EncodeAll, PacketTime, DropsOf, FreshSeen, U32At;
    if ps == [] {
      NothingSeen();
    } else {
      var init, last := ps[..|ps| - 1], ps[|ps| - 1];
      TallyFacts(init, o, t);
      var n, at, ts := PacketTally(init, o, t), o + |EncodeAll(init)|, PacketTime(ps, t);
      if last.Overflow? {
        DropsSnoc(n.overflows, OverflowSeen(n.events, at, ts, last.drops));
      } else {
        assert n.overflows + [] == n.overflows;
      }
      if Health(last) {
        FreshSnoc(n.health, HealthSeen(n.events, at, ts, U32At(last.payload, 0), U32At(last.payload, 4)));
      } else {
        assert n.health + [] == n.health;
      }
    }
  }

  lemma NothingSeen()
    ensures DropsOf([]) == [] && !FreshSeen([])
  {
  }

  lemma TallyTurn(ps: seq<Packet>, o: nat, t: nat)
    requires ps != []
    ensures var init := ps[..|ps| - 1];
      PacketTally(ps, o, t)
      == Noted(PacketTally(init, o, t), ps[|ps| - 1], o + |EncodeAll(init)|, PacketTime(ps, t))
  {
    hide Noted, EncodeAll, Encode, PacketTime;
  }

  /** One more packet keeps the entries so far and adds its own. */
  lemma NotedEntries(n: Tally, p: Packet, pos: nat, ts: nat)
    ensures var after := Noted(n, p, pos, ts);
      && (forall e :: e in n.overflows ==> e in after.overflows) && (forall e :: e in n.health ==> e in after.health)
      && (p.Overflow? ==> OverflowSeen(n.events, pos, ts, p.drops) in after.overflows)
      && (Health(p) ==> HealthSeen(n.events, pos, ts, U32At(p.payload, 0), U32At(p.payload, 4)) in after.health)
  {
    hide U32At, KnownEvent;
  }

  /** An overflow packet is reported with its index, position, time and count, and a
      health report with both its numbers. */
  lemma {:induction false} EntryOfPacket(ps: seq<Packet>, o: nat, t: nat, i: nat)
    requires i < |ps|
    ensures var n, at, ts := PacketTally(ps, o, t), o + |EncodeAll(ps[..i])|, PacketTime(ps[..i + 1], t);
      && (ps[i].Overflow? ==> OverflowSeen(i, at, ts, ps[i].drops) in n.overflows)
      && (Health(ps[i]) ==> HealthSeen(i, at, ts, U32At(ps[i].payload, 0), U32At(ps[i].payload, 4)) in n.health)
  {
    hide Encode, EncodeAll, PacketTime, U32At, KnownEvent, PacketTally, Noted, Health;
    var init, last := ps[..|ps| - 1], ps[|ps| - 1];
    TallyTurn(ps, o, t);
    TallyFacts(init, o, t);
    NotedEntries(PacketTally(init, o, t), last, o + |EncodeAll(init)|, PacketTime(ps, t));
    if i < |init| {
      TakeTake(ps, |init|, i);
      TakeTake(ps, |init|, i + 1);
      EntryOfPacket(init, o, t, i);
    } else {
      assert ps[..i + 1] == ps;
    }
  }

  lemma LastItem(ps: seq<Packet>, o: nat, t: nat)
    requires ps != []
    ensures var init, last := ps[..|ps| - 1], ps[|ps| - 1];
      ItemsOf(ps, o, t) == ItemsOf(init, o, t)
        + [Accepted(Frame(o + |EncodeAll(init)|, |Encode(last)|, Eid(last)), PacketTime(ps, t))]
  {
    hide Encode, EncodeAll, PacketTime;
  }

  lemma AtLast(raw: seq<byte>, o: nat, ps: seq<Packet>)
    requires At(raw, o, EncodeAll(ps)) && ps != []
    ensures var init, last := ps[..|ps| - 1], ps[|ps| - 1];
      At(raw, o, EncodeAll(init)) && At(raw, o + |EncodeAll(init)|, Encode(last))
  {
    hide At, Encode;
    AtSplit(raw, o, EncodeAll(ps[..|ps| - 1]), Encode(ps[|ps| - 1]));
  }

  lemma DropsSnoc(seen: seq<OverflowSeen>, o: OverflowSeen)
    ensures DropsOf(seen + [o]) == DropsOf(seen) + [o.drops]
  {
    assert (seen + [o])[..|seen|] == seen;
  }

  // ----- Whole captures -----

  /** A capture of packets, with bytes behind them that no packet starts: nothing, or
      a length that cannot be right and what follows it. */
  predicate Capture(raw: seq<byte>, ps: seq<Packet>, j: seq<byte>) {
    raw == EncodeAll(ps) + j && !Framed(raw, |EncodeAll(ps)|)
  }

  lemma CaptureStart(raw: seq<byte>, ps: seq<Packet>, j: seq<byte>)
    requires Capture(raw, ps, j)
    ensures At(raw, 0, EncodeAll(ps)) && |raw| == |EncodeAll(ps)| + |j|
  {
    assert raw[0..|EncodeAll(ps)|] == EncodeAll(ps);
  }

  /** Where no sync packet starts behind a bad length, the analyser ends there. */
  lemma EndsAtTail(raw: seq<byte>, o: nat, t: nat)
    requires o <= |raw| && !Framed(raw, o) && forall p: nat :: p > o ==> !SyncAt(raw, p)
    ensures Items(raw, o, t) == [] && End(raw, o) == o
  {
    hide Items, End, FindSync, SyncAt, Framed;
    if o < |raw| {
      ItemsUnframed(raw, o, t);
      FindSyncComplete(raw, o + 1);
    } else {
      ItemsOver(raw, o, t);
    }
  }

  /** The analyser's whole report on a capture with nothing but overflow packets
      before its first sync: what is skipped is up to that sync, everything up to the
      tail is parsed, the tail is what is left over, and the findings are those on
      the packets. */
  lemma ReportOnCapture(raw: seq<byte>, ps: seq<Packet>, j: seq<byte>)
    requires Capture(raw, ps, j) && OverflowsFirst(ps) && HasSync(ps)
    requires forall p: nat :: p > |EncodeAll(ps)| ==> !SyncAt(raw, p)
    ensures Preface(ps) < |ps|
    ensures var k := Preface(ps);
      ReportOf(raw) == Analyzed(|raw|, Offset(ps, k), |EncodeAll(ps)|, |j|, PacketTally(ps[k..], Offset(ps, k), 0), 0)
  {
    hide At, Encode, EncodeAll, FindSync, Items, End, ItemsOf, TallyOf, PacketTime, PacketTally, Framed, SyncAt,
         OverflowsFirst, HasSync;
    var k, o, at := Preface(ps), Offset(ps, Preface(ps)), |EncodeAll(ps)|;
    CaptureStart(raw, ps, j);
    FirstSyncIsRealAt(raw, ps);
    OffsetSplitAt(raw, ps, k);
    ItemsOfPackets(raw, o, ps[k..], 0);
    EndsAtTail(raw, at, PacketTime(ps[k..], 0));
    assert ItemsOf(ps[k..], o, 0) + [] == ItemsOf(ps[k..], o, 0);
    TallyOfPackets(raw, o, ps[k..], 0);
    TallyFacts(ps[k..], o, 0);
    assert ResyncBytes([]) == 0;
  }

  lemma ItemsOnPackets(ps: seq<Packet>, k: nat)
    requires k <= |ps|
    ensures var raw := EncodeAll(ps);
      Items(raw, Offset(ps, k), 0) == ItemsOf(ps[k..], Offset(ps, k), 0) && End(raw, Offset(ps, k)) == |raw|
  {
    hide At, Encode, EncodeAll, Items, End, ItemsOf, PacketTime;
    var raw := EncodeAll(ps);
    OffsetSplit(ps, k);
    ItemsOfPackets(raw, Offset(ps, k), ps[k..], 0);
    ItemsOver(raw, |raw|, PacketTime(ps[k..], 0));
  }
}
