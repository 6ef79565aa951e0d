/** What the drop analyser makes of well-formed packet sequences: after a cut, and
    around damaged bytes. */
module Resynchronisation {
  import opened Bytes
  import opened Packets
  import opened SyncSearch
  import opened DropAnalysis
  import Check = CheckDecoder
  import Varint

  // ----- Concatenated packets -----

  /** The analyser's timestamp after one packet. */
  function PacketTick(p: Packet, t: nat): nat {
    if p.Sync? then p.ts else t + Varint.Decode(Encode(p), 3).value
  }

  function PacketTime(ps: seq<Packet>, t: nat): nat {
    if ps == [] then t else PacketTick(ps[|ps| - 1], PacketTime(ps[..|ps| - 1], t))
  }

  /** One accepted item for each packet, in order, at the packet's position. */
  function ItemsOf(ps: seq<Packet>, o: nat, t: nat): (items: seq<Item>)
    ensures |items| == |ps|
  {
    if ps == [] then []
    else
      var init, last := ps[..|ps| - 1], ps[|ps| - 1];
      ItemsOf(init, o, t)
      + [Accepted(Frame(o + |EncodeAll(init)|, |Encode(last)|, Eid(last)), PacketTime(ps, t))]
  }

  lemma {:induction false} ItemsOfIndex(ps: seq<Packet>, o: nat, t: nat, i: nat)
    requires i < |ps|
    ensures ItemsOf(ps, o, t)[i]
         == Accepted(Frame(o + |EncodeAll(ps[..i])|, |Encode(ps[i])|, Eid(ps[i])), PacketTime(ps[..i + 1], t))
  {
    hide Encode, PacketTick;
    var init := ps[..|ps| - 1];
    if i == |init| {
      assert ps[..i] == init && ps[..i + 1] == ps;
    } else {
      ItemsOfIndex(init, o, t, i);
      assert init[..i] == ps[..i] && init[..i + 1] == ps[..i + 1];
    }
  }

  lemma PacketVarint(raw: seq<byte>, o: nat, p: Packet)
    requires At(raw, o, Encode(p)) && !p.Sync?
    ensures Varint.Decode(raw, o + 3).value == Varint.Decode(Encode(p), 3).value
  {
    hide At, Encode, Varint.DecodeUpTo;
    var e := Encode(p);
    if p.Metadata? {
      LengthByte(p);
      Varint.DecodeIsLocal(raw, o, e, 3, 5);
    } else {
      AtSuffix([], e);
      assert [] + e == e;
      Check.DeltaOfPacket(raw, o, p);
      Check.DeltaOfPacket(e, 0, p);
    }
  }

  lemma TickOfPacket(raw: seq<byte>, o: nat, p: Packet, t: nat)
    requires At(raw, o, Encode(p))
    ensures Framed(raw, o) && FrameAt(raw, o) == Frame(o, |Encode(p)|, Eid(p)) && raw[o] == |Encode(p)|
    ensures Tick(raw, FrameAt(raw, o), t) == PacketTick(p, t)
  {
    hide At, Encode, SyncAt, U32At, Varint.Decode, FrameAt;
    PacketFrame(raw, o, p);
    if !p.Sync? {
      PacketVarint(raw, o, p);
    }
  }

  lemma {:induction false} ItemsOfPackets(raw: seq<byte>, o: nat, ps: seq<Packet>, t: nat)
    requires At(raw, o, EncodeAll(ps))
    ensures Items(raw, o, t) == ItemsOf(ps, o, t) + Items(raw, o + |EncodeAll(ps)|, PacketTime(ps, t))
    ensures End(raw, o) == End(raw, o + |EncodeAll(ps)|)
  {
    hide At, Encode, Eid, Tick, PacketTick, FrameAt, Framed, Items, End;
    if ps != [] {
      var init, last := ps[..|ps| - 1], ps[|ps| - 1];
      var at, before := o + |EncodeAll(init)|, PacketTime(init, t);
      AtSplit(raw, o, EncodeAll(init), Encode(last));
      ItemsOfPackets(raw, o, init, t);
      TickOfPacket(raw, at, last, before);
      ItemsFramed(raw, at, before);
    }
  }

  /** A sync packet makes the clock forget what was before it. */
  lemma {:induction false} TimeFromSync(ps: seq<Packet>, t: nat, u: nat)
    requires ps != [] && ps[0].Sync?
    ensures PacketTime(ps, t) == PacketTime(ps, u)
  {
    hide Encode;
    if |ps| > 1 {
      TimeFromSync(ps[..|ps| - 1], t, u);
    }
  }

  lemma {:induction false} ItemsFromSync(ps: seq<Packet>, o: nat, t: nat, u: nat)
    requires ps != [] && ps[0].Sync?
    ensures ItemsOf(ps, o, t) == ItemsOf(ps, o, u)
  {
    hide Encode;
    TimeFromSync(ps, t, u);
    if |ps| > 1 {
      ItemsFromSync(ps[..|ps| - 1], o, t, u);
    }
  }

  // ----- Damaged bytes between two well-formed stretches -----

  /** A ++ J ++ B, where A and B are packets that start with a sync, and J is not
      empty, starts with a length that cannot be right and holds no start of a sync
      packet. */
  predicate Damaged(raw: seq<byte>, a: seq<Packet>, j: seq<byte>, b: seq<Packet>) {
    && raw == EncodeAll(a) + j + EncodeAll(b)
    && a != [] && a[0].Sync? && b != [] && b[0].Sync? && j != []
    && !Framed(raw, |EncodeAll(a)|)
    && forall p :: |EncodeAll(a)| < p < |EncodeAll(a)| + |j| ==> !SyncAt(raw, p)
  }

  /** There the analyser accepts exactly the packets of A and then those of B, and
      skips J in one resynchronisation. */
  lemma ResyncsOverDamage(raw: seq<byte>, a: seq<Packet>, j: seq<byte>, b: seq<Packet>)
    requires Damaged(raw, a, j, b)
    ensures var at := |EncodeAll(a)|;
      && FindSync(raw, 0) == 0
      && Items(raw, 0, 0) == ItemsOf(a, 0, 0) + [Skipped(at, |j|)] + ItemsOf(b, at + |j|, 0)
      && End(raw, 0) == |raw|
  {
    hide Encode, EncodeAll, ItemsOf, PacketTime, Items, End, SyncAt, Tick, FrameAt, Framed, LeastSync;
    var at := |EncodeAll(a)|;
    var t := PacketTime(a, 0);
    assert At(raw, 0, EncodeAll(a)) by { assert raw[0..at] == EncodeAll(a); }
    assert At(raw, at + |j|, EncodeAll(b)) by { assert raw[at + |j|..] == EncodeAll(b); assert raw[at + |j|..|raw|] == raw[at + |j|..]; }
    hide At;
    ItemsOfPackets(raw, 0, a, 0);
    ItemsOfPackets(raw, at + |j|, b, t);
    FirstPacketSync(raw, 0, a);
    FirstPacketSync(raw, at + |j|, b);
    LeastSyncUnique(raw, 0, |raw| - SYNC_LEN + 1, 0);
    LeastSyncUnique(raw, at + 1, |raw| - SYNC_LEN + 1, at + |j|);
    ItemsFromSync(b, at + |j|, t, 0);
    ItemsUnframed(raw, at, t);
    ItemsOver(raw, |raw|, PacketTime(b, t));
  }

  lemma FirstPacketSync(raw: seq<byte>, o: nat, ps: seq<Packet>)
    requires At(raw, o, EncodeAll(ps)) && ps != [] && ps[0].Sync?
    ensures SyncAt(raw, o) && o + SYNC_LEN <= |raw| && |EncodeAll(ps)| >= SYNC_LEN
  {
    hide Encode, SyncAt;
    PacketAt(ps, 0);
    assert EncodeAll(ps[..0]) == [];
    LengthByte(ps[0]);
    var e := EncodeAll(ps);
    assert At(raw, o, Encode(ps[0])) by {
      assert e[0..|Encode(ps[0])|] == raw[o..o + |Encode(ps[0])|];
    }
    PacketFrame(raw, o, ps[0]);
    SyncLen(raw, o);
  }

  lemma SyncLen(raw: seq<byte>, o: nat)
    requires SyncAt(raw, o)
    ensures o + SYNC_LEN <= |raw|
  {
  }

  predicate ReportsOneGap(rep: Report, events: nat, gap: Resync) {
    && rep.Analyzed? && rep.skipped == 0 && rep.unparsed == 0 && rep.resyncBytes == gap.bytes
    && rep.tally.resyncs == [gap] && rep.tally.events == events
  }

  /** The report for the same damaged stream: one resynchronisation point, at the
      end of A, of |J| bytes, and the events of A and B. */
  lemma ResyncReported(raw: seq<byte>, a: seq<Packet>, j: seq<byte>, b: seq<Packet>)
    requires Damaged(raw, a, j, b)
    ensures ReportsOneGap(ReportOf(raw), |a| + |b|, Resync(|a|, |EncodeAll(a)|, |j|))
  {
    hide Damaged, Encode, EncodeAll, Items, End, FindSync, ItemsOf, ReportsOneGap, ReportOf;
    ResyncsOverDamage(raw, a, j, b);
    var at := |EncodeAll(a)|;
    ItemsAllAccepted(a, 0, 0);
    ItemsAllAccepted(b, at + |j|, 0);
    ReportWithOneGap(raw, ItemsOf(a, 0, 0), Skipped(at, |j|), ItemsOf(b, at + |j|, 0));
  }

  /** So on such a stream the tool's verdict is always that events were dropped. */
  lemma DamageIsReported(raw: seq<byte>, a: seq<Packet>, j: seq<byte>, b: seq<Packet>)
    requires Damaged(raw, a, j, b)
    ensures ReportOf(raw).Analyzed? && HasDrops(ReportOf(raw).tally)
  {
    hide Damaged, ReportOf, EncodeAll, FreshSeen;
    ResyncReported(raw, a, j, b);
  }

  lemma ReportWithOneGap(raw: seq<byte>, before: seq<Item>, gap: Item, behind: seq<Item>)
    requires FindSync(raw, 0) == 0 && End(raw, 0) == |raw|
    requires Items(raw, 0, 0) == before + [gap] + behind && gap.Skipped?
    requires forall i :: 0 <= i < |before| ==> before[i].Accepted?
    requires forall i :: 0 <= i < |behind| ==> behind[i].Accepted?
    ensures ReportsOneGap(ReportOf(raw), |before| + |behind|, Resync(|before|, gap.pos, gap.bytes))
  {
    hide Items, End, FindSync, TallyOf, ResyncBytes;
    TallyOneGap(raw, before, gap, behind);
    OneResync(Resync(|before|, gap.pos, gap.bytes));
  }

  lemma TallyOneGap(raw: seq<byte>, before: seq<Item>, gap: Item, behind: seq<Item>)
    requires gap.Skipped?
    requires forall i :: 0 <= i < |before| ==> before[i].Accepted?
    requires forall i :: 0 <= i < |behind| ==> behind[i].Accepted?
    ensures var n := TallyOf(raw, before + [gap] + behind);
      n.resyncs == [Resync(|before|, gap.pos, gap.bytes)] && n.events == |before| + |behind|
  {
    hide TallyOf;
    TallyOfNothing(raw);
    TallyOfAccepted(raw, [], before);
    assert [] + before == before;
    TallySnoc(raw, before, gap);
    TallyOfAccepted(raw, before + [gap], behind);
  }

  lemma OneResync(r: Resync)
    ensures ResyncBytes([r]) == r.bytes
  {
    assert [r][..0] == [];
    assert ResyncBytes([]) == 0;
  }

  lemma {:induction false} ItemsAllAccepted(ps: seq<Packet>, o: nat, t: nat)
    ensures forall i :: 0 <= i < |ps| ==> ItemsOf(ps, o, t)[i].Accepted?
  {
    hide Encode;
    if ps != [] {
      ItemsAllAccepted(ps[..|ps| - 1], o, t);
    }
  }

  lemma {:induction false} TallyOfAccepted(raw: seq<byte>, before: seq<Item>, items: seq<Item>)
    requires forall i :: 0 <= i < |items| ==> items[i].Accepted?
    ensures TallyOf(raw, before + items).resyncs == TallyOf(raw, before).resyncs
    ensures TallyOf(raw, before + items).events == TallyOf(raw, before).events + |items|
  {
    hide TallyOf, Add;
    if items == [] {
      assert before + items == before;
    } else {
      var init, last := items[..|items| - 1], items[|items| - 1];
      TallyOfAccepted(raw, before, init);
      TallySnoc(raw, before + init, last);
      ConcatInit(before, items);
      AddAccepted(raw, TallyOf(raw, before + init), last);
    }
  }

  lemma AddAccepted(raw: seq<byte>, n: Tally, item: Item)
    requires item.Accepted?
    ensures Add(raw, n, item).resyncs == n.resyncs && Add(raw, n, item).events == n.events + 1
  {
    hide SyncAt, OverflowIn, HealthIn, KnownEvent;
  }

  // ----- Late attach -----

  function MovedItem(item: Item, c: nat): Item {
    match item
    case Accepted(f, ts) => Accepted(f.(pos := f.pos + c), ts)
    case Skipped(pos, bytes) => Skipped(pos + c, bytes)
  }

  /** The same items `c` bytes further on. */
  function Moved(items: seq<Item>, c: nat): (moved: seq<Item>)
    ensures |moved| == |items|
  {
    if items == [] then [] else [MovedItem(items[0], c)] + Moved(items[1..], c)
  }

  lemma FrameShift(raw: seq<byte>, c: nat, o: nat, t: nat)
    requires c <= |raw|
    ensures Framed(raw[c..], o) <==> Framed(raw, c + o)
    ensures Framed(raw, c + o) ==>
      && raw[c..][o] == raw[c + o]
      && FrameAt(raw[c..], o).(pos := c + o) == FrameAt(raw, c + o)
      && Tick(raw[c..], FrameAt(raw[c..], o), t) == Tick(raw, FrameAt(raw, c + o), t)
  {
    var s := raw[c..];
    if Framed(raw, c + o) || Framed(s, o) {
      assert s[o] == raw[c + o] && s[o + 1] == raw[c + o + 1] && s[o + 2] == raw[c + o + 2];
      SyncAtShift(raw, c, o);
      Varint.DecodeShift(raw, c, o + 3, 5);
      if SyncAt(s, o) {
        assert U32At(s, o + 7) == U32At(raw, c + (o + 7));
      }
    }
  }

  lemma FindSyncShift(raw: seq<byte>, c: nat, start: nat)
    requires c <= |raw|
    ensures var p := FindSync(raw, c + start); FindSync(raw[c..], start) == if p < 0 then -1 else p - c
  {
    hide SyncAt, LeastSync;
    LeastSyncShift(raw, c, start, |raw| - c - SYNC_LEN + 1);
  }

  /** Decoding a buffer whose first `c` bytes are gone is decoding the whole
      buffer from the `c`-th byte on. */
  lemma {:induction false} ItemsShift(raw: seq<byte>, c: nat, o: nat, t: nat)
    requires c <= |raw|
    ensures Moved(Items(raw[c..], o, t), c) == Items(raw, c + o, t)
    decreases |raw| - o
  {
    hide Items, End, Moved, SyncAt, Tick, LeastSync, FindSync, FrameAt, Framed;
    var suffix := raw[c..];
    MovedCons();
    FrameShift(raw, c, o, t);
    if c + o >= |raw| {
      ItemsOver(raw, c + o, t);
      ItemsOver(suffix, o, t);
    } else if Framed(raw, c + o) {
      ItemsFramed(raw, c + o, t);
      ItemsFramed(suffix, o, t);
      ItemsShift(raw, c, o + raw[c + o], Tick(raw, FrameAt(raw, c + o), t));
    } else {
      ItemsUnframed(raw, c + o, t);
      ItemsUnframed(suffix, o, t);
      FindSyncShift(raw, c, o + 1);
      var next := FindSync(raw, c + o + 1);
      if next >= 0 {
        ItemsShift(raw, c, next - c, t);
      }
    }
  }

  lemma MovedCons()
    ensures forall c: nat :: Moved([], c) == []
    ensures forall c: nat, item: Item, items: seq<Item> {:trigger Moved([item] + items, c)} ::
      Moved([item] + items, c) == [MovedItem(item, c)] + Moved(items, c)
  {
    forall c: nat, item: Item, items: seq<Item> {:trigger Moved([item] + items, c)}
      ensures Moved([item] + items, c) == [MovedItem(item, c)] + Moved(items, c)
    {
      assert ([item] + items)[1..] == items;
    }
  }

  predicate AcceptsAt(items: seq<Item>, k: nat, p: nat) {
    k < |items| && items[k].Accepted? && items[k].frame.pos == p
  }

  /** From an accepted sync packet on, what a decode yields does not depend on how
      the decode got there. */
  lemma {:induction false} TailFromSync(raw: seq<byte>, o: nat, t: nat, k: nat, p: nat)
    requires AcceptsAt(Items(raw, o, t), k, p) && SyncAt(raw, p)
    ensures Items(raw, o, t)[k..] == Items(raw, p, 0)
    decreases |raw| - o
  {
    hide SyncAt, LeastSync, Items, FindSync, Framed, Tick, FrameAt;
    if o >= |raw| {
      ItemsOver(raw, o, t);
    } else if Framed(raw, o) {
      ItemsFramed(raw, o, t);
      var now := Tick(raw, FrameAt(raw, o), t);
      if k == 0 {
        ItemsFramed(raw, p, 0);
        TickAtSync(raw, p, t, 0);
      } else {
        TailCons(Accepted(FrameAt(raw, o), now), Items(raw, o + raw[o], now), k);
        TailFromSync(raw, o + raw[o], now, k - 1, p);
      }
    } else {
      ItemsUnframed(raw, o, t);
      var next := FindSync(raw, o + 1);
      TailCons(Skipped(o, next - o), Items(raw, next, t), k);
      TailFromSync(raw, next, t, k - 1, p);
    }
  }

  /** A sync packet sets the time whatever it was. */
  lemma TickAtSync(raw: seq<byte>, p: nat, t: nat, u: nat)
    requires Framed(raw, p) && SyncAt(raw, p)
    ensures Tick(raw, FrameAt(raw, p), t) == Tick(raw, FrameAt(raw, p), u)
  {
    hide SyncAt;
  }

  lemma TailCons(item: Item, items: seq<Item>, k: nat)
    requires 0 < k <= |items| + 1
    ensures ([item] + items)[k..] == items[k - 1..]
    ensures forall p: nat :: AcceptsAt([item] + items, k, p) <==> AcceptsAt(items, k - 1, p)
  {
  }

  /** Late attach, for arbitrary bytes and any cut: decoding what is left from its
      first sync packet gives, packet for packet and timestamp for timestamp, a
      tail of the full decode exactly when the full decode accepts a packet where
      that sync packet starts. */
  lemma LateAttach(raw: seq<byte>, c: nat)
    requires c <= |raw| && FindSync(raw, c) >= 0
    ensures FindSync(raw, 0) >= 0 && FindSync(raw[c..], 0) == FindSync(raw, c) - c
    ensures var p := FindSync(raw, c);
      var full := Items(raw, FindSync(raw, 0), 0);
      var late := Moved(Items(raw[c..], p - c, 0), c);
      && (forall k: nat :: AcceptsAt(full, k, p) ==> late == full[k..])
      && ((exists k: nat :: AcceptsAt(full, k, p)) <==> (exists k: nat :: k <= |full| && late == full[k..]))
  {
    hide SyncAt, LeastSync, FindSync, Tick, FrameAt, Items, Moved, AcceptsAt;
    var p, s := FindSync(raw, c), FindSync(raw, 0);
    FindSyncFromStart(raw, c);
    FindSyncShift(raw, c, 0);
    ItemsShift(raw, c, p - c, 0);
    var full, late := Items(raw, s, 0), Items(raw, p, 0);
    forall k: nat | AcceptsAt(full, k, p)
      ensures k <= |full| && late == full[k..]
    {
      TailFromSync(raw, s, 0, k, p);
      AcceptsInRange(full, k, p);
    }
    forall k: nat | k <= |full| && late == full[k..]
      ensures AcceptsAt(full, k, p)
    {
      SyncItemFirst(raw, p);
      AcceptsTail(full, k, p);
    }
  }

  lemma AcceptsInRange(items: seq<Item>, k: nat, p: nat)
    requires AcceptsAt(items, k, p)
    ensures k < |items|
  {
  }

  lemma AcceptsTail(items: seq<Item>, k: nat, p: nat)
    requires k <= |items| && AcceptsAt(items[k..], 0, p)
    ensures AcceptsAt(items, k, p)
  {
  }

  lemma SyncItemFirst(raw: seq<byte>, p: nat)
    requires SyncAt(raw, p)
    ensures AcceptsAt(Items(raw, p, 0), 0, p)
  {
    hide Tick, FrameAt;
  }

  lemma FindSyncFromStart(raw: seq<byte>, c: nat)
    requires FindSync(raw, c) >= 0
    ensures 0 <= FindSync(raw, 0) <= FindSync(raw, c) && c <= FindSync(raw, c) < |raw|
    ensures SyncAt(raw, FindSync(raw, c))
  {
    hide SyncAt;
  }

  /** Where the i-th packet of a concatenation starts. */
  function Position(ps: seq<Packet>, i: nat): nat
    requires i <= |ps|
  {
    |EncodeAll(ps[..i])|
  }

  predicate SyncPacketAt(ps: seq<Packet>, i: nat, p: nat) {
    i < |ps| && ps[i].Sync? && Position(ps, i) == p
  }

  /** The sync byte pattern occurs only where a sync packet starts. */
  ghost predicate OnlyRealSyncs(ps: seq<Packet>) {
    forall p: nat :: SyncAt(EncodeAll(ps), p) ==> exists i: nat :: SyncPacketAt(ps, i, p)
  }

  /** The i-th packet, at `p`, is the first sync packet not cut off by `c`. */
  ghost predicate FirstSyncFrom(ps: seq<Packet>, c: nat, i: nat, p: nat) {
    && SyncPacketAt(ps, i, p) && p >= c
    && forall h: nat, q: nat :: h < i && SyncPacketAt(ps, h, q) ==> q < c
  }

  /** Late attach to a well-formed stream, cut anywhere, mid-packet or not, when
      the sync pattern occurs only at real sync packets: the suffix decodes to the
      tail of the full decode that starts with the first sync packet not cut off,
      with the same timestamps. */
  lemma LateAttachToPackets(ps: seq<Packet>, c: nat)
    requires c <= |EncodeAll(ps)| && OnlyRealSyncs(ps) && FindSync(EncodeAll(ps)[c..], 0) >= 0
    ensures var raw := EncodeAll(ps);
      var p := FindSync(raw, c);
      && FindSync(raw, 0) >= 0 && p >= c && FindSync(raw[c..], 0) == p - c
      && (exists i: nat :: FirstSyncFrom(ps, c, i, p))
      && var full, late := Items(raw, FindSync(raw, 0), 0), Moved(Items(raw[c..], p - c, 0), c);
         exists k: nat :: AcceptsAt(full, k, p) && k <= |full| && late == full[k..]
  {
    hide Encode, EncodeAll, LeastSync, FindSync, SyncAt, Items, Moved, Position, AcceptsAt;
    var raw := EncodeAll(ps);
    FindSyncShift(raw, c, 0);
    FindSyncFromStart(raw, c);
    var p, s := FindSync(raw, c), FindSync(raw, 0);
    FindSyncFromStart(raw, 0);
    var j: nat :| SyncPacketAt(ps, j, s);
    var i: nat :| SyncPacketAt(ps, i, p);
    if i < j {
      PositionsIncrease(ps, i, j);
    }
    ItemsAcceptPacket(ps, j, i);
    LateAttach(raw, c);
    FirstFound(ps, c, i, p);
    AcceptsInRange(Items(raw, s, 0), i - j, p);
    assert FirstSyncFrom(ps, c, i, p) && AcceptsAt(Items(raw, s, 0), i - j, p);
  }

  lemma FirstFound(ps: seq<Packet>, c: nat, i: nat, p: nat)
    requires SyncPacketAt(ps, i, p) && p == FindSync(EncodeAll(ps), c)
    ensures FirstSyncFrom(ps, c, i, p)
  {
    hide Encode, EncodeAll, SyncAt, Position;
    forall h: nat, q: nat | h < i && SyncPacketAt(ps, h, q)
      ensures q < c
    {
      SyncPacketFound(ps, h, q);
      PositionsIncrease(ps, h, i);
    }
  }

  /** With no sync packet left behind the cut, there is no sync to find. */
  lemma NothingToAttachTo(ps: seq<Packet>, c: nat)
    requires c <= |EncodeAll(ps)| && OnlyRealSyncs(ps)
    ensures FindSync(EncodeAll(ps)[c..], 0) < 0 <==> forall i: nat, p: nat :: SyncPacketAt(ps, i, p) ==> p < c
  {
    hide Encode, EncodeAll, SyncAt, Position;
    var raw := EncodeAll(ps);
    FindSyncShift(raw, c, 0);
    forall i: nat, p: nat | SyncPacketAt(ps, i, p)
      ensures SyncAt(raw, p) && p < |raw| - SYNC_LEN + 1
    {
      SyncPacketFound(ps, i, p);
      SyncLen(raw, p);
    }
    if FindSync(raw, c) >= 0 {
      var i: nat :| SyncPacketAt(ps, i, FindSync(raw, c));
    }
  }

  lemma SyncPacketFound(ps: seq<Packet>, i: nat, p: nat)
    requires SyncPacketAt(ps, i, p)
    ensures SyncAt(EncodeAll(ps), p)
  {
    hide Encode, SyncAt;
    PacketAt(ps, i);
    PacketFrame(EncodeAll(ps), p, ps[i]);
  }

  lemma PositionsIncrease(ps: seq<Packet>, h: nat, i: nat)
    requires h < i <= |ps|
    ensures Position(ps, h) < Position(ps, i)
    decreases i
  {
    LengthByte(ps[i - 1]);
    hide Encode;
    assert ps[..i][..i - 1] == ps[..i - 1];
    if h < i - 1 {
      PositionsIncrease(ps, h, i - 1);
    }
  }

  /** Decoding from the j-th packet on accepts the i-th as item i - j. */
  lemma ItemsAcceptPacket(ps: seq<Packet>, j: nat, i: nat)
    requires j <= i < |ps|
    ensures AcceptsAt(Items(EncodeAll(ps), Position(ps, j), 0), i - j, Position(ps, i))
  {
    hide Encode, EncodeAll, LeastSync, Tick, FrameAt, Framed, PacketTime, Items, ItemsOf, At, AcceptsAt, Position;
    var raw, o, qs := EncodeAll(ps), Position(ps, j), ps[j..];
    SuffixAt(ps, j);
    ItemsOfPackets(raw, o, qs, 0);
    ItemsOfAccepts(ps, j, i);
    AcceptsBefore(ItemsOf(qs, o, 0), Items(raw, o + |EncodeAll(qs)|, PacketTime(qs, 0)), i - j, Position(ps, i));
  }

  lemma SuffixAt(ps: seq<Packet>, j: nat)
    requires j <= |ps|
    ensures At(EncodeAll(ps), Position(ps, j), EncodeAll(ps[j..]))
  {
    hide Encode, EncodeAll, At;
    EncodeAllSplit(ps, j);
    AtSuffix(EncodeAll(ps[..j]), EncodeAll(ps[j..]));
  }

  lemma ItemsOfAccepts(ps: seq<Packet>, j: nat, i: nat)
    requires j <= i < |ps|
    ensures AcceptsAt(ItemsOf(ps[j..], Position(ps, j), 0), i - j, Position(ps, i))
  {
    hide Encode, EncodeAll, ItemsOf, PacketTime, Eid, Position;
    ItemsOfIndex(ps[j..], Position(ps, j), 0, i - j);
    PositionSplit(ps, j, i);
  }

  lemma AcceptsBefore(items: seq<Item>, more: seq<Item>, k: nat, p: nat)
    requires AcceptsAt(items, k, p)
    ensures AcceptsAt(items + more, k, p)
  {
  }

  lemma AtSuffix(a: seq<byte>, b: seq<byte>)
    ensures At(a + b, |a|, b)
  {
    assert (a + b)[|a|..|a| + |b|] == b;
  }

  lemma PositionSplit(ps: seq<Packet>, j: nat, i: nat)
    requires j <= i <= |ps|
    ensures Position(ps, i) == Position(ps, j) + |EncodeAll(ps[j..][..i - j])|
  {
    hide Encode, EncodeAll;
    assert ps[..i] == ps[..j] + ps[j..][..i - j];
    EncodeAllConcat(ps[..j], ps[j..][..i - j]);
  }
}
