/** From the history of writes to the bytes the host reads, over an all-or-nothing
    sink, and where the host finds its first sync packet. */
module Delivery {
  import opened Bytes
  import opened Packets
  import opened SyncSearch
  import opened Emitter
  import opened StreamShape
  import Varint

  /** The drop and block modes of the sink: a packet is taken whole or not at all. */
  predicate AllOrNothing(log: Log) {
    forall i :: 0 <= i < |log| ==> log[i].accepted == 0 || Complete(log[i])
  }

  /** The writes that are whole in the stream. */
  function Delivered(log: Log): (ds: Log)
    ensures forall i :: 0 <= i < |ds| ==> Complete(ds[i])
  {
    if log == [] then []
    else
      var before, last := Delivered(log[..|log| - 1]), log[|log| - 1];
      if Complete(last) then before + [last] else before
  }

  function PacketsOf(ds: Log): (ps: seq<Packet>)
    ensures |ps| == |ds| && forall i :: 0 <= i < |ds| ==> ps[i] == ds[i].packet
  {
    seq(|ds|, i requires 0 <= i < |ds| => ds[i].packet)
  }

  function Stream(log: Log): seq<Packet> { PacketsOf(Delivered(log)) }

  lemma DeliveredSnoc(log: Log, a: Attempt)
    ensures Delivered(log + [a]) == if Complete(a) then Delivered(log) + [a] else Delivered(log)
    ensures Stream(log + [a]) == if Complete(a) then Stream(log) + [a.packet] else Stream(log)
  {
    hide Complete;
    assert (log + [a])[..|log|] == log;
  }

  /** Over an all-or-nothing sink the stream is the delivered packets' bytes. */
  lemma {:induction false} WrittenIsStream(log: Log)
    requires AllOrNothing(log)
    ensures Written(log) == EncodeAll(Stream(log))
  {
    hide Encode, EncodeAll, Written, Stream, Delivered, Complete;
    if log == [] {
      NothingWritten();
    } else {
      var init, last := log[..|log| - 1], log[|log| - 1];
      assert forall i :: 0 <= i < |init| ==> init[i] == log[i];
      WrittenIsStream(init);
      InitAndLast(log);
      WrittenSnoc(init, last);
      DeliveredSnoc(init, last);
      TakenBytes(last);
      if Complete(last) {
        EncodeAllSnoc(Stream(init), last.packet);
      } else {
        assert Written(init) + [] == Written(init);
      }
    }
  }

  lemma NothingWritten()
    ensures Written([]) == EncodeAll(Stream([]))
  {
  }

  lemma TakenBytes(a: Attempt)
    requires a.accepted == 0 || Complete(a)
    ensures Encode(a.packet)[..a.accepted] == if Complete(a) then Encode(a.packet) else []
  {
    LengthByte(a.packet);
  }

  // ----- The first sync packet -----

  /** Packets before the first sync packet. */
  function Preface(ps: seq<Packet>): (k: nat)
    ensures k <= |ps| && (k < |ps| ==> ps[k].Sync?)
    ensures forall i :: 0 <= i < k ==> !ps[i].Sync?
  {
    if ps == [] || ps[0].Sync? then 0
    else
      var k := Preface(ps[1..]);
      assert forall i :: 1 <= i < k + 1 ==> ps[i] == ps[1..][i - 1];
      k + 1
  }

  lemma PrefaceUnique(ps: seq<Packet>, k: nat)
    requires k < |ps| && ps[k].Sync? && forall i :: 0 <= i < k ==> !ps[i].Sync?
    ensures Preface(ps) == k
  {
    hide Preface;
  }

  predicate HasSync(ps: seq<Packet>) { exists i :: 0 <= i < |ps| && ps[i].Sync? }

  /** Nothing but overflow packets comes before the first sync packet. */
  predicate OverflowsFirst(ps: seq<Packet>) {
    forall i :: 0 <= i < |ps| && !ps[i].Sync? && !ps[i].Overflow? ==> HasSync(ps[..i])
  }

  lemma {:induction false} StreamIsAnchored(log: Log)
    requires Anchored(log)
    ensures OverflowsFirst(Stream(log)) && (Synced(log) <==> HasSync(Stream(log)))
  {
    hide Encode, Complete, Delivered, PacketsOf, Stream, Synced, Anchored, HasSync, OverflowsFirst, ShortSinceEvent,
         GateHeld,
         SinceSync, Spaced, JustRecovered, Gated;
    if log == [] {
      NothingDelivered();
    } else {
      var init, last := log[..|log| - 1], log[|log| - 1];
      InitAndLast(log);
      StreamShape.Snoc(init, last, 0);
      StreamIsAnchored(init);
      StaysAnchored(init, last);
    }
  }

  /** One more write on a history that is anchored, and so is its stream. */
  lemma StaysAnchored(log: Log, a: Attempt)
    requires OverflowsFirst(Stream(log)) && (Synced(log) <==> HasSync(Stream(log)))
    requires a.packet.Event? || a.packet.Metadata? ==> Synced(log)
    ensures OverflowsFirst(Stream(log + [a]))
    ensures HasSync(Stream(log + [a])) <==> Synced(log) || (a.packet.Sync? && Complete(a))
  {
    hide Encode, Complete, Delivered, PacketsOf, Stream, Synced, HasSync, OverflowsFirst;
    DeliveredSnoc(log, a);
    AnchoredSnoc(Stream(log), a.packet);
  }

  lemma NothingDelivered()
    ensures Stream([]) == [] && OverflowsFirst([]) && !HasSync([]) && !Synced([])
  {
  }

  lemma AnchoredSnoc(ps: seq<Packet>, p: Packet)
    ensures HasSync(ps + [p]) <==> HasSync(ps) || p.Sync?
    ensures OverflowsFirst(ps) && (p.Sync? || p.Overflow? || HasSync(ps)) ==> OverflowsFirst(ps + [p])
  {
    var qs := ps + [p];
    assert qs[..|ps|] == ps && qs[|ps|] == p;
    if HasSync(ps) {
      var i :| 0 <= i < |ps| && ps[i].Sync?;
      assert qs[i].Sync?;
    }
    if OverflowsFirst(ps) && (p.Sync? || p.Overflow? || HasSync(ps)) {
      forall i | 0 <= i < |qs| && !qs[i].Sync? && !qs[i].Overflow?
        ensures HasSync(qs[..i])
      {
        if i < |ps| { assert qs[..i] == ps[..i] && qs[i] == ps[i]; }
      }
    }
  }

  /** An overflow packet with another packet's length byte behind it can look like
      a sync packet in one way only: from the last byte of its delta, being 15, on,
      its drop count spelling the id and the first half of the magic and the packet
      behind it the other half. */
  lemma OverflowHidesSyncIff(raw: seq<byte>, o: nat, p: Packet, q: nat)
    requires At(raw, o, Encode(p)) && p.Overflow? && q < |Encode(p)|
    requires o + |Encode(p)| < |raw| && raw[o + |Encode(p)|] >= 4
    ensures SyncAt(raw, o + q)
      <==> && q == |Encode(p)| - 5 && raw[o + q] == 15 && p.drops == SPLIT_SYNC
           && o + q + SYNC_LEN <= |raw| && raw[o + q + 5] == 0xBD && raw[o + q + 6] == 0xE3
  {
    hide Encode, At, Varint.Encode, SyncAt;
    OverflowBytes(raw, o, p);
    DropBytes(raw, o, p);
    if o + q + SYNC_LEN <= |raw| {
      SyncBytes(raw, o + q);
    } else {
      SyncNeedsRoom(raw, o + q);
    }
  }

  /** The bytes 02 03 01 00. */
  const SPLIT_SYNC: uint32 := 0x0001_0302

  lemma SyncBytes(raw: seq<byte>, p: nat)
    requires p + SYNC_LEN <= |raw|
    ensures SyncAt(raw, p)
      <==> && raw[p] == 15 && raw[p + 1] == 2 && raw[p + 2] == 3
           && raw[p + 3] == 0x01 && raw[p + 4] == 0x00 && raw[p + 5] == 0xBD && raw[p + 6] == 0xE3
  {
    MagicBytes(raw, p + 3);
  }

  lemma SyncNeedsRoom(raw: seq<byte>, p: nat)
    ensures SyncAt(raw, p) ==> p + SYNC_LEN <= |raw|
  {
  }

  /** The drop count's four bytes, and when they are 02 03 01 00. */
  lemma DropBytes(raw: seq<byte>, o: nat, p: Packet)
    requires At(raw, o, Encode(p)) && p.Overflow?
    ensures var at := o + |Encode(p)| - 4;
      && o + |Encode(p)| <= |raw|
      && (p.drops == SPLIT_SYNC <==> raw[at] == 2 && raw[at + 1] == 3 && raw[at + 2] == 1 && raw[at + 3] == 0)
  {
    LengthByte(p);
    DropsAt(raw, o, p);
    hide At, Encode, Varint.Decode;
    U32Bytes(raw, o + |Encode(p)| - 4);
  }

  lemma U32Bytes(raw: seq<byte>, i: nat)
    requires i + 4 <= |raw|
    ensures U32At(raw, i) == SPLIT_SYNC <==> raw[i] == 2 && raw[i + 1] == 3 && raw[i + 2] == 1 && raw[i + 3] == 0
  {
  }

  /** So a stream of an overflow packet and an event can hold a sync pattern where
      no sync packet is. */
  lemma OverflowHidesSync(payload: Payload)
    requires |payload| == 185
    ensures SyncAt(Encode(Overflow(15, SPLIT_SYNC)) + Encode(Event(0xE3, 7, payload)), 3)
  {
    hide Encode, SyncAt, At;
    var p, e := Overflow(15, SPLIT_SYNC), Event(0xE3, 7, payload);
    var a, b := Encode(p), Encode(e);
    DeltaByte(p);
    DeltaByte(e);
    LengthByte(e);
    IdByte(e);
    AtFront(a, b);
    OverflowHidesSyncIff(a + b, 0, p, 3);
  }

  lemma AtFront(a: seq<byte>, b: seq<byte>)
    ensures At(a + b, 0, a)
  {
    assert (a + b)[0..|a|] == a;
  }

  /** A delta below 128 is one byte. */
  lemma DeltaByte(p: Packet)
    requires (p.Event? || p.Overflow?) && p.delta < 0x80
    ensures |Encode(p)| == 4 + if p.Event? then |p.payload| else 4
    ensures Encode(p)[3] == p.delta
  {
  }

  lemma IdByte(p: Packet)
    ensures |Encode(p)| >= 2 && Encode(p)[1] == Eid(p) % 0x100
  {
  }

  lemma OverflowBytes(raw: seq<byte>, o: nat, p: Packet)
    requires At(raw, o, Encode(p)) && p.Overflow?
    ensures var v := |Varint.Encode(p.delta)|;
      && |Encode(p)| == 7 + v && 1 <= v && o + 7 + v <= |raw|
      && 8 <= raw[o] <= 12 && raw[o + 1] == 1 && raw[o + 2] == 3
      && forall j {:trigger raw[j]} :: o + 3 <= j < o + 2 + v ==> raw[j] >= 0x80
  {
    LengthByte(p);
    var s := Varint.Encode(p.delta);
    PacketFrame(raw, o, p);
    IdBytes(raw, o, p);
    DeltaAt(raw, o, p, U32(p.drops));
    AtSplit(raw, o + 3, s, U32(p.drops));
    hide Encode, Eid, U32, SyncAt, FrameAt;
    Varint.EncodeIsLeb128(p.delta);
    hide Varint.Encode, Body;
    forall j {:trigger raw[j]} | o + 3 <= j < o + 2 + |s|
      ensures raw[j] >= 0x80
    {
      assert s[j - o - 3] == raw[o + 3..o + 3 + |s|][j - o - 3] == raw[j];
    }
  }

  lemma IdBytes(raw: seq<byte>, o: nat, p: Packet)
    requires Framed(raw, o) && FrameAt(raw, o) == Frame(o, |Encode(p)|, Eid(p)) && p.Overflow?
    ensures raw[o + 1] == 1 && raw[o + 2] == 3
  {
    hide Encode;
  }

  lemma {:induction false} OverflowsHideNoSync(raw: seq<byte>, o: nat, ps: seq<Packet>)
    requires At(raw, o, EncodeAll(ps)) && forall i :: 0 <= i < |ps| ==> ps[i].Overflow?
    requires o + |EncodeAll(ps)| < |raw| && 8 <= raw[o + |EncodeAll(ps)|] <= 15
    ensures forall p :: o <= p < o + |EncodeAll(ps)| ==> !SyncAt(raw, p)
  {
    hide Encode, At, SyncAt;
    if ps != [] {
      var init, last := ps[..|ps| - 1], ps[|ps| - 1];
      var at := o + |EncodeAll(init)|;
      AtSplit(raw, o, EncodeAll(init), Encode(last));
      OverflowBytes(raw, at, last);
      OverflowsHideNoSync(raw, o, init);
      forall p | at <= p < at + |Encode(last)|
        ensures !SyncAt(raw, p)
      {
        OverflowHidesSyncIff(raw, at, last, p - at);
      }
    }
  }

  /** Where the packets behind the first `k` start. */
  function Offset(ps: seq<Packet>, k: nat): nat
    requires k <= |ps|
  {
    |EncodeAll(ps[..k])|
  }

  lemma OffsetSplit(ps: seq<Packet>, k: nat)
    requires k <= |ps|
    ensures var raw := EncodeAll(ps);
      && At(raw, 0, EncodeAll(ps[..k])) && At(raw, Offset(ps, k), EncodeAll(ps[k..]))
      && |raw| == Offset(ps, k) + |EncodeAll(ps[k..])|
  {
    hide Encode, EncodeAll;
    EncodeAllSplit(ps, k);
    var raw := EncodeAll(ps);
    assert raw[0..|raw|] == raw;
    AtSplit(raw, 0, EncodeAll(ps[..k]), EncodeAll(ps[k..]));
  }

  /** The same in a buffer that starts with the packets. */
  lemma OffsetSplitAt(raw: seq<byte>, ps: seq<Packet>, k: nat)
    requires At(raw, 0, EncodeAll(ps)) && k <= |ps|
    ensures At(raw, 0, EncodeAll(ps[..k])) && At(raw, Offset(ps, k), EncodeAll(ps[k..]))
    ensures |EncodeAll(ps)| == Offset(ps, k) + |EncodeAll(ps[k..])| <= |raw|
  {
    hide Encode, EncodeAll;
    EncodeAllSplit(ps, k);
    AtSplit(raw, 0, EncodeAll(ps[..k]), EncodeAll(ps[k..]));
  }

  lemma AtWithin(raw: seq<byte>, e: seq<byte>, p: nat, f: seq<byte>)
    requires At(raw, 0, e) && At(e, p, f)
    ensures At(raw, p, f)
  {
    assert e[p..p + |f|] == raw[p..p + |f|];
  }

  /** On a buffer that starts with packets, only overflow packets before their first
      sync packet, `find_sync` finds that packet: no bytes before it look like one. */
  lemma FirstSyncIsRealAt(raw: seq<byte>, ps: seq<Packet>)
    requires At(raw, 0, EncodeAll(ps)) && OverflowsFirst(ps) && HasSync(ps)
    ensures var k := Preface(ps);
      && k < |ps| && (forall i :: 0 <= i < k ==> ps[i].Overflow?)
      && FindSync(raw, 0) == Offset(ps, k) && Offset(ps, k) + SYNC_LEN <= |EncodeAll(ps)| <= |raw|
  {
    hide Encode, EncodeAll, At, SyncAt, LeastSync;
    var k := Preface(ps);
    PrefaceIsOverflows(ps);
    OffsetSplitAt(raw, ps, k);
    PacketAt(ps, k);
    AtWithin(raw, EncodeAll(ps), Offset(ps, k), Encode(ps[k]));
    PacketFrame(raw, Offset(ps, k), ps[k]);
    LengthByte(ps[k]);
    FirstByte(raw, Offset(ps, k));
    OverflowsHideNoSync(raw, 0, ps[..k]);
    LeastSyncUnique(raw, 0, |raw| - SYNC_LEN + 1, Offset(ps, k));
    SyncInside(ps, k);
  }

  lemma SyncInside(ps: seq<Packet>, k: nat)
    requires k < |ps| && ps[k].Sync?
    ensures Offset(ps, k) + SYNC_LEN <= |EncodeAll(ps)|
  {
    LengthByte(ps[k]);
    PacketAt(ps, k);
    hide Encode, EncodeAll;
  }

  lemma FirstSyncIsReal(ps: seq<Packet>)
    requires OverflowsFirst(ps) && HasSync(ps)
    ensures var k := Preface(ps);
      && k < |ps| && (forall i :: 0 <= i < k ==> ps[i].Overflow?)
      && FindSync(EncodeAll(ps), 0) == Offset(ps, k) && Offset(ps, k) + SYNC_LEN <= |EncodeAll(ps)|
  {
    hide Encode, EncodeAll, At, SyncAt, LeastSync, Preface;
    OffsetSplit(ps, |ps|);
    assert ps[..|ps|] == ps;
    FirstSyncIsRealAt(EncodeAll(ps), ps);
  }

  lemma FirstByte(raw: seq<byte>, o: nat)
    requires SyncAt(raw, o)
    ensures o + SYNC_LEN <= |raw| && raw[o] == 15
  {
  }

  lemma PrefaceIsOverflows(ps: seq<Packet>)
    requires OverflowsFirst(ps) && HasSync(ps)
    ensures var k := Preface(ps); k < |ps| && forall i :: 0 <= i < k ==> ps[i].Overflow?
  {
    var k := Preface(ps);
    forall i | 0 <= i < k
      ensures ps[i].Overflow?
    {
      assert !HasSync(ps[..i]);
    }
  }

  /** In every run over an all-or-nothing sink that got some sync packet out, a
      failed first preamble included, the host's scan stops exactly at the first
      sync packet; before it there are only overflow packets. */
  lemma HostFindsFirstSync(r: Run)
    requires var log := Final(r).log; AllOrNothing(log) && Synced(log)
    ensures var ps := Stream(Final(r).log);
      var k := Preface(ps);
      && k < |ps| && (forall i :: 0 <= i < k ==> ps[i].Overflow?)
      && Written(Final(r).log) == EncodeAll(ps)
      && FindSync(Written(Final(r).log), 0) == Offset(ps, k)
      && Offset(ps, k) + SYNC_LEN <= |EncodeAll(ps)|
  {
    hide Final, Spaced, GateHeld, Anchored, Synced, ShortSinceEvent, SinceSync, LeastSync, Encode, EncodeAll;
    var log := Final(r).log;
    RunShaped(r);
    WrittenIsStream(log);
    StreamIsAnchored(log);
    FirstSyncIsReal(Stream(log));
  }

  /** Overflow packets alone never look like a sync packet: the last one is too
      short to hold one. */
  lemma OverflowsAloneHoldNoSync(ps: seq<Packet>)
    requires forall i :: 0 <= i < |ps| ==> ps[i].Overflow?
    ensures FindSync(EncodeAll(ps), 0) == -1
  {
    hide Encode, EncodeAll, At, SyncAt, LeastSync;
    var raw := EncodeAll(ps);
    Unfold(ps, 0);
    forall p: nat
      ensures !SyncAt(raw, p)
    {
      if SyncAt(raw, p) {
        FirstByte(raw, p);
        var init, last := ps[..|ps| - 1], ps[|ps| - 1];
        var at := |EncodeAll(init)|;
        LengthByte(last);
        PacketAt(ps, |ps| - 1);
        OverflowBytes(raw, at, last);
        OffsetSplit(ps, |ps| - 1);
        OverflowsHideNoSync(raw, 0, init);
      }
    }
    FindSyncComplete(raw, 0);
  }

  /** In every run over an all-or-nothing sink the host finds a sync packet exactly
      when a whole one got out. */
  lemma HostFindsSyncIff(r: Run)
    requires AllOrNothing(Final(r).log)
    ensures FindSync(Written(Final(r).log), 0) >= 0 <==> Synced(Final(r).log)
  {
    hide Final, Spaced, GateHeld, Anchored, Synced, ShortSinceEvent, SinceSync, LeastSync, Encode, EncodeAll,
         FindSync, Stream;
    var log := Final(r).log;
    if Synced(log) {
      HostFindsFirstSync(r);
    } else {
      RunShaped(r);
      WrittenIsStream(log);
      StreamIsAnchored(log);
      var ps := Stream(log);
      forall i | 0 <= i < |ps|
        ensures ps[i].Overflow?
      {
        NoSyncInPrefix(ps, i);
      }
      OverflowsAloneHoldNoSync(ps);
    }
  }

  lemma NoSyncInPrefix(ps: seq<Packet>, i: nat)
    requires i < |ps| && !HasSync(ps)
    ensures !HasSync(ps[..i]) && !ps[i].Sync?
  {
  }
}
