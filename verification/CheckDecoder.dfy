/** The stream validator of `rtt_ctf_check.py`: framing without
    resynchronisation, counters, and a clock that skips metadata. */
module CheckDecoder {
  import opened Bytes
  import opened Packets
  import opened SyncSearch
  import Varint

  /** The ids in the tool's event table. */
  predicate KnownEvent(eid: uint16) {
    || 0x10 <= eid <= 0x1C || eid == 0x1E || 0x21 <= eid <= 0x33
    || 0x100 <= eid <= 0x104 || 0x110 <= eid <= 0x119 || 0x200 <= eid <= 0x205
    || 0x300 <= eid <= 0x303
  }

  /** Id by id. */
  lemma EventTable(eid: uint16)
    ensures KnownEvent(eid)
      <==> eid in {
         0x10, 0x11, 0x12, 0x13, 0x14, 0x15, 0x16, 0x17, 0x18, 0x19, 0x1A, 0x1B,
         0x1C, 0x1E, 0x21, 0x22, 0x23, 0x24, 0x25, 0x26, 0x27, 0x28, 0x29, 0x2A,
         0x2B, 0x2C, 0x2D, 0x2E, 0x2F, 0x30, 0x31, 0x32, 0x33, 0x100, 0x101, 0x102,
         0x103, 0x104, 0x110, 0x111, 0x112, 0x113, 0x114, 0x115, 0x116, 0x117, 0x118, 0x119,
         0x200, 0x201, 0x202, 0x203, 0x204, 0x205, 0x300, 0x301, 0x302, 0x303}
  {
  }

  function DeltaAt(raw: seq<byte>, f: Frame): nat { Varint.Decode(raw, f.pos + 3).value }

  /** The timestamp after one frame. A frame with the sync id and length but
      another magic changes nothing. */
  function Tick(raw: seq<byte>, f: Frame, t: nat): nat {
    if f.eid == SYNC_ID && f.len == SYNC_LEN then
      if SyncAt(raw, f.pos) then U32At(raw, f.pos + 7) else t
    else if f.eid == METADATA_ID then t
    else t + DeltaAt(raw, f)
  }

  /** The timestamp after all the frames, from `t`. */
  function Clock(raw: seq<byte>, fs: seq<Frame>, t: nat): nat {
    if fs == [] then t else Tick(raw, fs[|fs| - 1], Clock(raw, fs[..|fs| - 1], t))
  }

  function CountSyncs(raw: seq<byte>, fs: seq<Frame>): nat {
    if fs == [] then 0
    else CountSyncs(raw, fs[..|fs| - 1]) + if SyncAt(raw, fs[|fs| - 1].pos) then 1 else 0
  }

  function CountChunks(fs: seq<Frame>): nat {
    if fs == [] then 0
    else CountChunks(fs[..|fs| - 1]) + if fs[|fs| - 1].eid == METADATA_ID then 1 else 0
  }

  function CountUnknown(fs: seq<Frame>): nat {
    if fs == [] then 0
    else CountUnknown(fs[..|fs| - 1]) + if KnownEvent(fs[|fs| - 1].eid) then 0 else 1
  }

  lemma Snoc(raw: seq<byte>, fs: seq<Frame>, f: Frame)
    ensures Clock(raw, fs + [f], 0) == Tick(raw, f, Clock(raw, fs, 0))
    ensures CountSyncs(raw, fs + [f]) == CountSyncs(raw, fs) + if SyncAt(raw, f.pos) then 1 else 0
    ensures CountChunks(fs + [f]) == CountChunks(fs) + if f.eid == METADATA_ID then 1 else 0
    ensures CountUnknown(fs + [f]) == CountUnknown(fs) + if KnownEvent(f.eid) then 0 else 1
  {
    assert (fs + [f])[..|fs|] == fs;
  }

  lemma Empty(raw: seq<byte>)
    ensures Clock(raw, [], 0) == 0 && CountSyncs(raw, []) == 0 && CountChunks([]) == 0 && CountUnknown([]) == 0
  {
  }

  datatype Report =
    | NoData
    | NoSync
    | Parsed(syncPos: nat, events: nat, syncs: nat, chunks: nat, errors: nat, remaining: nat, timestamp: nat)

  /** What the validator reports, said about the frames behind the first sync. */
  function ReportOf(raw: seq<byte>): Report {
    var s := FirstSync(raw);
    if raw == [] then NoData
    else if s < 0 then NoSync
    else
      var fs := Frames(raw, s);
      var end := FramesEnd(raw, s);
      Parsed(s, |fs|, CountSyncs(raw, fs), CountChunks(fs),
             CountUnknown(fs) + (if end < |raw| then 1 else 0), |raw| - end, Clock(raw, fs, 0))
  }

  method ValidateDataStream(raw: seq<byte>) returns (report: Report)
    ensures report == ReportOf(raw)
  {
    hide Frames, FramesEnd, Clock, CountSyncs, CountChunks, CountUnknown, KnownEvent, U16At, U32At, Varint.Decode;
    if |raw| == 0 {
      return NoData;
    }
    var syncPos := FirstSyncScan(raw);
    if syncPos < 0 {
      return NoSync;
    }
    var offset: nat := syncPos;
    var events, syncs, chunks, errors, timestamp := 0, 0, 0, 0, 0;
    ghost var done: seq<Frame> := [];
    Empty(raw);
    while offset < |raw|
      invariant syncPos <= offset <= |raw|
      invariant done + Frames(raw, offset) == Frames(raw, syncPos)
      invariant FramesEnd(raw, offset) == FramesEnd(raw, syncPos)
      invariant events == |done| && syncs == CountSyncs(raw, done) && chunks == CountChunks(done)
      invariant errors == CountUnknown(done) && timestamp == Clock(raw, done, 0)
      decreases |raw| - offset
    {
      var len := raw[offset];
      if len < 4 || offset + len > |raw| {
        errors := errors + 1;
        break;
      }
      var eid := U16At(raw, offset + 1);
      ghost var f := FrameAt(raw, offset);
      FramesStep(raw, syncPos, done, offset);
      Snoc(raw, done, f);
      if eid == SYNC_ID && len == SYNC_LEN {
        var magic := U32At(raw, offset + 3);
        if magic == SYNC_MAGIC {
          timestamp := U32At(raw, offset + 7);
          syncs := syncs + 1;
        }
      } else if eid == METADATA_ID {
        chunks := chunks + 1;
      } else {
        var delta, _ := Varint.DecodeVarint(raw, offset + 3);
        timestamp := timestamp + delta;
      }
      if !KnownEvent(eid) {
        errors := errors + 1;
      }
      events := events + 1;
      offset := offset + len;
      done := done + [f];
    }
    FramesStop(raw, offset);
    assert done + [] == done;
    return Parsed(syncPos, events, syncs, chunks, errors, |raw| - offset, timestamp);
  }

  // ----- The clock over packets -----

  function PacketTick(p: Packet, t: nat): nat {
    match p
    case Sync(ts, _) => ts
    case Metadata(_, _, _) => t
    case Event(_, delta, _) => t + delta
    case Overflow(delta, _) => t + delta
  }

  /** The host's timestamp after a list of packets. */
  function PacketClock(ps: seq<Packet>, t: nat): nat {
    if ps == [] then t else PacketTick(ps[|ps| - 1], PacketClock(ps[..|ps| - 1], t))
  }

  function Syncs(ps: seq<Packet>): nat {
    if ps == [] then 0 else Syncs(ps[..|ps| - 1]) + if ps[|ps| - 1].Sync? then 1 else 0
  }

  function Chunks(ps: seq<Packet>): nat {
    if ps == [] then 0 else Chunks(ps[..|ps| - 1]) + if ps[|ps| - 1].Metadata? then 1 else 0
  }

  /** Packets with an id the tool has no name for. */
  function Unknowns(ps: seq<Packet>): nat {
    if ps == [] then 0 else Unknowns(ps[..|ps| - 1]) + if KnownEvent(Eid(ps[|ps| - 1])) then 0 else 1
  }

  /** On concatenated packets the tool's counts are those of the packets. */
  lemma {:induction false} CountsOfPackets(raw: seq<byte>, o: nat, ps: seq<Packet>)
    requires At(raw, o, EncodeAll(ps))
    ensures var fs := FramesOf(ps, o);
      CountSyncs(raw, fs) == Syncs(ps) && CountChunks(fs) == Chunks(ps) && CountUnknown(fs) == Unknowns(ps)
  {
    hide At, Encode, EncodeAll, SyncAt, FramesOf, Clock, Tick, CountSyncs, CountChunks, CountUnknown, KnownEvent;
    Unfold(ps, o);
    if ps == [] {
      Empty(raw);
    } else {
      var init, last := ps[..|ps| - 1], ps[|ps| - 1];
      var at := o + |EncodeAll(init)|;
      AtSplit(raw, o, EncodeAll(init), Encode(last));
      CountsOfPackets(raw, o, init);
      PacketFrame(raw, at, last);
      Snoc(raw, FramesOf(init, o), Frame(at, |Encode(last)|, Eid(last)));
    }
  }

  // ----- A clean bill -----

  function FrameBytes(fs: seq<Frame>): nat {
    if fs == [] then 0 else FrameBytes(fs[..|fs| - 1]) + fs[|fs| - 1].len
  }

  lemma {:induction false} FrameBytesCons(f: Frame, fs: seq<Frame>)
    ensures FrameBytes([f] + fs) == f.len + FrameBytes(fs)
  {
    var all := [f] + fs;
    if fs == [] {
      assert all[..|all| - 1] == [];
    } else {
      FrameBytesCons(f, fs[..|fs| - 1]);
      assert all[..|all| - 1] == [f] + fs[..|fs| - 1];
    }
  }

  lemma {:induction false} FramesAreContiguous(raw: seq<byte>, o: nat)
    requires o <= |raw|
    ensures FramesEnd(raw, o) == o + FrameBytes(Frames(raw, o))
    decreases |raw| - o
  {
    hide Frames, FramesEnd, FrameBytes, Framed, FrameAt;
    if Framed(raw, o) {
      FramesTurn(raw, o);
      FramesAreContiguous(raw, o + raw[o]);
      FrameBytesCons(FrameAt(raw, o), Frames(raw, o + raw[o]));
    } else {
      FramesStop(raw, o);
      NoBytes();
    }
  }

  lemma NoBytes()
    ensures FrameBytes([]) == 0
  {
  }

  lemma {:induction false} NoneUnknown(fs: seq<Frame>)
    ensures CountUnknown(fs) == 0 <==> forall i :: 0 <= i < |fs| ==> KnownEvent(fs[i].eid)
  {
    hide KnownEvent;
    if fs != [] {
      var init := fs[..|fs| - 1];
      assert forall i :: 0 <= i < |init| ==> init[i] == fs[i];
      NoneUnknown(init);
    }
  }

  /** For arbitrary bytes: what is before the first sync, in the frames and left over
      is all there is, and the validator finds no error if and only if nothing is left
      over and it has a name for every frame's id. */
  lemma CleanIff(raw: seq<byte>)
    ensures var r := ReportOf(raw);
      r.Parsed? ==>
        var fs := Frames(raw, r.syncPos);
        && r.syncPos == FirstSync(raw) && r.events == |fs|
        && r.syncPos + FrameBytes(fs) + r.remaining == |raw|
        && (r.errors == 0 <==> r.remaining == 0 && forall i :: 0 <= i < |fs| ==> KnownEvent(fs[i].eid))
  {
    hide Frames, FramesEnd, KnownEvent, LeastSync, CountUnknown;
    var s := FirstSync(raw);
    if raw != [] && s >= 0 {
      FramesAreContiguous(raw, s);
      NoneUnknown(Frames(raw, s));
    }
  }

  /** The varint behind an event's or overflow packet's id is its delta. */
  lemma DeltaOfPacket(raw: seq<byte>, o: nat, p: Packet)
    requires At(raw, o, Encode(p)) && (p.Event? || p.Overflow?)
    ensures Varint.Decode(raw, o + 3).value == p.delta
  {
    hide Encode, Varint.Decode, Varint.Encode;
    if p.Event? {
      Packets.DeltaAt(raw, o, p, p.payload);
    } else {
      Packets.DeltaAt(raw, o, p, U32(p.drops));
    }
  }

  lemma TickOfPacket(raw: seq<byte>, o: nat, p: Packet, t: nat)
    requires At(raw, o, Encode(p))
    ensures Tick(raw, Frame(o, |Encode(p)|, Eid(p)), t) == PacketTick(p, t)
  {
    hide At, Encode, SyncAt, Body, U32At, Varint.Decode;
    PacketFrame(raw, o, p);
    LengthByte(p);
    if p.Event? || p.Overflow? {
      DeltaOfPacket(raw, o, p);
    }
  }

  /** On concatenated packets the byte-level clock is the packet-level one. */
  lemma {:induction false} ClockOfPackets(raw: seq<byte>, o: nat, ps: seq<Packet>, t: nat)
    requires At(raw, o, EncodeAll(ps))
    ensures Clock(raw, FramesOf(ps, o), t) == PacketClock(ps, t)
  {
    hide Encode, Tick, PacketTick;
    if ps != [] {
      var init, last := ps[..|ps| - 1], ps[|ps| - 1];
      AtSplit(raw, o, EncodeAll(init), Encode(last));
      ClockOfPackets(raw, o, init, t);
      TickOfPacket(raw, o + |EncodeAll(init)|, last, PacketClock(init, t));
      var fs := FramesOf(ps, o);
      assert fs[..|fs| - 1] == FramesOf(init, o);
    }
  }
}
