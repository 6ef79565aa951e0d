/** The decoder of `rtt_ctf_time_compare.py`, and how its clock relates to the
    validator's on arbitrary bytes. */
module TimeCompare {
  import opened Bytes
  import opened Packets
  import opened SyncSearch
  import opened Wrappers
  import Check = CheckDecoder
  import Varint
  import R = Resynchronisation

  function Tick(raw: seq<byte>, f: Frame, t: nat): nat {
    if f.eid == SYNC_ID && f.len == SYNC_LEN then
      if SyncAt(raw, f.pos) then U32At(raw, f.pos + 7) else t
    else t + Check.DeltaAt(raw, f)
  }

  function Clock(raw: seq<byte>, fs: seq<Frame>, t: nat): nat {
    if fs == [] then t else Tick(raw, fs[|fs| - 1], Clock(raw, fs[..|fs| - 1], t))
  }

  lemma ClockSnoc(raw: seq<byte>, fs: seq<Frame>, f: Frame)
    ensures Clock(raw, [], 0) == 0 && Clock(raw, fs + [f], 0) == Tick(raw, f, Clock(raw, fs, 0))
    ensures (fs + [f])[..1] == if fs == [] then fs + [f] else fs[..1]
  {
    hide Tick;
    TakeInit(fs, f);
  }

  /** First and last timestamp noted after the frames `fs`. */
  predicate Noted(raw: seq<byte>, fs: seq<Frame>, first: Option<nat>, last: Option<nat>) {
    if fs == [] then first == None && last == None
    else first == Some(Clock(raw, fs[..1], 0)) && last == Some(Clock(raw, fs, 0))
  }

  lemma NotedSnoc(raw: seq<byte>, fs: seq<Frame>, f: Frame, first: Option<nat>, last: Option<nat>)
    requires Noted(raw, fs, first, last)
    ensures var now := Clock(raw, fs + [f], 0);
      Noted(raw, fs + [f], if first == None then Some(now) else first, Some(now))
  {
    hide Clock;
    ClockSnoc(raw, fs, f);
  }

  datatype Report = Report(events: nat, first: Option<nat>, last: Option<nat>, syncs: nat, resyncBytes: nat)

  function ReportOf(raw: seq<byte>): Report {
    var s := FirstSync(raw);
    if s < 0 then Report(0, None, None, 0, 0)
    else
      var fs := Frames(raw, s);
      if fs == [] then Report(0, None, None, 0, s)
      else Report(|fs|, Some(Clock(raw, fs[..1], 0)), Some(Clock(raw, fs, 0)), Check.CountSyncs(raw, fs), s)
  }

  lemma NotedNone(raw: seq<byte>)
    ensures Noted(raw, [], None, None)
  {
  }

  lemma AsReported(raw: seq<byte>, fs: seq<Frame>, first: Option<nat>, last: Option<nat>, syncs: nat, s: nat)
    requires FirstSync(raw) == s && fs == Frames(raw, s) && Noted(raw, fs, first, last) && syncs == Check.CountSyncs(raw, fs)
    ensures ReportOf(raw) == Report(|fs|, first, last, syncs, s)
  {
    hide Frames, Clock;
    Check.Empty(raw);
  }

  lemma NotSynced(raw: seq<byte>)
    requires FirstSync(raw) < 0
    ensures ReportOf(raw) == Report(0, None, None, 0, 0)
  {
  }

  method ParseEvents(raw: seq<byte>) returns (report: Report)
    ensures report == ReportOf(raw)
  {
    hide Frames, ReportOf, Check.CountSyncs, Check.Clock, Check.Tick, Clock, Noted, U16At, U32At, Varint.Decode;
    NotedNone(raw);
    var syncPos := FirstSyncScan(raw);
    if syncPos < 0 {
      assert ReportOf(raw) == Report(0, None, None, 0, 0) by { NotSynced(raw); }
      return Report(0, None, None, 0, if syncPos > 0 then syncPos else 0);
    }
    var offset: nat := syncPos;
    var events, syncs, timestamp := 0, 0, 0;
    var first: Option<nat>, last: Option<nat> := None, None;
    ghost var done: seq<Frame> := [];
    Check.Empty(raw);
    ClockSnoc(raw, [], Frame(0, 0, 0));
    while offset < |raw|
      invariant syncPos <= offset <= |raw|
      invariant done + Frames(raw, offset) == Frames(raw, syncPos)
      invariant events == |done| && syncs == Check.CountSyncs(raw, done) && timestamp == Clock(raw, done, 0)
      invariant Noted(raw, done, first, last)
      decreases |raw| - offset
    {
      var len := raw[offset];
      if len < 4 || offset + len > |raw| {
        break;
      }
      var eid := U16At(raw, offset + 1);
      ghost var f := FrameAt(raw, offset);
      FramesStep(raw, syncPos, done, offset);
      Check.Snoc(raw, done, f);
      ClockSnoc(raw, done, f);
      NotedSnoc(raw, done, f, first, last);
      if eid == SYNC_ID && len == SYNC_LEN {
        var magic := U32At(raw, offset + 3);
        if magic == SYNC_MAGIC {
          timestamp := U32At(raw, offset + 7);
          syncs := syncs + 1;
        }
      } else {
        var delta, _ := Varint.DecodeVarint(raw, offset + 3);
        timestamp := timestamp + delta;
      }
      if first == None {
        first := Some(timestamp);
      }
      last := Some(timestamp);
      events := events + 1;
      offset := offset + len;
      done := done + [f];
    }
    FramesStop(raw, offset);
    assert done + [] == done;
    AsReported(raw, done, first, last, syncs, syncPos);
    return Report(events, first, last, syncs, syncPos);
  }

  /** Sum of the values decoded from metadata frames since the last sync. */
  function MetadataDrift(raw: seq<byte>, fs: seq<Frame>): nat {
    if fs == [] then 0
    else
      var f, before := fs[|fs| - 1], MetadataDrift(raw, fs[..|fs| - 1]);
      if SyncAt(raw, f.pos) then 0
      else if f.eid == METADATA_ID then before + Check.DeltaAt(raw, f)
      else before
  }

  /** Frames as the tools read them: id and length are those of the bytes. */
  predicate FramesOk(raw: seq<byte>, fs: seq<Frame>) {
    forall i :: 0 <= i < |fs| ==> Framed(raw, fs[i].pos) && fs[i] == FrameAt(raw, fs[i].pos)
  }

  /** On any frames of any bytes the two clocks differ by exactly the drift. */
  lemma {:induction false} ClocksDiffer(raw: seq<byte>, fs: seq<Frame>, t: nat)
    requires FramesOk(raw, fs)
    ensures Clock(raw, fs, t) == Check.Clock(raw, fs, t) + MetadataDrift(raw, fs)
  {
    if fs != [] {
      var init := fs[..|fs| - 1];
      assert forall i :: 0 <= i < |init| ==> init[i] == fs[i];
      ClocksDiffer(raw, init, t);
    }
  }

  lemma {:induction false} FramesAreOk(raw: seq<byte>, o: nat)
    ensures FramesOk(raw, Frames(raw, o))
    decreases |raw| - o
  {
    if Framed(raw, o) {
      FramesAreOk(raw, o + raw[o]);
    }
  }

  /** On arbitrary bytes the two tools see the same sync position, the same
      number of events and syncs, and timestamps that differ by the drift, so
      they agree exactly when it is zero. */
  lemma DecodersRelated(raw: seq<byte>)
    ensures var c, p := Check.ReportOf(raw), ReportOf(raw);
      if !c.Parsed? then p == Report(0, None, None, 0, 0)
      else
        && p.events == c.events >= 1 && p.syncs == c.syncs && p.resyncBytes == c.syncPos && p.last.Some?
        && p.last.value == c.timestamp + MetadataDrift(raw, Frames(raw, c.syncPos))
        && (p.last.value == c.timestamp <==> MetadataDrift(raw, Frames(raw, c.syncPos)) == 0)
  {
    var s := FirstSync(raw);
    if s >= 0 {
      assert Framed(raw, s);
      FramesAreOk(raw, s);
      ClocksDiffer(raw, Frames(raw, s), 0);
    }
  }

  /** For arbitrary bytes the first timestamp the comparison tool notes is the one in
      the sync packet it starts from. */
  lemma FirstIsSyncTime(raw: seq<byte>)
    requires FirstSync(raw) >= 0
    ensures FirstSync(raw) + SYNC_LEN <= |raw|
    ensures ReportOf(raw).first == Some(U32At(raw, FirstSync(raw) + 7))
  {
    hide Frames, LeastSync, U32At, U16At, Check.CountSyncs;
    var s := FirstSync(raw);
    SyncFrame(raw, s);
    FramesTurn(raw, s);
    var fs := Frames(raw, s);
    assert fs[..1] == [] + [FrameAt(raw, s)];
    ClockSnoc(raw, [], FrameAt(raw, s));
  }

  lemma SyncFrame(raw: seq<byte>, s: nat)
    requires SyncAt(raw, s)
    ensures Framed(raw, s) && s + SYNC_LEN <= |raw|
    ensures FrameAt(raw, s) == Frame(s, SYNC_LEN, SYNC_ID)
  {
  }

  /** The same after every single frame, not only at the end. */
  lemma DecodersRelatedEverywhere(raw: seq<byte>, o: nat, i: nat)
    requires i <= |Frames(raw, o)|
    ensures var fs := Frames(raw, o)[..i];
      Clock(raw, fs, 0) == Check.Clock(raw, fs, 0) + MetadataDrift(raw, fs)
  {
    FramesAreOk(raw, o);
    ClocksDiffer(raw, Frames(raw, o)[..i], 0);
  }

  // ----- The drift on well-formed streams -----

  /** On packets: what the chunks since the last sync add up to, read as deltas. */
  function PacketDrift(ps: seq<Packet>): nat {
    if ps == [] then 0
    else
      var last, before := ps[|ps| - 1], PacketDrift(ps[..|ps| - 1]);
      if last.Sync? then 0
      else if last.Metadata? then before + Varint.Decode(Encode(last), 3).value
      else before
  }

  /** A chunk is read as a time step: its index, if that is below 128; otherwise
      the index has the continuation bit of a varint byte, and the chunk count and
      then the low byte of the chunk's size are read as further digits. */
  lemma ChunkReadAsDelta(p: Packet)
    requires p.Metadata?
    ensures Varint.Decode(Encode(p), 3).value
         == if p.index < 0x80 then p.index
            else p.index - 0x80 + 0x80 * (if p.count < 0x80 then p.count else p.count - 0x80 + 0x80 * (|p.data| % 0x80))
  {
    LengthByte(p);
    ChunkHeader(p);
    var e := Encode(p);
    hide Encode;
    var size := Varint.DecodeUpTo(e, 5, 3);
    assert size.value == |p.data| % 0x80 by {
      assert Varint.DecodeUpTo(e, 6, 2).value == 0;
    }
    assert Varint.DecodeUpTo(e, 4, 4).value == if p.count < 0x80 then p.count else p.count - 0x80 + 0x80 * size.value;
  }

  lemma ChunkHeader(p: Packet)
    requires p.Metadata?
    ensures var e := Encode(p); |e| >= 8 && e[3] == p.index && e[4] == p.count && e[5] == |p.data| && e[6] == 0
  {
  }

  /** A genuine chunk, its index below the count, is a time step of zero only if it
      is the first. */
  lemma ChunkStepIsZeroIff(p: Packet)
    requires p.Metadata? && p.index < p.count
    ensures Varint.Decode(Encode(p), 3).value >= p.index
    ensures Varint.Decode(Encode(p), 3).value == 0 <==> p.index == 0
  {
    ChunkReadAsDelta(p);
    hide Encode, Varint.Decode;
  }

  lemma DriftSnoc(raw: seq<byte>, fs: seq<Frame>, f: Frame)
    ensures MetadataDrift(raw, fs + [f])
         == if SyncAt(raw, f.pos) then 0
            else MetadataDrift(raw, fs) + if f.eid == METADATA_ID then Check.DeltaAt(raw, f) else 0
  {
    hide SyncAt, Check.DeltaAt;
    TakeInit(fs, f);
  }

  lemma PacketDriftTurn(ps: seq<Packet>)
    ensures ps == [] ==> PacketDrift(ps) == 0
    ensures ps != [] ==>
      var init, last := ps[..|ps| - 1], ps[|ps| - 1];
      PacketDrift(ps) == if last.Sync? then 0
                         else PacketDrift(init) + if last.Metadata? then Varint.Decode(Encode(last), 3).value else 0
  {
    hide Encode, Varint.Decode;
  }

  lemma DriftOfLast(raw: seq<byte>, at: nat, p: Packet, fs: seq<Frame>)
    requires At(raw, at, Encode(p))
    ensures MetadataDrift(raw, fs + [Frame(at, |Encode(p)|, Eid(p))])
         == if p.Sync? then 0
            else MetadataDrift(raw, fs) + if p.Metadata? then Varint.Decode(Encode(p), 3).value else 0
  {
    hide At, Encode, SyncAt, Varint.Decode, MetadataDrift, FrameAt, Framed;
    DriftSnoc(raw, fs, Frame(at, |Encode(p)|, Eid(p)));
    PacketFrame(raw, at, p);
    if p.Metadata? {
      R.PacketVarint(raw, at, p);
    }
  }

  lemma {:induction false} DriftOfPackets(raw: seq<byte>, o: nat, ps: seq<Packet>)
    requires At(raw, o, EncodeAll(ps))
    ensures MetadataDrift(raw, FramesOf(ps, o)) == PacketDrift(ps)
  {
    hide At, Encode, EncodeAll, FramesOf, PacketDrift, Eid, Varint.Decode;
    Unfold(ps, o);
    PacketDriftTurn(ps);
    if ps != [] {
      hide MetadataDrift;
      var init, last := ps[..|ps| - 1], ps[|ps| - 1];
      var at := o + |EncodeAll(init)|;
      AtSplit(raw, o, EncodeAll(init), Encode(last));
      DriftOfPackets(raw, o, init);
      DriftOfLast(raw, at, last, FramesOf(init, o));
    }
  }

  /** Each preamble makes this tool's clock run ahead of the validator's, until the
      next sync, by the sum of its chunk indices: on packets they agree exactly
      when no chunk but the first came since the last sync. */
  lemma {:induction false} DriftIsZeroIff(ps: seq<Packet>)
    requires forall i :: 0 <= i < |ps| && ps[i].Metadata? ==> ps[i].index < ps[i].count
    ensures PacketDrift(ps) == 0 <==> forall i :: 0 <= i < |ps| && ps[i].Metadata? && ps[i].index > 0 ==> SyncBehind(ps, i)
  {
    hide Encode, Varint.Decode;
    if ps != [] {
      var init, last := ps[..|ps| - 1], ps[|ps| - 1];
      assert forall i :: 0 <= i < |init| ==> init[i] == ps[i];
      DriftIsZeroIff(init);
      forall i | 0 <= i < |init|
        ensures SyncBehind(ps, i) <==> SyncBehind(init, i) || last.Sync?
      {
        SyncBehindSnoc(ps, i);
      }
      if last.Metadata? {
        ChunkStepIsZeroIff(last);
      }
    }
  }

  predicate SyncBehind(ps: seq<Packet>, i: nat) { exists j :: i < j < |ps| && ps[j].Sync? }

  lemma SyncBehindSnoc(ps: seq<Packet>, i: nat)
    requires i < |ps| - 1
    ensures SyncBehind(ps, i) <==> SyncBehind(ps[..|ps| - 1], i) || ps[|ps| - 1].Sync?
  {
    var init := ps[..|ps| - 1];
    assert forall j :: 0 <= j < |init| ==> init[j] == ps[j];
    if j :| i < j < |init| && init[j].Sync? {
      assert ps[j].Sync?;
    }
  }

  // ----- The drop analyser's clock -----

  /** The drop analyser, too, reads chunks as events with a delta: on packets its
      clock is ahead of the validator's by the same drift. */
  lemma {:induction false} AnalyserDrifts(ps: seq<Packet>, t: nat)
    ensures R.PacketTime(ps, t) == Check.PacketClock(ps, t) + PacketDrift(ps)
  {
    hide Encode, Varint.Decode;
    if ps != [] {
      AnalyserDrifts(ps[..|ps| - 1], t);
      if ps[|ps| - 1].Event? || ps[|ps| - 1].Overflow? {
        StepOfPacket(ps[|ps| - 1]);
      }
    }
  }

  lemma StepOfPacket(p: Packet)
    requires p.Event? || p.Overflow?
    ensures Varint.Decode(Encode(p), 3).value == p.delta
  {
    hide Encode, Varint.Decode;
    var e := Encode(p);
    assert At(e, 0, e) by { assert e[0..|e|] == e; }
    Check.DeltaOfPacket(e, 0, p);
  }
}
