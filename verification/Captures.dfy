/** What the tools report on a capture that may end in the middle of a packet. */
module Captures {
  import opened Bytes
  import opened Packets
  import opened SyncSearch
  import opened Wrappers
  import opened Emitter
  import opened StreamShape
  import opened Delivery
  import opened PacketReports
  import Check = CheckDecoder
  import Compare = TimeCompare
  import Drops = DropAnalysis
  import Timestamps

  lemma FramesOfCapture(raw: seq<byte>, ps: seq<Packet>, j: seq<byte>, k: nat)
    requires Capture(raw, ps, j) && k <= |ps|
    ensures Offset(ps, k) <= |EncodeAll(ps)| <= |raw|
    ensures var start := Offset(ps, k);
      Frames(raw, start) == FramesOf(ps[k..], start) && FramesEnd(raw, start) == |EncodeAll(ps)|
  {
    hide Encode, EncodeAll, At, Frames, FramesOf, FramesEnd, Framed;
    CaptureStart(raw, ps, j);
    OffsetSplitAt(raw, ps, k);
    FramesOfPackets(raw, Offset(ps, k), ps[k..]);
    FramesStop(raw, |EncodeAll(ps)|);
    assert FramesOf(ps[k..], Offset(ps, k)) + [] == FramesOf(ps[k..], Offset(ps, k));
  }

  /** The scan of the validator and the comparison tool on a capture: it misses the
      first sync packet where that is the last 15 bytes. */
  lemma FirstSyncOfCapture(raw: seq<byte>, ps: seq<Packet>, j: seq<byte>)
    requires Capture(raw, ps, j) && OverflowsFirst(ps) && HasSync(ps)
    ensures var k := Preface(ps);
      && k < |ps| && |raw| == |EncodeAll(ps)| + |j| > 0
      && FirstSync(raw) == if k + 1 == |ps| && j == [] then -1 else Offset(ps, k)
  {
    hide Encode, EncodeAll, At, FindSync, FirstSync, Framed, OverflowsFirst, HasSync;
    CaptureStart(raw, ps, j);
    FirstSyncIsRealAt(raw, ps);
    FirstSyncMissesLast(raw);
    LastOffset(ps, Preface(ps));
  }

  /** A sync packet is the last packet exactly when 15 bytes are left. */
  lemma LastOffset(ps: seq<Packet>, k: nat)
    requires k < |ps| && ps[k].Sync?
    ensures Offset(ps, k) + SYNC_LEN <= |EncodeAll(ps)|
    ensures Offset(ps, k) + SYNC_LEN == |EncodeAll(ps)| <==> k + 1 == |ps|
  {
    hide Encode, EncodeAll;
    SyncInside(ps, k);
    assert ps[..|ps|] == ps;
    OffsetNext(ps, k);
    if k + 1 < |ps| {
      EncodeAllSplit(ps, k + 1);
      NotEmpty(ps[k + 1..]);
    }
  }

  lemma OffsetNext(ps: seq<Packet>, k: nat)
    requires k < |ps|
    ensures Offset(ps, k + 1) == Offset(ps, k) + |Encode(ps[k])| && (ps[k].Sync? ==> |Encode(ps[k])| == SYNC_LEN)
  {
    hide Encode, EncodeAll;
    LengthByte(ps[k]);
    TakeTake(ps, k + 1, k);
    InitAndLast(ps[..k + 1]);
    EncodeAllSnoc(ps[..k], ps[k]);
  }

  lemma NotEmpty(ps: seq<Packet>)
    requires ps != []
    ensures |EncodeAll(ps)| > 0
  {
    LengthByte(ps[|ps| - 1]);
    hide Encode;
  }

  /** The validator's whole report on a capture. A tail is one error more than the
      packets it has no name for, and is what remains. */
  lemma ValidatorOnCapture(raw: seq<byte>, ps: seq<Packet>, j: seq<byte>)
    requires Capture(raw, ps, j) && OverflowsFirst(ps) && HasSync(ps)
    ensures var k := Preface(ps);
      && k < |ps|
      && Check.ReportOf(raw) ==
         if k + 1 == |ps| && j == [] then Check.NoSync
         else
           var tail := ps[k..];
           Check.Parsed(Offset(ps, k), |tail|, Check.Syncs(tail), Check.Chunks(tail),
                        Check.Unknowns(tail) + (if j == [] then 0 else 1), |j|, Check.PacketClock(ps, 0))
  {
    hide Encode, EncodeAll, At, Frames, FramesEnd, FramesOf, Framed, FirstSync, OverflowsFirst, HasSync, Preface, Offset,
         Check.Clock, Check.PacketClock, Check.CountSyncs, Check.CountChunks, Check.CountUnknown;
    var k := Preface(ps);
    FirstSyncOfCapture(raw, ps, j);
    FramesOfCapture(raw, ps, j, k);
    CaptureStart(raw, ps, j);
    OffsetSplitAt(raw, ps, k);
    FramesOfIndex(ps[k..], Offset(ps, k));
    Check.CountsOfPackets(raw, Offset(ps, k), ps[k..]);
    Check.ClockOfPackets(raw, Offset(ps, k), ps[k..], 0);
    Timestamps.PrefaceIsSync(ps);
    Timestamps.ClockFromSync(ps, k, 0, 0);
  }

  /** The comparison tool's, on the same capture. It does not say that there is a
      tail. */
  lemma ComparisonOnCapture(raw: seq<byte>, ps: seq<Packet>, j: seq<byte>)
    requires Capture(raw, ps, j) && OverflowsFirst(ps) && HasSync(ps)
    ensures var k := Preface(ps);
      && k < |ps| && ps[k].Sync?
      && Compare.ReportOf(raw) ==
         if k + 1 == |ps| && j == [] then Compare.Report(0, None, None, 0, 0)
         else Compare.Report(|ps| - k, Some(ps[k].ts), Some(Check.PacketClock(ps, 0) + Compare.PacketDrift(ps[k..])),
                             Check.Syncs(ps[k..]), Offset(ps, k))
  {
    hide Encode, EncodeAll, At, Frames, FramesEnd, FramesOf, Framed, FirstSync, OverflowsFirst, HasSync, Preface, Offset,
         Capture, Check.PacketClock, Compare.ReportOf, Check.ReportOf, Compare.MetadataDrift, Compare.PacketDrift, U32At,
         SyncAt;
    var k := Preface(ps);
    ValidatorOnCapture(raw, ps, j);
    FirstSyncOfCapture(raw, ps, j);
    Compare.DecodersRelated(raw);
    Timestamps.PrefaceIsSync(ps);
    if !(k + 1 == |ps| && j == []) {
      DriftOnCapture(raw, ps, j, k);
      Compare.FirstIsSyncTime(raw);
      SyncTimeAt(raw, ps, j, k);
    }
  }

  lemma DriftOnCapture(raw: seq<byte>, ps: seq<Packet>, j: seq<byte>, k: nat)
    requires Capture(raw, ps, j) && k <= |ps|
    ensures Compare.MetadataDrift(raw, Frames(raw, Offset(ps, k))) == Compare.PacketDrift(ps[k..])
  {
    hide Encode, EncodeAll, At, Frames, FramesEnd, FramesOf, Framed, Offset, Capture, Compare.MetadataDrift,
         Compare.PacketDrift;
    CaptureStart(raw, ps, j);
    OffsetSplitAt(raw, ps, k);
    FramesOfCapture(raw, ps, j, k);
    Compare.DriftOfPackets(raw, Offset(ps, k), ps[k..]);
  }

  lemma SyncTimeAt(raw: seq<byte>, ps: seq<Packet>, j: seq<byte>, k: nat)
    requires Capture(raw, ps, j) && k < |ps| && ps[k].Sync?
    ensures Offset(ps, k) + SYNC_LEN <= |raw| && U32At(raw, Offset(ps, k) + 7) == ps[k].ts
  {
    hide Encode, EncodeAll, At, Capture, U32At, SyncAt, Body, Framed;
    CaptureStart(raw, ps, j);
    SyncInside(ps, k);
    PacketAt(ps, k);
    AtWithin(raw, EncodeAll(ps), Offset(ps, k), Encode(ps[k]));
    PacketFrame(raw, Offset(ps, k), ps[k]);
  }

  lemma OffsetIs(ps: seq<Packet>, k: nat)
    requires k <= |ps|
    ensures Offset(ps, k) == |EncodeAll(ps[..k])|
  {
    hide EncodeAll;
  }

  // ----- Captures of runs -----

  /** The first `c` bytes of packets: `n` whole ones and a cut-off rest. */
  predicate CutAt(ps: seq<Packet>, n: nat, c: nat) {
    n <= |ps| && Offset(ps, n) <= c <= |EncodeAll(ps)| && (n < |ps| ==> c < Offset(ps, n + 1))
  }

  lemma CutCapture(ps: seq<Packet>, n: nat, c: nat)
    requires CutAt(ps, n, c)
    ensures var raw := EncodeAll(ps);
      Capture(raw[..c], ps[..n], raw[Offset(ps, n)..c])
  {
    hide Encode, EncodeAll, Offset;
    var raw, at := EncodeAll(ps), Offset(ps, n);
    OffsetIs(ps, n);
    OffsetIs(ps, |ps|);
    assert ps[..|ps|] == ps;
    OffsetSplit(ps, n);
    SlicesJoin(raw, at, c);
    if n < |ps| && at < c {
      OffsetNext(ps, n);
      PacketAt(ps, n);
      LengthOf(raw, at, ps[n]);
      CutShort(raw, at, c);
    } else {
      NoRoom(raw[..c], at);
    }
  }

  lemma SlicesJoin(raw: seq<byte>, at: nat, c: nat)
    requires at <= c <= |raw|
    ensures raw[..c] == raw[0..at] + raw[at..c]
  {
  }

  lemma LengthOf(raw: seq<byte>, o: nat, p: Packet)
    requires At(raw, o, Encode(p))
    ensures o < |raw| && raw[o] == |Encode(p)|
  {
    PacketFrame(raw, o, p);
  }

  lemma CutShort(raw: seq<byte>, at: nat, c: nat)
    requires at < c <= |raw| && at + raw[at] > c
    ensures !Framed(raw[..c], at)
  {
  }

  lemma NoRoom(raw: seq<byte>, at: nat)
    requires at >= |raw|
    ensures !Framed(raw, at)
  {
  }

  lemma PrefixStarts(ps: seq<Packet>, n: nat)
    requires OverflowsFirst(ps) && Preface(ps) < n <= |ps|
    ensures OverflowsFirst(ps[..n]) && HasSync(ps[..n]) && Preface(ps[..n]) == Preface(ps)
    ensures Offset(ps[..n], Preface(ps)) == Offset(ps, Preface(ps))
  {
    hide EncodeAll, Preface;
    var k, qs := Preface(ps), ps[..n];
    Timestamps.PrefaceIsSync(ps);
    assert qs[k].Sync? && forall i :: 0 <= i < k ==> qs[i] == ps[i];
    TakeTake(ps, n, k);
    forall i | 0 <= i < |qs| && !qs[i].Sync? && !qs[i].Overflow?
      ensures HasSync(qs[..i])
    {
      TakeTake(ps, n, i);
      assert qs[i] == ps[i];
    }
    PrefaceUnique(qs, k);
  }

  /** Any all-or-nothing run with a sync out, captured up to any byte behind its
      first sync packet: `n` packets whole and perhaps a part of the next. The
      validator reports the whole ones, and the part as an error and as what remains.
      So does the drop analyser, as unparsed bytes, if that part holds no start of a
      sync packet. */
  lemma CaptureOfRun(r: Run, n: nat, c: nat)
    requires var log := Final(r).log; AllOrNothing(log) && Synced(log)
    requires Preface(Stream(Final(r).log)) < n && CutAt(Stream(Final(r).log), n, c)
    ensures c <= |Written(Final(r).log)|
    ensures var ps, raw := Stream(Final(r).log), Written(Final(r).log)[..c];
      var k, left := Preface(ps), c - Offset(ps, n);
      var seen := ps[..n][k..];
      && Check.ReportOf(raw) ==
         (if k + 1 == n && left == 0 then Check.NoSync
          else Check.Parsed(Offset(ps, k), n - k, Check.Syncs(seen), Check.Chunks(seen),
                            Check.Unknowns(seen) + (if left == 0 then 0 else 1), left, Check.PacketClock(ps[..n], 0)))
      && ((forall p: nat :: p > Offset(ps, n) ==> !SyncAt(raw, p))
          ==> Drops.ReportOf(raw)
              == Drops.Analyzed(c, Offset(ps, k), Offset(ps, n), left, PacketTally(seen, Offset(ps, k), 0), 0))
  {
    hide Final, Synced, Spaced, GateHeld, Anchored, ShortSinceEvent, SinceSync, AllOrNothing, Written, Stream, Encode, EncodeAll,
         Check.ReportOf, Drops.ReportOf, Check.PacketClock, PacketTally, Capture, OverflowsFirst, HasSync, Preface, SyncAt, CutAt;
    var log := Final(r).log;
    var ps := Stream(log);
    RunShaped(r);
    WrittenIsStream(log);
    StreamIsAnchored(log);
    CutBounds(ps, n, c);
    CutCapture(ps, n, c);
    PrefixStarts(ps, n);
    var raw, j := EncodeAll(ps)[..c], EncodeAll(ps)[Offset(ps, n)..c];
    ValidatorOnCapture(raw, ps[..n], j);
    OffsetIs(ps, n);
    if forall p: nat :: p > Offset(ps, n) ==> !SyncAt(raw, p) {
      ReportOnCapture(raw, ps[..n], j);
    }
  }

  lemma CutBounds(ps: seq<Packet>, n: nat, c: nat)
    requires CutAt(ps, n, c)
    ensures n <= |ps| && Offset(ps, n) <= c <= |EncodeAll(ps)|
  {
    hide EncodeAll;
  }

  /** The validator's report on a complete capture of such a run: it parses everything
      from the first sync on and its only complaints are ids it has no name for. But
      when that sync packet is the last thing in the stream its scan does not see it. */
  lemma ValidatorOnRun(r: Run)
    requires var log := Final(r).log; AllOrNothing(log) && Synced(log)
    ensures var ps := Stream(Final(r).log);
      var k := Preface(ps);
      && k < |ps|
      && Check.ReportOf(Written(Final(r).log)) ==
         if k + 1 == |ps| then Check.NoSync
         else
           var tail := ps[k..];
           Check.Parsed(Offset(ps, k), |tail|, Check.Syncs(tail), Check.Chunks(tail), Check.Unknowns(tail), 0,
                        Check.PacketClock(ps, 0))
  {
    hide Final, Synced, Spaced, GateHeld, Anchored, ShortSinceEvent, SinceSync, AllOrNothing, Written, Stream, Encode, EncodeAll,
         Check.ReportOf, Check.PacketClock, Capture, OverflowsFirst, HasSync, Preface;
    var log := Final(r).log;
    var ps := Stream(log);
    RunShaped(r);
    WrittenIsStream(log);
    StreamIsAnchored(log);
    assert Capture(Written(log), ps, []) by { NothingBehind(ps); }
    ValidatorOnCapture(Written(log), ps, []);
  }

  lemma NothingBehind(ps: seq<Packet>)
    ensures Capture(EncodeAll(ps), ps, [])
  {
    hide EncodeAll;
  }
}
