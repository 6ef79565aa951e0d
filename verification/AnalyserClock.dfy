/** The timestamps the drop analyser computes, related to the validator's: on
    arbitrary bytes, and end to end on a run. */
module AnalyserClock {
  import opened Bytes
  import opened Packets
  import opened SyncSearch
  import opened Metadata
  import opened Emitter
  import opened StreamShape
  import opened Delivery
  import opened DropAnalysis
  import opened Resynchronisation
  import opened TimeCompare
  import Check = CheckDecoder
  import PacketReports
  import Reassembly
  import Timestamps
  import Varint

  // ----- Arbitrary bytes -----

  /** What the analyser's clock has in addition to the validator's since the last
      sync: the values read from metadata frames, and from frames with a sync packet's
      id and length but another magic. */
  function AnalyserDrift(raw: seq<byte>, fs: seq<Frame>): nat {
    if fs == [] then 0
    else
      var f, before := fs[|fs| - 1], AnalyserDrift(raw, fs[..|fs| - 1]);
      if SyncAt(raw, f.pos) then 0
      else if f.eid == METADATA_ID || (f.eid == SYNC_ID && f.len == SYNC_LEN) then before + Check.DeltaAt(raw, f)
      else before
  }

  /** The analyser's clock over frames. */
  function ClockOver(raw: seq<byte>, fs: seq<Frame>, t: nat): nat {
    if fs == [] then t else DropAnalysis.Tick(raw, fs[|fs| - 1], ClockOver(raw, fs[..|fs| - 1], t))
  }

  lemma {:induction false} ClockOverCons(raw: seq<byte>, f: Frame, fs: seq<Frame>, t: nat)
    ensures ClockOver(raw, [f] + fs, t) == ClockOver(raw, fs, DropAnalysis.Tick(raw, f, t))
  {
    hide DropAnalysis.Tick;
    var all := [f] + fs;
    if fs == [] {
      assert all == [f] && all[..0] == [];
      assert ClockOver(raw, [], t) == t;
    } else {
      ClockOverCons(raw, f, fs[..|fs| - 1], t);
      assert all[..|all| - 1] == [f] + fs[..|fs| - 1];
    }
  }

  lemma {:induction false} ClockOverDrifts(raw: seq<byte>, fs: seq<Frame>, t: nat)
    requires FramesOk(raw, fs)
    ensures ClockOver(raw, fs, t) == Check.Clock(raw, fs, t) + AnalyserDrift(raw, fs)
  {
    hide U32At, U16At, Check.DeltaAt;
    if fs != [] {
      var init := fs[..|fs| - 1];
      assert forall i :: 0 <= i < |init| ==> init[i] == fs[i];
      ClockOverDrifts(raw, init, t);
    }
  }

  lemma {:induction false} ItemsAreFrames(raw: seq<byte>, o: nat, t: nat, i: nat)
    requires i < |Frames(raw, o)|
    ensures i < |Items(raw, o, t)|
    ensures Items(raw, o, t)[i] == Accepted(Frames(raw, o)[i], ClockOver(raw, Frames(raw, o)[..i + 1], t))
    decreases i
  {
    hide DropAnalysis.Tick, ClockOver, Items, Frames, Framed, FrameAt;
    AtLeastOneFrame(raw, o);
    FramesTurn(raw, o);
    ItemsFramed(raw, o, t);
    var f, rest := FrameAt(raw, o), Frames(raw, o + raw[o]);
    var now := DropAnalysis.Tick(raw, f, t);
    ClockOverNil(raw, now);
    if i == 0 {
      assert ([f] + rest)[..1] == [f] + [];
      ClockOverCons(raw, f, [], t);
    } else {
      ItemsAreFrames(raw, o + raw[o], now, i - 1);
      assert ([f] + rest)[..i + 1] == [f] + rest[..i];
      ClockOverCons(raw, f, rest[..i], t);
    }
  }

  lemma AtLeastOneFrame(raw: seq<byte>, o: nat)
    ensures |Frames(raw, o)| > 0 ==> Framed(raw, o)
  {
  }

  lemma ClockOverNil(raw: seq<byte>, t: nat)
    ensures ClockOver(raw, [], t) == t
  {
  }

  /** On arbitrary bytes the analyser accepts the frames the other tools read, up to
      the first length that cannot be right, each with the validator's timestamp and
      the drift. */
  lemma AnalyserRelated(raw: seq<byte>, o: nat, i: nat)
    requires i < |Frames(raw, o)|
    ensures i < |Items(raw, o, 0)|
    ensures var fs := Frames(raw, o);
      Items(raw, o, 0)[i] == Accepted(fs[i], Check.Clock(raw, fs[..i + 1], 0) + AnalyserDrift(raw, fs[..i + 1]))
  {
    hide Items, Frames, ClockOver, AnalyserDrift, Check.Clock, Framed;
    ItemsAreFrames(raw, o, 0, i);
    FramesAreOk(raw, o);
    PrefixOk(raw, Frames(raw, o), i + 1);
    ClockOverDrifts(raw, Frames(raw, o)[..i + 1], 0);
  }

  lemma PrefixOk(raw: seq<byte>, fs: seq<Frame>, n: nat)
    requires FramesOk(raw, fs) && n <= |fs|
    ensures FramesOk(raw, fs[..n])
  {
  }

  /** A frame with a sync packet's id and length but another magic: the validator and
      the comparison tool pass over it, the analyser reads a delta from it. */
  lemma FalseSync(raw: seq<byte>, o: nat, t: nat)
    requires o + 15 <= |raw| && raw[o] == 15 && raw[o + 1] == 0x02 && raw[o + 2] == 0x03
    requires [raw[o + 3], raw[o + 4], raw[o + 5], raw[o + 6]] != [0x01, 0x00, 0xBD, 0xE3]
    ensures Framed(raw, o) && Check.Tick(raw, FrameAt(raw, o), t) == t && TimeCompare.Tick(raw, FrameAt(raw, o), t) == t
    ensures DropAnalysis.Tick(raw, FrameAt(raw, o), t) == t + Varint.Decode(raw, o + 3).value
  {
    hide Varint.Decode;
    MagicBytes(raw, o + 3);
  }

  // ----- Runs -----

  lemma {:induction false} DriftFromSync(ps: seq<Packet>, k: nat)
    requires k < |ps| && ps[k].Sync?
    ensures PacketDrift(ps) == PacketDrift(ps[k..])
  {
    hide Encode, Varint.Decode, PacketDrift;
    var init, last, tail := ps[..|ps| - 1], ps[|ps| - 1], ps[k..];
    PacketDriftTurn(ps);
    PacketDriftTurn(tail);
    assert tail[|tail| - 1] == last;
    if k < |ps| - 1 {
      assert tail[..|tail| - 1] == init[k..];
      DriftFromSync(init, k);
    }
  }

  /** The analyser's item for the i-th packet. */
  lemma ItemOfPacket(ps: seq<Packet>, i: nat)
    requires Preface(ps) <= i < |ps|
    ensures var raw, k := EncodeAll(ps), Preface(ps);
      var items := Items(raw, Offset(ps, k), 0);
      && |items| == |ps| - k && items[i - k].Accepted?
      && items[i - k].ts == Timestamps.HostTime(ps, i) + PacketDrift(ps[..i + 1])
  {
    hide Encode, EncodeAll, Items, ItemsOf, End, Offset, Preface, Timestamps.HostTime, PacketTime, PacketDrift,
         Check.PacketClock, Eid;
    var k, o := Preface(ps), Offset(ps, Preface(ps));
    var seen, tail := ps[..i + 1], ps[k..][..i - k + 1];
    PacketReports.ItemsOnPackets(ps, k);
    ItemsOfIndex(ps[k..], o, 0, i - k);
    TakeThenDrop(ps, k, i + 1);
    AnalyserDrifts(tail, 0);
    Timestamps.PrefaceIsSync(ps);
    DriftFromSync(seen, k);
    Timestamps.ClockFromSync(seen, k, 0, 0);
    Timestamps.HostClockOfPackets(ps, i);
  }

  lemma GenuineChunks(ps: seq<Packet>, d: Descriptor, n: nat)
    requires ChunksOf(ps, d) && n <= |ps|
    ensures forall i :: 0 <= i < n && ps[..n][i].Metadata? ==> ps[..n][i].index < ps[..n][i].count
  {
    hide ChunkCount, Chunk;
  }

  /** The analyser's item for the i-th packet: accepted, its time ahead of the
      validator's by the chunk values since the last sync, and equal to it exactly if
      every chunk up to there but first ones has a sync packet behind it. */
  predicate TimedItem(items: seq<Item>, ps: seq<Packet>, i: nat)
    requires Preface(ps) <= i < |ps|
  {
    var n, host := i - Preface(ps), Timestamps.HostTime(ps, i);
    && n < |items| && items[n].Accepted? && items[n].ts == host + PacketDrift(ps[..i + 1])
    && (items[n].ts == host
        <==> forall j :: 0 <= j <= i && ps[j].Metadata? && ps[j].index > 0 ==> SyncBehind(ps[..i + 1], j))
  }

  /** In every run over an all-or-nothing sink that got a sync packet out, the
      analyser accepts exactly the packets from the first sync on, with such times. */
  lemma AnalyserTimesOnRun(r: Run, i: nat)
    requires var log := Final(r).log; AllOrNothing(log) && Synced(log) && Preface(Stream(log)) <= i < |Stream(log)|
    ensures FindSync(Written(Final(r).log), 0) >= 0
    ensures var ps, raw := Stream(Final(r).log), Written(Final(r).log);
      var items := Items(raw, FindSync(raw, 0), 0);
      |items| == |ps| - Preface(ps) && TimedItem(items, ps, i)
  {
    hide Final, Synced, AllOrNothing, Stream, Written, Encode, EncodeAll, Items, Offset, Preface, Timestamps.HostTime,
         PacketDrift, FindSync, ChunksOf, SyncBehind;
    var ps := Stream(Final(r).log);
    HostFindsFirstSync(r);
    ItemOfPacket(ps, i);
    Reassembly.RunKeepsChunks(r);
    GenuineChunks(ps, r.config.descriptor, i + 1);
    DriftIsZeroIff(ps[..i + 1]);
    assert forall j :: 0 <= j <= i ==> ps[..i + 1][j] == ps[j];
  }
}
