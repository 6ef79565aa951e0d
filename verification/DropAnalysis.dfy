/** `rtt_ctf_drops.py`: the decoder that resynchronises on the next sync packet
    when a length byte cannot be right. */
module DropAnalysis {
  import opened Bytes
  import opened Packets
  import opened SyncSearch
  import opened Wrappers
  import Check = CheckDecoder
  import Varint

  const HEALTH_ID: uint16 := 0x300

  /** The ids in this tool's event table; it has no entry for metadata. */
  predicate KnownEvent(eid: uint16) { Check.KnownEvent(eid) && eid != METADATA_ID }

  /** What one turn of the decoding loop consumes: a packet, with the timestamp
      after it, or the bytes up to the next sync packet. */
  datatype Item = Accepted(frame: Frame, ts: nat) | Skipped(pos: nat, bytes: nat)

  /** The timestamp after a frame. Everything that is not a complete sync packet
      counts as an event with a delta, metadata included. */
  function Tick(raw: seq<byte>, f: Frame, t: nat): nat {
    if SyncAt(raw, f.pos) then U32At(raw, f.pos + 7) else t + Check.DeltaAt(raw, f)
  }

  function Items(raw: seq<byte>, o: nat, t: nat): (items: seq<Item>)
    decreases |raw| - o
  {
    if o >= |raw| then []
    else if Framed(raw, o) then
      var f := FrameAt(raw, o);
      var now := Tick(raw, f, t);
      [Accepted(f, now)] + Items(raw, o + raw[o], now)
    else
      var next := FindSync(raw, o + 1);
      if next < 0 then [] else [Skipped(o, next - o)] + Items(raw, next, t)
  }

  /** Where the decoding loop leaves off. */
  function End(raw: seq<byte>, o: nat): nat
    decreases |raw| - o
  {
    if o >= |raw| then o
    else if Framed(raw, o) then End(raw, o + raw[o])
    else
      var next := FindSync(raw, o + 1);
      if next < 0 then o else End(raw, next)
  }

  // ----- The report -----

  datatype OverflowSeen = OverflowSeen(index: nat, pos: nat, ts: nat, drops: uint32)
  datatype HealthSeen = HealthSeen(index: nat, pos: nat, ts: nat, total: uint32, newDrops: uint32)
  datatype Resync = Resync(index: nat, pos: nat, bytes: nat)

  datatype Tally = Tally(events: nat, syncs: nat, unknown: nat,
                         overflows: seq<OverflowSeen>, health: seq<HealthSeen>, resyncs: seq<Resync>)

  /** Where the fields behind a frame's delta start. */
  function FieldsAt(raw: seq<byte>, f: Frame): nat {
    f.pos + 3 + Varint.Decode(raw, f.pos + 3).consumed
  }

  function OverflowIn(raw: seq<byte>, f: Frame, index: nat, ts: nat): (s: seq<OverflowSeen>) {
    var at := FieldsAt(raw, f);
    if f.eid == OVERFLOW_ID && at + 4 <= f.pos + f.len <= |raw|
    then [OverflowSeen(index, f.pos, ts, U32At(raw, at))] else []
  }

  function HealthIn(raw: seq<byte>, f: Frame, index: nat, ts: nat): (s: seq<HealthSeen>) {
    var at := FieldsAt(raw, f);
    if f.eid == HEALTH_ID && at + 8 <= f.pos + f.len <= |raw|
    then [HealthSeen(index, f.pos, ts, U32At(raw, at), U32At(raw, at + 4))] else []
  }

  function Add(raw: seq<byte>, n: Tally, item: Item): Tally {
    match item
    case Skipped(pos, bytes) => n.(resyncs := n.resyncs + [Resync(n.events, pos, bytes)])
    case Accepted(f, ts) =>
      if SyncAt(raw, f.pos) then n.(events := n.events + 1, syncs := n.syncs + 1)
      else n.(events := n.events + 1,
              unknown := n.unknown + (if KnownEvent(f.eid) then 0 else 1),
              overflows := n.overflows + OverflowIn(raw, f, n.events, ts),
              health := n.health + HealthIn(raw, f, n.events, ts))
  }

  const EMPTY_TALLY := Tally(0, 0, 0, [], [], [])

  function TallyOf(raw: seq<byte>, items: seq<Item>): Tally {
    if items == [] then EMPTY_TALLY else Add(raw, TallyOf(raw, items[..|items| - 1]), items[|items| - 1])
  }

  function ResyncBytes(rs: seq<Resync>): nat {
    if rs == [] then 0 else ResyncBytes(rs[..|rs| - 1]) + rs[|rs| - 1].bytes
  }

  function AcceptedBytes(items: seq<Item>): nat {
    if items == [] then 0
    else
      var last := items[|items| - 1];
      AcceptedBytes(items[..|items| - 1]) + if last.Accepted? then last.frame.len else 0
  }

  function SkippedBytes(items: seq<Item>): nat {
    if items == [] then 0
    else
      var last := items[|items| - 1];
      SkippedBytes(items[..|items| - 1]) + if last.Skipped? then last.bytes else 0
  }

  datatype Report =
    | Unsynced(total: nat)
    | Analyzed(total: nat, skipped: nat, parsed: nat, unparsed: int, tally: Tally, resyncBytes: nat)

  function ReportOf(raw: seq<byte>): Report {
    var s := FindSync(raw, 0);
    if s < 0 then Unsynced(|raw|)
    else
      var tally := TallyOf(raw, Items(raw, s, 0));
      var end := End(raw, s);
      Analyzed(|raw|, s, end, |raw| - end, tally, ResyncBytes(tally.resyncs))
  }

  /** The tool's verdict: an overflow event, a resynchronisation, or a health
      report with fresh drops. */
  predicate HasDrops(n: Tally) {
    n.overflows != [] || n.resyncs != [] || FreshSeen(n.health)
  }

  predicate FreshSeen(health: seq<HealthSeen>) { exists i :: 0 <= i < |health| && health[i].newDrops > 0 }

  // The three cases of the loop, as equations.

  lemma ItemsFramed(raw: seq<byte>, o: nat, t: nat)
    requires Framed(raw, o)
    ensures o < o + raw[o] <= |raw|
    ensures var now := Tick(raw, FrameAt(raw, o), t);
      Items(raw, o, t) == [Accepted(FrameAt(raw, o), now)] + Items(raw, o + raw[o], now)
    ensures End(raw, o) == End(raw, o + raw[o])
  {
  }

  lemma ItemsUnframed(raw: seq<byte>, o: nat, t: nat)
    requires o < |raw| && !Framed(raw, o)
    ensures var next := FindSync(raw, o + 1);
      if next < 0 then Items(raw, o, t) == [] && End(raw, o) == o
      else
        && o < next < |raw|
        && Items(raw, o, t) == [Skipped(o, next - o)] + Items(raw, next, t)
        && End(raw, o) == End(raw, next)
  {
  }

  lemma ItemsOver(raw: seq<byte>, o: nat, t: nat)
    requires o >= |raw|
    ensures Items(raw, o, t) == [] && End(raw, o) == o
  {
  }

  lemma ItemsStep(raw: seq<byte>, start: nat, done: seq<Item>, o: nat, t: nat)
    requires Framed(raw, o) && done + Items(raw, o, t) == Items(raw, start, 0)
    ensures var now := Tick(raw, FrameAt(raw, o), t);
      && done + [Accepted(FrameAt(raw, o), now)] + Items(raw, o + raw[o], now) == Items(raw, start, 0)
      && End(raw, o) == End(raw, o + raw[o])
  {
    hide Items, Tick, FrameAt, Framed;
    ItemsFramed(raw, o, t);
  }

  lemma ItemsSkip(raw: seq<byte>, start: nat, done: seq<Item>, o: nat, t: nat)
    requires o < |raw| && !Framed(raw, o) && done + Items(raw, o, t) == Items(raw, start, 0)
    ensures var next := FindSync(raw, o + 1);
      if next < 0 then done == Items(raw, start, 0) && End(raw, o) == o
      else done + [Skipped(o, next - o)] + Items(raw, next, t) == Items(raw, start, 0) && End(raw, o) == End(raw, next)
  {
    hide Items, Framed, FindSync;
    ItemsUnframed(raw, o, t);
  }

  lemma TallySnoc(raw: seq<byte>, items: seq<Item>, item: Item)
    ensures TallyOf(raw, items + [item]) == Add(raw, TallyOf(raw, items), item)
  {
    assert (items + [item])[..|items|] == items;
  }

  /** `parse_sync_packet`: absolute timestamp and clock frequency, or nothing. */
  function ParseSync(raw: seq<byte>, o: nat): Option<(uint32, uint32)> {
    if SyncAt(raw, o) then Some((U32At(raw, o + 7), U32At(raw, o + 11))) else None
  }

  method AnalyzeStream(raw: seq<byte>) returns (report: Report)
    ensures report == ReportOf(raw)
  {
    hide Items, End, TallyOf, SyncAt, KnownEvent, U16At, U32At, Varint.Decode;
    var syncPos := FindSyncScan(raw, 0);
    if syncPos < 0 {
      return Unsynced(|raw|);
    }
    var offset: nat := syncPos;
    var timestamp := 0;
    var n := EMPTY_TALLY;
    ghost var done: seq<Item> := [];
    assert TallyOf(raw, []) == EMPTY_TALLY by { TallyOfNothing(raw); }
    while offset < |raw|
      invariant syncPos <= offset <= |raw|
      invariant done + Items(raw, offset, timestamp) == Items(raw, syncPos, 0)
      invariant End(raw, offset) == End(raw, syncPos)
      invariant n == TallyOf(raw, done)
      decreases |raw| - offset
    {
      var len := raw[offset];
      if len < 4 || offset + len > |raw| {
        ItemsSkip(raw, syncPos, done, offset, timestamp);
        var next := FindSyncScan(raw, offset + 1);
        if next < 0 {
          return Analyzed(|raw|, syncPos, offset, |raw| - offset, n, ResyncBytes(n.resyncs));
        }
        n := n.(resyncs := n.resyncs + [Resync(n.events, offset, next - offset)]);
        TallySnoc(raw, done, Skipped(offset, next - offset));
        done := done + [Skipped(offset, next - offset)];
        offset := next;
        continue;
      }
      ghost var f := FrameAt(raw, offset);
      ItemsStep(raw, syncPos, done, offset, timestamp);
      TallySnoc(raw, done, Accepted(f, Tick(raw, f, timestamp)));
      done := done + [Accepted(f, Tick(raw, f, timestamp))];
      n, timestamp := TakeFrame(raw, offset, n, timestamp);
      offset := offset + len;
    }
    ItemsOver(raw, offset, timestamp);
    assert done + [] == done;
    return Analyzed(|raw|, syncPos, offset, |raw| - offset, n, ResyncBytes(n.resyncs));
  }

  lemma TallyOfNothing(raw: seq<byte>)
    ensures TallyOf(raw, []) == EMPTY_TALLY
  {
  }

  /** The part of the loop body behind the length check: classify the packet and
      note what it reports. */
  method TakeFrame(raw: seq<byte>, offset: nat, before: Tally, t: nat) returns (n: Tally, timestamp: nat)
    requires Framed(raw, offset)
    ensures var f := FrameAt(raw, offset);
      timestamp == Tick(raw, f, t) && n == Add(raw, before, Accepted(f, timestamp))
  {
    hide U32At, Varint.Decode;
    n, timestamp := before, t;
    var len := raw[offset];
    var eid := U16At(raw, offset + 1);
    if eid == SYNC_ID {
      var sync := ParseSync(raw, offset);
      if sync.Some? {
        timestamp := sync.value.0;
        n := n.(syncs := n.syncs + 1, events := n.events + 1);
        return;
      }
    }
    var delta, used := Varint.DecodeVarint(raw, offset + 3);
    timestamp := timestamp + delta;
    var at := offset + 3 + used;
    if eid == OVERFLOW_ID {
      if at + 4 <= offset + len {
        n := n.(overflows := n.overflows + [OverflowSeen(n.events, offset, timestamp, U32At(raw, at))]);
      }
    } else if eid == HEALTH_ID {
      if at + 8 <= offset + len {
        n := n.(health := n.health + [HealthSeen(n.events, offset, timestamp, U32At(raw, at), U32At(raw, at + 4))]);
      }
    }
    if !KnownEvent(eid) {
      n := n.(unknown := n.unknown + 1);
    }
    n := n.(events := n.events + 1);
  }

  // ----- Byte accounting -----

  lemma {:induction false} SumsCons(item: Item, items: seq<Item>)
    ensures AcceptedBytes([item] + items) == (if item.Accepted? then item.frame.len else 0) + AcceptedBytes(items)
    ensures SkippedBytes([item] + items) == (if item.Skipped? then item.bytes else 0) + SkippedBytes(items)
  {
    var all := [item] + items;
    if items == [] {
      assert all == [item] && all[..0] == [];
    } else {
      SumsCons(item, items[..|items| - 1]);
      assert all[..|all| - 1] == [item] + items[..|items| - 1];
    }
  }

  lemma SumsNil()
    ensures AcceptedBytes([]) == 0 && SkippedBytes([]) == 0
  {
  }

  /** What is consumed is contiguous: the loop ends at its start plus everything
      accepted plus everything skipped. */
  lemma {:induction false} ItemsAreContiguous(raw: seq<byte>, o: nat, t: nat)
    ensures End(raw, o) == o + AcceptedBytes(Items(raw, o, t)) + SkippedBytes(Items(raw, o, t))
    ensures o <= |raw| ==> End(raw, o) <= |raw|
    decreases |raw| - o
  {
    hide Items, End, Tick, FrameAt, Framed, FindSync, AcceptedBytes, SkippedBytes;
    SumsNil();
    if o >= |raw| {
      ItemsOver(raw, o, t);
    } else if Framed(raw, o) {
      ItemsFramed(raw, o, t);
      var f := FrameAt(raw, o);
      var now := Tick(raw, f, t);
      ItemsAreContiguous(raw, o + raw[o], now);
      SumsCons(Accepted(f, now), Items(raw, o + raw[o], now));
    } else {
      ItemsUnframed(raw, o, t);
      var next := FindSync(raw, o + 1);
      if next >= 0 {
        ItemsAreContiguous(raw, next, t);
        SumsCons(Skipped(o, next - o), Items(raw, next, t));
      }
    }
  }

  lemma {:induction false} ResyncBytesOfItems(raw: seq<byte>, items: seq<Item>)
    ensures ResyncBytes(TallyOf(raw, items).resyncs) == SkippedBytes(items)
  {
    hide SyncAt, OverflowIn, HealthIn, KnownEvent;
    if items != [] {
      var init, last := items[..|items| - 1], items[|items| - 1];
      ResyncBytesOfItems(raw, init);
      if last.Skipped? {
        var n := TallyOf(raw, init);
        var r := Resync(n.events, last.pos, last.bytes);
        assert (n.resyncs + [r])[..|n.resyncs|] == n.resyncs;
      }
    }
  }

  /** For arbitrary input: without a sync packet the tool reports the input's length
      and no more; otherwise every byte of the input is skipped before the first sync,
      part of an accepted packet, skipped by a resynchronisation, or left over at the
      end. */
  lemma ByteAccounting(raw: seq<byte>)
    ensures var r := ReportOf(raw);
      && r.total == |raw| && (r.Unsynced? <==> forall p: nat :: !SyncAt(raw, p))
      && (r.Analyzed? ==>
            && SyncAt(raw, r.skipped) && (forall p: nat :: p < r.skipped ==> !SyncAt(raw, p))
            && r.parsed == r.skipped + AcceptedBytes(Items(raw, r.skipped, 0)) + r.resyncBytes
            && r.unparsed == |raw| - r.parsed >= 0)
  {
    hide TallyOf, SyncAt, Items, End;
    var s := FindSync(raw, 0);
    FindSyncComplete(raw, 0);
    if s >= 0 {
      ItemsAreContiguous(raw, s, 0);
      ResyncBytesOfItems(raw, Items(raw, s, 0));
    }
  }

  // ----- Packets too short for what they should carry -----

  /** An overflow packet without room for a count, or a health report without room for
      both its numbers, is an event like any other: no drop is noted. */
  lemma ShortReportUnseen(raw: seq<byte>, o: nat, n: Tally, ts: nat)
    requires Framed(raw, o) && !SyncAt(raw, o)
    requires var f := FrameAt(raw, o);
      var room := o + raw[o] - (o + 3 + Varint.Decode(raw, o + 3).consumed);
      || (raw[o + 1] == 0x01 && raw[o + 2] == 0x03 && room < 4)
      || (raw[o + 1] == 0x00 && raw[o + 2] == 0x03 && room < 8)
    ensures Add(raw, n, Accepted(FrameAt(raw, o), ts)) == n.(events := n.events + 1)
  {
    hide SyncAt, Varint.Decode, U32At;
  }
}
