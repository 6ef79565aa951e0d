/** End to end: the host gets the format descriptor back from any run. */
module Reassembly {
  import opened Bytes
  import opened Packets
  import opened Wrappers
  import opened Metadata
  import opened Emitter
  import opened StreamShape
  import opened Delivery
  import opened Writes

  lemma ChunksOfSnoc(log: Log, a: Attempt, d: Descriptor)
    requires ChunksOf(Stream(log), d)
    requires a.packet.Metadata? ==> a.packet.index < ChunkCount(d) && a.packet == ChunkPacket(d, a.packet.index)
    ensures ChunksOf(Stream(log + [a]), d)
  {
    hide Encode, Complete, Stream, ChunkPacket, ChunkCount;
    DeliveredSnoc(log, a);
  }

  lemma {:induction false} ChunksOfFormed(log: Log, c: Config)
    requires AllFormed(log, c)
    ensures ChunksOf(Stream(log), c.descriptor)
  {
    hide Encode, Complete, Stream, ChunksOf, ChunkPacket, ChunkCount;
    if log == [] {
      NoChunksYet(c.descriptor);
    } else {
      var init, last := log[..|log| - 1], log[|log| - 1];
      assert forall i :: 0 <= i < |init| ==> init[i] == log[i];
      ChunksOfFormed(init, c);
      InitAndLast(log);
      assert Formed(last, c);
      ChunksOfSnoc(init, last, c.descriptor);
    }
  }

  lemma NoChunksYet(d: Descriptor)
    ensures ChunksOf(Stream([]), d)
  {
  }

  /** The metadata packets of any run's stream are chunks of its descriptor. */
  lemma RunKeepsChunks(r: Run)
    ensures ChunksOf(Stream(Final(r).log), r.config.descriptor)
  {
    hide Final, AllFormed, ChunksOf, Stream;
    WritesAreFormed(r);
    ChunksOfFormed(Final(r).log, r.config);
  }

  /** In every run over an all-or-nothing sink the host's extraction from the
      whole stream returns the firmware's descriptor exactly when every chunk got
      out at least once, in whichever preambles, and nothing otherwise. */
  lemma DescriptorRoundTrip(r: Run)
    requires AllOrNothing(Final(r).log)
    ensures var d, ps := r.config.descriptor, Stream(Final(r).log);
      Reassemble(Collect(Written(Final(r).log), 0, NOTHING_FOUND))
      == if forall k: nat :: k < ChunkCount(d) ==> ChunkPacket(d, k) in ps then Some(d) else None
  {
    hide Final, Encode, EncodeAll, Collect, Reassemble, ChunksOf, Stream, AllOrNothing, Written, ChunkCount,
         ChunkPacket;
    RunKeepsChunks(r);
    WrittenIsStream(Final(r).log);
    MetadataRoundTrip(Stream(Final(r).log), r.config.descriptor);
  }

  // ----- One preamble -----

  /** The history after chunks i..k have gone out whole. */
  function WithChunks(log: Log, d: Descriptor, i: nat, k: nat): Log
    requires i <= k <= ChunkCount(d)
    decreases k - i
  {
    if i == k then log
    else
      var p := ChunkPacket(d, k - 1);
      WithChunks(log, d, i, k - 1) + [Whole(p, 0, InPreamble)]
  }

  lemma WithChunksSnoc(log: Log, d: Descriptor, i: nat, k: nat)
    requires i < k <= ChunkCount(d)
    ensures WithChunks(log, d, i, k) == WithChunks(log, d, i, k - 1) + [Whole(ChunkPacket(d, k - 1), 0, InPreamble)]
  {
    hide Whole, ChunkPacket, ChunkCount;
  }

  lemma {:induction false} WithChunksCons(log: Log, d: Descriptor, i: nat, k: nat)
    requires i < k <= ChunkCount(d)
    ensures var p := ChunkPacket(d, i);
      WithChunks(log, d, i, k) == WithChunks(log + [Whole(p, 0, InPreamble)], d, i + 1, k)
    decreases k - i
  {
    hide Encode, ChunkCount, Chunk;
    if i + 1 < k {
      WithChunksCons(log, d, i, k - 1);
    }
  }

  /** A chunk loop in which chunk `k` is the first that does not fit leaves exactly
      the chunks before it whole in the stream, counts itself and all chunks behind
      it as lost in both counters, and starts dropping; one in which every chunk
      fits writes them all and changes nothing else. */
  lemma {:induction false} ChunksUpToFailure(s: State, d: Descriptor, i: nat, k: nat, rooms: seq<nat>)
    requires i <= k <= ChunkCount(d)
    requires forall j: nat :: i <= j < k ==> Fits(ChunkPacket(d, j), RoomAt(rooms, j))
    requires k < ChunkCount(d) ==> !Fits(ChunkPacket(d, k), RoomAt(rooms, k))
    ensures EmitChunks(s, d, i, rooms) ==
      var log := WithChunks(s.log, d, i, k);
      if k == ChunkCount(d) then s.(log := log)
      else
        var left := ChunkCount(d) - k;
        s.(log := log + [Attempt(ChunkPacket(d, k), 0, InPreamble, RoomAt(rooms, k))],
           dropped := WrapAdd(s.dropped, left), overflowDrops := WrapAdd(s.overflowDrops, left), dropping := true)
    decreases k - i
  {
    hide Encode, EmitChunks, ChunkCount, Chunk, WrapAdd;
    if i == k {
      if k == ChunkCount(d) {
        ChunksOver(s, d, i, rooms);
      } else {
        ChunksTurn(s, d, i, rooms);
      }
    } else {
      ChunksTurn(s, d, i, rooms);
      var s1 := Write(s, ChunkPacket(d, i), 0, InPreamble, RoomAt(rooms, i));
      ChunksUpToFailure(s1, d, i + 1, k, rooms);
      WithChunksCons(s.log, d, i, k);
    }
  }

  lemma {:induction false} ChunksDelivered(log: Log, d: Descriptor, i: nat, k: nat, j: nat)
    requires i <= j < k <= ChunkCount(d)
    ensures ChunkPacket(d, j) in Stream(WithChunks(log, d, i, k))
    decreases k - i
  {
    hide Encode, Stream, Complete, Whole, ChunkCount, Chunk;
    hide ChunkPacket, WithChunks;
    var p := ChunkPacket(d, k - 1);
    var before, last := WithChunks(log, d, i, k - 1), Whole(p, 0, InPreamble);
    WithChunksSnoc(log, d, i, k);
    DeliveredSnoc(before, last);
    WholeIs(p, 0, InPreamble);
    assert Stream(before + [last])[|Stream(before)|] == p;
    if j < k - 1 {
      ChunksDelivered(log, d, i, k - 1, j);
    }
  }

  /** One preamble with room for all of it is enough, whatever happened before. */
  lemma OnePreambleSuffices(r: Run, ts: uint32, room: nat, rooms: seq<nat>)
    requires room >= SYNC_LEN
    requires var d := r.config.descriptor; forall j: nat :: j < ChunkCount(d) ==> Fits(ChunkPacket(d, j), RoomAt(rooms, j))
    requires AllOrNothing(Final(r).log)
    ensures var r1 := r.(actions := r.actions + [Preamble(ts, room, rooms)]);
      Reassemble(Collect(Written(Final(r1).log), 0, NOTHING_FOUND)) == Some(r.config.descriptor)
  {
    hide Encode, EncodeAll, Collect, Reassemble, Stream, Written, ChunkCount, ChunkPacket, EmitChunks, Fits,
         AllOrNothing, WithChunks;
    var d := r.config.descriptor;
    var r1 := r.(actions := r.actions + [Preamble(ts, room, rooms)]);
    hide Final, EmitSync;
    FinalSnoc(r, Preamble(ts, room, rooms));
    var o := EmitSync(Final(r), r.config, ts, InPreamble, room);
    SyncFits(Final(r), r.config, ts, room);
    ChunksUpToFailure(o.state, d, 0, ChunkCount(d), rooms);
    var log := WithChunks(o.state.log, d, 0, ChunkCount(d));
    assert Final(r1).log == log;
    WithChunksWhole(o.state.log, d, ChunkCount(d));
    DescriptorRoundTrip(r1);
    forall k: nat | k < ChunkCount(d)
      ensures ChunkPacket(d, k) in Stream(log)
    {
      ChunksDelivered(o.state.log, d, 0, ChunkCount(d), k);
    }
  }

  lemma SyncFits(s: State, c: Config, ts: uint32, room: nat)
    requires room >= SYNC_LEN && AllOrNothing(s.log)
    ensures var o := EmitSync(s, c, ts, InPreamble, room); o.ok && AllOrNothing(o.state.log)
  {
    LengthByte(Sync(ts, c.freq));
    hide Encode;
  }

  lemma {:induction false} WithChunksWhole(log: Log, d: Descriptor, k: nat)
    requires k <= ChunkCount(d) && AllOrNothing(log)
    ensures AllOrNothing(WithChunks(log, d, 0, k))
    decreases k
  {
    hide Encode, Complete, Whole, ChunkCount, Chunk;
    if k > 0 {
      WithChunksWhole(log, d, k - 1);
    }
  }
}
