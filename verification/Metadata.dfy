/** The format descriptor in chunks (0x303 packets), and the host's reassembly. */
module Metadata {
  import opened Bytes
  import opened Packets
  import opened Wrappers

  const CHUNK_HEADER: nat := 7
  const CHUNK_MAX: nat := 255 - CHUNK_HEADER

  /** Descriptors whose chunks can be counted in one byte. */
  type Descriptor = s: seq<byte> | 1 <= |s| <= 255 * 248 witness [0]

  function ChunkCount(d: Descriptor): (n: byte)
    ensures 1 <= n
  {
    (|d| + CHUNK_MAX - 1) / CHUNK_MAX
  }

  /** Length of the chunk at `offset`. */
  function ChunkLen(d: Descriptor, offset: nat): nat
    requires offset <= |d|
  {
    if |d| - offset > CHUNK_MAX then CHUNK_MAX else |d| - offset
  }

  /** Chunk `i` starts at `i` times the maximal chunk size. */
  function ChunkStart(i: nat): nat { CHUNK_MAX * i }

  lemma ChunkBounds(d: Descriptor, i: nat)
    requires i < ChunkCount(d)
    ensures ChunkStart(i) < |d| && 1 <= ChunkLen(d, ChunkStart(i)) <= 248
    ensures i + 1 < ChunkCount(d) ==> ChunkLen(d, ChunkStart(i)) == 248
    ensures if i + 1 == ChunkCount(d) then ChunkStart(i) + ChunkLen(d, ChunkStart(i)) == |d|
            else ChunkStart(i) + ChunkLen(d, ChunkStart(i)) == ChunkStart(i + 1)
  {
  }

  function Chunk(d: Descriptor, i: nat): ChunkData
    requires i < ChunkCount(d)
  {
    ChunkBounds(d, i);
    d[ChunkStart(i)..ChunkStart(i) + ChunkLen(d, ChunkStart(i))]
  }

  function ChunkPacket(d: Descriptor, i: nat): Packet
    requires i < ChunkCount(d)
  {
    Packet.Metadata(i, ChunkCount(d), Chunk(d, i))
  }

  /** The chunk at `offset`, as the sender cuts it. */
  lemma ChunkIs(d: Descriptor, i: nat)
    requires i < ChunkCount(d)
    ensures var offset := ChunkStart(i);
      var remaining := |d| - offset;
      var size := if remaining > CHUNK_MAX then CHUNK_MAX else remaining;
      1 <= size <= CHUNK_MAX && offset + size <= |d| && Chunk(d, i) == d[offset..offset + size]
  {
    ChunkBounds(d, i);
  }

  lemma ChunkAdvances(d: Descriptor, i: nat)
    requires i < ChunkCount(d)
    ensures i + 1 < ChunkCount(d) ==> ChunkStart(i) + |Chunk(d, i)| == ChunkStart(i + 1)
  {
    ChunkBounds(d, i);
  }

  /** Chunks 0..n of a descriptor, joined. */
  function Join(d: Descriptor, n: nat): seq<byte>
    requires n <= ChunkCount(d)
  {
    if n == 0 then [] else Join(d, n - 1) + Chunk(d, n - 1)
  }

  /** The chunks partition the descriptor. */
  lemma {:induction false} ChunksPartition(d: Descriptor, n: nat)
    requires n <= ChunkCount(d)
    ensures Join(d, n) == d[..if n == ChunkCount(d) then |d| else ChunkStart(n)]
    ensures n < ChunkCount(d) ==> ChunkStart(n) < |d|
  {
    hide ChunkCount, ChunkStart;
    if n > 0 {
      ChunksPartition(d, n - 1);
      ChunkBounds(d, n - 1);
      TakeMore(d, ChunkStart(n - 1), ChunkStart(n - 1) + ChunkLen(d, ChunkStart(n - 1)));
    }
    if n < ChunkCount(d) {
      ChunkBounds(d, n);
    }
    assert ChunkStart(0) == 0 by { StartOfFirst(); }
  }

  lemma TakeMore(d: seq<byte>, m: nat, n: nat)
    requires m <= n <= |d|
    ensures d[..m] + d[m..n] == d[..n]
  {
  }

  lemma StartOfFirst()
    ensures ChunkStart(0) == 0
  {
  }

  lemma ChunksMakeDescriptor(d: Descriptor)
    ensures Join(d, ChunkCount(d)) == d
  {
    ChunksPartition(d, ChunkCount(d));
    assert d[..|d|] == d;
  }

  // ----- The host's side -----

  /** The chunk dictionary and the chunk count last seen. */
  datatype Found = Found(chunks: map<byte, seq<byte>>, expected: Option<byte>)

  const NOTHING_FOUND := Found(map[], None)

  function Note(raw: seq<byte>, pos: nat, found: Found): Found
    requires Framed(raw, pos)
  {
    var f := FrameAt(raw, pos);
    if f.eid == METADATA_ID && f.len >= CHUNK_HEADER && CHUNK_HEADER + U16At(raw, pos + 5) <= f.len then
      Found(found.chunks[raw[pos + 3] := raw[pos + 7..pos + 7 + U16At(raw, pos + 5)]], Some(raw[pos + 4]))
    else found
  }

  /** Scan from `pos`: by packets where the length can be right, else by bytes. */
  function Collect(raw: seq<byte>, pos: nat, found: Found): Found
    decreases |raw| - pos
  {
    if pos >= |raw| then found
    else if !Framed(raw, pos) then Collect(raw, pos + 1, found)
    else Collect(raw, pos + raw[pos], Note(raw, pos, found))
  }

  function JoinFound(chunks: map<byte, seq<byte>>, n: byte): Option<seq<byte>> {
    if n == 0 then Some([])
    else
      var before := JoinFound(chunks, n - 1);
      if before.None? || n - 1 !in chunks then None else Some(before.value + chunks[n - 1])
  }

  function Reassemble(found: Found): Option<seq<byte>> {
    if found.expected.None? || |found.chunks| < found.expected.value then None
    else JoinFound(found.chunks, found.expected.value)
  }

  /** The number that goes with it. */
  function ChunksReported(found: Found): nat {
    if Reassemble(found).Some? then found.expected.value else |found.chunks|
  }

  /** `extract_inline_metadata`, up to the conversion of bytes to text: the
      descriptor and the number of chunks it has or, failing that, was found. */
  method ExtractInlineMetadata(raw: seq<byte>) returns (descriptor: Option<seq<byte>>, chunkCount: nat)
    ensures var found := Collect(raw, 0, NOTHING_FOUND);
      descriptor == Reassemble(found) && chunkCount == ChunksReported(found)
  {
    hide U16At;
    var chunks: map<byte, seq<byte>> := map[];
    var expected: Option<byte> := None;
    var pos := 0;
    while pos < |raw|
      invariant Collect(raw, pos, Found(chunks, expected)) == Collect(raw, 0, NOTHING_FOUND)
      decreases |raw| - pos
    {
      var len := raw[pos];
      if len < 4 || pos + len > |raw| {
        pos := pos + 1;
        continue;
      }
      var eid := U16At(raw, pos + 1);
      if eid == METADATA_ID {
        if len >= 7 {
          var index, count, size := raw[pos + 3], raw[pos + 4], U16At(raw, pos + 5);
          var start := pos + 7;
          var end := start + size;
          if end <= pos + len {
            chunks := chunks[index := raw[start..end]];
            expected := Some(count);
          }
        }
      }
      pos := pos + len;
    }
    if expected.None? || |chunks| < expected.value {
      return None, |chunks|;
    }
    var joined: seq<byte> := [];
    var i: byte := 0;
    while i < expected.value
      invariant i <= expected.value && JoinFound(chunks, i) == Some(joined)
    {
      if i !in chunks {
        JoinFoundNone(chunks, i + 1, expected.value);
        return None, |chunks|;
      }
      joined := joined + chunks[i];
      i := i + 1;
    }
    return Some(joined), expected.value;
  }

  lemma {:induction false} JoinFoundNone(chunks: map<byte, seq<byte>>, i: byte, n: byte)
    requires i <= n && JoinFound(chunks, i).None?
    ensures JoinFound(chunks, n).None?
    decreases n
  {
    if i < n { JoinFoundNone(chunks, i, n - 1); }
  }

  // ----- Reassembly from packets -----

  function CollectPackets(ps: seq<Packet>, found: Found): Found {
    if ps == [] then found
    else
      var before, p := CollectPackets(ps[..|ps| - 1], found), ps[|ps| - 1];
      if p.Metadata? then Found(before.chunks[p.index := p.data], Some(p.count)) else before
  }

  lemma NotePacket(raw: seq<byte>, o: nat, p: Packet, found: Found)
    requires At(raw, o, Encode(p))
    ensures Framed(raw, o) && raw[o] == |Encode(p)|
    ensures Note(raw, o, found)
         == if p.Metadata? then Found(found.chunks[p.index := p.data], Some(p.count)) else found
  {
    hide At, Encode, SyncAt, Body, U16At;
    PacketFrame(raw, o, p);
    if p.Metadata? {
      ChunkAt(raw, o, p);
    }
  }

  lemma {:induction false} CollectOfPackets(raw: seq<byte>, o: nat, ps: seq<Packet>, found: Found)
    requires At(raw, o, EncodeAll(ps))
    ensures Collect(raw, o, found) == Collect(raw, o + |EncodeAll(ps)|, CollectPackets(ps, found))
  {
    hide At, Encode, Note;
    if ps != [] {
      var init, last := ps[..|ps| - 1], ps[|ps| - 1];
      var at := o + |EncodeAll(init)|;
      AtSplit(raw, o, EncodeAll(init), Encode(last));
      CollectOfPackets(raw, o, init, found);
      NotePacket(raw, at, last, CollectPackets(init, found));
      CollectTurn(raw, at, CollectPackets(init, found));
    }
  }

  lemma CollectTurn(raw: seq<byte>, o: nat, found: Found)
    requires Framed(raw, o)
    ensures Collect(raw, o, found) == Collect(raw, o + raw[o], Note(raw, o, found))
  {
  }

  /** Every metadata packet in the list is a chunk of `d`. */
  predicate ChunksOf(ps: seq<Packet>, d: Descriptor) {
    forall i :: 0 <= i < |ps| && ps[i].Metadata? ==>
      ps[i].index < ChunkCount(d) && ps[i] == ChunkPacket(d, ps[i].index)
  }

  lemma {:induction false} CollectedChunks(ps: seq<Packet>, d: Descriptor)
    requires ChunksOf(ps, d)
    ensures var found := CollectPackets(ps, NOTHING_FOUND);
      && (forall k :: k in found.chunks ==> k < ChunkCount(d) && found.chunks[k] == Chunk(d, k))
      && (forall k: nat :: k < ChunkCount(d) ==> (k in found.chunks <==> ChunkPacket(d, k) in ps))
      && (found.chunks == map[] || found.expected == Some(ChunkCount(d)))
      && (found.expected.Some? ==> found.expected.value == ChunkCount(d))
  {
    hide Chunk, ChunkCount, ChunkPacket;
    if ps != [] {
      var init, last := ps[..|ps| - 1], ps[|ps| - 1];
      assert forall i :: 0 <= i < |init| ==> init[i] == ps[i];
      CollectedChunks(init, d);
      forall k: nat | k < ChunkCount(d)
        ensures ChunkPacket(d, k) in ps <==> ChunkPacket(d, k) in init || (last.Metadata? && last.index == k)
      {
        ChunkInSnoc(init, last, d, k);
        InitAndLast(ps);
      }
      if last.Metadata? { ChunkFields(d, last.index); }
    }
  }

  lemma ChunkInSnoc(ps: seq<Packet>, p: Packet, d: Descriptor, k: nat)
    requires k < ChunkCount(d)
    requires p.Metadata? ==> p.index < ChunkCount(d) && p == ChunkPacket(d, p.index)
    ensures ChunkPacket(d, k) in ps + [p] <==> ChunkPacket(d, k) in ps || (p.Metadata? && p.index == k)
  {
    hide ChunkPacket, ChunkCount;
    ChunkFields(d, k);
  }

  lemma ChunkFields(d: Descriptor, k: nat)
    requires k < ChunkCount(d)
    ensures ChunkPacket(d, k) == Packet.Metadata(k, ChunkCount(d), Chunk(d, k))
  {
    hide Chunk, ChunkCount;
  }

  lemma {:induction false} JoinFoundIsJoin(chunks: map<byte, seq<byte>>, d: Descriptor, n: byte)
    requires n <= ChunkCount(d)
    requires forall k: byte :: k < n ==> k in chunks && chunks[k] == Chunk(d, k)
    ensures JoinFound(chunks, n) == Some(Join(d, n))
    decreases n
  {
    hide Chunk, ChunkCount;
    if n > 0 { JoinFoundIsJoin(chunks, d, n - 1); }
  }

  lemma {:induction false} AtLeast(keys: set<byte>, n: byte)
    requires forall k: byte :: k < n ==> k in keys
    ensures |keys| >= n
    decreases n
  {
    if n > 0 {
      AtLeast(keys - {n - 1}, n - 1);
    }
  }

  /** From the chunks of a packet list, in any order, repeated or not: `d` exactly
      when every chunk is there, otherwise nothing, and how many different ones are. */
  lemma ReassembledPackets(ps: seq<Packet>, d: Descriptor)
    requires ChunksOf(ps, d)
    ensures var found := CollectPackets(ps, NOTHING_FOUND);
      && Reassemble(found) == (if forall k: nat :: k < ChunkCount(d) ==> ChunkPacket(d, k) in ps then Some(d) else None)
      && ChunksReported(found) == |set k: byte | k < ChunkCount(d) && ChunkPacket(d, k) in ps|
  {
    hide Chunk, ChunkCount, ChunkPacket, CollectPackets;
    var found := CollectPackets(ps, NOTHING_FOUND);
    CollectedChunks(ps, d);
    var n := ChunkCount(d);
    assert found.chunks.Keys == set k: byte | k < n && ChunkPacket(d, k) in ps;
    assert |found.chunks| == |found.chunks.Keys|;
    if k: nat :| k < n && ChunkPacket(d, k) !in ps {
      if found.expected == Some(n) {
        MissingChunk(found.chunks, k, n);
      }
    } else {
      assert ChunkPacket(d, 0) in ps;
      AtLeast(found.chunks.Keys, n);
      JoinFoundIsJoin(found.chunks, d, n);
      ChunksMakeDescriptor(d);
      Exactly(found.chunks.Keys, n);
    }
  }

  lemma {:induction false} Exactly(keys: set<byte>, n: byte)
    requires forall k: byte :: k in keys <==> k < n
    ensures |keys| == n
    decreases n
  {
    if n > 0 {
      Exactly(keys - {n - 1}, n - 1);
    } else {
      assert keys == {};
    }
  }

  /** On a concatenation of packets whose metadata packets are chunks of `d`, in
      any order, repeated or not, with other packets between them, extraction
      returns `d` exactly when every chunk is there, and otherwise nothing; the
      number of chunks it found is that of the different ones. */
  lemma MetadataRoundTrip(ps: seq<Packet>, d: Descriptor)
    requires ChunksOf(ps, d)
    ensures var found := Collect(EncodeAll(ps), 0, NOTHING_FOUND);
      && Reassemble(found) == (if forall k: nat :: k < ChunkCount(d) ==> ChunkPacket(d, k) in ps then Some(d) else None)
      && ChunksReported(found) == |set k: byte | k < ChunkCount(d) && ChunkPacket(d, k) in ps|
  {
    hide EncodeAll, Chunk, ChunkCount, ChunkPacket, CollectPackets, Reassemble, ChunksReported;
    CollectConcatenation(ps);
    ReassembledPackets(ps, d);
  }

  lemma CollectConcatenation(ps: seq<Packet>)
    ensures Collect(EncodeAll(ps), 0, NOTHING_FOUND) == CollectPackets(ps, NOTHING_FOUND)
  {
    hide EncodeAll, CollectPackets;
    var raw := EncodeAll(ps);
    assert At(raw, 0, raw) by { assert raw[0..|raw|] == raw; }
    CollectOfPackets(raw, 0, ps, NOTHING_FOUND);
    assert Collect(raw, |raw|, CollectPackets(ps, NOTHING_FOUND)) == CollectPackets(ps, NOTHING_FOUND);
  }

  lemma MissingChunk(chunks: map<byte, seq<byte>>, k: nat, n: byte)
    requires k < n && k !in chunks
    ensures JoinFound(chunks, n).None?
  {
    JoinFoundNone(chunks, k + 1, n);
  }
}
