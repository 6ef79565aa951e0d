/** Extracting the descriptor from bytes that are not all packets: stray bytes, cut
    captures, several descriptors. */
module Extraction {
  import opened Bytes
  import opened Packets
  import opened Wrappers
  import opened Metadata
  import opened Emitter
  import opened Delivery
  import Reassembly

  // ----- Arbitrary bytes: the last chunk of an index wins -----

  datatype Seen = Seen(index: byte, count: byte, data: seq<byte>)

  /** A metadata packet whose data ends inside the packet. */
  predicate ChunkHere(raw: seq<byte>, pos: nat)
    requires Framed(raw, pos)
  {
    raw[pos + 1] == 0x03 && raw[pos + 2] == 0x03 && raw[pos] >= 7 && 7 + U16At(raw, pos + 5) <= raw[pos]
  }

  /** The chunks in the order the tool comes by them: it reads a packet where the
      length can be right and goes on behind it, and otherwise goes on one byte on. */
  function SeenFrom(raw: seq<byte>, pos: nat): seq<Seen>
    decreases |raw| - pos
  {
    if pos >= |raw| then []
    else if !Framed(raw, pos) then SeenFrom(raw, pos + 1)
    else
      (if ChunkHere(raw, pos)
       then [Seen(raw[pos + 3], raw[pos + 4], raw[pos + 7..pos + 7 + U16At(raw, pos + 5)])] else [])
      + SeenFrom(raw, pos + raw[pos])
  }

  function Noted(found: Found, s: Seen): Found { Found(found.chunks[s.index := s.data], Some(s.count)) }

  function AllNoted(found: Found, seen: seq<Seen>): Found {
    if seen == [] then found else Noted(AllNoted(found, seen[..|seen| - 1]), seen[|seen| - 1])
  }

  lemma {:induction false} AllNotedCons(found: Found, s: Seen, seen: seq<Seen>)
    ensures AllNoted(found, [s] + seen) == AllNoted(Noted(found, s), seen)
  {
    hide Noted;
    var all := [s] + seen;
    if seen == [] {
      assert all == [s] && all[..0] == [];
      assert AllNoted(found, []) == found;
    } else {
      AllNotedCons(found, s, seen[..|seen| - 1]);
      assert all[..|all| - 1] == [s] + seen[..|seen| - 1];
    }
  }

  lemma NoteIs(raw: seq<byte>, pos: nat, found: Found)
    requires Framed(raw, pos)
    ensures Note(raw, pos, found)
         == if ChunkHere(raw, pos)
            then Noted(found, Seen(raw[pos + 3], raw[pos + 4], raw[pos + 7..pos + 7 + U16At(raw, pos + 5)])) else found
  {
  }

  lemma SeenTurn(raw: seq<byte>, pos: nat)
    ensures pos >= |raw| ==> SeenFrom(raw, pos) == []
    ensures pos < |raw| && !Framed(raw, pos) ==> SeenFrom(raw, pos) == SeenFrom(raw, pos + 1)
    ensures Framed(raw, pos) ==>
      SeenFrom(raw, pos)
      == (if ChunkHere(raw, pos)
          then [Seen(raw[pos + 3], raw[pos + 4], raw[pos + 7..pos + 7 + U16At(raw, pos + 5)])] else [])
         + SeenFrom(raw, pos + raw[pos])
  {
    hide U16At;
  }

  lemma CollectSteps(raw: seq<byte>, pos: nat, found: Found)
    ensures pos >= |raw| ==> Collect(raw, pos, found) == found
    ensures pos < |raw| && !Framed(raw, pos) ==> Collect(raw, pos, found) == Collect(raw, pos + 1, found)
    ensures Framed(raw, pos) ==> Collect(raw, pos, found) == Collect(raw, pos + raw[pos], Note(raw, pos, found))
  {
    hide Note;
  }

  lemma {:induction false} CollectNotesSeen(raw: seq<byte>, pos: nat, found: Found)
    ensures Collect(raw, pos, found) == AllNoted(found, SeenFrom(raw, pos))
    decreases |raw| - pos
  {
    hide Collect, Note, SeenFrom, AllNoted, Noted, Framed, ChunkHere, U16At;
    CollectSteps(raw, pos, found);
    SeenTurn(raw, pos);
    if pos >= |raw| {
      NothingNoted(found);
    } else if Framed(raw, pos) {
      FrameFits(raw, pos);
      NoteIs(raw, pos, found);
      CollectNotesSeen(raw, pos + raw[pos], Note(raw, pos, found));
      if ChunkHere(raw, pos) {
        var s := Seen(raw[pos + 3], raw[pos + 4], raw[pos + 7..pos + 7 + U16At(raw, pos + 5)]);
        AllNotedCons(found, s, SeenFrom(raw, pos + raw[pos]));
      } else {
        assert [] + SeenFrom(raw, pos + raw[pos]) == SeenFrom(raw, pos + raw[pos]);
      }
    } else {
      CollectNotesSeen(raw, pos + 1, found);
    }
  }

  lemma FrameFits(raw: seq<byte>, pos: nat)
    requires Framed(raw, pos)
    ensures pos + 4 <= pos + raw[pos] <= |raw|
    ensures ChunkHere(raw, pos) ==> pos + 7 + U16At(raw, pos + 5) <= |raw|
  {
  }

  lemma NothingNoted(found: Found)
    ensures AllNoted(found, []) == found
  {
  }

  /** `i` is the last of the chunks with its index. */
  predicate LastOf(seen: seq<Seen>, i: nat) {
    i < |seen| && forall j :: i < j < |seen| ==> seen[j].index != seen[i].index
  }

  /** For arbitrary bytes: the dictionary holds exactly the indices of the chunks
      come by, each with the data of the last one, and the number of chunks expected is
      what the very last one said. */
  lemma LastChunkWins(raw: seq<byte>)
    ensures var found, seen := Collect(raw, 0, NOTHING_FOUND), SeenFrom(raw, 0);
      && (forall k :: k in found.chunks <==> exists i :: 0 <= i < |seen| && seen[i].index == k)
      && (forall i: nat :: LastOf(seen, i) ==> seen[i].index in found.chunks && found.chunks[seen[i].index] == seen[i].data)
      && found.expected == if seen == [] then None else Some(seen[|seen| - 1].count)
  {
    hide Collect, SeenFrom, AllNoted, LastOf;
    CollectNotesSeen(raw, 0, NOTHING_FOUND);
    LastNotedWins(SeenFrom(raw, 0));
  }

  lemma {:induction false} LastNotedWins(seen: seq<Seen>)
    ensures var found := AllNoted(NOTHING_FOUND, seen);
      && (forall k :: k in found.chunks <==> exists i :: 0 <= i < |seen| && seen[i].index == k)
      && (forall i: nat :: LastOf(seen, i) ==> seen[i].index in found.chunks && found.chunks[seen[i].index] == seen[i].data)
      && found.expected == if seen == [] then None else Some(seen[|seen| - 1].count)
  {
    hide LastOf;
    if seen != [] {
      var init, last := seen[..|seen| - 1], seen[|seen| - 1];
      LastNotedWins(init);
      var found := AllNoted(NOTHING_FOUND, seen);
      assert forall i :: 0 <= i < |init| ==> init[i] == seen[i];
      forall k
        ensures k in found.chunks <==> exists i :: 0 <= i < |seen| && seen[i].index == k
      {
        if k in AllNoted(NOTHING_FOUND, init).chunks {
          var i :| 0 <= i < |init| && init[i].index == k;
          assert seen[i].index == k;
        }
      }
      forall i: nat | i < |seen| && LastOf(seen, i)
        ensures seen[i].index in found.chunks && found.chunks[seen[i].index] == seen[i].data
      {
        LastOfInit(seen, i);
      }
      assert forall i: nat :: LastOf(seen, i) ==> i < |seen| by { LastInRange(seen); }
    } else {
      assert forall i: nat :: !LastOf(seen, i) by { NoLast(); }
    }
  }

  lemma NoLast()
    ensures forall i: nat :: !LastOf([], i)
  {
  }

  lemma LastInRange(seen: seq<Seen>)
    ensures forall i: nat :: LastOf(seen, i) ==> i < |seen|
  {
  }

  lemma LastOfInit(seen: seq<Seen>, i: nat)
    requires LastOf(seen, i)
    ensures i < |seen|
    ensures i < |seen| - 1 ==> LastOf(seen[..|seen| - 1], i) && seen[i].index != seen[|seen| - 1].index
  {
  }

  // ----- Packets with stray bytes before and between them -----

  datatype Piece = Piece(junk: seq<byte>, packets: seq<Packet>)

  function BytesOf(pieces: seq<Piece>): seq<byte> {
    if pieces == [] then []
    else
      var last := pieces[|pieces| - 1];
      BytesOf(pieces[..|pieces| - 1]) + last.junk + EncodeAll(last.packets)
  }

  function PacketsIn(pieces: seq<Piece>): seq<Packet> {
    if pieces == [] then [] else PacketsIn(pieces[..|pieces| - 1]) + pieces[|pieces| - 1].packets
  }

  /** At no stray byte a packet could start. */
  predicate Stray(raw: seq<byte>, pieces: seq<Piece>) {
    pieces == [] ||
    var init, at := pieces[..|pieces| - 1], |BytesOf(pieces[..|pieces| - 1])|;
      Stray(raw, init) && forall p :: at <= p < at + |pieces[|pieces| - 1].junk| ==> !Framed(raw, p)
  }

  lemma {:induction false} CollectSkips(raw: seq<byte>, a: nat, b: nat, found: Found)
    requires a <= b <= |raw| && forall p :: a <= p < b ==> !Framed(raw, p)
    ensures Collect(raw, a, found) == Collect(raw, b, found)
    decreases b - a
  {
    hide Collect, Framed, Note;
    if a < b {
      CollectSteps(raw, a, found);
      CollectSkips(raw, a + 1, b, found);
    }
  }

  lemma {:induction false} CollectConcat(ps: seq<Packet>, qs: seq<Packet>, found: Found)
    ensures CollectPackets(ps + qs, found) == CollectPackets(qs, CollectPackets(ps, found))
  {
    if qs == [] {
      assert ps + qs == ps;
    } else {
      ConcatInit(ps, qs);
      var init := qs[..|qs| - 1];
      CollectConcat(ps, init, found);
      TakeInit(ps + init, qs[|qs| - 1]);
    }
  }

  lemma {:induction false} CollectPieces(raw: seq<byte>, pieces: seq<Piece>, found: Found)
    requires At(raw, 0, BytesOf(pieces)) && Stray(raw, pieces)
    ensures Collect(raw, 0, found) == Collect(raw, |BytesOf(pieces)|, CollectPackets(PacketsIn(pieces), found))
  {
    hide At, Encode, EncodeAll, Collect, CollectPackets, Framed;
    if pieces == [] {
      NoPackets(found);
    } else {
      var init, last := pieces[..|pieces| - 1], pieces[|pieces| - 1];
      var at := |BytesOf(init)|;
      AtSplit(raw, 0, BytesOf(init) + last.junk, EncodeAll(last.packets));
      AtSplit(raw, 0, BytesOf(init), last.junk);
      CollectPieces(raw, init, found);
      var before := CollectPackets(PacketsIn(init), found);
      EndsInside(raw, at + |last.junk|, EncodeAll(last.packets));
      CollectSkips(raw, at, at + |last.junk|, before);
      CollectOfPackets(raw, at + |last.junk|, last.packets, before);
      CollectConcat(PacketsIn(init), last.packets, found);
    }
  }

  lemma NoPackets(found: Found)
    ensures CollectPackets([], found) == found
  {
  }

  lemma EndsInside(raw: seq<byte>, o: nat, e: seq<byte>)
    requires At(raw, o, e)
    ensures o + |e| <= |raw|
  {
  }

  /** Stray bytes make no difference, wherever they are, as long as no packet could
      start at any of them: what is collected is what the packets alone give. */
  lemma StrayBytesSkipped(pieces: seq<Piece>)
    requires Stray(BytesOf(pieces), pieces)
    ensures Collect(BytesOf(pieces), 0, NOTHING_FOUND) == Collect(EncodeAll(PacketsIn(pieces)), 0, NOTHING_FOUND)
    ensures Collect(BytesOf(pieces), 0, NOTHING_FOUND) == CollectPackets(PacketsIn(pieces), NOTHING_FOUND)
  {
    hide Collect, CollectPackets, BytesOf, PacketsIn, Stray, EncodeAll;
    var raw := BytesOf(pieces);
    assert At(raw, 0, raw) by { assert raw[0..|raw|] == raw; }
    CollectPieces(raw, pieces, NOTHING_FOUND);
    CollectSteps(raw, |raw|, CollectPackets(PacketsIn(pieces), NOTHING_FOUND));
    CollectConcatenation(PacketsIn(pieces));
  }

  /** So the round trip holds for them, too. */
  lemma StrayRoundTrip(pieces: seq<Piece>, d: Descriptor)
    requires Stray(BytesOf(pieces), pieces) && ChunksOf(PacketsIn(pieces), d)
    ensures Reassemble(Collect(BytesOf(pieces), 0, NOTHING_FOUND))
         == if forall k: nat :: k < ChunkCount(d) ==> ChunkPacket(d, k) in PacketsIn(pieces) then Some(d) else None
  {
    hide Collect, CollectPackets, BytesOf, PacketsIn, Stray, EncodeAll, Reassemble, ChunksOf, ChunkPacket, ChunkCount;
    StrayBytesSkipped(pieces);
    ReassembledPackets(PacketsIn(pieces), d);
  }

  // ----- Any part of a run's stream -----

  /** Of a run's stream over an all-or-nothing sink, a part from byte `from` to byte
      `to`, holding packets k to n whole: where no packet could start at the bytes of
      the ones cut off in front and behind, extraction returns the descriptor exactly
      when every chunk is among packets k to n. */
  lemma PartOfRun(r: Run, k: nat, n: nat, from: nat, to: nat)
    requires AllOrNothing(Final(r).log)
    requires var ps := Stream(Final(r).log);
      k <= n <= |ps| && from <= Offset(ps, k) <= Offset(ps, n) <= to <= |Written(Final(r).log)|
    requires var ps, part := Stream(Final(r).log), Written(Final(r).log)[from..to];
      && (forall p :: 0 <= p < Offset(ps, k) - from ==> !Framed(part, p))
      && (forall p :: Offset(ps, n) - from <= p < to - from ==> !Framed(part, p))
    ensures var d, ps, part := r.config.descriptor, Stream(Final(r).log), Written(Final(r).log)[from..to];
      Reassemble(Collect(part, 0, NOTHING_FOUND))
      == if forall i: nat :: i < ChunkCount(d) ==> ChunkPacket(d, i) in ps[k..n] then Some(d) else None
  {
    hide Final, AllOrNothing, Stream, Written, Encode, EncodeAll, Offset, Framed, Collect, Reassemble, ChunksOf, ChunkPacket,
         ChunkCount, BytesOf, PacketsIn, Stray;
    var log := Final(r).log;
    var ps := Stream(log);
    Reassembly.RunKeepsChunks(r);
    WrittenIsStream(log);
    ChunksOfSlice(ps, r.config.descriptor, k, n);
    PartIsPieces(ps, k, n, from, to);
    StrayRoundTrip(Pieces(ps, k, n, from, to), r.config.descriptor);
  }

  lemma ChunksOfSlice(ps: seq<Packet>, d: Descriptor, k: nat, n: nat)
    requires ChunksOf(ps, d) && k <= n <= |ps|
    ensures ChunksOf(ps[k..n], d)
  {
    hide ChunkPacket, ChunkCount;
  }

  /** The part as packets k to n with the cut-off bytes around them. */
  function Pieces(ps: seq<Packet>, k: nat, n: nat, from: nat, to: nat): seq<Piece>
    requires k <= n <= |ps| && from <= Offset(ps, k) && Offset(ps, n) <= to <= |EncodeAll(ps)|
    requires Offset(ps, k) <= Offset(ps, n)
  {
    var raw := EncodeAll(ps);
    [] + [Piece(raw[from..Offset(ps, k)], ps[k..n])] + [Piece(raw[Offset(ps, n)..to], [])]
  }

  lemma TwoPieces(a: Piece, b: Piece)
    ensures BytesOf([] + [a] + [b]) == a.junk + EncodeAll(a.packets) + b.junk + EncodeAll(b.packets)
    ensures BytesOf([] + [a]) == a.junk + EncodeAll(a.packets) && BytesOf([]) == []
    ensures PacketsIn([] + [a] + [b]) == a.packets + b.packets
  {
    hide EncodeAll, BytesOf, PacketsIn;
    PieceSnoc([] + [a], b);
    PieceSnoc([], a);
    assert [] + a.junk + EncodeAll(a.packets) == a.junk + EncodeAll(a.packets);
    assert [] + a.packets == a.packets;
  }

  lemma PieceSnoc(pieces: seq<Piece>, p: Piece)
    ensures BytesOf([]) == [] && PacketsIn([]) == []
    ensures BytesOf(pieces + [p]) == BytesOf(pieces) + p.junk + EncodeAll(p.packets)
    ensures PacketsIn(pieces + [p]) == PacketsIn(pieces) + p.packets
  {
    hide EncodeAll;
    TakeInit(pieces, p);
  }

  lemma TwoStray(raw: seq<byte>, a: Piece, b: Piece)
    requires forall p :: 0 <= p < |a.junk| ==> !Framed(raw, p)
    requires var at := |a.junk| + |EncodeAll(a.packets)|; forall p :: at <= p < at + |b.junk| ==> !Framed(raw, p)
    ensures Stray(raw, [] + [a] + [b])
  {
    hide EncodeAll, BytesOf, Framed;
    TwoPieces(a, b);
    TakeInit([] + [a], b);
    TakeInit([], a);
    assert Stray(raw, []);
    assert Stray(raw, [] + [a]);
  }

  lemma PartIsPieces(ps: seq<Packet>, k: nat, n: nat, from: nat, to: nat)
    requires k <= n <= |ps| && from <= Offset(ps, k) <= Offset(ps, n) <= to <= |EncodeAll(ps)|
    requires var part := EncodeAll(ps)[from..to];
      && (forall p :: 0 <= p < Offset(ps, k) - from ==> !Framed(part, p))
      && (forall p :: Offset(ps, n) - from <= p < to - from ==> !Framed(part, p))
    ensures var pieces := Pieces(ps, k, n, from, to);
      BytesOf(pieces) == EncodeAll(ps)[from..to] && PacketsIn(pieces) == ps[k..n] && Stray(BytesOf(pieces), pieces)
  {
    hide EncodeAll, Encode, Framed, BytesOf, PacketsIn, Stray;
    var raw := EncodeAll(ps);
    var a, b := Piece(raw[from..Offset(ps, k)], ps[k..n]), Piece(raw[Offset(ps, n)..to], []);
    MiddleBytes(ps, k, n);
    TwoPieces(a, b);
    EncodeAllNil();
    FourSlices(raw, from, Offset(ps, k), Offset(ps, n), to);
    TwoStray(raw[from..to], a, b);
  }

  lemma MiddleBytes(ps: seq<Packet>, k: nat, n: nat)
    requires k <= n <= |ps|
    ensures Offset(ps, k) <= Offset(ps, n) <= |EncodeAll(ps)|
    ensures EncodeAll(ps[k..n]) == EncodeAll(ps)[Offset(ps, k)..Offset(ps, n)]
  {
    hide EncodeAll, Encode;
    EncodeAllSplit(ps, n);
    EncodeAllSplit(ps[..n], k);
    TakeTake(ps, n, k);
  }

  lemma FourSlices(s: seq<byte>, a: nat, b: nat, c: nat, d: nat)
    requires a <= b <= c <= d <= |s|
    ensures s[a..b] + s[b..c] + s[c..d] + [] == s[a..d]
  {
  }

  // ----- More than one descriptor -----

  lemma {:induction false} CollectedOver(qs: seq<Packet>, d: Descriptor, found: Found)
    requires ChunksOf(qs, d)
    ensures var after := CollectPackets(qs, found);
      && (forall k: nat :: k < ChunkCount(d) && ChunkPacket(d, k) in qs ==> k in after.chunks && after.chunks[k] == Chunk(d, k))
      && ((exists i :: 0 <= i < |qs| && qs[i].Metadata?) ==> after.expected == Some(ChunkCount(d)))
  {
    hide Chunk, ChunkCount, ChunkPacket;
    if qs != [] {
      var init, last := qs[..|qs| - 1], qs[|qs| - 1];
      assert forall i :: 0 <= i < |init| ==> init[i] == qs[i];
      CollectedOver(init, d, found);
      if last.Metadata? { ChunkFields(d, last.index); }
      forall k: nat | k < ChunkCount(d) && ChunkPacket(d, k) in qs
        ensures ChunkPacket(d, k) in init || (last.Metadata? && last.index == k)
      {
        ChunkInSnoc(init, last, d, k);
        InitAndLast(qs);
      }
    }
  }

  /** Whatever came before, chunks of other descriptors included: once every chunk of
      `d` came again, behind all others, extraction returns `d`. */
  lemma LastDescriptorWins(ps: seq<Packet>, qs: seq<Packet>, d: Descriptor)
    requires ChunksOf(qs, d) && forall k: nat :: k < ChunkCount(d) ==> ChunkPacket(d, k) in qs
    ensures Reassemble(Collect(EncodeAll(ps + qs), 0, NOTHING_FOUND)) == Some(d)
  {
    hide EncodeAll, Chunk, ChunkCount, ChunkPacket, Collect, CollectPackets, ChunksOf;
    CollectConcatenation(ps + qs);
    CollectConcat(ps, qs, NOTHING_FOUND);
    CollectedOver(qs, d, CollectPackets(ps, NOTHING_FOUND));
    var found := CollectPackets(ps + qs, NOTHING_FOUND);
    assert ChunkPacket(d, 0) in qs;
    var i :| 0 <= i < |qs| && qs[i] == ChunkPacket(d, 0);
    ChunkFields(d, 0);
    assert qs[i].Metadata?;
    AtLeast(found.chunks.Keys, ChunkCount(d));
    JoinFoundIsJoin(found.chunks, d, ChunkCount(d));
    ChunksMakeDescriptor(d);
  }
}
