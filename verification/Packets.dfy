/** The packets the firmware writes, their bytes, and the framing rule every
    host tool applies: a length byte, then a 16-bit event id. */
module Packets {
  import opened Bytes
  import Varint

  const OVERFLOW_ID: uint16 := 0x301
  const SYNC_ID: uint16 := 0x302
  const METADATA_ID: uint16 := 0x303
  const SYNC_MAGIC: uint32 := 0xE3BD_0001
  const SYNC_LEN: nat := 15

  /** Event ids of ordinary events: everything but overflow, sync and metadata. */
  type OrdinaryId = x: uint16 | x < 0x301 || x > 0x303

  /** What fits behind the largest event header (1 + 2 + 5 bytes) in a packet
      whose length is one byte. */
  type Payload = s: seq<byte> | |s| <= 247

  /** What fits behind a metadata chunk's 7 header bytes. */
  type ChunkData = s: seq<byte> | 1 <= |s| <= 248 witness [0]

  datatype Packet =
    | Event(eid: OrdinaryId, delta: uint32, payload: Payload)
    | Overflow(delta: uint32, drops: uint32)
    | Sync(ts: uint32, freq: uint32)
    | Metadata(index: byte, count: byte, data: ChunkData)

  function Eid(p: Packet): uint16 {
    match p
    case Event(eid, _, _) => eid
    case Overflow(_, _) => OVERFLOW_ID
    case Sync(_, _) => SYNC_ID
    case Metadata(_, _, _) => METADATA_ID
  }

  /** Everything behind the event id. */
  function Body(p: Packet): seq<byte> {
    match p
    case Event(_, delta, payload) => Varint.Encode(delta) + payload
    case Overflow(delta, drops) => Varint.Encode(delta) + U32(drops)
    case Sync(ts, freq) => U32(SYNC_MAGIC) + U32(ts) + U32(freq)
    case Metadata(index, count, data) => [index, count] + U16(|data|) + data
  }

  /** Packet bytes; the length byte is the low byte of the true size. */
  function Encode(p: Packet): (s: seq<byte>) {
    var rest := U16(Eid(p)) + Body(p);
    [(1 + |rest|) % 0x100] + rest
  }

  function EncodeAll(ps: seq<Packet>): seq<byte> {
    if ps == [] then [] else EncodeAll(ps[..|ps| - 1]) + Encode(ps[|ps| - 1])
  }

  /** The length byte never wraps: it is the true size, between 4 and 255. */
  lemma LengthByte(p: Packet)
    ensures 4 <= |Encode(p)| <= 255 && Encode(p)[0] == |Encode(p)|
    ensures p.Sync? ==> |Encode(p)| == SYNC_LEN
    ensures p.Overflow? ==> 8 <= |Encode(p)| <= 12
    ensures p.Metadata? ==> |Encode(p)| == 7 + |p.data|
  {
    if p.Event? || p.Overflow? {
      Varint.EncodeAtMost5(p.delta);
    }
  }

  lemma EncodeAllSnoc(ps: seq<Packet>, p: Packet)
    ensures EncodeAll(ps + [p]) == EncodeAll(ps) + Encode(p)
  {
    hide Encode;
    TakeInit(ps, p);
  }

  lemma {:induction false} EncodeAllConcat(ps: seq<Packet>, qs: seq<Packet>)
    ensures EncodeAll(ps + qs) == EncodeAll(ps) + EncodeAll(qs)
  {
    hide Encode, EncodeAll;
    EncodeAllNil();
    if qs == [] {
      assert ps + qs == ps;
    } else {
      var init, last := qs[..|qs| - 1], qs[|qs| - 1];
      ConcatInit(ps, qs);
      InitAndLast(qs);
      calc {
        EncodeAll(ps + qs);
        { EncodeAllSnoc(ps + init, last); }
        EncodeAll(ps + init) + Encode(last);
        { EncodeAllConcat(ps, init); }
        EncodeAll(ps) + EncodeAll(init) + Encode(last);
        EncodeAll(ps) + (EncodeAll(init) + Encode(last));
        { EncodeAllSnoc(init, last); }
        EncodeAll(ps) + EncodeAll(qs);
      }
    }
  }

  lemma EncodeAllNil()
    ensures EncodeAll([]) == []
  {
  }

  lemma EncodeAllSplit(ps: seq<Packet>, k: nat)
    requires k <= |ps|
    ensures EncodeAll(ps) == EncodeAll(ps[..k]) + EncodeAll(ps[k..])
  {
    assert ps == ps[..k] + ps[k..];
    EncodeAllConcat(ps[..k], ps[k..]);
  }

  /** The four bytes of a 32-bit field, least significant first. */
  function Bytes4(x: uint32): (s: seq<byte>)
    ensures |s| == 4
  {
    [x % 0x100, x / 0x100 % 0x100, x / 0x1_0000 % 0x100, x / 0x100_0000]
  }

  lemma Bytes4IsU32(x: uint32)
    ensures U32(x) == Bytes4(x)
  {
  }

  /** The format of each packet kind, byte by byte. */
  lemma Layout(p: Packet)
    ensures match p
      case Sync(ts, freq) =>
        Encode(p) == [15, 0x02, 0x03, 0x01, 0x00, 0xBD, 0xE3] + Bytes4(ts) + Bytes4(freq)
      case Event(eid, delta, payload) =>
        Encode(p) == [3 + |Varint.Encode(delta)| + |payload|, eid % 0x100, eid / 0x100] + Varint.Encode(delta) + payload
      case Overflow(delta, drops) =>
        Encode(p) == [7 + |Varint.Encode(delta)|, 0x01, 0x03] + Varint.Encode(delta) + Bytes4(drops)
      case Metadata(index, count, data) =>
        Encode(p) == [7 + |data|, 0x03, 0x03, index, count, |data|, 0x00] + data
  {
    hide Encode, Varint.Encode, Bytes4, U32;
    EncodeIs(p);
    LengthByte(p);
    FixedBytes();
    match p
    case Sync(ts, freq) =>
      Bytes4IsU32(ts);
      Bytes4IsU32(freq);
      assert [15] + ([0x02, 0x03] + ([0x01, 0x00, 0xBD, 0xE3] + Bytes4(ts) + Bytes4(freq)))
          == [15, 0x02, 0x03, 0x01, 0x00, 0xBD, 0xE3] + Bytes4(ts) + Bytes4(freq);
    case Event(_, _, _) =>
    case Overflow(_, drops) => Bytes4IsU32(drops);
    case Metadata(_, _, _) =>
  }

  lemma EncodeIs(p: Packet)
    ensures Encode(p) == [|Encode(p)|] + (U16(Eid(p)) + Body(p)) && |Encode(p)| == 3 + |Body(p)|
  {
    LengthByte(p);
    hide U16, Eid, Body;
  }

  lemma FixedBytes()
    ensures U32(SYNC_MAGIC) == [0x01, 0x00, 0xBD, 0xE3] && U16(SYNC_ID) == [0x02, 0x03]
    ensures U16(OVERFLOW_ID) == [0x01, 0x03] && U16(METADATA_ID) == [0x03, 0x03]
  {
  }

  // ----- Framing -----

  datatype Frame = Frame(pos: nat, len: nat, eid: uint16)

  /** The tools' sanity check: at least a header, and no longer than the buffer. */
  predicate Framed(raw: seq<byte>, o: nat) {
    o < |raw| && raw[o] >= 4 && o + raw[o] <= |raw|
  }

  function FrameAt(raw: seq<byte>, o: nat): (f: Frame)
    requires Framed(raw, o)
    ensures f.pos == o && f.len == raw[o]
  {
    Frame(o, raw[o], U16At(raw, o + 1))
  }

  /** A sync packet starts at `p`: length 15, id 0x302, magic. */
  predicate SyncAt(raw: seq<byte>, p: nat) {
    p + SYNC_LEN <= |raw| && raw[p] == SYNC_LEN && U16At(raw, p + 1) == SYNC_ID && U32At(raw, p + 3) == SYNC_MAGIC
  }

  /** The frames read from `o` on, up to the first bad length or the end. */
  function Frames(raw: seq<byte>, o: nat): seq<Frame>
    decreases |raw| - o
  {
    if !Framed(raw, o) then [] else [FrameAt(raw, o)] + Frames(raw, o + raw[o])
  }

  /** Where reading frames from `o` on stops. */
  function FramesEnd(raw: seq<byte>, o: nat): (end: nat)
    requires o <= |raw|
    ensures o <= end <= |raw| && !Framed(raw, end)
    decreases |raw| - o
  {
    if !Framed(raw, o) then o else FramesEnd(raw, o + raw[o])
  }

  lemma FramesTurn(raw: seq<byte>, o: nat)
    requires Framed(raw, o)
    ensures o + raw[o] <= |raw|
    ensures Frames(raw, o) == [FrameAt(raw, o)] + Frames(raw, o + raw[o])
    ensures FramesEnd(raw, o) == FramesEnd(raw, o + raw[o])
  {
  }

  /** One turn of a framing loop: what is done plus what is left stays the same. */
  lemma FramesStep(raw: seq<byte>, start: nat, done: seq<Frame>, offset: nat)
    requires Framed(raw, offset) && done + Frames(raw, offset) == Frames(raw, start)
    ensures done + [FrameAt(raw, offset)] + Frames(raw, offset + raw[offset]) == Frames(raw, start)
    ensures FramesEnd(raw, offset) == FramesEnd(raw, offset + raw[offset])
  {
    hide Frames, FramesEnd, FrameAt;
    FramesTurn(raw, offset);
  }

  lemma FramesStop(raw: seq<byte>, offset: nat)
    requires offset <= |raw| && !Framed(raw, offset)
    ensures Frames(raw, offset) == [] && FramesEnd(raw, offset) == offset
  {
  }

  /** The frames of packets laid out one after the other from `o` on. */
  function FramesOf(ps: seq<Packet>, o: nat): seq<Frame> {
    if ps == [] then []
    else
      var init := ps[..|ps| - 1];
      FramesOf(init, o) + [Frame(o + |EncodeAll(init)|, |Encode(ps[|ps| - 1])|, Eid(ps[|ps| - 1]))]
  }

  lemma {:induction false} FramesOfIndex(ps: seq<Packet>, o: nat)
    ensures |FramesOf(ps, o)| == |ps|
    ensures forall i {:trigger ps[i]} :: 0 <= i < |ps| ==>
      FramesOf(ps, o)[i] == Frame(o + |EncodeAll(ps[..i])|, |Encode(ps[i])|, Eid(ps[i]))
  {
    hide Encode, EncodeAll, Eid;
    if ps != [] {
      var init := ps[..|ps| - 1];
      FramesOfIndex(init, o);
      forall i {:trigger ps[i]} | 0 <= i < |ps|
        ensures FramesOf(ps, o)[i] == Frame(o + |EncodeAll(ps[..i])|, |Encode(ps[i])|, Eid(ps[i]))
      {
        if i < |init| {
          assert init[i] == ps[i] && init[..i] == ps[..i];
        } else {
          assert ps[..i] == init;
        }
      }
    }
  }

  lemma HeaderAt(raw: seq<byte>, o: nat, p: Packet)
    requires At(raw, o, Encode(p))
    ensures At(raw, o, Encode(p)[..1]) && At(raw, o + 1, U16(Eid(p))) && At(raw, o + 3, Body(p))
    ensures |Encode(p)| == 3 + |Body(p)|
  {
    LengthByte(p);
    var len := Encode(p)[..1];
    hide Eid, Body, U16;
    assert Encode(p) == len + (U16(Eid(p)) + Body(p));
    AtSplit(raw, o, len, U16(Eid(p)) + Body(p));
    AtSplit(raw, o + 1, U16(Eid(p)), Body(p));
  }

  lemma SyncFieldsAt(raw: seq<byte>, o: nat, p: Packet)
    requires At(raw, o + 3, Body(p)) && p.Sync?
    ensures o + SYNC_LEN <= |raw|
    ensures U32At(raw, o + 3) == SYNC_MAGIC && U32At(raw, o + 7) == p.ts && U32At(raw, o + 11) == p.freq
  {
    hide U32, U32At;
    AtSplit(raw, o + 3, U32(SYNC_MAGIC) + U32(p.ts), U32(p.freq));
    AtSplit(raw, o + 3, U32(SYNC_MAGIC), U32(p.ts));
    U32RoundTrip(raw, o + 3, SYNC_MAGIC);
    U32RoundTrip(raw, o + 7, p.ts);
    U32RoundTrip(raw, o + 11, p.freq);
  }

  /** Where a packet's bytes sit, the host reads its frame, and sees a sync
      exactly when the packet is one. */
  lemma PacketFrame(raw: seq<byte>, o: nat, p: Packet)
    requires At(raw, o, Encode(p))
    ensures Framed(raw, o) && FrameAt(raw, o) == Frame(o, |Encode(p)|, Eid(p))
    ensures SyncAt(raw, o) <==> p.Sync?
    ensures At(raw, o + 3, Body(p))
    ensures p.Sync? ==> U32At(raw, o + 7) == p.ts && U32At(raw, o + 11) == p.freq
  {
    LengthByte(p);
    HeaderAt(raw, o, p);
    U16RoundTrip(raw, o + 1, Eid(p));
    assert raw[o] == raw[o..o + 1][0];
    hide Encode, Body, U16, U16At, U32At;
    if p.Sync? {
      SyncFieldsAt(raw, o, p);
    }
  }

  /** Concatenated packets are framed exactly, and framing goes on behind them. */
  lemma {:induction false} FramesOfPackets(raw: seq<byte>, o: nat, ps: seq<Packet>)
    requires At(raw, o, EncodeAll(ps))
    ensures Frames(raw, o) == FramesOf(ps, o) + Frames(raw, o + |EncodeAll(ps)|)
    ensures FramesEnd(raw, o) == FramesEnd(raw, o + |EncodeAll(ps)|)
  {
    hide Encode, EncodeAll, Eid, Frames, FramesOf, FramesEnd, FrameAt, SyncAt, At, Framed;
    Unfold(ps, o);
    if ps != [] {
      var init, last := ps[..|ps| - 1], ps[|ps| - 1];
      var at := o + |EncodeAll(init)|;
      AtSplit(raw, o, EncodeAll(init), Encode(last));
      FramesOfPackets(raw, o, init);
      PacketFrame(raw, at, last);
      FramesTurn(raw, at);
    }
  }

  /** The two recursions over a packet list, unfolded once. */
  lemma Unfold(ps: seq<Packet>, o: nat)
    ensures ps == [] ==> EncodeAll(ps) == [] && FramesOf(ps, o) == []
    ensures ps != [] ==>
      var init, last := ps[..|ps| - 1], ps[|ps| - 1];
      && EncodeAll(ps) == EncodeAll(init) + Encode(last)
      && FramesOf(ps, o) == FramesOf(init, o) + [Frame(o + |EncodeAll(init)|, |Encode(last)|, Eid(last))]
  {
    hide Encode, Eid;
  }

  // ----- Reading a frame back -----

  /** The fields the tools extract from the frame at `o`: sync and metadata
      fields at fixed places, otherwise a delta and what follows it. */
  function ReadPacket(raw: seq<byte>, o: nat): (p: Packet)
    requires Framed(raw, o)
  {
    var f := FrameAt(raw, o);
    var d := Varint.Decode(raw, o + 3);
    var after := o + 3 + d.consumed;
    if SyncAt(raw, o) then Sync(U32At(raw, o + 7), U32At(raw, o + 11))
    else if f.eid == METADATA_ID && f.len >= 8 && 1 <= U16At(raw, o + 5) <= f.len - 7 then
      Metadata(raw[o + 3], raw[o + 4], raw[o + 7..o + 7 + U16At(raw, o + 5)])
    else if f.eid == OVERFLOW_ID && after + 4 <= o + f.len then
      Overflow(d.value % TWO_32, U32At(raw, after))
    else if f.eid < 0x301 || f.eid > 0x303 then
      var end := o + f.len;
      if after <= end && end - after <= 247
      then Event(f.eid, d.value % TWO_32, raw[after..end])
      else Event(f.eid, d.value % TWO_32, [])
    else Event(0, 0, [])
  }

  /** All packets from `o` on, up to the first bad length or the end. */
  function ReadAll(raw: seq<byte>, o: nat): seq<Packet>
    decreases |raw| - o
  {
    if !Framed(raw, o) then [] else [ReadPacket(raw, o)] + ReadAll(raw, o + raw[o])
  }

  /** Where the delta of an event or overflow packet ends. */
  lemma DeltaAt(raw: seq<byte>, o: nat, p: Packet, rest: seq<byte>)
    requires At(raw, o, Encode(p)) && (p.Event? || p.Overflow?)
    requires Body(p) == Varint.Encode(p.delta) + rest
    ensures Varint.Decode(raw, o + 3) == Varint.Decoded(p.delta, |Varint.Encode(p.delta)|)
    ensures At(raw, o + 3 + |Varint.Encode(p.delta)|, rest)
    ensures |Encode(p)| == 3 + |Varint.Encode(p.delta)| + |rest|
  {
    PacketFrame(raw, o, p);
    hide SyncAt;
    AtSplit(raw, o + 3, Varint.Encode(p.delta), rest);
    Varint.DecodeEncode(raw, o + 3, p.delta);
  }

  lemma ChunkAt(raw: seq<byte>, o: nat, p: Packet)
    requires At(raw, o, Encode(p)) && p.Metadata?
    ensures |Encode(p)| == 7 + |p.data| && o + 7 + |p.data| <= |raw|
    ensures raw[o + 3] == p.index && raw[o + 4] == p.count && U16At(raw, o + 5) == |p.data|
    ensures raw[o + 7..o + 7 + |p.data|] == p.data
  {
    PacketFrame(raw, o, p);
    hide SyncAt;
    var ic := [p.index, p.count];
    AtSplit(raw, o + 3, ic + U16(|p.data|), p.data);
    AtSplit(raw, o + 3, ic, U16(|p.data|));
    U16RoundTrip(raw, o + 5, |p.data|);
    AtIndex(raw, o + 3, ic);
    assert ic[0] == p.index && ic[1] == p.count;
  }

  /** The payload is what follows the delta, up to the end of the frame. */
  lemma PayloadAt(raw: seq<byte>, o: nat, p: Packet)
    requires At(raw, o, Encode(p)) && p.Event?
    ensures var d := Varint.Decode(raw, o + 3);
      var after := o + 3 + d.consumed;
      && d.value == p.delta && after + |p.payload| == o + |Encode(p)| <= |raw|
      && raw[after..o + |Encode(p)|] == p.payload
  {
    DeltaAt(raw, o, p, p.payload);
    hide Encode, Body, Varint.Decode, Varint.Encode;
  }

  lemma ReadEvent(raw: seq<byte>, o: nat, p: Packet)
    requires At(raw, o, Encode(p)) && p.Event?
    ensures Framed(raw, o) && ReadPacket(raw, o) == p
  {
    hide At, Encode, SyncAt, Varint.Decode;
    PacketFrame(raw, o, p);
    PayloadAt(raw, o, p);
  }

  lemma ReadOverflow(raw: seq<byte>, o: nat, p: Packet)
    requires At(raw, o, Encode(p)) && p.Overflow?
    ensures Framed(raw, o) && ReadPacket(raw, o) == p
  {
    hide At, Encode, SyncAt, Varint.Decode, Varint.Encode, U32, U32At;
    PacketFrame(raw, o, p);
    DropsAt(raw, o, p);
  }

  /** The drop count is the four bytes behind the delta. */
  lemma DropsAt(raw: seq<byte>, o: nat, p: Packet)
    requires At(raw, o, Encode(p)) && p.Overflow?
    ensures var d := Varint.Decode(raw, o + 3);
      var after := o + 3 + d.consumed;
      d.value == p.delta && after + 4 == o + |Encode(p)| <= |raw| && U32At(raw, after) == p.drops
  {
    DeltaAt(raw, o, p, U32(p.drops));
    hide Encode, Body, Varint.Decode, Varint.Encode;
    U32RoundTrip(raw, o + 3 + |Varint.Encode(p.delta)|, p.drops);
  }

  lemma ReadMetadata(raw: seq<byte>, o: nat, p: Packet)
    requires At(raw, o, Encode(p)) && p.Metadata?
    ensures Framed(raw, o) && ReadPacket(raw, o) == p
  {
    PacketFrame(raw, o, p);
    ChunkAt(raw, o, p);
    hide Encode, Body, SyncAt, Varint.Decode, U32At, At;
  }

  /** One packet read back. */
  lemma ReadEncode(raw: seq<byte>, o: nat, p: Packet)
    requires At(raw, o, Encode(p))
    ensures Framed(raw, o) && ReadPacket(raw, o) == p
  {
    match p
    case Sync(_, _) => PacketFrame(raw, o, p); hide Encode, Body, U16At, U32At, Varint.Decode;
    case Event(_, delta, payload) => ReadEvent(raw, o, p);
    case Overflow(delta, drops) => ReadOverflow(raw, o, p);
    case Metadata(_, _, _) => ReadMetadata(raw, o, p);
  }

  /** The i-th packet of a concatenation sits behind the packets before it. */
  lemma {:induction false} PacketAt(ps: seq<Packet>, i: nat)
    requires i < |ps|
    ensures At(EncodeAll(ps), |EncodeAll(ps[..i])|, Encode(ps[i]))
  {
    hide Encode;
    var init, last := ps[..|ps| - 1], ps[|ps| - 1];
    if i == |init| {
      assert ps[..i] == init;
    } else {
      PacketAt(init, i);
      assert init[..i] == ps[..i];
      AtExtend(EncodeAll(init), Encode(last), |EncodeAll(ps[..i])|, Encode(ps[i]));
    }
  }

  lemma AtExtend(raw: seq<byte>, more: seq<byte>, o: nat, e: seq<byte>)
    requires At(raw, o, e)
    ensures At(raw + more, o, e)
  {
    assert (raw + more)[o..o + |e|] == raw[o..o + |e|];
  }

  lemma ReadAllTurn(raw: seq<byte>, o: nat)
    requires Framed(raw, o)
    ensures o + raw[o] <= |raw| && ReadAll(raw, o) == [ReadPacket(raw, o)] + ReadAll(raw, o + raw[o])
  {
    hide ReadPacket;
  }

  lemma {:induction false} ReadAllOfPackets(raw: seq<byte>, o: nat, ps: seq<Packet>)
    requires At(raw, o, EncodeAll(ps))
    ensures ReadAll(raw, o) == ps + ReadAll(raw, o + |EncodeAll(ps)|)
  {
    hide Encode, EncodeAll, Eid, FrameAt, SyncAt, At, Framed, ReadAll, ReadPacket;
    Unfold(ps, o);
    if ps != [] {
      var init, last := ps[..|ps| - 1], ps[|ps| - 1];
      var at := o + |EncodeAll(init)|;
      AtSplit(raw, o, EncodeAll(init), Encode(last));
      ReadAllOfPackets(raw, o, init);
      PacketFrame(raw, at, last);
      ReadEncode(raw, at, last);
      ReadAllTurn(raw, at);
      assert ps == init + [last];
    }
  }

  /** Any list of packets, concatenated, is framed and read back as itself, with
      no byte left over. */
  lemma ConcatenationRoundTrip(ps: seq<Packet>)
    ensures var raw := EncodeAll(ps);
      ReadAll(raw, 0) == ps && |Frames(raw, 0)| == |ps| && FramesEnd(raw, 0) == |raw|
  {
    hide Encode, EncodeAll, ReadPacket;
    var raw := EncodeAll(ps);
    assert raw[0..|raw|] == raw;
    ReadAllOfPackets(raw, 0, ps);
    FramesOfPackets(raw, 0, ps);
    FramesOfIndex(ps, 0);
  }
}
