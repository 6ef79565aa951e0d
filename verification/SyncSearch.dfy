/** Scanning for a sync packet from any byte position. */
module SyncSearch {
  import opened Bytes
  import opened Packets

  /** The least position in start..end where a sync packet starts, or -1. */
  function LeastSync(raw: seq<byte>, start: nat, end: int): (p: int)
    ensures p == -1 || (start <= p < end && SyncAt(raw, p))
    ensures forall q :: start <= q < (if p == -1 then end else p) ==> !SyncAt(raw, q)
    decreases end - start
  {
    if start >= end then -1
    else if SyncAt(raw, start) then start
    else LeastSync(raw, start + 1, end)
  }

  /** `find_sync`: every position from which a whole sync packet still fits. */
  function FindSync(raw: seq<byte>, start: nat): int {
    LeastSync(raw, start, |raw| - SYNC_LEN + 1)
  }

  /** The scan `validate_data_stream` and `parse_events` start with. Its range
      leaves out the last position a sync packet fits at. */
  function FirstSync(raw: seq<byte>): int {
    LeastSync(raw, 0, |raw| - SYNC_LEN)
  }

  /** Whatever has the two defining properties of the least match is the match. */
  lemma LeastSyncUnique(raw: seq<byte>, start: nat, end: int, p: nat)
    requires start <= p < end && SyncAt(raw, p)
    requires forall q :: start <= q < p ==> !SyncAt(raw, q)
    ensures LeastSync(raw, start, end) == p
  {
  }

  /** `find_sync` misses nothing: -1 means no sync packet at all from `start` on. */
  lemma FindSyncComplete(raw: seq<byte>, start: nat)
    ensures FindSync(raw, start) == -1 <==> forall q: nat :: q >= start ==> !SyncAt(raw, q)
  {
  }

  /** The two scans agree except on a stream whose first sync packet is also its
      last 15 bytes: there only `find_sync` sees it. */
  lemma FirstSyncMissesLast(raw: seq<byte>)
    ensures FirstSync(raw) == if FindSync(raw, 0) == |raw| - SYNC_LEN then -1 else FindSync(raw, 0)
  {
    var p := FindSync(raw, 0);
    if p >= 0 && p < |raw| - SYNC_LEN {
      LeastSyncUnique(raw, 0, |raw| - SYNC_LEN, p);
    }
  }

  /** A capture that is one sync packet and nothing else. */
  lemma LoneSyncIsMissed(ts: uint32, freq: uint32)
    ensures var raw := Encode(Sync(ts, freq));
      FindSync(raw, 0) == 0 && FirstSync(raw) == -1
  {
    var raw := Encode(Sync(ts, freq));
    LengthByte(Sync(ts, freq));
    assert raw[0..|raw|] == raw;
    PacketFrame(raw, 0, Sync(ts, freq));
    hide Encode, SyncAt;
  }

  lemma MagicBytes(raw: seq<byte>, i: nat)
    requires i + 4 <= |raw|
    ensures U32At(raw, i) == SYNC_MAGIC
      <==> raw[i] == 0x01 && raw[i + 1] == 0x00 && raw[i + 2] == 0xBD && raw[i + 3] == 0xE3
  {
  }

  /** Scanning a buffer with its first `c` bytes gone. */
  lemma {:induction false} LeastSyncShift(raw: seq<byte>, c: nat, start: nat, end: int)
    requires c <= |raw|
    ensures var p := LeastSync(raw, c + start, c + end);
      LeastSync(raw[c..], start, end) == if p == -1 then -1 else p - c
    decreases end - start
  {
    if start < end {
      SyncAtShift(raw, c, start);
      hide SyncAt;
      LeastSyncShift(raw, c, start + 1, end);
    }
  }

  lemma SyncAtShift(raw: seq<byte>, c: nat, p: nat)
    requires c <= |raw|
    ensures SyncAt(raw[c..], p) <==> SyncAt(raw, c + p)
  {
    if p + SYNC_LEN <= |raw| - c {
      assert raw[c..][p..p + SYNC_LEN] == raw[c + p..c + p + SYNC_LEN];
      assert forall i {:trigger raw[c..][i]} :: p <= i < p + SYNC_LEN ==> raw[c..][i] == raw[c + i];
    }
  }

  method FindSyncScan(raw: seq<byte>, start: nat) returns (found: int)
    ensures found == FindSync(raw, start)
    ensures found == -1 || (found >= start && SyncAt(raw, found))
    ensures forall q: nat :: start <= q && (found == -1 || q < found) ==> !SyncAt(raw, q)
  {
    var end := |raw| - SYNC_LEN;
    var pos := start;
    while pos <= end
      invariant start <= pos
      invariant forall q :: start <= q < pos ==> !SyncAt(raw, q)
      decreases end - pos
    {
      if raw[pos + 3] == 0x01 && raw[pos + 4] == 0x00 && raw[pos + 5] == 0xBD && raw[pos + 6] == 0xE3 {
        var len, eid := raw[pos], U16At(raw, pos + 1);
        MagicBytes(raw, pos + 3);
        if len == SYNC_LEN && eid == SYNC_ID {
          LeastSyncUnique(raw, start, end + 1, pos);
          return pos;
        }
      }
      MagicBytes(raw, pos + 3);
      pos := pos + 1;
    }
    return -1;
  }

  method FirstSyncScan(raw: seq<byte>) returns (found: int)
    ensures found == FirstSync(raw)
  {
    var end := |raw| - SYNC_LEN;
    var pos := 0;
    while pos < end
      invariant forall q :: 0 <= q < pos ==> !SyncAt(raw, q)
      decreases end - pos
    {
      if raw[pos] == SYNC_LEN {
        if U16At(raw, pos + 1) == SYNC_ID && U32At(raw, pos + 3) == SYNC_MAGIC {
          LeastSyncUnique(raw, 0, end, pos);
          return pos;
        }
      }
      pos := pos + 1;
    }
    return -1;
  }
}
