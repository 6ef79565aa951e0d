/** Recognising host control commands in the down-channel's byte stream. */
module Control {
  import opened Bytes
  import opened Wrappers

  const CMD_BYTES: nat := 8
  const MAGIC: seq<byte> := [0x45, 0x54, 0x52, 0x43] // ETRC

  // ----- The naive scan -----

  predicate MagicAt(s: seq<byte>, i: nat) { i + 4 <= |s| && s[i..i + 4] == MAGIC }

  /** Leftmost position, from `i` on, of the magic in `s`. */
  function FindMagic(s: seq<byte>, i: nat): (r: Option<nat>)
    ensures r.Some? ==> i <= r.value && MagicAt(s, r.value)
    ensures forall q: nat :: i <= q && (r.None? || q < r.value) ==> !MagicAt(s, q)
    decreases |s| - i
  {
    if i >= |s| then None else if MagicAt(s, i) then Some(i) else FindMagic(s, i + 1)
  }

  /** Find the leftmost magic, take the 8 bytes from there, go on behind them. */
  function Commands(s: seq<byte>): seq<seq<byte>>
    decreases |s|
  {
    var m := FindMagic(s, 0);
    if m.None? || m.value + CMD_BYTES > |s| then []
    else [s[m.value..m.value + CMD_BYTES]] + Commands(s[m.value + CMD_BYTES..])
  }

  // ----- The streaming recogniser -----

  /** What `trace_control_magic_matches_prefix` decides. */
  predicate MatchesPrefix(cmd: seq<byte>) { |cmd| > 4 || cmd <= MAGIC }

  /** State and completed commands after one byte. */
  datatype Rx = Rx(buf: seq<byte>, commands: seq<seq<byte>>)

  function Feed(rx: Rx, b: byte): Rx {
    var buf := rx.buf + [b];
    if !MatchesPrefix(buf) then rx.(buf := if b == MAGIC[0] then [b] else [])
    else if |buf| < CMD_BYTES then rx.(buf := buf)
    else Rx([], rx.commands + [buf])
  }

  function FeedAll(rx: Rx, s: seq<byte>): Rx {
    if s == [] then rx else Feed(FeedAll(rx, s[..|s| - 1]), s[|s| - 1])
  }

  /** Between bytes the buffer is shorter than a command and begins with as much
      of the magic as it holds. */
  predicate Pending(buf: seq<byte>) {
    |buf| < CMD_BYTES && if |buf| <= 4 then buf <= MAGIC else buf[..4] == MAGIC
  }

  lemma EmptyIsPending(b: byte)
    ensures Pending([]) && (b == MAGIC[0] ==> Pending([b]))
  {
  }

  lemma FeedKeepsPending(rx: Rx, b: byte)
    requires Pending(rx.buf)
    ensures Pending(Feed(rx, b).buf)
  {
    var buf := rx.buf + [b];
    if |rx.buf| >= 4 {
      assert buf[..4] == rx.buf[..4];
    }
  }

  lemma {:induction false} FeedAllConcat(rx: Rx, s: seq<byte>, t: seq<byte>)
    ensures FeedAll(rx, s + t) == FeedAll(FeedAll(rx, s), t)
  {
    if t == [] {
      assert s + t == s;
    } else {
      FeedAllConcat(rx, s, t[..|t| - 1]);
      assert (s + t)[..|s + t| - 1] == s + t[..|t| - 1];
    }
  }

  lemma CommandsTurn(s: seq<byte>)
    ensures var m := FindMagic(s, 0);
      Commands(s) == if m.None? || m.value + CMD_BYTES > |s| then []
                     else [s[m.value..m.value + CMD_BYTES]] + Commands(s[m.value + CMD_BYTES..])
  {
    hide FindMagic;
  }

  lemma MagicAtShift(s: seq<byte>, n: nat, q: nat)
    requires n <= |s|
    ensures MagicAt(s[n..], q) <==> MagicAt(s, n + q)
  {
    if n + q + 4 <= |s| { SliceOfDrop(s, n, q, q + 4); }
  }

  lemma SliceOfDrop(s: seq<byte>, n: nat, from: nat, to: nat)
    requires from <= to && n + to <= |s|
    ensures s[n..][from..to] == s[n + from..n + to] && s[n..][to..] == s[n + to..]
  {
  }

  /** Where no magic starts in the first `n` bytes, the leftmost one is the
      leftmost one behind them. */
  lemma FindMagicShift(s: seq<byte>, n: nat)
    requires n <= |s| && forall q :: 0 <= q < n ==> !MagicAt(s, q)
    ensures var k := FindMagic(s[n..], 0);
      FindMagic(s, 0) == if k.Some? then Some(n + k.value) else None
  {
    hide MagicAt;
    var m, k := FindMagic(s, 0), FindMagic(s[n..], 0);
    if m.Some? { MagicAtShift(s, n, m.value - n); }
    if k.Some? { MagicAtShift(s, n, k.value); }
  }

  /** Dropping bytes in front of which no magic starts changes nothing. */
  lemma SkipNoMagic(s: seq<byte>, n: nat)
    requires n <= |s| && forall q :: 0 <= q < n ==> !MagicAt(s, q)
    ensures Commands(s) == Commands(s[n..])
  {
    hide MagicAt, FindMagic, Commands;
    FindMagicShift(s, n);
    CommandsTurn(s);
    CommandsTurn(s[n..]);
    var k := FindMagic(s[n..], 0);
    if k.Some? && n + k.value + CMD_BYTES <= |s| {
      SliceOfDrop(s, n, k.value, k.value + CMD_BYTES);
    }
  }

  lemma MagicIndex(s: seq<byte>, i: nat)
    requires MagicAt(s, i)
    ensures s[i] == MAGIC[0] && s[i + 1] == MAGIC[1] && s[i + 2] == MAGIC[2] && s[i + 3] == MAGIC[3]
  {
    assert s[i..i + 4][0] == s[i] && s[i..i + 4][1] == s[i + 1] && s[i..i + 4][2] == s[i + 2] && s[i..i + 4][3] == s[i + 3];
  }

  /** When the byte breaks the match, no magic can start in what was held: the
      magic's first byte occurs nowhere else in it. Only the byte itself may. */
  lemma MismatchHoldsNoMagic(buf: seq<byte>, b: byte, rest: seq<byte>)
    requires Pending(buf) && !MatchesPrefix(buf + [b])
    ensures var s := buf + [b] + rest;
      && (forall q :: 0 <= q < |buf| ==> !MagicAt(s, q))
      && (b != MAGIC[0] ==> !MagicAt(s, |buf|))
  {
    var s := buf + [b] + rest;
    forall q: nat | q <= |buf| && MagicAt(s, q)
      ensures q == |buf| && b == MAGIC[0]
    {
      MagicIndex(s, q);
    }
  }

  /** A whole command at the front is the first one the scan finds. */
  lemma CommandAtFront(buf: seq<byte>, rest: seq<byte>)
    requires |buf| == CMD_BYTES && buf[..4] == MAGIC
    ensures Commands(buf + rest) == [buf] + Commands(rest)
  {
    var s := buf + rest;
    assert s[0..4] == buf[..4];
    assert MagicAt(s, 0);
    assert s[0..CMD_BYTES] == buf && s[CMD_BYTES..] == rest;
  }

  /** An unfinished command is no command yet. */
  lemma PendingHasNoCommand(buf: seq<byte>)
    requires Pending(buf)
    ensures Commands(buf) == []
  {
  }

  /** Where the held bytes and those still to come are one stream, the recogniser
      adds exactly the scan's commands. */
  lemma {:induction false} FeedAllIsScan(rx: Rx, s: seq<byte>)
    requires Pending(rx.buf)
    ensures Pending(FeedAll(rx, s).buf)
    ensures FeedAll(rx, s).commands == rx.commands + Commands(rx.buf + s)
    decreases |s|
  {
    if s == [] {
      assert rx.buf + s == rx.buf;
      PendingHasNoCommand(rx.buf);
    } else {
      var b, rest := s[0], s[1..];
      var next := Feed(rx, b);
      assert s == [b] + rest;
      FeedAllConcat(rx, [b], rest);
      assert FeedAll(rx, [b]) == next by { assert [b][..0] == []; assert FeedAll(rx, []) == rx; }
      FeedKeepsPending(rx, b);
      FeedAllIsScan(next, rest);
      FeedIsScan(rx, b, rest);
    }
  }

  /** A byte that completes a command completes one that begins with the magic. */
  lemma PendingIs(buf: seq<byte>, b: byte)
    requires Pending(buf)
    ensures |buf| < CMD_BYTES && (|buf| >= 4 ==> (buf + [b])[..4] == MAGIC)
  {
    if |buf| >= 4 { assert (buf + [b])[..4] == buf[..4]; }
    if |buf| == 4 { assert buf[..4] == buf; }
  }

  lemma FeedIsScan(rx: Rx, b: byte, rest: seq<byte>)
    requires Pending(rx.buf)
    ensures Feed(rx, b).commands + Commands(Feed(rx, b).buf + rest) == rx.commands + Commands(rx.buf + ([b] + rest))
  {
    hide Commands, MagicAt, Pending, MatchesPrefix;
    var buf := rx.buf + [b];
    var all := rx.buf + ([b] + rest);
    assert all == buf + rest;
    PendingIs(rx.buf, b);
    if !MatchesPrefix(buf) {
      MismatchHoldsNoMagic(rx.buf, b, rest);
      if b == MAGIC[0] {
        SkipNoMagic(all, |rx.buf|);
        assert all[|rx.buf|..] == [b] + rest;
      } else {
        SkipNoMagic(all, |rx.buf| + 1);
        assert all[|rx.buf| + 1..] == [] + rest;
      }
    } else if |buf| == CMD_BYTES {
      CommandAtFront(buf, rest);
      assert [] + rest == rest;
      assert rx.commands + [buf] + Commands(rest) == rx.commands + ([buf] + Commands(rest));
    }
  }

  function Flatten(chunks: seq<seq<byte>>): seq<byte> {
    if chunks == [] then [] else Flatten(chunks[..|chunks| - 1]) + chunks[|chunks| - 1]
  }

  // ----- Commands -----

  datatype Op = StartSession | StopSession

  function Sum(s: seq<byte>): nat {
    if s == [] then 0 else Sum(s[..|s| - 1]) + s[|s| - 1]
  }

  lemma SumTurn(s: seq<byte>, b: byte)
    ensures Sum([]) == 0 && Sum(s + [b]) == Sum(s) + b
    ensures (Sum(s) % 0x100 + b) % 0x100 == Sum(s + [b]) % 0x100
  {
    assert (s + [b])[..|s|] == s;
  }

  /** Version 1, a checksum that matches, and a known operation. */
  function Parse(cmd: seq<byte>): Option<Op>
    requires |cmd| == CMD_BYTES
  {
    if cmd[4] != 1 || Sum(cmd[..7]) % 0x100 != cmd[7] then None
    else if cmd[5] == 1 then Some(StartSession)
    else if cmd[5] == 2 then Some(StopSession)
    else None
  }

  lemma {:induction false} SumUpdate(s: seq<byte>, i: nat, b: byte)
    requires i < |s|
    ensures Sum(s[i := b]) == Sum(s) - s[i] + b
  {
    var t, last := s[i := b], |s| - 1;
    if i == last {
      assert t[..last] == s[..last];
    } else {
      assert t[..last] == s[..last][i := b];
      SumUpdate(s[..last], i, b);
    }
  }

  /** Changing any one byte of an accepted command makes it rejected. */
  lemma OneBadByteIsRejected(cmd: seq<byte>, i: nat, b: byte)
    requires |cmd| == CMD_BYTES && i < CMD_BYTES && b != cmd[i]
    requires Parse(cmd).Some?
    ensures Parse(cmd[i := b]).None?
  {
    var bad := cmd[i := b];
    if i < 7 {
      assert bad[..7] == cmd[..7][i := b];
      SumUpdate(cmd[..7], i, b);
    } else {
      assert bad[..7] == cmd[..7];
    }
  }

  // ----- Commands as the host builds them -----

  /** Magic, version 1, operation code, a byte that is not looked at, and the low byte
      of the sum of all these. */
  function Build(code: byte, spare: byte): (cmd: seq<byte>)
    ensures |cmd| == CMD_BYTES
  {
    [0x45, 0x54, 0x52, 0x43, 0x01, code, spare, (0x45 + 0x54 + 0x52 + 0x43 + 0x01 + code + spare) % 0x100]
  }

  function OpOf(code: byte): Option<Op> {
    if code == 1 then Some(StartSession) else if code == 2 then Some(StopSession) else None
  }

  lemma SumOf7(s: seq<byte>)
    requires |s| == 7
    ensures Sum(s) == (s[0] as int) + s[1] + s[2] + s[3] + s[4] + s[5] + s[6]
  {
    hide Sum;
    SumTurn([], s[0]);
    SumTurn([] + [s[0]], s[1]);
    SumTurn([] + [s[0]] + [s[1]], s[2]);
    SumTurn([] + [s[0]] + [s[1]] + [s[2]], s[3]);
    SumTurn([] + [s[0]] + [s[1]] + [s[2]] + [s[3]], s[4]);
    SumTurn([] + [s[0]] + [s[1]] + [s[2]] + [s[3]] + [s[4]], s[5]);
    SumTurn([] + [s[0]] + [s[1]] + [s[2]] + [s[3]] + [s[4]] + [s[5]], s[6]);
    assert s == [] + [s[0]] + [s[1]] + [s[2]] + [s[3]] + [s[4]] + [s[5]] + [s[6]];
  }

  /** A built command is accepted as the operation it was built for, and no other. */
  lemma BuiltIsParsed(code: byte, spare: byte)
    ensures Build(code, spare)[..4] == MAGIC && Parse(Build(code, spare)) == OpOf(code)
  {
    hide Sum;
    var cmd := Build(code, spare);
    SumOf7(cmd[..7]);
  }

  /** And nothing else is: eight bytes that begin with the magic are accepted as
      starting, or stopping, a session exactly if the host builds them for that. */
  lemma ParsedIsBuilt(cmd: seq<byte>)
    requires |cmd| == CMD_BYTES && cmd[..4] == MAGIC
    ensures Parse(cmd) == Some(StartSession) <==> cmd == Build(1, cmd[6])
    ensures Parse(cmd) == Some(StopSession) <==> cmd == Build(2, cmd[6])
  {
    hide Sum;
    SumOf7(cmd[..7]);
    MagicBytes(cmd);
    BuiltIsParsed(1, cmd[6]);
    BuiltIsParsed(2, cmd[6]);
  }

  lemma MagicBytes(cmd: seq<byte>)
    requires |cmd| >= 4 && cmd[..4] == MAGIC
    ensures cmd[0] == 0x45 && cmd[1] == 0x54 && cmd[2] == 0x52 && cmd[3] == 0x43
  {
    assert cmd[..4][0] == cmd[0] && cmd[..4][1] == cmd[1] && cmd[..4][2] == cmd[2] && cmd[..4][3] == cmd[3];
  }

  /** The operations the commands of a list stand for, in order; the others are
      ignored. */
  function Ops(cmds: seq<seq<byte>>): seq<Op>
    requires forall c :: c in cmds ==> |c| == CMD_BYTES
  {
    if cmds == [] then []
    else
      var op := Parse(cmds[|cmds| - 1]);
      Ops(cmds[..|cmds| - 1]) + if op.Some? then [op.value] else []
  }

  /** What the host sends: other bytes, then a built command. */
  datatype Sent = Sent(noise: seq<byte>, code: byte, spare: byte)

  function BytesOf(sent: seq<Sent>): seq<byte> {
    if sent == [] then [] else sent[0].noise + Build(sent[0].code, sent[0].spare) + BytesOf(sent[1..])
  }

  function CommandsOf(sent: seq<Sent>): (cmds: seq<seq<byte>>)
    ensures forall c :: c in cmds ==> |c| == CMD_BYTES
  {
    if sent == [] then [] else [Build(sent[0].code, sent[0].spare)] + CommandsOf(sent[1..])
  }

  function OpsSent(sent: seq<Sent>): seq<Op> {
    if sent == [] then []
    else
      var op := OpOf(sent[|sent| - 1].code);
      OpsSent(sent[..|sent| - 1]) + if op.Some? then [op.value] else []
  }

  /** The noise before each command does not hold the magic's first byte. */
  predicate Quiet(sent: seq<Sent>) {
    forall i, j :: 0 <= i < |sent| && 0 <= j < |sent[i].noise| ==> sent[i].noise[j] != MAGIC[0]
  }

  lemma NoiseHoldsNoMagic(noise: seq<byte>, rest: seq<byte>)
    requires forall j :: 0 <= j < |noise| ==> noise[j] != MAGIC[0]
    ensures Commands(noise + rest) == Commands(rest)
  {
    hide Commands;
    var s := noise + rest;
    forall q | 0 <= q < |noise|
      ensures !MagicAt(s, q)
    {
      if MagicAt(s, q) { MagicIndex(s, q); }
    }
    SkipNoMagic(s, |noise|);
    assert s[|noise|..] == rest;
  }

  /** The scan finds exactly the commands sent. */
  lemma {:induction false} CommandsAreThoseSent(sent: seq<Sent>)
    requires Quiet(sent)
    ensures Commands(BytesOf(sent)) == CommandsOf(sent)
  {
    hide Commands, Build;
    if sent == [] {
      NoCommands();
    } else {
      var cmd, rest := Build(sent[0].code, sent[0].spare), BytesOf(sent[1..]);
      QuietTail(sent);
      CommandsAreThoseSent(sent[1..]);
      assert sent[0].noise + cmd + rest == sent[0].noise + (cmd + rest);
      NoiseHoldsNoMagic(sent[0].noise, cmd + rest);
      BuiltIsParsed(sent[0].code, sent[0].spare);
      CommandAtFront(cmd, rest);
    }
  }

  lemma NoCommands()
    ensures Commands([]) == []
  {
  }

  lemma QuietTail(sent: seq<Sent>)
    requires Quiet(sent) && sent != []
    ensures Quiet(sent[1..]) && forall j :: 0 <= j < |sent[0].noise| ==> sent[0].noise[j] != MAGIC[0]
  {
  }

  lemma {:induction false} CommandsOfIndex(sent: seq<Sent>)
    ensures |CommandsOf(sent)| == |sent|
    ensures forall i {:trigger sent[i]} :: 0 <= i < |sent| ==> CommandsOf(sent)[i] == Build(sent[i].code, sent[i].spare)
  {
    hide Build;
    if sent != [] {
      CommandsOfIndex(sent[1..]);
      assert forall i {:trigger sent[i]} :: 0 < i < |sent| ==> sent[1..][i - 1] == sent[i];
    }
  }

  lemma {:induction false} OpsAreThoseSent(cmds: seq<seq<byte>>, sent: seq<Sent>)
    requires |cmds| == |sent|
    requires forall i {:trigger sent[i]} :: 0 <= i < |sent| ==> cmds[i] == Build(sent[i].code, sent[i].spare)
    ensures forall c :: c in cmds ==> |c| == CMD_BYTES
    ensures Ops(cmds) == OpsSent(sent)
  {
    hide Build, Parse, OpOf;
    forall c | c in cmds
      ensures |c| == CMD_BYTES
    {
      var i :| 0 <= i < |cmds| && cmds[i] == c;
      assert sent[i] == sent[i];
    }
    if sent != [] {
      var n := |sent| - 1;
      assert forall i {:trigger sent[..n][i]} :: 0 <= i < n ==> sent[..n][i] == sent[i];
      OpsAreThoseSent(cmds[..n], sent[..n]);
      BuiltIsParsed(sent[n].code, sent[n].spare);
      assert sent[n] == sent[n];
    }
  }

  lemma OpsSnoc(cmds: seq<seq<byte>>, cmd: seq<byte>)
    requires (forall c :: c in cmds ==> |c| == CMD_BYTES) && |cmd| == CMD_BYTES
    ensures forall c :: c in cmds + [cmd] ==> |c| == CMD_BYTES
    ensures Ops(cmds + [cmd]) == Ops(cmds) + if Parse(cmd).Some? then [Parse(cmd).value] else []
  {
    hide Parse;
    TakeInit(cmds, cmd);
  }

  /** `trace_control_checksum` and the checks before a command is acted on. */
  method HandleCommand(cmd: seq<byte>) returns (op: Option<Op>)
    requires |cmd| == CMD_BYTES
    ensures op == Parse(cmd)
  {
    hide Sum;
    var version, code := cmd[4], cmd[5];
    var sum: byte := 0;
    SumTurn([], 0);
    for i := 0 to CMD_BYTES - 1
      invariant sum == Sum(cmd[..i]) % 0x100
    {
      assert cmd[..i + 1] == cmd[..i] + [cmd[i]];
      SumTurn(cmd[..i], cmd[i]);
      sum := (sum + cmd[i]) % 0x100;
    }
    if version != 1 || sum != cmd[7] {
      return None;
    }
    if code == 1 {
      return Some(StartSession);
    } else if code == 2 {
      return Some(StopSession);
    }
    return None;
  }

  /** The static receive buffer of `sink_rtt.c` and the commands it has passed on. */
  class Receiver {
    const rx: array<byte>
    var len: nat
    var handled: seq<seq<byte>>
    var ops: seq<Op>

    /** The operations acted on are those of the commands completed. */
    ghost predicate Valid()
      reads this, rx
    {
      && rx.Length == CMD_BYTES && len < CMD_BYTES && Pending(rx[..len])
      && (forall c :: c in handled ==> |c| == CMD_BYTES) && ops == Ops(handled)
    }

    ghost function State(): Rx
      requires len <= rx.Length
      reads this, rx
    {
      Rx(rx[..len], handled)
    }

    constructor ()
      ensures Valid() && fresh(rx) && State() == Rx([], []) && ops == []
    {
      rx := new byte[CMD_BYTES];
      len := 0;
      handled := [];
      ops := [];
    }

    method MagicMatchesPrefix(n: nat) returns (matches: bool)
      requires n <= rx.Length
      ensures matches == MatchesPrefix(rx[..n])
    {
      if n > 4 {
        return true;
      }
      for i := 0 to n
        invariant rx[..i] <= MAGIC
      {
        if rx[i] != MAGIC[i] {
          assert rx[..n][i] == rx[i];
          return false;
        }
        assert rx[..i + 1] == rx[..i] + [rx[i]];
      }
      return true;
    }

    method FeedByte(b: byte)
      requires Valid()
      modifies this, rx
      ensures Valid() && State() == Feed(old(State()), b)
    {
      hide Ops, Parse, Pending, MatchesPrefix;
      FeedKeepsPending(State(), b);
      EmptyIsPending(b);
      Append(b);
      var matches := MagicMatchesPrefix(len);
      if !matches {
        Restart(b);
        return;
      }
      if len < CMD_BYTES {
        return;
      }
      Dispatch();
    }

    method Append(b: byte)
      requires rx.Length == CMD_BYTES && len < CMD_BYTES
      modifies this`len, rx
      ensures len == old(len) + 1 && rx[..len] == old(rx[..len]) + [b]
    {
      ghost var before := rx[..len];
      rx[len] := b;
      len := len + 1;
      assert rx[..len] == before + [b];
    }

    /** The byte broke the match; it may itself begin a new one. */
    method Restart(b: byte)
      requires rx.Length == CMD_BYTES
      modifies this`len, rx
      ensures len <= 1 && rx[..len] == if b == MAGIC[0] then [b] else []
    {
      len := if b == MAGIC[0] then 1 else 0;
      if len == 1 {
        rx[0] := b;
      }
    }

    /** The buffer holds a whole command: act on it and start over. */
    method Dispatch()
      requires rx.Length == CMD_BYTES == len && (forall c :: c in handled ==> |c| == CMD_BYTES) && ops == Ops(handled)
      modifies this
      ensures handled == old(handled) + [old(rx[..len])] && len == 0 && rx[..len] == []
      ensures (forall c :: c in handled ==> |c| == CMD_BYTES) && ops == Ops(handled)
    {
      hide Ops, Parse;
      assert rx[..len] == rx[..];
      OpsSnoc(handled, rx[..]);
      var op := HandleCommand(rx[..]);
      if op.Some? {
        ops := ops + [op.value];
      }
      handled := handled + [rx[..]];
      len := 0;
    }

    /** One read of the work handler. */
    method FeedRead(buf: seq<byte>)
      requires Valid()
      modifies this, rx
      ensures Valid() && State() == FeedAll(old(State()), buf)
    {
      hide Ops, Feed, Pending;
      for i := 0 to |buf|
        invariant Valid() && State() == FeedAll(old(State()), buf[..i])
      {
        FeedByte(buf[i]);
        assert buf[..i + 1][..i] == buf[..i];
      }
      assert buf[..|buf|] == buf;
    }

    /** However the bytes are split into reads, the commands passed on are those
        of the scan of the whole input, and the operations acted on are theirs. */
    method FeedReads(chunks: seq<seq<byte>>)
      requires Valid() && len == 0
      modifies this, rx
      ensures Valid() && handled == old(handled) + Commands(Flatten(chunks))
    {
      ghost var start := State();
      for i := 0 to |chunks|
        invariant Valid() && State() == FeedAll(start, Flatten(chunks[..i]))
      {
        FeedRead(chunks[i]);
        assert chunks[..i + 1][..i] == chunks[..i];
        FeedAllConcat(start, Flatten(chunks[..i]), chunks[i]);
      }
      assert chunks[..|chunks|] == chunks;
      FeedAllIsScan(start, Flatten(chunks));
      assert [] + Flatten(chunks) == Flatten(chunks);
    }
  }

  /** End to end: whatever commands the host sends, with other bytes before each that
      do not hold the magic's first byte, and however the bytes are split into reads,
      a fresh receiver acts on exactly the operations the commands were built for. */
  method ReceiveSent(sent: seq<Sent>, chunks: seq<seq<byte>>) returns (ops: seq<Op>)
    requires Quiet(sent) && Flatten(chunks) == BytesOf(sent)
    ensures ops == OpsSent(sent)
  {
    hide Commands, Parse, Flatten, Build, OpOf;
    var receiver := new Receiver();
    receiver.FeedReads(chunks);
    CommandsAreThoseSent(sent);
    CommandsOfIndex(sent);
    assert receiver.handled == CommandsOf(sent);
    OpsAreThoseSent(CommandsOf(sent), sent);
    return receiver.ops;
  }
}
