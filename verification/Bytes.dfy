/** Bytes, fixed-width unsigned integers and their little-endian layout, as the
    firmware's `memcpy` of integer fields and the host's `struct.unpack_from`
    with "<H" and "<I" produce and read them. */
module Bytes {
  type byte = x: int | 0 <= x < 0x100
  type uint16 = x: int | 0 <= x < 0x1_0000
  type uint32 = x: int | 0 <= x < 0x1_0000_0000

  const TWO_32: int := 0x1_0000_0000

  function U16(x: uint16): (s: seq<byte>)
    ensures |s| == 2
  {
    [x % 0x100, x / 0x100]
  }

  function U32(x: uint32): (s: seq<byte>)
    ensures |s| == 4
  {
    var y := x / 0x100;
    var z := y / 0x100;
    [x % 0x100, y % 0x100, z % 0x100, z / 0x100]
  }

  function U16At(raw: seq<byte>, i: nat): uint16
    requires i + 2 <= |raw|
  {
    (raw[i] as int) + 0x100 * (raw[i + 1] as int)
  }

  function U32At(raw: seq<byte>, i: nat): uint32
    requires i + 4 <= |raw|
  {
    (raw[i] as int) + 0x100 * (raw[i + 1] as int)
    + 0x1_0000 * (raw[i + 2] as int) + 0x100_0000 * (raw[i + 3] as int)
  }

  // Equalities between sequences that list recursions need.

  lemma TakeInit<T>(s: seq<T>, x: T)
    ensures (s + [x])[..|s|] == s
  {
  }

  lemma InitAndLast<T>(s: seq<T>)
    requires s != []
    ensures s == s[..|s| - 1] + [s[|s| - 1]]
  {
  }

  lemma ConcatInit<T>(s: seq<T>, t: seq<T>)
    requires t != []
    ensures s + t == (s + t[..|t| - 1]) + [t[|t| - 1]]
  {
  }

  lemma TakeTake<T>(s: seq<T>, m: nat, n: nat)
    requires n <= m <= |s|
    ensures s[..m][..n] == s[..n]
  {
  }

  lemma DropInit<T>(s: seq<T>, x: T, m: nat)
    requires m <= |s|
    ensures (s + [x])[m..] == s[m..] + [x]
  {
  }

  lemma TakeThenDrop<T>(s: seq<T>, m: nat, n: nat)
    requires m <= n <= |s|
    ensures s[..n][m..] == s[m..][..n - m]
  {
  }

  /** `e` occupies `raw` from position `o`. */
  predicate At(raw: seq<byte>, o: nat, e: seq<byte>) {
    o + |e| <= |raw| && raw[o..o + |e|] == e
  }

  lemma AtIndex(raw: seq<byte>, o: nat, e: seq<byte>)
    requires At(raw, o, e)
    ensures forall i {:trigger e[i]} :: 0 <= i < |e| ==> raw[o + i] == e[i]
  {
    forall i {:trigger e[i]} | 0 <= i < |e|
      ensures raw[o + i] == e[i]
    {
      assert raw[o..o + |e|][i] == raw[o + i];
    }
  }

  lemma AtSplit(raw: seq<byte>, o: nat, a: seq<byte>, b: seq<byte>)
    ensures At(raw, o, a + b) <==> At(raw, o, a) && At(raw, o + |a|, b)
  {
    if o + |a| + |b| <= |raw| {
      assert raw[o..o + |a + b|] == raw[o..o + |a|] + raw[o + |a|..o + |a| + |b|];
      if raw[o..o + |a + b|] == a + b {
        assert (a + b)[..|a|] == a && (a + b)[|a|..] == b;
      }
    }
  }

  lemma U16RoundTrip(raw: seq<byte>, o: nat, x: uint16)
    requires At(raw, o, U16(x))
    ensures U16At(raw, o) == x
  {
    AtIndex(raw, o, U16(x));
  }

  lemma U32RoundTrip(raw: seq<byte>, o: nat, x: uint32)
    requires At(raw, o, U32(x))
    ensures U32At(raw, o) == x
  {
    AtIndex(raw, o, U32(x));
    var s := U32(x);
    assert raw[o] == s[0] && raw[o + 1] == s[1] && raw[o + 2] == s[2] && raw[o + 3] == s[3];
    hide At;
  }

  /** Unsigned 32-bit subtraction and increment, with C's wrap-around. */
  function WrapSub(a: uint32, b: uint32): uint32 { (a - b) % TWO_32 }

  function WrapAdd(a: uint32, n: nat): uint32 { (a + n) % TWO_32 }

  function Inc(a: uint32): uint32 { WrapAdd(a, 1) }

  lemma IncWrapAdd(a: uint32, n: nat)
    ensures WrapAdd(a, 0) == a && Inc(WrapAdd(a, n)) == WrapAdd(a, n + 1)
  {
  }

  function Min(a: nat, b: nat): nat { if a <= b then a else b }
}
