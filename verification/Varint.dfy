/** The LEB128 timestamp delta (DWARF Version 5, section 7.6): the firmware's
    encoder and the host tools' decoder. */
module Varint {
  import opened Bytes

  /** The bytes `_embd_encode_varint` writes for `v`. */
  function Encode(v: nat): (s: seq<byte>)
    ensures |s| >= 1
    decreases v
  {
    if v <= 0x7F then [v] else [v % 0x80 + 0x80] + Encode(v / 0x80)
  }

  /** Value and length of the varint at `o`, reading at most `budget` bytes and
      never past the end of `raw`. */
  datatype Decoded = Decoded(value: nat, consumed: nat)

  function DecodeUpTo(raw: seq<byte>, o: nat, budget: nat): (d: Decoded)
    ensures d.consumed <= budget && (o <= |raw| ==> o + d.consumed <= |raw|)
    decreases budget
  {
    if o >= |raw| || budget == 0 then Decoded(0, 0)
    else if raw[o] < 0x80 then Decoded(raw[o], 1)
    else
      var rest := DecodeUpTo(raw, o + 1, budget - 1);
      Decoded(raw[o] - 0x80 + 0x80 * rest.value, rest.consumed + 1)
  }

  function Decode(raw: seq<byte>, o: nat): Decoded { DecodeUpTo(raw, o, 5) }

  /** Reference meaning of a LEB128 byte string: base-128 digits, least
      significant first; the high bit of each byte is not part of the digit. */
  function Leb128(s: seq<byte>): nat {
    if s == [] then 0 else s[0] % 0x80 + 0x80 * Leb128(s[1..])
  }

  /** Every byte but the last carries the continuation bit. */
  predicate Terminated(s: seq<byte>) {
    |s| >= 1 && s[|s| - 1] < 0x80 && forall i :: 0 <= i < |s| - 1 ==> s[i] >= 0x80
  }

  function Pow128(n: nat): (p: nat)
    ensures p >= 1
  {
    if n == 0 then 1 else 0x80 * Pow128(n - 1)
  }

  lemma {:induction false} EncodeIsLeb128(v: nat)
    ensures Terminated(Encode(v)) && Leb128(Encode(v)) == v
    decreases v
  {
    hide Encode, Leb128, Terminated;
    EncodeTurn(v);
    if v > 0x7F {
      EncodeIsLeb128(v / 0x80);
      Leb128Cons(v % 0x80 + 0x80, Encode(v / 0x80));
    } else {
      Leb128One(v);
    }
  }

  lemma EncodeTurn(v: nat)
    ensures v <= 0x7F ==> Encode(v) == [v]
    ensures v > 0x7F ==> Encode(v) == [v % 0x80 + 0x80] + Encode(v / 0x80)
  {
  }

  lemma Leb128One(b: byte)
    requires b < 0x80
    ensures Leb128([b]) == b && Terminated([b])
  {
  }

  lemma Leb128Cons(b: byte, s: seq<byte>)
    requires b >= 0x80
    ensures Leb128([b] + s) == b - 0x80 + 0x80 * Leb128(s)
    ensures Terminated(s) ==> Terminated([b] + s)
  {
    assert ([b] + s)[1..] == s;
  }

  lemma {:induction false} DecodeIsLeb128(raw: seq<byte>, o: nat, budget: nat)
    requires o <= |raw|
    ensures var d := DecodeUpTo(raw, o, budget); d.value == Leb128(raw[o..o + d.consumed]) < Pow128(d.consumed)
    decreases budget
  {
    hide DecodeUpTo, Leb128, Pow128;
    DecodeTurn(raw, o, budget);
    Pow128Turn(0);
    if o < |raw| && budget > 0 {
      if raw[o] < 0x80 {
        assert raw[o..o + 1] == [raw[o]];
        Leb128One(raw[o]);
        Pow128Turn(1);
      } else {
        DecodeIsLeb128(raw, o + 1, budget - 1);
        var n := DecodeUpTo(raw, o + 1, budget - 1).consumed;
        assert raw[o..o + 1 + n] == [raw[o]] + raw[o + 1..o + 1 + n];
        Leb128Cons(raw[o], raw[o + 1..o + 1 + n]);
        Pow128Turn(n + 1);
      }
    } else {
      assert raw[o..o] == [];
      Leb128Nil();
    }
  }

  lemma DecodeTurn(raw: seq<byte>, o: nat, budget: nat)
    ensures var d := DecodeUpTo(raw, o, budget);
      if o >= |raw| || budget == 0 then d == Decoded(0, 0)
      else if raw[o] < 0x80 then d == Decoded(raw[o], 1)
      else
        var rest := DecodeUpTo(raw, o + 1, budget - 1);
        d == Decoded(raw[o] - 0x80 + 0x80 * rest.value, rest.consumed + 1)
  {
  }

  lemma Pow128Turn(n: nat)
    ensures Pow128(n) == if n == 0 then 1 else 0x80 * Pow128(n - 1)
  {
  }

  lemma Leb128Nil()
    ensures Leb128([]) == 0
  {
  }

  /** Decoding stops at the encoding's own last byte, whatever follows it. */
  lemma {:induction false} DecodeEncodeUpTo(raw: seq<byte>, o: nat, v: nat, budget: nat)
    requires At(raw, o, Encode(v)) && 1 <= budget && v < Pow128(budget)
    ensures DecodeUpTo(raw, o, budget) == Decoded(v, |Encode(v)|)
    decreases budget
  {
    AtIndex(raw, o, Encode(v));
    assert raw[o] == Encode(v)[0];
    if v > 0x7F {
      assert Pow128(0) == 1 && Pow128(1) == 0x80;
      AtSplit(raw, o, [v % 0x80 + 0x80], Encode(v / 0x80));
      DecodeEncodeUpTo(raw, o + 1, v / 0x80, budget - 1);
    }
  }

  lemma Pow128Of5()
    ensures Pow128(5) == 0x8_0000_0000
  {
    assert Pow128(1) == 0x80 && Pow128(2) == 0x4000 && Pow128(3) == 0x20_0000;
  }

  /** decode(encode(v) ++ rest) == (v, |encode(v)|), at any offset. */
  lemma DecodeEncode(raw: seq<byte>, o: nat, v: uint32)
    requires At(raw, o, Encode(v))
    ensures Decode(raw, o) == Decoded(v, |Encode(v)|)
  {
    Pow128Of5();
    DecodeEncodeUpTo(raw, o, v, 5);
  }

  lemma {:induction false} EncodeLength(v: nat, n: nat)
    requires n >= 1
    ensures |Encode(v)| <= n <==> v < Pow128(n)
    decreases n
  {
    assert Pow128(n) == 0x80 * Pow128(n - 1);
    if v > 0x7F && n > 1 {
      EncodeLength(v / 0x80, n - 1);
    }
  }

  lemma EncodeAtMost5(v: uint32)
    ensures 1 <= |Encode(v)| <= 5
  {
    Pow128Of5();
    EncodeLength(v, 5);
  }

  /** No byte string that the decoder reads completely as `v` is shorter than
      the encoder's. */
  lemma EncodeIsShortest(v: uint32, s: seq<byte>)
    requires s != [] && Decode(s, 0) == Decoded(v, |s|)
    ensures |Encode(v)| <= |s|
  {
    DecodeIsLeb128(s, 0, 5);
    EncodeLength(v, |s|);
  }

  /** No encoding is a proper prefix of another one. */
  lemma EncodeIsPrefixFree(v: uint32, w: uint32)
    requires Encode(v) <= Encode(w)
    ensures v == w
  {
    var s := Encode(w);
    assert At(s, 0, Encode(v)) && At(s, 0, Encode(w));
    DecodeEncode(s, 0, v);
    DecodeEncode(s, 0, w);
  }

  /** Only the five bytes from `o` on, or the bytes up to the end of the varint,
      matter: two buffers that agree on them decode alike. */
  lemma {:induction false} DecodeIsLocal(raw: seq<byte>, o: nat, e: seq<byte>, i: nat, budget: nat)
    requires At(raw, o, e) && i + budget <= |e|
    ensures DecodeUpTo(raw, o + i, budget) == DecodeUpTo(e, i, budget)
    decreases budget
  {
    if budget > 0 {
      AtIndex(raw, o, e);
      assert raw[o + i] == e[i];
      DecodeIsLocal(raw, o, e, i + 1, budget - 1);
    }
  }

  /** Decoding commutes with dropping a prefix of the buffer. */
  lemma {:induction false} DecodeShift(raw: seq<byte>, c: nat, o: nat, budget: nat)
    requires c <= |raw|
    ensures DecodeUpTo(raw[c..], o, budget) == DecodeUpTo(raw, c + o, budget)
    decreases budget
  {
    if c + o < |raw| && budget > 0 {
      assert raw[c..][o] == raw[c + o];
      DecodeShift(raw, c, o + 1, budget - 1);
    }
  }

  /** `_embd_encode_varint`: writes at the cursor and returns the cursor past
      the last byte written. */
  method EncodeInto(p: array<byte>, cursor: nat, val: uint32) returns (end: nat)
    requires cursor + 5 <= p.Length
    modifies p
    ensures end == cursor + |Encode(val)| <= p.Length
    ensures p[..end] == old(p[..cursor]) + Encode(val)
  {
    hide Encode;
    EncodeAtMost5(val);
    var v: uint32 := val;
    end := cursor;
    while v > 0x7F
      invariant cursor <= end
      invariant end + |Encode(v)| == cursor + |Encode(val)|
      invariant p[..end] + Encode(v) == old(p[..cursor]) + Encode(val)
      decreases v
    {
      ghost var before := p[..end];
      p[end] := v % 0x80 + 0x80; // the low byte of v with its top bit set
      assert p[..end + 1] == before + [v % 0x80 + 0x80];
      EncodeTurn(v);
      end := end + 1;
      v := v / 0x80;
    }
    ghost var before := p[..end];
    p[end] := v;
    EncodeTurn(v);
    end := end + 1;
    assert p[..end] == before + [v];
  }

  lemma ShiftDigit(digit: nat, rest: nat, val: nat, scale: nat)
    requires digit <= 0x7F && val < scale
    ensures scale * (digit + 0x80 * rest) == digit * scale + scale * 0x80 * rest
    ensures scale * digit == digit * scale
    ensures 0 <= val + digit * scale < scale * 0x80
  {
    Distribute(scale, digit, 0x80 * rest);
    Associate(scale, 0x80, rest);
    AtMostTimes(digit, 0x7F, scale);
  }

  lemma Distribute(a: nat, b: nat, c: nat)
    ensures a * (b + c) == b * a + a * c
  {
  }

  lemma Associate(a: nat, b: nat, c: nat)
    ensures a * (b * c) == a * b * c
  {
  }

  lemma AtMostTimes(a: nat, b: nat, n: nat)
    requires a <= b
    ensures 0 <= a * n <= b * n
  {
  }

  /** What the decoding loop returns when it goes on at `offset` with `val` read so
      far and the next digit worth `scale`. */
  function Resume(raw: seq<byte>, offset: nat, budget: nat, val: nat, scale: nat, consumed: nat): Decoded {
    var d := DecodeUpTo(raw, offset, budget);
    Decoded(val + scale * d.value, consumed + d.consumed)
  }

  /** One turn of the decoding loop moves one digit from the unread part into
      the accumulated value. */
  lemma OneDigit(raw: seq<byte>, offset: nat, budget: nat, val: nat, scale: nat, consumed: nat)
    requires offset < |raw| && budget >= 1 && val < scale
    ensures var digit := raw[offset] % 0x80;
      && 0 <= val + digit * scale < scale * 0x80
      && Resume(raw, offset, budget, val, scale, consumed)
         == if raw[offset] < 0x80 then Decoded(val + digit * scale, consumed + 1)
            else Resume(raw, offset + 1, budget - 1, val + digit * scale, scale * 0x80, consumed + 1)
  {
    ShiftDigit(raw[offset] % 0x80, DecodeUpTo(raw, offset + 1, budget - 1).value, val, scale);
  }

  lemma NoDigit(raw: seq<byte>, offset: nat, budget: nat, val: nat, scale: nat, consumed: nat)
    ensures offset >= |raw| || budget == 0 ==> Resume(raw, offset, budget, val, scale, consumed) == Decoded(val, consumed)
    ensures Resume(raw, offset, budget, 0, 1, 0) == DecodeUpTo(raw, offset, budget)
  {
  }

  /** The three tools' `decode_varint`. The digit is or-ed in above every bit of
      `val` (`val < scale`), so the union of bits is a sum. */
  method DecodeVarint(raw: seq<byte>, start: nat) returns (val: nat, consumed: nat)
    ensures Decoded(val, consumed) == Decode(raw, start)
  {
    hide DecodeUpTo, Resume;
    val, consumed := 0, 0;
    var offset := start;
    var scale: nat := 1; // 1 << shift
    NoDigit(raw, start, 5, 0, 1, 0);
    while offset < |raw|
      invariant offset == start + consumed && 0 <= consumed < 5
      invariant val < scale
      invariant Decode(raw, start) == Resume(raw, offset, 5 - consumed, val, scale, consumed)
      decreases |raw| - offset
    {
      var b := raw[offset];
      OneDigit(raw, offset, 5 - consumed, val, scale, consumed);
      val := val + b % 0x80 * scale;
      offset := offset + 1;
      consumed := consumed + 1;
      if b < 0x80 {
        return;
      }
      scale := scale * 0x80;
      if consumed >= 5 {
        NoDigit(raw, offset, 0, val, scale, consumed);
        return;
      }
    }
    NoDigit(raw, offset, 5 - consumed, val, scale, consumed);
  }
}
