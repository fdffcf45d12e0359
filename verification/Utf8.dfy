/** The UTF-8 coding of cutils.c (unicode_to_utf8, utf8_get) and the incremental
    decoder of readline_handle_byte. Code points go up to 2^21 - 1, as the coding
    has room for. */
module Utf8 {

  type byte = x: int | 0 <= x < 256

  const CODE_LIMIT: nat := 0x20_0000

  /** unicode_to_utf8. */
  function Encode(c: nat): (s: seq<byte>)
    ensures c < CODE_LIMIT ==> 1 <= |s| <= 4
  {
    if c < 0x80 then [c]
    else if c < 0x800 then [0xc0 + c / 0x40, 0x80 + c % 0x40]
    else if c < 0x1_0000 then [0xe0 + c / 0x1000, 0x80 + c / 0x40 % 0x40, 0x80 + c % 0x40]
    else if c < CODE_LIMIT then [0xf0 + c / 0x4_0000, 0x80 + c / 0x1000 % 0x40, 0x80 + c / 0x40 % 0x40, 0x80 + c % 0x40]
    else []
  }

  /** The length that utf8_get reads off the first byte. */
  function CharLen(b: byte): nat {
    if b < 0xc0 then 1 else if b < 0xe0 then 2 else if b < 0xf0 then 3 else if b < 0xf8 then 4 else 1
  }

  /** is_utf8_ext. */
  predicate IsExt(b: byte) {
    0x80 <= b < 0xc0
  }

  /** utf8_get: the code point at the start of s. */
  function Decode(s: seq<byte>): nat
    requires |s| > 0 && CharLen(s[0]) <= |s|
  {
    if s[0] < 0xc0 || s[0] >= 0xf8 then s[0]
    else if s[0] < 0xe0 then Low(s[0], 0x20) * 0x40 + Low(s[1], 0x40)
    else if s[0] < 0xf0 then Low(s[0], 0x10) * 0x1000 + Low(s[1], 0x40) * 0x40 + Low(s[2], 0x40)
    else Low(s[0], 8) * 0x4_0000 + Low(s[1], 0x40) * 0x1000 + Low(s[2], 0x40) * 0x40 + Low(s[3], 0x40)
  }

  /** The bits of b below n, a power of two. */
  function Low(b: byte, n: nat): nat
    requires n > 0
  {
    b % n
  }

  /** A code point is put together from its groups of six bits. */
  lemma SixBits(c: nat)
    ensures c == c / 0x40 * 0x40 + c % 0x40
    ensures c / 0x40 == c / 0x1000 * 0x40 + c / 0x40 % 0x40
    ensures c / 0x1000 == c / 0x4_0000 * 0x40 + c / 0x1000 % 0x40
  {}

  lemma LowBits(x: nat)
    ensures x < 0x40 ==> Low(0x80 + x, 0x40) == x
    ensures x < 0x20 ==> Low(0xc0 + x, 0x20) == x
    ensures x < 0x10 ==> Low(0xe0 + x, 0x10) == x
    ensures x < 8 ==> Low(0xf0 + x, 8) == x
  {}

  /** The shape of an encoded code point: the first byte tells the length and is
      no continuation byte; the others are. */
  lemma EncodeShape(c: nat)
    requires c < CODE_LIMIT
    ensures CharLen(Encode(c)[0]) == |Encode(c)| && !IsExt(Encode(c)[0])
    ensures forall i :: 0 < i < |Encode(c)| ==> IsExt(Encode(c)[i])
  {}

  /** Coding and decoding undo each other, whatever follows. */
  lemma DecodeEncode(c: nat, rest: seq<byte>)
    requires c < CODE_LIMIT
    ensures CharLen((Encode(c) + rest)[0]) == |Encode(c)| && Decode(Encode(c) + rest) == c
  {
    hide Low, CharLen;
    SixBits(c);
    EncodeShape(c);
    var s := Encode(c) + rest;
    assert s[0] == Encode(c)[0];
    LowBits(c % 0x40);
    if c < 0x80 {
    } else if c < 0x800 {
      LowBits(c / 0x40);
      assert s[0] == 0xc0 + c / 0x40 && s[1] == 0x80 + c % 0x40;
    } else if c < 0x1_0000 {
      LowBits(c / 0x1000);
      LowBits(c / 0x40 % 0x40);
      assert s[0] == 0xe0 + c / 0x1000 && s[1] == 0x80 + c / 0x40 % 0x40 && s[2] == 0x80 + c % 0x40;
    } else {
      LowBits(c / 0x4_0000);
      LowBits(c / 0x1000 % 0x40);
      LowBits(c / 0x40 % 0x40);
      assert s[0] == 0xf0 + c / 0x4_0000 && s[1] == 0x80 + c / 0x1000 % 0x40;
      assert s[2] == 0x80 + c / 0x40 % 0x40 && s[3] == 0x80 + c % 0x40;
    }
  }

  predicate ValidText(t: seq<nat>) {
    forall i :: 0 <= i < |t| ==> t[i] < CODE_LIMIT
  }

  function EncodeAll(t: seq<nat>): seq<byte> {
    if |t| == 0 then [] else Encode(t[0]) + EncodeAll(t[1..])
  }

  /** The code points of a byte string, first byte by first byte; a truncated last
      one is dropped. */
  function DecodeAll(s: seq<byte>): seq<nat> {
    if |s| == 0 || CharLen(s[0]) > |s| then []
    else [Decode(s)] + DecodeAll(s[CharLen(s[0])..])
  }

  lemma {:induction false} DecodeEncodeAll(t: seq<nat>)
    requires ValidText(t)
    ensures DecodeAll(EncodeAll(t)) == t
  {
    if |t| > 0 {
      var rest := EncodeAll(t[1..]);
      DecodeEncode(t[0], rest);
      assert (Encode(t[0]) + rest)[|Encode(t[0])|..] == rest;
      DecodeEncodeAll(t[1..]);
      assert [t[0]] + t[1..] == t;
    }
  }

  /** So the coding of texts loses nothing. */
  lemma EncodeInjective(t: seq<nat>, u: seq<nat>)
    requires ValidText(t) && ValidText(u) && EncodeAll(t) == EncodeAll(u)
    ensures t == u
  {
    DecodeEncodeAll(t);
    DecodeEncodeAll(u);
  }

  lemma {:induction false} EncodeConcat(t: seq<nat>, u: seq<nat>)
    ensures EncodeAll(t + u) == EncodeAll(t) + EncodeAll(u)
  {
    if |t| == 0 {
      assert t + u == u;
    } else {
      assert (t + u)[1..] == t[1..] + u;
      EncodeConcat(t[1..], u);
    }
  }

  lemma EncodeOne(c: nat)
    ensures EncodeAll([c]) == Encode(c)
  {
    assert [c][1..] == [];
    assert Encode(c) + [] == Encode(c);
  }

  // ----- the incremental decoder

  /** utf8_state and utf8_val: how many continuation bytes are awaited, and the
      bits so far. */
  datatype Decoder = Decoder(state: nat, val: nat)

  datatype Option = None | Some(c: nat)

  /** One byte of readline_handle_byte: the character it completes, if any. */
  function Take(d: Decoder, c: byte): (Decoder, Option) {
    if 0xc0 <= c < 0xf8 then
      if c >= 0xf0 then (Decoder(3, Low(c, 8)), None)
      else if c >= 0xe0 then (Decoder(2, Low(c, 0x10)), None)
      else (Decoder(1, Low(c, 0x20)), None)
    else if d.state != 0 && IsExt(c) then
      var v := d.val * 0x40 + Low(c, 0x40);
      if d.state > 1 then (Decoder(d.state - 1, v), None) else (Decoder(0, v), Some(v))
    else (Decoder(0, d.val), Some(c))
  }

  /** The characters that a run of bytes completes. */
  function TakeAll(d: Decoder, s: seq<byte>): (Decoder, seq<nat>)
    decreases |s|
  {
    if |s| == 0 then (d, [])
    else
      var (d1, o) := Take(d, s[0]);
      var (d2, rest) := TakeAll(d1, s[1..]);
      (d2, if o.Some? then [o.c] + rest else rest)
  }

  lemma {:induction false} TakeConcat(d: Decoder, s: seq<byte>, t: seq<byte>)
    ensures TakeAll(d, s + t)
            == (var (d1, a) := TakeAll(d, s); var (d2, b) := TakeAll(d1, t); (d2, a + b))
    decreases |s|
  {
    hide Take;
    if |s| == 0 {
      assert s + t == t;
      var b := TakeAll(d, t).1;
      assert [] + b == b;
    } else {
      assert (s + t)[1..] == s[1..] + t;
      var (d1, o) := Take(d, s[0]);
      TakeConcat(d1, s[1..], t);
      if o.Some? {
        var (d2, a) := TakeAll(d1, s[1..]);
        var b := TakeAll(d2, t).1;
        assert [o.c] + (a + b) == [o.c] + a + b;
      }
    }
  }

  /** The bytes of one code point complete exactly that character, whatever came
      before. */
  lemma TakeChar(d: Decoder, c: nat)
    requires c < CODE_LIMIT
    ensures TakeAll(d, Encode(c)).0.state == 0 && TakeAll(d, Encode(c)).1 == [c]
  {
    hide Low, TakeAll, Take;
    SixBits(c);
    var b, e, f := c / 0x1000 % 0x40, c / 0x40 % 0x40, c % 0x40;
    if c < 0x80 {
      assert Encode(c) == [c] + [];
      TakeOne(d, c, []);
      TakePlain(d, c);
      TakeNone(Decoder(0, d.val));
    } else if c < 0x800 {
      TakeLead(d, c / 0x40, 1);
      assert Encode(c) == [0xc0 + c / 0x40] + [0x80 + f];
      TakeOne(d, 0xc0 + c / 0x40, [0x80 + f]);
      TakeLast(c / 0x40, f);
    } else if c < 0x1_0000 {
      TakeLead(d, c / 0x1000, 2);
      assert Encode(c) == [0xe0 + c / 0x1000] + ([0x80 + e] + [0x80 + f]);
      TakeOne(d, 0xe0 + c / 0x1000, [0x80 + e] + [0x80 + f]);
      TakeTail(c / 0x1000, 2, e, [0x80 + f]);
      TakeLast(c / 0x40, f);
    } else {
      TakeLead(d, c / 0x4_0000, 3);
      assert Encode(c) == [0xf0 + c / 0x4_0000] + ([0x80 + b] + ([0x80 + e] + [0x80 + f]));
      TakeOne(d, 0xf0 + c / 0x4_0000, [0x80 + b] + ([0x80 + e] + [0x80 + f]));
      TakeTail(c / 0x4_0000, 3, b, [0x80 + e] + [0x80 + f]);
      TakeTail(c / 0x1000, 2, e, [0x80 + f]);
      TakeLast(c / 0x40, f);
    }
  }

  lemma TakePlain(d: Decoder, c: byte)
    requires c < 0x80
    ensures Take(d, c) == (Decoder(0, d.val), Some(c))
  {}

  /** A first byte announces n continuation bytes. */
  lemma TakeLead(d: Decoder, v: nat, n: nat)
    requires (n == 1 && v < 0x20) || (n == 2 && v < 0x10) || (n == 3 && v < 8)
    ensures Take(d, (if n == 1 then 0xc0 else if n == 2 then 0xe0 else 0xf0) + v) == (Decoder(n, v), None)
  {
    hide Low;
    LowBits(v);
  }

  /** A continuation byte adds six bits. */
  lemma TakeTail(v: nat, n: nat, x: nat, rest: seq<byte>)
    requires n > 1 && x < 0x40
    ensures TakeAll(Decoder(n, v), [0x80 + x] + rest) == TakeAll(Decoder(n - 1, v * 0x40 + x), rest)
  {
    hide Low;
    LowBits(x);
    TakeOne(Decoder(n, v), 0x80 + x, rest);
  }

  /** The last one completes the character. */
  lemma TakeLast(v: nat, x: nat)
    requires x < 0x40
    ensures TakeAll(Decoder(1, v), [0x80 + x]) == (Decoder(0, v * 0x40 + x), [v * 0x40 + x])
  {
    hide Low;
    LowBits(x);
    var last: seq<byte> := [0x80 + x];
    assert last + [] == last && [v * 0x40 + x] + [] == [v * 0x40 + x];
    TakeOne(Decoder(1, v), 0x80 + x, []);
    TakeNone(Decoder(0, v * 0x40 + x));
  }

  lemma TakeOne(d: Decoder, b: byte, rest: seq<byte>)
    ensures TakeAll(d, [b] + rest)
            == (var (d1, o) := Take(d, b); var (d2, cs) := TakeAll(d1, rest); (d2, if o.Some? then [o.c] + cs else cs))
  {
    assert ([b] + rest)[1..] == rest;
  }

  lemma TakeNone(d: Decoder)
    ensures TakeAll(d, []) == (d, [])
  {}

  /** Typed text arrives character by character, after any garbage. */
  lemma {:induction false} TakeText(d: Decoder, t: seq<nat>)
    requires ValidText(t)
    ensures TakeAll(d, EncodeAll(t)).1 == t
    decreases |t|
  {
    hide Take, Encode;
    if |t| > 0 {
      TakeChar(d, t[0]);
      var d1 := TakeAll(d, Encode(t[0])).0;
      TakeConcat(d, Encode(t[0]), EncodeAll(t[1..]));
      TakeText(d1, t[1..]);
      assert [t[0]] + t[1..] == t;
    }
  }

  /** Every character that arrives can be encoded. */
  predicate Sane(d: Decoder) {
    d.state <= 3 && (d.state == 1 ==> d.val < 0x8000) && (d.state == 2 ==> d.val < 0x200) && (d.state == 3 ==> d.val < 8)
  }

  lemma TakeSane(d: Decoder, c: byte)
    requires Sane(d)
    ensures Sane(Take(d, c).0) && (Take(d, c).1.Some? ==> Take(d, c).1.c < CODE_LIMIT)
  {}

  lemma {:induction false} TakeAllSane(d: Decoder, s: seq<byte>)
    requires Sane(d)
    ensures Sane(TakeAll(d, s).0) && ValidText(TakeAll(d, s).1)
    decreases |s|
  {
    hide Take, Sane;
    if |s| > 0 {
      TakeSane(d, s[0]);
      TakeAllSane(Take(d, s[0]).0, s[1..]);
    }
  }
}
