/**
  The two byte-level encodings the message envelope relies on:
  the UTF-8 byte view of a string (Rust's `String::as_bytes`) and
  lowercase base16 (section 8 of RFC 4648, as produced by `hex::encode`).
 */
module Encoding {
  import opened Wrappers

  type byte = b: int | 0 <= b < 256

  /** The alphabet `hex::encode` writes: digits, then lowercase letters. */
  predicate IsLowerHexDigit(c: char) {
    '0' <= c <= '9' || 'a' <= c <= 'f'
  }

  // ---------------------------------------------------------------------
  // UTF-8
  // ---------------------------------------------------------------------

  /** The UTF-8 encoding of one Unicode scalar value. */
  function Utf8EncodeChar(c: char): (r: seq<byte>)
    ensures 1 <= |r| <= 4
    ensures (c as int < 0x80) <==> |r| == 1
  {
    var v := c as int;
    if v < 0x80 then [v]
    else if v < 0x800 then [0xC0 + v / 64, 0x80 + v % 64]
    else if v < 0x10000 then [0xE0 + v / 4096, 0x80 + (v / 64) % 64, 0x80 + v % 64]
    else [0xF0 + v / 262144, 0x80 + (v / 4096) % 64, 0x80 + (v / 64) % 64, 0x80 + v % 64]
  }

  /** The bytes of a string, as `String::as_bytes` exposes them. */
  function Utf8Encode(s: string): (r: seq<byte>)
    ensures |s| <= |r| <= 4 * |s|
  {
    if s == [] then [] else Utf8EncodeChar(s[0]) + Utf8Encode(s[1..])
  }

  /** Length of the sequence that a UTF-8 lead byte announces (0: not a lead byte). */
  function Utf8SequenceLength(lead: byte): nat {
    if lead < 0x80 then 1
    else if 0xC0 <= lead < 0xE0 then 2
    else if 0xE0 <= lead < 0xF0 then 3
    else if 0xF0 <= lead < 0xF8 then 4
    else 0
  }

  predicate IsContinuation(b: byte) {
    0x80 <= b < 0xC0
  }

  /** The scalar value that a well-formed UTF-8 sequence of one to four bytes denotes. */
  function Utf8SequenceValue(bs: seq<byte>): int
    requires 1 <= |bs| <= 4
  {
    if |bs| == 1 then bs[0] as int
    else if |bs| == 2 then (bs[0] as int - 0xC0) * 64 + (bs[1] as int - 0x80)
    else if |bs| == 3 then (bs[0] as int - 0xE0) * 4096 + (bs[1] as int - 0x80) * 64 + (bs[2] as int - 0x80)
    else (bs[0] as int - 0xF0) * 262144 + (bs[1] as int - 0x80) * 4096 + (bs[2] as int - 0x80) * 64 + (bs[3] as int - 0x80)
  }

  /** The smallest scalar value that needs a sequence of `n` bytes; a smaller one in `n` bytes is an overlong form. */
  function Utf8Shortest(n: nat): int {
    if n <= 1 then 0 else if n == 2 then 0x80 else if n == 3 then 0x800 else 0x10000
  }

  /**
    Decodes the bytes of one UTF-8 sequence of the announced length, as
    Rust's UTF-8 check accepts it: continuation bytes only after the lead,
    the shortest form, and a scalar value (no surrogate, at most U+10FFFF).
   */
  function Utf8DecodeChar(bs: seq<byte>): Option<char>
    requires 1 <= |bs| <= 4
  {
    if exists k :: 1 <= k < |bs| && !IsContinuation(bs[k]) then None
    else
      var v := Utf8SequenceValue(bs);
      if v < Utf8Shortest(|bs|) then None
      else if 0 <= v < 0xD800 || 0xE000 <= v < 0x11_0000 then Some(v as char) else None
  }

  /** Independent inverse of `Utf8Encode`: decodes a byte string sequence by sequence. */
  function Utf8Decode(bs: seq<byte>): Option<string>
    decreases |bs|
  {
    if bs == [] then Some([])
    else
      var n := Utf8SequenceLength(bs[0]);
      if n == 0 || |bs| < n then None
      else
        var c :- Utf8DecodeChar(bs[..n]);
        var rest :- Utf8Decode(bs[n..]);
        Some([c] + rest)
  }

  lemma Utf8CharValue(c: char)
    ensures var e := Utf8EncodeChar(c);
      Utf8SequenceLength(e[0]) == |e| && Utf8SequenceValue(e) == c as int &&
      forall k :: 1 <= k < |e| ==> IsContinuation(e[k])
  {
    var v := c as int;
    if v < 0x80 {
    } else if v < 0x800 {
      var q, r := v / 64, v % 64;
      assert v == q * 64 + r;
    } else if v < 0x10000 {
      var q, r := v / 64, v % 64;
      var q2, r2 := q / 64, q % 64;
      assert v == q * 64 + r && q == q2 * 64 + r2;
      assert v / 4096 == q2;
    } else {
      var q, r := v / 64, v % 64;
      var q2, r2 := q / 64, q % 64;
      var q3, r3 := q2 / 64, q2 % 64;
      assert v == q * 64 + r && q == q2 * 64 + r2 && q2 == q3 * 64 + r3;
      assert v / 4096 == q2 && v / 262144 == q3;
    }
  }

  lemma Utf8CharRoundTrip(c: char)
    ensures var e := Utf8EncodeChar(c);
      Utf8SequenceLength(e[0]) == |e| && Utf8DecodeChar(e) == Some(c)
  {
    Utf8CharValue(c);
  }

  /** Decoding the bytes of a string gives the string back: the byte view loses nothing. */
  lemma {:induction false} Utf8RoundTrip(s: string)
    ensures Utf8Decode(Utf8Encode(s)) == Some(s)
  {
    if s != [] {
      var e := Utf8EncodeChar(s[0]);
      var bs := Utf8Encode(s);
      Utf8CharRoundTrip(s[0]);
      assert bs == e + Utf8Encode(s[1..]);
      assert bs[..|e|] == e;
      assert bs[|e|..] == Utf8Encode(s[1..]);
      Utf8RoundTrip(s[1..]);
      assert [s[0]] + s[1..] == s;
    }
  }

  lemma Utf8Injective(s: string, t: string)
    requires Utf8Encode(s) == Utf8Encode(t)
    ensures s == t
  {
    Utf8RoundTrip(s);
    Utf8RoundTrip(t);
  }

  lemma DivMod64(v: int, q: int, r: int)
    requires v == q * 64 + r && 0 <= r < 64
    ensures v / 64 == q && v % 64 == r
  {
  }

  /** A sequence that decodes to `c` is the encoding of `c`: the check admits no second spelling. */
  lemma Utf8CharExact(bs: seq<byte>, c: char)
    requires 1 <= |bs| <= 4 && Utf8SequenceLength(bs[0]) == |bs| && Utf8DecodeChar(bs) == Some(c)
    ensures Utf8EncodeChar(c) == bs
  {
    var v := c as int;
    assert v == Utf8SequenceValue(bs);
    if |bs| == 2 {
      assert IsContinuation(bs[1]);
      DivMod64(v, bs[0] - 0xC0, bs[1] - 0x80);
    } else if |bs| == 3 {
      assert IsContinuation(bs[1]) && IsContinuation(bs[2]);
      var a: int, b: int, d: int := bs[0] - 0xE0, bs[1] - 0x80, bs[2] - 0x80;
      DivMod64(v, a * 64 + b, d);
      DivMod64(a * 64 + b, a, b);
      assert v / 4096 == a;
    } else if |bs| == 4 {
      assert IsContinuation(bs[1]) && IsContinuation(bs[2]) && IsContinuation(bs[3]);
      var a: int, b: int, d: int, e: int := bs[0] - 0xF0, bs[1] - 0x80, bs[2] - 0x80, bs[3] - 0x80;
      DivMod64(v, (a * 64 + b) * 64 + d, e);
      DivMod64((a * 64 + b) * 64 + d, a * 64 + b, d);
      DivMod64(a * 64 + b, a, b);
      assert v / 4096 == a * 64 + b;
      assert v / 262144 == a;
    }
  }

  /** A successful decode starts with one whole sequence for the first character. */
  lemma Utf8DecodeFirst(bs: seq<byte>, s: string)
    requires bs != [] && Utf8Decode(bs) == Some(s)
    ensures var n := Utf8SequenceLength(bs[0]);
      1 <= n <= |bs| && s != [] &&
      Utf8DecodeChar(bs[..n]) == Some(s[0]) && Utf8Decode(bs[n..]) == Some(s[1..])
  {
  }

  /**
    The converse of the round trip: bytes that decode to `s` are exactly the
    byte view of `s`, so the check accepts nothing but encoded strings.
   */
  lemma {:induction false} Utf8DecodeExact(bs: seq<byte>, s: string)
    requires Utf8Decode(bs) == Some(s)
    ensures Utf8Encode(s) == bs
    decreases |bs|
  {
    if bs == [] {
      assert s == [];
    } else {
      var n := Utf8SequenceLength(bs[0]);
      Utf8DecodeFirst(bs, s);
      Utf8CharExact(bs[..n], s[0]);
      Utf8DecodeExact(bs[n..], s[1..]);
      assert Utf8Encode(s) == Utf8EncodeChar(s[0]) + Utf8Encode(s[1..]);
      assert bs == bs[..n] + bs[n..];
    }
  }

  /** The byte view of a concatenation is the concatenation of the byte views. */
  lemma {:induction false} Utf8EncodeAppend(a: string, b: string)
    ensures Utf8Encode(a + b) == Utf8Encode(a) + Utf8Encode(b)
  {
    if a == [] {
      assert a + b == b;
    } else {
      var c, tail := a[0], a[1..];
      assert a == [c] + tail;
      assert a + b == [c] + (tail + b);
      Utf8EncodeCons(c, tail);
      Utf8EncodeCons(c, tail + b);
      Utf8EncodeAppend(tail, b);
      AppendAssociative(Utf8EncodeChar(c), Utf8Encode(tail), Utf8Encode(b));
    }
  }

  lemma AppendAssociative<T>(x: seq<T>, y: seq<T>, z: seq<T>)
    ensures x + (y + z) == (x + y) + z
  {
  }

  lemma Utf8EncodeCons(c: char, s: string)
    ensures Utf8Encode([c] + s) == Utf8EncodeChar(c) + Utf8Encode(s)
  {
    assert ([c] + s)[1..] == s;
  }

  /** Every byte of a multi-byte sequence is at least 0x80, so an ASCII byte stands only for itself. */
  lemma Utf8CharAsciiByte(c: char, b: byte)
    requires b < 0x80
    ensures (b in Utf8EncodeChar(c)) <==> c as int == b
  {
  }

  /**
    An ASCII byte occurs in the byte view of a string exactly where the
    string holds that character: byte 0x0A only as '\n', for instance.
   */
  lemma {:induction false} Utf8AsciiByte(s: string, b: byte)
    requires b < 0x80
    ensures (b in Utf8Encode(s)) <==> (b as char) in s
  {
    if s != [] {
      Utf8CharAsciiByte(s[0], b);
      Utf8AsciiByte(s[1..], b);
      assert s == [s[0]] + s[1..];
    }
  }

  /** The last byte of a non-empty string's byte view is an ASCII byte exactly when its last character is that character. */
  lemma Utf8LastByte(s: string, b: byte)
    requires s != [] && b < 0x80
    ensures var e := Utf8Encode(s); e[|e| - 1] == b <==> s[|s| - 1] as int == b
  {
    var n := |s|;
    var init, last := s[..n - 1], s[n - 1];
    assert s == init + [last];
    Utf8EncodeAppend(init, [last]);
    var q := Utf8EncodeChar(last);
    assert Utf8Encode([last]) == q;
    assert Utf8Encode(s) == Utf8Encode(init) + q;
    Utf8CharLastByte(last, b);
  }

  lemma Utf8CharLastByte(c: char, b: byte)
    requires b < 0x80
    ensures var q := Utf8EncodeChar(c); q[|q| - 1] == b <==> c as int == b
  {
  }

  /** A string of ASCII characters is its own byte view, code point by code point. */
  lemma {:induction false} Utf8EncodeAscii(s: string)
    requires forall i :: 0 <= i < |s| ==> s[i] as int < 0x80
    ensures Utf8Encode(s) == seq(|s|, i requires 0 <= i < |s| => s[i] as int)
  {
    if s != [] {
      Utf8EncodeAscii(s[1..]);
    }
  }

  // ---------------------------------------------------------------------
  // Base16
  // ---------------------------------------------------------------------

  function HexDigit(n: int): (c: char)
    requires 0 <= n < 16
    ensures IsLowerHexDigit(c)
  {
    if n < 10 then ('0' as int + n) as char else ('a' as int + n - 10) as char
  }

  /** Lowercase base16 encoding, two characters per byte, high nibble first. */
  function HexEncode(bs: seq<byte>): (r: string)
  {
    if bs == [] then [] else [HexDigit(bs[0] / 16), HexDigit(bs[0] % 16)] + HexEncode(bs[1..])
  }

  /** The value of a lowercase hex digit. */
  function HexValue(c: char): Option<nat> {
    if '0' <= c <= '9' then Some(c as int - '0' as int)
    else if 'a' <= c <= 'f' then Some(c as int - 'a' as int + 10)
    else None
  }

  /** Inverse of `HexEncode`: accepts exactly the strings it produces. */
  function HexDecode(s: string): (r: Option<seq<byte>>)
    decreases |s|
  {
    if s == [] then Some([])
    else if |s| == 1 then None
    else
      var hi :- HexValue(s[0]);
      var lo :- HexValue(s[1]);
      var rest :- HexDecode(s[2..]);
      if hi < 16 && lo < 16 then Some([hi * 16 + lo] + rest) else None
  }

  predicate IsLowerHexString(s: string) {
    forall i :: 0 <= i < |s| ==> IsLowerHexDigit(s[i])
  }

  /** Encoding doubles the length and uses only lowercase hex digits. */
  lemma {:induction false} HexEncodeShape(bs: seq<byte>)
    ensures |HexEncode(bs)| == 2 * |bs|
    ensures IsLowerHexString(HexEncode(bs))
  {
    if bs != [] {
      HexEncodeShape(bs[1..]);
    }
  }

  lemma HexPair(b: byte)
    ensures HexValue(HexDigit(b / 16)) == Some(b / 16)
    ensures HexValue(HexDigit(b % 16)) == Some(b % 16)
    ensures (b / 16) * 16 + b % 16 == b
  {
  }

  lemma {:induction false} HexRoundTrip(bs: seq<byte>)
    ensures HexDecode(HexEncode(bs)) == Some(bs)
  {
    if bs != [] {
      var e := HexEncode(bs);
      var hi, lo := bs[0] / 16, bs[0] % 16;
      HexPair(bs[0]);
      assert e[0] == HexDigit(hi) && e[1] == HexDigit(lo);
      assert e[2..] == HexEncode(bs[1..]);
      HexRoundTrip(bs[1..]);
      assert HexDecode(e) == Some([hi * 16 + lo] + bs[1..]);
      assert [bs[0]] + bs[1..] == bs;
    }
  }

  lemma HexDigitOfValue(c: char, n: nat)
    requires HexValue(c) == Some(n)
    ensures n < 16 && HexDigit(n) == c
  {
  }

  /** Whatever decodes was produced by the encoder: the decoder accepts nothing else. */
  lemma {:induction false} HexDecodeExact(s: string, bs: seq<byte>)
    requires HexDecode(s) == Some(bs)
    ensures HexEncode(bs) == s
    decreases |s|
  {
    if s != [] {
      var hi := HexValue(s[0]).value;
      var lo := HexValue(s[1]).value;
      var rest := HexDecode(s[2..]).value;
      HexDigitOfValue(s[0], hi);
      HexDigitOfValue(s[1], lo);
      HexDecodeExact(s[2..], rest);
      assert bs == [hi * 16 + lo] + rest;
      assert (hi * 16 + lo) / 16 == hi && (hi * 16 + lo) % 16 == lo;
      assert s == [s[0], s[1]] + s[2..];
    }
  }

  /** Encoding distributes over concatenation: each byte is encoded on its own. */
  lemma {:induction false} HexEncodeAppend(a: seq<byte>, b: seq<byte>)
    ensures HexEncode(a + b) == HexEncode(a) + HexEncode(b)
  {
    if a == [] {
      assert a + b == b;
    } else {
      assert (a + b)[0] == a[0] && (a + b)[1..] == a[1..] + b;
      HexEncodeAppend(a[1..], b);
    }
  }

  lemma HexInjective(a: seq<byte>, b: seq<byte>)
    requires HexEncode(a) == HexEncode(b)
    ensures a == b
  {
    HexRoundTrip(a);
    HexRoundTrip(b);
  }
}
