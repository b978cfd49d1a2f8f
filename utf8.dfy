/** UTF-8, the byte encoding that percent-encoding is applied to (RFC 3629 section 3). */
module Utf8 {
  import opened Basics

  type Byte = b: int | 0 <= b < 256

  predicate IsContinuation(b: Byte) {
    0x80 <= b < 0xC0
  }

  /** The code points a Dafny `char` (and a well-formed JavaScript string element) can hold. */
  predicate IsScalar(k: int) {
    0 <= k < 0xD800 || 0xE000 <= k < 0x110000
  }

  /** The UTF-8 bytes of one Unicode scalar value: one byte below U+0080, then two, three or four. */
  function EncodeChar(c: char): (r: seq<Byte>)
    ensures 1 <= |r| <= 4
    ensures (|r| == 1) <==> (c as int < 0x80)
  {
    var k := c as int;
    if k < 0x80 then [k]
    else if k < 0x800 then [0xC0 + k / 64, 0x80 + k % 64]
    else if k < 0x10000 then [0xE0 + k / 4096, 0x80 + (k / 64) % 64, 0x80 + k % 64]
    else [0xF0 + k / 262144, 0x80 + (k / 4096) % 64, 0x80 + (k / 64) % 64, 0x80 + k % 64]
  }

  /** The UTF-8 encoding of a string, character after character. */
  function Encode(s: string): (r: seq<Byte>)
    ensures |r| >= |s|
  {
    if s == [] then [] else EncodeChar(s[0]) + Encode(s[1..])
  }

  /** Encoding a concatenation concatenates the encodings. */
  lemma {:induction false} EncodeAppend(a: string, b: string)
    ensures Encode(a + b) == Encode(a) + Encode(b)
  {
    if a != [] {
      assert (a + b)[0] == a[0] && (a + b)[1..] == a[1..] + b;
      EncodeAppend(a[1..], b);
      assert Encode(a + b) == EncodeChar(a[0]) + (Encode(a[1..]) + Encode(b));
    } else {
      assert a + b == b;
    }
  }

  /** The six payload bits of a continuation byte. */
  function Payload(b: Byte): int {
    b as int - 0x80
  }

  /** Reads the first character of a byte sequence, with the number of bytes it takes. */
  function DecodeChar(bs: seq<Byte>): (r: Option<(char, nat)>)
    requires bs != []
    ensures r.Some? ==> 1 <= r.value.1 <= |bs|
  {
    var b0: int := bs[0];
    if b0 < 0x80 then Some((b0 as char, 1))
    else if 0xC0 <= b0 < 0xE0 && |bs| >= 2 && IsContinuation(bs[1]) then
      Some((((b0 - 0xC0) * 64 + Payload(bs[1])) as char, 2))
    else if 0xE0 <= b0 < 0xF0 && |bs| >= 3 && IsContinuation(bs[1]) && IsContinuation(bs[2]) then
      var k := (b0 - 0xE0) * 4096 + Payload(bs[1]) * 64 + Payload(bs[2]);
      if IsScalar(k) then Some((k as char, 3)) else None
    else if 0xF0 <= b0 < 0xF8 && |bs| >= 4 && IsContinuation(bs[1]) && IsContinuation(bs[2]) && IsContinuation(bs[3]) then
      var k := (b0 - 0xF0) * 262144 + Payload(bs[1]) * 4096 + Payload(bs[2]) * 64 + Payload(bs[3]);
      if IsScalar(k) then Some((k as char, 4)) else None
    else None
  }

  /** Reference UTF-8 decoder: the inverse of Encode. */
  function Decode(bs: seq<Byte>): Option<string>
    decreases |bs|
  {
    if bs == [] then Some("")
    else
      match DecodeChar(bs)
      case None => None
      case Some((c, n)) => Prepend([c], Decode(bs[n..]))
  }

  /** One step of the decoder. */
  lemma DecodeStep(bs: seq<Byte>, c: char, n: nat)
    requires bs != [] && DecodeChar(bs) == Some((c, n))
    ensures Decode(bs) == Prepend([c], Decode(bs[n..]))
  {
  }

  lemma DigitsBase64(k: nat)
    ensures k == (k / 64) * 64 + k % 64
    ensures k / 4096 == (k / 64) / 64
    ensures k / 64 == (k / 4096) * 64 + (k / 64) % 64
    ensures k / 262144 == (k / 4096) / 64
    ensures k / 4096 == (k / 262144) * 64 + (k / 4096) % 64
  {
  }

  /** The first character of an encoding is read back, with exactly its bytes. */
  lemma DecodeEncodedChar(c: char, rest: seq<Byte>)
    ensures DecodeChar(EncodeChar(c) + rest) == Some((c, |EncodeChar(c)|))
  {
    var k := c as int;
    var bs := EncodeChar(c) + rest;
    if k < 0x80 {
    } else if k < 0x800 {
      DecodeTwo(c, bs);
    } else if k < 0x10000 {
      DecodeThree(c, bs);
    } else {
      DecodeFour(c, bs);
    }
  }

  lemma DecodeTwo(c: char, bs: seq<Byte>)
    requires 0x80 <= c as int < 0x800
    requires |bs| >= 2 && bs[0] == 0xC0 + (c as int) / 64 && bs[1] == 0x80 + (c as int) % 64
    ensures DecodeChar(bs) == Some((c, 2))
  {
    var k := c as int;
    DigitsBase64(k);
    assert (bs[0] as int - 0xC0) * 64 + Payload(bs[1]) == k;
  }

  lemma DecodeThree(c: char, bs: seq<Byte>)
    requires 0x800 <= c as int < 0x10000
    requires |bs| >= 3 && bs[0] == 0xE0 + (c as int) / 4096
    requires bs[1] == 0x80 + ((c as int) / 64) % 64 && bs[2] == 0x80 + (c as int) % 64
    ensures DecodeChar(bs) == Some((c, 3))
  {
    var k := c as int;
    DigitsBase64(k);
    assert (bs[0] as int - 0xE0) * 4096 + Payload(bs[1]) * 64 + Payload(bs[2]) == k;
  }

  lemma DecodeFour(c: char, bs: seq<Byte>)
    requires 0x10000 <= c as int
    requires |bs| >= 4 && bs[0] == 0xF0 + (c as int) / 262144 && bs[1] == 0x80 + ((c as int) / 4096) % 64
    requires bs[2] == 0x80 + ((c as int) / 64) % 64 && bs[3] == 0x80 + (c as int) % 64
    ensures DecodeChar(bs) == Some((c, 4))
  {
    var k := c as int;
    DigitsBase64(k);
    assert (bs[0] as int - 0xF0) * 262144 + Payload(bs[1]) * 4096 + Payload(bs[2]) * 64 + Payload(bs[3]) == k;
  }

  /** Decoding an encoding followed by more bytes reads the string back, then decodes the rest. */
  lemma {:induction false} DecodeEncodedPrefix(s: string, rest: seq<Byte>)
    ensures Decode(Encode(s) + rest) == Prepend(s, Decode(rest))
  {
    if s == [] {
      assert Encode(s) + rest == rest;
      if Decode(rest).Some? {
        assert s + Decode(rest).value == Decode(rest).value;
      }
    } else {
      var tail := Encode(s[1..]) + rest;
      assert Encode(s) + rest == EncodeChar(s[0]) + tail;
      DecodeCharThenRest(s[0], tail);
      DecodeEncodedPrefix(s[1..], rest);
      PrependTwice([s[0]], s[1..], Decode(rest));
      assert [s[0]] + s[1..] == s;
    }
  }

  lemma DecodeCharThenRest(c: char, tail: seq<Byte>)
    ensures Decode(EncodeChar(c) + tail) == Prepend([c], Decode(tail))
  {
    var e := EncodeChar(c);
    DecodeEncodedChar(c, tail);
    assert (e + tail)[|e|..] == tail;
    DecodeStep(e + tail, c, |e|);
  }

  lemma PrependTwice<T>(a: seq<T>, b: seq<T>, r: Option<seq<T>>)
    ensures Prepend(a, Prepend(b, r)) == Prepend(a + b, r)
  {
    if r.Some? {
      assert a + (b + r.value) == (a + b) + r.value;
    }
  }

  /** UTF-8 round trip: decoding the encoding of a string gives the string. */
  lemma {:induction false} DecodeEncode(s: string)
    ensures Decode(Encode(s)) == Some(s)
  {
    DecodeEncodedPrefix(s, []);
    assert Encode(s) + [] == Encode(s);
    assert Decode([]) == Some("") && s + "" == s;
  }
}
