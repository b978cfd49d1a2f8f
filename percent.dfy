/** Percent-encoding of text for URLs: the `application/x-www-form-urlencoded` serializer behind
    `URLSearchParams` (section 5.2 of the WHATWG URL Standard) and ECMAScript's
    `encodeURIComponent` (ECMA-262 section 19.2.6.5). Both encode the UTF-8 bytes of the text;
    they differ only in which bytes they leave as they are. */
module PercentEncoding {
  import opened Basics
  import Utf8

  type Byte = Utf8.Byte

  datatype EncodeSet = FormUrlencoded | UriComponent

  predicate IsAlnumByte(b: int) {
    (0x30 <= b <= 0x39) || (0x41 <= b <= 0x5A) || (0x61 <= b <= 0x7A)
  }

  /** The bytes each encoder copies unchanged: ASCII letters and digits, plus `*-._` for the
      form serializer and `-_.!~*'()` for `encodeURIComponent`. */
  predicate LeftAsIs(es: EncodeSet, b: int) {
    || IsAlnumByte(b)
    || (es == FormUrlencoded && (b == 0x2A || b == 0x2D || b == 0x2E || b == 0x5F))
    || (es == UriComponent
        && (b == 0x2D || b == 0x5F || b == 0x2E || b == 0x21 || b == 0x7E || b == 0x2A || b == 0x27 || b == 0x28 || b == 0x29))
  }

  /** The characters an encoder can emit. */
  predicate SafeChar(es: EncodeSet, c: char) {
    c == '%' || (es == FormUrlencoded && c == '+') || LeftAsIs(es, c as int)
  }

  /** Upper-case hexadecimal digit. */
  function HexDigit(d: int): (c: char)
    requires 0 <= d < 16
    ensures '0' <= c <= '9' || 'A' <= c <= 'F'
  {
    if d < 10 then ('0' as int + d) as char else ('A' as int + d - 10) as char
  }

  /** The value of a hexadecimal digit of either case. */
  function HexValue(c: char): (r: Option<int>)
    ensures r.Some? ==> 0 <= r.value < 16
    ensures r.Some? <==> ('0' <= c <= '9' || 'A' <= c <= 'F' || 'a' <= c <= 'f')
  {
    if '0' <= c <= '9' then Some(c as int - '0' as int)
    else if 'A' <= c <= 'F' then Some(c as int - 'A' as int + 10)
    else if 'a' <= c <= 'f' then Some(c as int - 'a' as int + 10)
    else None
  }

  lemma HexValueOfDigit(d: int)
    requires 0 <= d < 16
    ensures HexValue(HexDigit(d)) == Some(d)
  {
  }

  /** One byte as it appears in the output: itself, `+` for a space in a form, or `%XX`. */
  function EncodeByte(es: EncodeSet, b: Byte): (r: string)
    ensures |r| == 1 <==> LeftAsIs(es, b) || (es == FormUrlencoded && b == 0x20)
    ensures |r| == 1 || |r| == 3
    ensures forall i :: 0 <= i < |r| ==> SafeChar(es, r[i])
    ensures |r| == 3 ==> r[0] == '%'
  {
    if LeftAsIs(es, b) then [b as char]
    else if es == FormUrlencoded && b == 0x20 then "+"
    else ['%', HexDigit(b as int / 16), HexDigit(b as int % 16)]
  }

  function EncodeBytes(es: EncodeSet, bs: seq<Byte>): (r: string)
    ensures |r| >= |bs|
    ensures forall i :: 0 <= i < |r| ==> SafeChar(es, r[i])
  {
    if bs == [] then "" else EncodeByte(es, bs[0]) + EncodeBytes(es, bs[1..])
  }

  /** Percent-encodes the UTF-8 encoding of `s`. */
  function PercentEncode(es: EncodeSet, s: string): string {
    EncodeBytes(es, Utf8.Encode(s))
  }

  /** What `URLSearchParams` writes for a name or a value. */
  function FormEncode(s: string): string {
    PercentEncode(FormUrlencoded, s)
  }

  /** `encodeURIComponent`. */
  function EncodeUriComponent(s: string): string {
    PercentEncode(UriComponent, s)
  }

  /** Neither encoder emits a character that delimits a query or a fragment: no `&`, `=`, `#`,
      `?` and no space, so an encoded component can be placed between them unambiguously. */
  lemma NoDelimiters(es: EncodeSet, s: string)
    ensures '&' !in PercentEncode(es, s) && '=' !in PercentEncode(es, s)
    ensures '#' !in PercentEncode(es, s) && '?' !in PercentEncode(es, s)
    ensures ' ' !in PercentEncode(es, s) && '|' !in PercentEncode(es, s)
  {
    var r := PercentEncode(es, s);
    forall i | 0 <= i < |r|
      ensures r[i] != '&' && r[i] != '=' && r[i] != '#' && r[i] != '?' && r[i] != ' ' && r[i] != '|'
    {
      assert SafeChar(es, r[i]);
    }
  }

  /** Strict reference decoder: `%XX` is a byte, `+` is a space in a form, any other ASCII
      character is itself; a stray `%` or a non-ASCII character fails. */
  function DecodeBytes(es: EncodeSet, s: string): (r: Option<seq<Byte>>)
    decreases |s|
  {
    if s == [] then Some([])
    else if s[0] == '%' then
      if |s| >= 3 && HexValue(s[1]).Some? && HexValue(s[2]).Some? then
        Prepend([HexValue(s[1]).value * 16 + HexValue(s[2]).value], DecodeBytes(es, s[3..]))
      else None
    else if es == FormUrlencoded && s[0] == '+' then Prepend([0x20], DecodeBytes(es, s[1..]))
    else if s[0] as int < 0x80 then Prepend([s[0] as int], DecodeBytes(es, s[1..]))
    else None
  }

  /** Strict reference decoder for text: bytes first, then UTF-8. */
  function PercentDecode(es: EncodeSet, s: string): Option<string> {
    match DecodeBytes(es, s)
    case None => None
    case Some(bs) => Utf8.Decode(bs)
  }

  /** The encoding of one byte is decoded back to it, whatever follows. */
  lemma DecodeEncodedByte(es: EncodeSet, b: Byte, rest: string)
    ensures DecodeBytes(es, EncodeByte(es, b) + rest) == Prepend([b], DecodeBytes(es, rest))
  {
    var e := EncodeByte(es, b);
    var s := e + rest;
    assert s[|e|..] == rest;
    if |e| == 3 {
      HexValueOfDigit(b as int / 16);
      HexValueOfDigit(b as int % 16);
      assert s[1] == HexDigit(b as int / 16) && s[2] == HexDigit(b as int % 16);
    } else {
      assert s[0] == e[0];
    }
  }

  /** Decoding an encoding followed by more text yields the bytes, then decodes the rest. */
  lemma {:induction false} DecodeEncodedBytes(es: EncodeSet, bs: seq<Byte>, rest: string)
    ensures DecodeBytes(es, EncodeBytes(es, bs) + rest) == Prepend(bs, DecodeBytes(es, rest))
  {
    if bs == [] {
      assert EncodeBytes(es, bs) + rest == rest;
      if DecodeBytes(es, rest).Some? {
        assert bs + DecodeBytes(es, rest).value == DecodeBytes(es, rest).value;
      }
    } else {
      var tail := EncodeBytes(es, bs[1..]) + rest;
      assert EncodeBytes(es, bs) + rest == EncodeByte(es, bs[0]) + tail;
      DecodeEncodedByte(es, bs[0], tail);
      DecodeEncodedBytes(es, bs[1..], rest);
      Utf8.PrependTwice([bs[0]], bs[1..], DecodeBytes(es, rest));
      assert [bs[0]] + bs[1..] == bs;
    }
  }

  /** Byte-level round trip. */
  lemma DecodeBytesEncodeBytes(es: EncodeSet, bs: seq<Byte>)
    ensures DecodeBytes(es, EncodeBytes(es, bs)) == Some(bs)
  {
    DecodeEncodedBytes(es, bs, "");
    assert EncodeBytes(es, bs) + "" == EncodeBytes(es, bs);
    assert bs + [] == bs;
  }

  /** Text round trip: the reference decoder inverts both encoders. */
  lemma PercentRoundTrip(es: EncodeSet, s: string)
    ensures PercentDecode(es, PercentEncode(es, s)) == Some(s)
  {
    DecodeBytesEncodeBytes(es, Utf8.Encode(s));
    Utf8.DecodeEncode(s);
  }

  lemma {:induction false} EncodeBytesAppend(es: EncodeSet, a: seq<Byte>, b: seq<Byte>)
    ensures EncodeBytes(es, a + b) == EncodeBytes(es, a) + EncodeBytes(es, b)
  {
    if a != [] {
      assert (a + b)[0] == a[0] && (a + b)[1..] == a[1..] + b;
      EncodeBytesAppend(es, a[1..], b);
    } else {
      assert a + b == b;
    }
  }

  /** Encoding works character by character: a concatenation encodes as the concatenation. */
  lemma PercentEncodeAppend(es: EncodeSet, a: string, b: string)
    ensures PercentEncode(es, a + b) == PercentEncode(es, a) + PercentEncode(es, b)
  {
    Utf8.EncodeAppend(a, b);
    EncodeBytesAppend(es, Utf8.Encode(a), Utf8.Encode(b));
  }

  /** Text made only of characters the encoder leaves as they are comes out unchanged. */
  lemma {:induction false} PercentEncodeUnreserved(es: EncodeSet, s: string)
    requires forall i :: 0 <= i < |s| ==> LeftAsIs(es, s[i] as int)
    ensures PercentEncode(es, s) == s
  {
    if s != [] {
      assert [s[0]] + s[1..] == s;
      PercentEncodeAppend(es, [s[0]], s[1..]);
      PercentEncodeUnreserved(es, s[1..]);
      assert Utf8.Encode([s[0]]) == [s[0] as int];
    }
  }

  /** An ASCII character the decoder takes literally is one byte of its own. */
  lemma DecodeLiteral(es: EncodeSet, c: char, rest: string)
    requires c != '%' && c as int < 0x80 && !(es == FormUrlencoded && c == '+')
    ensures DecodeBytes(es, [c] + rest) == Prepend([c as int], DecodeBytes(es, rest))
  {
    assert ([c] + rest)[1..] == rest;
  }

  /** Text in which a literal space joins two encoded parts, as in a `mailto:` subject, is
      decoded by the `encodeURIComponent` reference decoder to the two parts around a space. */
  lemma DecodeSpaceJoined(a: string, b: string)
    ensures PercentDecode(UriComponent, EncodeUriComponent(a) + " " + EncodeUriComponent(b)) == Some(a + " " + b)
  {
    var ea := Utf8.Encode(a);
    var eb := Utf8.Encode(b);
    var pb := EncodeUriComponent(b);
    var t := EncodeUriComponent(a) + " " + pb;
    assert DecodeBytes(UriComponent, t) == Some(ea + [0x20] + eb) by {
      assert t == EncodeBytes(UriComponent, ea) + ([' '] + pb);
      DecodeEncodedBytes(UriComponent, ea, [' '] + pb);
      DecodeLiteral(UriComponent, ' ', pb);
      DecodeBytesEncodeBytes(UriComponent, eb);
      Utf8.PrependTwice(ea, [0x20], Some(eb));
    }
    assert ea + [0x20] + eb == Utf8.Encode(a + " " + b) by {
      SpaceBytes(a, b);
    }
    Utf8.DecodeEncode(a + " " + b);
  }

  lemma SpaceBytes(a: string, b: string)
    ensures Utf8.Encode(a + " " + b) == Utf8.Encode(a) + [0x20] + Utf8.Encode(b)
  {
    Utf8.EncodeAppend(a, " ");
    Utf8.EncodeAppend(a + " ", b);
    assert Utf8.Encode(" ") == [0x20];
  }

  /** A space between two words of letters and digits becomes `+` in a form
      (`Paris Weekend` is written `Paris+Weekend`). */
  lemma FormEncodeSpace(p: string, w: string)
    requires forall i :: 0 <= i < |p| ==> IsAlnumByte(p[i] as int)
    requires forall i :: 0 <= i < |w| ==> IsAlnumByte(w[i] as int)
    ensures FormEncode(p + " " + w) == p + "+" + w
  {
    assert p + " " + w == p + (" " + w);
    PercentEncodeAppend(FormUrlencoded, p, " " + w);
    PercentEncodeAppend(FormUrlencoded, " ", w);
    PercentEncodeUnreserved(FormUrlencoded, p);
    PercentEncodeUnreserved(FormUrlencoded, w);
    assert PercentEncode(FormUrlencoded, " ") == "+" by {
      assert Utf8.Encode(" ") == [0x20];
    }
  }

  /** A space becomes `%20` in a URI component, and an accented letter its two UTF-8 bytes. */
  lemma UriComponentExample()
    ensures EncodeUriComponent(" ") == "%20"
    ensures EncodeUriComponent("é") == "%C3%A9"
  {
    assert Utf8.Encode(" ") == [0x20];
    assert Utf8.Encode("é") == [0xC3, 0xA9];
  }
}
