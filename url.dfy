/** A URL whose query is built with `URLSearchParams.append` and read with `toString()`
    (WHATWG URL Standard, sections 5.2 and 6.2). */
module Urls {
  import opened Basics
  import opened Text
  import opened PercentEncoding

  type Param = (string, string)

  /** One `name=value` pair as the form serializer writes it. */
  function SerializeParam(p: Param): (r: string)
    ensures '&' !in r
  {
    NoDelimiters(FormUrlencoded, p.0);
    NoDelimiters(FormUrlencoded, p.1);
    FormEncode(p.0) + "=" + FormEncode(p.1)
  }

  function SerializeParams(ps: seq<Param>): (r: seq<string>)
    ensures |r| == |ps|
    ensures forall i :: 0 <= i < |ps| ==> r[i] == SerializeParam(ps[i])
  {
    if ps == [] then [] else [SerializeParam(ps[0])] + SerializeParams(ps[1..])
  }

  /** The `application/x-www-form-urlencoded` serialization of a parameter list: the pairs in
      order, separated by `&`. */
  function SerializeForm(ps: seq<Param>): string {
    Join(SerializeParams(ps), "&")
  }

  /** Reference parser for a pair written by SerializeParam: exactly one `=`, both sides decoded. */
  function ParseParam(s: string): Option<Param> {
    var halves := Split(s, '=');
    if |halves| != 2 then None
    else
      match (PercentDecode(FormUrlencoded, halves[0]), PercentDecode(FormUrlencoded, halves[1]))
      case (Some(name), Some(value)) => Some((name, value))
      case _ => None
  }

  function ParseParams(fields: seq<string>): Option<seq<Param>> {
    if fields == [] then Some([])
    else
      match (ParseParam(fields[0]), ParseParams(fields[1..]))
      case (Some(p), Some(rest)) => Some([p] + rest)
      case _ => None
  }

  /** Reference parser for a serialized query: the empty query has no pairs. */
  function ParseForm(q: string): Option<seq<Param>> {
    if q == "" then Some([]) else ParseParams(Split(q, '&'))
  }

  lemma ParseSerializedParam(p: Param)
    ensures ParseParam(SerializeParam(p)) == Some(p)
  {
    var a, b := FormEncode(p.0), FormEncode(p.1);
    NoDelimiters(FormUrlencoded, p.0);
    NoDelimiters(FormUrlencoded, p.1);
    SplitAfterPart(a, b, '=');
    SplitNoSeparator(b, '=');
    assert Split(SerializeParam(p), '=') == [a, b];
    PercentRoundTrip(FormUrlencoded, p.0);
    PercentRoundTrip(FormUrlencoded, p.1);
  }

  lemma {:induction false} ParseSerializedParams(ps: seq<Param>)
    ensures ParseParams(SerializeParams(ps)) == Some(ps)
  {
    if ps != [] {
      var fs := SerializeParams(ps);
      assert fs[1..] == SerializeParams(ps[1..]);
      ParseSerializedParam(ps[0]);
      ParseSerializedParams(ps[1..]);
      assert [ps[0]] + ps[1..] == ps;
    }
  }

  /** The serializer and the reference parser are inverse: a serialized parameter list is read
      back pair for pair, in order. */
  lemma ParseSerializeForm(ps: seq<Param>)
    ensures ParseForm(SerializeForm(ps)) == Some(ps)
  {
    var fs := SerializeParams(ps);
    if ps == [] {
    } else {
      forall i | 0 <= i < |fs| ensures fs[i] != "" && '&' !in fs[i] {
        assert '=' in fs[i];
      }
      JoinEmptyIff(fs, "&");
      SplitJoin(fs, '&');
      ParseSerializedParams(ps);
    }
  }

  /** The text after the first occurrence of `c`, if there is one. */
  function AfterFirst(s: string, c: char): (r: Option<string>)
    ensures r.None? <==> c !in s
  {
    if s == [] then None
    else if s[0] == c then Some(s[1..])
    else AfterFirst(s[1..], c)
  }

  lemma {:induction false} AfterFirstJoin(a: string, c: char, b: string)
    requires c !in a
    ensures AfterFirst(a + [c] + b, c) == Some(b)
  {
    if a == [] {
      assert ([c] + b)[1..] == b;
    } else {
      assert (a + [c] + b)[1..] == a[1..] + [c] + b;
      AfterFirstJoin(a[1..], c, b);
    }
  }

  /** `URL.toString()` for a URL without query or fragment of its own plus the parameters:
      no `?` when there are none. */
  function HrefOf(base: string, ps: seq<Param>): string {
    if ps == [] then base else base + "?" + SerializeForm(ps)
  }

  /** The query of the serialized URL is read back as exactly the parameters appended. */
  lemma QueryOfHref(base: string, ps: seq<Param>)
    requires '?' !in base
    ensures ps == [] ==> AfterFirst(HrefOf(base, ps), '?') == None
    ensures ps != [] ==> AfterFirst(HrefOf(base, ps), '?') == Some(SerializeForm(ps))
    ensures ps != [] ==> ParseForm(AfterFirst(HrefOf(base, ps), '?').value) == Some(ps)
  {
    if ps != [] {
      AfterFirstJoin(base, '?', SerializeForm(ps));
      ParseSerializeForm(ps);
    }
  }

  /** A `URL` object on a base without query or fragment, with its `searchParams` list. */
  class Url {
    const base: string
    var searchParams: seq<Param>

    constructor(base: string)
      requires '?' !in base && '#' !in base
      ensures this.base == base && searchParams == []
    {
      this.base := base;
      searchParams := [];
    }

    /** `searchParams.append(name, value)`: adds the pair at the end. */
    method Append(name: string, value: string)
      modifies this
      ensures searchParams == old(searchParams) + [(name, value)]
    {
      searchParams := searchParams + [(name, value)];
    }

    /** `toString()`. */
    function Href(): string
      reads this
    {
      HrefOf(base, searchParams)
    }
  }
}
