/** The percent-encoder `urlencoding` of src/lib.rs.

    It follows section 2.1 (percent-encoding) and section 2.3 (unreserved
    characters) of RFC 3986: unreserved characters pass through, space and
    `:` `>` `<` have fixed escapes, and every other character is written as
    the `%XX` triples of its UTF-8 bytes with upper-case hexadecimal digits.
    The encoder's inverse is a percent-decoder; decoding its
    output and then UTF-8-decoding the bytes gives back the input. */
module UrlEncoding {
  import opened Results
  import Utf8

  /** The unreserved characters of RFC 3986, section 2.3. */
  predicate IsUnreserved(c: char) {
    || 'a' <= c <= 'z' || 'A' <= c <= 'Z' || '0' <= c <= '9'
    || c == '-' || c == '_' || c == '.' || c == '~'
  }

  predicate IsUpperHexDigit(c: char) {
    '0' <= c <= '9' || 'A' <= c <= 'F'
  }

  /** Hexadecimal digits as a decoder accepts them, in either case. */
  predicate IsHexDigit(c: char) {
    '0' <= c <= '9' || 'A' <= c <= 'F' || 'a' <= c <= 'f'
  }

  /** The upper-case digit of a nibble, as `{:02X}` prints it. */
  function HexDigit(v: nat): (c: char)
    requires v < 16
    ensures IsUpperHexDigit(c)
    ensures HexValue(c) == v
  {
    if v < 10 then ('0' as int + v) as char else ('A' as int + v - 10) as char
  }

  function HexValue(c: char): (v: nat)
    requires IsHexDigit(c)
    ensures v < 16
  {
    if '0' <= c <= '9' then c as int - '0' as int
    else if 'A' <= c <= 'F' then c as int - 'A' as int + 10
    else c as int - 'a' as int + 10
  }

  /** Every `%` in `t` begins a complete `%XX` triple with upper-case digits. */
  predicate EscapesWellFormed(t: string) {
    forall i :: 0 <= i < |t| && t[i] == '%' ==>
      i + 2 < |t| && IsUpperHexDigit(t[i + 1]) && IsUpperHexDigit(t[i + 2])
  }

  /** `%XX` for one byte. */
  function EscapeByte(b: Utf8.byte): (t: string)
    ensures |t| == 3 && t[0] == '%' && IsUpperHexDigit(t[1]) && IsUpperHexDigit(t[2])
    ensures HexValue(t[1]) * 16 + HexValue(t[2]) == b as int
  {
    ['%', HexDigit(b as int / 16), HexDigit(b as int % 16)]
  }

  /** The `%XX` triples of a byte sequence, in order. */
  function EscapeBytes(bs: seq<Utf8.byte>): (t: string)
    ensures |t| == 3 * |bs|
    ensures forall k :: 0 <= k < |bs| ==> t[3 * k..3 * k + 3] == EscapeByte(bs[k])
    ensures forall i :: 0 <= i < |t| ==> t[i] == '%' || IsUpperHexDigit(t[i])
    ensures forall i :: 0 <= i < |t| ==> IsUnreserved(t[i]) || t[i] == '%'
    ensures EscapesWellFormed(t)
  {
    if |bs| == 0 then [] else EscapeByte(bs[0]) + EscapeBytes(bs[1..])
  }

  /** The encoding of one character.  The fixed escapes for space, `:`, `>`
      and `<` are exactly what the general rule would produce, so every
      reserved or non-ASCII character is escaped as its UTF-8 bytes. */
  function EncodeChar(c: char): (t: string)
    ensures IsUnreserved(c) ==> t == [c]
    ensures !IsUnreserved(c) ==> t == EscapeBytes(Utf8.EncodeChar(c))
  {
    if IsUnreserved(c) then [c]
    else if c == ' ' then "%20"
    else if c == ':' then "%3A"
    else if c == '>' then "%3E"
    else if c == '<' then "%3C"
    else EscapeBytes(Utf8.EncodeChar(c))
  }

  /** The encoding of a string, character after character. */
  function Encode(s: string): (t: string)
    ensures |t| >= |s|
  {
    if |s| == 0 then [] else EncodeChar(s[0]) + Encode(s[1..])
  }

  /** The encoding consists of unreserved characters and complete `%XX`
      triples with upper-case digits. */
  lemma {:induction false} EncodeAlphabet(s: string)
    ensures forall i :: 0 <= i < |Encode(s)| ==> IsUnreserved(Encode(s)[i]) || Encode(s)[i] == '%'
    ensures EscapesWellFormed(Encode(s))
    decreases |s|
  {
    if |s| > 0 {
      EncodeCharAlphabet(s[0]);
      EncodeAlphabet(s[1..]);
    }
  }

  lemma {:induction false} EncodeCharAlphabet(c: char)
    ensures forall i :: 0 <= i < |EncodeChar(c)| ==> IsUnreserved(EncodeChar(c)[i]) || EncodeChar(c)[i] == '%'
    ensures EscapesWellFormed(EncodeChar(c))
  {
    if !IsUnreserved(c) {
      var bs := Utf8.EncodeChar(c);
      assert EncodeChar(c) == EscapeBytes(bs);
    }
  }

  /** The loop of `urlencoding`: push each character's encoding onto the result. */
  method UrlEncoding(s: string) returns (result: string)
    ensures result == Encode(s)
  {
    result := [];
    var i := 0;
    while i < |s|
      invariant 0 <= i <= |s|
      invariant result == Encode(s[..i])
    {
      EncodeSnoc(s, i);
      result := result + EncodeChar(s[i]);
      i := i + 1;
    }
    assert s[..i] == s;
  }

  lemma {:induction false} EncodeSnoc(s: string, i: nat)
    requires i < |s|
    ensures Encode(s[..i + 1]) == Encode(s[..i]) + EncodeChar(s[i])
  {
    EncodeAppend(s[..i], [s[i]]);
    assert s[..i + 1] == s[..i] + [s[i]];
    EncodeSingle(s[i]);
  }

  lemma {:induction false} EncodeSingle(c: char)
    ensures Encode([c]) == EncodeChar(c)
  {
    assert [c][1..] == [];
    assert Encode([c]) == EncodeChar(c) + Encode([]);
  }

  /** Encoding distributes over concatenation. */
  lemma {:induction false} EncodeAppend(a: string, b: string)
    ensures Encode(a + b) == Encode(a) + Encode(b)
    decreases |a|
  {
    if |a| == 0 {
      assert a + b == b;
    } else {
      assert (a + b)[0] == a[0] && (a + b)[1..] == a[1..] + b;
      EncodeAppend(a[1..], b);
    }
  }

  /** Space, `:`, `>` and `<` have fixed escapes; `=`, which has none, is
      escaped by the general rule all the same. */
  lemma FixedEscapes()
    ensures EncodeChar(' ') == "%20" && EncodeChar(':') == "%3A"
    ensures EncodeChar('>') == "%3E" && EncodeChar('<') == "%3C"
    ensures EncodeChar('=') == "%3D" && EncodeChar('&') == "%26"
  {
    EscapeAscii(' ');
    EscapeAscii(':');
    EscapeAscii('>');
    EscapeAscii('<');
    EscapeAscii('=');
    EscapeAscii('&');
  }

  /** A reserved ASCII character is escaped as the one triple of its code. */
  lemma {:induction false} EscapeAscii(c: char)
    requires c as int < 0x80 && !IsUnreserved(c)
    ensures EncodeChar(c) == EscapeByte(c as int as Utf8.byte)
  {
    var bs := Utf8.EncodeChar(c);
    assert bs == [c as int as Utf8.byte];
    assert EscapeBytes(bs) == EscapeByte(bs[0]) + EscapeBytes([]);
  }

  /** No character of an encoded component can end the `q` value or start
      another parameter, a fragment or a second query. */
  lemma {:induction false} EncodedHasNoDelimiters(s: string)
    ensures var t := Encode(s);
            ' ' !in t && '&' !in t && '=' !in t && '#' !in t && '?' !in t && '+' !in t
  {
    var t := Encode(s);
    EncodeAlphabet(s);
    OnlyAlphabet(t, ' ');
    OnlyAlphabet(t, '&');
    OnlyAlphabet(t, '=');
    OnlyAlphabet(t, '#');
    OnlyAlphabet(t, '?');
    OnlyAlphabet(t, '+');
  }

  lemma {:induction false} OnlyAlphabet(t: string, c: char)
    requires forall i :: 0 <= i < |t| ==> IsUnreserved(t[i]) || t[i] == '%'
    requires !IsUnreserved(c) && c != '%'
    ensures c !in t
  {
  }

  /** Percent-decoding into bytes: `%` must start two hexadecimal digits, any
      other ASCII character stands for its own byte, and a non-ASCII
      character is invalid in an encoded component. */
  function PercentDecode(t: string): Option<seq<Utf8.byte>>
    decreases |t|
  {
    if |t| == 0 then Some([])
    else if t[0] == '%' then
      if |t| >= 3 && IsHexDigit(t[1]) && IsHexDigit(t[2]) then
        Prepend([(HexValue(t[1]) * 16 + HexValue(t[2])) as Utf8.byte], PercentDecode(t[3..]))
      else None
    else if t[0] as int < 0x80 then
      Prepend([t[0] as int as Utf8.byte], PercentDecode(t[1..]))
    else None
  }

  function Prepend(bs: seq<Utf8.byte>, rest: Option<seq<Utf8.byte>>): Option<seq<Utf8.byte>> {
    match rest
    case None => None
    case Some(r) => Some(bs + r)
  }

  /** A component decoded to bytes and then to characters. */
  function Decode(t: string): Option<string> {
    match PercentDecode(t)
    case None => None
    case Some(bs) => Utf8.Decode(bs)
  }

  lemma {:induction false} PercentDecodeEscapeBytes(bs: seq<Utf8.byte>, rest: string)
    ensures PercentDecode(EscapeBytes(bs) + rest) == Prepend(bs, PercentDecode(rest))
    decreases |bs|
  {
    if |bs| == 0 {
      assert EscapeBytes(bs) + rest == rest;
      PrependNothing(PercentDecode(rest));
    } else {
      var tail := EscapeBytes(bs[1..]) + rest;
      assert EscapeBytes(bs) + rest == EscapeByte(bs[0]) + tail;
      PercentDecodeEscapeByte(bs[0], tail);
      PercentDecodeEscapeBytes(bs[1..], rest);
      PrependPrepend([bs[0]], bs[1..], PercentDecode(rest));
      assert [bs[0]] + bs[1..] == bs;
    }
  }

  /** A `%XX` triple decodes to its byte. */
  lemma {:induction false} PercentDecodeEscapeByte(b: Utf8.byte, rest: string)
    ensures PercentDecode(EscapeByte(b) + rest) == Prepend([b], PercentDecode(rest))
  {
    var e := EscapeByte(b);
    var t := e + rest;
    assert t[0] == '%' && t[1] == e[1] && t[2] == e[2];
    assert t[3..] == rest;
  }

  lemma {:induction false} PrependNothing(r: Option<seq<Utf8.byte>>)
    ensures Prepend([], r) == r
  {
    if r.Some? {
      assert [] + r.value == r.value;
    }
  }

  lemma {:induction false} PrependPrepend(a: seq<Utf8.byte>, b: seq<Utf8.byte>, r: Option<seq<Utf8.byte>>)
    ensures Prepend(a, Prepend(b, r)) == Prepend(a + b, r)
  {
    if r.Some? {
      assert a + (b + r.value) == (a + b) + r.value;
    }
  }

  lemma {:induction false} PercentDecodeEncodeChar(c: char, rest: string)
    ensures PercentDecode(EncodeChar(c) + rest) == Prepend(Utf8.EncodeChar(c), PercentDecode(rest))
  {
    if IsUnreserved(c) {
      assert ([c] + rest)[1..] == rest;
    } else {
      PercentDecodeEscapeBytes(Utf8.EncodeChar(c), rest);
    }
  }

  /** Percent-decoding the encoding of `s` gives the UTF-8 bytes of `s`. */
  lemma {:induction false} PercentDecodeEncode(s: string)
    ensures PercentDecode(Encode(s)) == Some(Utf8.Encode(s))
    decreases |s|
  {
    if |s| > 0 {
      PercentDecodeEncodeChar(s[0], Encode(s[1..]));
      PercentDecodeEncode(s[1..]);
    }
  }

  /** Decoding the encoding of `s` gives back `s`. */
  lemma {:induction false} RoundTrip(s: string)
    ensures Decode(Encode(s)) == Some(s)
  {
    PercentDecodeEncode(s);
    Utf8.DecodeEncode(s);
  }

  /** Different strings have different encodings. */
  lemma {:induction false} EncodeInjective(a: string, b: string)
    requires Encode(a) == Encode(b)
    ensures a == b
  {
    RoundTrip(a);
    RoundTrip(b);
  }

  /** The encoding is exactly as long as the input iff every character is
      unreserved; otherwise it is longer. */
  lemma {:induction false} EncodeLength(s: string)
    ensures |Encode(s)| == |s| <==> forall i :: 0 <= i < |s| ==> IsUnreserved(s[i])
    decreases |s|
  {
    if |s| > 0 {
      EncodeLength(s[1..]);
      assert forall i :: 1 <= i < |s| ==> s[i] == s[1..][i - 1];
    }
  }

  /** A string of unreserved characters is its own encoding. */
  lemma {:induction false} EncodeUnreserved(s: string)
    requires forall i :: 0 <= i < |s| ==> IsUnreserved(s[i])
    ensures Encode(s) == s
    decreases |s|
  {
    if |s| > 0 {
      EncodeUnreserved(s[1..]);
      assert [s[0]] + s[1..] == s;
    }
  }

  /** A star filter's comparator `>=`, wherever it appears in a query
      (as in `language:Rust stars:>=1000`), is sent as `%3E%3D` between the
      encodings of its neighbours, and the round trip restores it. */
  lemma {:induction false} ComparatorExample(a: string, b: string)
    ensures Encode(a + ">=" + b) == Encode(a) + "%3E%3D" + Encode(b)
    ensures Decode(Encode(a + ">=" + b)) == Some(a + ">=" + b)
  {
    ComparatorEncoding();
    EncodeAppend(a + ">=", b);
    EncodeAppend(a, ">=");
    RoundTrip(a + ">=" + b);
  }

  lemma ComparatorEscapes()
    ensures EncodeChar('>') == "%3E" && EncodeChar('=') == "%3D"
  {
    EscapeAscii('>');
    EscapeAscii('=');
  }

  lemma {:induction false} ComparatorEncoding()
    ensures Encode(">=") == "%3E%3D"
  {
    ComparatorEscapes();
    EncodeSingle('>');
    EncodeSingle('=');
    assert ">=" == ['>'] + ['='];
    EncodeAppend(['>'], ['=']);
  }
}
