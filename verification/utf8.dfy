/** UTF-8 (RFC 3629, section 3) for Unicode scalar values.

    Rust's `char::to_string().as_bytes()` yields the UTF-8 form of one scalar
    value; the percent-encoder escapes those bytes one by one.  Dafny's `char`
    is a Unicode scalar value as well, so the encoder is total on it.  The
    strict decoder is the encoder's inverse: it accepts exactly the byte
    sequences the encoder produces. */
module Utf8 {
  import opened Results

  newtype byte = x: int | 0 <= x < 0x100

  /** A byte of the form 10xxxxxx. */
  predicate IsContinuation(b: byte) {
    0x80 <= b < 0xC0
  }

  /** True of the code points that are Unicode scalar values (no surrogates). */
  predicate IsScalar(n: int) {
    0 <= n < 0xD800 || 0xE000 <= n < 0x11_0000
  }

  /** The number of bytes the encoding of scalar value `n` takes. */
  function EncodedLength(n: int): nat {
    if n < 0x80 then 1
    else if n < 0x800 then 2
    else if n < 0x1_0000 then 3
    else 4
  }

  /** The UTF-8 bytes of one character: a lead byte that announces the
      length, followed by continuation bytes carrying six bits each. */
  function EncodeChar(c: char): (bs: seq<byte>)
    ensures |bs| == EncodedLength(c as int)
    ensures |bs| == 1 ==> bs[0] as int == c as int
    ensures |bs| > 1 ==> 0xC2 <= bs[0] < 0xF5
    ensures forall i :: 1 <= i < |bs| ==> IsContinuation(bs[i])
  {
    var n := c as int;
    if n < 0x80 then
      [n as byte]
    else if n < 0x800 then
      [(0xC0 + n / 64) as byte, (0x80 + n % 64) as byte]
    else if n < 0x1_0000 then
      [(0xE0 + n / 4096) as byte, (0x80 + (n / 64) % 64) as byte, (0x80 + n % 64) as byte]
    else
      [(0xF0 + n / 0x4_0000) as byte, (0x80 + (n / 4096) % 64) as byte,
       (0x80 + (n / 64) % 64) as byte, (0x80 + n % 64) as byte]
  }

  /** The UTF-8 bytes of a string, character after character. */
  function Encode(s: string): (bs: seq<byte>)
    ensures |bs| >= |s|
  {
    if |s| == 0 then [] else EncodeChar(s[0]) + Encode(s[1..])
  }

  /** Decodes the first character of `bs`, returning it with the number of
      bytes it took; rejects stray continuation bytes, truncated sequences,
      overlong forms, surrogates and code points above U+10FFFF. */
  function DecodeChar(bs: seq<byte>): (r: Option<(char, nat)>)
    requires |bs| > 0
    ensures r.Some? ==> 1 <= r.value.1 <= |bs|
  {
    var b0 := bs[0] as int;
    if b0 < 0x80 then
      Some((b0 as char, 1))
    else if 0xC2 <= b0 < 0xE0 then
      if |bs| >= 2 && IsContinuation(bs[1]) then
        var n := (b0 - 0xC0) * 64 + (bs[1] as int - 0x80);
        Some((n as char, 2))
      else None
    else if 0xE0 <= b0 < 0xF0 then
      if |bs| >= 3 && IsContinuation(bs[1]) && IsContinuation(bs[2]) then
        var n := (b0 - 0xE0) * 4096 + (bs[1] as int - 0x80) * 64 + (bs[2] as int - 0x80);
        if 0x800 <= n && IsScalar(n) then Some((n as char, 3)) else None
      else None
    else if 0xF0 <= b0 < 0xF5 then
      if |bs| >= 4 && IsContinuation(bs[1]) && IsContinuation(bs[2]) && IsContinuation(bs[3]) then
        var n := (b0 - 0xF0) * 0x4_0000 + (bs[1] as int - 0x80) * 4096
                 + (bs[2] as int - 0x80) * 64 + (bs[3] as int - 0x80);
        if 0x1_0000 <= n < 0x11_0000 then Some((n as char, 4)) else None
      else None
    else
      None
  }

  /** Decodes a whole byte sequence, failing on the first malformed character. */
  function Decode(bs: seq<byte>): Option<string>
    decreases |bs|
  {
    if |bs| == 0 then Some([])
    else
      match DecodeChar(bs)
      case None => None
      case Some((c, k)) =>
        match Decode(bs[k..])
        case None => None
        case Some(rest) => Some([c] + rest)
  }

  /** Decoding the encoding of `c`, followed by anything, yields `c` and
      consumes exactly its bytes. */
  lemma {:induction false} DecodeCharEncodeChar(c: char, rest: seq<byte>)
    ensures DecodeChar(EncodeChar(c) + rest) == Some((c, |EncodeChar(c)|))
  {
    var n := c as int;
    if n < 0x80 {
    } else if n < 0x800 {
      DecodeTwo(c, rest);
    } else if n < 0x1_0000 {
      DecodeThree(c, rest);
    } else {
      DecodeFour(c, rest);
    }
  }

  lemma {:induction false} DecodeTwo(c: char, rest: seq<byte>)
    requires 0x80 <= c as int < 0x800
    ensures DecodeChar(EncodeChar(c) + rest) == Some((c, 2))
  {
    var n := c as int;
    var bs := EncodeChar(c) + rest;
    var q, r := n / 64, n % 64;
    assert n == q * 64 + r;
    assert bs[0] as int == 0xC0 + q && bs[1] as int == 0x80 + r;
  }

  lemma {:induction false} DecodeThree(c: char, rest: seq<byte>)
    requires 0x800 <= c as int < 0x1_0000
    ensures DecodeChar(EncodeChar(c) + rest) == Some((c, 3))
  {
    var n := c as int;
    TwelveBitSplit(n);
    var e := EncodeChar(c);
    DecodeThreeBytes(e[0], e[1], e[2], rest);
    assert e + rest == [e[0], e[1], e[2]] + rest;
  }

  /** `n` is recovered from its bit groups of 4, 6 and 6 bits. */
  lemma TwelveBitSplit(n: int)
    requires 0 <= n
    ensures n == (n / 4096) * 4096 + ((n / 64) % 64) * 64 + n % 64
  {
    var n1, r0 := n / 64, n % 64;
    var n2, r1 := n1 / 64, n1 % 64;
    assert n == n1 * 64 + r0;
    assert n1 == n2 * 64 + r1;
    assert n == n2 * 4096 + (r1 * 64 + r0);
    assert n / 4096 == n2;
  }

  lemma DecodeThreeBytes(b0: byte, b1: byte, b2: byte, rest: seq<byte>)
    requires 0xE0 <= b0 < 0xF0 && IsContinuation(b1) && IsContinuation(b2)
    requires var n := (b0 as int - 0xE0) * 4096 + (b1 as int - 0x80) * 64 + (b2 as int - 0x80);
             0x800 <= n && IsScalar(n)
    ensures var n := (b0 as int - 0xE0) * 4096 + (b1 as int - 0x80) * 64 + (b2 as int - 0x80);
            DecodeChar([b0, b1, b2] + rest) == Some((n as char, 3))
  {
  }

  lemma {:induction false} DecodeFour(c: char, rest: seq<byte>)
    requires 0x1_0000 <= c as int
    ensures DecodeChar(EncodeChar(c) + rest) == Some((c, 4))
  {
    var n := c as int;
    SixBitGroups(n);
    var e := EncodeChar(c);
    DecodeFourBytes(e[0], e[1], e[2], e[3], rest);
    assert e + rest == [e[0], e[1], e[2], e[3]] + rest;
  }

  /** `n` is recovered from its four bit groups of 3, 6, 6 and 6 bits. */
  lemma SixBitGroups(n: int)
    requires 0 <= n
    ensures n == (n / 0x4_0000) * 0x4_0000 + ((n / 4096) % 64) * 4096 + ((n / 64) % 64) * 64 + n % 64
  {
    var n1, r0 := n / 64, n % 64;
    var n2, r1 := n1 / 64, n1 % 64;
    var n3, r2 := n2 / 64, n2 % 64;
    assert n == n1 * 64 + r0;
    assert n1 == n2 * 64 + r1;
    assert n2 == n3 * 64 + r2;
    assert n == n2 * 4096 + (r1 * 64 + r0);
    assert n / 4096 == n2;
    assert n == n3 * 0x4_0000 + (r2 * 4096 + r1 * 64 + r0);
    assert n / 0x4_0000 == n3;
  }

  lemma DecodeFourBytes(b0: byte, b1: byte, b2: byte, b3: byte, rest: seq<byte>)
    requires 0xF0 <= b0 < 0xF5
    requires IsContinuation(b1) && IsContinuation(b2) && IsContinuation(b3)
    requires var n := (b0 as int - 0xF0) * 0x4_0000 + (b1 as int - 0x80) * 4096
                      + (b2 as int - 0x80) * 64 + (b3 as int - 0x80);
             0x1_0000 <= n < 0x11_0000
    ensures var n := (b0 as int - 0xF0) * 0x4_0000 + (b1 as int - 0x80) * 4096
                     + (b2 as int - 0x80) * 64 + (b3 as int - 0x80);
            DecodeChar([b0, b1, b2, b3] + rest) == Some((n as char, 4))
  {
  }

  /** A decoded character re-encodes to exactly the bytes it was read from:
      the decoder accepts only the encoder's canonical forms. */
  lemma {:induction false} EncodeCharDecodeChar(bs: seq<byte>)
    requires |bs| > 0 && DecodeChar(bs).Some?
    ensures EncodeChar(DecodeChar(bs).value.0) == bs[..DecodeChar(bs).value.1]
  {
    var b0 := bs[0];
    if b0 < 0x80 {
    } else if b0 < 0xE0 {
      ReencodeTwo(b0, bs[1]);
    } else if b0 < 0xF0 {
      ReencodeThree(b0, bs[1], bs[2]);
    } else {
      ReencodeFour(b0, bs[1], bs[2], bs[3]);
    }
  }

  lemma ReencodeTwo(b0: byte, b1: byte)
    requires 0xC2 <= b0 < 0xE0 && IsContinuation(b1)
    ensures var n := (b0 as int - 0xC0) * 64 + (b1 as int - 0x80);
            IsScalar(n) && EncodeChar(n as char) == [b0, b1]
  {
    var x0, x1 := b0 as int - 0xC0, b1 as int - 0x80;
    var n := x0 * 64 + x1;
    assert n / 64 == x0 && n % 64 == x1;
  }

  lemma ReencodeThree(b0: byte, b1: byte, b2: byte)
    requires 0xE0 <= b0 < 0xF0 && IsContinuation(b1) && IsContinuation(b2)
    requires var n := (b0 as int - 0xE0) * 4096 + (b1 as int - 0x80) * 64 + (b2 as int - 0x80);
             0x800 <= n && IsScalar(n)
    ensures var n := (b0 as int - 0xE0) * 4096 + (b1 as int - 0x80) * 64 + (b2 as int - 0x80);
            EncodeChar(n as char) == [b0, b1, b2]
  {
    var x0, x1, x2 := b0 as int - 0xE0, b1 as int - 0x80, b2 as int - 0x80;
    var n := x0 * 4096 + x1 * 64 + x2;
    assert n / 4096 == x0;
    assert n / 64 == x0 * 64 + x1;
    assert (n / 64) % 64 == x1 && n % 64 == x2;
  }

  lemma ReencodeFour(b0: byte, b1: byte, b2: byte, b3: byte)
    requires 0xF0 <= b0 < 0xF5 && IsContinuation(b1) && IsContinuation(b2) && IsContinuation(b3)
    requires var n := (b0 as int - 0xF0) * 0x4_0000 + (b1 as int - 0x80) * 4096
                      + (b2 as int - 0x80) * 64 + (b3 as int - 0x80);
             0x1_0000 <= n < 0x11_0000
    ensures var n := (b0 as int - 0xF0) * 0x4_0000 + (b1 as int - 0x80) * 4096
                     + (b2 as int - 0x80) * 64 + (b3 as int - 0x80);
            EncodeChar(n as char) == [b0, b1, b2, b3]
  {
    var x0, x1, x2, x3 := b0 as int - 0xF0, b1 as int - 0x80, b2 as int - 0x80, b3 as int - 0x80;
    var n := x0 * 0x4_0000 + x1 * 4096 + x2 * 64 + x3;
    assert n / 0x4_0000 == x0;
    assert n / 4096 == x0 * 64 + x1;
    assert n / 64 == x0 * 4096 + x1 * 64 + x2;
    assert (n / 4096) % 64 == x1 && (n / 64) % 64 == x2 && n % 64 == x3;
  }

  /** Encoding distributes over concatenation. */
  lemma {:induction false} EncodeAppend(a: string, b: string)
    ensures Encode(a + b) == Encode(a) + Encode(b)
    decreases |a|
  {
    if |a| > 0 {
      assert (a + b)[0] == a[0] && (a + b)[1..] == a[1..] + b;
      EncodeAppend(a[1..], b);
    } else {
      assert a + b == b;
    }
  }

  lemma {:induction false} EncodeCons(c: char, s: string)
    ensures Encode([c] + s) == EncodeChar(c) + Encode(s)
  {
    assert ([c] + s)[1..] == s;
  }

  /** Decoding undoes encoding for every string. */
  lemma {:induction false} DecodeEncode(s: string)
    ensures Decode(Encode(s)) == Some(s)
    decreases |s|
  {
    if |s| > 0 {
      var head := EncodeChar(s[0]);
      var bs := Encode(s);
      assert bs == head + Encode(s[1..]);
      DecodeCharEncodeChar(s[0], Encode(s[1..]));
      assert bs[|head|..] == Encode(s[1..]);
      DecodeEncode(s[1..]);
      assert [s[0]] + s[1..] == s;
    }
  }

  /** Encoding undoes decoding: a byte sequence the decoder accepts is the
      encoding of what it decodes to. */
  lemma {:induction false} EncodeDecode(bs: seq<byte>)
    requires Decode(bs).Some?
    ensures Encode(Decode(bs).value) == bs
    decreases |bs|
  {
    if |bs| > 0 {
      DecodeStep(bs);
      var c, k := DecodeChar(bs).value.0, DecodeChar(bs).value.1;
      var tail := Decode(bs[k..]).value;
      EncodeCharDecodeChar(bs);
      EncodeDecode(bs[k..]);
      EncodeJoin(c, tail, bs, k);
    }
  }

  lemma {:induction false} EncodeJoin(c: char, tail: string, bs: seq<byte>, k: nat)
    requires k <= |bs| && EncodeChar(c) == bs[..k] && Encode(tail) == bs[k..]
    ensures Encode([c] + tail) == bs
  {
    EncodeCons(c, tail);
    assert bs == bs[..k] + bs[k..];
  }

  /** A successful decoding is the first character followed by the decoding
      of the bytes after it. */
  lemma {:induction false} DecodeStep(bs: seq<byte>)
    requires |bs| > 0 && Decode(bs).Some?
    ensures DecodeChar(bs).Some?
    ensures var k := DecodeChar(bs).value.1;
            Decode(bs[k..]).Some? && Decode(bs).value == [DecodeChar(bs).value.0] + Decode(bs[k..]).value
  {
  }
}
