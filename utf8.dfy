/**
  UTF-8, as Python's `str.encode("utf-8")` and the strict `bytes.decode("utf-8")`
  behind `download_as_text` use it. A Dafny `char` is a Unicode scalar value, so
  every string can be encoded; decoding rejects overlong forms, surrogates and
  code points above U+10FFFF.
 */
module Utf8 {
  import opened Wrappers

  type byte = x: int | 0 <= x < 256

  /** A continuation byte 10xxxxxx. */
  predicate IsContinuation(b: byte) {
    0x80 <= b < 0xC0
  }

  /** The one to four bytes that encode `c`. */
  function EncodeChar(c: char): (bs: seq<byte>)
    ensures 1 <= |bs| <= 4
    ensures |bs| == 1 <==> (c as int) < 0x80
    ensures forall k :: 1 <= k < |bs| ==> IsContinuation(bs[k])
  {
    var cp := c as int;
    if cp < 0x80 then [cp]
    else if cp < 0x800 then [0xC0 + cp / 64, 0x80 + cp % 64]
    else if cp < 0x10000 then [0xE0 + cp / 4096, 0x80 + (cp / 64) % 64, 0x80 + cp % 64]
    else [0xF0 + cp / 262144, 0x80 + (cp / 4096) % 64, 0x80 + (cp / 64) % 64, 0x80 + cp % 64]
  }

  function Encode(s: string): (bs: seq<byte>)
    ensures |s| <= |bs| <= 4 * |s|
  {
    if s == [] then [] else EncodeChar(s[0]) + Encode(s[1..])
  }

  /** Decodes the first scalar value of `bs` and says how many bytes it took. */
  function DecodeChar(bs: seq<byte>): (r: Option<(char, nat)>)
    requires bs != []
    ensures r.Some? ==> 1 <= r.value.1 <= |bs| && r.value.1 <= 4
  {
    var b0: int := bs[0];
    if b0 < 0x80 then
      Some((b0 as char, 1))
    else if 0xC2 <= b0 < 0xE0 then
      if |bs| >= 2 && IsContinuation(bs[1])
      then Some((Scalar2(b0, bs[1]) as char, 2))
      else None
    else if 0xE0 <= b0 < 0xF0 then
      if |bs| >= 3 && IsContinuation(bs[1]) && IsContinuation(bs[2])
         && (b0 == 0xE0 ==> bs[1] >= 0xA0) && (b0 == 0xED ==> bs[1] < 0xA0)
      then Some((Scalar3(b0, bs[1], bs[2]) as char, 3))
      else None
    else if 0xF0 <= b0 <= 0xF4 then
      if |bs| >= 4 && IsContinuation(bs[1]) && IsContinuation(bs[2]) && IsContinuation(bs[3])
         && (b0 == 0xF0 ==> bs[1] >= 0x90) && (b0 == 0xF4 ==> bs[1] < 0x90)
      then Some((Scalar4(b0, bs[1], bs[2], bs[3]) as char, 4))
      else None
    else
      None
  }

  /** The code point carried by a two-, three- or four-byte sequence. */
  function Scalar2(b0: int, b1: int): int {
    (b0 - 0xC0) * 64 + (b1 - 0x80)
  }

  function Scalar3(b0: int, b1: int, b2: int): int {
    (b0 - 0xE0) * 4096 + (b1 - 0x80) * 64 + (b2 - 0x80)
  }

  function Scalar4(b0: int, b1: int, b2: int, b3: int): int {
    (b0 - 0xF0) * 262144 + (b1 - 0x80) * 4096 + (b2 - 0x80) * 64 + (b3 - 0x80)
  }

  /** Strict decoding: None when `bs` is not well-formed UTF-8. */
  function Decode(bs: seq<byte>): (r: Option<string>)
    decreases |bs|
  {
    if bs == [] then Some([])
    else match DecodeChar(bs)
      case None => None
      case Some((c, n)) =>
        match Decode(bs[n..])
        case None => None
        case Some(rest) => Some([c] + rest)
  }

  /** Splitting a number into base-64 digits, lowest first. */
  lemma Digits64(cp: int)
    requires 0 <= cp
    ensures cp == (cp / 64) * 64 + cp % 64
    ensures cp / 64 == (cp / 4096) * 64 + (cp / 64) % 64
    ensures cp / 4096 == (cp / 262144) * 64 + (cp / 4096) % 64
  {
  }

  lemma DecodeCharOfEncodeChar(c: char, rest: seq<byte>)
    ensures DecodeChar(EncodeChar(c) + rest) == Some((c, |EncodeChar(c)|))
  {
    var cp := c as int;
    var bs := EncodeChar(c) + rest;
    Digits64(cp);
    if cp < 0x80 {
    } else if cp < 0x800 {
      assert Scalar2(bs[0], bs[1]) == cp;
    } else if cp < 0x10000 {
      assert Scalar3(bs[0], bs[1], bs[2]) == cp;
    } else {
      assert Scalar4(bs[0], bs[1], bs[2], bs[3]) == cp;
    }
  }

  /** Re-encoding what `DecodeChar` read gives back the bytes it consumed. */
  lemma EncodeCharOfDecodeChar(bs: seq<byte>)
    requires bs != [] && DecodeChar(bs).Some?
    ensures EncodeChar(DecodeChar(bs).value.0) == bs[..DecodeChar(bs).value.1]
  {
    var c := DecodeChar(bs).value.0;
    if bs[0] < 0x80 {
    } else if bs[0] < 0xE0 {
      Digits2(bs[0], bs[1]);
      assert EncodeChar(c) == [bs[0], bs[1]];
    } else if bs[0] < 0xF0 {
      Digits3(bs[0], bs[1], bs[2]);
      assert EncodeChar(c) == [bs[0], bs[1], bs[2]];
    } else {
      Digits4(bs[0], bs[1], bs[2], bs[3]);
      assert EncodeChar(c) == [bs[0], bs[1], bs[2], bs[3]];
    }
  }

  /** `q * d + r` with `r` below `d` has quotient `q` and remainder `r`. */
  lemma QuotRem(q: int, r: int, d: int)
    requires 0 <= q && 0 <= r < d
    ensures (q * d + r) / d == q && (q * d + r) % d == r
  {
    var x := q * d + r;
    var qq, rr := x / d, x % d;
    assert d * (qq - q) == r - rr;
    if qq > q {
      MulAtLeast(qq - q, d);
    } else if qq < q {
      MulAtLeast(q - qq, d);
    }
  }

  lemma MulAtLeast(k: int, d: int)
    requires 1 <= k && 0 < d
    ensures d * k >= d
  {
  }

  /** The base-64 digits of a two-byte scalar are its payload bits. */
  lemma Digits2(b0: int, b1: int)
    requires 0xC2 <= b0 < 0xE0 && 0x80 <= b1 < 0xC0
    ensures var cp := Scalar2(b0, b1);
      0x80 <= cp < 0x800 && cp / 64 == b0 - 0xC0 && cp % 64 == b1 - 0x80
  {
    QuotRem(b0 - 0xC0, b1 - 0x80, 64);
  }

  lemma Digits3(b0: int, b1: int, b2: int)
    requires 0xE0 <= b0 < 0xF0 && 0x80 <= b1 < 0xC0 && 0x80 <= b2 < 0xC0 && (b0 == 0xE0 ==> b1 >= 0xA0)
    ensures var cp := Scalar3(b0, b1, b2);
      && 0x800 <= cp < 0x10000
      && cp / 4096 == b0 - 0xE0 && (cp / 64) % 64 == b1 - 0x80 && cp % 64 == b2 - 0x80
  {
    var q1 := (b0 - 0xE0) * 64 + (b1 - 0x80);
    assert Scalar3(b0, b1, b2) == q1 * 64 + (b2 - 0x80);
    QuotRem(q1, b2 - 0x80, 64);
    QuotRem(b0 - 0xE0, b1 - 0x80, 64);
    QuotRem(b0 - 0xE0, (b1 - 0x80) * 64 + (b2 - 0x80), 4096);
  }

  lemma Digits4(b0: int, b1: int, b2: int, b3: int)
    requires 0xF0 <= b0 <= 0xF4 && 0x80 <= b1 < 0xC0 && 0x80 <= b2 < 0xC0 && 0x80 <= b3 < 0xC0
    requires (b0 == 0xF0 ==> b1 >= 0x90) && (b0 == 0xF4 ==> b1 < 0x90)
    ensures var cp := Scalar4(b0, b1, b2, b3);
      && 0x10000 <= cp < 0x110000
      && cp / 262144 == b0 - 0xF0 && (cp / 4096) % 64 == b1 - 0x80
      && (cp / 64) % 64 == b2 - 0x80 && cp % 64 == b3 - 0x80
  {
    var q2 := (b0 - 0xF0) * 64 + (b1 - 0x80);
    var q1 := q2 * 64 + (b2 - 0x80);
    assert Scalar4(b0, b1, b2, b3) == q1 * 64 + (b3 - 0x80);
    assert Scalar4(b0, b1, b2, b3) == q2 * 4096 + ((b2 - 0x80) * 64 + (b3 - 0x80));
    QuotRem(q1, b3 - 0x80, 64);
    QuotRem(q2, b2 - 0x80, 64);
    QuotRem(q2, (b2 - 0x80) * 64 + (b3 - 0x80), 4096);
    QuotRem(b0 - 0xF0, b1 - 0x80, 64);
    QuotRem(b0 - 0xF0, (b1 - 0x80) * 4096 + (b2 - 0x80) * 64 + (b3 - 0x80), 262144);
  }

  /** Decoding what was encoded gives the string back. */
  lemma {:induction false} DecodeEncode(s: string)
    ensures Decode(Encode(s)) == Some(s)
  {
    if s != [] {
      var bs := Encode(s);
      assert bs == EncodeChar(s[0]) + Encode(s[1..]);
      DecodeCharOfEncodeChar(s[0], Encode(s[1..]));
      assert bs[|EncodeChar(s[0])|..] == Encode(s[1..]);
      DecodeEncode(s[1..]);
      assert [s[0]] + s[1..] == s;
    }
  }

  /** The decoder accepts only the encoder's output: what decodes re-encodes to the same bytes. */
  lemma {:induction false} EncodeDecode(bs: seq<byte>)
    requires Decode(bs).Some?
    ensures Encode(Decode(bs).value) == bs
    decreases |bs|
  {
    if bs != [] {
      var c, n := DecodeStep(bs);
      var tail := bs[n..];
      EncodeDecode(tail);
      EncodeCons(c, Decode(tail).value);
      assert bs == bs[..n] + tail;
    }
  }

  /** One step of a successful decode: the first scalar, its bytes, and the decoded rest. */
  lemma DecodeStep(bs: seq<byte>) returns (c: char, n: nat)
    requires bs != [] && Decode(bs).Some?
    ensures 1 <= n <= |bs| && EncodeChar(c) == bs[..n]
    ensures Decode(bs[n..]).Some? && Decode(bs).value == [c] + Decode(bs[n..]).value
  {
    c, n := DecodeChar(bs).value.0, DecodeChar(bs).value.1;
    EncodeCharOfDecodeChar(bs);
  }

  lemma EncodeCons(c: char, s: string)
    ensures Encode([c] + s) == EncodeChar(c) + Encode(s)
  {
    assert ([c] + s)[1..] == s;
  }
}
