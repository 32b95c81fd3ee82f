/** UTF-8, as `name.encode("utf-8")` writes the entry names into the
    archive, and the matching decoder a reader of the archive needs. A Dafny
    `char` is a Unicode scalar value (0..0x10FFFF without the surrogates),
    so every string has an encoding. */
module Utf8 {
  import opened Wrappers
  import opened Bytes

  /** The one to four bytes of one character. */
  function EncodeChar(c: char): (r: seq<byte>)
    ensures 1 <= |r| <= 4
    ensures |r| == 1 <==> (c as int) < 0x80
  {
    var cp := c as int;
    if cp < 0x80 then [cp]
    else if cp < 0x800 then [0xC0 + cp / 64, 0x80 + cp % 64]
    else if cp < 0x10000 then [0xE0 + cp / 4096, 0x80 + cp / 64 % 64, 0x80 + cp % 64]
    else [0xF0 + cp / 262144, 0x80 + cp / 4096 % 64, 0x80 + cp / 64 % 64, 0x80 + cp % 64]
  }

  /** `s.encode("utf-8")`: the characters' encodings, in order. */
  function Encode(s: string): (r: seq<byte>)
    ensures |s| <= |r| <= 4 * |s|
    ensures s == [] <==> r == []
  {
    if s == [] then [] else EncodeChar(s[0]) + Encode(s[1..])
  }

  predicate IsContinuation(b: byte)
  {
    0x80 <= b < 0xC0
  }

  /** Reads the first character of a non-empty byte string and says how many
      bytes it took; None for a malformed, truncated, overlong or surrogate
      sequence. */
  function DecodeFirst(bs: seq<byte>): (r: Option<(char, nat)>)
    requires bs != []
    ensures r.Some? ==> 1 <= r.value.1 <= |bs| && r.value.1 <= 4
  {
    var b0 := bs[0] as int;
    if b0 < 0x80 then Some((b0 as char, 1))
    else if 0xC0 <= b0 < 0xE0 then
      if |bs| < 2 || !IsContinuation(bs[1]) then None
      else
        var cp := (b0 - 0xC0) * 64 + (bs[1] as int - 0x80);
        if cp < 0x80 then None else Some((cp as char, 2))
    else if 0xE0 <= b0 < 0xF0 then
      if |bs| < 3 || !IsContinuation(bs[1]) || !IsContinuation(bs[2]) then None
      else
        var cp := (b0 - 0xE0) * 4096 + (bs[1] as int - 0x80) * 64 + (bs[2] as int - 0x80);
        if cp < 0x800 || 0xD800 <= cp < 0xE000 then None else Some((cp as char, 3))
    else if 0xF0 <= b0 < 0xF8 then
      if |bs| < 4 || !IsContinuation(bs[1]) || !IsContinuation(bs[2]) || !IsContinuation(bs[3]) then None
      else
        var cp := (b0 - 0xF0) * 262144 + (bs[1] as int - 0x80) * 4096
                  + (bs[2] as int - 0x80) * 64 + (bs[3] as int - 0x80);
        if cp < 0x10000 || cp >= 0x110000 then None else Some((cp as char, 4))
    else None
  }

  /** Decodes a whole byte string; None unless it is well-formed UTF-8. */
  function Decode(bs: seq<byte>): Option<string>
    decreases |bs|
  {
    if bs == [] then Some([])
    else match DecodeFirst(bs)
      case None => None
      case Some((c, n)) =>
        match Decode(bs[n..])
        case None => None
        case Some(rest) => Some([c] + rest)
  }

  /** Whatever follows a character's encoding, the decoder reads back that
      character and exactly its bytes. */
  lemma DecodeFirstEncodeChar(c: char, tail: seq<byte>)
    ensures DecodeFirst(EncodeChar(c) + tail) == Some((c, |EncodeChar(c)|))
  {
    var cp := c as int;
    if cp < 0x80 {
    } else if cp < 0x800 {
      DecodeFirstEncode2(c, tail);
    } else if cp < 0x10000 {
      DecodeFirstEncode3(c, tail);
    } else {
      DecodeFirstEncode4(c, tail);
    }
  }

  lemma DecodeFirstEncode2(c: char, tail: seq<byte>)
    requires 0x80 <= c as int < 0x800
    ensures DecodeFirst(EncodeChar(c) + tail) == Some((c, 2))
  {
    var cp := c as int;
    var bs := EncodeChar(c) + tail;
    var d0, d1 := cp / 64, cp % 64;
    assert bs[0] as int == 0xC0 + d0 && bs[1] as int == 0x80 + d1;
    assert d0 * 64 + d1 == cp;
  }

  lemma DecodeFirstEncode3(c: char, tail: seq<byte>)
    requires 0x800 <= c as int < 0x10000
    ensures DecodeFirst(EncodeChar(c) + tail) == Some((c, 3))
  {
    var cp := c as int;
    var bs := EncodeChar(c) + tail;
    var d0, d1, d2 := cp / 4096, cp / 64 % 64, cp % 64;
    assert bs[0] as int == 0xE0 + d0 && bs[1] as int == 0x80 + d1 && bs[2] as int == 0x80 + d2;
    Digits3(cp);
  }

  lemma DecodeFirstEncode4(c: char, tail: seq<byte>)
    requires 0x10000 <= c as int
    ensures DecodeFirst(EncodeChar(c) + tail) == Some((c, 4))
  {
    var cp := c as int;
    var bs := EncodeChar(c) + tail;
    var d0, d1, d2, d3 := cp / 262144, cp / 4096 % 64, cp / 64 % 64, cp % 64;
    assert bs[0] as int == 0xF0 + d0 && bs[1] as int == 0x80 + d1;
    assert bs[2] as int == 0x80 + d2 && bs[3] as int == 0x80 + d3;
    Digits4(cp);
  }

  /** A number below 2^24 written in base 64 (three digits, the top one from
      cp / 4096). */
  lemma Digits3(cp: nat)
    ensures cp == (cp / 4096) * 4096 + (cp / 64 % 64) * 64 + cp % 64
  {
    var q := cp / 64;
    assert cp == q * 64 + cp % 64;
    assert q == (q / 64) * 64 + q % 64;
    assert q / 64 == cp / 4096;
  }

  lemma Digits4(cp: nat)
    ensures cp == (cp / 262144) * 262144 + (cp / 4096 % 64) * 4096 + (cp / 64 % 64) * 64 + cp % 64
  {
    var q := cp / 64;
    var q2 := q / 64;
    assert cp == q * 64 + cp % 64;
    assert q == q2 * 64 + q % 64;
    assert q2 == (q2 / 64) * 64 + q2 % 64;
    assert q2 == cp / 4096;
    assert q2 / 64 == cp / 262144;
  }

  /** Whatever the decoder reads as one character is that character's
      encoding: the decoder accepts no second spelling of a character. */
  lemma DecodeFirstExact(bs: seq<byte>)
    requires bs != [] && DecodeFirst(bs).Some?
    ensures var (c, n) := DecodeFirst(bs).value; EncodeChar(c) == bs[..n]
  {
    var (c, n) := DecodeFirst(bs).value;
    if n == 2 {
      DecodeFirstExact2(bs);
    } else if n == 3 {
      DecodeFirstExact3(bs);
    } else if n == 4 {
      DecodeFirstExact4(bs);
    }
  }

  lemma DecodeFirstExact2(bs: seq<byte>)
    requires |bs| >= 2 && DecodeFirst(bs).Some? && DecodeFirst(bs).value.1 == 2
    ensures EncodeChar(DecodeFirst(bs).value.0) == bs[..2]
  {
    var cp := DecodeFirst(bs).value.0 as int;
    var d0, d1 := bs[0] as int - 0xC0, bs[1] as int - 0x80;
    assert 0 <= d0 < 32 && 0 <= d1 < 64 && cp == d0 * 64 + d1;
    DivMod64(cp, d0, d1);
  }

  lemma DecodeFirstExact3(bs: seq<byte>)
    requires |bs| >= 3 && DecodeFirst(bs).Some? && DecodeFirst(bs).value.1 == 3
    ensures EncodeChar(DecodeFirst(bs).value.0) == bs[..3]
  {
    var cp := DecodeFirst(bs).value.0 as int;
    var d0, d1, d2 := bs[0] as int - 0xE0, bs[1] as int - 0x80, bs[2] as int - 0x80;
    assert 0 <= d0 < 16 && 0 <= d1 < 64 && 0 <= d2 < 64;
    assert cp == (d0 * 64 + d1) * 64 + d2;
    DivMod64(cp, d0 * 64 + d1, d2);
    DivMod64(d0 * 64 + d1, d0, d1);
    assert cp / 4096 == d0;
  }

  lemma DecodeFirstExact4(bs: seq<byte>)
    requires |bs| >= 4 && DecodeFirst(bs).Some? && DecodeFirst(bs).value.1 == 4
    ensures EncodeChar(DecodeFirst(bs).value.0) == bs[..4]
  {
    var cp := DecodeFirst(bs).value.0 as int;
    var d0, d1 := bs[0] as int - 0xF0, bs[1] as int - 0x80;
    var d2, d3 := bs[2] as int - 0x80, bs[3] as int - 0x80;
    assert 0 <= d0 < 8 && 0 <= d1 < 64 && 0 <= d2 < 64 && 0 <= d3 < 64;
    assert cp == ((d0 * 64 + d1) * 64 + d2) * 64 + d3;
    DivMod64(cp, (d0 * 64 + d1) * 64 + d2, d3);
    DivMod64((d0 * 64 + d1) * 64 + d2, d0 * 64 + d1, d2);
    DivMod64(d0 * 64 + d1, d0, d1);
    assert cp / 4096 == d0 * 64 + d1;
    assert cp / 262144 == d0;
  }

  /** Quotient and remainder are determined by the division they come from. */
  lemma DivMod64(n: int, q: int, r: int)
    requires 0 <= r < 64 && n == q * 64 + r
    ensures n / 64 == q && n % 64 == r
  {
  }

  /** Decoding an encoded name gives the name back. */
  lemma {:induction false} DecodeEncode(s: string)
    ensures Decode(Encode(s)) == Some(s)
  {
    if s != [] {
      var e := EncodeChar(s[0]);
      var rest := Encode(s[1..]);
      DecodeFirstEncodeChar(s[0], rest);
      assert (e + rest)[|e|..] == rest;
      DecodeEncode(s[1..]);
      assert [s[0]] + s[1..] == s;
    }
  }

  /** A byte string the decoder accepts is the encoding of what it decodes
      to; with DecodeEncode, Encode and Decode are inverse bijections between
      strings and well-formed UTF-8, so distinct names never share bytes. */
  lemma {:induction false} EncodeDecode(bs: seq<byte>)
    requires Decode(bs).Some?
    ensures Encode(Decode(bs).value) == bs
    decreases |bs|
  {
    if bs != [] {
      var (c, n) := DecodeFirst(bs).value;
      DecodeFirstExact(bs);
      EncodeDecode(bs[n..]);
      var s := Decode(bs).value;
      assert s == [c] + Decode(bs[n..]).value;
      assert s[0] == c && s[1..] == Decode(bs[n..]).value;
      assert bs == bs[..n] + bs[n..];
    }
  }

  /** A name made only of ASCII characters takes one byte per character. */
  lemma {:induction false} EncodeAscii(s: string)
    requires forall i :: 0 <= i < |s| ==> (s[i] as int) < 0x80
    ensures |Encode(s)| == |s|
    ensures forall i :: 0 <= i < |s| ==> Encode(s)[i] == s[i] as int
  {
    if s != [] {
      EncodeAscii(s[1..]);
      assert Encode(s) == [s[0] as int] + Encode(s[1..]);
    }
  }
}
