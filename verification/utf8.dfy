/** UTF-8 as RFC 3629 defines it: the byte encoding `urllib.parse.quote` applies to
    a `str` before percent-encoding it, and the strict decoder that undoes it.
    Dafny characters are Unicode scalar values, so every string has an encoding;
    Python strings holding lone surrogates (which make `quote` raise) have no
    counterpart here. */
module Utf8 {
  import opened Outcome

  /** An octet. */
  type Byte = b: int | 0 <= b < 256

  /** A continuation byte `10xxxxxx`. */
  predicate IsContinuation(b: Byte) {
    0x80 <= b < 0xC0
  }

  /** The one- to four-byte encoding of a scalar value (section 3 of RFC 3629).
      ASCII characters are their own single byte; every byte of a longer
      encoding has its high bit set. */
  function EncodeChar(c: char): (bs: seq<Byte>)
    ensures 1 <= |bs| <= 4
    ensures |bs| == 1 <==> (c as int) < 0x80
    ensures |bs| == 1 ==> bs[0] == c as int
    ensures |bs| > 1 ==> forall i :: 0 <= i < |bs| ==> bs[i] >= 0x80
  {
    var cp := c as int;
    if cp < 0x80 then [cp]
    else if cp < 0x800 then [0xC0 + cp / 64, 0x80 + cp % 64]
    else if cp < 0x10000 then [0xE0 + cp / 4096, 0x80 + (cp / 64) % 64, 0x80 + cp % 64]
    else [0xF0 + cp / 262144, 0x80 + (cp / 4096) % 64, 0x80 + (cp / 64) % 64, 0x80 + cp % 64]
  }

  /** `s.encode("utf-8")`. */
  function Encode(s: string): seq<Byte>
  {
    if |s| == 0 then [] else EncodeChar(s[0]) + Encode(s[1..])
  }

  lemma {:induction false} EncodeAppend(a: string, b: string)
    ensures Encode(a + b) == Encode(a) + Encode(b)
    decreases |a|
  {
    if |a| > 0 {
      assert (a + b)[1..] == a[1..] + b;
      EncodeAppend(a[1..], b);
    } else {
      assert a + b == b;
    }
  }

  /** A character decoded from the front of a byte sequence and how many bytes it took. */
  datatype Decoded = Decoded(c: char, size: nat)

  /** Decodes the first character, rejecting overlong forms, surrogates and
      values beyond U+10FFFF. */
  function DecodeChar(bs: seq<Byte>): (r: Option<Decoded>)
    requires |bs| > 0
    ensures r.Some? ==> 1 <= r.value.size <= |bs|
  {
    var b0: int := bs[0];
    if b0 < 0x80 then
      Some(Decoded(b0 as char, 1))
    else if 0xC2 <= b0 < 0xE0 && |bs| >= 2 && IsContinuation(bs[1]) then
      Some(Decoded(((b0 - 0xC0) * 64 + (bs[1] as int - 0x80)) as char, 2))
    else if 0xE0 <= b0 < 0xF0 && |bs| >= 3 && IsContinuation(bs[1]) && IsContinuation(bs[2]) then
      var cp := (b0 - 0xE0) * 4096 + (bs[1] as int - 0x80) * 64 + (bs[2] as int - 0x80);
      if 0x800 <= cp && !(0xD800 <= cp < 0xE000) then Some(Decoded(cp as char, 3)) else None
    else if 0xF0 <= b0 < 0xF5 && |bs| >= 4
            && IsContinuation(bs[1]) && IsContinuation(bs[2]) && IsContinuation(bs[3]) then
      var cp := (b0 - 0xF0) * 262144 + (bs[1] as int - 0x80) * 4096 + (bs[2] as int - 0x80) * 64 + (bs[3] as int - 0x80);
      if 0x10000 <= cp < 0x110000 then Some(Decoded(cp as char, 4)) else None
    else
      None
  }

  /** `bs.decode("utf-8")` with strict error handling: `None` on malformed input. */
  function Decode(bs: seq<Byte>): Option<string>
    decreases |bs|
  {
    if |bs| == 0 then Some("")
    else
      match DecodeChar(bs)
      case None => None
      case Some(d) =>
        match Decode(bs[d.size..])
        case None => None
        case Some(rest) => Some([d.c] + rest)
  }

  /** The decoder reads back the character the encoder wrote, whatever follows it. */
  lemma {:induction false} DecodeEncodeChar(c: char, rest: seq<Byte>)
    ensures DecodeChar(EncodeChar(c) + rest) == Some(Decoded(c, |EncodeChar(c)|))
  {
    var cp := c as int;
    if cp < 0x80 {
      assert (EncodeChar(c) + rest)[0] == cp;
    } else if cp < 0x800 {
      DecodeEncodeTwo(c, rest);
    } else if cp < 0x10000 {
      DecodeEncodeThree(c, rest);
    } else {
      DecodeEncodeFour(c, rest);
    }
  }

  lemma {:induction false} DecodeEncodeTwo(c: char, rest: seq<Byte>)
    requires 0x80 <= c as int < 0x800
    ensures DecodeChar(EncodeChar(c) + rest) == Some(Decoded(c, 2))
  {
    var cp := c as int;
    var bs := EncodeChar(c) + rest;
    assert (cp / 64) * 64 + cp % 64 == cp;
    assert bs[0] == 0xC0 + cp / 64 && bs[1] == 0x80 + cp % 64;
  }

  lemma {:induction false} DecodeEncodeThree(c: char, rest: seq<Byte>)
    requires 0x800 <= c as int < 0x10000
    ensures DecodeChar(EncodeChar(c) + rest) == Some(Decoded(c, 3))
  {
    var cp := c as int;
    var bs := EncodeChar(c) + rest;
    var q := cp / 64;
    assert q * 64 + cp % 64 == cp;
    assert (q / 64) * 64 + q % 64 == q;
    assert cp / 4096 == q / 64;
    assert bs[0] == 0xE0 + cp / 4096 && bs[1] == 0x80 + q % 64 && bs[2] == 0x80 + cp % 64;
  }

  lemma {:induction false} DecodeEncodeFour(c: char, rest: seq<Byte>)
    requires 0x10000 <= c as int
    ensures DecodeChar(EncodeChar(c) + rest) == Some(Decoded(c, 4))
  {
    var cp := c as int;
    var bs := EncodeChar(c) + rest;
    var q := cp / 64;
    var q2 := q / 64;
    assert q * 64 + cp % 64 == cp;
    assert q2 * 64 + q % 64 == q;
    assert (q2 / 64) * 64 + q2 % 64 == q2;
    assert cp / 4096 == q2;
    assert cp / 262144 == q2 / 64;
    assert bs[0] == 0xF0 + cp / 262144 && bs[1] == 0x80 + q2 % 64;
    assert bs[2] == 0x80 + q % 64 && bs[3] == 0x80 + cp % 64;
  }

  /** Decoding undoes encoding. */
  lemma {:induction false} DecodeEncode(s: string)
    ensures Decode(Encode(s)) == Some(s)
    decreases |s|
  {
    if |s| > 0 {
      var e := EncodeChar(s[0]);
      var rest := Encode(s[1..]);
      DecodeEncodeChar(s[0], rest);
      assert (e + rest)[|e|..] == rest;
      DecodeEncode(s[1..]);
      assert [s[0]] + s[1..] == s;
    }
  }
}
