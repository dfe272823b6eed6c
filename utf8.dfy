/**
  UTF-8, as Python's `str.encode('utf-8')` and the strict `bytes.decode('utf-8')`
  use it: the client encodes its request with the first and decodes the whole
  received buffer with the second. A Dafny `char` is a Unicode scalar value, so
  encoding never fails; decoding fails on any ill-formed byte sequence (a stray
  continuation byte, an overlong form, a surrogate, a value above U+10FFFF, a
  truncated sequence), which Python reports as UnicodeDecodeError.
*/
module Utf8 {
  import opened Wrappers

  type byte = b: int | 0 <= b < 256

  predicate IsAscii(s: string) {
    forall i :: 0 <= i < |s| ==> s[i] as int < 0x80
  }

  predicate IsContinuation(b: byte) {
    0x80 <= b < 0xC0
  }

  /** The one to four bytes that encode `c`. */
  function EncodeChar(c: char): (bs: seq<byte>)
    ensures 1 <= |bs| <= 4
    ensures |bs| == 1 <==> c as int < 0x80
    ensures |bs| == 1 ==> bs[0] == c as int
    ensures forall k :: 1 <= k < |bs| ==> IsContinuation(bs[k])
  {
    var cp := c as int;
    if cp < 0x80 then [cp]
    else if cp < 0x800 then [0xC0 + cp / 64, 0x80 + cp % 64]
    else if cp < 0x10000 then [0xE0 + cp / 4096, 0x80 + (cp / 64) % 64, 0x80 + cp % 64]
    else [0xF0 + cp / 262144, 0x80 + (cp / 4096) % 64, 0x80 + (cp / 64) % 64, 0x80 + cp % 64]
  }

  /**
    `s.encode('utf-8')`: one to four bytes per character, and an ASCII string
    one byte per character, each equal to its code point.
  */
  function Encode(s: string): (bs: seq<byte>)
    ensures |s| <= |bs| <= 4 * |s|
    ensures IsAscii(s) ==> |bs| == |s| && forall i :: 0 <= i < |s| ==> bs[i] == s[i] as int
  {
    if s == [] then []
    else
      var rest := Encode(s[1..]);
      assert IsAscii(s) ==> IsAscii(s[1..]) by {
        if IsAscii(s) {
          forall i | 0 <= i < |s[1..]| ensures s[1..][i] as int < 0x80 {
            assert s[1..][i] == s[i + 1];
          }
        }
      }
      EncodeChar(s[0]) + rest
  }

  /**
    The first character of `bs` and the number of bytes it takes, when `bs`
    starts with a well-formed sequence (the table of well-formed byte sequences
    in section 3.9 of the Unicode Standard).
  */
  function DecodeFirst(bs: seq<byte>): (r: Option<(char, nat)>)
    ensures r.Some? ==> 1 <= r.value.1 <= |bs| && r.value.1 <= 4
  {
    if |bs| == 0 then None
    else
      var b0 := bs[0] as int;
      if b0 < 0x80 then Some((b0 as char, 1))
      else if 0xC2 <= b0 <= 0xDF then
        if 2 <= |bs| && IsContinuation(bs[1])
        then Some((((b0 - 0xC0) * 64 + (bs[1] as int - 0x80)) as char, 2))
        else None
      else if 0xE0 <= b0 <= 0xEF then
        var lo := if b0 == 0xE0 then 0xA0 else 0x80;
        var hi := if b0 == 0xED then 0x9F else 0xBF;
        if 3 <= |bs| && lo <= bs[1] <= hi && IsContinuation(bs[2])
        then Some((((b0 - 0xE0) * 4096 + (bs[1] as int - 0x80) * 64 + (bs[2] as int - 0x80)) as char, 3))
        else None
      else if 0xF0 <= b0 <= 0xF4 then
        var lo := if b0 == 0xF0 then 0x90 else 0x80;
        var hi := if b0 == 0xF4 then 0x8F else 0xBF;
        if 4 <= |bs| && lo <= bs[1] <= hi && IsContinuation(bs[2]) && IsContinuation(bs[3])
        then Some((((b0 - 0xF0) * 262144 + (bs[1] as int - 0x80) * 4096
                    + (bs[2] as int - 0x80) * 64 + (bs[3] as int - 0x80)) as char, 4))
        else None
      else None
  }

  /**
    Strict decoding: `None` stands for UnicodeDecodeError. Decoding is
    injective: a buffer that decodes is exactly the encoding of its text.
  */
  function Decode(bs: seq<byte>): (r: Option<string>)
    ensures r.Some? ==> Encode(r.value) == bs
    decreases |bs|
  {
    if bs == [] then Some("")
    else match DecodeFirst(bs)
      case None => None
      case Some((c, n)) =>
        match Decode(bs[n..])
        case None => None
        case Some(rest) =>
          EncodeCons(bs, c, n, rest);
          Some([c] + rest)
  }

  /** The first character of `bs` in front of text encoding the rest of `bs` encodes `bs`. */
  lemma EncodeCons(bs: seq<byte>, c: char, n: nat, rest: string)
    requires DecodeFirst(bs) == Some((c, n))
    requires Encode(rest) == bs[n..]
    ensures Encode([c] + rest) == bs
  {
    EncodeCharDecodeFirst(bs);
    assert ([c] + rest)[1..] == rest;
    assert bs == bs[..n] + bs[n..];
  }

  lemma {:induction false} EncodeAppend(s: string, t: string)
    ensures Encode(s + t) == Encode(s) + Encode(t)
  {
    if s == [] {
      assert s + t == t;
    } else {
      assert (s + t)[1..] == s[1..] + t;
      EncodeAppend(s[1..], t);
    }
  }

  /** Writing a code point as 64 * high + low, the split the multi-byte forms use. */
  lemma Split64(cp: nat)
    ensures cp == (cp / 64) * 64 + cp % 64 && 0 <= cp % 64 < 64
  {
  }

  lemma DecodeFirstEncodeChar(c: char, rest: seq<byte>)
    ensures DecodeFirst(EncodeChar(c) + rest) == Some((c, |EncodeChar(c)|))
  {
    var cp := c as int;
    if cp < 0x80 {
    } else if cp < 0x800 {
      DecodeFirstTwo(c, rest);
    } else if cp < 0x10000 {
      DecodeFirstThree(c, rest);
    } else {
      DecodeFirstFour(c, rest);
    }
  }

  lemma DecodeFirstTwo(c: char, rest: seq<byte>)
    requires 0x80 <= c as int < 0x800
    ensures DecodeFirst(EncodeChar(c) + rest) == Some((c, 2))
  {
    var cp := c as int;
    var bs := EncodeChar(c) + rest;
    Split64(cp);
    assert bs[0] == 0xC0 + cp / 64 && bs[1] == 0x80 + cp % 64;
    assert (bs[0] as int - 0xC0) * 64 + (bs[1] as int - 0x80) == cp;
  }

  lemma DecodeFirstThree(c: char, rest: seq<byte>)
    requires 0x800 <= c as int < 0x10000
    ensures DecodeFirst(EncodeChar(c) + rest) == Some((c, 3))
  {
    var cp := c as int;
    var bs := EncodeChar(c) + rest;
    var q := cp / 64;
    Split64(cp);
    Split64(q);
    assert q / 64 == cp / 4096;
    assert bs[0] == 0xE0 + q / 64 && bs[1] == 0x80 + q % 64 && bs[2] == 0x80 + cp % 64;
    assert (bs[0] as int - 0xE0) * 4096 + (bs[1] as int - 0x80) * 64 + (bs[2] as int - 0x80) == cp;
  }

  lemma DecodeFirstFour(c: char, rest: seq<byte>)
    requires 0x10000 <= c as int
    ensures DecodeFirst(EncodeChar(c) + rest) == Some((c, 4))
  {
    var cp := c as int;
    var bs := EncodeChar(c) + rest;
    var q := cp / 64;
    var q2 := q / 64;
    Split64(cp);
    Split64(q);
    Split64(q2);
    assert q2 == cp / 4096;
    assert q2 / 64 == cp / 262144;
    assert bs[0] == 0xF0 + q2 / 64 && bs[1] == 0x80 + q2 % 64;
    assert bs[2] == 0x80 + q % 64 && bs[3] == 0x80 + cp % 64;
    assert (bs[0] as int - 0xF0) * 262144 + (bs[1] as int - 0x80) * 4096
      + (bs[2] as int - 0x80) * 64 + (bs[3] as int - 0x80) == cp;
  }

  /** Decoding undoes encoding: what the client sends is what a UTF-8 reader sees. */
  lemma {:induction false} DecodeEncode(s: string)
    ensures Decode(Encode(s)) == Some(s)
    decreases |s|
  {
    if s != [] {
      var e := EncodeChar(s[0]);
      DecodeFirstEncodeChar(s[0], Encode(s[1..]));
      assert (e + Encode(s[1..]))[|e|..] == Encode(s[1..]);
      DecodeEncode(s[1..]);
      assert [s[0]] + s[1..] == s;
    }
  }

  lemma DivMod64(hi: nat, lo: nat)
    requires lo < 64
    ensures (hi * 64 + lo) / 64 == hi && (hi * 64 + lo) % 64 == lo
  {
  }

  lemma EncodeChar2(c: char, b0: int, b1: int)
    requires 0xC2 <= b0 <= 0xDF && 0x80 <= b1 < 0xC0
    requires c as int == (b0 - 0xC0) * 64 + (b1 - 0x80)
    ensures EncodeChar(c) == [b0, b1]
  {
    DivMod64(b0 - 0xC0, b1 - 0x80);
  }

  lemma EncodeChar3(c: char, b0: int, b1: int, b2: int)
    requires 0xE0 <= b0 <= 0xEF && 0x80 <= b1 < 0xC0 && 0x80 <= b2 < 0xC0
    requires b0 == 0xE0 ==> 0xA0 <= b1
    requires c as int == (b0 - 0xE0) * 4096 + (b1 - 0x80) * 64 + (b2 - 0x80)
    ensures EncodeChar(c) == [b0, b1, b2]
  {
    var cp := c as int;
    var q := (b0 - 0xE0) * 64 + (b1 - 0x80);
    assert cp == q * 64 + (b2 - 0x80);
    DivMod64(q, b2 - 0x80);
    DivMod64(b0 - 0xE0, b1 - 0x80);
    assert cp / 4096 == (cp / 64) / 64;
  }

  lemma EncodeChar4(c: char, b0: int, b1: int, b2: int, b3: int)
    requires 0xF0 <= b0 <= 0xF4 && 0x80 <= b1 < 0xC0 && 0x80 <= b2 < 0xC0 && 0x80 <= b3 < 0xC0
    requires b0 == 0xF0 ==> 0x90 <= b1
    requires c as int == (b0 - 0xF0) * 262144 + (b1 - 0x80) * 4096 + (b2 - 0x80) * 64 + (b3 - 0x80)
    ensures EncodeChar(c) == [b0, b1, b2, b3]
  {
    var cp := c as int;
    var q2 := (b0 - 0xF0) * 64 + (b1 - 0x80);
    var q := q2 * 64 + (b2 - 0x80);
    assert cp == q * 64 + (b3 - 0x80);
    DivMod64(q, b3 - 0x80);
    DivMod64(q2, b2 - 0x80);
    DivMod64(b0 - 0xF0, b1 - 0x80);
    assert cp / 4096 == (cp / 64) / 64;
    assert cp / 262144 == ((cp / 64) / 64) / 64;
  }

  lemma {:induction false} EncodeCharDecodeFirst(bs: seq<byte>)
    requires DecodeFirst(bs).Some?
    ensures EncodeChar(DecodeFirst(bs).value.0) == bs[..DecodeFirst(bs).value.1]
  {
    var (c, n) := DecodeFirst(bs).value;
    if n == 2 {
      EncodeChar2(c, bs[0], bs[1]);
    } else if n == 3 {
      EncodeChar3(c, bs[0], bs[1], bs[2]);
    } else if n == 4 {
      EncodeChar4(c, bs[0], bs[1], bs[2], bs[3]);
    }
  }
}
