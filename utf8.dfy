/** UTF-8 as RFC 3629 defines it: the byte form of a string that
    `Buffer.from(data)` produces, and the strict decoding of bytes back to a
    string. A character is a Unicode scalar value: a code point outside the
    surrogate range D800-DFFF. */
module Utf8 {
  import opened Results
  import Seqs

  newtype byte = x: int | 0 <= x < 256

  /** A continuation byte, `10xxxxxx`. */
  predicate IsCont(b: byte) { 0x80 <= b < 0xC0 }

  /** The bytes of one character: 1 byte below U+0080, 2 below U+0800,
      3 below U+10000 and 4 above (section 3 of RFC 3629). */
  function EncodeChar(c: char): (bs: seq<byte>)
    ensures 1 <= |bs| <= 4
    ensures |bs| == 1 <==> (c as int) < 0x80
    ensures forall i :: 1 <= i < |bs| ==> IsCont(bs[i])
  {
    var u := c as int;
    if u < 0x80 then [u as byte]
    else if u < 0x800 then [(0xC0 + u / 64) as byte, (0x80 + u % 64) as byte]
    else if u < 0x1_0000 then
      [(0xE0 + u / 4096) as byte, (0x80 + u / 64 % 64) as byte, (0x80 + u % 64) as byte]
    else
      [(0xF0 + u / 262144) as byte, (0x80 + u / 4096 % 64) as byte,
       (0x80 + u / 64 % 64) as byte, (0x80 + u % 64) as byte]
  }

  /** `Buffer.from(data)`: the characters' bytes one after the other. */
  function Encode(s: string): (bs: seq<byte>)
    ensures |s| <= |bs| <= 4 * |s|
  {
    if s == [] then [] else EncodeChar(s[0]) + Encode(s[1..])
  }

  /** The length of the sequence that a leading byte announces, or 0 for a
      byte that cannot start one (a continuation byte, C0, C1, F5-FF). */
  function Width(b: byte): nat {
    if b < 0x80 then 1
    else if 0xC2 <= b <= 0xDF then 2
    else if 0xE0 <= b <= 0xEF then 3
    else if 0xF0 <= b <= 0xF4 then 4
    else 0
  }

  /** The code point that a leading byte and its continuation bytes carry. */
  function CodePoint(bs: seq<byte>): int
    requires 1 <= |bs| <= 4
  {
    var lead := bs[0] as int;
    if |bs| == 1 then lead
    else if |bs| == 2 then (lead - 0xC0) * 64 + (bs[1] as int - 0x80)
    else if |bs| == 3 then (lead - 0xE0) * 4096 + (bs[1] as int - 0x80) * 64 + (bs[2] as int - 0x80)
    else (lead - 0xF0) * 262144 + (bs[1] as int - 0x80) * 4096 + (bs[2] as int - 0x80) * 64 + (bs[3] as int - 0x80)
  }

  /** The code points a sequence of `w` bytes may carry: no overlong form,
      no surrogate, nothing above U+10FFFF. */
  predicate InRange(u: int, w: nat) {
    if w == 1 then 0 <= u < 0x80
    else if w == 2 then 0x80 <= u < 0x800
    else if w == 3 then 0x800 <= u < 0x1_0000 && !(0xD800 <= u < 0xE000)
    else w == 4 && 0x1_0000 <= u < 0x11_0000
  }

  /** The first character of `bs` and the number of bytes it takes, or
      `None` when `bs` does not start with a well-formed sequence. */
  function DecodeChar(bs: seq<byte>): (r: Option<(char, nat)>)
    requires bs != []
    ensures r.Some? ==> 1 <= r.value.1 <= |bs| && r.value.1 == Width(bs[0])
  {
    var w := Width(bs[0]);
    if w == 0 || |bs| < w || exists i :: 1 <= i < w && !IsCont(bs[i]) then None
    else
      var u := CodePoint(bs[..w]);
      if InRange(u, w) then Some((u as char, w)) else None
  }

  /** Strict decoding: `None` unless `bs` is well-formed UTF-8 throughout. */
  function Decode(bs: seq<byte>): (r: Option<string>)
    ensures r.Some? ==> |r.value| <= |bs|
    decreases |bs|
  {
    if bs == [] then Some([])
    else match DecodeChar(bs)
      case None => None
      case Some((c, w)) =>
        match Decode(bs[w..])
        case None => None
        case Some(t) => Some([c] + t)
  }

  lemma DivMod64(q: int, r: int)
    requires 0 <= r < 64
    ensures (64 * q + r) / 64 == q && (64 * q + r) % 64 == r
  {
  }

  /** The bytes of a character carry exactly its code point, within the
      range its width allows. */
  lemma EncodeCharCodePoint(c: char)
    ensures Width(EncodeChar(c)[0]) == |EncodeChar(c)|
    ensures CodePoint(EncodeChar(c)) == c as int
    ensures InRange(c as int, |EncodeChar(c)|)
  {
    var u := c as int;
    if u >= 0x1_0000 {
      CodePointFour(c);
    } else if u >= 0x800 {
      CodePointThree(c);
    }
  }

  /** The base-64 digits of a number: `u / 4096` and `u / 262144` are
      `u / 64` divided by 64 once and twice more. */
  lemma Digits64(u: nat)
    ensures u == u / 64 * 64 + u % 64
    ensures u / 64 == u / 4096 * 64 + u / 64 % 64
    ensures u / 4096 == u / 262144 * 64 + u / 4096 % 64
  {
    assert u / 4096 == u / 64 / 64;
    assert u / 262144 == u / 4096 / 64;
  }

  lemma CodePointThree(c: char)
    requires 0x800 <= c as int < 0x1_0000
    ensures Width(EncodeChar(c)[0]) == 3 && CodePoint(EncodeChar(c)) == c as int
  {
    var u := c as int;
    Digits64(u);
    assert u / 4096 < 16;
  }

  lemma CodePointFour(c: char)
    requires 0x1_0000 <= c as int
    ensures Width(EncodeChar(c)[0]) == 4 && CodePoint(EncodeChar(c)) == c as int
  {
    var u := c as int;
    Digits64(u);
    assert u / 262144 < 5;
  }

  /** A character's bytes decode to that character, whatever follows them. */
  lemma DecodeEncodeChar(c: char, rest: seq<byte>)
    ensures DecodeChar(EncodeChar(c) + rest) == Some((c, |EncodeChar(c)|))
  {
    var e := EncodeChar(c);
    EncodeCharCodePoint(c);
    var bs := e + rest;
    assert bs[..|e|] == e;
    assert forall i :: 1 <= i < |e| ==> bs[i] == e[i];
  }

  /** A well-formed sequence is the encoding of the character it decodes
      to: there is one byte form per character. */
  lemma EncodeDecodeChar(bs: seq<byte>)
    requires bs != [] && DecodeChar(bs).Some?
    ensures EncodeChar(DecodeChar(bs).value.0) == bs[..DecodeChar(bs).value.1]
  {
    var w := Width(bs[0]);
    var e := bs[..w];
    var u := CodePoint(e);
    if w == 2 {
      assert e == [bs[0], bs[1]];
      EncodeTwo(bs[0], bs[1], u);
    } else if w == 3 {
      assert e == [bs[0], bs[1], bs[2]];
      EncodeThree(bs[0], bs[1], bs[2], u);
    } else if w == 4 {
      assert e == [bs[0], bs[1], bs[2], bs[3]];
      EncodeFour(bs[0], bs[1], bs[2], bs[3], u);
    }
  }

  lemma EncodeTwo(b0: byte, b1: byte, u: int)
    requires 0xC0 <= b0 < 0xE0 && IsCont(b1) && u == CodePoint([b0, b1]) && InRange(u, 2)
    ensures EncodeChar(u as char) == [b0, b1]
  {
    DivMod64(b0 as int - 0xC0, b1 as int - 0x80);
  }

  lemma EncodeThree(b0: byte, b1: byte, b2: byte, u: int)
    requires 0xE0 <= b0 < 0xF0 && IsCont(b1) && IsCont(b2)
    requires u == CodePoint([b0, b1, b2]) && InRange(u, 3)
    ensures EncodeChar(u as char) == [b0, b1, b2]
  {
    var hi := (b0 as int - 0xE0) * 64 + (b1 as int - 0x80);
    assert u == hi * 64 + (b2 as int - 0x80);
    DivMod64(hi, b2 as int - 0x80);
    DivMod64(b0 as int - 0xE0, b1 as int - 0x80);
    assert u / 4096 == u / 64 / 64;
  }

  lemma EncodeFour(b0: byte, b1: byte, b2: byte, b3: byte, u: int)
    requires 0xF0 <= b0 < 0xF8 && IsCont(b1) && IsCont(b2) && IsCont(b3)
    requires u == CodePoint([b0, b1, b2, b3]) && InRange(u, 4)
    ensures EncodeChar(u as char) == [b0, b1, b2, b3]
  {
    var top := (b0 as int - 0xF0) * 64 + (b1 as int - 0x80);
    var hi := top * 64 + (b2 as int - 0x80);
    assert u == hi * 64 + (b3 as int - 0x80);
    DivMod64(hi, b3 as int - 0x80);
    DivMod64(top, b2 as int - 0x80);
    DivMod64(b0 as int - 0xF0, b1 as int - 0x80);
    assert u / 4096 == u / 64 / 64;
    assert u / 262144 == u / 64 / 64 / 64;
  }

  /** Decoding undoes encoding: `Buffer.from(data).toString()` gives back
      `data`. */
  lemma {:induction false} DecodeEncode(s: string)
    ensures Decode(Encode(s)) == Some(s)
    decreases |s|
  {
    if s != [] {
      var e := EncodeChar(s[0]);
      DecodeEncodeChar(s[0], Encode(s[1..]));
      assert (e + Encode(s[1..]))[|e|..] == Encode(s[1..]);
      DecodeEncode(s[1..]);
      assert [s[0]] + s[1..] == s;
    }
  }

  /** Encoding undoes decoding: well-formed UTF-8 has no second byte form
      for the same string. */
  lemma {:induction false} EncodeDecode(bs: seq<byte>)
    requires Decode(bs).Some?
    ensures Encode(Decode(bs).value) == bs
    decreases |bs|
  {
    if bs != [] {
      var c, w := DecodeChar(bs).value.0, DecodeChar(bs).value.1;
      var t := Decode(bs[w..]).value;
      EncodeDecode(bs[w..]);
      EncodeDecodeStep(bs, c, w, t);
    }
  }

  /** One step of `EncodeDecode`: the first character, and the rest by the
      induction hypothesis. */
  lemma EncodeDecodeStep(bs: seq<byte>, c: char, w: nat, t: string)
    requires bs != [] && DecodeChar(bs) == Some((c, w))
    requires Decode(bs[w..]) == Some(t) && Encode(t) == bs[w..]
    ensures Decode(bs) == Some([c] + t) && Encode([c] + t) == bs
  {
    EncodeDecodeChar(bs);
    Seqs.ConsSplit([c], t);
    Seqs.SplitAt(bs, w);
  }

  /** ASCII text is its own UTF-8 form, one byte per character. */
  lemma {:induction false} EncodeAscii(s: string)
    requires forall i :: 0 <= i < |s| ==> (s[i] as int) < 0x80
    ensures |Encode(s)| == |s|
    ensures forall i :: 0 <= i < |s| ==> Encode(s)[i] as int == s[i] as int
    decreases |s|
  {
    if s != [] {
      EncodeAscii(s[1..]);
    }
  }
}
