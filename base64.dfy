/** Base64 as section 4 of RFC 4648 defines it, with `=` padding, and the
    two string operations built on it: `toBase64` encodes the UTF-8 bytes of
    a string, `fromBase64` decodes Base64 text and reads the bytes as UTF-8. */
module Base64 {
  import opened Results
  import opened Utf8
  import Seqs

  /** The character for a 6-bit value: `A`-`Z`, `a`-`z`, `0`-`9`, `+`, `/`. */
  function Digit(v: nat): (c: char)
    requires v < 64
  {
    if v < 26 then ('A' as int + v) as char
    else if v < 52 then ('a' as int + (v - 26)) as char
    else if v < 62 then ('0' as int + (v - 52)) as char
    else if v == 62 then '+'
    else '/'
  }

  /** The characters of the Base64 alphabet (padding `=` is not one). */
  predicate IsDigit64(c: char) {
    'A' <= c <= 'Z' || 'a' <= c <= 'z' || '0' <= c <= '9' || c == '+' || c == '/'
  }

  /** The 6-bit value of an alphabet character. */
  function Value(c: char): (v: nat)
    requires IsDigit64(c)
    ensures v < 64 && Digit(v) == c
  {
    if 'A' <= c <= 'Z' then c as int - 'A' as int
    else if 'a' <= c <= 'z' then c as int - 'a' as int + 26
    else if '0' <= c <= '9' then c as int - '0' as int + 52
    else if c == '+' then 62
    else 63
  }

  /** The alphabet and its values are inverse to each other. */
  lemma DigitValue(v: nat)
    requires v < 64
    ensures IsDigit64(Digit(v)) && Value(Digit(v)) == v
  {
  }

  /** Three bytes as four characters: each character carries 6 of the 24 bits,
      most significant first. */
  function EncodeGroup(b0: byte, b1: byte, b2: byte): string {
    [Digit(b0 as int / 4), Digit(b0 as int % 4 * 16 + b1 as int / 16),
     Digit(b1 as int % 16 * 4 + b2 as int / 64), Digit(b2 as int % 64)]
  }

  /** The four characters for a chunk of one to three bytes: the chunk is
      filled up with zero bits to a whole number of characters, and `=`
      stands for each character that carries no bit of the chunk. */
  function EncodeChunk(c: seq<byte>): (q: string)
    requires 1 <= |c| <= 3
    ensures |q| == 4
  {
    var g := EncodeGroup(c[0], if |c| > 1 then c[1] else 0, if |c| > 2 then c[2] else 0);
    if |c| == 3 then g else if |c| == 2 then g[..3] + "=" else g[..2] + "=="
  }

  function Min(x: int, y: int): int { if x < y then x else y }

  /** The Base64 text of some bytes: a chunk of three bytes at a time, the
      last chunk shorter when the length is not a multiple of three. */
  function Encode(bs: seq<byte>): (s: string)
    ensures |s| % 4 == 0
    ensures s == [] <==> bs == []
    decreases |bs|
  {
    if bs == [] then [] else
      var n := Min(3, |bs|);
      EncodeChunk(bs[..n]) + Encode(bs[n..])
  }

  /** Four characters for every three bytes or part of three. */
  lemma {:induction false} EncodeLength(bs: seq<byte>)
    ensures |Encode(bs)| == 4 * ((|bs| + 2) / 3)
    decreases |bs|
  {
    if bs != [] {
      var n := Min(3, |bs|);
      EncodeLength(bs[n..]);
      assert |Encode(bs)| == 4 + |Encode(bs[n..])|;
      if |bs| >= 3 {
        ThirdsStep(|bs|);
      }
    }
  }

  lemma ThirdsStep(m: int)
    requires m >= 3
    ensures (m + 2) / 3 == (m - 3 + 2) / 3 + 1
  {
  }

  /** Four characters back to the three bytes they carry. */
  function DecodeGroup(c0: char, c1: char, c2: char, c3: char): seq<byte>
    requires IsDigit64(c0) && IsDigit64(c1) && IsDigit64(c2) && IsDigit64(c3)
  {
    var v0, v1, v2, v3 := Value(c0), Value(c1), Value(c2), Value(c3);
    [(v0 * 4 + v1 / 16) as byte, (v1 % 16 * 16 + v2 / 4) as byte, (v2 % 4 * 64 + v3) as byte]
  }

  /** The bytes of one group of four characters, or `None` when the group is
      not the encoding of any chunk. Padding is allowed only in the `last`
      group, and the bits that padding leaves over must be zero. */
  function DecodeQuad(q: string, last: bool): (r: Option<seq<byte>>)
    requires |q| == 4
    ensures r.Some? ==> 1 <= |r.value| <= 3 && (|r.value| < 3 ==> last)
  {
    if !IsDigit64(q[0]) || !IsDigit64(q[1]) then None
    else
      var v0, v1 := Value(q[0]), Value(q[1]);
      if q[2] == '=' && q[3] == '=' then
        if last && v1 % 16 == 0 then Some([(v0 * 4 + v1 / 16) as byte]) else None
      else if !IsDigit64(q[2]) then None
      else
        var v2 := Value(q[2]);
        if q[3] == '=' then
          if last && v2 % 4 == 0 then Some([(v0 * 4 + v1 / 16) as byte, (v1 % 16 * 16 + v2 / 4) as byte]) else None
        else if IsDigit64(q[3]) then Some(DecodeGroup(q[0], q[1], q[2], q[3]))
        else None
  }

  /** Canonical decoding: `None` unless `s` is exactly what `Encode` produces
      for some bytes (length a multiple of 4, padding only at the end, and
      the bits that padding drops all zero). */
  function Decode(s: string): (r: Option<seq<byte>>)
    ensures r.Some? ==> |s| % 4 == 0 && (|r.value| + 2) / 3 == |s| / 4
    decreases |s|
  {
    if s == [] then Some([])
    else if |s| < 4 then None
    else match DecodeQuad(s[..4], |s| == 4)
      case None => None
      case Some(c) =>
        match Decode(s[4..])
        case None => None
        case Some(rest) =>
          assert |c| < 3 ==> rest == [];
          Some(c + rest)
  }

  lemma Split24(b0: int, b1: int, b2: int)
    requires 0 <= b0 < 256 && 0 <= b1 < 256 && 0 <= b2 < 256
    ensures (b0 / 4) * 4 + (b0 % 4 * 16 + b1 / 16) / 16 == b0
    ensures (b0 % 4 * 16 + b1 / 16) % 16 * 16 + (b1 % 16 * 4 + b2 / 64) / 4 == b1
    ensures (b1 % 16 * 4 + b2 / 64) % 4 * 64 + b2 % 64 == b2
  {
  }

  lemma Join24(v0: int, v1: int, v2: int, v3: int)
    requires 0 <= v0 < 64 && 0 <= v1 < 64 && 0 <= v2 < 64 && 0 <= v3 < 64
    ensures (v0 * 4 + v1 / 16) / 4 == v0
    ensures (v0 * 4 + v1 / 16) % 4 * 16 + (v1 % 16 * 16 + v2 / 4) / 16 == v1
    ensures (v1 % 16 * 16 + v2 / 4) % 16 * 4 + (v2 % 4 * 64 + v3) / 64 == v2
    ensures (v2 % 4 * 64 + v3) % 64 == v3
  {
  }

  /** The values of the characters of a group are the bit fields of its bytes. */
  lemma GroupValues(b0: byte, b1: byte, b2: byte)
    ensures var g := EncodeGroup(b0, b1, b2);
      && IsDigit64(g[0]) && Value(g[0]) == b0 as int / 4
      && IsDigit64(g[1]) && Value(g[1]) == b0 as int % 4 * 16 + b1 as int / 16
      && IsDigit64(g[2]) && Value(g[2]) == b1 as int % 16 * 4 + b2 as int / 64
      && IsDigit64(g[3]) && Value(g[3]) == b2 as int % 64
  {
    var x0, x1, x2 := b0 as int, b1 as int, b2 as int;
    DigitValue(x0 / 4);
    DigitValue(x0 % 4 * 16 + x1 / 16);
    DigitValue(x1 % 16 * 4 + x2 / 64);
    DigitValue(x2 % 64);
  }

  /** A chunk's four characters decode back to the chunk; a short chunk only
      as the last group. */
  lemma DecodeEncodeChunk(c: seq<byte>, last: bool)
    requires 1 <= |c| <= 3 && (|c| < 3 ==> last)
    ensures DecodeQuad(EncodeChunk(c), last) == Some(c)
  {
    if |c| == 3 {
      DecodeEncodeThree(c, c[0], c[1], c[2], last);
    } else if |c| == 2 {
      DecodeEncodeTwo(c, c[0], c[1]);
    } else {
      DecodeEncodeOne(c, c[0]);
    }
  }

  lemma DecodeEncodeThree(c: seq<byte>, b0: byte, b1: byte, b2: byte, last: bool)
    requires c == [b0, b1, b2]
    ensures DecodeQuad(EncodeChunk(c), last) == Some(c)
  {
    var q := EncodeChunk(c);
    assert q == EncodeGroup(b0, b1, b2);
    var x0, x1, x2 := b0 as int, b1 as int, b2 as int;
    var v0, v1, v2, v3 := x0 / 4, x0 % 4 * 16 + x1 / 16, x1 % 16 * 4 + x2 / 64, x2 % 64;
    GroupValues(b0, b1, b2);
    Split24(x0, x1, x2);
    DecodeFull(q, last, v0, v1, v2, v3);
  }

  /** A group of four alphabet characters decodes to the three bytes that
      their values make up. */
  lemma DecodeFull(q: string, last: bool, v0: nat, v1: nat, v2: nat, v3: nat)
    requires |q| == 4 && IsDigit64(q[0]) && IsDigit64(q[1]) && IsDigit64(q[2]) && IsDigit64(q[3])
    requires v0 == Value(q[0]) && v1 == Value(q[1]) && v2 == Value(q[2]) && v3 == Value(q[3])
    ensures DecodeQuad(q, last) == Some([(v0 * 4 + v1 / 16) as byte, (v1 % 16 * 16 + v2 / 4) as byte, (v2 % 4 * 64 + v3) as byte])
  {
  }

  lemma DecodeEncodeTwo(c: seq<byte>, b0: byte, b1: byte)
    requires c == [b0, b1]
    ensures DecodeQuad(EncodeChunk(c), true) == Some(c)
  {
    var q := EncodeChunk(c);
    var g := EncodeGroup(b0, b1, 0);
    assert q == g[..3] + "=";
    GroupValues(b0, b1, 0);
    Split24(b0 as int, b1 as int, 0);
  }

  lemma DecodeEncodeOne(c: seq<byte>, b0: byte)
    requires c == [b0]
    ensures DecodeQuad(EncodeChunk(c), true) == Some(c)
  {
    var q := EncodeChunk(c);
    var g := EncodeGroup(b0, 0, 0);
    assert q == g[..2] + "==";
    GroupValues(b0, 0, 0);
    Split24(b0 as int, 0, 0);
  }

  /** A group without padding is the encoding of the three bytes it decodes to. */
  lemma EncodeDecodeGroup(q: string, v0: nat, v1: nat, v2: nat, v3: nat, c: seq<byte>)
    requires |q| == 4 && IsDigit64(q[0]) && IsDigit64(q[1]) && IsDigit64(q[2]) && IsDigit64(q[3])
    requires v0 == Value(q[0]) && v1 == Value(q[1]) && v2 == Value(q[2]) && v3 == Value(q[3])
    requires c == [(v0 * 4 + v1 / 16) as byte, (v1 % 16 * 16 + v2 / 4) as byte, (v2 % 4 * 64 + v3) as byte]
    ensures EncodeChunk(c) == q
  {
    Join24(v0, v1, v2, v3);
    assert c[0] as int / 4 == v0;
    assert c[0] as int % 4 * 16 + c[1] as int / 16 == v1;
    assert c[1] as int % 16 * 4 + c[2] as int / 64 == v2;
    assert c[2] as int % 64 == v3;
  }

  /** A group ending in `=` that decodes is the encoding of its two bytes. */
  lemma EncodeDecodePadOne(q: string, v0: nat, v1: nat, v2: nat, c: seq<byte>)
    requires |q| == 4 && IsDigit64(q[0]) && IsDigit64(q[1]) && IsDigit64(q[2]) && q[3] == '='
    requires v0 == Value(q[0]) && v1 == Value(q[1]) && v2 == Value(q[2]) && v2 % 4 == 0
    requires c == [(v0 * 4 + v1 / 16) as byte, (v1 % 16 * 16 + v2 / 4) as byte]
    ensures EncodeChunk(c) == q
  {
    Join24(v0, v1, v2, 0);
    assert c[0] as int / 4 == v0;
    assert c[0] as int % 4 * 16 + c[1] as int / 16 == v1;
    assert c[1] as int % 16 * 4 == v2;
    var g := EncodeGroup(c[0], c[1], 0);
    assert g[..3] == q[..3];
  }

  /** A group ending in `==` that decodes is the encoding of its one byte. */
  lemma EncodeDecodePadTwo(q: string, v0: nat, v1: nat, c: seq<byte>)
    requires |q| == 4 && IsDigit64(q[0]) && IsDigit64(q[1]) && q[2] == '=' && q[3] == '='
    requires v0 == Value(q[0]) && v1 == Value(q[1]) && v1 % 16 == 0
    requires c == [(v0 * 4 + v1 / 16) as byte]
    ensures EncodeChunk(c) == q
  {
    Join24(v0, v1, 0, 0);
    assert c[0] as int / 4 == v0;
    assert c[0] as int % 4 * 16 == v1;
    var g := EncodeGroup(c[0], 0, 0);
    assert g[..2] == q[..2];
  }

  /** A group that decodes is the encoding of the chunk it decodes to. */
  lemma EncodeDecodeQuad(q: string, last: bool)
    requires |q| == 4 && DecodeQuad(q, last).Some?
    ensures EncodeChunk(DecodeQuad(q, last).value) == q
  {
    var r := DecodeQuad(q, last).value;
    var v0, v1 := Value(q[0]), Value(q[1]);
    if q[2] == '=' && q[3] == '=' {
      assert r == [(v0 * 4 + v1 / 16) as byte];
      EncodeDecodePadTwo(q, v0, v1, r);
    } else if q[3] == '=' {
      var v2 := Value(q[2]);
      assert r == [(v0 * 4 + v1 / 16) as byte, (v1 % 16 * 16 + v2 / 4) as byte];
      EncodeDecodePadOne(q, v0, v1, v2, r);
    } else {
      var v2, v3 := Value(q[2]), Value(q[3]);
      assert r == [(v0 * 4 + v1 / 16) as byte, (v1 % 16 * 16 + v2 / 4) as byte, (v2 % 4 * 64 + v3) as byte];
      EncodeDecodeGroup(q, v0, v1, v2, v3, r);
    }
  }

  /** Decoding undoes encoding, for every byte sequence. */
  lemma {:induction false} DecodeEncode(bs: seq<byte>)
    ensures Decode(Encode(bs)) == Some(bs)
    decreases |bs|
  {
    if bs != [] {
      var n := Min(3, |bs|);
      DecodeEncode(bs[n..]);
      DecodeEncodeStep(bs, bs[..n], bs[n..]);
    }
  }

  /** One step of `DecodeEncode`: the first chunk decodes, and the rest by
      the induction hypothesis. */
  lemma DecodeEncodeStep(bs: seq<byte>, c: seq<byte>, rest: seq<byte>)
    requires bs != [] && c == bs[..Min(3, |bs|)] && rest == bs[Min(3, |bs|)..]
    requires Decode(Encode(rest)) == Some(rest)
    ensures Decode(Encode(bs)) == Some(bs)
  {
    var q, t := EncodeChunk(c), Encode(rest);
    assert Encode(bs) == q + t;
    DecodeEncodeChunk(c, t == []);
    DecodeCons(q, t, c, rest);
    assert c + rest == bs;
  }

  /** Decoding goes group by group. */
  lemma DecodeCons(q: string, t: string, c: seq<byte>, rest: seq<byte>)
    requires |q| == 4 && DecodeQuad(q, t == []) == Some(c) && Decode(t) == Some(rest)
    ensures Decode(q + t) == Some(c + rest)
  {
    Seqs.Parts(q, t);
  }

  /** Encoding undoes decoding: every text that decodes is the one encoding
      of its bytes. */
  lemma {:induction false} EncodeDecode(s: string)
    requires Decode(s).Some?
    ensures Encode(Decode(s).value) == s
    decreases |s|
  {
    if s != [] {
      var c := DecodeQuad(s[..4], |s| == 4).value;
      var rest := Decode(s[4..]).value;
      EncodeDecodeQuad(s[..4], |s| == 4);
      EncodeDecode(s[4..]);
      var bs := c + rest;
      Seqs.Parts(c, rest);
      assert |c| < 3 ==> rest == [];
      assert Min(3, |bs|) == |c|;
      assert s[..4] + s[4..] == s;
    }
  }

  /** `toBase64(data)`: `Buffer.from(data).toString('base64')`. */
  function ToBase64(s: string): (r: string)
    ensures |r| == 4 * ((|Utf8.Encode(s)| + 2) / 3)
  {
    EncodeLength(Utf8.Encode(s));
    Encode(Utf8.Encode(s))
  }

  /** `fromBase64(data)`: `Buffer.from(data, 'base64').toString()`, for text
      that is canonical Base64 of well-formed UTF-8; `None` otherwise.
      Whatever it decodes, `toBase64` turns back into the same text. */
  function FromBase64(s: string): (r: Option<string>)
    ensures r.Some? ==> ToBase64(r.value) == s
  {
    match Decode(s)
    case None => None
    case Some(bs) =>
      match Utf8.Decode(bs)
      case None => None
      case Some(t) =>
        Utf8.EncodeDecode(bs);
        EncodeDecode(s);
        Some(t)
  }

  /** `fromBase64(toBase64(data)) == data` for every string. */
  lemma FromToBase64(s: string)
    ensures FromBase64(ToBase64(s)) == Some(s)
  {
    DecodeEncode(Utf8.Encode(s));
    Utf8.DecodeEncode(s);
  }

  /** Two concrete chunks: the last one short. */
  lemma EncodeTwoChunks(bs: seq<byte>, c0: seq<byte>, c1: seq<byte>)
    requires |c0| == 3 && 1 <= |c1| <= 3 && bs == c0 + c1
    ensures Encode(bs) == EncodeChunk(c0) + EncodeChunk(c1)
  {
    assert bs[..3] == c0 && bs[3..] == c1;
    assert c1[..|c1|] == c1 && c1[|c1|..] == [];
  }

  lemma HelloBytes(s: string, bs: seq<byte>)
    requires s == "Hello" && bs == [72, 101, 108, 108, 111]
    ensures Utf8.Encode(s) == bs
  {
    EncodeAscii(s);
  }

  lemma HelloChunks(c0: seq<byte>, c1: seq<byte>)
    requires c0 == [72, 101, 108] && c1 == [108, 111]
    ensures EncodeChunk(c0) + EncodeChunk(c1) == "SGVsbG8="
  {
    assert EncodeChunk(c0) == [Digit(18), Digit(6), Digit(21), Digit(44)] == "SGVs";
    assert EncodeChunk(c1) == [Digit(27), Digit(6), Digit(60), '='] == "bG8=";
  }

  /** The documentation's first example of `toBase64` and of `fromBase64`. */
  lemma Base64ExampleHello()
    ensures ToBase64("Hello") == "SGVsbG8="
    ensures FromBase64("SGVsbG8=") == Some("Hello")
  {
    var s := "Hello";
    var c0: seq<byte>, c1: seq<byte> := [72, 101, 108], [108, 111];
    HelloBytes(s, c0 + c1);
    EncodeTwoChunks(c0 + c1, c0, c1);
    HelloChunks(c0, c1);
    FromToBase64(s);
  }

  lemma DigitsBytes(s: string, bs: seq<byte>)
    requires s == "12345" && bs == [49, 50, 51, 52, 53]
    ensures Utf8.Encode(s) == bs
  {
    EncodeAscii(s);
  }

  lemma DigitsChunks(c0: seq<byte>, c1: seq<byte>)
    requires c0 == [49, 50, 51] && c1 == [52, 53]
    ensures EncodeChunk(c0) + EncodeChunk(c1) == "MTIzNDU="
  {
    assert EncodeChunk(c0) == [Digit(12), Digit(19), Digit(8), Digit(51)] == "MTIz";
    assert EncodeChunk(c1) == [Digit(13), Digit(3), Digit(20), '='] == "NDU=";
  }

  /** The documentation's third example of `toBase64` and of `fromBase64`. */
  lemma Base64ExampleDigits()
    ensures ToBase64("12345") == "MTIzNDU="
    ensures FromBase64("MTIzNDU=") == Some("12345")
  {
    var s := "12345";
    var c0: seq<byte>, c1: seq<byte> := [49, 50, 51], [52, 53];
    DigitsBytes(s, c0 + c1);
    EncodeTwoChunks(c0 + c1, c0, c1);
    DigitsChunks(c0, c1);
    FromToBase64(s);
  }

  /** A full chunk of three bytes at the front is encoded on its own. */
  lemma EncodeFullChunk(c: seq<byte>, rest: seq<byte>)
    requires |c| == 3
    ensures Encode(c + rest) == EncodeChunk(c) + Encode(rest)
  {
    assert (c + rest)[..3] == c && (c + rest)[3..] == rest;
  }

  lemma HelloWorldBytes(s: string, bs: seq<byte>)
    requires s == "Hello World" && bs == [72, 101, 108, 108, 111, 32, 87, 111, 114, 108, 100]
    ensures Utf8.Encode(s) == bs
  {
    EncodeAscii(s);
    var e := Utf8.Encode(s);
    assert e == [e[0], e[1], e[2], e[3], e[4], e[5], e[6], e[7], e[8], e[9], e[10]];
  }

  lemma HelloWorldChunks(c0: seq<byte>, c1: seq<byte>, c2: seq<byte>, c3: seq<byte>)
    requires c0 == [72, 101, 108] && c1 == [108, 111, 32] && c2 == [87, 111, 114] && c3 == [108, 100]
    ensures EncodeChunk(c0) + EncodeChunk(c1) + EncodeChunk(c2) + EncodeChunk(c3) == "SGVsbG8gV29ybGQ="
  {
    HelloChunk(c0);
    assert EncodeChunk(c1) == "bG8g" by {
      assert EncodeChunk(c1) == [Digit(27), Digit(6), Digit(60), Digit(32)];
    }
    assert EncodeChunk(c2) == "V29y" by {
      assert EncodeChunk(c2) == [Digit(21), Digit(54), Digit(61), Digit(50)];
    }
    assert EncodeChunk(c3) == "bGQ=" by {
      assert EncodeChunk(c3) == [Digit(27), Digit(6), Digit(16), '='];
    }
  }

  lemma HelloChunk(c0: seq<byte>)
    requires c0 == [72, 101, 108]
    ensures EncodeChunk(c0) == "SGVs"
  {
    assert EncodeChunk(c0) == [Digit(18), Digit(6), Digit(21), Digit(44)];
  }

  /** The bytes of `Hello World` in four chunks, the last of two bytes. */
  lemma HelloWorldEncode(c0: seq<byte>, c1: seq<byte>, c2: seq<byte>, c3: seq<byte>)
    requires c0 == [72, 101, 108] && c1 == [108, 111, 32] && c2 == [87, 111, 114] && c3 == [108, 100]
    ensures Encode(c0 + (c1 + (c2 + c3))) == "SGVsbG8gV29ybGQ="
  {
    var e0, e1, e2, e3 := EncodeChunk(c0), EncodeChunk(c1), EncodeChunk(c2), EncodeChunk(c3);
    assert Encode(c0 + (c1 + (c2 + c3))) == e0 + (e1 + (e2 + e3)) by {
      EncodeFullChunk(c0, c1 + (c2 + c3));
      EncodeFullChunk(c1, c2 + c3);
      EncodeTwoChunks(c2 + c3, c2, c3);
    }
    assert e0 + (e1 + (e2 + e3)) == e0 + e1 + e2 + e3;
    HelloWorldChunks(c0, c1, c2, c3);
  }

  /** The documentation's example of `toBase64` and of `fromBase64` with
      two words. */
  lemma Base64ExampleHelloWorld()
    ensures ToBase64("Hello World") == "SGVsbG8gV29ybGQ="
    ensures FromBase64("SGVsbG8gV29ybGQ=") == Some("Hello World")
  {
    var s := "Hello World";
    var c0: seq<byte>, c1: seq<byte>, c2: seq<byte>, c3: seq<byte> := [72, 101, 108], [108, 111, 32], [87, 111, 114], [108, 100];
    HelloWorldBytes(s, c0 + (c1 + (c2 + c3)));
    HelloWorldEncode(c0, c1, c2, c3);
    FromToBase64(s);
  }
}
