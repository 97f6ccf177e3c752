/**
 * The base64 encoding of section 4 of RFC 4648: the standard alphabet
 * `A-Z a-z 0-9 + /`, every 3 bytes become 4 characters, and a final group of
 * 1 or 2 bytes is padded with `=` to 4 characters. This is what Node.js
 * produces for `buffer.toString('base64', start, end)`.
 *
 * `Decode` is the strict inverse (canonical padding and zero pad bits); it is
 * not used by the handler, it is the reference that pins down what `Encode`
 * carries.
 */
module Base64 {
  import opened Wrappers
  import opened Bytes

  const Pad: char := '='

  /** The character of the alphabet (section 4, Table 1) for a 6-bit value. */
  function CharOf(v: nat): (c: char)
    requires v < 64
    ensures ValueOf(c) == Some(v)
  {
    if v < 26 then ('A' as int + v) as char
    else if v < 52 then ('a' as int + (v - 26)) as char
    else if v < 62 then ('0' as int + (v - 52)) as char
    else if v == 62 then '+'
    else '/'
  }

  /** The 6-bit value of a character of the alphabet; `None` for any other character, `=` included. */
  function ValueOf(c: char): (r: Option<nat>)
    ensures r.Some? ==> r.value < 64 && c != Pad
  {
    if 'A' <= c <= 'Z' then Some(c as int - 'A' as int)
    else if 'a' <= c <= 'z' then Some(c as int - 'a' as int + 26)
    else if '0' <= c <= '9' then Some(c as int - '0' as int + 52)
    else if c == '+' then Some(62)
    else if c == '/' then Some(63)
    else None
  }

  /** Every character of the alphabet is the image of its own value. */
  lemma CharOfValueOf(c: char)
    requires ValueOf(c).Some?
    ensures CharOf(ValueOf(c).value) == c
  {
  }

  /** A character that may appear in an encoding: the alphabet or the pad. */
  predicate IsEncodingChar(c: char)
  {
    ValueOf(c).Some? || c == Pad
  }

  /** The four characters for three bytes. */
  function EncodeGroup(b0: byte, b1: byte, b2: byte): (g: string)
    ensures |g| == 4 && forall i :: 0 <= i < 4 ==> IsEncodingChar(g[i])
  {
    var x0, x1, x2 := b0 as int, b1 as int, b2 as int;
    [CharOf(x0 / 4), CharOf(x0 % 4 * 16 + x1 / 16), CharOf(x1 % 16 * 4 + x2 / 64), CharOf(x2 % 64)]
  }

  /** The padded group for a final two bytes. */
  function EncodeTwo(b0: byte, b1: byte): (g: string)
    ensures |g| == 4 && forall i :: 0 <= i < 4 ==> IsEncodingChar(g[i])
  {
    var x0, x1 := b0 as int, b1 as int;
    [CharOf(x0 / 4), CharOf(x0 % 4 * 16 + x1 / 16), CharOf(x1 % 16 * 4), Pad]
  }

  /** The padded group for a final single byte. */
  function EncodeOne(b0: byte): (g: string)
    ensures |g| == 4 && forall i :: 0 <= i < 4 ==> IsEncodingChar(g[i])
  {
    var x0 := b0 as int;
    [CharOf(x0 / 4), CharOf(x0 % 4 * 16), Pad, Pad]
  }

  /**
   * The base64 text of `data`: 4 characters per started group of 3 bytes,
   * drawn from the alphabet and the pad only.
   */
  function Encode(data: seq<byte>): (s: string)
    ensures |s| == 4 * ((|data| + 2) / 3)
    ensures forall i :: 0 <= i < |s| ==> IsEncodingChar(s[i])
    decreases |data|
  {
    if |data| == 0 then ""
    else if |data| == 1 then EncodeOne(data[0])
    else if |data| == 2 then EncodeTwo(data[0], data[1])
    else
      var g, rest := EncodeGroup(data[0], data[1], data[2]), Encode(data[3..]);
      assert forall i :: 4 <= i < |g + rest| ==> (g + rest)[i] == rest[i - 4];
      g + rest
  }

  /** The bytes of one group of four characters; `last` says whether padding may appear. */
  function DecodeGroup(g: string, last: bool): (r: Option<seq<byte>>)
    requires |g| == 4
    ensures r.Some? ==> 1 <= |r.value| <= 3 && (!last ==> |r.value| == 3)
  {
    var v0, v1, v2, v3 := ValueOf(g[0]), ValueOf(g[1]), ValueOf(g[2]), ValueOf(g[3]);
    if v0.None? || v1.None? then None
    else if last && g[2] == Pad && g[3] == Pad then
      // One byte; the low four bits of the second character must be zero.
      if v1.value % 16 != 0 then None
      else Some([(v0.value * 4 + v1.value / 16) as byte])
    else if v2.None? then None
    else if last && g[3] == Pad then
      // Two bytes; the low two bits of the third character must be zero.
      if v2.value % 4 != 0 then None
      else Some([(v0.value * 4 + v1.value / 16) as byte, (v1.value % 16 * 16 + v2.value / 4) as byte])
    else if v3.None? then None
    else Some([(v0.value * 4 + v1.value / 16) as byte,
               (v1.value % 16 * 16 + v2.value / 4) as byte,
               (v2.value % 4 * 64 + v3.value) as byte])
  }

  /** Strict decoding: `None` unless `s` is exactly the encoding of some bytes. */
  function Decode(s: string): (r: Option<seq<byte>>)
    decreases |s|
  {
    if |s| == 0 then Some([])
    else if |s| < 4 then None
    else match DecodeGroup(s[..4], |s| == 4)
      case None => None
      case Some(head) =>
        match Decode(s[4..])
        case None => None
        case Some(tail) => Some(head + tail)
  }

  lemma GroupRoundTrip(b0: byte, b1: byte, b2: byte, last: bool)
    ensures DecodeGroup(EncodeGroup(b0, b1, b2), last) == Some([b0, b1, b2])
  {
    var x0, x1, x2 := b0 as int, b1 as int, b2 as int;
    var c1, c2 := x0 % 4 * 16 + x1 / 16, x1 % 16 * 4 + x2 / 64;
    assert c1 / 16 == x0 % 4 && c1 % 16 == x1 / 16;
    assert c2 / 4 == x1 % 16 && c2 % 4 == x2 / 64;
  }

  lemma TwoRoundTrip(b0: byte, b1: byte)
    ensures DecodeGroup(EncodeTwo(b0, b1), true) == Some([b0, b1])
  {
    var x0, x1 := b0 as int, b1 as int;
    var c1, c2 := x0 % 4 * 16 + x1 / 16, x1 % 16 * 4;
    assert c1 / 16 == x0 % 4 && c1 % 16 == x1 / 16;
    assert c2 / 4 == x1 % 16 && c2 % 4 == 0;
  }

  lemma OneRoundTrip(b0: byte)
    ensures DecodeGroup(EncodeOne(b0), true) == Some([b0])
  {
    var x0 := b0 as int;
    var c1 := x0 % 4 * 16;
    assert c1 / 16 == x0 % 4 && c1 % 16 == 0;
  }

  /** Decoding a text splits off its first group of four characters. */
  lemma DecodeFirstGroup(s: string, head: seq<byte>, tail: seq<byte>)
    requires |s| >= 4
    requires DecodeGroup(s[..4], |s| == 4) == Some(head)
    requires Decode(s[4..]) == Some(tail)
    ensures Decode(s) == Some(head + tail)
  {
  }

  lemma DecodeEncodeOne(b0: byte)
    ensures Decode(EncodeOne(b0)) == Some([b0])
  {
    var s := EncodeOne(b0);
    assert s[..4] == s && s[4..] == [];
    OneRoundTrip(b0);
    DecodeFirstGroup(s, [b0], []);
    assert [b0] + [] == [b0];
  }

  lemma DecodeEncodeTwo(b0: byte, b1: byte)
    ensures Decode(EncodeTwo(b0, b1)) == Some([b0, b1])
  {
    var s := EncodeTwo(b0, b1);
    assert s[..4] == s && s[4..] == [];
    TwoRoundTrip(b0, b1);
    DecodeFirstGroup(s, [b0, b1], []);
    assert [b0, b1] + [] == [b0, b1];
  }

  lemma EncodeCons(data: seq<byte>)
    requires |data| > 2
    ensures Encode(data) == EncodeGroup(data[0], data[1], data[2]) + Encode(data[3..])
  {
  }

  /** A full group in front of a text that decodes to `data[3..]` decodes to all of `data`. */
  lemma DecodeCons(data: seq<byte>, g: string, rest: string)
    requires |data| > 2
    requires g == EncodeGroup(data[0], data[1], data[2])
    requires Decode(rest) == Some(data[3..])
    ensures Decode(g + rest) == Some(data)
  {
    var s := g + rest;
    assert s[..4] == g && s[4..] == rest;
    GroupRoundTrip(data[0], data[1], data[2], |s| == 4);
    DecodeFirstGroup(s, [data[0], data[1], data[2]], data[3..]);
    assert [data[0], data[1], data[2]] + data[3..] == data;
  }

  /** Decoding undoes encoding: the text carries exactly the bytes it was made from. */
  lemma {:induction false} DecodeEncode(data: seq<byte>)
    ensures Decode(Encode(data)) == Some(data)
    decreases |data|
  {
    if |data| == 1 {
      DecodeEncodeOne(data[0]);
      assert [data[0]] == data;
    } else if |data| == 2 {
      DecodeEncodeTwo(data[0], data[1]);
      assert [data[0], data[1]] == data;
    } else if |data| > 2 {
      DecodeEncode(data[3..]);
      EncodeCons(data);
      DecodeCons(data, EncodeGroup(data[0], data[1], data[2]), Encode(data[3..]));
    }
  }

  lemma ValuesToOne(v0: nat, v1: nat)
    requires v0 < 64 && v1 < 64 && v1 % 16 == 0
    ensures EncodeOne((v0 * 4 + v1 / 16) as byte) == [CharOf(v0), CharOf(v1), Pad, Pad]
  {
    var x0 := v0 * 4 + v1 / 16;
    assert x0 / 4 == v0 && x0 % 4 * 16 == v1;
  }

  lemma ValuesToTwo(v0: nat, v1: nat, v2: nat)
    requires v0 < 64 && v1 < 64 && v2 < 64 && v2 % 4 == 0
    ensures EncodeTwo((v0 * 4 + v1 / 16) as byte, (v1 % 16 * 16 + v2 / 4) as byte)
         == [CharOf(v0), CharOf(v1), CharOf(v2), Pad]
  {
    var x0, x1 := v0 * 4 + v1 / 16, v1 % 16 * 16 + v2 / 4;
    assert x0 / 4 == v0 && x0 % 4 == v1 / 16;
    assert x1 / 16 == v1 % 16 && x1 % 16 * 4 == v2;
    assert x0 % 4 * 16 + x1 / 16 == v1;
  }

  lemma ThreeArithmetic(v0: nat, v1: nat, v2: nat, v3: nat)
    requires v0 < 64 && v1 < 64 && v2 < 64 && v3 < 64
    ensures var x0, x1, x2 := v0 * 4 + v1 / 16, v1 % 16 * 16 + v2 / 4, v2 % 4 * 64 + v3;
      && x0 < 256 && x1 < 256 && x2 < 256
      && x0 / 4 == v0 && x0 % 4 * 16 + x1 / 16 == v1 && x1 % 16 * 4 + x2 / 64 == v2 && x2 % 64 == v3
  {
    var x0, x1, x2 := v0 * 4 + v1 / 16, v1 % 16 * 16 + v2 / 4, v2 % 4 * 64 + v3;
    assert x0 / 4 == v0 && x0 % 4 == v1 / 16;
    assert x1 / 16 == v1 % 16 && x1 % 16 == v2 / 4;
    assert x2 / 64 == v2 % 4 && x2 % 64 == v3;
  }

  lemma ValuesToThree(v0: nat, v1: nat, v2: nat, v3: nat)
    requires v0 < 64 && v1 < 64 && v2 < 64 && v3 < 64
    ensures EncodeGroup((v0 * 4 + v1 / 16) as byte, (v1 % 16 * 16 + v2 / 4) as byte, (v2 % 4 * 64 + v3) as byte)
         == [CharOf(v0), CharOf(v1), CharOf(v2), CharOf(v3)]
  {
    ThreeArithmetic(v0, v1, v2, v3);
  }

  /** Re-encoding the bytes of a group that decodes gives back that group. */
  lemma GroupCanonical(g: string, last: bool)
    requires |g| == 4 && DecodeGroup(g, last).Some?
    ensures var b := DecodeGroup(g, last).value;
      && (|b| == 1 ==> EncodeOne(b[0]) == g)
      && (|b| == 2 ==> EncodeTwo(b[0], b[1]) == g)
      && (|b| == 3 ==> EncodeGroup(b[0], b[1], b[2]) == g)
  {
    var b := DecodeGroup(g, last).value;
    var v0, v1 := ValueOf(g[0]).value, ValueOf(g[1]).value;
    CharOfValueOf(g[0]);
    CharOfValueOf(g[1]);
    if |b| == 1 {
      ValuesToOne(v0, v1);
      assert g == [g[0], g[1], Pad, Pad];
    } else {
      var v2 := ValueOf(g[2]).value;
      CharOfValueOf(g[2]);
      if |b| == 2 {
        ValuesToTwo(v0, v1, v2);
        assert g == [g[0], g[1], g[2], Pad];
      } else {
        var v3 := ValueOf(g[3]).value;
        CharOfValueOf(g[3]);
        ValuesToThree(v0, v1, v2, v3);
        assert g == [g[0], g[1], g[2], g[3]];
      }
    }
  }

  /** A text that decodes, re-encoded from its bytes (final group). */
  lemma EncodeDecodeLast(s: string)
    requires |s| == 4 && Decode(s).Some?
    ensures Encode(Decode(s).value) == s
  {
    assert s[..4] == s && s[4..] == [];
    var b := DecodeGroup(s, true).value;
    assert Decode(s).value == b + [] == b;
    GroupCanonical(s, true);
    if |b| == 3 {
      EncodeCons(b);
      assert b[3..] == [];
    }
  }

  /** A text that decodes, re-encoded from its bytes (a full group in front of more). */
  lemma EncodeDecodeCons(s: string)
    requires |s| > 4 && Decode(s).Some?
    requires Decode(s[4..]).Some? && Encode(Decode(s[4..]).value) == s[4..]
    ensures Encode(Decode(s).value) == s
  {
    var head := DecodeGroup(s[..4], false).value;
    var tail := Decode(s[4..]).value;
    var b := Decode(s).value;
    assert b == head + tail;
    GroupCanonical(s[..4], false);
    EncodeCons(b);
    assert b[..3] == head && b[3..] == tail;
    assert s == s[..4] + s[4..];
  }

  /** Encoding undoes decoding: a text that decodes is the one canonical encoding of its bytes. */
  lemma {:induction false} EncodeDecode(s: string)
    requires Decode(s).Some?
    ensures Encode(Decode(s).value) == s
    decreases |s|
  {
    if |s| == 4 {
      EncodeDecodeLast(s);
    } else if |s| > 4 {
      EncodeDecode(s[4..]);
      EncodeDecodeCons(s);
    }
  }

  /** Encoding is injective: different byte strings never share a base64 text. */
  lemma EncodeInjective(a: seq<byte>, b: seq<byte>)
    requires Encode(a) == Encode(b)
    ensures a == b
  {
    DecodeEncode(a);
    DecodeEncode(b);
  }
}
