/**
 * UTF-8, as Python's `str.encode('utf-8')` and the strict `bytes.decode('utf-8')` use it:
 * every scalar value is written in the shortest of the four forms, and the decoder accepts
 * exactly those forms (no overlong forms, no surrogates, nothing above U+10FFFF).
 */
module Utf8 {
  import opened Wrappers
  import opened Bytes

  /** A continuation byte, 10xxxxxx. */
  predicate IsContinuation(b: byte) {
    0x80 <= b < 0xC0
  }

  /** The bytes of one character. */
  function EncodeChar(c: char): (r: seq<byte>)
    ensures 1 <= |r| <= 4
    ensures r[0] < 0x80 <==> |r| == 1
    ensures forall k :: 1 <= k < |r| ==> IsContinuation(r[k])
  {
    var v := c as int;
    if v < 0x80 then [v]
    else if v < 0x800 then [0xC0 + v / 0x40, 0x80 + v % 0x40]
    else if v < 0x1_0000 then [0xE0 + v / 0x1000, 0x80 + (v / 0x40) % 0x40, 0x80 + v % 0x40]
    else [0xF0 + v / 0x4_0000, 0x80 + (v / 0x1000) % 0x40, 0x80 + (v / 0x40) % 0x40, 0x80 + v % 0x40]
  }

  /** `s.encode('utf-8')`. */
  function Encode(s: string): (r: seq<byte>)
    ensures |r| >= |s|
  {
    if s == [] then [] else EncodeChar(s[0]) + Encode(s[1..])
  }

  /** Decodes the character at the front of `bs`, with the number of bytes it takes. */
  function DecodeChar(bs: seq<byte>): (r: Option<(char, nat)>)
    requires bs != []
    ensures r.Some? ==> 1 <= r.value.1 <= |bs|
  {
    var b0: int := bs[0];
    if b0 < 0x80 then Some((b0 as char, 1))
    else if 0xC2 <= b0 < 0xE0 && |bs| >= 2 && IsContinuation(bs[1]) then
      var v := (b0 - 0xC0) * 0x40 + (bs[1] as int - 0x80);
      Some((v as char, 2))
    else if 0xE0 <= b0 < 0xF0 && |bs| >= 3 && IsContinuation(bs[1]) && IsContinuation(bs[2]) then
      var v := (b0 - 0xE0) * 0x1000 + (bs[1] as int - 0x80) * 0x40 + (bs[2] as int - 0x80);
      if 0x800 <= v < 0xD800 || 0xE000 <= v then Some((v as char, 3)) else None
    else if 0xF0 <= b0 < 0xF5 && |bs| >= 4 && IsContinuation(bs[1]) && IsContinuation(bs[2]) && IsContinuation(bs[3]) then
      var v := (b0 - 0xF0) * 0x4_0000 + (bs[1] as int - 0x80) * 0x1000 + (bs[2] as int - 0x80) * 0x40 + (bs[3] as int - 0x80);
      if 0x1_0000 <= v < 0x11_0000 then Some((v as char, 4)) else None
    else None
  }

  /** `bs.decode('utf-8')`; `None` where Python raises UnicodeDecodeError. */
  function Decode(bs: seq<byte>): (r: Option<string>)
    ensures r.Some? ==> |r.value| <= |bs|
    ensures bs == [] ==> r == Some([])
    decreases |bs|
  {
    if bs == [] then Some([])
    else match DecodeChar(bs)
      case None => None
      case Some((c, n)) =>
        match Decode(bs[n..])
        case None => None
        case Some(rest) => Some([c] + rest)
  }

  /** The decoder reads back exactly the character and the width the encoder wrote. */
  lemma DecodeEncodeChar(c: char, rest: seq<byte>)
    ensures DecodeChar(EncodeChar(c) + rest) == Some((c, |EncodeChar(c)|))
  {
    var v := c as int;
    if v < 0x80 {
    } else if v < 0x800 {
      DecodeTwoBytes(c, rest);
    } else if v < 0x1_0000 {
      DecodeThreeBytes(c, rest);
    } else {
      DecodeFourBytes(c, rest);
    }
  }

  lemma DecodeTwoBytes(c: char, rest: seq<byte>)
    requires 0x80 <= c as int < 0x800
    ensures DecodeChar(EncodeChar(c) + rest) == Some((c, 2))
  {
    var v := c as int;
    var bs := EncodeChar(c) + rest;
    assert bs[0] == 0xC0 + v / 0x40 && bs[1] == 0x80 + v % 0x40;
    assert (bs[0] as int - 0xC0) * 0x40 + (bs[1] as int - 0x80) == v;
  }

  lemma DecodeThreeBytes(c: char, rest: seq<byte>)
    requires 0x800 <= c as int < 0x1_0000
    ensures DecodeChar(EncodeChar(c) + rest) == Some((c, 3))
  {
    var v := c as int;
    var bs := EncodeChar(c) + rest;
    assert bs[0] == 0xE0 + v / 0x1000;
    assert bs[1] == 0x80 + (v / 0x40) % 0x40 && bs[2] == 0x80 + v % 0x40;
    DivMod64(v / 0x40);
    DivMod64(v);
    assert (bs[0] as int - 0xE0) * 0x1000 + (bs[1] as int - 0x80) * 0x40 + (bs[2] as int - 0x80) == v;
  }

  lemma DecodeFourBytes(c: char, rest: seq<byte>)
    requires 0x1_0000 <= c as int
    ensures DecodeChar(EncodeChar(c) + rest) == Some((c, 4))
  {
    var v := c as int;
    var bs := EncodeChar(c) + rest;
    assert bs[0] == 0xF0 + v / 0x4_0000;
    assert bs[1] == 0x80 + (v / 0x1000) % 0x40;
    assert bs[2] == 0x80 + (v / 0x40) % 0x40 && bs[3] == 0x80 + v % 0x40;
    DivMod64(v / 0x1000);
    DivMod64(v / 0x40);
    DivMod64(v);
    assert (bs[0] as int - 0xF0) * 0x4_0000 + (bs[1] as int - 0x80) * 0x1000 + (bs[2] as int - 0x80) * 0x40 + (bs[3] as int - 0x80) == v;
  }

  /** Splitting off six bits: x is (x / 64) * 64 + x % 64, and dividing twice divides by the product. */
  lemma DivMod64(x: nat)
    ensures x == (x / 0x40) * 0x40 + x % 0x40
    ensures x / 0x40 / 0x40 == x / 0x1000
    ensures x / 0x1000 / 0x40 == x / 0x4_0000
  {
  }

  /**
   * The decoder is strict: a character it accepts is re-encoded as exactly the bytes it read,
   * so no overlong form or other alternative spelling gets through.
   */
  lemma EncodeDecodeChar(bs: seq<byte>)
    requires bs != [] && DecodeChar(bs).Some?
    ensures EncodeChar(DecodeChar(bs).value.0) == bs[..DecodeChar(bs).value.1]
  {
    var b0: int := bs[0];
    if b0 < 0x80 {
    } else if 0xC2 <= b0 < 0xE0 && |bs| >= 2 && IsContinuation(bs[1]) {
      EncodeTwoBytes(bs[0], bs[1]);
      assert bs[..2] == [bs[0], bs[1]];
    } else if 0xE0 <= b0 < 0xF0 && |bs| >= 3 && IsContinuation(bs[1]) && IsContinuation(bs[2]) {
      EncodeThreeBytes(bs[0], bs[1], bs[2]);
      assert bs[..3] == [bs[0], bs[1], bs[2]];
    } else {
      EncodeFourBytes(bs[0], bs[1], bs[2], bs[3]);
      assert bs[..4] == [bs[0], bs[1], bs[2], bs[3]];
    }
  }

  lemma EncodeTwoBytes(b0: byte, b1: byte)
    requires 0xC2 <= b0 < 0xE0 && IsContinuation(b1)
    ensures var v := (b0 as int - 0xC0) * 0x40 + (b1 as int - 0x80);
            0x80 <= v < 0x800 && EncodeChar(v as char) == [b0, b1]
  {
    Compose64(b0 as int - 0xC0, b1 as int - 0x80);
  }

  lemma EncodeThreeBytes(b0: byte, b1: byte, b2: byte)
    requires 0xE0 <= b0 < 0xF0 && IsContinuation(b1) && IsContinuation(b2)
    ensures var v := (b0 as int - 0xE0) * 0x1000 + (b1 as int - 0x80) * 0x40 + (b2 as int - 0x80);
            (0x800 <= v < 0xD800 || 0xE000 <= v < 0x1_0000) ==> EncodeChar(v as char) == [b0, b1, b2]
  {
    var hi := (b0 as int - 0xE0) * 0x40 + (b1 as int - 0x80);
    var v := hi * 0x40 + (b2 as int - 0x80);
    Compose64(b0 as int - 0xE0, b1 as int - 0x80);
    Compose64(hi, b2 as int - 0x80);
    DivMod64(v);
  }

  lemma EncodeFourBytes(b0: byte, b1: byte, b2: byte, b3: byte)
    requires 0xF0 <= b0 < 0xF5 && IsContinuation(b1) && IsContinuation(b2) && IsContinuation(b3)
    ensures var v := (b0 as int - 0xF0) * 0x4_0000 + (b1 as int - 0x80) * 0x1000 + (b2 as int - 0x80) * 0x40 + (b3 as int - 0x80);
            0x1_0000 <= v < 0x11_0000 ==> EncodeChar(v as char) == [b0, b1, b2, b3]
  {
    var hi := (b0 as int - 0xF0) * 0x40 + (b1 as int - 0x80);
    var mid := hi * 0x40 + (b2 as int - 0x80);
    var v := mid * 0x40 + (b3 as int - 0x80);
    Compose64(b0 as int - 0xF0, b1 as int - 0x80);
    Compose64(hi, b2 as int - 0x80);
    Compose64(mid, b3 as int - 0x80);
    DivMod64(v);
    DivMod64(v / 0x40);
  }

  /** Six more low bits: (hi * 64 + lo) splits back into hi and lo. */
  lemma Compose64(hi: nat, lo: nat)
    requires lo < 0x40
    ensures (hi * 0x40 + lo) / 0x40 == hi && (hi * 0x40 + lo) % 0x40 == lo
  {
  }

  /**
   * A successful decode of non-empty bytes is a first character, spelled by the encoder exactly
   * as the bytes it took, followed by the decode of the remaining bytes.
   */
  lemma DecodeStep(bs: seq<byte>) returns (c: char, n: nat, rest: string)
    requires bs != [] && Decode(bs).Some?
    ensures 1 <= n <= |bs| && EncodeChar(c) == bs[..n]
    ensures Decode(bs[n..]) == Some(rest) && Decode(bs) == Some([c] + rest)
  {
    c, n := DecodeChar(bs).value.0, DecodeChar(bs).value.1;
    rest := Decode(bs[n..]).value;
    EncodeDecodeChar(bs);
  }

  /** The encoding of a text is the encoding of its first character, then that of the rest. */
  lemma EncodeCons(c: char, rest: string)
    ensures Encode([c] + rest) == EncodeChar(c) + Encode(rest)
  {
    assert ([c] + rest)[1..] == rest;
  }

  /** Encoding what was decoded gives the bytes back: the decoder accepts each text in one spelling only. */
  lemma {:induction false} EncodeDecode(bs: seq<byte>)
    requires Decode(bs).Some?
    ensures Encode(Decode(bs).value) == bs
    decreases |bs|
  {
    if bs != [] {
      var c, n, rest := DecodeStep(bs);
      EncodeDecode(bs[n..]);
      EncodeCons(c, rest);
      assert bs[..n] + bs[n..] == bs;
    }
  }

  /** Decoding what was encoded gives the text back: a text message survives the wire unchanged. */
  lemma {:induction false} DecodeEncode(s: string)
    ensures Decode(Encode(s)) == Some(s)
  {
    if s != [] {
      var head := EncodeChar(s[0]);
      var tail := Encode(s[1..]);
      DecodeEncodeChar(s[0], tail);
      assert (head + tail)[|head|..] == tail;
      DecodeEncode(s[1..]);
      assert Encode(s) == head + tail;
      assert Decode(head + tail) == Some([s[0]] + s[1..]);
      assert [s[0]] + s[1..] == s;
    }
  }
}
