/**
 * The binary frames of the chat session: every frame starts with a category byte
 * (0x00 session control, 0x01 text message); control frames carry a subtype byte.
 */
module Frames {
  import opened Wrappers
  import opened Bytes

  /** What the server sends first on a new connection. */
  const CHALLENGE: seq<byte> := [0x00, 0x00, 0x2A]
  /** The client's answer to an accepted challenge. */
  const HANDSHAKE_ACK: seq<byte> := [0x00, 0x01]
  /** The server's acknowledgement of a chat switch. */
  const SWITCH_ACK: seq<byte> := [0x00, 0x05]
  /** The subtype of the asynchronous "ready" notice in the receive loop. */
  const READY: byte := 0x05
  /** The largest payload a message frame can announce. */
  const MAX_PAYLOAD: nat := 0xFFFF

  /** Every character of the token fits in one byte (`bytes([ord(c)])` raises otherwise). */
  predicate IsLatin1(token: string) {
    forall i :: 0 <= i < |token| ==> token[i] as int < 256
  }

  /** One byte per character. */
  function Ordinals(token: string): (r: seq<byte>)
    requires IsLatin1(token)
    ensures |r| == |token|
    ensures forall i :: 0 <= i < |token| ==> r[i] == token[i] as int
  {
    if token == [] then [] else [token[0] as int] + Ordinals(token[1..])
  }

  /** Identify: 00 02 04 and the identity as 4 big-endian bytes. */
  function IdentifyFrame(id: int): (r: seq<byte>)
    requires 0 <= id < TWO_POW_32
    ensures |r| == 7 && r[0] == 0x00 && r[1] == 0x02 && r[2] == 0x04
  {
    [0x00, 0x02, 0x04] + BigEndian32(id)
  }

  /** Authenticate: 00 03, the low 16 bits of the token length, then the token's bytes. */
  function AuthenticateFrame(token: string): (r: seq<byte>)
    requires IsLatin1(token)
    ensures |r| == 4 + |token| && r[0] == 0x00 && r[1] == 0x03
  {
    [0x00, 0x03] + LowBits16(|token|) + Ordinals(token)
  }

  /** Switch chat: 00 04 04 and the peer's identity as 4 big-endian bytes. */
  function SwitchFrame(id: int): (r: seq<byte>)
    requires 0 <= id < TWO_POW_32
    ensures |r| == 7 && r[0] == 0x00 && r[1] == 0x04 && r[2] == 0x04
  {
    [0x00, 0x04, 0x04] + BigEndian32(id)
  }

  /** The part of an encoded text that fits in one frame. */
  function Truncate(buffer: seq<byte>): (r: seq<byte>)
    ensures |r| == if |buffer| <= MAX_PAYLOAD then |buffer| else MAX_PAYLOAD
    ensures r <= buffer
  {
    if |buffer| <= MAX_PAYLOAD then buffer else buffer[..MAX_PAYLOAD]
  }

  /** Message: 01, the 2-byte big-endian length, then at most 0xFFFF payload bytes. */
  function MessageFrame(buffer: seq<byte>): (r: seq<byte>)
    ensures 3 <= |r| <= 3 + MAX_PAYLOAD && r[0] == 0x01
  {
    [0x01] + LowBits16(|Truncate(buffer)|) + Truncate(buffer)
  }

  /**
   * The handshake check on the (up to) three bytes read: `Some(true)` for the challenge,
   * `Some(false)` on a mismatch, `None` where indexing a short read raises IndexError.
   * The comparisons short-circuit left to right, so a short read that already mismatches is a plain `false`.
   */
  function ChallengeVerdict(got: seq<byte>): (r: Option<bool>)
    ensures r == Some(true) <==> got == CHALLENGE
    ensures |got| >= 3 ==> r.Some?
    ensures |got| < 3 ==> (r.None? <==> got == CHALLENGE[..|got|])
  {
    if |got| < 1 then None
    else if got[0] != 0x00 then Some(false)
    else if |got| < 2 then None
    else if got[1] != 0x00 then Some(false)
    else if |got| < 3 then None
    else Some(got[2] == 0x2A && |got| == 3)
  }

  /** The check on the two bytes answering a chat switch; `None` where a short read raises IndexError. */
  function SwitchVerdict(got: seq<byte>): (r: Option<bool>)
    ensures r == Some(true) <==> got == SWITCH_ACK
    ensures |got| >= 2 ==> r.Some?
    ensures |got| < 2 ==> (r.None? <==> got == SWITCH_ACK[..|got|])
  {
    if |got| < 1 then None
    else if got[0] != 0x00 then Some(false)
    else if |got| < 2 then None
    else Some(got[1] == 0x05 && |got| == 2)
  }

  /** What one pass of the receive loop takes off the stream. */
  datatype Inbound =
    | Closed                    // an empty read: the server closed the connection
    | Notice(subtype: byte)     // category 0x00 and its subtype byte
    | Text(payload: seq<byte>)  // category 0x01, length-prefixed payload
    | Unknown(category: byte)   // any other category: nothing more is read

  /**
   * Decodes the front of the unread input the way the receive loop reads it, with the number
   * of bytes consumed; `None` where a missing byte makes the loop raise IndexError.
   * A payload shorter than announced is what `recv(length)` returns at the end of the stream.
   */
  function ReadFrame(input: seq<byte>): (r: Option<(Inbound, nat)>)
    ensures r.Some? ==> r.value.1 <= |input|
    ensures r.Some? && r.value.0.Closed? <==> input == []
  {
    if input == [] then Some((Closed, 0))
    else if input[0] == 0x00 then
      if |input| < 2 then None else Some((Notice(input[1]), 2))
    else if input[0] == 0x01 then
      if |input| < 3 then None
      else
        var length := input[1] as int * 0x100 + input[2] as int;
        var end := if 3 + length <= |input| then 3 + length else |input|;
        Some((Text(input[3..end]), end))
    else Some((Unknown(input[0]), 1))
  }

  /**
   * Round trip: the receive loop reads a message frame back as exactly the truncated payload,
   * consuming the frame and nothing after it.
   */
  lemma MessageRoundTrip(buffer: seq<byte>, rest: seq<byte>)
    ensures ReadFrame(MessageFrame(buffer) + rest) == Some((Text(Truncate(buffer)), 3 + |Truncate(buffer)|))
  {
    var p := Truncate(buffer);
    var input := MessageFrame(buffer) + rest;
    LowBits16RoundTrip(|p|);
    var h := LowBits16(|p|);
    assert h[..1] == [h[0]];
    assert input[1] as int * 0x100 + input[2] as int == |p|;
    assert input[3..3 + |p|] == p;
  }

  /** The length bytes announce the payload exactly, and at most 0xFFFF bytes are sent. */
  lemma MessageFrameShape(buffer: seq<byte>)
    ensures |MessageFrame(buffer)| == 3 + |Truncate(buffer)| <= 3 + MAX_PAYLOAD
    ensures MessageFrame(buffer)[0] == 0x01
    ensures FromBigEndian(MessageFrame(buffer)[1..3]) == |Truncate(buffer)|
    ensures MessageFrame(buffer)[3..] == Truncate(buffer)
    ensures |buffer| > MAX_PAYLOAD ==> MessageFrame(buffer)[3..] == buffer[..MAX_PAYLOAD]
  {
    LowBits16RoundTrip(|Truncate(buffer)|);
    assert MessageFrame(buffer)[1..3] == LowBits16(|Truncate(buffer)|);
  }

  /** The identity is read back from the last four bytes of the identify frame. */
  lemma IdentifyFrameShape(id: int)
    requires 0 <= id < TWO_POW_32
    ensures |IdentifyFrame(id)| == 7 && IdentifyFrame(id)[..3] == [0x00, 0x02, 0x04]
    ensures FromBigEndian(IdentifyFrame(id)[3..]) == id
  {
    assert IdentifyFrame(id)[3..] == BigEndian32(id);
    BigEndian32RoundTrip(id);
  }

  /** The peer is read back from the last four bytes of the switch frame. */
  lemma SwitchFrameShape(id: int)
    requires 0 <= id < TWO_POW_32
    ensures |SwitchFrame(id)| == 7 && SwitchFrame(id)[..3] == [0x00, 0x04, 0x04]
    ensures FromBigEndian(SwitchFrame(id)[3..]) == id
  {
    assert SwitchFrame(id)[3..] == BigEndian32(id);
    BigEndian32RoundTrip(id);
  }

  /**
   * The authenticate frame carries the token byte for byte; its length field equals the token
   * length exactly when the token is shorter than 2^16 characters (longer lengths wrap).
   */
  lemma AuthenticateFrameShape(token: string)
    requires IsLatin1(token)
    ensures |AuthenticateFrame(token)| == 4 + |token|
    ensures AuthenticateFrame(token)[..2] == [0x00, 0x03]
    ensures forall i :: 0 <= i < |token| ==> AuthenticateFrame(token)[4 + i] == token[i] as int
    ensures FromBigEndian(AuthenticateFrame(token)[2..4]) == |token| % TWO_POW_16
    ensures FromBigEndian(AuthenticateFrame(token)[2..4]) == |token| <==> |token| < TWO_POW_16
  {
    LowBits16RoundTrip(|token|);
    assert AuthenticateFrame(token)[2..4] == LowBits16(|token|);
  }

  /** Identity 1025 and token "abcXYZ": 00 02 04 00 00 04 01, then 00 03 00 06 61 62 63 58 59 5A. */
  lemma SessionOpeningExample()
    ensures IdentifyFrame(1025) == [0x00, 0x02, 0x04, 0x00, 0x00, 0x04, 0x01]
    ensures AuthenticateFrame("abcXYZ") == [0x00, 0x03, 0x00, 0x06, 0x61, 0x62, 0x63, 0x58, 0x59, 0x5A]
  {
    var o := Ordinals("abcXYZ");
    assert o == [0x61, 0x62, 0x63, 0x58, 0x59, 0x5A];
  }

  /** User 7: 00 04 04 00 00 00 07. */
  lemma SwitchExample()
    ensures SwitchFrame(7) == [0x00, 0x04, 0x04, 0x00, 0x00, 0x00, 0x07]
  {
  }

  /**
   * `bytes([0x01, (length >> 8) & 0xFF, length & 0xFF])` followed by the payload appended
   * one byte at a time, where length = min(len(buffer), 0xFFFF).
   */
  method BuildMessageFrame(buffer: seq<byte>) returns (request: seq<byte>)
    ensures request == MessageFrame(buffer)
  {
    var length := if |buffer| < MAX_PAYLOAD then |buffer| else MAX_PAYLOAD;
    request := [0x01] + [(length / 0x100) % 0x100, length % 0x100];
    for i := 0 to length
      invariant request == [0x01] + LowBits16(length) + buffer[..i]
    {
      request := request + [buffer[i]];
    }
  }

  /**
   * `bytes([0x00, 0x03])`, the two length bytes, then `bytes([ord(c)])` per character;
   * `None` where a character above 0xFF makes `bytes` raise ValueError.
   */
  method BuildAuthenticateFrame(token: string) returns (request: Option<seq<byte>>)
    ensures request.Some? <==> IsLatin1(token)
    ensures request.Some? ==> request.value == AuthenticateFrame(token)
  {
    var r: seq<byte> := [0x00, 0x03] + [(|token| / 0x100) % 0x100, |token| % 0x100];
    for i := 0 to |token|
      invariant IsLatin1(token[..i])
      invariant r == [0x00, 0x03] + LowBits16(|token|) + Ordinals(token[..i])
    {
      if token[i] as int >= 256 {
        return None;
      }
      OrdinalsSnoc(token[..i], token[i]);
      assert token[..i + 1] == token[..i] + [token[i]];
      r := r + [token[i] as int];
    }
    assert token[..|token|] == token;
    request := Some(r);
  }

  lemma {:induction false} OrdinalsSnoc(s: string, c: char)
    requires IsLatin1(s) && c as int < 256
    ensures IsLatin1(s + [c])
    ensures Ordinals(s + [c]) == Ordinals(s) + [c as int]
  {
    if s != [] {
      assert (s + [c])[1..] == s[1..] + [c];
      OrdinalsSnoc(s[1..], c);
    }
  }
}
