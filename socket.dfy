/**
 * A stream socket as the client sees it: the bytes the server will send on this connection,
 * how many of them have been read, and everything written so far.
 */
module Transport {
  import opened Wrappers
  import opened Bytes

  class Socket {
    /** Everything the server sends on this connection, in order. */
    const inbound: seq<byte>
    /** How many inbound bytes have been read. */
    var cursor: nat
    /** Everything the client has written, in order. */
    var outbound: seq<byte>
    /** False once `close()` was called. */
    var open: bool

    ghost predicate Valid()
      reads this
    {
      cursor <= |inbound|
    }

    /** The bytes not read yet. */
    function Unread(): (r: seq<byte>)
      reads this
      requires Valid()
    {
      inbound[cursor..]
    }

    /** What `recv(n)` returns: up to n of the unread bytes, none at the end of the stream. */
    function Pending(n: nat): (r: seq<byte>)
      reads this
      requires Valid()
      ensures |r| == if n <= |Unread()| then n else |Unread()|
      ensures r == Unread()[..|r|]
    {
      if cursor + n <= |inbound| then inbound[cursor..cursor + n] else inbound[cursor..]
    }

    /** A freshly opened connection on which the server will send `inbound`. */
    constructor (inbound: seq<byte>)
      ensures Valid()
      ensures this.inbound == inbound && cursor == 0 && outbound == [] && open
    {
      this.inbound := inbound;
      cursor := 0;
      outbound := [];
      open := true;
    }

    /** `recv(n)`; `None` where Python raises OSError on a closed socket. */
    method Recv(n: nat) returns (r: Option<seq<byte>>)
      requires Valid()
      modifies this`cursor
      ensures Valid()
      ensures open ==> r == Some(old(Pending(n))) && cursor == old(cursor) + |old(Pending(n))|
      ensures !open ==> r == None && cursor == old(cursor)
    {
      if !open {
        return None;
      }
      var got := Pending(n);
      cursor := cursor + |got|;
      r := Some(got);
    }

    /** `send(data)`, writing all of it; `false` where Python raises OSError on a closed socket. */
    method Send(data: seq<byte>) returns (ok: bool)
      modifies this`outbound
      ensures ok == open
      ensures outbound == if open then old(outbound) + data else old(outbound)
    {
      ok := open;
      if open {
        outbound := outbound + data;
      }
    }

    /** `close()`. */
    method Close()
      modifies this`open
      ensures !open
    {
      open := false;
    }
  }
}
