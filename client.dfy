/**
 * The chat session client: logging in over HTTP, opening the stream with the handshake,
 * identify and authenticate frames, switching chats, sending messages, one pass of the
 * receive loop, and the contact directory.
 */
module Session {
  import opened Wrappers
  import opened Bytes
  import opened Frames
  import Utf8
  import opened Users
  import opened Contacts
  import opened Transport

  /** The reply to `POST /token`: the status code and the JSON `access_token`, if present. */
  datatype TokenReply = TokenReply(status: int, accessToken: Option<string>)

  /** The reply to `GET /api/user/me/`: the status code and the JSON `id`, if present. */
  datatype MeReply = MeReply(status: int, id: Option<int>)

  /** The reply to `GET /api/users`: the status code and the JSON array. */
  datatype UsersReply = UsersReply(status: int, entries: seq<Entry>)

  /** The Python exceptions the session methods can raise. */
  datatype Fault =
    | ShortRead            // IndexError: a read returned fewer bytes than the code indexes
    | NoIdentity           // AttributeError: `self.ID` is None
    | IdentityOutOfRange   // OverflowError: an ID outside 0 .. 2^32 - 1 given to `to_bytes(4, 'big')`
    | NoToken              // TypeError: `len(None)` for a missing token
    | TokenNotLatin1       // ValueError: `bytes([ord(c)])` with ord(c) > 255
    | InvalidUtf8          // UnicodeDecodeError on a received payload
    | NoSocket             // AttributeError: `self._socket` is None
    | SocketClosed         // OSError: reading or writing a closed socket
    | NoCurrentChat        // AttributeError: `self._current_chat` is None in a log line
    | NoContactList        // AttributeError: `self.contact_list` is None

  /** How a call ended: normally, or with an exception propagating to the caller. */
  datatype Outcome = Returned | Raised(fault: Fault)

  /** `get_token`'s result: the token of a 200 reply that carries one. */
  function TokenOf(reply: TokenReply): (r: Option<string>)
    ensures r.Some? <==> reply.status == 200 && reply.accessToken.Some?
    ensures r.Some? ==> r == reply.accessToken
  {
    if reply.status != 200 || reply.accessToken.None? then None else reply.accessToken
  }

  /** The identity of a 200 reply that carries one. */
  function IdentityOf(reply: MeReply): (r: Option<int>)
    ensures r.Some? <==> reply.status == 200 && reply.id.Some?
    ensures r.Some? ==> r == reply.id
  {
    if reply.status != 200 || reply.id.None? then None else reply.id
  }

  /** `login` succeeds when a token is obtained and the identity request then answers. */
  predicate LoginSucceeds(tokenReply: TokenReply, meReply: MeReply) {
    TokenOf(tokenReply).Some? && IdentityOf(meReply).Some?
  }

  /**
   * What `connect` does on the new socket, given the bytes the handshake read: how it ends, the
   * bytes it writes, and whether the session is then connected. A rejected challenge writes
   * nothing; an accepted one is acknowledged, then the identify and authenticate frames follow,
   * each built before it is sent, so a bad ID or token stops the sequence at that frame.
   */
  function Opening(challenge: seq<byte>, id: Option<int>, token: Option<string>): (r: (Outcome, seq<byte>, bool))
    ensures r.2 ==> r.0 == Returned
  {
    match ChallengeVerdict(challenge)
    case None => (Raised(ShortRead), [], false)
    case Some(false) => (Returned, [], false)
    case Some(true) =>
      var (o, written, ready) := Introduction(id, token);
      (o, HANDSHAKE_ACK + written, ready)
  }

  /**
   * The part of `connect` after an accepted challenge: the identify frame, then the authenticate
   * frame, each built before it is sent; the session is ready exactly when nothing raised.
   */
  function Introduction(id: Option<int>, token: Option<string>): (r: (Outcome, seq<byte>, bool))
    ensures r.2 <==> r.0 == Returned
  {
    if id.None? then (Raised(NoIdentity), [], false)
    else if !(0 <= id.value < TWO_POW_32) then (Raised(IdentityOutOfRange), [], false)
    else if token.None? then (Raised(NoToken), IdentifyFrame(id.value), false)
    else if !IsLatin1(token.value) then (Raised(TokenNotLatin1), IdentifyFrame(id.value), false)
    else (Returned, IdentifyFrame(id.value) + AuthenticateFrame(token.value), true)
  }

  /** The session becomes connected exactly when the challenge matches and a valid ID and token are at hand. */
  lemma OpeningReadyIff(challenge: seq<byte>, id: Option<int>, token: Option<string>)
    ensures Opening(challenge, id, token).2 <==>
              && challenge == CHALLENGE
              && id.Some? && 0 <= id.value < TWO_POW_32
              && token.Some? && IsLatin1(token.value)
  {
  }

  /**
   * Any challenge other than 00 00 2A writes nothing and leaves the session disconnected; the
   * acknowledgement 00 01 is written only for the challenge, and a connected session has written
   * exactly the acknowledgement, the identify frame and the authenticate frame.
   */
  lemma OpeningWrites(challenge: seq<byte>, id: Option<int>, token: Option<string>)
    ensures challenge != CHALLENGE ==> Opening(challenge, id, token).1 == [] && !Opening(challenge, id, token).2
    ensures challenge == CHALLENGE ==> Opening(challenge, id, token).1[..2] == HANDSHAKE_ACK
    ensures Opening(challenge, id, token).2 ==>
              Opening(challenge, id, token).1 == HANDSHAKE_ACK + IdentifyFrame(id.value) + AuthenticateFrame(token.value)
  {
    if challenge == CHALLENGE {
      var w := Opening(challenge, id, token).1;
      assert w[..2] == HANDSHAKE_ACK;
    }
  }

  /** Identity 1025 and token "abcXYZ" after the challenge: 00 01, 00 02 04 00 00 04 01, 00 03 00 06 61 62 63 58 59 5A. */
  lemma OpeningExample()
    ensures Opening(CHALLENGE, Some(1025), Some("abcXYZ")) ==
              (Returned, [0x00, 0x01,
                          0x00, 0x02, 0x04, 0x00, 0x00, 0x04, 0x01,
                          0x00, 0x03, 0x00, 0x06, 0x61, 0x62, 0x63, 0x58, 0x59, 0x5A], true)
  {
    SessionOpeningExample();
    assert ChallengeVerdict(CHALLENGE) == Some(true);
    assert IsLatin1("abcXYZ");
    var identify: seq<byte> := [0x00, 0x02, 0x04, 0x00, 0x00, 0x04, 0x01];
    var authenticate: seq<byte> := [0x00, 0x03, 0x00, 0x06, 0x61, 0x62, 0x63, 0x58, 0x59, 0x5A];
    assert Introduction(Some(1025), Some("abcXYZ")) == (Returned, identify + authenticate, true);
    assert HANDSHAKE_ACK + (identify + authenticate) ==
             [0x00, 0x01,
              0x00, 0x02, 0x04, 0x00, 0x00, 0x04, 0x01,
              0x00, 0x03, 0x00, 0x06, 0x61, 0x62, 0x63, 0x58, 0x59, 0x5A];
  }

  /**
   * Up to `n` bytes of `s` starting at `at`: what a read of `n` returns there. This is
   * `Socket.Pending` for a position the socket has not reached yet, which a postcondition needs
   * when it speaks of a read made after an earlier read in the same call.
   */
  function Window(s: seq<byte>, at: nat, n: nat): (r: seq<byte>)
    requires at <= |s|
    ensures |r| <= n && at + |r| <= |s| && r == s[at..at + |r|]
  {
    if at + n <= |s| then s[at..at + n] else s[at..]
  }

  /** A read of `n` from a socket returns the window of `n` bytes at its cursor. */
  lemma PendingIsWindow(s: Socket, n: nat)
    requires s.Valid()
    ensures s.Pending(n) == Window(s.inbound, s.cursor, n)
  {
  }

  /**
   * What `switch_chat` does once connecting is behind it, given whether a socket is held,
   * whether it is open, and the bytes the acknowledgement read returns: how it ends, the bytes
   * written, and whether the chat is switched. The switch frame is built before anything is
   * sent, so an ID outside 32 bits raises first.
   */
  function Switching(userId: int, hasSocket: bool, open: bool, ack: seq<byte>): (r: (Outcome, seq<byte>, bool))
    ensures r.2 ==> r.0 == Returned
  {
    if !(0 <= userId < TWO_POW_32) then (Raised(IdentityOutOfRange), [], false)
    else if !hasSocket then (Raised(NoSocket), [], false)
    else if !open then (Raised(SocketClosed), [], false)
    else match SwitchVerdict(ack)
      case None => (Raised(ShortRead), SwitchFrame(userId), false)
      case Some(false) => (Returned, SwitchFrame(userId), false)
      case Some(true) => (Returned, SwitchFrame(userId), true)
  }

  /**
   * The chat is switched exactly when the ID fits in 32 bits, the socket is open and the server
   * answers 00 05; whatever the answer, an open socket receives the switch frame and nothing else.
   */
  lemma SwitchingIff(userId: int, hasSocket: bool, open: bool, ack: seq<byte>)
    ensures Switching(userId, hasSocket, open, ack).2 <==>
              0 <= userId < TWO_POW_32 && hasSocket && open && ack == SWITCH_ACK
    ensures Switching(userId, hasSocket, open, ack).1 ==
              if 0 <= userId < TWO_POW_32 && hasSocket && open then SwitchFrame(userId) else []
    ensures |ack| < 2 && 0 <= userId < TWO_POW_32 && hasSocket && open ==>
              Switching(userId, hasSocket, open, ack).0 == (if ack == [] || ack[0] == 0 then Raised(ShortRead) else Returned)
  {
  }

  /** "hi" is sent as 01 00 02 68 69. */
  lemma SendHiExample()
    ensures MessageFrame(Utf8.Encode("hi")) == [0x01, 0x00, 0x02, 0x68, 0x69]
  {
    assert Utf8.Encode("hi") == [0x68, 0x69];
    assert Truncate([0x68, 0x69]) == [0x68, 0x69];
    assert LowBits16(2) == [0x00, 0x02];
  }

  /**
   * What `send_message` writes, the receive loop of the other side reads back as the same
   * text when its encoding fits in one frame, consuming exactly the frame.
   */
  lemma TextRoundTrip(text: string, rest: seq<byte>)
    requires |Utf8.Encode(text)| <= MAX_PAYLOAD
    ensures ReadFrame(MessageFrame(Utf8.Encode(text)) + rest) ==
              Some((Text(Utf8.Encode(text)), 3 + |Utf8.Encode(text)|))
    ensures Utf8.Decode(Utf8.Encode(text)) == Some(text)
  {
    var buffer := Utf8.Encode(text);
    assert Truncate(buffer) == buffer;
    MessageRoundTrip(buffer, rest);
    Utf8.DecodeEncode(text);
  }

  class Client {
    const server: string
    const port: int
    var username: Option<string>
    var identifier: Option<string>
    var password: Option<string>
    var token: Option<string>
    var id: Option<int>
    var contactList: Option<Directory>
    var socket: Socket?
    var connected: bool
    var loggedIn: bool
    var currentChat: Option<User>

    /**
     * A connected client holds an open socket; a socket left open while disconnected is one
     * whose stream has ended.
     */
    ghost predicate Valid()
      reads this, socket
    {
      && (socket != null ==> socket.Valid())
      && (connected ==> socket != null && socket.open)
      && (!connected && socket != null && socket.open ==> socket.cursor == |socket.inbound|)
    }

    /** `Client(server, port)`: everything else starts as None or False. */
    constructor (server: string, port: int)
      ensures Valid()
      ensures this.server == server && this.port == port
      ensures username.None? && identifier.None? && password.None? && token.None? && id.None?
      ensures contactList.None? && socket == null && !connected && !loggedIn && currentChat.None?
    {
      this.server := server;
      this.port := port;
      username, identifier, password := None, None, None;
      token, id, contactList := None, None, None;
      socket := null;
      connected, loggedIn := false, false;
      currentChat := None;
    }

    /** `get_token`: stores and returns the token of a successful reply; the token is kept otherwise. */
    method GetToken(reply: TokenReply) returns (t: Option<string>)
      modifies this`token
      ensures t == TokenOf(reply)
      ensures token == if t.Some? then t else old(token)
    {
      if reply.status != 200 || reply.accessToken.None? {
        return None;
      }
      token := reply.accessToken;
      t := token;
    }

    /**
     * `login`: records the credentials and the token request's result (None on failure); only
     * when the identity request also succeeds are the ID and the logged-in flag set.
     */
    method Login(username: Option<string>, identifier: Option<string>, password: Option<string>,
                 tokenReply: TokenReply, meReply: MeReply) returns (ok: bool)
      modifies this`username, this`identifier, this`password, this`token, this`id, this`loggedIn
      ensures this.username == username && this.identifier == identifier && this.password == password
      ensures token == TokenOf(tokenReply)
      ensures ok <==> LoginSucceeds(tokenReply, meReply)
      ensures id == if ok then IdentityOf(meReply) else old(id)
      ensures loggedIn == (old(loggedIn) || ok)
    {
      this.username, this.identifier, this.password := username, identifier, password;
      var t := GetToken(tokenReply);
      token := t;
      if token.None? {
        return false;
      }
      if meReply.status != 200 || meReply.id.None? {
        return false;
      }
      id := meReply.id;
      loggedIn := true;
      ok := true;
    }

    /**
     * The effect of `connect` on a client that was not connected, with `conn` the socket it opens:
     * a login first unless already logged in, then the handshake's three bytes are read and
     * `Opening` decides the outcome, the bytes written and whether the client is connected;
     * only a connected client adopts the new socket.
     */
    twostate predicate Reopened(tokenReply: TokenReply, meReply: MeReply, conn: Socket, outcome: Outcome)
      requires old(conn.Valid())
      reads this, conn
    {
      && LoginStep(tokenReply, meReply) && currentChat == old(currentChat)
      && conn.open == old(conn.open)
      && conn.cursor == old(conn.cursor) + |old(conn.Pending(3))|
      && var (o, written, ready) := Opening(old(conn.Pending(3)), id, token);
         && outcome == o
         && connected == ready
         && conn.outbound == old(conn.outbound) + written
         && socket == (if ready then conn else old(socket))
    }

    /**
     * The login part of `connect`: a client not yet logged in logs in with its stored
     * credentials, which stay as they were; a logged-in client keeps its token and ID.
     */
    twostate predicate LoginStep(tokenReply: TokenReply, meReply: MeReply)
      reads this
    {
      && username == old(username) && identifier == old(identifier) && password == old(password)
      && contactList == old(contactList)
      && token == (if old(loggedIn) then old(token) else TokenOf(tokenReply))
      && loggedIn == (old(loggedIn) || LoginSucceeds(tokenReply, meReply))
      && id == (if !old(loggedIn) && LoginSucceeds(tokenReply, meReply) then IdentityOf(meReply) else old(id))
    }

    /**
     * `_handshake`: reads three bytes and answers 00 01 only when they are the challenge
     * 00 00 2A; `None` where indexing a short read raises IndexError.
     */
    static method Handshake(s: Socket) returns (accepted: Option<bool>)
      requires s.Valid() && s.open
      modifies s`cursor, s`outbound
      ensures s.Valid()
      ensures s.cursor == old(s.cursor) + |old(s.Pending(3))|
      ensures accepted == Some(true) <==> old(s.Pending(3)) == CHALLENGE
      ensures accepted == ChallengeVerdict(old(s.Pending(3)))
      ensures s.outbound == old(s.outbound) + (if accepted == Some(true) then HANDSHAKE_ACK else [])
    {
      var got := s.Recv(3);
      var response := got.value;
      accepted := ChallengeVerdict(response);
      if accepted == Some(true) {
        var _ := s.Send(HANDSHAKE_ACK);
      }
    }

    /**
     * `_handshake` followed by the identify and authenticate frames of `connect`, on the newly
     * opened `conn`: what it reads, writes and decides is `Opening` of the three bytes read.
     */
    static method OpenStream(conn: Socket, id: Option<int>, token: Option<string>) returns (outcome: Outcome, ready: bool)
      requires conn.Valid() && conn.open
      modifies conn`cursor, conn`outbound
      ensures conn.Valid()
      ensures conn.cursor == old(conn.cursor) + |old(conn.Pending(3))|
      ensures var (o, written, r) := Opening(old(conn.Pending(3)), id, token);
                outcome == o && ready == r && conn.outbound == old(conn.outbound) + written
    {
      ghost var challenge := conn.Pending(3);
      var accepted := Handshake(conn);
      if accepted.None? {
        return Raised(ShortRead), false;
      }
      if !accepted.value {
        return Returned, false;
      }
      assert ChallengeVerdict(challenge) == Some(true);
      outcome, ready := Introduce(conn, id, token);
    }

    /** The identify and authenticate frames of `connect`, sent on `conn` as `Introduction` says. */
    static method Introduce(conn: Socket, id: Option<int>, token: Option<string>) returns (outcome: Outcome, ready: bool)
      requires conn.open
      modifies conn`outbound
      ensures var (o, written, r) := Introduction(id, token);
                outcome == o && ready == r && conn.outbound == old(conn.outbound) + written
    {
      if id.None? {
        return Raised(NoIdentity), false;
      }
      if !(0 <= id.value < TWO_POW_32) {
        return Raised(IdentityOutOfRange), false;
      }
      var identify := IdentifyFrame(id.value);
      var _ := conn.Send(identify);
      assert conn.outbound == old(conn.outbound) + identify;
      if token.None? {
        return Raised(NoToken), false;
      }
      var auth := BuildAuthenticateFrame(token.value);
      if auth.None? {
        return Raised(TokenNotLatin1), false;
      }
      var _ := conn.Send(auth.value);
      assert conn.outbound == old(conn.outbound) + (identify + auth.value);
      return Returned, true;
    }

    /** `connect`: nothing when connected; otherwise as `Reopened` describes. */
    method Connect(tokenReply: TokenReply, meReply: MeReply, conn: Socket) returns (outcome: Outcome)
      requires Valid() && conn.Valid() && conn.open && conn != socket
      modifies this, conn
      ensures Valid()
      ensures old(connected) ==> outcome == Returned && unchanged(this) && unchanged(conn)
      ensures !old(connected) ==> Reopened(tokenReply, meReply, conn, outcome)
    {
      if connected {
        return Returned;
      }
      if !loggedIn {
        var _ := Login(username, identifier, password, tokenReply, meReply);
      }
      var ready;
      outcome, ready := OpenStream(conn, id, token);
      if ready {
        socket := conn;
        connected := true;
      }
    }

    /** The part of `switch_chat` after the optional reconnect, on whatever socket is held. */
    method SwitchOn(user: User) returns (outcome: Outcome)
      requires Valid()
      modifies this`currentChat, socket
      ensures Valid()
      ensures socket == null ==> outcome == Switching(user.id, false, false, []).0 && currentChat == old(currentChat)
      ensures socket != null ==>
                && socket.open == old(socket.open)
                && socket.cursor == old(socket.cursor) +
                     (if 0 <= user.id < TWO_POW_32 && old(socket.open) then |old(socket.Pending(2))| else 0)
                && var (o, written, switched) := Switching(user.id, true, old(socket.open), old(socket.Pending(2)));
                   && outcome == o
                   && socket.outbound == old(socket.outbound) + written
                   && currentChat == if switched then Some(user) else old(currentChat)
    {
      if !(0 <= user.id < TWO_POW_32) {
        return Raised(IdentityOutOfRange);
      }
      var request := SwitchFrame(user.id);
      if socket == null {
        return Raised(NoSocket);
      }
      var sent := socket.Send(request);
      if !sent {
        return Raised(SocketClosed);
      }
      var got := socket.Recv(2);
      var verdict := SwitchVerdict(got.value);
      if verdict.None? {
        return Raised(ShortRead);
      }
      if verdict.value {
        currentChat := Some(user);
      }
      outcome := Returned;
    }

    /**
     * `switch_chat`: connects first when not connected (with `conn` the socket that opens), then
     * sends the switch frame and selects the user only when the server answers 00 05.
     * From a connected client the switch happens on its socket; from a disconnected one it
     * happens on `conn` exactly when the opening succeeds. An opening that raises ends the call;
     * a rejected challenge leaves the client on its old socket, whose stream has ended, so the
     * switch attempted there raises.
     */
    method SwitchChat(user: User, tokenReply: TokenReply, meReply: MeReply, conn: Socket) returns (outcome: Outcome)
      requires Valid() && conn.Valid() && conn.open && conn != socket
      modifies this, conn, socket
      ensures Valid()
      ensures old(connected) ==>
                && socket == old(socket) && connected && unchanged(conn)
                && unchanged(this`username, this`identifier, this`password, this`token, this`id)
                && unchanged(this`loggedIn, this`contactList)
                && socket.cursor == old(socket.cursor) + (if 0 <= user.id < TWO_POW_32 then |old(socket.Pending(2))| else 0)
                && var (o, written, switched) := Switching(user.id, true, true, old(socket.Pending(2)));
                   && outcome == o
                   && socket.outbound == old(socket.outbound) + written
                   && currentChat == if switched then Some(user) else old(currentChat)
      ensures !old(connected) ==> LoginStep(tokenReply, meReply)
      ensures !old(connected) ==>
                var (opening, openWritten, ready) := Opening(old(conn.Pending(3)), id, token);
                && (!ready ==>
                      && socket == old(socket) && !connected && currentChat == old(currentChat)
                      && conn.open && conn.cursor == old(conn.cursor) + |old(conn.Pending(3))|
                      && conn.outbound == old(conn.outbound) + openWritten)
                && (opening.Raised? ==> outcome == opening && (old(socket) != null ==> unchanged(old(socket))))
                && (opening == Returned && !ready ==>
                      && outcome.Raised?
                      && var (o, written, _) := Switching(user.id, old(socket) != null, old(socket) != null && old(socket.open), []);
                         && outcome == o
                         && (old(socket) != null ==>
                               && old(socket).cursor == old(socket.cursor) && old(socket).open == old(socket.open)
                               && old(socket).outbound == old(socket.outbound) + written))
                && (ready ==> old(socket) != null ==> unchanged(old(socket)))
                && (ready ==>
                      && connected && socket == conn
                      && var after := old(conn.cursor) + |old(conn.Pending(3))|;
                         var ack := Window(conn.inbound, after, 2);
                         var (o, written, switched) := Switching(user.id, true, true, ack);
                         && outcome == o
                         && conn.open
                         && conn.cursor == after + (if 0 <= user.id < TWO_POW_32 then |ack| else 0)
                         && conn.outbound == old(conn.outbound) + openWritten + written
                         && currentChat == if switched then Some(user) else old(currentChat))
    {
      if !connected {
        outcome := Connect(tokenReply, meReply, conn);
        if outcome.Raised? {
          return;
        }
      }
      outcome := SwitchOn(user);
    }

    /**
     * `send_message`: when logged in, connected and given a message, writes one message frame
     * carrying its UTF-8 encoding (cut to 0xFFFF bytes); the log line that follows raises when
     * no chat is selected, after the frame is sent.
     */
    method SendMessage(message: Option<string>) returns (outcome: Outcome)
      requires Valid()
      modifies socket
      ensures Valid()
      ensures socket != null ==> socket.cursor == old(socket.cursor) && socket.open == old(socket.open)
      ensures socket != null ==>
                socket.outbound == old(socket.outbound) +
                  if loggedIn && connected && message.Some? then MessageFrame(Utf8.Encode(message.value)) else []
      ensures outcome == if loggedIn && connected && message.Some? && currentChat.None? then Raised(NoCurrentChat) else Returned
    {
      if !loggedIn || !connected || message.None? {
        return Returned;
      }
      var buffer := Utf8.Encode(message.value);
      var request := BuildMessageFrame(buffer);
      var _ := socket.Send(request);
      if currentChat.None? {
        return Raised(NoCurrentChat);
      }
      outcome := Returned;
    }

    /** `disconnect`: closes the socket of a connected client and reports whether it was connected. */
    method Disconnect() returns (ok: bool)
      requires Valid()
      modifies this`connected, socket
      ensures Valid()
      ensures ok == old(connected) && !connected
      ensures ok ==> !socket.open
      ensures !ok && socket != null ==> socket.open == old(socket.open)
      ensures socket != null ==> socket.cursor == old(socket.cursor) && socket.outbound == old(socket.outbound)
    {
      if !connected {
        return false;
      }
      socket.Close();
      connected := false;
      ok := true;
    }

    /** `sort_contacts`: reorders the directory by name; raises when there is none yet. */
    method SortContacts() returns (outcome: Outcome)
      modifies this`contactList
      ensures outcome == if old(contactList).None? then Raised(NoContactList) else Returned
      ensures contactList == if old(contactList).None? then None else Some(SortByName(old(contactList).value))
    {
      if contactList.None? {
        return Raised(NoContactList);
      }
      contactList := Some(SortByName(contactList.value));
      outcome := Returned;
    }

    /**
     * `get_contacts`: when logged in and the request succeeds, rebuilds the directory from the
     * complete entries (a later entry with the same ID replacing the user in place) and sorts
     * it by name; otherwise leaves it alone.
     */
    method GetContacts(reply: UsersReply)
      modifies this`contactList
      ensures contactList == if loggedIn && reply.status == 200
                             then Some(SortByName(Collect(reply.entries)))
                             else old(contactList)
    {
      if !loggedIn || reply.status != 200 {
        return;
      }
      var d: Directory := [];
      for i := 0 to |reply.entries|
        invariant d == Collect(reply.entries[..i])
      {
        var contact := reply.entries[i];
        CollectSnoc(reply.entries, i);
        if contact.username.None? || contact.id.None? {
          continue;
        }
        d := Put(d, contact.id.value, User(contact.id.value, contact.username.value, []));
      }
      assert reply.entries[..|reply.entries|] == reply.entries;
      contactList := Some(d);
      var _ := SortContacts();
    }

    /**
     * One pass of `_input_loop`, with `handler` the response handler and `conn` the socket a
     * reconnect opens. What the pass reads is the front of the unread stream as `ReadFrame`
     * decodes it: an empty read marks the client disconnected and reconnects; a notice and an
     * unknown category are consumed and ignored; a text message is decoded as UTF-8, handed to
     * the handler, and a reply, if any, is sent back with `send_message`.
     */
    method Step(handler: string -> Option<string>, tokenReply: TokenReply, meReply: MeReply, conn: Socket)
      returns (outcome: Outcome)
      requires Valid() && conn.Valid() && conn.open && conn != socket
      modifies this, conn, socket
      ensures Valid()
      ensures old(socket) == null ==> outcome == Raised(NoSocket) && unchanged(this) && unchanged(conn)
      ensures old(socket) != null && !old(socket.open) ==>
                outcome == Raised(SocketClosed) && unchanged(this) && unchanged(conn) && unchanged(old(socket))
      ensures old(socket) != null && old(socket.open) ==>
                match ReadFrame(old(socket.Unread()))
                case None =>
                  && outcome == Raised(ShortRead) && unchanged(this) && unchanged(conn)
                  && old(socket).cursor == |old(socket).inbound| && old(socket).outbound == old(socket.outbound)
                case Some((Closed, _)) =>
                  && unchanged(old(socket))
                  && Reopened(tokenReply, meReply, conn, outcome)
                case Some((Text(payload), consumed)) =>
                  && unchanged(conn) && unchanged(this)
                  && socket.cursor == old(socket.cursor) + consumed && socket.open
                  && (match Utf8.Decode(payload)
                      case None => outcome == Raised(InvalidUtf8) && socket.outbound == old(socket.outbound)
                      case Some(text) =>
                        if currentChat.None? then outcome == Raised(NoCurrentChat) && socket.outbound == old(socket.outbound)
                        else
                          && outcome == Returned
                          && socket.outbound == old(socket.outbound) +
                               if loggedIn && handler(text).Some? then MessageFrame(Utf8.Encode(handler(text).value)) else [])
                case Some((_, consumed)) =>
                  && outcome == Returned && unchanged(this) && unchanged(conn)
                  && socket.cursor == old(socket.cursor) + consumed && socket.outbound == old(socket.outbound) && socket.open
    {
      if socket == null {
        return Raised(NoSocket);
      }
      var s := socket;
      ghost var input := s.Unread();
      var first := s.Recv(1);
      if first.None? {
        return Raised(SocketClosed);
      }
      var request := first.value;
      if |request| == 0 {
        connected := false;
        outcome := Connect(tokenReply, meReply, conn);
        return;
      }
      assert request == input[..1];
      if request[0] == 0x00 {
        var hsType := s.Recv(1);
        if |hsType.value| == 0 {
          return Raised(ShortRead);
        }
        return Returned;
      }
      if request[0] != 0x01 {
        return Returned;
      }
      outcome := ReceiveText(s, handler, input);
    }

    /**
     * The text branch of `_input_loop`, after the category byte 01 has been read from `s`:
     * two length bytes, then up to that many payload bytes, decoded as UTF-8 and answered.
     * `input` is the unread stream as it stood before the category byte.
     */
    method ReceiveText(s: Socket, handler: string -> Option<string>, ghost input: seq<byte>) returns (outcome: Outcome)
      requires Valid() && s == socket && s.open
      requires |input| >= 1 && input[0] == 0x01 && s.Unread() == input[1..]
      modifies s
      ensures Valid() && s.open
      ensures match ReadFrame(input)
              case Some((Text(payload), consumed)) =>
                && s.cursor == old(s.cursor) + consumed - 1
                && (match Utf8.Decode(payload)
                    case None => outcome == Raised(InvalidUtf8) && s.outbound == old(s.outbound)
                    case Some(text) =>
                      if currentChat.None? then outcome == Raised(NoCurrentChat) && s.outbound == old(s.outbound)
                      else
                        && outcome == Returned
                        && s.outbound == old(s.outbound) +
                             if loggedIn && handler(text).Some? then MessageFrame(Utf8.Encode(handler(text).value)) else [])
              case _ => outcome == Raised(ShortRead) && s.cursor == |s.inbound| && s.outbound == old(s.outbound)
    {
      var hi := s.Recv(1);
      if |hi.value| == 0 {
        return Raised(ShortRead);
      }
      var lo := s.Recv(1);
      if |lo.value| == 0 {
        return Raised(ShortRead);
      }
      assert hi.value[0] == input[1] && lo.value[0] == input[2];
      var length := hi.value[0] as int * 0x100 + lo.value[0] as int;
      assert s.Unread() == input[3..];
      var payload := s.Recv(length);
      assert payload.value == input[3..(if 3 + length <= |input| then 3 + length else |input|)];
      var text := Utf8.Decode(payload.value);
      if text.None? {
        return Raised(InvalidUtf8);
      }
      if currentChat.None? {
        return Raised(NoCurrentChat);
      }
      var reply := handler(text.value);
      if reply.Some? {
        var _ := SendMessage(reply);
      }
      outcome := Returned;
    }
  }
}
