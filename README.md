# PinguChat bot: session protocol and responder logic

This project models the chat client and the responder of the PinguChat bot and proves
properties of the model.

**The client** (`Client` in `utilities/client.py`):
- It logs in over HTTP and opens a TCP stream.
- On that stream it answers the server's challenge `00 00 2A` with `00 01`. It then identifies itself (`00 02 04` and the 4-byte big-endian user ID) and authenticates (`00 03`, a 2-byte length, then one byte per token character).
- It switches chats (`00 04 04` and the peer's ID, acknowledged by `00 05`) and sends text messages (`01`, a 2-byte big-endian length, then at most 0xFFFF bytes of UTF-8).
- It reads the same frames back in its receive loop.
- It keeps a contact directory sorted by name.

**The responder** (`Bot` in `utilities/bot.py`):
- It splits `"user: text"`.
- It matches lower-cased words against configured triggers.
- It picks the first matching command or executor in configuration order.
- It decides what `response` does with a message.

**Users and messages** (`utilities/user.py`, `utilities/message.py`) are records whose equality looks at the ID only.

Modules, one per concern:

- `Bytes`: the byte type and big-endian integers.
- `Utf8`: a strict UTF-8 encoder and decoder, as Python's codec behaves.
- `Frames`: the frame layouts, the handshake check, the receive-loop decoder `ReadFrame`, and the byte-appending loops that build the message and authenticate frames.
- `Text`: the Python string operations the code relies on (`strip`, `lower`, `split(' ')`, `<` on strings).
- `Messages`, `Users`: the records.
- `Contacts`: the contact directory.
  - It is an ordered dictionary, as a sequence of (ID, user) pairs.
  - The loop of `get_contacts` is a left fold `Collect`.
  - `sorted` is a stable insertion sort `SortByName`.
- `Transport`: class `Socket`.
  - It holds the bytes the server will send, a read cursor, the log of bytes written, and an open flag.
  - `recv(n)` returns up to `n` unread bytes, and nothing at the end of the stream.
- `Session`: class `Client`.
  - Its fields and methods follow the Python class.
  - HTTP replies and the newly opened socket are parameters.
  - Every Python exception the code can raise is an explicit `Outcome.Raised(fault)`, with the state at the point where it was raised, except those listed under "Left out".
  - The pure functions `Opening` (with `Introduction`, its part after the challenge) and `Switching` state what `connect` and `switch_chat` do on the wire.
- `Bot`: the responder's pure logic. `Response` returns what `response` would do as a `Dispatch` value.

## Model

| member | source | states |
|---|---|---|
| Bytes.BigEndian32 | utilities/client.py:75 | `to_bytes(4, 'big')` gives four bytes, for IDs in 0 .. 2^32 - 1 |
| Bytes.BigEndian32RoundTrip | utilities/client.py:74-75 | the four ID bytes read back as an unsigned big-endian number give the ID |
| Bytes.BigEndian32Injective | utilities/client.py:152-154 | distinct IDs get distinct 4-byte encodings |
| Bytes.LowBits16 | utilities/client.py:81 | `[(n >> 8) & 0xFF, n & 0xFF]` is two bytes |
| Bytes.LowBits16RoundTrip | utilities/client.py:174 | the two length bytes read back give n mod 2^16, which is n exactly when n < 2^16 |
| Bytes.FromBigEndian | utilities/client.py:217 | the number that big-endian bytes denote is below 256^k |
| Utf8.EncodeChar | utilities/client.py:170 | a character takes 1 to 4 bytes; only the first may be a non-continuation byte, and it is ASCII exactly for one-byte forms |
| Utf8.Encode | utilities/client.py:170 | `encode('utf-8')` gives at least one byte per character |
| Utf8.DecodeChar | utilities/client.py:218 | the strict decoder consumes between 1 and the available number of bytes per character |
| Utf8.DecodeEncodeChar | utilities/client.py:170-218 | decoding the bytes of one character gives the character back and consumes exactly its width |
| Utf8.Decode | utilities/client.py:218 | a decoded text has at most one character per byte; the empty byte string decodes to the empty text |
| Utf8.EncodeDecodeChar | utilities/client.py:218 | the decoder is strict: a character it accepts re-encodes as exactly the bytes it consumed, so no overlong form, surrogate or value above U+10FFFF gets through |
| Utf8.EncodeDecode | utilities/client.py:170-218 | any bytes the strict decoder accepts are the UTF-8 encoding of the text it returns: each text has one spelling |
| Utf8.DecodeEncode | utilities/client.py:170-218 | `decode('utf-8')` of `encode('utf-8')` of any text gives the text back |
| Frames.IdentifyFrame | utilities/client.py:74-75 | the identify frame is 7 bytes opened by `00 02 04` |
| Frames.AuthenticateFrame | utilities/client.py:80-84 | the authenticate frame opens with `00 03` and is 4 bytes longer than the token |
| Frames.SwitchFrame | utilities/client.py:152-154 | the switch frame is 7 bytes opened by `00 04 04` |
| Frames.MessageFrame | utilities/client.py:170-177 | a message frame opens with `01` and is between 3 and 3 + 0xFFFF bytes long |
| Frames.Ordinals | utilities/client.py:83-84 | one byte per token character, equal to its code point |
| Frames.Truncate | utilities/client.py:171 | the payload is the first min(n, 0xFFFF) bytes of the encoding |
| Frames.ChallengeVerdict | utilities/client.py:243-247 | the handshake accepts exactly `00 00 2A`; a full 3-byte read always yields a verdict; a short read raises exactly when it is a prefix of `00 00 2A`, since a mismatching byte ends the check first |
| Frames.SwitchVerdict | utilities/client.py:159-162 | the switch is acknowledged exactly by `00 05`; a 2-byte read always yields a verdict; a short read raises exactly when it is a prefix of `00 05` |
| Frames.ReadFrame | utilities/client.py:200-218 | one receive-loop read consumes at most the unread bytes and reports a closed connection exactly on an empty stream |
| Frames.MessageRoundTrip | utilities/client.py:170-179 | reading a message frame back yields exactly the truncated payload and consumes 3 + length bytes, whatever follows |
| Frames.MessageFrameShape | utilities/client.py:171-177 | a message frame is `01`, the big-endian payload length, then the payload; it is at most 3 + 0xFFFF bytes; a longer encoding is cut to its first 0xFFFF bytes |
| Frames.IdentifyFrameShape | utilities/client.py:74-75 | the identify frame is 7 bytes: `00 02 04` and the ID in big-endian |
| Frames.SwitchFrameShape | utilities/client.py:152-154 | the switch frame is 7 bytes: `00 04 04` and the user ID in big-endian |
| Frames.AuthenticateFrameShape | utilities/client.py:80-84 | the authenticate frame is `00 03`, the token length mod 2^16, then the token byte for byte |
| Frames.SessionOpeningExample | utilities/client.py:74-84 | ID 1025 gives `00 02 04 00 00 04 01`; token "abcXYZ" gives `00 03 00 06 61 62 63 58 59 5A` |
| Frames.SwitchExample | utilities/client.py:152-154 | user 7 gives `00 04 04 00 00 00 07` |
| Frames.BuildMessageFrame | utilities/client.py:170-177 | the byte-appending loop of `send_message` builds exactly the message frame |
| Frames.BuildAuthenticateFrame | utilities/client.py:80-84 | the loop of `connect` builds exactly the authenticate frame when every character is at most 0xFF, and raises otherwise |
| Text.Strip | utilities/bot.py:214-215 | `strip()` returns a slice with only whitespace outside it and no whitespace at either end |
| Text.StripIdempotent | utilities/bot.py:214-215 | text without surrounding whitespace is unchanged; stripping twice equals stripping once |
| Text.Lower | utilities/bot.py:188 | `lower()` maps each character (ASCII letters only) and keeps the length |
| Text.LowerIdempotent | utilities/bot.py:188 | lower-cased text has no upper-case letter and is its own lower case |
| Text.Split | utilities/bot.py:188 | `split(' ')` gives at least one piece and no piece contains a space |
| Text.JoinSplit | utilities/bot.py:188 | joining the pieces of `split(' ')` with single spaces gives the text back |
| Text.SplitJoin | utilities/bot.py:188 | splitting space-free words joined by single spaces gives the words back |
| Text.SplitWord | utilities/bot.py:188 | a space-free word put in front of text whose pieces start with an empty one becomes that first piece |
| Text.PrecedesIrreflexive | utilities/client.py:131 | Python's string `<` is irreflexive |
| Text.PrecedesTransitive | utilities/client.py:131 | Python's string `<` is transitive |
| Text.PrecedesTotal | utilities/client.py:131 | of two different strings one precedes the other |
| Text.NotAfterTransitive | utilities/client.py:131 | "not after" (the order `sorted` keeps) is transitive |
| Text.PrecedesAsymmetric | utilities/client.py:131 | no two strings precede each other |
| Messages.Same | utilities/message.py:16-17 | `__eq__` holds exactly when the two messages differ at most in content and date |
| Messages.SameIsIdentity | utilities/message.py:16-17 | messages with the same ID are equal whatever their content and date; different IDs are not equal |
| Messages.SameIsEquivalence | utilities/message.py:16-17 | ID equality is reflexive, symmetric and transitive |
| Messages.Render | utilities/message.py:10-14 | `__str__`/`__repr__` are "Message: " followed by the content |
| Messages.RenderDeterminesContent | utilities/message.py:10-14 | two messages render alike exactly when their contents agree |
| Users.Same | utilities/user.py:16-17 | `__eq__` holds exactly when the two users differ at most in name and messages |
| Users.SameIsIdentity | utilities/user.py:16-17 | users with the same ID are equal whatever their name and messages; different IDs are not equal |
| Users.SameIsEquivalence | utilities/user.py:16-17 | ID equality is reflexive, symmetric and transitive |
| Users.Render | utilities/user.py:10-14 | `__str__`/`__repr__` are "User: " followed by the name |
| Users.RenderDeterminesName | utilities/user.py:10-14 | two users render alike exactly when their names agree |
| Contacts.Keys | utilities/client.py:126 | the directory's keys, in insertion order |
| Contacts.Lookup | utilities/client.py:126 | a key is found exactly when present, with a value stored under it |
| Contacts.Put | utilities/client.py:126 | dictionary assignment keeps an existing key where it is and appends a new one |
| Contacts.PutLookup | utilities/client.py:126 | after assignment the key maps to the new user and every other key is unchanged |
| Contacts.PutDistinct | utilities/client.py:126 | assignment never duplicates a key |
| Contacts.Collect | utilities/client.py:120-126 | the loop of `get_contacts` builds a dictionary without repeated keys and with at most one item per entry |
| Contacts.CollectSnoc | utilities/client.py:122-126 | one loop step puts a complete entry's fresh user under its ID and skips an entry missing either key |
| Contacts.CollectLookup | utilities/client.py:120-126 | looking up an ID in the built dictionary finds a fresh user named by the last complete entry with that ID, and nothing when there is none |
| Contacts.LastNameFound | utilities/client.py:120-126 | a last name for an ID exists exactly when some entry with both keys carries that ID |
| Contacts.CollectContents | utilities/client.py:120-126 | the built directory has distinct keys, exactly the IDs of entries with both `id` and `username`, each mapped to a fresh user named by the LAST such entry |
| Contacts.Insert | utilities/client.py:131 | inserting into the sorted list adds exactly that entry |
| Contacts.SortByName | utilities/client.py:131 | `sorted` is a permutation of the directory's items |
| Contacts.InsertSorted | utilities/client.py:131 | inserting keeps the list ordered by name |
| Contacts.InsertKeepsNameOrder | utilities/client.py:131 | after inserting, the entries with any given name are the new entry (if it has that name) followed by the earlier ones in their order |
| Contacts.InsertKeys | utilities/client.py:131 | inserting adds the new item's key to the keys and no other |
| Contacts.InsertDistinct | utilities/client.py:131 | inserting a new key keeps the keys distinct |
| Contacts.SortByNameSorted | utilities/client.py:131 | the sorted directory has non-decreasing names |
| Contacts.SortByNameStable | utilities/client.py:131 | entries with equal names keep their original order (stability) |
| Contacts.SortByNameDistinct | utilities/client.py:131 | sorting keeps the keys distinct |
| Contacts.SortByNameKeepsLookups | utilities/client.py:131 | sorting changes no key's user, only the order |
| Contacts.LookupInDistinct | utilities/client.py:126-131 | with distinct keys, any stored pair is what lookup returns |
| Transport.Socket.Pending | utilities/client.py:159 | `recv(n)` returns min(n, unread) bytes from the front of the unread input |
| Transport.Socket.constructor | utilities/client.py:67-68 | a new connection has read and written nothing and is open |
| Transport.Socket.Recv | utilities/client.py:200 | reading advances the cursor past exactly the bytes returned; a closed socket raises |
| Transport.Socket.Send | utilities/client.py:156 | an open socket appends the bytes to what was written; a closed one raises |
| Transport.Socket.Close | utilities/client.py:233 | the socket is closed afterwards |
| Session.TokenOf | utilities/client.py:98-105 | a token is obtained exactly from a 200 reply carrying `access_token` |
| Session.IdentityOf | utilities/client.py:49-53 | an ID is obtained exactly from a 200 reply carrying `id` |
| Session.Opening | utilities/client.py:67-89 | the socket part of `connect`: a connected result always returns normally |
| Session.OpeningReadyIff | utilities/client.py:70-89 | `connect` connects exactly when the challenge is `00 00 2A`, the ID fits 32 bits and the token is Latin-1 |
| Session.OpeningWrites | utilities/client.py:61-89 | a wrong challenge writes nothing; the challenge is answered with `00 01` first; a connected session wrote exactly ACK, identify and authenticate |
| Session.OpeningExample | utilities/client.py:70-86 | after the challenge, ID 1025 and token "abcXYZ" produce the documented 19 bytes and connect |
| Session.Introduction | utilities/client.py:73-86 | after an accepted challenge: the identify frame, then the authenticate frame, stopping at the first that cannot be built; ready exactly when nothing raised |
| Session.Window | utilities/client.py:216-217 | what a read of n bytes returns at a given position: at most n bytes, a slice of the input there |
| Session.PendingIsWindow | utilities/client.py:216-217 | a socket's next read of n bytes is the window of n bytes at its cursor |
| Session.Switching | utilities/client.py:152-164 | the wire part of `switch_chat`: a switched chat always returns normally |
| Session.SwitchingIff | utilities/client.py:152-164 | the chat switches exactly when the ID fits, the socket is open and the reply is `00 05`; an open socket receives only the switch frame; a short reply raises unless its first byte already mismatches |
| Session.SendHiExample | utilities/client.py:170-179 | "hi" is sent as `01 00 02 68 69` |
| Session.TextRoundTrip | utilities/client.py:170-218 | text whose encoding fits in a frame is read back by the receive loop as the same text, consuming exactly the frame |
| Session.Client.constructor | utilities/client.py:11-30 | a new client stores server and port; everything else is unset or false |
| Session.Client.GetToken | utilities/client.py:91-105 | returns the reply's token and stores it on success; the stored token is kept otherwise |
| Session.Client.Login | utilities/client.py:32-59 | stores the credentials and the token result; returns true exactly when token and ID are both obtained; the ID and the logged-in flag change only then |
| Session.Client.Handshake | utilities/client.py:242-254 | reads up to three bytes, accepts exactly `00 00 2A`, and writes `00 01` only then |
| Session.Client.Introduce | utilities/client.py:73-86 | the writes and the outcome after an accepted challenge are those of `Introduction` |
| Session.Client.OpenStream | utilities/client.py:70-86 | the reads, writes and outcome on the new socket are those of `Opening` of the three bytes read |
| Session.Client.Connect | utilities/client.py:61-89 | no-op when connected; otherwise logs in if needed, and adopts the new socket and sets connected only when `Opening` says so; a failed handshake leaves the socket and the flag unchanged |
| Session.Client.SwitchOn | utilities/client.py:152-164 | after the reconnect step: writes, reads and outcome follow `Switching`; the current chat changes exactly on `00 05` |
| Session.Client.SwitchChat | utilities/client.py:148-164 | connects first when disconnected; a connected client switches on its socket per `Switching` and keeps its credentials, token, ID, login flag and contacts; a disconnected one logs in as `connect` does and switches on the new socket exactly when the opening succeeds, leaving the old socket untouched; the new socket then stays open and its cursor ends just after the three challenge bytes and, for an ID that fits 32 bits, the acknowledgement bytes read. When the opening raises, that is the outcome, and the old socket and the socket field are untouched. When the challenge is rejected, the switch is attempted on the old, exhausted socket: the switch frame is written if that socket is open, and the call raises as `Switching` of an empty reply says. In both failure cases the new socket stays open, has consumed exactly the challenge bytes and received exactly what `Opening` wrote, and the chat is unchanged |
| Session.Client.SendMessage | utilities/client.py:166-182 | writes nothing unless logged in, connected and given a message; otherwise writes exactly the message frame of its UTF-8 encoding; raises after sending when no chat is selected |
| Session.Client.Disconnect | utilities/client.py:229-235 | returns whether it was connected; closes the socket only then; the client is disconnected afterwards |
| Session.Client.SortContacts | utilities/client.py:130-131 | the directory becomes its stable sort by name; raises when there is none |
| Session.Client.GetContacts | utilities/client.py:107-128 | unchanged when not logged in or the status is not 200; otherwise the sorted directory collected from the entries |
| Session.Client.Step | utilities/client.py:199-227 | one receive-loop pass follows `ReadFrame` of the unread input. An empty read reconnects as `Connect` does. A notice consumes 2 bytes and an unknown category 1. A text frame is decoded, given to the handler once, and its reply (if any) is sent as a message frame; that branch changes no field of the client, only the socket's cursor and output. Short reads, bad UTF-8, no socket, a closed socket and no current chat raise |
| Session.Client.ReceiveText | utilities/client.py:216-227 | the text branch: reads the length and the payload as `ReadFrame` does, then decodes, answers and sends as above |
| Bot.IsInMessage | utilities/bot.py:185-190 | true exactly when some trigger is a word of the lower-cased message split on single spaces (so false without triggers) |
| Bot.FirstMatch | utilities/bot.py:66-78 | the first trigger list, in order, that matches; none when no list matches |
| Bot.GetAnswer | utilities/bot.py:73-78 | the response of the first command in configuration order whose triggers match; None exactly when none matches |
| Bot.GetExec | utilities/bot.py:66-71 | the key of the first executor in configuration order whose triggers match; None exactly when none matches |
| Bot.IsCommandIn | utilities/bot.py:51-55 | true exactly when some command's triggers match |
| Bot.IsExecIn | utilities/bot.py:60-64 | true exactly when some executor's triggers match |
| Bot.IsCommandIffAnswer | utilities/bot.py:51-78 | `_is_command` holds exactly when `get_answer` is not None |
| Bot.IsExecIffExec | utilities/bot.py:60-71 | `_is_exec` holds exactly when `get_exec` is not None |
| Bot.Unescape | utilities/bot.py:124 | `replace('\\n', '\n')` leaves no backslash-n pair, converts a leading pair, and leaves text without one unchanged |
| Bot.UnescapeSplit | utilities/bot.py:124 | every backslash-n pair, wherever it sits, becomes a newline, and the text on either side is converted independently; with the unchanged case this fixes the result on every text, raw newlines included |
| Bot.EscapeUnescape | utilities/bot.py:124 | on text without raw newlines the replacement is undone by writing newlines back as backslash-n |
| Bot.GetText | utilities/bot.py:122-124 | found exactly when the key is stored (a missing key raises); the result holds no backslash-n pair, and stored text without one comes back unchanged |
| Bot.GetTextSplit | utilities/bot.py:122-124 | stored text `a` + backslash-n + `b` comes back as the converted `a`, a newline, then the converted `b` |
| Bot.Match | utilities/bot.py:212 | the leftmost match of `([^:]+):(.*)`: no match exactly when no colon follows a non-colon; group 1 is a maximal non-colon run, group 2 runs to the next newline |
| Bot.SplitMessage | utilities/bot.py:210-218 | without a match `("", message)`; otherwise the stripped groups, the user without a colon and the text without a newline |
| Bot.IsText | utilities/bot.py:57-58 | a text key is known exactly when `get_text` finds it |
| Bot.IsAdmin | utilities/bot.py:220-222 | the admins are exactly "chris" and "mirza" |
| Bot.Response | utilities/bot.py:80-120 | a matching command wins over any executor; no match gives no reply; each executor key runs its own action (`joke`, `chucknorris`, `mensa`, `dm` to the sender), `reload`/`reconnect` only for admins; an unknown executor key gives no reply; an action runs only from an executor |

## Left out

- HTTP requests and socket creation are not performed. Their results are parameters: the token, `me` and `users` replies, and the newly connected socket. Timeouts, connection failures in `s.connect` and JSON fields of other types are not modelled.
- Transport.Socket.Recv: a real `recv(n)` may return fewer bytes than are on their way. The model returns all available bytes up to `n`.
- Transport.Socket.Send: `send` always writes everything. Partial writes and errors from a peer that has gone are not modelled.
- `time.sleep(2)` after a handled message and all logging (`_logging`, `print`, `Bot.log` and its file append) are left out. The model assumes a logger that accepts the `save` keyword, as `Bot.log` does (utilities/bot.py:174), and that logger changes no modelled state.
- Session.Client.SendMessage: with the class's default logger `print` (utilities/client.py:24), `self._logging(message, save=True)` (utilities/client.py:182) raises `TypeError` after the frame has been sent. So every send that writes a frame would raise. The contract instead promises `Returned` when a chat is selected, as it is under `Bot`, which installs `Bot.log` (utilities/bot.py:28).
- Session.Client.Step: it models one pass of the endless `while True` loop of `_input_loop`. The response handler is a total function parameter, so a handler that is unset or raises is not modelled. The handler is also assumed to leave the client alone, and the text branch's promise that no field of the client changes rests on that. The real handler, `Bot.response`, re-enters the client: `dm` reloads the contacts, switches chat and sends (utilities/bot.py:97-98, 152-165) and `reconnect` disconnects and connects again (utilities/bot.py:109-114). `Bot.Response` returns these as `Dispatch` actions instead.
- `encode('utf-8')` raises `UnicodeEncodeError` on a lone surrogate (utilities/client.py:170). A Dafny `char` is a Unicode scalar value and cannot hold one, so that exception is not modelled.
- Text.Lower: only ASCII letters are lower-cased; Python's full Unicode case mapping is not modelled.
- `get_messages`: it only logs an HTTP reply. `__del__` only closes the socket at garbage collection.
- `handel_input`, `set_logging`, `get_current_chat` and `set_response_handler`: trivial accessors or forwarders.
- `Bot.__init__`, `load` (reading YAML), `Bot.connect` and `loop`: orchestration.
- `get_mensa`, `get_joke`, `get_chucknorris`: calls to external services that depend on the date.
- `prepare_direct_message`, `send_direct_message` and `get_user_by_username`: `Response` returns these as `Dispatch` actions instead of performing them. The client operations they chain are modelled one by one.
- Bot.Response: reload and reconnect are returned as actions, so the `KeyError` that `get_text` raises for a missing answer text after them is not part of the result.
