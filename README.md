# Live-stream relay and login service, modelled in Dafny

The system relays a webcam host's video and audio to its viewers and runs a
separate login service backed by MongoDB. This project models the parts of it
that keep state or decide outcomes, and proves properties of that model:

- **The relay server** (`StreamServer`, server.py), in `relay.dfy`. It pairs each
  client's video and audio connections by the 36-character id the client sends
  first, then makes the client a HOST or a VIEWER. It keeps `pending_pairs` and
  `active_streams` as `map` fields of a class. `broadcast_media` reads each host
  frame and sends it to every viewer; a viewer whose send fails is removed
  without stopping the others. Streams are torn down by `cleanup_stream` and
  `shutdown`.
- **The media frame readers**, in `framing.dfy`: `receive_data` from
  protocol_recv.py takes its header from a single `recv(4)` in the platform's
  native `struct` order. Its variant in testingforbook.py reads the header in a
  loop and always decodes it big-endian. Both pull payload chunks until the
  announced length has arrived. `bytes.dfy` holds the shared pieces: four-byte
  lengths in either byte order, `int.from_bytes`, and the model of a socket
  receive. `utf8.dfy` is Python's strict UTF-8 codec.
- **The login handler** (`ClientHandler.run` and `_send_response`,
  login_server.py), in `login.dfy`. It reads one length-prefixed JSON request,
  answers LOGIN, REGISTER or LOGOUT against the shared set of logged-in users,
  and writes one length-prefixed reply.
- **The account store** (`DatabaseManager`, database.py, with the copy of
  `register_user` in testingforbook.py), in `accounts.dfy`. It covers the
  registration guard cascade, the login check, and the stream-record upsert
  and deactivation.

How the model represents the outside world:

- **Sockets.** A socket is an opaque number. What the server closes is returned
  as a set.
- **Receives.** An inbound connection is the sequence of chunks the network
  hands over. `recv(k)` returns at most `k` bytes of the next chunk and keeps
  the rest buffered; an empty chunk, or the end of the sequence, means the peer
  closed. TCP may split a frame anywhere, and protocol_recv.py takes whatever
  its single `recv(4)` returns as the whole header, so a header split across
  two chunks reads as a disconnect (`Framing.SplitHeaderFrame`). The relay
  round-trip lemmas therefore hold when each frame arrives as one chunk.
- **Sends and inputs.** Whether a send succeeds is a function parameter. So are
  the decoded handshake intent, the JSON parser, the bcrypt salt, the clock and
  whether MongoDB answered at start-up.
- **Byte order.** The media frame order is the server's `native` byte order, a
  constructor parameter. It is never equated with big-endian. The
  protocol_recv.py docstring (lines 10-11) says big-endian, but the code uses
  native `"I"`, and the model follows the code.
- **MongoDB collections.** Each collection is the sequence of its documents in
  insertion order, and `find_one` / `update_one` act on the first match. A map
  keyed by name would make uniqueness true by construction. Here, instead,
  unique usernames and unique stream ids are invariants (`Valid`) that
  registration and the upsert are proved to keep.
- **bcrypt.** bcrypt is an ideal hash: `CheckPw(p, HashPw(p, salt))` holds, and
  no other password checks against that hash. Both facts are proved about a
  concrete definition; neither is assumed.
- **Missing JSON fields.** A missing string field of a request is the empty
  string. On every path the code treats `None` and `""` alike, because the
  empty name never enters the logged-in set (`Login.ActiveUsers.Valid`).

## Model

| member | source | states |
|---|---|---|
| Bytes.Encode32 | server.py:209 | `struct.pack("I", n)` / `to_bytes(4, 'big')`: four bytes that decode back to `n` in the same order |
| Bytes.Encode32OfDecode32 | protocol_recv.py:27 | four header bytes are determined by the length they decode to, so decoding and encoding are mutually inverse |
| Bytes.ByteOrdersDiffer | protocol_recv.py:10-11 | the two byte orders read the same four bytes differently, so a reader must use the writer's order |
| Bytes.BigEndianValueOfFour | login_server.py:58 | on exactly four bytes `int.from_bytes(b, 'big')` agrees with the `">I"` reading |
| Bytes.BigEndianValueBelow32 | login_server.py:52-58 | a length read from at most four prefix bytes is below 2^32 |
| Bytes.Recv | protocol_recv.py:22 | `recv(k)` returns at most `k` bytes, returns nothing exactly when the peer has closed, and loses no byte |
| Bytes.RecvExactly | protocol_recv.py:30-37 | the payload loop returns exactly the next `n` bytes that arrive, or None when the peer closes first; the connection then continues after those bytes; the header loop of testingforbook.py (lines 61-67) is the same loop with `n = 4` |
| Framing.Wire | server.py:209 | the relayed frame is the length in four bytes of the given order followed by the payload |
| Framing.ReceiveData | protocol_recv.py:20-43 | the result is `SingleHeaderResult`: `(0, None)` on a close, on a first chunk shorter than four bytes and on truncation, else `(n, data)` with `len(data) == n < 2^32` |
| Framing.ReceiveDataLooped | testingforbook.py:58-92 | the result is `LoopedHeaderResult`: the header decoded big-endian however it is split, `(0, None)` on a close in the header or the payload |
| Framing.SuccessHasAnnouncedLength | protocol_recv.py:27-39 | a successful read returns exactly as many bytes as the header announced, for both readers |
| Framing.CleanCloseIsNone | protocol_recv.py:22-24 | a peer that closes before sending a byte reads as `(0, None)` |
| Framing.TruncatedIsNone | protocol_recv.py:34-36 | a frame cut short after its header reads as `(0, None)`; the partial payload is dropped |
| Framing.ShortFirstChunkIsNone | protocol_recv.py:27 | a first chunk of fewer than four bytes makes `struct.unpack` fail: `(0, None)` |
| Framing.SingleHeaderRoundTrip | protocol_recv.py:27-39 | reading `pack("I", len(p)) + p` gives `(len(p), p)` when the first chunk holds the header |
| Framing.LoopedHeaderRoundTrip | testingforbook.py:61-88 | the looped reader gets `(len(p), p)` back from `pack(">I", len(p)) + p` however it is split |
| Framing.EmptyPayloadIsNotFailure | protocol_recv.py:39 | an empty payload reads as `(0, b'')`, which differs from the failure `(0, None)` |
| Framing.SplitHeaderFrame | protocol_recv.py:22-27 | a frame whose header arrives in two pieces defeats the single-`recv(4)` reader, while the looped reader finds it |
| Framing.NextFrame | protocol_recv.py:39 | one successful read moves on to the next frame of the host's stream |
| Framing.SingleHeaderFramesRoundTrip | server.py:209 | frames written one `sendall` each are read back by protocol_recv.receive_data exactly, in order, when each frame arrives as one chunk (its header in a single `recv`) |
| Utf8.DecodeEncode | login_server.py:41 | `s.encode('utf-8').decode('utf-8') == s` |
| Utf8.EncodeDecode | login_server.py:69 | bytes that decode are the encoding of what they decode to |
| Utf8.DecodeLength | server.py:93-94 | decoding never yields more characters than bytes, and as many exactly for ASCII |
| Utf8.DecodeAscii | server.py:93 | ASCII bytes decode character for character |
| Utf8.EncodeLength | login_server.py:41-42 | each character encodes to one to four bytes |
| Relay.ParseClientId | server.py:92-97 | an accepted id has exactly 36 characters |
| Relay.AcceptedIdIsAscii | server.py:93-94 | since `recv(36)` returns at most 36 bytes, an id is accepted exactly when 36 ASCII bytes arrive, read character for character |
| Relay.StreamIdCollides | server.py:147 | two hosts get the same `stream_<id[:8]>` exactly when their ids share the first eight characters |
| Relay.StreamIdExample | server.py:147 | the stream id of an example client id is `stream_` and its first eight characters |
| Relay.FanOut | server.py:205-211 | a viewer is delivered to exactly when its send succeeds and listed for removal exactly when it fails; a failure does not stop the loop |
| Relay.CloseStreamSockets | server.py:245-254 | exactly the host's two sockets and every viewer's two are closed |
| Relay.RelayedFromExtend | server.py:192-214 | one more fan-out pass over the viewers left extends the relay history, and its drops are removed |
| Relay.HealthyViewerGetsEveryFrame | server.py:205-211 | fault isolation: a viewer whose sends never fail gets every frame and is never dropped |
| Relay.DroppedViewerIsGone | server.py:213-214 | a viewer dropped at one pass gets no later frame and is never dropped again |
| Relay.AbsentStaysAbsent | server.py:205-206 | a client that was never a viewer gets no frame |
| Relay.HealthyViewerReceivesHostFrames | server.py:194-211 | a viewer whose sends never fail receives the host's frames in order, and decodes them back with protocol_recv.receive_data when each frame arrives as one chunk (its header in a single `recv`) |
| Relay.ShutdownAsWrittenDeadlocks | server.py:257-263 | shutdown as written never completes when any stream is active: it re-acquires the non-reentrant lock that cleanup_stream takes at line 241 |
| Relay.StreamServer.constructor | server.py:33-40 | both registries start empty and the server starts running |
| Relay.StreamServer.HandleIncomingConnection | server.py:88-117 | a bad id closes only that socket with both registries unchanged; an accepted id is 36 ASCII bytes (`recv(36)` returns at most 36); otherwise the id's entry gains `kind ↦ sock` and keeps the other kind; once both kinds are there the entry is popped and the role is assigned with exactly those two sockets, and otherwise nothing else changes |
| Relay.StreamServer.AssignClientRole | server.py:119-143 | HOST registers the stream and starts relaying only if the reply was sent; VIEWER joins or is refused; another action, or an unreadable handshake, closes both sockets without touching either registry |
| Relay.StreamServer.SetupHost | server.py:145-157 | `stream_id == "stream_" + id[:8]`; the entry becomes the host `{id, video, audio}` with no viewers, overwriting any entry of that id; the reply is HOST_OK with that id |
| Relay.StreamServer.SetupViewer | server.py:166-186 | a present stream gains exactly this viewer and nothing else changes, with reply VIEWER_OK; an absent or missing stream id leaves the registry unchanged with "Stream not found" |
| Relay.StreamServer.RemoveViewers | server.py:228-237 | the listed viewers are removed and ids already gone are ignored; nothing happens when the stream is gone |
| Relay.StreamServer.RelayFrame | server.py:201-214 | if the stream is still registered, the frame `pack("I", n) + p` goes to every viewer whose send succeeds, and exactly the failed viewers are removed; otherwise nothing changes |
| Relay.StreamServer.RelayPass | server.py:192-214 | one loop iteration extends the relay history and leaves the registry holding the viewers that survived every pass so far |
| Relay.StreamServer.BroadcastMedia | server.py:188-226 | the passes are successive fan-outs of the host's frames, read by protocol_recv.receive_data until the first failed read; afterwards the stream is gone and exactly its remaining sockets are closed |
| Relay.StreamServer.CleanupStream | server.py:239-255 | the stream is removed and each of its sockets is closed; a second call, or a call for an unknown stream, closes nothing and changes nothing |
| Relay.StreamServer.Shutdown | server.py:257-263 | the running flag is cleared, every stream is torn down and every socket of every stream is closed (the intended effect) |
| Accounts.CheckPwOfHashPw | database.py:77-78 | a password checks against its own hash whatever the salt, and no other password does |
| Accounts.FindUser | database.py:73 | `find_one({"username": u})` returns a document with that name, and None exactly when there is none |
| Accounts.FindStream | database.py:139-141 | the first record with that stream id, or None exactly when there is none |
| Accounts.AddUserKeepsUnique | database.py:73-80 | inserting a user whose name is free keeps usernames unique, the new user is found by name, and other lookups are unchanged |
| Accounts.Upsert | database.py:131-143 | the upsert adds a record only when none has that id and keeps ids unique; the record of that id has the host, status "active", the start time and viewer count 0; an existing record keeps its end time, and other records are untouched |
| Accounts.UpsertTwice | database.py:139-143 | repeating the upsert for the same id adds no record: the later call's fields replace the earlier |
| Accounts.RegisterOrder | database.py:64-75 | each registration verdict holds exactly when its own check fails and every earlier check passed, in the order connection, empty fields, mismatch, taken name; the copy at testingforbook.py:8-21 checks in the same order |
| Accounts.Login | database.py:93-111 | login succeeds exactly when connected, both fields are non-empty, the user exists and the password checks; the failures give "Error: Database connection failed!", "Username and password are required." or "Invalid username or password!" |
| Accounts.RegisteredUserCanLogIn | database.py:77-106 | a user just registered logs in with its password, and with no other |
| Accounts.DatabaseManager.constructor | database.py:21-47 | the store attaches to the stored collections as they are, with unique usernames (the unique index at database.py:54) and unique stream ids; `connected` records whether MongoDB answered |
| Accounts.DatabaseManager.RegisterUser | database.py:62-83 | the message is the cascade's; only a successful registration inserts `username ↦ HashPw(password)`, and it keeps usernames unique; the copy at testingforbook.py:5-36 behaves alike, ending in "User {username} registered successfully!" |
| Accounts.DatabaseManager.InsertUser | database.py:79-80 | the document is appended under the next `_id`, and uniqueness is kept |
| Accounts.DatabaseManager.VerifyUserLogin | database.py:93-111 | the answer is `Accounts.Login` on the current store, and success implies a non-empty username |
| Accounts.DatabaseManager.CreateStreamRecord | database.py:117-147 | disconnected gives "Database connection failed!" and an unknown host gives "Host user not found!", both without a write; otherwise the store is upserted and the reply is "Stream record updated." |
| Accounts.DatabaseManager.SetStreamInactive | database.py:153-173 | disconnected, or no record of that id, gives False with no write; otherwise the first such record gets status "inactive" and the end time, and the result is whether that changed it |
| Login.ContainsAt | login_server.py:98 | a word that occurs at some position is found by `in` |
| Login.ContainsChars | login_server.py:98 | every character of a substring occurs in the string |
| Login.RegisterMessageSuccessfully | login_server.py:98 | `"successfully" in message` holds exactly for the message of a successful registration |
| Login.ReceiveRequest | login_server.py:52-67 | the body is `RequestBody`: the length from one `recv(4)` read big-endian, then exactly that many bytes, or None for a missing prefix or a close mid-body; every receive asks for between 1 and 4096 bytes |
| Login.SendResponse | login_server.py:38-46 | a reply is framed exactly when its UTF-8 encoding fits a four-byte length |
| Login.UnexpectedFits | login_server.py:127-129 | the generic error always fits, so the fallback reply is always written |
| Login.ResponseRoundTrip | login_server.py:38-43 | a client that reads four big-endian length bytes and then that many and decodes them gets the message back |
| Login.LoginWhenActive | login_server.py:77-81 | LOGIN for a logged-in user replies "ERROR:User '<u>' is already logged in.", keeps the set, and does not depend on the store's answer |
| Login.LoginOutcome | login_server.py:83-93 | LOGIN for a user not logged in adds the user exactly when the store accepts, replying `SUCCESS:<msg>`, and otherwise replies `ERROR:<msg>` |
| Login.LogoutAlwaysSucceeds | login_server.py:104-117 | LOGOUT always replies SUCCESS and the user is not in the set afterwards |
| Login.RegisterReply | login_server.py:95-102 | REGISTER leaves the set alone and replies SUCCESS exactly when the registration went through |
| Login.OtherActionIsInvalid | login_server.py:119-120 | any other action replies "ERROR:Invalid action." and changes nothing |
| Login.DispatchAdds | login_server.py:77-117 | only a LOGIN the store accepts adds a name, just that one, and never the empty name |
| Login.EarlyCloseIsSilent | login_server.py:52-67 | with no length prefix, or a close before the announced body is complete, the handler dispatches nothing and sends nothing |
| Login.ActiveUsers.constructor | login_server.py:160 | the shared set starts empty |
| Login.Serve | login_server.py:71-120 | the reply and the new set are `Dispatch` on the store's answers before the call; only REGISTER writes to the store, and the next `_id` advances exactly when it inserts |
| Login.Run | login_server.py:48-129 | no reply for a missing prefix or a close mid-body; "ERROR:Invalid request format." for bad JSON; the generic error for non-UTF-8 text or JSON that is not an object; otherwise the dispatched reply, framed, or the generic error when it does not fit; only REGISTER writes to the store, and the next `_id` advances exactly when it inserts |

## Left out

- Threads and `stream_lock`. Each method runs atomically and alone. The unlocked
  test of `pair` at server.py:105 races with other threads; it is not modelled.
- `start`, `_create_listening_socket`, `_connection_loop`, `server_running`
  polling from other threads, and the login server's accept loop: socket setup
  and I/O.
- The handshake read at server.py:124-128 (`recv(4)`, `recv(length)`, JSON) is
  not modelled. The decoded intent is a parameter (`HostIntent`,
  `ViewerIntent(id)`, or `Unusable` for anything that makes role assignment
  raise). The JSON replies are the `Reply` values, not their bytes.
- Relay.StreamServer.BroadcastMedia: the stream vanishing between two frames
  through another thread's cleanup is not modelled, because the model runs
  sequentially. An absent stream is only handled before the first frame.
- The two broadcast threads that `_setup_host` starts are not modelled as
  threads. `relay` returns the stream id to run `BroadcastMedia` on.
- Logging, timeouts (`settimeout`), the `isinstance(sock, socket.socket)` tests
  and socket exceptions. Every failed read is a close.
- TLS, certificate loading and `shutdown(SHUT_RDWR)` in login_server.py.
- JSON parsing in the login handler is a parameter (`parse`). Non-string JSON
  values in the request fields are not modelled.
- Python strings holding lone surrogates are not modelled, because Dafny's
  `char` is a Unicode scalar value. Encoding such a reply raises in the code.
- MongoDB connection, index setup, `OperationFailure` and other database
  exceptions, the `_id` of stream documents, timestamps (a parameter `now`),
  and the bare `OperationFailure` name at testingforbook.py:37.
- bcrypt's own algorithm and its 72-byte password limit. The hash is ideal.
- Login.ReceiveRequest: states that every receive asks for 1 to 4096 bytes and
  that the body is exactly the announced bytes, not that each request equals
  `min(remaining, 4096)`.
- login_gui.py, host_streamer.py and viewer_logic.py: user interface, capture
  and playback.

## Findings

| source | as written | input that shows it | evidently intended | confidence | as-written member | corrected member |
|---|---|---|---|---|---|---|
| server.py:257-263 | `shutdown` holds `stream_lock` (a non-reentrant `threading.Lock`) while it calls `cleanup_stream`, which acquires the same lock at server.py:241 | any shutdown while one stream is active, e.g. `active_streams == {"stream_11111111": ...}` | clear the flag and tear down every active stream | high, not executed | Relay.ShutdownAsWrittenDeadlocks | Relay.StreamServer.Shutdown |
