/**
 * The login server (login_server.py): one ClientHandler per TLS connection
 * reads a single length-prefixed JSON request, answers LOGIN, REGISTER or
 * LOGOUT against the account store and the shared set of logged-in users,
 * and writes one length-prefixed reply.
 *
 * TLS is transparent here: the handler sees the decrypted bytes as a `Conn`.
 * JSON parsing is a parameter.
 */
module Login {
  import opened Options
  import opened Bytes
  import Utf8
  import Framing
  import Accounts

  const MAX_BUFFER_SIZE: nat := 4096

  // ---------------------------------------------------------------------------
  // Substrings (Python's `t in s` on str)
  // ---------------------------------------------------------------------------

  predicate Contains(s: string, t: string)
    decreases |s|
  {
    t <= s || (s != [] && Contains(s[1..], t))
  }

  lemma {:induction false} ContainsAt(s: string, i: nat, t: string)
    requires i <= |s| && t <= s[i..]
    ensures Contains(s, t)
    decreases i
  {
    if i > 0 {
      assert s[1..][i - 1..] == s[i..];
      ContainsAt(s[1..], i - 1, t);
    }
  }

  /** Every character of a substring occurs in the string. */
  lemma {:induction false} ContainsChars(s: string, t: string, c: char)
    requires Contains(s, t) && c in t
    ensures c in s
    decreases |s|
  {
    if t <= s {
      var k :| 0 <= k < |t| && t[k] == c;
      assert s[k] == c;
    } else {
      ContainsChars(s[1..], t, c);
      var k :| 0 <= k < |s[1..]| && s[1..][k] == c;
      assert s[k + 1] == c;
    }
  }

  /** A message lacking one of the letters of "successfully" does not contain it. */
  lemma LacksLetter(m: string, c: char)
    requires c in "successfully" && c !in m
    ensures !Contains(m, "successfully")
  {
    if Contains(m, "successfully") {
      ContainsChars(m, "successfully", c);
    }
  }

  lemma NotConnectedLacksWord()
    ensures !Contains(Accounts.RegisterMessage(Accounts.NotConnected, ""), "successfully")
  {
    LacksLetter(Accounts.RegisterMessage(Accounts.NotConnected, ""), 'u');
  }

  lemma FieldsMissingLacksWord()
    ensures !Contains(Accounts.RegisterMessage(Accounts.FieldsMissing, ""), "successfully")
  {
    LacksLetter(Accounts.RegisterMessage(Accounts.FieldsMissing, ""), 'f');
  }

  lemma MismatchLacksWord()
    ensures !Contains(Accounts.RegisterMessage(Accounts.Mismatch, ""), "successfully")
  {
    LacksLetter(Accounts.RegisterMessage(Accounts.Mismatch, ""), 'f');
  }

  lemma UsernameTakenLacksWord()
    ensures !Contains(Accounts.RegisterMessage(Accounts.UsernameTaken, ""), "successfully")
  {
    LacksLetter(Accounts.RegisterMessage(Accounts.UsernameTaken, ""), 'f');
  }

  /**
   * REGISTER's test `"successfully" in message` picks out exactly the
   * successful registration: no other message of the cascade contains the word.
   */
  lemma RegisterMessageSuccessfully(v: Accounts.RegisterVerdict, username: string)
    ensures Contains(Accounts.RegisterMessage(v, username), "successfully") <==> v == Accounts.Registered
  {
    var m := Accounts.RegisterMessage(v, username);
    match v
    case Registered =>
      var i := 5 + |username| + 12;
      assert m[i..] == "successfully!";
      ContainsAt(m, i, "successfully");
    case NotConnected => NotConnectedLacksWord();
    case FieldsMissing => FieldsMissingLacksWord();
    case Mismatch => MismatchLacksWord();
    case UsernameTaken => UsernameTakenLacksWord();
  }

  // ---------------------------------------------------------------------------
  // Reading the request
  // ---------------------------------------------------------------------------

  /**
   * The request body: the length is whatever ONE `recv(4)` returns, read by
   * `int.from_bytes(..., 'big')`, which takes a prefix of one to four bytes
   * alike; then that many bytes. None when the peer sends no prefix or closes
   * before the body is complete.
   */
  function RequestBody(c: Conn): Option<Bytes> {
    var (prefix, rest) := Recv(c, 4);
    if prefix == [] then None else TakeExactly(rest.chunks, BigEndianValue(prefix))
  }

  /**
   * The header read and body loop of `run`. Each receive asks for the bytes
   * still missing, but never more than MAX_BUFFER_SIZE; `asks` lists the
   * sizes requested.
   */
  method ReceiveRequest(c: Conn) returns (body: Option<Bytes>, ghost asks: seq<nat>)
    ensures body == RequestBody(c)
    ensures forall i :: 0 <= i < |asks| ==> 0 < asks[i] <= MAX_BUFFER_SIZE
  {
    var (prefix, conn) := Recv(c, 4);
    asks := [];
    if prefix == [] {
      return None, asks;
    }
    var length := BigEndianValue(prefix);
    var request: Bytes := [];
    ghost var start := conn;
    while |request| < length
      invariant |request| <= length
      invariant request + Available(conn.chunks) == Available(start.chunks)
      invariant forall i :: 0 <= i < |asks| ==> 0 < asks[i] <= MAX_BUFFER_SIZE
      decreases Size(conn.chunks)
    {
      var want := if length - |request| < MAX_BUFFER_SIZE then length - |request| else MAX_BUFFER_SIZE;
      asks := asks + [want];
      var (chunk, next) := Recv(conn, want);
      if chunk == [] {
        assert request == Available(start.chunks);
        return None, asks;
      }
      Regroup(request, chunk, Available(next.chunks));
      request := request + chunk;
      conn := next;
    }
    assert request == Available(start.chunks)[..length];
    body := Some(request);
  }

  // ---------------------------------------------------------------------------
  // Replies
  // ---------------------------------------------------------------------------

  const SUCCESS := "SUCCESS:"
  const ERROR := "ERROR:"
  const UNEXPECTED := ERROR + "An unexpected server error occurred."
  const INVALID_FORMAT := ERROR + "Invalid request format."
  const INVALID_ACTION := ERROR + "Invalid action."
  const LOGGED_OUT := SUCCESS + "Logged out successfully."
  const NOT_LISTED := SUCCESS + "User was not listed as active, but logout processed."

  /**
   * `_send_response(message)`: the UTF-8 encoding with its length as four
   * big-endian bytes in front; None where `to_bytes(4, 'big')` raises
   * OverflowError because the encoding is too long.
   */
  function SendResponse(message: string): (w: Option<Bytes>)
    ensures w.Some? <==> |Utf8.Encode(message)| < TWO_32
  {
    var b := Utf8.Encode(message);
    if |b| < TWO_32 then Some(Framing.Wire(BigEndian, b)) else None
  }

  /**
   * What `run` writes for a reply: `_send_response`'s OverflowError is not a
   * socket error, so it reaches the generic handler, which sends the generic
   * error instead.
   */
  function Written(reply: string): Option<Bytes> {
    var w := SendResponse(reply);
    if w.Some? then w else SendResponse(UNEXPECTED)
  }

  /** The generic error always fits, so every reply is written. */
  lemma UnexpectedFits()
    ensures SendResponse(UNEXPECTED).Some?
  {
    Utf8.EncodeLength(UNEXPECTED);
  }

  /**
   * A client that reads four big-endian length bytes and then that many
   * bytes, and decodes them, gets the message back.
   */
  lemma ResponseRoundTrip(message: string)
    requires |Utf8.Encode(message)| < TWO_32
    ensures var w := SendResponse(message).value;
            && Framing.LoopedHeaderResult([w]) == (|Utf8.Encode(message)|, Some(Utf8.Encode(message)))
            && Utf8.Decode(Framing.LoopedHeaderResult([w]).1.value) == Some(message)
  {
    var b := Utf8.Encode(message);
    var w := SendResponse(message).value;
    AvailableOne(w);
    assert Available([w])[..4 + |b|] == w;
    Framing.LoopedHeaderRoundTrip(b, [w]);
    Utf8.DecodeEncode(message);
  }

  // ---------------------------------------------------------------------------
  // Dispatch
  // ---------------------------------------------------------------------------

  /**
   * The fields `run` takes from the request object. A missing field is the
   * empty string, which every branch treats as the code treats `None`.
   */
  datatype Request = Request(action: string, username: string, password: string, confirmPassword: string)

  /** What `json.loads` makes of the request text. */
  datatype Json = Object(request: Request) | NotAnObject | Malformed

  /**
   * The reply to a decoded request and the set of logged-in users after it,
   * given what verify_user_login would answer (`login`, consulted only for a
   * LOGIN by a user not already in the set) and the message register_user
   * returned (`registered`, used only for REGISTER).
   */
  function Dispatch(req: Request, active: set<string>, login: (bool, string), registered: string): (r: (string, set<string>))
  {
    var u := req.username;
    if req.action == "LOGIN" then
      if u in active then (ERROR + "User '" + u + "' is already logged in.", active)
      else if login.0 then (SUCCESS + login.1, active + {u})
      else (ERROR + login.1, active)
    else if req.action == "REGISTER" then
      (if Contains(registered, "successfully") then SUCCESS + registered else ERROR + registered, active)
    else if req.action == "LOGOUT" then
      (if u in active then LOGGED_OUT else NOT_LISTED, active - {u})
    else (INVALID_ACTION, active)
  }

  /** A LOGIN by a user already logged in is refused and the store's answer is never used. */
  lemma LoginWhenActive(req: Request, active: set<string>, login: (bool, string), other: (bool, string), registered: string)
    requires req.action == "LOGIN" && req.username in active
    ensures Dispatch(req, active, login, registered) == (ERROR + "User '" + req.username + "' is already logged in.", active)
    ensures Dispatch(req, active, login, registered) == Dispatch(req, active, other, registered)
  {
  }

  /**
   * A LOGIN by a user not logged in: the user joins the set exactly when the
   * store accepts; the store's message follows SUCCESS: or ERROR:.
   */
  lemma LoginOutcome(req: Request, active: set<string>, login: (bool, string), registered: string)
    requires req.action == "LOGIN" && req.username !in active
    ensures var (reply, after) := Dispatch(req, active, login, registered);
            && (req.username in after <==> login.0)
            && after - {req.username} == active
            && reply == (if login.0 then SUCCESS else ERROR) + login.1
  {
  }

  /** Logging out always succeeds and leaves the user out of the set. */
  lemma LogoutAlwaysSucceeds(req: Request, active: set<string>, login: (bool, string), registered: string)
    requires req.action == "LOGOUT"
    ensures var (reply, after) := Dispatch(req, active, login, registered);
            && SUCCESS <= reply
            && after == active - {req.username}
  {
    assert LOGGED_OUT[..|SUCCESS|] == SUCCESS && NOT_LISTED[..|SUCCESS|] == SUCCESS;
  }

  /**
   * A REGISTER leaves the set alone and is answered SUCCESS exactly when the
   * registration went through.
   */
  lemma RegisterReply(req: Request, active: set<string>, login: (bool, string), v: Accounts.RegisterVerdict)
    requires req.action == "REGISTER"
    ensures var (reply, after) := Dispatch(req, active, login, Accounts.RegisterMessage(v, req.username));
            && after == active
            && (SUCCESS <= reply <==> v == Accounts.Registered)
  {
    var m := Accounts.RegisterMessage(v, req.username);
    RegisterMessageSuccessfully(v, req.username);
    var reply := Dispatch(req, active, login, m).0;
    if !Contains(m, "successfully") {
      assert reply[0] == 'E';
    }
  }

  /** Any other action is answered "Invalid action" and changes nothing. */
  lemma OtherActionIsInvalid(req: Request, active: set<string>, login: (bool, string), registered: string)
    requires req.action !in {"LOGIN", "REGISTER", "LOGOUT"}
    ensures Dispatch(req, active, login, registered) == (INVALID_ACTION, active)
  {
  }

  /** Only a LOGIN the store accepts adds a name, and never the empty one when the store refuses it. */
  lemma DispatchAdds(req: Request, active: set<string>, login: (bool, string), registered: string)
    requires login.0 ==> req.username != ""
    ensures var after := Dispatch(req, active, login, registered).1;
            && (after - active != {} ==> req.action == "LOGIN" && login.0 && after - active == {req.username})
            && ("" !in active ==> "" !in after)
  {
  }

  // ---------------------------------------------------------------------------
  // The handler
  // ---------------------------------------------------------------------------

  /** The set of logged-in users that every handler shares. */
  class ActiveUsers {
    var names: set<string>

    /** Only names the store accepted get in, and the store refuses the empty name. */
    ghost predicate Valid()
      reads this
    {
      "" !in names
    }

    constructor ()
      ensures Valid() && names == {}
    {
      names := {};
    }
  }

  /**
   * What the store and the set of logged-in users make of a decoded request:
   * the reply and the set afterwards.
   */
  ghost function Answer(req: Request, active: set<string>, db: Accounts.DatabaseManager): (string, set<string>)
    reads db
  {
    var v := Accounts.Register(db.connected, db.users, req.username, req.password, req.confirmPassword);
    Dispatch(req, active, db.VerifyUserLogin(req.username, req.password), Accounts.RegisterMessage(v, req.username))
  }

  /**
   * The action dispatch of `run` on a decoded request. Only REGISTER writes
   * to the store.
   */
  method Serve(req: Request, active: ActiveUsers, db: Accounts.DatabaseManager, salt: Accounts.Salt)
    returns (response: string)
    requires active.Valid() && db.Valid()
    modifies active, db
    ensures active.Valid() && db.Valid()
    ensures (response, active.names) == old(Answer(req, active.names, db))
    ensures req.action != "REGISTER" ==> unchanged(db)
    ensures req.action == "REGISTER" ==>
              && db.connected == old(db.connected) && db.streams == old(db.streams)
              && db.users == old(Accounts.UsersAfterRegister(db.connected, db.users, db.nextId, req.username,
                                                             req.password, req.confirmPassword, salt))
              && db.nextId == old(if Accounts.Register(db.connected, db.users, req.username, req.password,
                                                       req.confirmPassword) == Accounts.Registered
                                  then db.nextId + 1 else db.nextId)
  {
    var username := req.username;
    DispatchAdds(req, active.names, db.VerifyUserLogin(username, req.password),
                 Accounts.RegisterMessage(Accounts.Register(db.connected, db.users, username, req.password,
                                                            req.confirmPassword), username));
    if req.action == "LOGIN" {
      if username in active.names {
        response := ERROR + "User '" + username + "' is already logged in.";
      } else {
        var (success, msg) := db.VerifyUserLogin(username, req.password);
        if success {
          response := SUCCESS + msg;
          active.names := active.names + {username};
        } else {
          response := ERROR + msg;
        }
      }
    } else if req.action == "REGISTER" {
      var message := db.RegisterUser(username, req.password, req.confirmPassword, salt);
      response := if Contains(message, "successfully") then SUCCESS + message else ERROR + message;
    } else if req.action == "LOGOUT" {
      if username in active.names {
        active.names := active.names - {username};
        response := LOGGED_OUT;
      } else {
        assert active.names - {username} == active.names;
        response := NOT_LISTED;
      }
    } else {
      response := INVALID_ACTION;
    }
  }

  /** How `run` proceeds once the request has been read: without a reply, with a fixed one, or to dispatch. */
  datatype Step = Silent | Refuse(message: string) | Handle(request: Request)

  /**
   * No prefix or a close mid-body ends the handler silently; text that is not
   * UTF-8, or JSON that is not an object, gets the generic error (neither is a
   * JSONDecodeError); a JSON syntax error gets "Invalid request format".
   */
  function Interpret(c: Conn, parse: string -> Json): Step {
    match RequestBody(c)
    case None => Silent
    case Some(body) =>
      match Utf8.Decode(body)
      case None => Refuse(UNEXPECTED)
      case Some(text) =>
        match parse(text)
        case Malformed => Refuse(INVALID_FORMAT)
        case NotAnObject => Refuse(UNEXPECTED)
        case Object(req) => Handle(req)
  }

  /** A peer that closes before the prefix, or before the announced body is complete, gets no reply. */
  lemma {:induction false} EarlyCloseIsSilent(c: Conn, parse: string -> Json)
    ensures Closed(c) ==> Interpret(c, parse) == Silent
    ensures !Closed(c) && |Available(c.chunks)| < |Recv(c, 4).0| + BigEndianValue(Recv(c, 4).0) ==>
              Interpret(c, parse) == Silent
  {
    if !Closed(c) {
      var (prefix, rest) := Recv(c, 4);
      assert prefix + Available(rest.chunks) == Available(c.chunks);
    }
  }

  /**
   * ClientHandler.run for one connection: the bytes written back, None when
   * the handler closes without a reply. `parse` stands for `json.loads` and
   * `salt` for what `bcrypt.gensalt()` returns when a REGISTER hashes.
   */
  method Run(c: Conn, active: ActiveUsers, db: Accounts.DatabaseManager, parse: string -> Json, salt: Accounts.Salt)
    returns (sent: Option<Bytes>)
    requires active.Valid() && db.Valid()
    modifies active, db
    ensures active.Valid() && db.Valid()
    ensures Interpret(c, parse).Silent? ==> sent == None && unchanged(active, db)
    ensures Interpret(c, parse).Refuse? ==> sent == SendResponse(Interpret(c, parse).message) && unchanged(active, db)
    ensures Interpret(c, parse).Handle? ==>
              var req := Interpret(c, parse).request;
              && sent == Written(old(Answer(req, active.names, db)).0)
              && active.names == old(Answer(req, active.names, db)).1
              && (req.action != "REGISTER" ==> unchanged(db))
              && (req.action == "REGISTER" ==>
                    && db.connected == old(db.connected) && db.streams == old(db.streams)
                    && db.users == old(Accounts.UsersAfterRegister(db.connected, db.users, db.nextId, req.username,
                                                                   req.password, req.confirmPassword, salt))
                    && db.nextId == old(if Accounts.Register(db.connected, db.users, req.username, req.password,
                                                             req.confirmPassword) == Accounts.Registered
                                        then db.nextId + 1 else db.nextId))
  {
    var body, asks := ReceiveRequest(c);
    if body.None? {
      return None;
    }
    var text := Utf8.Decode(body.value);
    if text.None? {
      assert Interpret(c, parse) == Refuse(UNEXPECTED);
      return SendResponse(UNEXPECTED);
    }
    var json := parse(text.value);
    if json.Malformed? {
      assert Interpret(c, parse) == Refuse(INVALID_FORMAT);
      return SendResponse(INVALID_FORMAT);
    }
    if json.NotAnObject? {
      assert Interpret(c, parse) == Refuse(UNEXPECTED);
      return SendResponse(UNEXPECTED);
    }
    assert Interpret(c, parse) == Handle(json.request);
    var response := Serve(json.request, active, db, salt);
    sent := SendResponse(response);
    if sent.None? {
      sent := SendResponse(UNEXPECTED);
    }
  }
}
