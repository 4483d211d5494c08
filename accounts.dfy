/**
 * The account store (database.py, class DatabaseManager): the `users` and
 * `streams` collections of the MongoDB database, with the registration,
 * login check and stream-record operations the servers call.
 *
 * A collection is the sequence of its documents in insertion order, and
 * `find_one` / `update_one` act on the first document that matches. Whether
 * the connection came up, the salt `bcrypt.gensalt()` draws and the clock
 * reading of `datetime.utcnow()` are parameters.
 */
module Accounts {
  import opened Options
  import opened Bytes
  import Utf8

  // ---------------------------------------------------------------------------
  // Password hashing
  // ---------------------------------------------------------------------------

  type Salt = nat

  /**
   * A bcrypt hash: the salt it was made with and the digest of the password
   * under that salt. The digest is modelled as ideal: different passwords
   * never share one.
   */
  datatype PasswordHash = PasswordHash(salt: Salt, digest: Bytes)

  /** `bcrypt.hashpw(password, salt)` */
  function HashPw(password: Bytes, salt: Salt): PasswordHash {
    PasswordHash(salt, password)
  }

  /** `bcrypt.checkpw(password, hashed)`: hash again with the stored salt and compare. */
  predicate CheckPw(password: Bytes, hashed: PasswordHash) {
    HashPw(password, hashed.salt) == hashed
  }

  /** A password checks against its own hash, whatever the salt, and no other password does. */
  lemma CheckPwOfHashPw(password: Bytes, other: Bytes, salt: Salt)
    ensures CheckPw(password, HashPw(password, salt))
    ensures CheckPw(other, HashPw(password, salt)) <==> other == password
  {
  }

  // ---------------------------------------------------------------------------
  // Documents
  // ---------------------------------------------------------------------------

  /** A document's `_id`; the store hands them out in increasing order. */
  type ObjectId = nat

  datatype UserDoc = UserDoc(id: ObjectId, username: string, passwordHash: PasswordHash)

  const ACTIVE := "active"
  const INACTIVE := "inactive"

  /** A document of `streams`; `endTime` is absent until the stream is set inactive. */
  datatype StreamDoc = StreamDoc(streamId: string, hostUserId: ObjectId, hostUsername: string,
                                 status: string, startTime: int, viewerCount: nat, endTime: Option<int>)

  /** `users.find_one({"username": username})` */
  function FindUser(users: seq<UserDoc>, username: string): (r: Option<UserDoc>)
    ensures r.Some? ==> r.value in users && r.value.username == username
    ensures r.None? <==> forall i :: 0 <= i < |users| ==> users[i].username != username
  {
    if users == [] then None
    else if users[0].username == username then Some(users[0])
    else FindUser(users[1..], username)
  }

  /** The position of the first stream record with this id. */
  function FindStream(streams: seq<StreamDoc>, streamId: string): (r: Option<nat>)
    ensures r.Some? ==> r.value < |streams| && streams[r.value].streamId == streamId
    ensures r.Some? ==> forall i :: 0 <= i < r.value ==> streams[i].streamId != streamId
    ensures r.None? <==> forall i :: 0 <= i < |streams| ==> streams[i].streamId != streamId
  {
    if streams == [] then None
    else if streams[0].streamId == streamId then Some(0)
    else match FindStream(streams[1..], streamId)
      case None => None
      case Some(i) => Some(i + 1)
  }

  predicate UniqueUsernames(users: seq<UserDoc>) {
    forall i, j :: 0 <= i < j < |users| ==> users[i].username != users[j].username
  }

  predicate UniqueStreamIds(streams: seq<StreamDoc>) {
    forall i, j :: 0 <= i < j < |streams| ==> streams[i].streamId != streams[j].streamId
  }

  /** Adding a user whose name is not taken keeps names unique, and the new user is found by name. */
  lemma {:induction false} AddUserKeepsUnique(users: seq<UserDoc>, doc: UserDoc)
    requires UniqueUsernames(users) && FindUser(users, doc.username).None?
    ensures UniqueUsernames(users + [doc])
    ensures FindUser(users + [doc], doc.username) == Some(doc)
    ensures forall u :: u != doc.username ==> FindUser(users + [doc], u) == FindUser(users, u)
  {
    FindUserAppend(users, doc);
  }

  lemma {:induction false} FindUserAppend(users: seq<UserDoc>, doc: UserDoc)
    ensures forall u :: FindUser(users + [doc], u) ==
              (if FindUser(users, u).Some? then FindUser(users, u) else if doc.username == u then Some(doc) else None)
  {
    if users != [] {
      assert (users + [doc])[0] == users[0] && (users + [doc])[1..] == users[1..] + [doc];
      FindUserAppend(users[1..], doc);
    } else {
      assert ([] + [doc])[1..] == [];
    }
  }

  /**
   * The upsert of create_stream_record: `update_one({"stream_id": id},
   * {"$set": fields}, upsert=True)` rewrites the fields it names on the first
   * record of that id, keeping its end time, or else appends a new record.
   */
  function Upsert(streams: seq<StreamDoc>, streamId: string, hostUserId: ObjectId, hostUsername: string,
                  now: int): (r: seq<StreamDoc>)
    ensures |r| == if FindStream(streams, streamId).Some? then |streams| else |streams| + 1
    ensures FindStream(r, streamId).Some?
    ensures var d := r[FindStream(r, streamId).value];
            && d.hostUserId == hostUserId && d.hostUsername == hostUsername
            && d.status == ACTIVE && d.startTime == now && d.viewerCount == 0
            && d.endTime == match FindStream(streams, streamId)
                            case Some(i) => streams[i].endTime
                            case None => None
    ensures forall i :: 0 <= i < |streams| && streams[i].streamId != streamId ==> r[i] == streams[i]
    ensures UniqueStreamIds(streams) ==> UniqueStreamIds(r)
  {
    match FindStream(streams, streamId)
    case Some(i) =>
      var r := streams[i := streams[i].(hostUserId := hostUserId, hostUsername := hostUsername,
                                        status := ACTIVE, startTime := now, viewerCount := 0)];
      assert forall j :: 0 <= j < i ==> r[j].streamId != streamId;
      FindStreamAt(r, streamId, i);
      r
    case None =>
      var r := streams + [StreamDoc(streamId, hostUserId, hostUsername, ACTIVE, now, 0, None)];
      FindStreamAt(r, streamId, |streams|);
      r
  }

  /** The record found for an id is the first with that id. */
  lemma FindStreamAt(streams: seq<StreamDoc>, streamId: string, i: nat)
    requires i < |streams| && streams[i].streamId == streamId
    requires forall j :: 0 <= j < i ==> streams[j].streamId != streamId
    ensures FindStream(streams, streamId) == Some(i)
  {
    var r := FindStream(streams, streamId);
    assert r.Some?;
    assert !(r.value < i) && !(r.value > i);
  }

  /**
   * Creating the same stream record again adds no record: the later call's
   * fields replace the earlier one's.
   */
  lemma {:induction false} UpsertTwice(streams: seq<StreamDoc>, streamId: string, hostUserId: ObjectId,
                                       hostUsername: string, now: int, hostUserId': ObjectId,
                                       hostUsername': string, now': int)
    ensures Upsert(Upsert(streams, streamId, hostUserId, hostUsername, now), streamId, hostUserId', hostUsername', now')
         == Upsert(streams, streamId, hostUserId', hostUsername', now')
  {
    var once := Upsert(streams, streamId, hostUserId, hostUsername, now);
    match FindStream(streams, streamId)
    case Some(i) =>
      var d := streams[i].(hostUserId := hostUserId', hostUsername := hostUsername',
                           status := ACTIVE, startTime := now', viewerCount := 0);
      assert forall j :: 0 <= j < i ==> once[j].streamId != streamId;
      FindStreamAt(once, streamId, i);
      assert once[i].(hostUserId := hostUserId', hostUsername := hostUsername',
                      status := ACTIVE, startTime := now', viewerCount := 0) == d;
      UpdateTwice(streams, i, once[i], d);
    case None =>
      FindStreamAt(once, streamId, |streams|);
      assert once[..|streams|] == streams;
  }

  lemma UpdateTwice<T>(s: seq<T>, i: nat, x: T, y: T)
    requires i < |s|
    ensures s[i := x][i := y] == s[i := y]
  {
  }

  // ---------------------------------------------------------------------------
  // The registration cascade
  // ---------------------------------------------------------------------------

  /** How a registration attempt ends. */
  datatype RegisterVerdict = NotConnected | FieldsMissing | Mismatch | UsernameTaken | Registered

  /**
   * The checks of register_user in their order: connection, non-empty
   * username and password, matching confirmation, free username. A missing
   * field is the empty string here; the code treats `None` and `""` alike.
   */
  function Register(connected: bool, users: seq<UserDoc>, username: string, password: string,
                    verify: string): RegisterVerdict
  {
    if !connected then NotConnected
    else if username == "" || password == "" then FieldsMissing
    else if password != verify then Mismatch
    else if FindUser(users, username).Some? then UsernameTaken
    else Registered
  }

  /** The users collection after a registration attempt: one document more exactly on success. */
  function UsersAfterRegister(connected: bool, users: seq<UserDoc>, nextId: ObjectId, username: string,
                              password: string, verify: string, salt: Salt): seq<UserDoc>
  {
    if Register(connected, users, username, password, verify) == Registered
    then users + [UserDoc(nextId, username, HashPw(Utf8.Encode(password), salt))]
    else users
  }

  /** The message register_user returns for each verdict. */
  function RegisterMessage(v: RegisterVerdict, username: string): string {
    match v
    case NotConnected => "Error: Database connection failed!"
    case FieldsMissing => "Username and password are required."
    case Mismatch => "Passwords do not match!"
    case UsernameTaken => "Username already exists!"
    case Registered => "User " + username + " registered successfully!"
  }

  /**
   * The cascade decides in order: each verdict holds exactly when its own
   * check fails and every earlier one passed; registration succeeds exactly
   * when all pass.
   */
  lemma RegisterOrder(connected: bool, users: seq<UserDoc>, username: string, password: string, verify: string)
    ensures var v := Register(connected, users, username, password, verify);
            && (v == NotConnected <==> !connected)
            && (v == FieldsMissing <==> connected && (username == "" || password == ""))
            && (v == Mismatch <==> connected && username != "" && password != "" && password != verify)
            && (v == UsernameTaken <==> connected && username != "" && password != "" && password == verify
                                        && FindUser(users, username).Some?)
            && (v == Registered <==> connected && username != "" && password != "" && password == verify
                                     && FindUser(users, username).None?)
  {
  }

  // ---------------------------------------------------------------------------
  // The login check
  // ---------------------------------------------------------------------------

  const LOGIN_OK := "Login successful!"
  const LOGIN_BAD := "Invalid username or password!"

  /** What verify_user_login returns against the given connection state and users. */
  function Login(connected: bool, users: seq<UserDoc>, username: string, password: string): (r: (bool, string))
    ensures r.0 <==> connected && username != "" && password != "" && FindUser(users, username).Some?
                     && CheckPw(Utf8.Encode(password), FindUser(users, username).value.passwordHash)
    ensures !connected ==> r == (false, "Error: Database connection failed!")
    ensures connected && (username == "" || password == "") ==> r == (false, "Username and password are required.")
    ensures connected && username != "" && password != "" ==> r.1 == (if r.0 then LOGIN_OK else LOGIN_BAD)
  {
    if !connected then (false, "Error: Database connection failed!")
    else if username == "" || password == "" then (false, "Username and password are required.")
    else
      var user := FindUser(users, username);
      if user.Some? && CheckPw(Utf8.Encode(password), user.value.passwordHash) then (true, LOGIN_OK)
      else (false, LOGIN_BAD)
  }

  /**
   * Registering and then logging in: the new user gets in with the password
   * it registered and with no other.
   */
  lemma {:induction false} RegisteredUserCanLogIn(users: seq<UserDoc>, username: string, password: string,
                                                  other: string, salt: Salt, id: ObjectId)
    requires Register(true, users, username, password, password) == Registered
    ensures var users' := users + [UserDoc(id, username, HashPw(Utf8.Encode(password), salt))];
            && Login(true, users', username, password) == (true, LOGIN_OK)
            && (Login(true, users', username, other).0 <==> other == password)
  {
    var doc := UserDoc(id, username, HashPw(Utf8.Encode(password), salt));
    FindUserAppend(users, doc);
    if Utf8.Encode(other) == Utf8.Encode(password) {
      Utf8.DecodeEncode(other);
      Utf8.DecodeEncode(password);
    }
  }

  // ---------------------------------------------------------------------------
  // The store
  // ---------------------------------------------------------------------------

  class DatabaseManager {
    var connected: bool
    var users: seq<UserDoc>
    var streams: seq<StreamDoc>
    /** The `_id` the next inserted document gets. */
    var nextId: ObjectId

    ghost predicate Valid()
      reads this
    {
      && UniqueUsernames(users)
      && UniqueStreamIds(streams)
      && forall i :: 0 <= i < |users| ==> users[i].id < nextId
    }

    /**
     * `__init__`: attach to the stored `users` and `streams` collections as
     * they are; `connected` says whether the server answered. Stored
     * usernames are unique (the unique index on `username`), and stored
     * stream ids are unique because records are only ever created by the
     * upsert on `stream_id`.
     */
    constructor (connected: bool, users: seq<UserDoc>, streams: seq<StreamDoc>, nextId: ObjectId)
      requires UniqueUsernames(users) && UniqueStreamIds(streams)
      requires forall i :: 0 <= i < |users| ==> users[i].id < nextId
      ensures Valid()
      ensures this.connected == connected && this.users == users && this.streams == streams
      ensures this.nextId == nextId
    {
      this.connected := connected;
      this.users, this.streams, this.nextId := users, streams, nextId;
    }

    /** register_user; `salt` is what `bcrypt.gensalt()` returns. */
    method RegisterUser(username: string, password: string, verify: string, salt: Salt) returns (message: string)
      requires Valid()
      modifies this
      ensures Valid()
      ensures var v := Register(old(connected), old(users), username, password, verify);
              && message == RegisterMessage(v, username)
              && users == UsersAfterRegister(old(connected), old(users), old(nextId), username, password, verify, salt)
              && nextId == (if v == Registered then old(nextId) + 1 else old(nextId))
      ensures connected == old(connected) && streams == old(streams)
    {
      if !connected {
        return "Error: Database connection failed!";
      }
      if username == "" || password == "" {
        return "Username and password are required.";
      }
      if password != verify {
        return "Passwords do not match!";
      }
      if FindUser(users, username).Some? {
        return "Username already exists!";
      }
      InsertUser(UserDoc(nextId, username, HashPw(Utf8.Encode(password), salt)));
      message := "User " + username + " registered successfully!";
    }

    /** `users.insert_one(doc)` for a user whose name is free; the document gets the next `_id`. */
    method InsertUser(doc: UserDoc)
      requires Valid() && FindUser(users, doc.username).None? && doc.id == nextId
      modifies this
      ensures Valid()
      ensures users == old(users) + [doc] && nextId == old(nextId) + 1
      ensures connected == old(connected) && streams == old(streams)
    {
      AddUserKeepsUnique(users, doc);
      users := users + [doc];
      nextId := nextId + 1;
    }

    /** verify_user_login */
    function VerifyUserLogin(username: string, password: string): (r: (bool, string))
      reads this
      ensures r == Login(connected, users, username, password)
      ensures r.0 ==> username != ""
    {
      Login(connected, users, username, password)
    }

    /**
     * create_stream_record: `update_one({"stream_id": ...}, {"$set": ...},
     * upsert=True)`, which rewrites the first record of that id, keeping
     * fields the `$set` does not name, or adds one if there is none.
     */
    method CreateStreamRecord(hostUsername: string, streamId: string, now: int) returns (ok: bool, message: string)
      requires Valid()
      modifies this
      ensures Valid()
      ensures connected == old(connected) && users == old(users) && nextId == old(nextId)
      ensures !old(connected) ==> !ok && message == "Database connection failed!" && streams == old(streams)
      ensures old(connected) && FindUser(users, hostUsername).None? ==>
                !ok && message == "Host user not found!" && streams == old(streams)
      ensures old(connected) && FindUser(users, hostUsername).Some? ==>
                && ok && message == "Stream record updated."
                && streams == Upsert(old(streams), streamId, FindUser(users, hostUsername).value.id, hostUsername, now)
    {
      if !connected {
        return false, "Database connection failed!";
      }
      var user := FindUser(users, hostUsername);
      if user.None? {
        return false, "Host user not found!";
      }
      streams := Upsert(streams, streamId, user.value.id, hostUsername, now);
      ok, message := true, "Stream record updated.";
    }

    /**
     * set_stream_inactive: `$set` status "inactive" and the end time on the
     * first record of that id; the result is whether that changed the record.
     */
    method SetStreamInactive(streamId: string, now: int) returns (modified: bool)
      requires Valid()
      modifies this
      ensures Valid()
      ensures connected == old(connected) && users == old(users) && nextId == old(nextId)
      ensures !old(connected) || FindStream(old(streams), streamId).None? ==> !modified && streams == old(streams)
      ensures old(connected) && FindStream(old(streams), streamId).Some? ==>
                var i := FindStream(old(streams), streamId).value;
                var doc := old(streams)[i].(status := INACTIVE, endTime := Some(now));
                && streams == old(streams)[i := doc]
                && (modified <==> doc != old(streams)[i])
    {
      if !connected {
        return false;
      }
      match FindStream(streams, streamId)
      case None =>
        modified := false;
      case Some(i) =>
        var doc := streams[i].(status := INACTIVE, endTime := Some(now));
        modified := doc != streams[i];
        streams := streams[i := doc];
    }
  }
}
