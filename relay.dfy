/**
 * The relay server (server.py, class StreamServer): it pairs the video and
 * audio connections of each client by the 36-character id the client sends
 * first, negotiates the client's role, keeps the registry of active streams
 * and fans every host frame out to the stream's viewers.
 *
 * Sockets are opaque handles. What a socket delivers (the id, the decoded
 * handshake, a host's frames) and whether a send to it succeeds are
 * parameters; what the server closes is returned as a set. The stream lock
 * is modelled as atomicity: every method runs start to finish on its own.
 */
module Relay {
  import opened Options
  import opened Bytes
  import Utf8
  import Framing

  type Sock = nat
  type ClientId = string

  const ID_LENGTH: nat := 36

  datatype Kind = Video | Audio

  /** A client's two connections. */
  datatype Channels = Channels(video: Sock, audio: Sock) {
    function Of(kind: Kind): Sock {
      match kind
      case Video => video
      case Audio => audio
    }
  }

  datatype HostRecord = HostRecord(id: ClientId, video: Sock, audio: Sock)

  /** An entry of `active_streams`: its host and its viewers by client id. */
  datatype Stream = Stream(host: HostRecord, viewers: map<ClientId, Channels>)

  /**
   * The handshake message once decoded: `{"action": "HOST"}`,
   * `{"action": "VIEWER", "stream_id": ...}` (the id may be missing), or
   * anything that makes role assignment raise: another action, bytes that are
   * not JSON, a read that timed out.
   */
  datatype Intent = HostIntent | ViewerIntent(streamId: Option<string>) | Unusable

  /** What the server writes back on the video connection. */
  datatype Reply = NoReply | HostOk(streamId: string) | ViewerOk | Error(message: string)

  const STREAM_NOT_FOUND := "Stream not found"

  /** One pass of the fan-out: the frame as written, who got it, who was dropped. */
  datatype Delivery = Delivery(wire: Bytes, delivered: set<ClientId>, dropped: set<ClientId>)

  // ---------------------------------------------------------------------------
  // Identifiers
  // ---------------------------------------------------------------------------

  /**
   * The client id read by `sock.recv(36).decode("utf-8")`: None when the read
   * failed or timed out, the bytes are not UTF-8, or the text is not exactly
   * 36 characters long.
   */
  function ParseClientId(received: Option<Bytes>): (id: Option<ClientId>)
    ensures id.Some? ==> |id.value| == ID_LENGTH
  {
    if received.None? then None
    else
      match Utf8.Decode(received.value)
      case None => None
      case Some(text) => if |text| == ID_LENGTH then Some(text) else None
  }

  /**
   * Since one receive returns at most 36 bytes, an accepted id is exactly 36
   * ASCII bytes, read character for character; and every such read is accepted.
   */
  lemma AcceptedIdIsAscii(b: Bytes)
    requires |b| <= ID_LENGTH
    ensures ParseClientId(Some(b)).Some? <==> |b| == ID_LENGTH && Utf8.IsAscii(b)
    ensures ParseClientId(Some(b)).Some? ==>
              forall i :: 0 <= i < |b| ==> ParseClientId(Some(b)).value[i] as int == b[i]
  {
    if Utf8.Decode(b).Some? {
      Utf8.DecodeLength(b);
    }
    if |b| == ID_LENGTH && Utf8.IsAscii(b) {
      Utf8.DecodeAscii(b);
    }
  }

  /** `f"stream_{client_id[:8]}"` */
  function StreamIdOf(clientId: ClientId): string
    requires |clientId| >= 8
  {
    "stream_" + clientId[..8]
  }

  /**
   * Two hosts get the same stream id exactly when their ids share the first
   * eight characters.
   */
  lemma StreamIdCollides(a: ClientId, b: ClientId)
    requires |a| >= 8 && |b| >= 8
    ensures StreamIdOf(a) == StreamIdOf(b) <==> a[..8] == b[..8]
  {
    var p := "stream_";
    assert |p| == 7;
    assert StreamIdOf(a)[7..] == a[..8] && StreamIdOf(b)[7..] == b[..8];
  }

  lemma StreamIdExample()
    ensures StreamIdOf("11111111-1111-1111-1111-111111111111") == "stream_11111111"
  {
    var id := "11111111-1111-1111-1111-111111111111";
    assert id[..8] == "11111111";
  }

  // ---------------------------------------------------------------------------
  // Registry shapes
  // ---------------------------------------------------------------------------

  /** A pending entry holds one connection: one with both has already been promoted. */
  predicate PendingOk(entry: map<Kind, Sock>) {
    entry != map[] && !(Video in entry && Audio in entry)
  }

  predicate StreamOk(streamId: string, s: Stream) {
    && |s.host.id| == ID_LENGTH
    && streamId == StreamIdOf(s.host.id)
    && forall v :: v in s.viewers ==> |v| == ID_LENGTH
  }

  predicate PendingPairsOk(pending: map<ClientId, map<Kind, Sock>>) {
    forall id :: id in pending ==> |id| == ID_LENGTH && PendingOk(pending[id])
  }

  lemma PendingPairsUpdateOk(pending: map<ClientId, map<Kind, Sock>>, id: ClientId, entry: map<Kind, Sock>)
    requires PendingPairsOk(pending) && |id| == ID_LENGTH && PendingOk(entry)
    ensures PendingPairsOk(pending[id := entry])
  {
  }

  predicate StreamsOk(streams: map<string, Stream>) {
    forall sid :: sid in streams ==> StreamOk(sid, streams[sid])
  }

  lemma StreamsOkWithout(streams: map<string, Stream>, ids: set<string>)
    requires StreamsOk(streams)
    ensures StreamsOk(streams - ids)
  {
  }

  /** Dropping viewers keeps a registry well formed. */
  lemma DropViewersOk(streams: map<string, Stream>, sid: string, gone: set<ClientId>)
    requires StreamsOk(streams) && sid in streams
    ensures StreamsOk(streams[sid := streams[sid].(viewers := streams[sid].viewers - gone)])
  {
  }

  function ViewerSockets(viewers: map<ClientId, Channels>): set<Sock> {
    (set v | v in viewers :: viewers[v].video) + (set v | v in viewers :: viewers[v].audio)
  }

  /** Every socket a stream owns: the host's two and each viewer's two. */
  function StreamSockets(s: Stream): set<Sock> {
    {s.host.video, s.host.audio} + ViewerSockets(s.viewers)
  }

  function AllStreamSockets(streams: map<string, Stream>): set<Sock> {
    set sid, sock | sid in streams && sock in StreamSockets(streams[sid]) :: sock
  }

  /**
   * What `_assign_client_role` does to `active_streams` and what it answers,
   * given the decoded intent and whether the reply could be sent.
   */
  ghost predicate RoleAssigned(before: map<string, Stream>, after: map<string, Stream>,
                               id: ClientId, video: Sock, audio: Sock, intent: Intent, sent: bool,
                               reply: Reply, closedNow: set<Sock>, relay: Option<string>)
    requires |id| == ID_LENGTH
  {
    match intent
    case HostIntent =>
      var sid := StreamIdOf(id);
      // the stream is registered, replacing any stream of that id, before the reply is sent
      && after == before[sid := Stream(HostRecord(id, video, audio), map[])]
      && reply == HostOk(sid)
      && (if sent then closedNow == {} && relay == Some(sid)
          else closedNow == {video, audio} && relay == None)
    case ViewerIntent(sid) =>
      && relay == None
      && if sid.Some? && sid.value in before then
           && after == before[sid.value := before[sid.value].(viewers := before[sid.value].viewers[id := Channels(video, audio)])]
           && reply == ViewerOk
           && closedNow == (if sent then {} else {video, audio})
         else
           && after == before
           && reply == Error(STREAM_NOT_FOUND)
           && closedNow == {video, audio}
    case Unusable =>
      after == before && reply == NoReply && closedNow == {video, audio} && relay == None
  }

  /** The viewers left once the drops of `log` have been applied in turn. */
  function ViewersAfter(viewers: map<ClientId, Channels>, log: seq<Delivery>): map<ClientId, Channels>
    decreases |log|
  {
    if log == [] then viewers else ViewersAfter(viewers - log[0].dropped, log[1..])
  }

  /**
   * `log` is what successive fan-out passes do to `viewers`, pass `start + i`
   * being log[i]: each viewer then attached either gets the frame or, when
   * its send fails, is dropped before the next pass.
   */
  ghost predicate RelayedFrom(viewers: map<ClientId, Channels>, kind: Kind,
                              sendOk: (nat, Sock) -> bool, start: nat, log: seq<Delivery>)
    decreases |log|
  {
    log == [] ||
    (PassOf(viewers, kind, sendOk, start, log[0])
     && RelayedFrom(viewers - log[0].dropped, kind, sendOk, start + 1, log[1..]))
  }

  /** `d` is pass `pass` over `viewers`: who got the frame and who was dropped. */
  ghost predicate PassOf(viewers: map<ClientId, Channels>, kind: Kind, sendOk: (nat, Sock) -> bool,
                         pass: nat, d: Delivery)
  {
    && (forall v :: v in d.delivered <==> v in viewers && sendOk(pass, viewers[v].Of(kind)))
    && (forall v :: v in d.dropped <==> v in viewers && !sendOk(pass, viewers[v].Of(kind)))
  }

  // ---------------------------------------------------------------------------
  // The fan-out of one frame
  // ---------------------------------------------------------------------------

  /**
   * The `for vid, v_info in ...viewers.items()` loop of broadcast_media: send
   * to every viewer's connection of `kind`; a failed send only puts that
   * viewer on the removal list and the loop goes on.
   */
  method FanOut(viewers: map<ClientId, Channels>, kind: Kind, sendOk: Sock -> bool)
    returns (delivered: set<ClientId>, failed: seq<ClientId>)
    ensures forall v :: v in delivered <==> v in viewers && sendOk(viewers[v].Of(kind))
    ensures forall v :: v in failed <==> v in viewers && !sendOk(viewers[v].Of(kind))
  {
    var todo := viewers.Keys;
    delivered, failed := {}, [];
    while todo != {}
      invariant todo <= viewers.Keys
      invariant forall v :: v in delivered <==> v in viewers && v !in todo && sendOk(viewers[v].Of(kind))
      invariant forall v :: v in failed <==> v in viewers && v !in todo && !sendOk(viewers[v].Of(kind))
      decreases |todo|
    {
      var v :| v in todo;
      if sendOk(viewers[v].Of(kind)) {
        delivered := delivered + {v};
      } else {
        failed := failed + [v];
      }
      todo := todo - {v};
    }
  }

  /** The closing loops of cleanup_stream: the host's two sockets, then each viewer's two. */
  method CloseStreamSockets(s: Stream) returns (closedNow: set<Sock>)
    ensures closedNow == StreamSockets(s)
  {
    closedNow := {s.host.video, s.host.audio};
    var todo := s.viewers.Keys;
    while todo != {}
      invariant todo <= s.viewers.Keys
      invariant closedNow == {s.host.video, s.host.audio} + ViewerSockets(s.viewers - todo)
      decreases |todo|
    {
      var v :| v in todo;
      ViewerSocketsAdd(s.viewers, todo, v);
      closedNow := closedNow + {s.viewers[v].video, s.viewers[v].audio};
      todo := todo - {v};
    }
    assert s.viewers - {} == s.viewers;
  }

  // ---------------------------------------------------------------------------
  // Properties of the relay
  // ---------------------------------------------------------------------------

  lemma {:induction false} RelayedFromExtend(viewers: map<ClientId, Channels>, kind: Kind,
                                             sendOk: (nat, Sock) -> bool, start: nat,
                                             log: seq<Delivery>, now: map<ClientId, Channels>, pass: nat, d: Delivery)
    requires RelayedFrom(viewers, kind, sendOk, start, log)
    requires now == ViewersAfter(viewers, log) && pass == start + |log|
    requires PassOf(now, kind, sendOk, pass, d)
    ensures RelayedFrom(viewers, kind, sendOk, start, log + [d])
    ensures ViewersAfter(viewers, log + [d]) == ViewersAfter(viewers, log) - d.dropped
    decreases |log|
  {
    if log == [] {
      assert [d][1..] == [];
    } else {
      assert (log + [d])[0] == log[0] && (log + [d])[1..] == log[1..] + [d];
      RelayedFromExtend(viewers - log[0].dropped, kind, sendOk, start + 1, log[1..], now, pass, d);
    }
  }

  /** Fault isolation: a viewer whose sends never fail gets every frame of the log. */
  lemma {:induction false} HealthyViewerGetsEveryFrame(viewers: map<ClientId, Channels>, kind: Kind,
                                                      sendOk: (nat, Sock) -> bool, start: nat,
                                                      log: seq<Delivery>, v: ClientId)
    requires RelayedFrom(viewers, kind, sendOk, start, log)
    requires v in viewers
    requires forall i :: start <= i < start + |log| ==> sendOk(i, viewers[v].Of(kind))
    ensures forall i :: 0 <= i < |log| ==> v in log[i].delivered && v !in log[i].dropped
    decreases |log|
  {
    if log != [] {
      HealthyViewerGetsEveryFrame(viewers - log[0].dropped, kind, sendOk, start + 1, log[1..], v);
      forall i | 0 <= i < |log| ensures v in log[i].delivered && v !in log[i].dropped {
        if i > 0 { assert log[i] == log[1..][i - 1]; }
      }
    }
  }

  /** A viewer dropped at pass k gets no later frame and is not dropped again. */
  lemma {:induction false} DroppedViewerIsGone(viewers: map<ClientId, Channels>, kind: Kind,
                                               sendOk: (nat, Sock) -> bool, start: nat,
                                               log: seq<Delivery>, k: nat, v: ClientId)
    requires RelayedFrom(viewers, kind, sendOk, start, log)
    requires k < |log| && v in log[k].dropped
    ensures v !in log[k].delivered
    ensures forall j :: k < j < |log| ==> v !in log[j].delivered && v !in log[j].dropped
    decreases |log|
  {
    if k == 0 {
      AbsentStaysAbsent(viewers - log[0].dropped, kind, sendOk, start + 1, log[1..], v);
      forall j | 0 < j < |log| ensures v !in log[j].delivered && v !in log[j].dropped {
        assert log[j] == log[1..][j - 1];
      }
    } else {
      DroppedViewerIsGone(viewers - log[0].dropped, kind, sendOk, start + 1, log[1..], k - 1, v);
      forall j | k < j < |log| ensures v !in log[j].delivered && v !in log[j].dropped {
        assert log[j] == log[1..][j - 1];
      }
      assert log[k] == log[1..][k - 1];
    }
  }

  lemma {:induction false} AbsentStaysAbsent(viewers: map<ClientId, Channels>, kind: Kind,
                                             sendOk: (nat, Sock) -> bool, start: nat,
                                             log: seq<Delivery>, v: ClientId)
    requires RelayedFrom(viewers, kind, sendOk, start, log)
    requires v !in viewers
    ensures forall j :: 0 <= j < |log| ==> v !in log[j].delivered && v !in log[j].dropped
    decreases |log|
  {
    if log != [] {
      AbsentStaysAbsent(viewers - log[0].dropped, kind, sendOk, start + 1, log[1..], v);
      forall j | 0 <= j < |log| ensures v !in log[j].delivered && v !in log[j].dropped {
        if j > 0 { assert log[j] == log[1..][j - 1]; }
      }
    }
  }

  lemma UpdateTwice<K, V>(m: map<K, V>, k: K, a: V, b: V)
    ensures m[k := a][k := b] == m[k := b]
  {
  }

  lemma UpdateThenRemove<K, V>(m: map<K, V>, k: K, v: V)
    ensures m[k := v] - {k} == m - {k}
  {
  }

  /** log[i] wrote the frame seen[i]. */
  ghost predicate WiresOf(native: ByteOrder, log: seq<Delivery>, seen: seq<Bytes>) {
    && |seen| == |log|
    && forall i :: 0 <= i < |log| ==> |seen[i]| < TWO_32 && log[i].wire == Framing.Wire(native, seen[i])
  }

  lemma WiresExtend(native: ByteOrder, log: seq<Delivery>, seen: seq<Bytes>, d: Delivery, p: Bytes)
    requires WiresOf(native, log, seen) && |p| < TWO_32 && d.wire == Framing.Wire(native, p)
    ensures WiresOf(native, log + [d], seen + [p])
  {
  }

  /** The frames, as written, that viewer `v` receives over the passes of `log`. */
  function ReceivedBy(v: ClientId, log: seq<Delivery>): seq<Bytes> {
    if log == [] then []
    else (if v in log[0].delivered then [log[0].wire] else []) + ReceivedBy(v, log[1..])
  }

  /**
   * Order preservation: when the passes relay the host's frames `ps` in turn,
   * a viewer whose sends never fail receives exactly those frames, in order,
   * and decodes them back to `ps` with protocol_recv.receive_data.
   */
  lemma {:induction false} HealthyViewerReceivesHostFrames(viewers: map<ClientId, Channels>, kind: Kind,
                                                          sendOk: (nat, Sock) -> bool, native: ByteOrder,
                                                          log: seq<Delivery>, ps: seq<Bytes>, v: ClientId)
    requires forall i :: 0 <= i < |ps| ==> |ps[i]| < TWO_32
    requires |log| == |ps| && forall i :: 0 <= i < |log| ==> log[i].wire == Framing.Wire(native, ps[i])
    requires RelayedFrom(viewers, kind, sendOk, 0, log)
    requires v in viewers && forall i :: 0 <= i < |log| ==> sendOk(i, viewers[v].Of(kind))
    ensures ReceivedBy(v, log) == Framing.WireAll(native, ps)
    ensures Framing.SingleHeaderFrames(ReceivedBy(v, log), native) == ps
  {
    HealthyViewerGetsEveryFrame(viewers, kind, sendOk, 0, log, v);
    AllDeliveredReceived(v, log, native, ps);
    Framing.SingleHeaderFramesRoundTrip(native, ps);
  }

  lemma {:induction false} AllDeliveredReceived(v: ClientId, log: seq<Delivery>, native: ByteOrder, ps: seq<Bytes>)
    requires forall i :: 0 <= i < |ps| ==> |ps[i]| < TWO_32
    requires |log| == |ps| && forall i :: 0 <= i < |log| ==> log[i].wire == Framing.Wire(native, ps[i])
    requires forall i :: 0 <= i < |log| ==> v in log[i].delivered
    ensures ReceivedBy(v, log) == Framing.WireAll(native, ps)
  {
    if log != [] {
      forall i | 0 <= i < |log| - 1 ensures log[1..][i].wire == Framing.Wire(native, ps[1..][i]) && v in log[1..][i].delivered {
        assert log[1..][i] == log[i + 1] && ps[1..][i] == ps[i + 1];
      }
      AllDeliveredReceived(v, log[1..], native, ps[1..]);
    }
  }

  // ---------------------------------------------------------------------------
  // The shutdown as written
  // ---------------------------------------------------------------------------

  /** A `threading.Lock`: not re-entrant, so even its holder waits when it acquires it again. */
  datatype LockState = Free | Held

  /** Acquiring the lock; None when the caller would wait forever (it already holds it). */
  function Acquire(l: LockState): Option<LockState> {
    if l == Free then Some(Held) else None
  }

  datatype ShutdownOutcome = Completed | Deadlocked

  /**
   * `shutdown` as written: it takes `stream_lock` and, still holding it, calls
   * `cleanup_stream` for each active stream, whose first step takes
   * `stream_lock` again.
   */
  function ShutdownAsWritten(activeIds: seq<string>): ShutdownOutcome {
    match Acquire(Free)
    case None => Deadlocked
    case Some(held) => CleanupsUnder(held, activeIds)
  }

  function CleanupsUnder(l: LockState, ids: seq<string>): ShutdownOutcome
    decreases |ids|
  {
    if ids == [] then Completed
    else match Acquire(l)
      case None => Deadlocked
      case Some(inner) => CleanupsUnder(l, ids[1..])  // `with` releases on exit, back to l
  }

  /** With any stream active, shutdown as written never finishes. */
  lemma ShutdownAsWrittenDeadlocks(activeIds: seq<string>)
    ensures ShutdownAsWritten(activeIds) == Deadlocked <==> activeIds != []
  {
  }

  // ---------------------------------------------------------------------------
  // The server
  // ---------------------------------------------------------------------------

  class StreamServer {
    /** client id -> {kind -> socket} */
    var pendingPairs: map<ClientId, map<Kind, Sock>>
    /** stream id -> {host, viewers} */
    var activeStreams: map<string, Stream>
    var serverRunning: bool
    /** The byte order of `struct.pack("I", ...)` on the server's platform. */
    const native: ByteOrder

    ghost predicate Valid()
      reads this
    {
      PendingPairsOk(pendingPairs) && StreamsOk(activeStreams)
    }

    constructor (native: ByteOrder)
      ensures Valid()
      ensures pendingPairs == map[] && activeStreams == map[] && serverRunning
      ensures this.native == native
    {
      this.native := native;
      pendingPairs := map[];
      activeStreams := map[];
      serverRunning := true;
    }

    /**
     * handle_incoming_connection: read the id, file the connection under it,
     * and once both kinds are there take the pair out and assign its role.
     */
    method HandleIncomingConnection(sock: Sock, kind: Kind, received: Option<Bytes>, intent: Intent, sent: bool)
      returns (reply: Reply, closedNow: set<Sock>, relay: Option<string>)
      requires Valid()
      requires received.Some? ==> |received.value| <= ID_LENGTH
      modifies this
      ensures Valid()
      ensures serverRunning == old(serverRunning)
      ensures ParseClientId(received).Some? ==> Utf8.IsAscii(received.value) && |received.value| == ID_LENGTH
      ensures ParseClientId(received).None? ==>
                && pendingPairs == old(pendingPairs) && activeStreams == old(activeStreams)
                && reply == NoReply && closedNow == {sock} && relay == None
      ensures ParseClientId(received).Some? ==>
                var id := ParseClientId(received).value;
                var entry := (if id in old(pendingPairs) then old(pendingPairs)[id] else map[])[kind := sock];
                if Video in entry && Audio in entry then
                  && pendingPairs == old(pendingPairs) - {id}
                  && RoleAssigned(old(activeStreams), activeStreams, id, entry[Video], entry[Audio],
                                  intent, sent, reply, closedNow, relay)
                else
                  && pendingPairs == old(pendingPairs)[id := entry]
                  && activeStreams == old(activeStreams)
                  && reply == NoReply && closedNow == {} && relay == None
    {
      var clientId := ParseClientId(received);
      if clientId.None? {
        return NoReply, {sock}, None;
      }
      AcceptedIdIsAscii(received.value);
      var id := clientId.value;
      // setdefault(id, {})[kind] = sock, then pop the entry once it is complete
      var pair := (if id in pendingPairs then pendingPairs[id] else map[])[kind := sock];
      if Video in pair && Audio in pair {
        pendingPairs := pendingPairs - {id};
        reply, closedNow, relay := AssignClientRole(id, pair, intent, sent);
      } else {
        assert PendingOk(pair) by { assert kind in pair; }
        PendingPairsUpdateOk(pendingPairs, id, pair);
        pendingPairs := pendingPairs[id := pair];
        reply, closedNow, relay := NoReply, {}, None;
      }
    }

    /** _assign_client_role: act on the decoded intent; any exception closes both connections. */
    method AssignClientRole(id: ClientId, sockets: map<Kind, Sock>, intent: Intent, sent: bool)
      returns (reply: Reply, closedNow: set<Sock>, relay: Option<string>)
      requires Valid()
      requires |id| == ID_LENGTH && Video in sockets && Audio in sockets
      modifies this
      ensures Valid()
      ensures pendingPairs == old(pendingPairs) && serverRunning == old(serverRunning)
      ensures RoleAssigned(old(activeStreams), activeStreams, id, sockets[Video], sockets[Audio],
                           intent, sent, reply, closedNow, relay)
    {
      var video, audio := sockets[Video], sockets[Audio];
      match intent
      case HostIntent =>
        var streamId;
        streamId, reply := SetupHost(id, video, audio);
        if sent {
          closedNow, relay := {}, Some(streamId);
        } else {
          // sendall raised: both closed, no relay started
          closedNow, relay := {video, audio}, None;
        }
      case ViewerIntent(streamId) =>
        reply := SetupViewer(id, streamId, video, audio);
        relay := None;
        if reply.Error? || !sent {
          closedNow := {video, audio};
        } else {
          closedNow := {};
        }
      case Unusable =>
        reply, closedNow, relay := NoReply, {video, audio}, None;
    }

    /** _setup_host: register the stream under `stream_<first 8 of id>`, overwriting any. */
    method SetupHost(id: ClientId, video: Sock, audio: Sock) returns (streamId: string, reply: Reply)
      requires Valid() && |id| == ID_LENGTH
      modifies this
      ensures Valid()
      ensures pendingPairs == old(pendingPairs) && serverRunning == old(serverRunning)
      ensures streamId == StreamIdOf(id) && reply == HostOk(streamId)
      ensures activeStreams == old(activeStreams)[streamId := Stream(HostRecord(id, video, audio), map[])]
    {
      streamId := StreamIdOf(id);
      activeStreams := activeStreams[streamId := Stream(HostRecord(id, video, audio), map[])];
      reply := HostOk(streamId);
    }

    /** _setup_viewer: join an existing stream, or answer "Stream not found". */
    method SetupViewer(id: ClientId, streamId: Option<string>, video: Sock, audio: Sock) returns (reply: Reply)
      requires Valid() && |id| == ID_LENGTH
      modifies this
      ensures Valid()
      ensures pendingPairs == old(pendingPairs) && serverRunning == old(serverRunning)
      ensures streamId.Some? && streamId.value in old(activeStreams) ==>
                var s := old(activeStreams)[streamId.value];
                && activeStreams == old(activeStreams)[streamId.value := s.(viewers := s.viewers[id := Channels(video, audio)])]
                && reply == ViewerOk
      ensures !(streamId.Some? && streamId.value in old(activeStreams)) ==>
                activeStreams == old(activeStreams) && reply == Error(STREAM_NOT_FOUND)
    {
      if streamId.None? || streamId.value !in activeStreams {
        reply := Error(STREAM_NOT_FOUND);
      } else {
        var sid := streamId.value;
        var s := activeStreams[sid];
        activeStreams := activeStreams[sid := s.(viewers := s.viewers[id := Channels(video, audio)])];
        reply := ViewerOk;
      }
    }

    /** _remove_viewers: drop the listed viewers that are still there; nothing if the stream is gone. */
    method RemoveViewers(streamId: string, viewerIds: seq<ClientId>)
      requires Valid()
      modifies this
      ensures Valid()
      ensures pendingPairs == old(pendingPairs) && serverRunning == old(serverRunning)
      ensures streamId in old(activeStreams) ==>
                var s := old(activeStreams)[streamId];
                activeStreams == old(activeStreams)[streamId := s.(viewers := s.viewers - (set v | v in viewerIds))]
      ensures streamId !in old(activeStreams) ==> activeStreams == old(activeStreams)
    {
      if streamId in activeStreams {
        var s := activeStreams[streamId];
        var viewers := s.viewers;
        ghost var removed: set<ClientId> := {};
        var i := 0;
        while i < |viewerIds|
          invariant 0 <= i <= |viewerIds|
          invariant forall v :: v in removed <==> v in viewerIds[..i]
          invariant viewers == s.viewers - removed
        {
          if viewerIds[i] in viewers {
            viewers := viewers - {viewerIds[i]};
          }
          assert viewerIds[..i + 1] == viewerIds[..i] + [viewerIds[i]];
          removed := removed + {viewerIds[i]};
          i := i + 1;
        }
        assert viewerIds[..i] == viewerIds;
        assert removed == set v | v in viewerIds;
        DropViewersOk(activeStreams, streamId, removed);
        activeStreams := activeStreams[streamId := s.(viewers := viewers)];
      }
    }

    /**
     * The body of the broadcast_media loop once a frame has been read: if the
     * stream is still registered, write `struct.pack("I", size) + payload` to
     * every viewer's connection of `kind`, then remove the viewers whose send failed.
     */
    method RelayFrame(streamId: string, kind: Kind, payload: Bytes, sendOk: (nat, Sock) -> bool, pass: nat)
      returns (found: bool, d: Delivery)
      requires Valid() && |payload| < TWO_32
      modifies this
      ensures Valid()
      ensures pendingPairs == old(pendingPairs) && serverRunning == old(serverRunning)
      ensures found == (streamId in old(activeStreams))
      ensures !found ==> activeStreams == old(activeStreams)
      ensures found ==>
                var s := old(activeStreams)[streamId];
                && d.wire == Framing.Wire(native, payload)
                && PassOf(s.viewers, kind, sendOk, pass, d)
                && activeStreams == old(activeStreams)[streamId := s.(viewers := s.viewers - d.dropped)]
    {
      if streamId !in activeStreams {
        return false, Delivery([], {}, {});
      }
      found := true;
      var wire := Framing.Wire(native, payload);
      var delivered, failed := FanOut(activeStreams[streamId].viewers, kind, (sock: Sock) => sendOk(pass, sock));
      var s := activeStreams[streamId];
      if failed != [] {
        RemoveViewers(streamId, failed);
      } else {
        assert s.viewers - (set v | v in failed) == s.viewers;
      }
      d := Delivery(wire, delivered, set v | v in failed);
    }

    /**
     * broadcast_media for one kind of a stream: relay every frame the host
     * sends until it disconnects or the server stops, then tear the stream
     * down. `sendOk(i, s)` says whether the send to `s` during pass `i`
     * succeeds. A stream that is not registered gets no frame: the first
     * frame read finds it missing and the loop ends.
     */
    method BroadcastMedia(host: Conn, streamId: string, kind: Kind, sendOk: (nat, Sock) -> bool)
      returns (log: seq<Delivery>, closedNow: set<Sock>)
      requires Valid()
      modifies this
      ensures Valid()
      ensures pendingPairs == old(pendingPairs) && serverRunning == old(serverRunning)
      ensures activeStreams == old(activeStreams) - {streamId}
      ensures streamId !in old(activeStreams) ==> log == [] && closedNow == {}
      ensures !old(serverRunning) ==> log == []
      ensures streamId in old(activeStreams) ==>
                var s := old(activeStreams)[streamId];
                && RelayedFrom(s.viewers, kind, sendOk, 0, log)
                && closedNow == StreamSockets(s.(viewers := ViewersAfter(s.viewers, log)))
      ensures streamId in old(activeStreams) && old(serverRunning) ==>
                WiresOf(native, log, Framing.SingleHeaderFrames(host.chunks, native))
    {
      log := [];
      if streamId !in activeStreams {
        closedNow := CleanupStream(streamId);
        return;
      }
      var conn := host;
      ghost var seen: seq<Bytes> := [];
      ghost var base := activeStreams;
      ghost var s0 := activeStreams[streamId];
      assert s0.(viewers := ViewersAfter(s0.viewers, log)) == s0;
      while serverRunning
        invariant Valid()
        invariant pendingPairs == old(pendingPairs) && serverRunning == old(serverRunning)
        invariant activeStreams == base[streamId := s0.(viewers := ViewersAfter(s0.viewers, log))]
        invariant RelayedFrom(s0.viewers, kind, sendOk, 0, log)
        invariant !old(serverRunning) ==> log == []
        invariant WiresOf(native, log, seen)
        invariant Framing.SingleHeaderFrames(host.chunks, native) == seen + Framing.SingleHeaderFrames(conn.chunks, native)
        decreases Size(conn.chunks)
      {
        var size, payload, next := Framing.ReceiveData(conn, native);
        if payload.None? {
          break;
        }
        var p := payload.value;
        Framing.NextFrame(conn.chunks, native, size, p);
        var d := RelayPass(streamId, kind, p, sendOk, base, s0, log);
        WiresExtend(native, log, seen, d, p);
        Regroup(seen, [p], Framing.SingleHeaderFrames(next.chunks, native));
        log, seen, conn := log + [d], seen + [p], next;
      }
      if serverRunning {
        assert Framing.SingleHeaderFrames(host.chunks, native) == seen;
      }
      UpdateThenRemove(base, streamId, activeStreams[streamId]);
      closedNow := CleanupStream(streamId);
    }

    /**
     * One pass of the broadcast_media loop once the host's next frame has
     * been read: RelayFrame, with `log` holding the passes so far.
     */
    method RelayPass(streamId: string, kind: Kind, p: Bytes, sendOk: (nat, Sock) -> bool,
                     ghost base: map<string, Stream>, ghost s0: Stream, log: seq<Delivery>)
      returns (d: Delivery)
      requires Valid() && |p| < TWO_32
      requires activeStreams == base[streamId := s0.(viewers := ViewersAfter(s0.viewers, log))]
      requires RelayedFrom(s0.viewers, kind, sendOk, 0, log)
      modifies this
      ensures Valid()
      ensures pendingPairs == old(pendingPairs) && serverRunning == old(serverRunning)
      ensures d.wire == Framing.Wire(native, p)
      ensures RelayedFrom(s0.viewers, kind, sendOk, 0, log + [d])
      ensures activeStreams == base[streamId := s0.(viewers := ViewersAfter(s0.viewers, log + [d]))]
    {
      ghost var now := ViewersAfter(s0.viewers, log);
      ghost var before := activeStreams;
      assert before[streamId] == s0.(viewers := now);
      var found;
      found, d := RelayFrame(streamId, kind, p, sendOk, |log|);
      assert PassOf(before[streamId].viewers, kind, sendOk, |log|, d);
      RelayedFromExtend(s0.viewers, kind, sendOk, 0, log, now, |log|, d);
      assert before[streamId].(viewers := before[streamId].viewers - d.dropped) == s0.(viewers := now - d.dropped);
      UpdateTwice(base, streamId, s0.(viewers := now), s0.(viewers := now - d.dropped));
    }

    /** cleanup_stream: take the stream out and close every socket it owns; a no-op if it is gone. */
    method CleanupStream(streamId: string) returns (closedNow: set<Sock>)
      requires Valid()
      modifies this
      ensures Valid()
      ensures pendingPairs == old(pendingPairs) && serverRunning == old(serverRunning)
      ensures activeStreams == old(activeStreams) - {streamId}
      ensures closedNow == if streamId in old(activeStreams) then StreamSockets(old(activeStreams)[streamId]) else {}
    {
      closedNow := {};
      if streamId in activeStreams {
        var s := activeStreams[streamId];
        StreamsOkWithout(activeStreams, {streamId});
        activeStreams := activeStreams - {streamId};
        closedNow := CloseStreamSockets(s);
      }
    }

    /**
     * shutdown, with the effect its code is evidently meant to have (its
     * nested acquisition of the lock is ShutdownAsWritten): clear the running
     * flag and tear down every active stream.
     */
    method Shutdown() returns (closedNow: set<Sock>)
      requires Valid()
      modifies this
      ensures Valid()
      ensures pendingPairs == old(pendingPairs) && !serverRunning
      ensures activeStreams == map[]
      ensures closedNow == AllStreamSockets(old(activeStreams))
    {
      serverRunning := false;
      closedNow := {};
      ghost var all := activeStreams;
      while activeStreams != map[]
        invariant Valid() && pendingPairs == old(pendingPairs) && !serverRunning
        invariant forall sid :: sid in activeStreams ==> sid in all && activeStreams[sid] == all[sid]
        invariant closedNow == AllStreamSockets(all - activeStreams.Keys)
        decreases |activeStreams.Keys|
      {
        var sid :| sid in activeStreams;
        ghost var before := activeStreams.Keys;
        var closed := CleanupStream(sid);
        assert activeStreams.Keys == before - {sid};
        AllStreamSocketsAdd(all, before, sid);
        closedNow := closedNow + closed;
      }
      assert all - {} == all;
    }
  }

  lemma ViewerSocketsAdd(m: map<ClientId, Channels>, todo: set<ClientId>, v: ClientId)
    requires v in todo && todo <= m.Keys
    ensures ViewerSockets(m - (todo - {v})) == ViewerSockets(m - todo) + {m[v].video, m[v].audio}
  {
    var a, b := m - (todo - {v}), m - todo;
    assert a == b[v := m[v]];
    forall s | s in ViewerSockets(a) ensures s in ViewerSockets(b) + {m[v].video, m[v].audio} {
      var w :| w in a && (a[w].video == s || a[w].audio == s);
      if w != v { assert w in b; }
    }
    forall s | s in ViewerSockets(b) ensures s in ViewerSockets(a) {
      var w :| w in b && (b[w].video == s || b[w].audio == s);
      assert w in a;
    }
    assert v in a && a[v] == m[v];
    assert a[v].video in (set w | w in a :: a[w].video);
    assert a[v].audio in (set w | w in a :: a[w].audio);
  }

  lemma AllStreamSocketsAdd(m: map<string, Stream>, ids: set<string>, sid: string)
    requires sid in ids && ids <= m.Keys
    ensures AllStreamSockets(m - (ids - {sid})) == AllStreamSockets(m - ids) + StreamSockets(m[sid])
  {
    var a, b := m - (ids - {sid}), m - ids;
    assert a == b[sid := m[sid]];
    forall s | s in AllStreamSockets(a) ensures s in AllStreamSockets(b) + StreamSockets(m[sid]) {
      var t :| t in a && s in StreamSockets(a[t]);
      if t != sid { assert t in b; }
    }
    forall s | s in AllStreamSockets(b) ensures s in AllStreamSockets(a) {
      var t :| t in b && s in StreamSockets(b[t]);
      assert t in a;
    }
    forall s | s in StreamSockets(m[sid]) ensures s in AllStreamSockets(a) {
      assert sid in a;
    }
  }
}
