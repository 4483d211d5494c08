/**
 * The length-prefixed frame: a four-byte unsigned length followed by that
 * many payload bytes. Media frames are written with the platform's native
 * `struct` order (server.py, host_streamer.py) and read by
 * protocol_recv.receive_data; testingforbook.py holds a variant that reads
 * the header in a loop and fixes the order to big-endian.
 *
 * Both readers return `(size, payload)`, with `(0, None)` for a clean close,
 * a truncated frame and an unreadable header alike.
 */
module Framing {
  import opened Options
  import opened Bytes

  /** `struct.pack("I", len(p)) + p` with the given byte order. */
  function Wire(order: ByteOrder, p: Bytes): (w: Bytes)
    requires |p| < TWO_32
    ensures |w| == 4 + |p| && w[4..] == p
    ensures Decode32(order, w[..4]) == |p|
  {
    assert (Encode32(order, |p|) + p)[..4] == Encode32(order, |p|);
    Encode32(order, |p|) + p
  }

  // ---------------------------------------------------------------------------
  // What each reader returns, stated on the bytes that arrive
  // ---------------------------------------------------------------------------

  /**
   * protocol_recv.receive_data: the header is whatever ONE `recv(4)` returns,
   * so it is read only if the first chunk holds at least four bytes; then
   * the payload is the next `n` bytes that arrive.
   */
  function SingleHeaderResult(chunks: seq<Bytes>, native: ByteOrder): (nat, Option<Bytes>) {
    var a := Available(chunks);
    if chunks == [] || |chunks[0]| < 4 then (0, None)
    else
      var n := Decode32(native, a[..4]);
      if 4 + n <= |a| then (n, Some(a[4..4 + n])) else (0, None)
  }

  /**
   * testingforbook.receive_data: four header bytes however they are split,
   * read big-endian, then the next `n` bytes.
   */
  function LoopedHeaderResult(chunks: seq<Bytes>): (nat, Option<Bytes>) {
    var a := Available(chunks);
    if |a| < 4 then (0, None)
    else
      var n := Decode32(BigEndian, a[..4]);
      if 4 + n <= |a| then (n, Some(a[4..4 + n])) else (0, None)
  }

  // ---------------------------------------------------------------------------
  // The readers
  // ---------------------------------------------------------------------------

  /** protocol_recv.receive_data, with the platform's native order as `native`. */
  method ReceiveData(c: Conn, native: ByteOrder) returns (size: nat, payload: Option<Bytes>, rest: Conn)
    ensures (size, payload) == SingleHeaderResult(c.chunks, native)
    ensures size < TWO_32
    ensures payload.Some? ==> |payload.value| == size && rest.chunks == Consume(c.chunks, 4 + size)
  {
    var (prefix, afterHeader) := Recv(c, 4);
    if prefix == [] {
      return 0, None, afterHeader;
    }
    if |prefix| != 4 {
      // struct.unpack("I", ...) needs exactly four bytes: struct.error
      return 0, None, afterHeader;
    }
    assert prefix == Available(c.chunks)[..4];
    RecvConsumes(c, 4);
    ConsumeAvailable(c.chunks, 4);
    var n := Decode32(native, prefix);
    var data;
    data, rest := RecvExactly(afterHeader, n);
    if data.None? {
      return 0, None, rest;
    }
    ConsumeConsume(c.chunks, 4, n);
    assert Available(c.chunks)[4..][..n] == Available(c.chunks)[4..4 + n];
    size, payload := n, data;
  }

  /** testingforbook.receive_data: a header loop, big-endian, then the payload loop. */
  method ReceiveDataLooped(c: Conn) returns (size: nat, payload: Option<Bytes>, rest: Conn)
    ensures (size, payload) == LoopedHeaderResult(c.chunks)
    ensures size < TWO_32
    ensures payload.Some? ==> |payload.value| == size && rest.chunks == Consume(c.chunks, 4 + size)
  {
    var prefix, afterHeader := RecvExactly(c, 4);
    if prefix.None? {
      return 0, None, afterHeader;
    }
    ConsumeAvailable(c.chunks, 4);
    var n := Decode32(BigEndian, prefix.value);
    var data;
    data, rest := RecvExactly(afterHeader, n);
    if data.None? {
      return 0, None, rest;
    }
    ConsumeConsume(c.chunks, 4, n);
    assert Available(c.chunks)[4..][..n] == Available(c.chunks)[4..4 + n];
    size, payload := n, data;
  }

  // ---------------------------------------------------------------------------
  // Properties
  // ---------------------------------------------------------------------------

  /** A successful read returns exactly as many bytes as the header announced. */
  lemma SuccessHasAnnouncedLength(chunks: seq<Bytes>, native: ByteOrder)
    ensures SingleHeaderResult(chunks, native).1.Some? ==>
              |SingleHeaderResult(chunks, native).1.value| == SingleHeaderResult(chunks, native).0
    ensures LoopedHeaderResult(chunks).1.Some? ==>
              |LoopedHeaderResult(chunks).1.value| == LoopedHeaderResult(chunks).0
  {
  }

  /** A peer that closes before sending anything reads as `(0, None)`. */
  lemma CleanCloseIsNone(native: ByteOrder)
    ensures SingleHeaderResult([], native) == (0, None)
    ensures SingleHeaderResult([[]], native) == (0, None)
    ensures LoopedHeaderResult([]) == (0, None)
  {
  }

  /**
   * A frame cut short: once `n` has been announced, fewer than `n` payload
   * bytes before the close read as `(0, None)` and the partial data is dropped.
   */
  lemma {:induction false} TruncatedIsNone(order: ByteOrder, p: Bytes, cut: nat)
    requires |p| < TWO_32 && cut < |p|
    ensures SingleHeaderResult([Wire(order, p)[..4 + cut]], order) == (0, None)
    ensures LoopedHeaderResult([Wire(BigEndian, p)[..4 + cut]]) == (0, None)
  {
    var w1 := Wire(order, p)[..4 + cut];
    var w2 := Wire(BigEndian, p)[..4 + cut];
    AvailableOne(w1);
    AvailableOne(w2);
    assert w1[..4] == Wire(order, p)[..4];
    assert w2[..4] == Wire(BigEndian, p)[..4];
  }

  /** A first chunk of fewer than four bytes defeats the single header read. */
  lemma ShortFirstChunkIsNone(chunks: seq<Bytes>, native: ByteOrder)
    requires chunks != [] && |chunks[0]| < 4
    ensures SingleHeaderResult(chunks, native) == (0, None)
  {
  }

  /**
   * Decoding what the relay writes, `struct.pack("I", len(p)) + p`, gives back
   * `(len(p), p)`, provided the first chunk carries the whole header; whatever
   * follows is left for the next read.
   */
  lemma {:induction false} SingleHeaderRoundTrip(native: ByteOrder, p: Bytes, chunks: seq<Bytes>)
    requires |p| < TWO_32
    requires chunks != [] && |chunks[0]| >= 4
    requires |Available(chunks)| >= 4 + |p|
    requires Available(chunks)[..4 + |p|] == Wire(native, p)
    ensures SingleHeaderResult(chunks, native) == (|p|, Some(p))
  {
    var a := Available(chunks);
    assert a[..4] == a[..4 + |p|][..4];
    assert a[4..4 + |p|] == a[..4 + |p|][4..];
  }

  /** The looped reader gets the frame back however the network splits it. */
  lemma {:induction false} LoopedHeaderRoundTrip(p: Bytes, chunks: seq<Bytes>)
    requires |p| < TWO_32
    requires |Available(chunks)| >= 4 + |p|
    requires Available(chunks)[..4 + |p|] == Wire(BigEndian, p)
    ensures LoopedHeaderResult(chunks) == (|p|, Some(p))
  {
    var a := Available(chunks);
    var w := Wire(BigEndian, p);
    assert a[..4] == a[..4 + |p|][..4];
    assert a[4..4 + |p|] == a[..4 + |p|][4..];
  }

  /** An empty payload reads as `(0, b'')`, which is not the failure `(0, None)`. */
  lemma EmptyPayloadIsNotFailure(native: ByteOrder)
    ensures SingleHeaderResult([Wire(native, [])], native) == (0, Some([]))
    ensures SingleHeaderResult([Wire(native, [])], native) != (0, None)
  {
    var w := Wire(native, []);
    AvailableOne(w);
  }

  /**
   * A complete frame whose header arrives in two pieces: the single-header
   * reader reports a disconnect where the looped reader finds the frame.
   */
  lemma SplitHeaderFrame()
    ensures SingleHeaderResult([[0, 0], [0, 1, 65]], BigEndian) == (0, None)
    ensures LoopedHeaderResult([[0, 0], [0, 1, 65]]) == (1, Some([65]))
  {
    var chunks: seq<Bytes> := [[0, 0], [0, 1, 65]];
    assert chunks[1..][1..] == [];
    assert Available(chunks[1..]) == [0, 1, 65];
    var a := Available(chunks);
    assert a == [0, 0, 0, 1, 65];
    assert a[..4] == [0, 0, 0, 1] && a[4..5] == [65];
    assert Decode32(BigEndian, a[..4]) == 1;
  }

  // ---------------------------------------------------------------------------
  // A host's frames, read one after another
  // ---------------------------------------------------------------------------

  lemma ConsumeShrinks(chunks: seq<Bytes>, n: nat)
    requires 0 < n <= |Available(chunks)|
    ensures Size(Consume(chunks, n)) < Size(chunks)
    decreases |chunks|
  {
    if |chunks[0]| < n {
      ConsumeShrinks(chunks[1..], n - |chunks[0]|);
    } else if |chunks[0]| > n {
      var rest := [chunks[0][n..]] + chunks[1..];
      assert rest[0] == chunks[0][n..] && rest[1..] == chunks[1..];
    }
  }

  /** The payloads protocol_recv.receive_data yields in turn until its first `(0, None)`. */
  function SingleHeaderFrames(chunks: seq<Bytes>, native: ByteOrder): seq<Bytes>
    decreases Size(chunks)
  {
    var (n, p) := SingleHeaderResult(chunks, native);
    if p.None? then []
    else
      ConsumeShrinks(chunks, 4 + n);
      [p.value] + SingleHeaderFrames(Consume(chunks, 4 + n), native)
  }

  /** One successful read moves on to the next frame. */
  lemma NextFrame(chunks: seq<Bytes>, native: ByteOrder, size: nat, p: Bytes)
    requires SingleHeaderResult(chunks, native) == (size, Some(p))
    ensures Size(Consume(chunks, 4 + size)) < Size(chunks)
    ensures SingleHeaderFrames(chunks, native) == [p] + SingleHeaderFrames(Consume(chunks, 4 + size), native)
  {
    ConsumeShrinks(chunks, 4 + size);
  }

  function WireAll(native: ByteOrder, ps: seq<Bytes>): (r: seq<Bytes>)
    requires forall i :: 0 <= i < |ps| ==> |ps[i]| < TWO_32
    ensures |r| == |ps|
  {
    if ps == [] then [] else [Wire(native, ps[0])] + WireAll(native, ps[1..])
  }

  /**
   * A host that sends each frame with one `sendall`, delivered one chunk per
   * frame, has exactly its frames read back, in order.
   */
  lemma {:induction false} SingleHeaderFramesRoundTrip(native: ByteOrder, ps: seq<Bytes>)
    requires forall i :: 0 <= i < |ps| ==> |ps[i]| < TWO_32
    ensures SingleHeaderFrames(WireAll(native, ps), native) == ps
  {
    var chunks := WireAll(native, ps);
    if ps == [] {
      assert SingleHeaderResult(chunks, native) == (0, None);
    } else {
      var w := Wire(native, ps[0]);
      assert chunks[0] == w && chunks[1..] == WireAll(native, ps[1..]);
      var a := Available(chunks);
      assert a == w + Available(chunks[1..]);
      assert a[..4 + |ps[0]|] == w;
      SingleHeaderRoundTrip(native, ps[0], chunks);
      assert Consume(chunks, 4 + |ps[0]|) == Consume(chunks[1..], 0);
      SingleHeaderFramesRoundTrip(native, ps[1..]);
      assert [ps[0]] + ps[1..] == ps;
    }
  }
}
