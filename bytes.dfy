/**
 * Values shared by every channel of the system: an optional value, bytes,
 * four-byte unsigned lengths in either byte order, and a model of what a TCP
 * receive returns.
 */
module Options {
  datatype Option<T> = None | Some(value: T)
}

module Bytes {
  import opened Options

  type byte = x: int | 0 <= x < 256
  type Bytes = seq<byte>

  const TWO_32: int := 0x1_0000_0000

  /** The two orders in which a four-byte unsigned length can be laid out. */
  datatype ByteOrder = BigEndian | LittleEndian

  // ---------------------------------------------------------------------------
  // Four-byte unsigned integers (struct "I" / ">I", int.to_bytes(4, 'big'))
  // ---------------------------------------------------------------------------

  /** The unsigned value of exactly four bytes laid out in `order`. */
  function Decode32(order: ByteOrder, b: Bytes): (n: nat)
    requires |b| == 4
    ensures n < TWO_32
  {
    var b0: int, b1: int, b2: int, b3: int := b[0], b[1], b[2], b[3];
    match order
    case BigEndian => b0 * 0x100_0000 + b1 * 0x1_0000 + b2 * 0x100 + b3
    case LittleEndian => b3 * 0x100_0000 + b2 * 0x1_0000 + b1 * 0x100 + b0
  }

  /** The four bytes that lay out `n` in `order`; the inverse of Decode32. */
  function Encode32(order: ByteOrder, n: nat): (b: Bytes)
    requires n < TWO_32
    ensures |b| == 4
    ensures Decode32(order, b) == n
  {
    // n in base 256: ((hi * 256 + h2) * 256 + h3) * 256 + lo
    var lo, r1 := n % 0x100, n / 0x100;
    var h3, r2 := r1 % 0x100, r1 / 0x100;
    var h2, hi := r2 % 0x100, r2 / 0x100;
    assert n == r1 * 0x100 + lo && r1 == r2 * 0x100 + h3 && r2 == hi * 0x100 + h2;
    match order
    case BigEndian => [hi, h2, h3, lo]
    case LittleEndian => [lo, h3, h2, hi]
  }

  /** Four header bytes are determined by the length they encode. */
  lemma Encode32OfDecode32(order: ByteOrder, b: Bytes)
    requires |b| == 4
    ensures Encode32(order, Decode32(order, b)) == b
  {
    var n := Decode32(order, b);
    var (hi, h2, h3, lo) := match order
      case BigEndian => (b[0], b[1], b[2], b[3])
      case LittleEndian => (b[3], b[2], b[1], b[0]);
    var hi': int, h2': int, h3': int, lo': int := hi, h2, h3, lo;
    assert n == ((hi' * 0x100 + h2') * 0x100 + h3') * 0x100 + lo';
    assert n % 0x100 == lo && n / 0x100 == (hi' * 0x100 + h2') * 0x100 + h3';
    assert (n / 0x100) % 0x100 == h3 && (n / 0x100) / 0x100 == hi' * 0x100 + h2';
    assert ((n / 0x100) / 0x100) % 0x100 == h2 && ((n / 0x100) / 0x100) / 0x100 == hi;
  }

  /** The two byte orders disagree, so a reader must know which one the writer used. */
  lemma ByteOrdersDiffer()
    ensures Decode32(BigEndian, [0, 0, 0, 1]) == 1
    ensures Decode32(LittleEndian, [0, 0, 0, 1]) == 0x100_0000
    ensures Encode32(BigEndian, 1) != Encode32(LittleEndian, 1)
  {
    assert Encode32(BigEndian, 1)[3] == 1;
    assert Encode32(LittleEndian, 1)[3] == 0;
  }

  // ---------------------------------------------------------------------------
  // int.from_bytes(b, 'big'), which accepts any number of bytes
  // ---------------------------------------------------------------------------

  function Pow256(k: nat): (p: nat)
    ensures p >= 1
  {
    if k == 0 then 1 else 256 * Pow256(k - 1)
  }

  /** The unsigned big-endian value of `b`, whatever its length. */
  function BigEndianValue(b: Bytes): (n: nat)
    ensures n < Pow256(|b|)
  {
    if b == [] then 0 else BigEndianValue(b[..|b| - 1]) * 256 + b[|b| - 1] as int
  }

  /** On exactly four bytes the general big-endian reading agrees with Decode32. */
  lemma BigEndianValueOfFour(b: Bytes)
    requires |b| == 4
    ensures BigEndianValue(b) == Decode32(BigEndian, b)
  {
    assert b[..3][..2] == b[..2] && b[..2][..1] == b[..1] && b[..1][..0] == [];
    assert BigEndianValue(b[..1]) == b[0];
    var b0: int, b1: int, b2: int := b[0], b[1], b[2];
    assert BigEndianValue(b[..2]) == b0 * 256 + b1;
    assert BigEndianValue(b[..3]) == (b0 * 256 + b1) * 256 + b2;
  }

  /** A value read from at most four bytes fits in 32 bits. */
  lemma {:induction false} BigEndianValueBelow32(b: Bytes)
    requires |b| <= 4
    ensures BigEndianValue(b) < TWO_32
  {
    var k := |b|;
    assert Pow256(0) == 1;
    assert Pow256(1) == 256;
    assert Pow256(2) == 0x1_0000;
    assert Pow256(3) == 0x100_0000;
    assert Pow256(4) == TWO_32;
    assert Pow256(k) <= TWO_32;
  }

  // ---------------------------------------------------------------------------
  // What a receive returns
  // ---------------------------------------------------------------------------

  /**
   * An inbound connection: the bytes a peer has sent and the server has not
   * yet received, in the chunks in which the network hands them over. An
   * empty chunk, or the end of the sequence, is the peer closing the
   * connection (a reset reads the same way to every caller here).
   */
  datatype Conn = Conn(chunks: seq<Bytes>)

  predicate Closed(c: Conn) {
    c.chunks == [] || c.chunks[0] == []
  }

  /** The bytes that arrive before the connection is closed. */
  function Available(chunks: seq<Bytes>): Bytes {
    if chunks == [] || chunks[0] == [] then [] else chunks[0] + Available(chunks[1..])
  }

  /** A single chunk followed by a close delivers exactly that chunk. */
  lemma AvailableOne(w: Bytes)
    ensures Available([w]) == w
  {
    var one: seq<Bytes> := [w];
    assert one[1..] == [];
  }

  /** A measure that every receive decreases. */
  function Size(chunks: seq<Bytes>): nat {
    if chunks == [] then 0 else 1 + |chunks[0]| + Size(chunks[1..])
  }

  /**
   * `recv(k)`: at most `k` bytes of the next chunk; what is left of that chunk
   * stays buffered for the next receive. An empty result means the peer closed.
   */
  function Recv(c: Conn, k: nat): (r: (Bytes, Conn))
    requires k > 0
    ensures |r.0| <= k
    ensures r.0 == [] <==> Closed(c)
    ensures !Closed(c) ==> r.0 + Available(r.1.chunks) == Available(c.chunks)
    ensures c.chunks != [] ==> Size(r.1.chunks) < Size(c.chunks)
  {
    if c.chunks == [] then ([], c)
    else
      var h := c.chunks[0];
      if |h| <= k then (h, Conn(c.chunks[1..]))
      else
        var rest := [h[k..]] + c.chunks[1..];
        assert rest[0] == h[k..] && rest[1..] == c.chunks[1..];
        assert h[..k] + h[k..] == h;
        (h[..k], Conn(rest))
  }

  /**
   * The connection that is left once its first `n` available bytes have been
   * received: those bytes are gone and every later chunk boundary is kept.
   */
  function Consume(chunks: seq<Bytes>, n: nat): seq<Bytes>
    decreases |chunks|
  {
    if n == 0 || chunks == [] || chunks[0] == [] then chunks
    else if |chunks[0]| <= n then Consume(chunks[1..], n - |chunks[0]|)
    else [chunks[0][n..]] + chunks[1..]
  }

  lemma {:induction false} ConsumeAvailable(chunks: seq<Bytes>, n: nat)
    requires n <= |Available(chunks)|
    ensures Available(Consume(chunks, n)) == Available(chunks)[n..]
    decreases |chunks|
  {
    if n == 0 || chunks == [] || chunks[0] == [] {
    } else if |chunks[0]| <= n {
      ConsumeAvailable(chunks[1..], n - |chunks[0]|);
    } else {
      var rest := [chunks[0][n..]] + chunks[1..];
      assert rest[0] == chunks[0][n..] && rest[1..] == chunks[1..];
    }
  }

  /** Consuming `m` bytes and then `n` more is consuming `m + n`. */
  lemma {:induction false} ConsumeConsume(chunks: seq<Bytes>, m: nat, n: nat)
    requires m + n <= |Available(chunks)|
    ensures Consume(Consume(chunks, m), n) == Consume(chunks, m + n)
    decreases |chunks|
  {
    if m == 0 || chunks == [] || chunks[0] == [] {
    } else if |chunks[0]| <= m {
      ConsumeConsume(chunks[1..], m - |chunks[0]|, n);
    } else {
      var rest := [chunks[0][m..]] + chunks[1..];
      assert rest[0] == chunks[0][m..] && rest[1..] == chunks[1..];
      if n == 0 {
      } else if |rest[0]| <= n {
        assert |chunks[0]| <= m + n;
        assert Consume(chunks, m + n) == Consume(chunks[1..], m + n - |chunks[0]|);
      } else {
        assert chunks[0][m..][n..] == chunks[0][m + n..];
      }
    }
  }

  /** One receive of at most `k` bytes consumes exactly the bytes it returns. */
  lemma RecvConsumes(c: Conn, k: nat)
    requires k > 0 && !Closed(c)
    ensures Recv(c, k).1.chunks == Consume(c.chunks, |Recv(c, k).0|)
  {
  }

  lemma Regroup<T>(a: seq<T>, b: seq<T>, c: seq<T>)
    ensures a + (b + c) == (a + b) + c
  {
  }

  /** One more receive keeps what has been read followed by what is still to come equal to what arrives. */
  lemma RecvStep(c: Conn, acc: Bytes, rest: Conn, k: nat)
    requires k > 0 && !Closed(rest)
    requires acc + Available(rest.chunks) == Available(c.chunks)
    requires rest.chunks == Consume(c.chunks, |acc|)
    ensures var (chunk, next) := Recv(rest, k);
            && (acc + chunk) + Available(next.chunks) == Available(c.chunks)
            && next.chunks == Consume(c.chunks, |acc + chunk|)
  {
    var (chunk, next) := Recv(rest, k);
    RecvConsumes(rest, k);
    ConsumeConsume(c.chunks, |acc|, |chunk|);
    Regroup(acc, chunk, Available(next.chunks));
  }

  /** The result of reading exactly `n` bytes: the first `n` that arrive, or None if the peer closes first. */
  function TakeExactly(chunks: seq<Bytes>, n: nat): Option<Bytes> {
    var a := Available(chunks);
    if n <= |a| then Some(a[..n]) else None
  }

  /**
   * The accumulation loop of both receive_data variants: request the missing
   * `n - |data|` bytes until `n` have arrived; an empty receive gives up.
   */
  method RecvExactly(c: Conn, n: nat) returns (data: Option<Bytes>, rest: Conn)
    ensures data == TakeExactly(c.chunks, n)
    ensures data.Some? ==> |data.value| == n && rest.chunks == Consume(c.chunks, n)
  {
    var acc: Bytes := [];
    rest := c;
    while |acc| < n
      invariant |acc| <= n
      invariant acc + Available(rest.chunks) == Available(c.chunks)
      invariant rest.chunks == Consume(c.chunks, |acc|)
      decreases Size(rest.chunks)
    {
      var (chunk, next) := Recv(rest, n - |acc|);
      if chunk == [] {
        assert Available(rest.chunks) == [];
        assert acc == Available(c.chunks);
        return None, next;
      }
      RecvStep(c, acc, rest, n - |acc|);
      acc := acc + chunk;
      rest := next;
    }
    assert acc == Available(c.chunks)[..n];
    data := Some(acc);
  }
}
