/**
 * UTF-8 as Python's strict codec writes and reads it (`str.encode('utf-8')`,
 * `bytes.decode('utf-8')`): every Unicode scalar value has exactly one
 * encoding of one to four bytes, and decoding refuses overlong forms,
 * surrogates, values above U+10FFFF and truncated or stray continuation bytes.
 */
module Utf8 {
  import opened Options
  import opened Bytes

  predicate IsContinuation(b: int) {
    0x80 <= b < 0xC0
  }

  predicate IsAscii(b: Bytes) {
    forall i :: 0 <= i < |b| ==> b[i] < 0x80
  }

  /** The bytes of one character. */
  function EncodeChar(c: char): (b: Bytes)
    ensures 1 <= |b| <= 4
    ensures (|b| == 1) == ((c as int) < 0x80)
    ensures |b| == 1 ==> b[0] == c as int
  {
    var cp := c as int;
    // cp in base 64: ((q3 * 64 + d2) * 64 + d1) * 64 + d0
    var d0, q1 := cp % 0x40, cp / 0x40;
    var d1, q2 := q1 % 0x40, q1 / 0x40;
    var d2, q3 := q2 % 0x40, q2 / 0x40;
    if cp < 0x80 then [cp]
    else if cp < 0x800 then [0xC0 + q1, 0x80 + d0]
    else if cp < 0x1_0000 then [0xE0 + q2, 0x80 + d1, 0x80 + d0]
    else [0xF0 + q3, 0x80 + d2, 0x80 + d1, 0x80 + d0]
  }

  /** `s.encode('utf-8')` */
  function Encode(s: string): Bytes {
    if s == [] then [] else EncodeChar(s[0]) + Encode(s[1..])
  }

  /** Each character takes one to four bytes. */
  lemma {:induction false} EncodeLength(s: string)
    ensures |s| <= |Encode(s)| <= 4 * |s|
  {
    if s != [] {
      EncodeLength(s[1..]);
    }
  }

  function Join2(b0: int, b1: int): int { (b0 - 0xC0) * 0x40 + (b1 - 0x80) }
  function Join3(b0: int, b1: int, b2: int): int { ((b0 - 0xE0) * 0x40 + (b1 - 0x80)) * 0x40 + (b2 - 0x80) }
  function Join4(b0: int, b1: int, b2: int, b3: int): int {
    (((b0 - 0xF0) * 0x40 + (b1 - 0x80)) * 0x40 + (b2 - 0x80)) * 0x40 + (b3 - 0x80)
  }

  /**
   * The character that a well-formed sequence at the start of `b` stands for,
   * and the number of bytes it takes; None if `b` does not start with one.
   */
  function DecodeFirst(b: Bytes): (r: Option<(char, nat)>)
    requires |b| > 0
    ensures r.Some? ==> 1 <= r.value.1 <= |b|
    ensures r.Some? ==> (r.value.1 == 1 <==> b[0] < 0x80)
  {
    var b0: int := b[0];
    if b0 < 0x80 then
      Some((b0 as char, 1))
    else if 0xC2 <= b0 <= 0xDF then
      if |b| >= 2 && IsContinuation(b[1]) then Some((Join2(b0, b[1]) as char, 2))
      else None
    else if 0xE0 <= b0 <= 0xEF then
      var lo, hi := (if b0 == 0xE0 then 0xA0 else 0x80), (if b0 == 0xED then 0x9F else 0xBF);
      if |b| >= 3 && lo <= b[1] <= hi && IsContinuation(b[2]) then Some((Join3(b0, b[1], b[2]) as char, 3))
      else None
    else if 0xF0 <= b0 <= 0xF4 then
      var lo, hi := (if b0 == 0xF0 then 0x90 else 0x80), (if b0 == 0xF4 then 0x8F else 0xBF);
      if |b| >= 4 && lo <= b[1] <= hi && IsContinuation(b[2]) && IsContinuation(b[3]) then
        Some((Join4(b0, b[1], b[2], b[3]) as char, 4))
      else None
    else None
  }

  /** `b.decode('utf-8')`; None where Python raises UnicodeDecodeError. */
  function Decode(b: Bytes): Option<string>
    decreases |b|
  {
    if b == [] then Some([])
    else match DecodeFirst(b)
      case None => None
      case Some((c, k)) =>
        match Decode(b[k..])
        case None => None
        case Some(s) => Some([c] + s)
  }

  lemma DecodeFirstOfEncodeChar(c: char, rest: Bytes)
    ensures DecodeFirst(EncodeChar(c) + rest) == Some((c, |EncodeChar(c)|))
  {
    var e := EncodeChar(c);
    var b := e + rest;
    var cp := c as int;
    var d0, q1 := cp % 0x40, cp / 0x40;
    var d1, q2 := q1 % 0x40, q1 / 0x40;
    var d2, q3 := q2 % 0x40, q2 / 0x40;
    assert cp == q1 * 0x40 + d0 && q1 == q2 * 0x40 + d1 && q2 == q3 * 0x40 + d2;
    assert b[..|e|] == e;
    if cp >= 0x80 {
      if cp < 0x800 {
        assert Join2(b[0], b[1]) == cp;
      } else if cp < 0x1_0000 {
        assert Join3(b[0], b[1], b[2]) == cp;
      } else {
        assert Join4(b[0], b[1], b[2], b[3]) == cp;
      }
    }
  }

  lemma EncodeCharOfDecodeFirst(b: Bytes)
    requires |b| > 0 && DecodeFirst(b).Some?
    ensures EncodeChar(DecodeFirst(b).value.0) == b[..DecodeFirst(b).value.1]
  {
    var b0: int := b[0];
    if 0xC2 <= b0 <= 0xDF {
      EncodeTwo(b[0], b[1]);
    } else if 0xE0 <= b0 <= 0xEF {
      EncodeThree(b[0], b[1], b[2]);
    } else if 0xF0 <= b0 <= 0xF4 {
      EncodeFour(b[0], b[1], b[2], b[3]);
    }
  }

  lemma EncodeTwo(b0: int, b1: int)
    requires 0xC2 <= b0 <= 0xDF && IsContinuation(b1)
    ensures 0x80 <= Join2(b0, b1) < 0x800
    ensures EncodeChar(Join2(b0, b1) as char) == [b0, b1]
  {
    var cp := Join2(b0, b1);
    assert cp / 0x40 == b0 - 0xC0 && cp % 0x40 == b1 - 0x80;
  }

  lemma EncodeThree(b0: int, b1: int, b2: int)
    requires 0xE0 <= b0 <= 0xEF && IsContinuation(b1) && IsContinuation(b2)
    requires b0 == 0xE0 ==> 0xA0 <= b1
    requires b0 == 0xED ==> b1 <= 0x9F
    ensures 0x800 <= Join3(b0, b1, b2) < 0x1_0000
    ensures !(0xD800 <= Join3(b0, b1, b2) < 0xE000)
    ensures EncodeChar(Join3(b0, b1, b2) as char) == [b0, b1, b2]
  {
    var cp := Join3(b0, b1, b2);
    var q1 := cp / 0x40;
    assert q1 == (b0 - 0xE0) * 0x40 + (b1 - 0x80) && cp % 0x40 == b2 - 0x80;
    assert q1 / 0x40 == b0 - 0xE0 && q1 % 0x40 == b1 - 0x80;
  }

  lemma EncodeFour(b0: int, b1: int, b2: int, b3: int)
    requires 0xF0 <= b0 <= 0xF4 && IsContinuation(b1) && IsContinuation(b2) && IsContinuation(b3)
    requires b0 == 0xF0 ==> 0x90 <= b1
    requires b0 == 0xF4 ==> b1 <= 0x8F
    ensures 0x1_0000 <= Join4(b0, b1, b2, b3) < 0x11_0000
    ensures EncodeChar(Join4(b0, b1, b2, b3) as char) == [b0, b1, b2, b3]
  {
    var cp := Join4(b0, b1, b2, b3);
    var q1 := cp / 0x40;
    var q2 := q1 / 0x40;
    assert q1 == ((b0 - 0xF0) * 0x40 + (b1 - 0x80)) * 0x40 + (b2 - 0x80) && cp % 0x40 == b3 - 0x80;
    assert q2 == (b0 - 0xF0) * 0x40 + (b1 - 0x80) && q1 % 0x40 == b2 - 0x80;
    assert q2 / 0x40 == b0 - 0xF0 && q2 % 0x40 == b1 - 0x80;
  }

  /** Every string survives an encode/decode round trip. */
  lemma {:induction false} DecodeEncode(s: string)
    ensures Decode(Encode(s)) == Some(s)
  {
    if s != [] {
      var e := EncodeChar(s[0]);
      var b := Encode(s);
      DecodeFirstOfEncodeChar(s[0], Encode(s[1..]));
      assert b[|e|..] == Encode(s[1..]);
      DecodeEncode(s[1..]);
      assert Decode(b) == Some([s[0]] + s[1..]);
      assert [s[0]] + s[1..] == s;
    }
  }

  /** Bytes that decode are the encoding of what they decode to: the encoding is unique. */
  lemma {:induction false} EncodeDecode(b: Bytes)
    requires Decode(b).Some?
    ensures Encode(Decode(b).value) == b
    decreases |b|
  {
    if b != [] {
      var (c, k) := DecodeFirst(b).value;
      var t := Decode(b[k..]).value;
      assert Decode(b).value == [c] + t;
      EncodeCharOfDecodeFirst(b);
      EncodeDecode(b[k..]);
      assert ([c] + t)[0] == c && ([c] + t)[1..] == t;
      assert Encode([c] + t) == EncodeChar(c) + Encode(t);
      assert b == b[..k] + b[k..];
    }
  }

  /**
   * Decoding never yields more characters than there are bytes, and yields as
   * many exactly when every byte is ASCII.
   */
  lemma {:induction false} DecodeLength(b: Bytes)
    requires Decode(b).Some?
    ensures |Decode(b).value| <= |b|
    ensures |Decode(b).value| == |b| <==> IsAscii(b)
    decreases |b|
  {
    if b != [] {
      var (c, k) := DecodeFirst(b).value;
      DecodeLength(b[k..]);
      if k == 1 {
        assert IsAscii(b) <==> IsAscii(b[1..]) by {
          if IsAscii(b[1..]) {
            forall i | 0 <= i < |b| ensures b[i] < 0x80 {
              if i > 0 { assert b[i] == b[1..][i - 1]; }
            }
          }
        }
      } else {
        assert !IsAscii(b) by { assert b[0] >= 0x80; }
      }
    }
  }

  /** ASCII text decodes character for character. */
  lemma {:induction false} DecodeAscii(b: Bytes)
    requires IsAscii(b)
    ensures Decode(b).Some? && |Decode(b).value| == |b|
    ensures forall i :: 0 <= i < |b| ==> Decode(b).value[i] as int == b[i]
    decreases |b|
  {
    if b != [] {
      assert IsAscii(b[1..]) by {
        forall i | 0 <= i < |b[1..]| ensures b[1..][i] < 0x80 { assert b[1..][i] == b[i + 1]; }
      }
      DecodeAscii(b[1..]);
    }
  }
}
