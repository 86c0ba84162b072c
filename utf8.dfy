/**
 * Strict UTF-8 (RFC 3629), as Rust's `str::from_utf8`, `String::from_utf8`
 * and `CStr::to_str` accept it: no overlong forms, no surrogates, nothing
 * above U+10FFFF. `Decode` is the validator; `Encode` is the reference
 * definition it is proved against.
 */
module Utf8 {
  import opened Results

  newtype byte = x: int | 0 <= x < 256

  /** A continuation byte `10xxxxxx`. */
  predicate IsCont(b: byte) { 0x80 <= b < 0xC0 }

  /** The bytes of one scalar value, shortest form. */
  function EncodeChar(c: char): (bs: seq<byte>)
    ensures 1 <= |bs| <= 4
    ensures bs[0] == 0 <==> c == '\0'
  {
    var n := c as int;
    var q1, r0 := n / 64, n % 64;
    var q2, r1 := q1 / 64, q1 % 64;
    var q3, r2 := q2 / 64, q2 % 64;
    if n < 0x80 then [n as byte]
    else if n < 0x800 then [(0xC0 + q1) as byte, (0x80 + r0) as byte]
    else if n < 0x1_0000 then [(0xE0 + q2) as byte, (0x80 + r1) as byte, (0x80 + r0) as byte]
    else [(0xF0 + q3) as byte, (0x80 + r2) as byte, (0x80 + r1) as byte, (0x80 + r0) as byte]
  }

  function Encode(s: string): (bs: seq<byte>)
    ensures |bs| >= |s|
  {
    if s == [] then [] else EncodeChar(s[0]) + Encode(s[1..])
  }

  /** The first scalar value of `b` and how many bytes it takes, or None if `b` does not start with one. */
  function DecodeFirst(b: seq<byte>): (r: Option<(char, nat)>)
    requires b != []
    ensures r.Some? ==> 1 <= r.value.1 <= |b| && r.value.1 <= 4
  {
    var b0 := b[0] as int;
    if b0 < 0x80 then
      Some((b0 as char, 1))
    else if 0xC2 <= b0 < 0xE0 then
      if |b| >= 2 && IsCont(b[1]) then
        Some((((b0 - 0xC0) * 64 + (b[1] as int - 0x80)) as char, 2))
      else None
    else if 0xE0 <= b0 < 0xF0 then
      var lo := if b0 == 0xE0 then 0xA0 else 0x80;
      var hi := if b0 == 0xED then 0xA0 else 0xC0;
      if |b| >= 3 && lo <= b[1] as int < hi && IsCont(b[2]) then
        Some((((b0 - 0xE0) * 4096 + (b[1] as int - 0x80) * 64 + (b[2] as int - 0x80)) as char, 3))
      else None
    else if 0xF0 <= b0 < 0xF5 then
      var lo := if b0 == 0xF0 then 0x90 else 0x80;
      var hi := if b0 == 0xF4 then 0x90 else 0xC0;
      if |b| >= 4 && lo <= b[1] as int < hi && IsCont(b[2]) && IsCont(b[3]) then
        Some((((b0 - 0xF0) * 262144 + (b[1] as int - 0x80) * 4096
                + (b[2] as int - 0x80) * 64 + (b[3] as int - 0x80)) as char, 4))
      else None
    else None
  }

  /** The text `b` encodes, or None when `b` is not valid UTF-8. */
  function Decode(b: seq<byte>): Option<string>
    decreases |b|
  {
    if b == [] then Some([])
    else match DecodeFirst(b)
      case None => None
      case Some((c, k)) =>
        match Decode(b[k..])
        case None => None
        case Some(rest) => Some([c] + rest)
  }

  predicate Valid(b: seq<byte>) { Decode(b).Some? }

  lemma DecodeFirstEncodeChar(c: char, rest: seq<byte>)
    ensures DecodeFirst(EncodeChar(c) + rest) == Some((c, |EncodeChar(c)|))
  {
    var n := c as int;
    var q1, r0 := n / 64, n % 64;
    var q2, r1 := q1 / 64, q1 % 64;
    var q3, r2 := q2 / 64, q2 % 64;
    assert n == q1 * 64 + r0 && q1 == q2 * 64 + r1 && q2 == q3 * 64 + r2;
    var b := EncodeChar(c) + rest;
    if n < 0x80 {
    } else if n < 0x800 {
      assert b[0] as int == 0xC0 + q1 && b[1] as int == 0x80 + r0;
    } else if n < 0x1_0000 {
      assert b[0] as int == 0xE0 + q2 && b[1] as int == 0x80 + r1 && b[2] as int == 0x80 + r0;
      assert q2 * 4096 + r1 * 64 + r0 == n;
    } else {
      assert b[0] as int == 0xF0 + q3 && b[1] as int == 0x80 + r2;
      assert b[2] as int == 0x80 + r1 && b[3] as int == 0x80 + r0;
      assert q3 * 262144 + r2 * 4096 + r1 * 64 + r0 == n;
    }
  }

  lemma DecodeFirstIsEncodeChar(b: seq<byte>)
    requires b != [] && DecodeFirst(b).Some?
    ensures b[..DecodeFirst(b).value.1] == EncodeChar(DecodeFirst(b).value.0)
  {
    var (c, k) := DecodeFirst(b).value;
    var n := c as int;
    var b0 := b[0] as int;
    if k == 2 {
      assert n == (b0 - 0xC0) * 64 + (b[1] as int - 0x80);
      assert n / 64 == b0 - 0xC0 && n % 64 == b[1] as int - 0x80;
    } else if k == 3 {
      var x, y := b[1] as int - 0x80, b[2] as int - 0x80;
      assert n == (b0 - 0xE0) * 4096 + x * 64 + y;
      assert n / 64 == (b0 - 0xE0) * 64 + x && n % 64 == y;
      assert (n / 64) / 64 == b0 - 0xE0 && (n / 64) % 64 == x;
    } else if k == 4 {
      var x, y, z := b[1] as int - 0x80, b[2] as int - 0x80, b[3] as int - 0x80;
      assert n == (b0 - 0xF0) * 262144 + x * 4096 + y * 64 + z;
      assert n / 64 == (b0 - 0xF0) * 4096 + x * 64 + y && n % 64 == z;
      assert (n / 64) / 64 == (b0 - 0xF0) * 64 + x && (n / 64) % 64 == y;
      assert ((n / 64) / 64) / 64 == b0 - 0xF0 && ((n / 64) / 64) % 64 == x;
    }
  }

  /** Round trip: every string's encoding decodes back to it. */
  lemma {:induction false} DecodeEncode(s: string)
    ensures Decode(Encode(s)) == Some(s)
  {
    if s != [] {
      var e, rest := EncodeChar(s[0]), Encode(s[1..]);
      DecodeFirstEncodeChar(s[0], rest);
      assert (e + rest)[|e|..] == rest;
      DecodeEncode(s[1..]);
      assert [s[0]] + s[1..] == s;
    }
  }

  /** Uniqueness: a byte sequence that decodes is exactly the encoding of what it decodes to. */
  lemma {:induction false} EncodeDecode(b: seq<byte>, s: string)
    requires Decode(b) == Some(s)
    ensures b == Encode(s)
    decreases |b|
  {
    if b != [] {
      var (c, k) := DecodeFirst(b).value;
      DecodeFirstIsEncodeChar(b);
      var rest := Decode(b[k..]).value;
      EncodeDecode(b[k..], rest);
      assert s == [c] + rest;
      assert s[1..] == rest;
      assert b == b[..k] + b[k..];
    }
  }

  /** Decode and Encode are inverse: `b` is valid UTF-8 for `s` exactly when it is `s`'s encoding. */
  lemma DecodeIff(b: seq<byte>, s: string)
    ensures Decode(b) == Some(s) <==> b == Encode(s)
  {
    if Decode(b) == Some(s) { EncodeDecode(b, s); }
    if b == Encode(s) { DecodeEncode(s); }
  }

  /** Text without U+0000 encodes to bytes without a zero byte, and back. */
  lemma {:induction false} EncodeNoNul(s: string)
    ensures 0 !in Encode(s) <==> '\0' !in s
  {
    if s != [] {
      EncodeNoNul(s[1..]);
      var e := EncodeChar(s[0]);
      assert forall i :: 1 <= i < |e| ==> e[i] >= 0x80;
      assert Encode(s) == e + Encode(s[1..]);
      assert s == [s[0]] + s[1..];
    }
  }
}
