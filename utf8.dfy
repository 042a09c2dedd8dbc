/** Strict UTF-8 (the form Python's `bytes.decode('utf-8')` accepts): no
    overlong forms, no surrogates, nothing above U+10FFFF. */
module Utf8 {
  import opened Values

  predicate IsContinuation(b: Byte) {
    0x80 <= b < 0xC0
  }

  /** The encoding of one Unicode scalar value. */
  function EncodeChar(c: char): (r: seq<Byte>)
    ensures 1 <= |r| <= 4
  {
    var n := c as int;
    if n < 0x80 then [n]
    else if n < 0x800 then [0xC0 + n / 64, 0x80 + n % 64]
    else if n < 0x10000 then [0xE0 + n / 4096, 0x80 + (n / 64) % 64, 0x80 + n % 64]
    else [0xF0 + n / 262144, 0x80 + (n / 4096) % 64, 0x80 + (n / 64) % 64, 0x80 + n % 64]
  }

  function Encode(s: string): seq<Byte>
    decreases |s|
  {
    if s == [] then [] else EncodeChar(s[0]) + Encode(s[1..])
  }

  /** How many bytes a sequence led by `b` takes; 0 when `b` cannot lead one. */
  function LeadLength(b: Byte): nat {
    if b < 0x80 then 1
    else if 0xC0 <= b < 0xE0 then 2
    else if 0xE0 <= b < 0xF0 then 3
    else if 0xF0 <= b < 0xF8 then 4
    else 0
  }

  /** The smallest scalar value that may be written with `n` bytes. */
  function MinScalar(n: nat): int {
    if n <= 1 then 0 else if n == 2 then 0x80 else if n == 3 then 0x800 else 0x10000
  }

  /** The scalar value carried by the payload bits of a (lead, continuations) sequence. */
  function Scalar(b: seq<Byte>): int
    requires 1 <= |b| <= 4 && LeadLength(b[0]) == |b|
  {
    var b0: int := b[0];
    if |b| == 1 then b0
    else if |b| == 2 then (b0 - 0xC0) * 64 + (b[1] as int - 0x80)
    else if |b| == 3 then (b0 - 0xE0) * 4096 + (b[1] as int - 0x80) * 64 + (b[2] as int - 0x80)
    else (b0 - 0xF0) * 262144 + (b[1] as int - 0x80) * 4096 + (b[2] as int - 0x80) * 64 + (b[3] as int - 0x80)
  }

  /** Decodes exactly one encoded scalar value, or rejects it. */
  function DecodeOne(b: seq<Byte>): (r: Option<char>)
    requires 1 <= |b| <= 4
  {
    if LeadLength(b[0]) != |b| then None
    else if !(forall i :: 1 <= i < |b| ==> IsContinuation(b[i])) then None
    else
      var cp := Scalar(b);
      if cp < MinScalar(|b|) || cp > 0x10FFFF || (0xD800 <= cp < 0xE000) then None
      else Some(cp as char)
  }

  /** Strict decoding; every byte string it accepts is the encoding of its result. */
  function Decode(b: seq<Byte>): (r: Option<string>)
    ensures r.Some? ==> Encode(r.value) == b
    decreases |b|
  {
    if b == [] then Some([])
    else
      var n := LeadLength(b[0]);
      if n == 0 || |b| < n then None
      else match DecodeOne(b[..n])
        case None => None
        case Some(c) =>
          match Decode(b[n..])
          case None => None
          case Some(rest) =>
            DecodeOneEncodes(b[..n]);
            assert ([c] + rest)[1..] == rest;
            assert b == b[..n] + b[n..];
            Some([c] + rest)
  }

  /** A sequence that DecodeOne accepts is the encoding of the decoded character. */
  lemma DecodeOneEncodes(b: seq<Byte>)
    requires 1 <= |b| <= 4
    requires DecodeOne(b).Some?
    ensures EncodeChar(DecodeOne(b).value) == b
  {
    var cp := Scalar(b);
    assert cp == DecodeOne(b).value as int;
    var b0: int := b[0];
    if |b| == 2 {
      var b1: int := b[1];
      assert IsContinuation(b[1]);
      assert cp / 64 == b0 - 0xC0 && cp % 64 == b1 - 0x80;
    } else if |b| == 3 {
      var b1: int, b2: int := b[1], b[2];
      assert IsContinuation(b[1]) && IsContinuation(b[2]);
      assert cp / 4096 == b0 - 0xE0;
      assert cp / 64 == (b0 - 0xE0) * 64 + (b1 - 0x80);
      assert (cp / 64) % 64 == b1 - 0x80 && cp % 64 == b2 - 0x80;
    } else if |b| == 4 {
      var b1: int, b2: int, b3: int := b[1], b[2], b[3];
      assert IsContinuation(b[1]) && IsContinuation(b[2]) && IsContinuation(b[3]);
      assert cp / 262144 == b0 - 0xF0;
      assert cp / 4096 == (b0 - 0xF0) * 64 + (b1 - 0x80);
      assert cp / 64 == (b0 - 0xF0) * 4096 + (b1 - 0x80) * 64 + (b2 - 0x80);
      assert (cp / 4096) % 64 == b1 - 0x80;
      assert (cp / 64) % 64 == b2 - 0x80 && cp % 64 == b3 - 0x80;
    }
  }

  /** Every character's encoding is led by a byte announcing its length, and decodes back. */
  lemma EncodeCharDecodes(c: char)
    ensures LeadLength(EncodeChar(c)[0]) == |EncodeChar(c)|
    ensures DecodeOne(EncodeChar(c)) == Some(c)
  {
    var n := c as int;
    if n < 0x80 {
    } else if n < 0x800 {
      TwoByteScalar(n);
    } else if n < 0x10000 {
      ThreeByteScalar(n);
    } else {
      FourByteScalar(n);
    }
  }

  lemma TwoByteScalar(n: int)
    requires 0x80 <= n < 0x800
    ensures 0xC0 <= 0xC0 + n / 64 < 0xE0
    ensures (n / 64) * 64 + n % 64 == n
  {
  }

  lemma ThreeByteScalar(n: int)
    requires 0x800 <= n < 0x10000
    ensures 0xE0 <= 0xE0 + n / 4096 < 0xF0
    ensures (n / 4096) * 4096 + ((n / 64) % 64) * 64 + n % 64 == n
  {
  }

  lemma FourByteScalar(n: int)
    requires 0x10000 <= n <= 0x10FFFF
    ensures 0xF0 <= 0xF0 + n / 262144 < 0xF8
    ensures (n / 262144) * 262144 + ((n / 4096) % 64) * 4096 + ((n / 64) % 64) * 64 + n % 64 == n
  {
  }

  /** Decoding an encoding gives back the string. */
  lemma {:induction false} DecodeEncode(s: string)
    ensures Decode(Encode(s)) == Some(s)
    decreases |s|
  {
    if s != [] {
      var e := EncodeChar(s[0]);
      var b := Encode(s);
      EncodeCharDecodes(s[0]);
      DecodeEncode(s[1..]);
      assert b[..|e|] == e;
      assert b[|e|..] == Encode(s[1..]);
      assert [s[0]] + s[1..] == s;
    }
  }
}
