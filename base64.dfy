/** Base64 with the standard alphabet of RFC 4648, section 4, read strictly:
    the text is a whole number of 4-character groups, every character is from
    the alphabet, and padding `=` may only close the last group. As in
    CPython's decoder, the unused low bits of a padded group are ignored. */
module Base64 {
  import opened Values

  /** The 6-bit value of an alphabet character; `=` and everything else have none. */
  function SextetValue(c: char): (r: Option<nat>)
    ensures r.Some? ==> r.value < 64
  {
    if 'A' <= c <= 'Z' then Some(c as int - 'A' as int)
    else if 'a' <= c <= 'z' then Some(c as int - 'a' as int + 26)
    else if '0' <= c <= '9' then Some(c as int - '0' as int + 52)
    else if c == '+' then Some(62)
    else if c == '/' then Some(63)
    else None
  }

  /** The alphabet character for a 6-bit value. */
  function SextetChar(v: nat): (c: char)
    requires v < 64
    ensures SextetValue(c) == Some(v)
  {
    if v < 26 then ('A' as int + v) as char
    else if v < 52 then ('a' as int + v - 26) as char
    else if v < 62 then ('0' as int + v - 52) as char
    else if v == 62 then '+'
    else '/'
  }

  /** Four alphabet characters carry three bytes. */
  function DecodeGroup(a: char, b: char, c: char, d: char): Option<seq<Byte>> {
    match (SextetValue(a), SextetValue(b), SextetValue(c), SextetValue(d))
    case (Some(x0), Some(x1), Some(x2), Some(x3)) =>
      Some([x0 * 4 + x1 / 16, (x1 % 16) * 16 + x2 / 4, (x2 % 4) * 64 + x3])
    case _ => None
  }

  /** The last group may end in `==` (one byte) or `=` (two bytes). */
  function DecodeLastGroup(a: char, b: char, c: char, d: char): Option<seq<Byte>> {
    if c == '=' && d == '=' then
      match (SextetValue(a), SextetValue(b))
      case (Some(x0), Some(x1)) => Some([x0 * 4 + x1 / 16])
      case _ => None
    else if d == '=' then
      match (SextetValue(a), SextetValue(b), SextetValue(c))
      case (Some(x0), Some(x1), Some(x2)) => Some([x0 * 4 + x1 / 16, (x1 % 16) * 16 + x2 / 4])
      case _ => None
    else DecodeGroup(a, b, c, d)
  }

  /** Strict decoding; None is Python's `binascii.Error`. */
  function Decode(t: string): (r: Option<seq<Byte>>)
    ensures r.Some? ==> |t| % 4 == 0
    ensures r.Some? ==> |t| / 4 * 3 - 2 <= |r.value| <= |t| / 4 * 3
    decreases |t|
  {
    if |t| == 0 then Some([])
    else if |t| < 4 then None
    else if |t| == 4 then DecodeLastGroup(t[0], t[1], t[2], t[3])
    else
      match (DecodeGroup(t[0], t[1], t[2], t[3]), Decode(t[4..]))
      case (Some(head), Some(rest)) => Some(head + rest)
      case _ => None
  }

  /** Three bytes as four alphabet characters. */
  function EncodeGroup(b0: Byte, b1: Byte, b2: Byte): string {
    [SextetChar(b0 / 4), SextetChar((b0 % 4) * 16 + b1 / 16),
     SextetChar((b1 % 16) * 4 + b2 / 64), SextetChar(b2 % 64)]
  }

  /** One or two trailing bytes, padded to four characters. */
  function EncodeTail(b: seq<Byte>): string
    requires 1 <= |b| <= 2
  {
    if |b| == 1 then [SextetChar(b[0] / 4), SextetChar((b[0] % 4) * 16), '=', '=']
    else [SextetChar(b[0] / 4), SextetChar((b[0] % 4) * 16 + b[1] / 16), SextetChar((b[1] % 16) * 4), '=']
  }

  /** Canonical encoding: each 3 bytes become 4 characters, and a short tail is padded. */
  function Encode(b: seq<Byte>): (t: string)
    ensures |t| == (|b| + 2) / 3 * 4
    decreases |b|
  {
    if |b| == 0 then []
    else if |b| <= 2 then EncodeTail(b)
    else EncodeGroup(b[0], b[1], b[2]) + Encode(b[3..])
  }

  /** The bit arithmetic of a group: splitting three bytes into sextets and joining them again. */
  lemma GroupBits(b0: Byte, b1: Byte, b2: Byte)
    ensures (b0 / 4) * 4 + ((b0 % 4) * 16 + b1 / 16) / 16 == b0
    ensures (((b0 % 4) * 16 + b1 / 16) % 16) * 16 + ((b1 % 16) * 4 + b2 / 64) / 4 == b1
    ensures (((b1 % 16) * 4 + b2 / 64) % 4) * 64 + b2 % 64 == b2
  {
  }

  /** A full group of the encoding decodes to its three bytes, and holds no padding. */
  lemma GroupDecodes(b0: Byte, b1: Byte, b2: Byte)
    ensures var g := EncodeGroup(b0, b1, b2);
            g[2] != '=' && g[3] != '=' && DecodeGroup(g[0], g[1], g[2], g[3]) == Some([b0, b1, b2])
  {
    var v0, v1, v2, v3 := b0 / 4, (b0 % 4) * 16 + b1 / 16, (b1 % 16) * 4 + b2 / 64, b2 % 64;
    GroupBits(b0, b1, b2);
    assert v0 * 4 + v1 / 16 == b0;
    assert (v1 % 16) * 16 + v2 / 4 == b1;
    assert (v2 % 4) * 64 + v3 == b2;
    var a, b, c, d := SextetChar(v0), SextetChar(v1), SextetChar(v2), SextetChar(v3);
    assert SextetValue('=') == None;
    assert (SextetValue(a), SextetValue(b), SextetValue(c), SextetValue(d)) == (Some(v0), Some(v1), Some(v2), Some(v3));
  }

  /** A padded tail decodes to its one or two bytes. */
  lemma TailDecodes(b: seq<Byte>)
    requires 1 <= |b| <= 2
    ensures var g := EncodeTail(b); DecodeLastGroup(g[0], g[1], g[2], g[3]) == Some(b)
  {
    if |b| == 1 {
      GroupBits(b[0], 0, 0);
      var v0, v1 := b[0] / 4, (b[0] % 4) * 16;
      assert v0 * 4 + v1 / 16 == b[0];
      assert [b[0]] == b;
    } else {
      GroupBits(b[0], b[1], 0);
      assert SextetValue('=') == None;
      assert [b[0], b[1]] == b;
    }
  }

  /** Decoding the canonical encoding gives back the bytes. */
  lemma {:induction false} DecodeEncode(b: seq<Byte>)
    ensures Decode(Encode(b)) == Some(b)
    decreases |b|
  {
    var t := Encode(b);
    if 1 <= |b| <= 2 {
      TailDecodes(b);
    } else if |b| >= 3 {
      var g := EncodeGroup(b[0], b[1], b[2]);
      GroupDecodes(b[0], b[1], b[2]);
      if |b| == 3 {
        assert t == g;
        assert [b[0], b[1], b[2]] == b;
      } else {
        DecodeEncode(b[3..]);
        assert t == g + Encode(b[3..]);
        assert t[4..] == Encode(b[3..]);
        assert [b[0], b[1], b[2]] + b[3..] == b;
      }
    }
  }
}
