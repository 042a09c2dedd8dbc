/** The few Python string operations the core relies on, written out. */
module Strings {

  predicate StartsWith(s: string, prefix: string) {
    |prefix| <= |s| && s[..|prefix|] == prefix
  }

  /** Python's `s[0:n]`: a slice past the end is clamped to the length. */
  function Take(s: string, n: nat): (r: string)
    ensures |r| == if n <= |s| then n else |s|
    ensures r == s[..|r|]
  {
    if n <= |s| then s[..n] else s
  }

  /** Python's `s.split(sep)` for a one-character separator. */
  function Split(s: string, sep: char): (parts: seq<string>)
    ensures |parts| >= 1
    ensures forall i :: 0 <= i < |parts| ==> sep !in parts[i]
    ensures |parts| == 1 <==> sep !in s
    decreases |s|
  {
    if s == [] then [[]]
    else
      var tail := Split(s[1..], sep);
      if s[0] == sep then [[]] + tail
      else [[s[0]] + tail[0]] + tail[1..]
  }

  /** Python's `sep.join(parts)`: when no part holds the separator, splitting the
      joined string gives the parts back. */
  function Join(sep: char, parts: seq<string>): (r: string)
    ensures |parts| >= 1 && (forall i :: 0 <= i < |parts| ==> sep !in parts[i]) ==>
              Split(r, sep) == parts
    decreases |parts|
  {
    if |parts| == 0 then []
    else if |parts| == 1 then
      assert sep !in parts[0] ==> Split(parts[0], sep) == parts by {
        if sep !in parts[0] {
          SplitWithoutSeparator(parts[0], sep);
        }
      }
      parts[0]
    else
      var rest := Join(sep, parts[1..]);
      assert sep !in parts[0] ==>
               Split(parts[0] + [sep] + rest, sep) == [parts[0]] + Split(rest, sep) by {
        if sep !in parts[0] {
          SplitAfterPiece(parts[0], sep, rest);
        }
      }
      assert parts == [parts[0]] + parts[1..];
      parts[0] + [sep] + rest
  }

  /** A string without the separator splits into itself alone. */
  lemma {:induction false} SplitWithoutSeparator(s: string, sep: char)
    requires sep !in s
    ensures Split(s, sep) == [s]
    decreases |s|
  {
    if s != [] {
      SplitWithoutSeparator(s[1..], sep);
      assert [s[0]] + s[1..] == s;
    }
  }

  /** A separator-free piece followed by the separator splits off as the first part. */
  lemma {:induction false} SplitAfterPiece(piece: string, sep: char, rest: string)
    requires sep !in piece
    ensures Split(piece + [sep] + rest, sep) == [piece] + Split(rest, sep)
    decreases |piece|
  {
    var s := piece + [sep] + rest;
    if piece == [] {
      assert s[1..] == rest;
    } else {
      assert s[1..] == piece[1..] + [sep] + rest;
      SplitAfterPiece(piece[1..], sep, rest);
      assert [piece[0]] + piece[1..] == piece;
    }
  }

  /** Joining the pieces of a split with the same separator gives back the string. */
  lemma {:induction false} JoinSplit(s: string, sep: char)
    ensures Join(sep, Split(s, sep)) == s
    decreases |s|
  {
    if s != [] {
      var tail := Split(s[1..], sep);
      JoinSplit(s[1..], sep);
      if s[0] == sep {
        assert Split(s, sep)[1..] == tail;
      } else {
        var parts := Split(s, sep);
        assert parts[1..] == tail[1..];
        if |tail| > 1 {
          assert Join(sep, tail) == tail[0] + [sep] + Join(sep, tail[1..]);
          assert Join(sep, parts) == [s[0]] + tail[0] + [sep] + Join(sep, tail[1..]);
        }
      }
    }
  }
}
