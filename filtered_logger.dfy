/** `filter_datum` (0x00): redaction of `field=value<separator>` in a log line.
    Each field is one `re.sub` pass with the pattern `field + "=.*?" + separator`;
    for fields and separators free of regex metacharacters that pass is the
    literal rewriting `Redact` below. */
module FilteredLogger {
  import opened Values
  import opened Strings

  /** The characters `re` gives a meaning to in a pattern. */
  const RegexMetacharacters: set<char> :=
    {'.', '^', '$', '*', '+', '?', '{', '}', '[', ']', '\\', '|', '(', ')'}

  predicate IsLiteral(s: string) {
    forall c :: c in s ==> c !in RegexMetacharacters
  }

  /** `p` occurs somewhere in `s`. */
  predicate Occurs(p: string, s: string) {
    exists i :: 0 <= i <= |s| && StartsWith(s[i..], p)
  }

  /** The lazy `.*?` followed by the separator, matched at the start of `t`: the
      length of the shortest newline-free run that the separator follows. */
  function ValueLength(t: string, separator: string): (r: Option<nat>)
    ensures r.Some? ==> r.value <= |t| && StartsWith(t[r.value..], separator) && '\n' !in t[..r.value]
    ensures r.Some? ==> forall j :: 0 <= j < r.value ==> !StartsWith(t[j..], separator)
    ensures r.None? ==> forall k :: 0 <= k <= |t| && '\n' !in t[..k] ==> !StartsWith(t[k..], separator)
    decreases |t|
  {
    if StartsWith(t, separator) then Some(0)
    else if t == [] || t[0] == '\n' then None
    else
      match ValueLength(t[1..], separator)
      case None =>
        assert forall k :: 1 <= k <= |t| ==> t[k..] == t[1..][k - 1..] && t[1..][..k - 1] == t[..k][1..];
        None
      case Some(k) =>
        assert forall j :: 1 <= j <= |t| ==> t[j..] == t[1..][j - 1..];
        assert t[..k + 1] == [t[0]] + t[1..][..k];
        Some(k + 1)
  }

  /** One `re.sub` pass for `field`: scanning left to right, every non-overlapping
      `field=value<separator>` becomes `field=<redaction><separator>`. */
  function Redact(field: string, redaction: string, separator: string, s: string): string
    decreases |s|
  {
    if s == [] then []
    else
      var key := field + "=";
      var m := if StartsWith(s, key) then ValueLength(s[|key|..], separator) else None;
      if m.Some? then
        key + redaction + separator + Redact(field, redaction, separator, s[|key| + m.value + |separator|..])
      else
        [s[0]] + Redact(field, redaction, separator, s[1..])
  }

  /** ValueLength finds `n` exactly when `n` is the shortest newline-free run before a separator. */
  lemma ValueLengthIs(t: string, separator: string, n: nat)
    requires n <= |t| && StartsWith(t[n..], separator) && '\n' !in t[..n]
    requires forall j :: 0 <= j < n ==> !StartsWith(t[j..], separator)
    ensures ValueLength(t, separator) == Some(n)
  {
  }

  /** Whether the separator starts inside the value depends only on value and separator. */
  lemma SeparatorInsideValue(value: string, separator: string, rest: string, j: nat)
    requires j < |value|
    ensures StartsWith((value + separator + rest)[j..], separator) <==> StartsWith((value + separator)[j..], separator)
  {
  }

  /** With a one-character separator, the shortest run is the value having no separator. */
  lemma SingleCharacterSeparator(value: string, c: char)
    requires c !in value
    ensures forall j :: 0 <= j < |value| ==> !StartsWith((value + [c])[j..], [c])
  {
    forall j | 0 <= j < |value|
      ensures !StartsWith((value + [c])[j..], [c])
    {
      assert (value + [c])[j..][..1] == [value[j]];
    }
  }

  /** At a match, the value is replaced and the scan resumes after the separator. */
  lemma RedactAtMatch(field: string, redaction: string, separator: string, value: string, rest: string)
    requires '\n' !in value
    requires forall j :: 0 <= j < |value| ==> !StartsWith((value + separator)[j..], separator)
    ensures Redact(field, redaction, separator, field + "=" + value + separator + rest)
            == field + "=" + redaction + separator + Redact(field, redaction, separator, rest)
  {
    var key := field + "=";
    var s := key + value + separator + rest;
    var t := value + separator + rest;
    assert s == key + t;
    assert s[|key|..] == t;
    assert t[|value|..] == separator + rest;
    assert t[..|value|] == value;
    forall j | 0 <= j < |value|
      ensures !StartsWith(t[j..], separator)
    {
      SeparatorInsideValue(value, separator, rest, j);
    }
    ValueLengthIs(t, separator, |value|);
    assert s[|key| + |value| + |separator|..] == rest;
  }

  /** Where the key `field=` does not start, the character is kept. */
  lemma RedactSkips(field: string, redaction: string, separator: string, c: char, rest: string)
    requires !StartsWith([c] + rest, field + "=")
    ensures Redact(field, redaction, separator, [c] + rest) == [c] + Redact(field, redaction, separator, rest)
  {
  }

  /** A message in which `field=` does not occur is returned unchanged. */
  lemma {:induction false} RedactWithoutKey(field: string, redaction: string, separator: string, s: string)
    requires !Occurs(field + "=", s)
    ensures Redact(field, redaction, separator, s) == s
    decreases |s|
  {
    if s != [] {
      assert s[0..] == s;
      assert !StartsWith(s, field + "=");
      assert forall i :: 0 <= i <= |s| - 1 ==> s[1..][i..] == s[i + 1..];
      RedactWithoutKey(field, redaction, separator, s[1..]);
      assert [s[0]] + s[1..] == s;
    }
  }

  /** A `field=...` that no separator follows (at the end of the message, say) is
      left as it is: with a non-empty separator that never occurs, nothing changes. */
  lemma {:induction false} RedactWithoutSeparator(field: string, redaction: string, separator: string, s: string)
    requires separator != [] && !Occurs(separator, s)
    ensures Redact(field, redaction, separator, s) == s
    decreases |s|
  {
    if s != [] {
      var key := field + "=";
      if StartsWith(s, key) {
        var t := s[|key|..];
        assert forall k :: 0 <= k <= |t| ==> t[k..] == s[|key| + k..];
        assert ValueLength(t, separator).None?;
      }
      assert forall i :: 0 <= i <= |s| - 1 ==> s[1..][i..] == s[i + 1..];
      RedactWithoutSeparator(field, redaction, separator, s[1..]);
      assert [s[0]] + s[1..] == s;
    }
  }

  /** With a one-character separator, the lazy match never reaches into text
      after the value that lacks the separator. */
  lemma {:induction false} ValueLengthIgnoresTail(u: string, t: string, c: char)
    requires c !in t
    ensures ValueLength(u + t, [c]) == ValueLength(u, [c])
    decreases |u|
  {
    if u == [] {
      assert u + t == t;
      assert forall k :: 0 <= k < |t| ==> t[k..][..1] == [t[k]];
    } else {
      var s := u + t;
      assert s[..1] == u[..1] == [u[0]];
      assert s[1..] == u[1..] + t;
      ValueLengthIgnoresTail(u[1..], t, c);
    }
  }

  /** Where no match starts at the head of `p`, the head is kept whether or not a
      separator-free tail follows. */
  lemma {:induction false} SkipWithTail(field: string, redaction: string, c: char, p: string, t: string)
    requires c !in t && p != []
    requires !(StartsWith(p, field + "=") && ValueLength(p[|field + "="|..], [c]).Some?)
    ensures Redact(field, redaction, [c], p + t) == [p[0]] + Redact(field, redaction, [c], p[1..] + t)
    ensures Redact(field, redaction, [c], p) == [p[0]] + Redact(field, redaction, [c], p[1..])
  {
    var key := field + "=";
    var s := p + t;
    assert s[1..] == p[1..] + t;
    assert |key| <= |p| ==> s[..|key|] == p[..|key|];
    if StartsWith(s, key) {
      if |key| <= |p| {
        assert s[|key|..] == p[|key|..] + t;
        ValueLengthIgnoresTail(p[|key|..], t, c);
      } else {
        var v := s[|key|..];
        assert v == t[|key| - |p|..];
        assert [] + v == v;
        ValueLengthIgnoresTail([], v, c);
      }
    }
  }

  /** One step of the scan at a match: the match is rewritten and the scan goes on after it. */
  lemma {:induction false} RedactMatchStep(field: string, redaction: string, separator: string, s: string, m: nat)
    requires StartsWith(s, field + "=") && ValueLength(s[|field + "="|..], separator) == Some(m)
    ensures |field + "="| + m + |separator| <= |s|
    ensures Redact(field, redaction, separator, s)
            == field + "=" + redaction + separator + Redact(field, redaction, separator, s[|field + "="| + m + |separator|..])
  {
  }

  /** A match that ends inside `p` is redacted whether or not a separator-free tail follows. */
  lemma {:induction false} MatchWithTail(field: string, redaction: string, c: char, p: string, t: string, m: nat)
    requires c !in t
    requires StartsWith(p, field + "=") && ValueLength(p[|field + "="|..], [c]) == Some(m)
    ensures |field + "="| + m + 1 <= |p|
    ensures Redact(field, redaction, [c], p + t)
            == field + "=" + redaction + [c] + Redact(field, redaction, [c], p[|field + "="| + m + 1..] + t)
    ensures Redact(field, redaction, [c], p)
            == field + "=" + redaction + [c] + Redact(field, redaction, [c], p[|field + "="| + m + 1..])
  {
    var key := field + "=";
    var s := p + t;
    RedactMatchStep(field, redaction, [c], p, m);
    assert StartsWith(s, key) by {
      assert s[..|key|] == p[..|key|];
    }
    assert ValueLength(s[|key|..], [c]) == Some(m) by {
      assert s[|key|..] == p[|key|..] + t;
      ValueLengthIgnoresTail(p[|key|..], t, c);
    }
    var n := |key| + m + 1;
    assert n <= |p|;
    assert s[n..] == p[n..] + t;
    assert Redact(field, redaction, [c], s) == key + redaction + [c] + Redact(field, redaction, [c], s[n..]) by {
      RedactMatchStep(field, redaction, [c], s, m);
    }
  }

  /** A tail that holds no one-character separator is passed through untouched:
      a `field=...` whose value runs into it, or lies wholly inside it, is kept. */
  lemma {:induction false} TailWithoutSeparatorKept(field: string, redaction: string, c: char, p: string, t: string)
    requires c !in t
    ensures Redact(field, redaction, [c], p + t) == Redact(field, redaction, [c], p) + t
    decreases |p|, 1
  {
    var key := field + "=";
    if p == [] {
      assert p + t == t;
      assert forall i :: 0 <= i < |t| ==> t[i..][..1] == [t[i]];
      RedactWithoutSeparator(field, redaction, [c], t);
    } else if StartsWith(p, key) && ValueLength(p[|key|..], [c]).Some? {
      TailKeptAfterMatch(field, redaction, c, p, t, ValueLength(p[|key|..], [c]).value);
    } else {
      TailKeptAfterSkip(field, redaction, c, p, t);
    }
  }

  /** TailWithoutSeparatorKept where a match starts `p`. */
  lemma {:induction false} TailKeptAfterMatch(field: string, redaction: string, c: char, p: string, t: string, m: nat)
    requires c !in t
    requires StartsWith(p, field + "=") && ValueLength(p[|field + "="|..], [c]) == Some(m)
    ensures Redact(field, redaction, [c], p + t) == Redact(field, redaction, [c], p) + t
    decreases |p|, 0
  {
    MatchWithTail(field, redaction, c, p, t, m);
    TailWithoutSeparatorKept(field, redaction, c, p[|field + "="| + m + 1..], t);
  }

  /** TailWithoutSeparatorKept where the head of `p` is kept. */
  lemma {:induction false} TailKeptAfterSkip(field: string, redaction: string, c: char, p: string, t: string)
    requires c !in t && p != []
    requires !(StartsWith(p, field + "=") && ValueLength(p[|field + "="|..], [c]).Some?)
    ensures Redact(field, redaction, [c], p + t) == Redact(field, redaction, [c], p) + t
    decreases |p|, 0
  {
    SkipWithTail(field, redaction, c, p, t);
    TailWithoutSeparatorKept(field, redaction, c, p[1..], t);
  }

  /** Text in which no `field=` starts before `rest` is kept as it is. */
  lemma {:induction false} RedactKeepsPrefix(field: string, redaction: string, separator: string,
                                             prefix: string, rest: string)
    requires forall i :: 0 <= i < |prefix| ==> !StartsWith((prefix + rest)[i..], field + "=")
    ensures Redact(field, redaction, separator, prefix + rest)
            == prefix + Redact(field, redaction, separator, rest)
    decreases |prefix|
  {
    if prefix != [] {
      var tail := prefix[1..];
      assert prefix + rest == [prefix[0]] + (tail + rest);
      assert (prefix + rest)[0..] == prefix + rest;
      RedactSkips(field, redaction, separator, prefix[0], tail + rest);
      forall i | 0 <= i < |tail|
        ensures !StartsWith((tail + rest)[i..], field + "=")
      {
        assert (tail + rest)[i..] == (prefix + rest)[i + 1..];
      }
      RedactKeepsPrefix(field, redaction, separator, tail, rest);
      assert prefix == [prefix[0]] + tail;
    }
  }

  /** Matching is not anchored to field boundaries: `name` also redacts `username=…;`. */
  lemma NotAnchored(value: string, redaction: string)
    requires '\n' !in value && ';' !in value
    ensures Redact("name", redaction, ";", "username=" + value + ";") == "username=" + redaction + ";"
  {
    var rest := "name" + "=" + value + ";" + "";
    assert "username=" + value + ";" == "user" + rest;
    forall i | 0 <= i < 4
      ensures !StartsWith(("user" + rest)[i..], "name=")
    {
      assert ("user" + rest)[i..][0] == "user"[i];
    }
    RedactKeepsPrefix("name", redaction, ";", "user", rest);
    SingleCharacterSeparator(value, ';');
    RedactAtMatch("name", redaction, ";", value, "");
  }

  /** The passes of `filter_datum`, in list order, each on the previous pass's output.
      A message in which no listed `field=` occurs (so no pass has anything to
      rewrite) is returned unchanged; this covers the empty field list. */
  function FilterAll(fields: seq<string>, redaction: string, message: string, separator: string): (r: string)
    ensures (forall f :: f in fields ==> !Occurs(f + "=", message)) ==> r == message
    decreases |fields|
  {
    if fields == [] then message
    else
      var last := fields[|fields| - 1];
      assert forall f :: f in fields[..|fields| - 1] ==> f in fields;
      assert (forall f :: f in fields ==> !Occurs(f + "=", message)) ==>
               Redact(last, redaction, separator, message) == message by {
        if !Occurs(last + "=", message) {
          RedactWithoutKey(last, redaction, separator, message);
        }
      }
      Redact(fields[|fields| - 1], redaction, separator, FilterAll(fields[..|fields| - 1], redaction, message, separator))
  }

  /** Running two lists of fields is running their concatenation. */
  lemma {:induction false} FilterAllConcat(first: seq<string>, second: seq<string>, redaction: string,
                                           message: string, separator: string)
    ensures FilterAll(first + second, redaction, message, separator)
            == FilterAll(second, redaction, FilterAll(first, redaction, message, separator), separator)
    decreases |second|
  {
    if second == [] {
      assert first + second == first;
    } else {
      var last := |second| - 1;
      assert (first + second)[..|first + second| - 1] == first + second[..last];
      FilterAllConcat(first, second[..last], redaction, message, separator);
    }
  }

  /** `filter_datum`: the loop over `fields`, reassigning the message on each pass. */
  method FilterDatum(fields: seq<string>, redaction: string, message: string, separator: string)
    returns (filtered: string)
    requires forall f :: f in fields ==> IsLiteral(f)
    requires IsLiteral(separator)
    requires '\\' !in redaction
    ensures filtered == FilterAll(fields, redaction, message, separator)
  {
    filtered := message;
    for i := 0 to |fields|
      invariant filtered == FilterAll(fields[..i], redaction, message, separator)
    {
      assert fields[..i + 1][..i] == fields[..i];
      filtered := Redact(fields[i], redaction, separator, filtered);
    }
    assert fields[..|fields|] == fields;
  }
}
