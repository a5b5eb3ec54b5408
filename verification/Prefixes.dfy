/** The ensemble prefixes: splitting SSKEYIN and choosing a data source. */
module Prefixes {
  import opened Basics

  const COMMA: byte := 0x2C

  /** What a C string holds: the bytes before the first NUL. */
  function CString(s: Bytes): Bytes {
    match FindFirst(s, 0)
    case None => s
    case Some(i) => s[..i]
  }

  /** The parts of a text between its commas, empty ones included. */
  function Parts(s: Bytes): seq<Bytes>
    decreases |s|
  {
    match FindFirst(s, COMMA)
    case None => [s]
    case Some(i) => [s[..i]] + Parts(s[i + 1..])
  }

  function NonEmpty(parts: seq<Bytes>): seq<Bytes> {
    if parts == [] then []
    else (if parts[0] == [] then [] else [parts[0]]) + NonEmpty(parts[1..])
  }

  function Tokens(s: Bytes): seq<Bytes> {
    NonEmpty(Parts(s))
  }

  /** The text that has the given parts. */
  function Join(parts: seq<Bytes>): Bytes
    requires parts != []
  {
    if |parts| == 1 then parts[0] else parts[0] + [COMMA] + Join(parts[1..])
  }

  lemma PartsNext(p: Bytes, rest: Bytes)
    requires COMMA !in p
    ensures Parts(p + [COMMA] + rest) == [p] + Parts(rest)
  {
    var s := p + [COMMA] + rest;
    FirstMeans(s, COMMA);
    assert s[|p|] == COMMA;
    assert forall j :: 0 <= j < |p| ==> s[j] == p[j];
    assert FindFirst(s, COMMA) == Some(|p|);
    assert s[..|p|] == p && s[|p| + 1..] == rest;
  }

  /** Splitting and joining are inverse: every text is the join of its comma-free parts, and
      of no other comma-free parts. */
  lemma {:induction false} PartsOfJoin(parts: seq<Bytes>)
    requires parts != [] && forall i :: 0 <= i < |parts| ==> COMMA !in parts[i]
    ensures Parts(Join(parts)) == parts
    decreases |parts|
  {
    FirstMeans(parts[0], COMMA);
    if |parts| > 1 {
      PartsOfJoin(parts[1..]);
      PartsNext(parts[0], Join(parts[1..]));
    }
  }

  lemma {:induction false} JoinOfParts(s: Bytes)
    ensures Parts(s) != [] && (forall i :: 0 <= i < |Parts(s)| ==> COMMA !in Parts(s)[i])
    ensures Join(Parts(s)) == s
    decreases |s|
  {
    FirstMeans(s, COMMA);
    match FindFirst(s, COMMA)
    case None =>
    case Some(i) =>
      JoinOfParts(s[i + 1..]);
      assert Parts(s)[1..] == Parts(s[i + 1..]);
      assert s == s[..i] + [COMMA] + s[i + 1..];
  }

  /** One token, if it is not empty, and then those of the rest. */
  lemma TokensNext(p: Bytes, rest: Bytes)
    requires COMMA !in p
    ensures Tokens(p + [COMMA] + rest) == (if p == [] then [] else [p]) + Tokens(rest)
  {
    PartsNext(p, rest);
    assert ([p] + Parts(rest))[1..] == Parts(rest);
  }

  lemma TokensLast(p: Bytes)
    requires COMMA !in p
    ensures Tokens(p) == if p == [] then [] else [p]
  {
    FirstMeans(p, COMMA);
    assert Parts(p) == [p];
    assert NonEmpty([p]) == (if p == [] then [] else [p]) + NonEmpty([]);
  }

  function TokensFrom(text: Bytes, a: nat): seq<Bytes>
    requires a <= |text|
  {
    Tokens(text[a..])
  }

  lemma TokensFromStart(text: Bytes)
    ensures [] + TokensFrom(text, 0) == Tokens(text)
  {
    assert text[0..] == text;
  }

  lemma TokenAt(text: Bytes, a: nat, b: nat, before: seq<Bytes>)
    requires a <= b < |text| && text[b] == COMMA
    requires COMMA !in text[a..b]
    ensures before + TokensFrom(text, a) == (if a == b then before else before + [text[a..b]]) + TokensFrom(text, b + 1)
  {
    assert text[a..] == text[a..b] + [COMMA] + text[b + 1..];
    TokensNext(text[a..b], text[b + 1..]);
  }

  /** The two-pointer loop of `_get_prefix_settings`: `a` is the start of the current token,
      `b` scans the C string up to its terminator. */
  method SplitPrefixes(s: Bytes) returns (tokens: seq<Bytes>)
    ensures tokens == Tokens(CString(s))
  {
    var text := CString(s);
    tokens := [];
    var a, b := 0, 0;
    TokensFromStart(text);
    while b < |text|
      invariant a <= b <= |text|
      invariant COMMA !in text[a..b]
      invariant tokens + TokensFrom(text, a) == Tokens(text)
    {
      if text[b] == COMMA {
        TokenAt(text, a, b, tokens);
        if a != b {
          tokens := tokens + [text[a..b]];
        }
        b := b + 1;
        a := b;
      } else {
        assert text[a..b + 1] == text[a..b] + [text[b]];
        b := b + 1;
      }
    }
    TokenAtEnd(text, a, tokens);
    if a != b {
      tokens := tokens + [text[a..b]];
    }
  }

  lemma TokenAtEnd(text: Bytes, a: nat, before: seq<Bytes>)
    requires a <= |text| && COMMA !in text[a..|text|]
    ensures before + TokensFrom(text, a) == if a == |text| then before else before + [text[a..|text|]]
  {
    assert text[a..|text|] == text[a..];
    TokensLast(text[a..]);
  }


  /** The active get prefix after some calls of `set_data_source`, refused ones included. */
  function ActiveAfter(prefixes: seq<Bytes>, ids: seq<Bytes>): Bytes {
    if ids == [] then (if prefixes == [] then [] else prefixes[0])
    else if ids[|ids| - 1] in prefixes then ids[|ids| - 1]
    else ActiveAfter(prefixes, ids[..|ids| - 1])
  }

  /** It is always one of the listed prefixes, or empty when none is listed; and it is the
      first one unless a later listed one was asked for. */
  lemma {:induction false} ActiveIsListed(prefixes: seq<Bytes>, ids: seq<Bytes>)
    ensures if prefixes == [] then ActiveAfter(prefixes, ids) == [] else ActiveAfter(prefixes, ids) in prefixes
    ensures (forall i :: 0 <= i < |ids| ==> ids[i] !in prefixes) && prefixes != [] ==> ActiveAfter(prefixes, ids) == prefixes[0]
    decreases |ids|
  {
    if ids != [] {
      ActiveIsListed(prefixes, ids[..|ids| - 1]);
    }
  }

  lemma {:induction false} NonEmptyAll(parts: seq<Bytes>)
    requires forall i :: 0 <= i < |parts| ==> parts[i] != []
    ensures NonEmpty(parts) == parts
    decreases |parts|
  {
    if parts != [] {
      NonEmptyAll(parts[1..]);
      assert parts == [parts[0]] + parts[1..];
    }
  }

  /** An empty part counts for nothing, wherever it stands. */
  lemma {:induction false} EmptyPartSkipped(a: seq<Bytes>, b: seq<Bytes>)
    ensures NonEmpty(a + [[]] + b) == NonEmpty(a + b)
    decreases |a|
  {
    if a == [] {
      assert ([] + [[]] + b)[1..] == b && [] + b == b;
    } else {
      EmptyPartSkipped(a[1..], b);
      assert (a + [[]] + b)[1..] == a[1..] + [[]] + b && (a + b)[1..] == a[1..] + b;
    }
  }

  /** A C string ends at the first NUL, if there is one. */
  lemma CStringEnds(a: Bytes, b: Bytes)
    requires 0 !in a
    ensures CString(a) == a && CString(a + [0] + b) == a
  {
    FirstMeans(a, 0);
    FirstSkips(a, [0] + b, 0);
    assert a + [0] + b == a + ([0] + b);
  }

  lemma {:induction false} JoinHasNoNul(parts: seq<Bytes>)
    requires parts != [] && forall i :: 0 <= i < |parts| ==> 0 !in parts[i]
    ensures 0 !in Join(parts)
    decreases |parts|
  {
    if |parts| > 1 { JoinHasNoNul(parts[1..]); }
  }

  /** A setting joined from non-empty parts without comma and NUL is split into exactly these. */
  lemma TokensOfJoin(parts: seq<Bytes>)
    requires parts != []
    requires forall i :: 0 <= i < |parts| ==> parts[i] != [] && COMMA !in parts[i] && 0 !in parts[i]
    ensures Tokens(CString(Join(parts))) == parts
  {
    JoinHasNoNul(parts);
    CStringEnds(Join(parts), []);
    PartsOfJoin(parts);
    NonEmptyAll(parts);
  }

  /** An empty setting has no tokens. */
  lemma NoTokens()
    ensures Tokens(CString([])) == []
  {
    TokensLast([]);
  }
}
