/** The key scheme of datasets and lists, and the hash tags that place keys on shards
    (`src/cpp/client.cpp`, `src/cpp/rediscluster.cpp`). */
module Keys {
  import opened Basics
  import Metadata

  const OPEN: byte := 0x7B   // {
  const CLOSE: byte := 0x7D  // }
  const DOT: byte := 0x2E    // .

  /** `_put_prefix` and `_get_prefix`: the configured prefix and a dot, or nothing. */
  function ResolvePrefix(keyPrefix: Bytes): Bytes {
    if |keyPrefix| > 0 then keyPrefix + [DOT] else []
  }

  /** `_build_dataset_key` for a resolved prefix. */
  function DatasetKey(prefix: Bytes, name: Bytes): Bytes {
    prefix + [OPEN] + name + [CLOSE]
  }

  /** `_build_dataset_tensor_key`. */
  function TensorKey(base: Bytes, tensor: Bytes): Bytes {
    base + [DOT] + tensor
  }

  /** `_build_dataset_meta_key`, which is also the acknowledgement key. */
  function MetaKey(base: Bytes): Bytes {
    base + Ascii(".meta")
  }

  /** `_build_list_key` for a resolved prefix. */
  function ListKey(prefix: Bytes, list: Bytes): Bytes {
    prefix + list
  }

  /** The metadata key is the key a tensor called "meta" would have. */
  lemma MetaKeyIsTensorKey(base: Bytes)
    ensures MetaKey(base) == TensorKey(base, Metadata.META_NAME)
  {
    assert Ascii(".meta") == [DOT] + Metadata.META_NAME;
    assert base + ([DOT] + Metadata.META_NAME) == base + [DOT] + Metadata.META_NAME;
  }

  lemma TensorKeyInjective(base: Bytes, t: Bytes, u: Bytes)
    requires TensorKey(base, t) == TensorKey(base, u)
    ensures t == u
  {
    assert TensorKey(base, t)[|base| + 1..] == t;
    assert TensorKey(base, u)[|base| + 1..] == u;
  }

  lemma MetaKeyApart(base: Bytes, t: Bytes)
    ensures MetaKey(base) == TensorKey(base, t) <==> t == Metadata.META_NAME
  {
    MetaKeyIsTensorKey(base);
    if MetaKey(base) == TensorKey(base, t) {
      TensorKeyInjective(base, t, Metadata.META_NAME);
    }
  }

  /** The keys a dataset key owns: everything that continues it with a dot. */
  ghost predicate InSpace(key: Bytes, base: Bytes) {
    base + [DOT] <= key
  }

  lemma TensorKeyInSpace(base: Bytes, t: Bytes)
    ensures InSpace(TensorKey(base, t), base)
  {
  }

  lemma MetaKeyInSpace(base: Bytes)
    ensures InSpace(MetaKey(base), base)
  {
    MetaKeyIsTensorKey(base);
  }

  ghost predicate BraceFree(prefix: Bytes) {
    OPEN !in prefix && CLOSE !in prefix
  }

  lemma FirstAfter(p: Bytes, c: byte, rest: Bytes)
    requires c !in p
    ensures FindFirst(p + [c] + rest, c) == Some(|p|)
  {
    FirstSkips(p, [c] + rest, c);
    assert p + [c] + rest == p + ([c] + rest);
  }

  /** Two keys with the same bytes have the same prefix and the same bytes after the brace. */
  lemma SamePrefix(p: Bytes, n: Bytes, q: Bytes, m: Bytes)
    requires OPEN !in p && OPEN !in q
    requires p + [OPEN] + n == q + [OPEN] + m
    ensures p == q && n == m
  {
    var k := p + [OPEN] + n;
    FirstAfter(p, OPEN, n);
    FirstAfter(q, OPEN, m);
    assert k[..|p|] == p && k[..|q|] == q;
    assert k[|p| + 1..] == n && k[|q| + 1..] == m;
  }

  /** The name that starts with `n`, a closing brace and a dot. */
  predicate Extends(m: Bytes, n: Bytes) {
    n + [CLOSE, DOT] <= m
  }

  /** Two datasets that can share keys: the same one, or one whose name continues the other's
      with a closing brace and a dot. */
  predicate Entangled(p: Bytes, n: Bytes, q: Bytes, m: Bytes) {
    p == q && (n == m || Extends(m, n) || Extends(n, m))
  }

  /** What follows the dot of `n` in the key of a tensor `u` of the longer-named `m`. */
  function Continuation(n: Bytes, m: Bytes, u: Bytes): Bytes
    requires Extends(m, n)
  {
    m[|n| + 2..] + [CLOSE, DOT] + u
  }

  lemma NamedParts(n: Bytes, t: Bytes, m: Bytes, u: Bytes)
    requires n + [CLOSE, DOT] + t == m + [CLOSE, DOT] + u && |n| <= |m|
    ensures (n == m && t == u) || (Extends(m, n) && t == Continuation(n, m, u))
  {
    var k := n + [CLOSE, DOT] + t;
    assert k[..|n|] == n && k[..|m|] == m;
    assert k[|n|] == CLOSE && k[|n| + 1] == DOT && k[|m|] == CLOSE && k[|m| + 1] == DOT;
    assert k[|n| + 2..] == t && k[|m| + 2..] == u;
    if |n| == |m| {
      assert n == m;
    } else {
      assert |n| + 1 != |m|;
      assert m[..|n|] == k[..|m|][..|n|] == n;
      assert m[|n|] == CLOSE && m[|n| + 1] == DOT;
      assert m[..|n| + 2] == n + [CLOSE, DOT];
      assert t == k[|n| + 2..] == m[|n| + 2..] + [CLOSE, DOT] + u;
    }
  }

  lemma ContinuedKey(p: Bytes, n: Bytes, m: Bytes, u: Bytes)
    requires Extends(m, n)
    ensures TensorKey(DatasetKey(p, n), Continuation(n, m, u)) == TensorKey(DatasetKey(p, m), u)
  {
    assert m == n + [CLOSE, DOT] + m[|n| + 2..];
  }

  /** Which tensor keys are equal. For prefixes without an opening brace they have the same
      prefix, and the same names, or one dataset's name continues the other's and the tensors
      take up the difference. */
  lemma TensorKeysEqualIff(p: Bytes, n: Bytes, t: Bytes, q: Bytes, m: Bytes, u: Bytes)
    requires OPEN !in p && OPEN !in q
    ensures TensorKey(DatasetKey(p, n), t) == TensorKey(DatasetKey(q, m), u) <==>
            p == q && ((n == m && t == u)
                       || (Extends(m, n) && t == Continuation(n, m, u))
                       || (Extends(n, m) && u == Continuation(m, n, t)))
  {
    if TensorKey(DatasetKey(p, n), t) == TensorKey(DatasetKey(q, m), u) {
      assert TensorKey(DatasetKey(p, n), t) == p + [OPEN] + (n + [CLOSE, DOT] + t);
      assert TensorKey(DatasetKey(q, m), u) == q + [OPEN] + (m + [CLOSE, DOT] + u);
      SamePrefix(p, n + [CLOSE, DOT] + t, q, m + [CLOSE, DOT] + u);
      if |n| <= |m| {
        NamedParts(n, t, m, u);
      } else {
        NamedParts(m, u, n, t);
      }
    } else if p == q && Extends(m, n) && t == Continuation(n, m, u) {
      ContinuedKey(p, n, m, u);
    } else if p == q && Extends(n, m) && u == Continuation(m, n, t) {
      ContinuedKey(p, m, n, t);
    }
  }

  /** Which tensor keys are another dataset's metadata key. */
  lemma MetaKeyHitIff(p: Bytes, n: Bytes, t: Bytes, q: Bytes, m: Bytes)
    requires OPEN !in p && OPEN !in q
    ensures TensorKey(DatasetKey(p, n), t) == MetaKey(DatasetKey(q, m)) <==>
            p == q && ((n == m && t == Metadata.META_NAME)
                       || (Extends(m, n) && t == Continuation(n, m, Metadata.META_NAME)))
  {
    MetaKeyIsTensorKey(DatasetKey(q, m));
    TensorKeysEqualIff(p, n, t, q, m, Metadata.META_NAME);
    if Extends(n, m) {
      assert CLOSE in Continuation(m, n, t) && CLOSE !in Metadata.META_NAME;
    }
  }

  /** Key injectivity: between names that are not entangled, or are equal, a tensor key
      determines prefix, dataset and tensor; in particular for names without a closing brace. */
  lemma TensorKeysInjective(p: Bytes, n: Bytes, t: Bytes, q: Bytes, m: Bytes, u: Bytes)
    requires OPEN !in p && OPEN !in q && !Extends(m, n) && !Extends(n, m)
    ensures TensorKey(DatasetKey(p, n), t) == TensorKey(DatasetKey(q, m), u) ==> p == q && n == m && t == u
    ensures TensorKey(DatasetKey(p, n), t) == MetaKey(DatasetKey(q, m)) ==> p == q && n == m && t == Metadata.META_NAME
  {
    TensorKeysEqualIff(p, n, t, q, m, u);
    MetaKeyHitIff(p, n, t, q, m);
  }

  /** Names without a closing brace are entangled only with themselves. */
  lemma PlainNamesEntangledIff(p: Bytes, n: Bytes, q: Bytes, m: Bytes)
    requires CLOSE !in n && CLOSE !in m
    ensures Entangled(p, n, q, m) <==> p == q && n == m
  {
    if |n| + 2 <= |m| {
      assert m[|n|] in m && (n + [CLOSE, DOT])[|n|] == CLOSE;
    }
    if |m| + 2 <= |n| {
      assert n[|m|] in n && (m + [CLOSE, DOT])[|m|] == CLOSE;
    }
  }

  /** No key belongs to both datasets. */
  ghost predicate Apart(src: Bytes, dst: Bytes) {
    forall key :: !(InSpace(key, src) && InSpace(key, dst))
  }

  /** Key separation, for prefixes without an opening brace: the key spaces of two datasets
      meet exactly when the datasets are entangled. */
  lemma SpacesApartIff(p: Bytes, n: Bytes, q: Bytes, m: Bytes)
    requires OPEN !in p && OPEN !in q
    ensures Apart(DatasetKey(p, n), DatasetKey(q, m)) <==> !Entangled(p, n, q, m)
  {
    var a, b := DatasetKey(p, n), DatasetKey(q, m);
    if Entangled(p, n, q, m) {
      SharedKey(p, n, m);
    } else {
      forall key ensures !(InSpace(key, a) && InSpace(key, b)) {
        if InSpace(key, a) && InSpace(key, b) {
          var t, u := key[|a| + 1..], key[|b| + 1..];
          assert key == TensorKey(a, t) && key == TensorKey(b, u);
          TensorKeysEqualIff(p, n, t, q, m, u);
        }
      }
    }
  }

  lemma SharedKey(p: Bytes, n: Bytes, m: Bytes)
    requires Entangled(p, n, p, m)
    ensures !Apart(DatasetKey(p, n), DatasetKey(p, m))
  {
    var a, b := DatasetKey(p, n), DatasetKey(p, m);
    if Extends(m, n) {
      ContinuedKey(p, n, m, []);
    } else if Extends(n, m) {
      ContinuedKey(p, m, n, []);
    }
    var key := if |n| <= |m| then TensorKey(b, []) else TensorKey(a, []);
    TensorKeyInSpace(a, if Extends(m, n) then Continuation(n, m, []) else []);
    TensorKeyInSpace(b, if Extends(n, m) then Continuation(m, n, []) else []);
    assert InSpace(key, a) && InSpace(key, b);
  }

  /** Resolving loses nothing: different configured prefixes give different key prefixes. */
  lemma ResolvePrefixInjective(p: Bytes, q: Bytes)
    requires ResolvePrefix(p) == ResolvePrefix(q)
    ensures p == q
  {
    if |p| > 0 && |q| > 0 {
      assert ResolvePrefix(p)[..|p|] == p && ResolvePrefix(q)[..|q|] == q;
    }
  }

  /** One family of such collisions: dataset `a` with a tensor named `x}.meta` against dataset
      `a}.x`. */
  lemma ClosingBraceCollides(p: Bytes, n: Bytes, x: Bytes)
    requires OPEN !in p
    ensures TensorKey(DatasetKey(p, n), x + [CLOSE] + Ascii(".meta")) ==
            MetaKey(DatasetKey(p, n + [CLOSE, DOT] + x))
  {
    var m := n + [CLOSE, DOT] + x;
    assert m[|n| + 2..] == x;
    assert x + [CLOSE] + Ascii(".meta") == Continuation(n, m, Metadata.META_NAME);
    MetaKeyHitIff(p, n, x + [CLOSE] + Ascii(".meta"), p, m);
  }

  /** The code reserves a tensor name, but not the one that collides: a tensor `meta` can be
      constructed and would sit on its own dataset's metadata, while the refused `.meta` would
      not. */
  lemma ReservedNameMisses(base: Bytes, tensor: Metadata.Tensor)
    requires tensor.dims != [] && forall i :: 0 <= i < |tensor.dims| ==> tensor.dims[i] > 0
    ensures Metadata.Constructible(Metadata.META_NAME, tensor) && TensorKey(base, Metadata.META_NAME) == MetaKey(base)
    ensures !Metadata.Constructible(Metadata.RESERVED_NAME, tensor) && TensorKey(base, Metadata.RESERVED_NAME) != MetaKey(base)
  {
    assert |Metadata.META_NAME| != |Metadata.RESERVED_NAME|;
    MetaKeyApart(base, Metadata.META_NAME);
    MetaKeyApart(base, Metadata.RESERVED_NAME);
  }

  // ---------------------------------------------------------------------------------------
  // Names from aggregation list entries
  // ---------------------------------------------------------------------------------------

  /** `std::string::substr`, whose count is cut at the end of the string. */
  function Substr(s: Bytes, pos: nat, count: nat): Bytes
    requires pos <= |s|
  {
    if count >= |s| - pos then s[pos..] else s[pos..pos + count]
  }

  /** `_get_dataset_name_from_list_entry`, with the length computed in `size_t` arithmetic. */
  function NameFromEntry(entry: Bytes): Result<Bytes> {
    var open := FindFirst(entry, OPEN);
    if open.None? then Err(InternalError)
    else
      var close := FindLast(entry, CLOSE);
      if close.None? then Err(InternalError)
      else if open.value == close.value then Err(InternalError)
      else
        var first, last := open.value + 1, (close.value - 1) % SIZE_LIMIT;
        Ok(Substr(entry, first, (last - first + 1) % SIZE_LIMIT))
  }

  lemma WordArithmetic(open: nat, last: nat)
    requires open < last < SIZE_LIMIT
    ensures (last - 1) % SIZE_LIMIT == last - 1
    ensures (last - 1 - (open + 1) + 1) % SIZE_LIMIT == last - open - 1
  {
  }

  /** What the size arithmetic comes to, with a word-sized entry that ends with its last closing
      brace. */
  lemma {:induction false} NameBetween(entry: Bytes, open: nat)
    requires |entry| < SIZE_LIMIT && open < |entry| - 1
    requires FindFirst(entry, OPEN) == Some(open) && FindLast(entry, CLOSE) == Some(|entry| - 1)
    ensures NameFromEntry(entry) == Ok(entry[open + 1..|entry| - 1])
  {
    WordArithmetic(open, |entry| - 1);
  }

  /** The code recovers the name of every dataset, even one that holds braces, exactly when
      the prefix has no opening brace. */
  lemma NameFromKey(prefix: Bytes, name: Bytes)
    requires |DatasetKey(prefix, name)| < SIZE_LIMIT
    ensures NameFromEntry(DatasetKey(prefix, name)) == Ok(name) <==> OPEN !in prefix
  {
    var key := DatasetKey(prefix, name);
    BracesOfKey(prefix, name);
    var open := FindFirst(key, OPEN).value;
    NameBetween(key, open);
    assert key[|prefix| + 1..|key| - 1] == name;
    assert |key[open + 1..|key| - 1]| == |name| + (|prefix| - open);
  }

  /** The first opening brace of a dataset key is the one before the name exactly when the
      prefix has none; the last closing brace is always its last byte. */
  lemma BracesOfKey(prefix: Bytes, name: Bytes)
    ensures var key := DatasetKey(prefix, name);
            && FindLast(key, CLOSE) == Some(|key| - 1)
            && FindFirst(key, OPEN).Some?
            && FindFirst(key, OPEN).value <= |prefix|
            && (FindFirst(key, OPEN).value == |prefix| <==> OPEN !in prefix)
  {
    var key := DatasetKey(prefix, name);
    FirstMeans(key, OPEN);
    LastMeans(key, CLOSE);
    assert key[|prefix|] == OPEN && key[|key| - 1] == CLOSE;
    assert forall j :: 0 <= j < |prefix| ==> key[j] == prefix[j];
  }

  /** What the parser makes of any entry of word size that has both braces: the text between the
      first opening and the last closing one, whatever stands around them; and all that follows
      the opening brace if no closing one does. */
  lemma {:induction false} NameOfAnyEntry(entry: Bytes)
    requires |entry| < SIZE_LIMIT - 1 && OPEN in entry && CLOSE in entry
    ensures FindFirst(entry, OPEN).Some? && FindLast(entry, CLOSE).Some?
    ensures var open, close := FindFirst(entry, OPEN).value, FindLast(entry, CLOSE).value;
            NameFromEntry(entry) == Ok(if open < close then entry[open + 1..close] else entry[open + 1..])
  {
    FirstMeans(entry, OPEN);
    LastMeans(entry, CLOSE);
    var open, close := FindFirst(entry, OPEN).value, FindLast(entry, CLOSE).value;
    assert open != close;
    WrappedCount(|entry|, open, close);
  }

  /** The count that the parser computes, wrapping around if the braces are the wrong way. */
  lemma {:induction false} WrappedCount(n: nat, open: nat, close: nat)
    requires open < n < SIZE_LIMIT - 1 && close < n && open != close
    ensures var last := (close - 1) % SIZE_LIMIT;
            var count := (last - (open + 1) + 1) % SIZE_LIMIT;
            if open < close then count == close - open - 1 else count >= n - (open + 1)
  {
    if open < close {
      WordArithmetic(open, close);
    } else if close == 0 {
      assert (0 - 1) % SIZE_LIMIT == SIZE_LIMIT - 1;
      assert (SIZE_LIMIT - 1 - (open + 1) + 1) % SIZE_LIMIT == SIZE_LIMIT - 1 - open;
    } else {
      assert (close - 1) % SIZE_LIMIT == close - 1;
      assert (close - 1 - (open + 1) + 1) % SIZE_LIMIT == SIZE_LIMIT + close - 1 - open;
    }
  }

  /** The check meant for empty names never fires: one position cannot hold both braces. The
      entry of an unnamed dataset is accepted. */
  lemma EmptyNameAccepted(prefix: Bytes)
    requires OPEN !in prefix && |prefix| < SIZE_LIMIT - 2
    ensures NameFromEntry(DatasetKey(prefix, [])) == Ok([])
  {
    NameFromKey(prefix, []);
  }

  /** Which entries are refused: those that miss one of the braces. */
  lemma EntryRefused(entry: Bytes)
    ensures NameFromEntry(entry).Err? <==> OPEN !in entry || CLOSE !in entry
    ensures NameFromEntry(entry).Err? ==> NameFromEntry(entry).error == InternalError
  {
    FirstMeans(entry, OPEN);
    LastMeans(entry, CLOSE);
  }

  // ---------------------------------------------------------------------------------------
  // Hash tags
  // ---------------------------------------------------------------------------------------

  /** The tag the server hashes (section "Hash tags" of the Redis Cluster Specification): the
      text between the first `{` and the first `}` after it, if there is any; else the key. */
  function ServerHashTag(key: Bytes): Bytes {
    match FindFirst(key, OPEN)
    case None => key
    case Some(open) =>
      var rest := key[open + 1..];
      match FindFirst(rest, CLOSE)
      case None => key
      case Some(len) => if len == 0 then key else rest[..len]
  }

  /** `_get_hash_tag`, the tag the client computes to choose a shard. */
  function ClientHashTag(key: Bytes): Bytes {
    var first, second := FindFirst(key, OPEN), FindFirst(key, CLOSE);
    if first.None? || second.None? || second.value <= first.value then key
    else key[first.value + 1..][..second.value - first.value - 1]
  }

  /** The part of a name before its first closing brace. */
  function TagPart(name: Bytes): Bytes {
    match FindFirst(name, CLOSE)
    case None => name
    case Some(i) => name[..i]
  }

  lemma TagPartInside(name: Bytes, tail: Bytes)
    ensures var inner := name + [CLOSE] + tail;
            FindFirst(inner, CLOSE).Some? && inner[..FindFirst(inner, CLOSE).value] == TagPart(name)
  {
    var inner := name + [CLOSE] + tail;
    FirstMeans(inner, CLOSE);
    FirstMeans(name, CLOSE);
    assert inner[|name|] == CLOSE && inner[..|name|] == name;
    var i := FindFirst(inner, CLOSE).value;
    assert i <= |name|;
    assert inner[..i] == name[..i];
    assert forall j :: 0 <= j < |name| ==> inner[j] == name[j];
  }

  /** The tag of a key that continues a dataset key. */
  lemma TagOfDataset(prefix: Bytes, name: Bytes, tail: Bytes)
    requires BraceFree(prefix)
    ensures ServerHashTag(DatasetKey(prefix, name) + tail) ==
            if name == [] || name[0] == CLOSE then DatasetKey(prefix, name) + tail else TagPart(name)
  {
    var key := DatasetKey(prefix, name) + tail;
    var inner := name + [CLOSE] + tail;
    assert key == prefix + [OPEN] + inner;
    FirstAfter(prefix, OPEN, inner);
    assert key[|prefix| + 1..] == inner;
    FirstMeans(inner, CLOSE);
    TagPartInside(name, tail);
    assert inner[0] == if name == [] then CLOSE else name[0];
  }

  /** Sharding: the metadata key and every tensor key of a dataset share one hash tag, so that
      one pipeline or one multi-key DEL can carry them, exactly when the name is not empty and
      does not begin with a closing brace. */
  lemma DatasetKeysShareTag(prefix: Bytes, name: Bytes, t: Bytes)
    requires BraceFree(prefix) && t != Metadata.META_NAME
    ensures var base := DatasetKey(prefix, name);
            ServerHashTag(MetaKey(base)) == ServerHashTag(TensorKey(base, t)) <==> name != [] && name[0] != CLOSE
  {
    var base := DatasetKey(prefix, name);
    assert TensorKey(base, t) == base + ([DOT] + t);
    TagOfDataset(prefix, name, Ascii(".meta"));
    TagOfDataset(prefix, name, [DOT] + t);
    MetaKeyApart(base, t);
  }

  /** A key whose first `{` is followed by a `}`, none standing before it: both computations
      find the same braces, but the server ignores an empty tag. */
  lemma TagsWithoutEarlyClose(before: Bytes, rest: Bytes)
    requires OPEN !in before && CLOSE !in before
    ensures var key := before + [OPEN] + rest;
            && FindFirst(key, OPEN) == Some(|before|)
            && ServerHashTag(key) == (match FindFirst(rest, CLOSE)
                                      case None => key
                                      case Some(len) => if len == 0 then key else rest[..len])
            && ClientHashTag(key) == (match FindFirst(rest, CLOSE)
                                      case None => key
                                      case Some(len) => rest[..len])
  {
    var key := before + [OPEN] + rest;
    FirstAfter(before, OPEN, rest);
    FirstSkips(before + [OPEN], rest, CLOSE);
    assert key[|before| + 1..] == rest;
  }

  /** A key with a `}` before its first `{`: the client sees no tag. */
  lemma TagsWithEarlyClose(before: Bytes, rest: Bytes)
    requires OPEN !in before && CLOSE in before
    ensures var key := before + [OPEN] + rest;
            && FindFirst(key, OPEN) == Some(|before|)
            && ServerHashTag(key) == (match FindFirst(rest, CLOSE)
                                      case None => key
                                      case Some(len) => if len == 0 then key else rest[..len])
            && ClientHashTag(key) == key
  {
    var key := before + [OPEN] + rest;
    FirstAfter(before, OPEN, rest);
    assert key[|before| + 1..] == rest;
    FirstMeans(key, CLOSE);
    var i :| 0 <= i < |before| && before[i] == CLOSE;
    assert key[i] == CLOSE;
  }

  lemma PartOfKey(key: Bytes, rest: Bytes, n: nat)
    requires |rest| < |key| && n <= |rest|
    ensures rest[..n] != key
  {
  }

  lemma TagsAgreeIff(before: Bytes, rest: Bytes)
    requires OPEN !in before
    ensures var key := before + [OPEN] + rest;
            ClientHashTag(key) == ServerHashTag(key) <==>
            CLOSE !in rest || (if CLOSE in before then rest[0] == CLOSE else rest[0] != CLOSE)
  {
    var key := before + [OPEN] + rest;
    FirstMeans(rest, CLOSE);
    if CLOSE in before {
      TagsWithEarlyClose(before, rest);
    } else {
      TagsWithoutEarlyClose(before, rest);
    }
    if CLOSE in rest {
      PartOfKey(key, rest, FindFirst(rest, CLOSE).value);
    }
  }

  lemma TagsAt(key: Bytes, open: nat)
    requires open < |key| && key[open] == OPEN && OPEN !in key[..open]
    ensures ClientHashTag(key) == ServerHashTag(key) <==>
            CLOSE !in key[open + 1..]
            || (if CLOSE in key[..open] then key[open + 1] == CLOSE else key[open + 1] != CLOSE)
  {
    var before, rest := key[..open], key[open + 1..];
    assert key == before + [OPEN] + rest;
    TagsAgreeIff(before, rest);
  }

  /** The client's tag is the server's unless the first braces of the key enclose nothing, or
      a closing brace precedes an opening one that starts a tag of its own. */
  lemma ClientTagMatchesServer(key: Bytes)
    ensures ClientHashTag(key) == ServerHashTag(key) <==>
            match FindFirst(key, OPEN)
            case None => true
            case Some(open) =>
              CLOSE !in key[open + 1..]
              || (if CLOSE in key[..open] then key[open + 1] == CLOSE else key[open + 1] != CLOSE)
  {
    FirstMeans(key, OPEN);
    match FindFirst(key, OPEN)
    case None =>
    case Some(open) =>
      TagsAt(key, open);
  }
}
