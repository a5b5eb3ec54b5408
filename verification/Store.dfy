/** The server: a map from keys to typed values, changed by one atomic command at a time. */
module Store {
  import opened Basics
  import opened Metadata

  datatype Value =
    | HashValue(hash: map<Bytes, Bytes>)
    | TensorValue(tensor: Tensor)
    | ListValue(items: seq<Bytes>)

  type Store = map<Bytes, Value>

  /** The writing commands the client sends. */
  datatype Command =
    | Del(keys: seq<Bytes>)
    | HmSet(key: Bytes, pairs: seq<(Bytes, Bytes)>)
    | HSet(key: Bytes, field: Bytes, value: Bytes)
    | TensorSet(key: Bytes, tensor: Tensor)
    | RPush(key: Bytes, items: seq<Bytes>)

  function Get(s: Store, key: Bytes): Option<Value> {
    if key in s then Some(s[key]) else None
  }

  lemma SameStore(s: Store, t: Store)
    requires forall key :: Get(s, key) == Get(t, key)
    ensures s == t
  {
    forall key ensures key in s <==> key in t {
      assert Get(s, key) == Get(t, key);
    }
    forall key | key in s ensures s[key] == t[key] {
      assert Get(s, key) == Get(t, key);
    }
  }

  /** The keys a command may change. */
  predicate Touches(c: Command, key: Bytes) {
    match c
    case Del(keys) => key in keys
    case _ => key == c.key
  }

  /** A key of another type makes the server answer with an error and change nothing. */
  predicate Fails(s: Store, c: Command) {
    match c
    case Del(_) => false
    case HmSet(key, _) => key in s && !s[key].HashValue?
    case HSet(key, _, _) => key in s && !s[key].HashValue?
    case TensorSet(key, _) => key in s && !s[key].TensorValue?
    case RPush(key, _) => key in s && !s[key].ListValue?
  }

  function HashAt(s: Store, key: Bytes): map<Bytes, Bytes> {
    if key in s && s[key].HashValue? then s[key].hash else map[]
  }

  function ListAt(s: Store, key: Bytes): seq<Bytes> {
    if key in s && s[key].ListValue? then s[key].items else []
  }

  function Apply(s: Store, c: Command): Store {
    if Fails(s, c) then s
    else match c
      case Del(keys) => map k | k in s && k !in keys :: s[k]
      case HmSet(key, pairs) => s[key := HashValue(HashAt(s, key) + PairsToMap(pairs))]
      case HSet(key, field, value) => s[key := HashValue(HashAt(s, key)[field := value])]
      case TensorSet(key, tensor) => s[key := TensorValue(tensor)]
      case RPush(key, items) => s[key := ListValue(ListAt(s, key) + items)]
  }

  /** The state after a list of commands, executed in order on one connection. */
  function Run(s: Store, cmds: seq<Command>): Store {
    if cmds == [] then s else Apply(Run(s, cmds[..|cmds| - 1]), cmds[|cmds| - 1])
  }

  lemma RunNext(s: Store, cmds: seq<Command>, i: nat)
    requires i < |cmds|
    ensures Run(s, cmds[..i + 1]) == Apply(Run(s, cmds[..i]), cmds[i])
  {
    assert cmds[..i + 1][..i] == cmds[..i];
  }

  lemma {:induction false} RunAppend(s: Store, a: seq<Command>, b: seq<Command>)
    ensures Run(s, a + b) == Run(Run(s, a), b)
    decreases |b|
  {
    if b == [] {
      assert a + b == a;
    } else {
      assert (a + b)[..|a + b| - 1] == a + b[..|b| - 1];
      RunAppend(s, a, b[..|b| - 1]);
    }
  }

  /** Some command of the list is answered with an error. A pipeline executes all of them
      and throws afterwards. */
  ghost predicate SomeFails(s: Store, cmds: seq<Command>) {
    exists i :: 0 <= i < |cmds| && Fails(Run(s, cmds[..i]), cmds[i])
  }

  lemma SomeFailsNext(s: Store, cmds: seq<Command>, i: nat)
    requires i < |cmds|
    ensures SomeFails(s, cmds[..i + 1]) <==> SomeFails(s, cmds[..i]) || Fails(Run(s, cmds[..i]), cmds[i])
  {
    var shorter, longer := cmds[..i], cmds[..i + 1];
    forall k | 0 <= k <= i ensures longer[..k] == cmds[..k] && longer[k] == cmds[k] {}
    forall k | 0 <= k < i ensures shorter[..k] == cmds[..k] && shorter[k] == cmds[k] {}
    if SomeFails(s, shorter) {
      var k :| 0 <= k < i && Fails(Run(s, shorter[..k]), shorter[k]);
      assert Fails(Run(s, longer[..k]), longer[k]);
    }
    if Fails(Run(s, cmds[..i]), cmds[i]) {
      assert Fails(Run(s, longer[..i]), longer[i]);
    }
    if SomeFails(s, longer) {
      var k :| 0 <= k <= i && Fails(Run(s, longer[..k]), longer[k]);
      if k < i { assert Fails(Run(s, shorter[..k]), shorter[k]); }
    }
  }

  /** HMSET of one pair is HSET. */
  lemma HmSetOfOne(s: Store, key: Bytes, field: Bytes, value: Bytes)
    ensures Apply(s, HmSet(key, [(field, value)])) == Apply(s, HSet(key, field, value))
  {
    assert [(field, value)][..0] == [];
    assert PairsToMap([(field, value)]) == map[][field := value];
    assert HashAt(s, key) + map[][field := value] == HashAt(s, key)[field := value];
  }

  /** One more pair is one HSET more, and the same keys refuse both commands. */
  lemma HmSetOfMore(s: Store, key: Bytes, pairs: seq<(Bytes, Bytes)>, field: Bytes, value: Bytes)
    ensures Apply(s, HmSet(key, pairs + [(field, value)])) == Apply(Apply(s, HmSet(key, pairs)), HSet(key, field, value))
    ensures Fails(s, HmSet(key, pairs)) <==> Fails(s, HSet(key, field, value))
  {
    var more := pairs + [(field, value)];
    assert more[..|more| - 1] == pairs;
    assert HashAt(s, key) + PairsToMap(more) == (HashAt(s, key) + PairsToMap(pairs))[field := value];
  }

  lemma ApplyFrame(s: Store, c: Command, key: Bytes)
    requires !Touches(c, key)
    ensures Get(Apply(s, c), key) == Get(s, key)
  {
  }

  lemma {:induction false} RunFrame(s: Store, cmds: seq<Command>, key: Bytes)
    requires forall i :: 0 <= i < |cmds| ==> !Touches(cmds[i], key)
    ensures Get(Run(s, cmds), key) == Get(s, key)
    decreases |cmds|
  {
    if cmds != [] {
      RunFrame(s, cmds[..|cmds| - 1], key);
      ApplyFrame(Run(s, cmds[..|cmds| - 1]), cmds[|cmds| - 1], key);
    }
  }

  // ---------------------------------------------------------------------------------------
  // Reading commands
  // ---------------------------------------------------------------------------------------

  /** HGETALL: an absent key reads as the empty hash, another type is an error. */
  function HGetAll(s: Store, key: Bytes): Result<map<Bytes, Bytes>> {
    if key in s && !s[key].HashValue? then Err(RuntimeError) else Ok(HashAt(s, key))
  }

  function HExists(s: Store, key: Bytes, field: Bytes): Result<bool> {
    if key in s && !s[key].HashValue? then Err(RuntimeError) else Ok(field in HashAt(s, key))
  }

  function TensorGet(s: Store, key: Bytes): Result<Tensor> {
    if key in s && s[key].TensorValue? then Ok(s[key].tensor) else Err(RuntimeError)
  }

  function Max(a: int, b: int): int { if a >= b then a else b }
  function Min(a: int, b: int): int { if a <= b then a else b }

  /** LRANGE: inclusive bounds, negative ones counted from the end, both cut to the list. */
  function Slice<T>(xs: seq<T>, start: int, end: int): (r: seq<T>) {
    var first := if start < 0 then Max(|xs| + start, 0) else start;
    var last := Min(if end < 0 then |xs| + end else end, |xs| - 1);
    if first > last then [] else xs[first..last + 1]
  }

  function LRange(s: Store, key: Bytes, start: int, end: int): Result<seq<Bytes>> {
    if key in s && !s[key].ListValue? then Err(RuntimeError) else Ok(Slice(ListAt(s, key), start, end))
  }

  lemma {:induction false} SliceAll<T>(xs: seq<T>)
    ensures Slice(xs, 0, -1) == xs
  {
  }

  /** An index as LRANGE takes it: a negative one counts from the end. */
  function Position(length: nat, index: int): int {
    if index < 0 then length + index else index
  }

  /** The slice by its entries: both ends inside give `xs[start]` to `xs[end]`; an end past the list
      and a start before it are cut to it; ends that enclose nothing give nothing. */
  lemma SliceEntries<T>(xs: seq<T>, start: int, end: int)
    ensures var a, b := Position(|xs|, start), Position(|xs|, end);
            && (0 <= a <= b < |xs| ==>
                  |Slice(xs, start, end)| == b - a + 1 && forall i :: 0 <= i <= b - a ==> Slice(xs, start, end)[i] == xs[a + i])
            && (0 <= a < |xs| <= b ==>
                  |Slice(xs, start, end)| == |xs| - a && forall i :: 0 <= i < |xs| - a ==> Slice(xs, start, end)[i] == xs[a + i])
            && (a < 0 && 0 <= b ==> Slice(xs, start, end) == Slice(xs, 0, end))
            && (a > b || a >= |xs| || b < 0 ==> Slice(xs, start, end) == [])
  {
  }
}
