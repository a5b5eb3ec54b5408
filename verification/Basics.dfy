/** Byte strings, results and the sequence searches of `std::string`. */
module Basics {

  /** One byte of a `std::string`. */
  newtype byte = x: int | 0 <= x < 0x100

  type Bytes = seq<byte>

  /** `size_t` is a 64-bit word. */
  const SIZE_LIMIT: nat := 0x1_0000_0000_0000_0000

  /** The exception classes of `srexception.h` that the modelled code throws. */
  datatype Error = RuntimeError | KeyError | ParameterError | InternalError

  /** A call that returns a value or throws. */
  datatype Result<+T> = Ok(value: T) | Err(error: Error) {
    predicate IsFailure() { Err? }
    function PropagateFailure<U>(): Result<U>
      requires Err?
    { Err(error) }
    function Extract(): T
      requires Ok?
    { value }
  }

  datatype Option<+T> = None | Some(value: T)

  /** The bytes of a 7-bit literal. */
  function Ascii(s: string): (b: Bytes)
    requires forall i :: 0 <= i < |s| ==> s[i] as int < 0x80
    ensures |b| == |s|
    ensures forall i :: 0 <= i < |s| ==> b[i] as int == s[i] as int
  {
    seq(|s|, i requires 0 <= i < |s| => s[i] as int as byte)
  }

  /** `find_first_of` for one character, from position 0. */
  function FindFirst<T(==)>(s: seq<T>, c: T): (r: Option<nat>)
    ensures r.Some? ==> r.value < |s|
  {
    if s == [] then None
    else if s[0] == c then Some(0)
    else match FindFirst(s[1..], c)
      case None => None
      case Some(i) => Some(i + 1)
  }

  /** `find_last_of` for one character. */
  function FindLast<T(==)>(s: seq<T>, c: T): (r: Option<nat>)
    ensures r.Some? ==> r.value < |s|
  {
    if s == [] then None
    else if s[|s| - 1] == c then Some(|s| - 1)
    else FindLast(s[..|s| - 1], c)
  }

  lemma FirstMeans<T>(s: seq<T>, c: T)
    ensures FindFirst(s, c).None? <==> c !in s
    ensures FindFirst(s, c).Some? ==>
              s[FindFirst(s, c).value] == c && forall j :: 0 <= j < FindFirst(s, c).value ==> s[j] != c
  {
    if s != [] && s[0] != c {
      FirstMeans(s[1..], c);
      assert s == [s[0]] + s[1..];
    }
  }

  /** A search skips a part that does not hold the character. */
  lemma FirstSkips<T>(p: seq<T>, s: seq<T>, c: T)
    requires c !in p
    ensures FindFirst(p + s, c) == match FindFirst(s, c)
                                   case None => None
                                   case Some(i) => Some(|p| + i)
  {
    if p == [] {
      assert p + s == s;
    } else {
      assert (p + s)[1..] == p[1..] + s;
      FirstSkips(p[1..], s, c);
    }
  }

  lemma LastMeans<T>(s: seq<T>, c: T)
    ensures FindLast(s, c).None? <==> c !in s
    ensures FindLast(s, c).Some? ==>
              s[FindLast(s, c).value] == c && forall j :: FindLast(s, c).value < j < |s| ==> s[j] != c
  {
    if s != [] && s[|s| - 1] != c {
      LastMeans(s[..|s| - 1], c);
      assert s == s[..|s| - 1] + [s[|s| - 1]];
    }
  }

  /** No element occurs twice. */
  ghost predicate Distinct<T(!new)>(s: seq<T>) {
    forall i, j :: 0 <= i < j < |s| ==> s[i] != s[j]
  }

  /** `pairs` holds every entry of `m` exactly once, in some order: what iterating an
      `unordered_map` or a `forward_list` of uniquely named items yields. */
  ghost predicate IsListing<K(!new), V(!new)>(pairs: seq<(K, V)>, m: map<K, V>) {
    && (forall i, j :: 0 <= i < j < |pairs| ==> pairs[i].0 != pairs[j].0)
    && (forall i :: 0 <= i < |pairs| ==> pairs[i].0 in m && m[pairs[i].0] == pairs[i].1)
    && (forall k :: k in m ==> exists i :: 0 <= i < |pairs| && pairs[i].0 == k)
  }

  /** Every finite map can be iterated. */
  lemma ListingExists<K(!new), V(!new)>(m: map<K, V>) returns (pairs: seq<(K, V)>)
    ensures IsListing(pairs, m)
    decreases |m|
  {
    if m == map[] {
      pairs := [];
    } else {
      var k :| k in m;
      var rest := m - {k};
      assert rest.Keys == m.Keys - {k};
      var tail := ListingExists(rest);
      pairs := [(k, m[k])] + tail;
      ListingCons(k, m[k], tail, rest);
      assert rest[k := m[k]] == m;
    }
  }

  lemma {:induction false} ListingCons<K(!new), V(!new)>(k: K, v: V, tail: seq<(K, V)>, rest: map<K, V>)
    requires IsListing(tail, rest) && k !in rest
    ensures IsListing([(k, v)] + tail, rest[k := v])
  {
    var pairs := [(k, v)] + tail;
    var whole := rest[k := v];
    forall q | q in whole ensures exists i :: 0 <= i < |pairs| && pairs[i].0 == q {
      if q == k {
        assert pairs[0].0 == q;
      } else {
        var i :| 0 <= i < |tail| && tail[i].0 == q;
        assert pairs[i + 1].0 == q;
      }
    }
  }

  /** A loop over an `unordered_map`: every entry once, in an order the caller cannot know. */
  method Iterate<K(==, !new), V(!new)>(m: map<K, V>) returns (pairs: seq<(K, V)>)
    ensures IsListing(pairs, m)
  {
    pairs := [];
    var rest := m.Keys;
    while rest != {}
      invariant rest <= m.Keys
      invariant forall i, j :: 0 <= i < j < |pairs| ==> pairs[i].0 != pairs[j].0
      invariant forall i :: 0 <= i < |pairs| ==> pairs[i].0 in m && pairs[i].0 !in rest && m[pairs[i].0] == pairs[i].1
      invariant forall k :: k in m && k !in rest ==> exists i :: 0 <= i < |pairs| && pairs[i].0 == k
      decreases rest
    {
      var k :| k in rest;
      ghost var before, done := pairs, m.Keys - rest;
      pairs := pairs + [(k, m[k])];
      rest := rest - {k};
      forall q | q in m && q !in rest ensures exists i :: 0 <= i < |pairs| && pairs[i].0 == q {
        if q == k {
          assert pairs[|before|].0 == q;
        } else {
          assert q in done;
          var i :| 0 <= i < |before| && before[i].0 == q;
          assert pairs[i].0 == q;
        }
      }
    }
  }

  lemma {:induction false} ListingEmpty<K(!new), V(!new)>(pairs: seq<(K, V)>, m: map<K, V>)
    requires IsListing(pairs, m)
    ensures pairs == [] <==> m == map[]
  {
    if pairs == [] {
      assert forall k :: k !in m;
    } else {
      assert pairs[0].0 in m;
    }
  }

  /** The map that inserting the pairs one after the other builds. */
  function PairsToMap<K, V>(pairs: seq<(K, V)>): map<K, V> {
    if pairs == [] then map[]
    else PairsToMap(pairs[..|pairs| - 1])[pairs[|pairs| - 1].0 := pairs[|pairs| - 1].1]
  }

  /** All but the last pair list all but its key. */
  lemma ListingInit<K(!new), V(!new)>(pairs: seq<(K, V)>, m: map<K, V>)
    requires IsListing(pairs, m) && pairs != []
    ensures IsListing(pairs[..|pairs| - 1], m - {pairs[|pairs| - 1].0})
  {
    var last, init := pairs[|pairs| - 1], pairs[..|pairs| - 1];
    var rest := m - {last.0};
    forall k | k in rest ensures exists i :: 0 <= i < |init| && init[i].0 == k {
      var i :| 0 <= i < |pairs| && pairs[i].0 == k;
      assert init[i].0 == k;
    }
  }

  /** Inserting a listing in any order rebuilds the map it lists. */
  lemma {:induction false} ListingToMap<K(!new), V(!new)>(pairs: seq<(K, V)>, m: map<K, V>)
    requires IsListing(pairs, m)
    ensures PairsToMap(pairs) == m
    decreases |pairs|
  {
    if pairs == [] {
      assert m.Keys == {};
    } else {
      var last := pairs[|pairs| - 1];
      ListingInit(pairs, m);
      ListingToMap(pairs[..|pairs| - 1], m - {last.0});
      assert last.0 in m && m[last.0] == last.1;
      assert m == (m - {last.0})[last.0 := last.1];
    }
  }

  /** A sequence of byte strings laid end to end. */
  function Concat(parts: seq<Bytes>): Bytes {
    if parts == [] then [] else Concat(parts[..|parts| - 1]) + parts[|parts| - 1]
  }

  lemma {:induction false} ConcatAppend(a: seq<Bytes>, b: seq<Bytes>)
    ensures Concat(a + b) == Concat(a) + Concat(b)
    decreases |b|
  {
    if b == [] {
      assert a + b == a;
    } else {
      var init := b[..|b| - 1];
      assert (a + b)[..|a + b| - 1] == a + init;
      ConcatAppend(a, init);
    }
  }
}
