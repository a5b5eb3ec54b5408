/** Aggregation lists: the operations as functions of the store, and the map from list names
    to sequences of dataset keys that they implement. */
module AggregationLists {
  import opened Basics
  import opened Keys
  import opened Store
  import opened DatasetOperations

  /** `append_to_list`: RPUSH of one dataset key. */
  function AppendOutcome(s: Store, key: Bytes, entry: Bytes): Outcome {
    var push := RPush(key, [entry]);
    if Fails(s, push) then Outcome(Err(RuntimeError), s) else Outcome(Ok(()), Apply(s, push))
  }

  /** `delete_list`: DEL, which succeeds on an absent key too. */
  function DeleteListOutcome(s: Store, key: Bytes): Outcome {
    Outcome(Ok(()), Apply(s, Del([key])))
  }

  /** `copy_list`: it reads the source and deletes the destination under the get prefix `g`,
      and pushes under the put prefix `p`. The entries are checked after the deletion. */
  function CopyListOutcome(s: Store, g: Bytes, p: Bytes, src: Bytes, dst: Bytes): Outcome {
    if src == [] || dst == [] then Outcome(Err(ParameterError), s)
    else if src == dst then Outcome(Ok(()), s)
    else match LRange(s, ListKey(g, src), 0, -1)
      case Err(e) => Outcome(Err(e), s)
      case Ok(items) =>
        if items == [] then Outcome(Err(RuntimeError), s)
        else
          var cleared := DeleteListOutcome(s, ListKey(g, dst)).store;
          var push := RPush(ListKey(p, dst), items);
          if [] in items || Fails(cleared, push) then Outcome(Err(RuntimeError), cleared)
          else Outcome(Ok(()), Apply(cleared, push))
  }

  /** `rename_list`: a copy, then a deletion of the source. */
  function RenameListOutcome(s: Store, g: Bytes, p: Bytes, src: Bytes, dst: Bytes): Outcome {
    if src == [] || dst == [] then Outcome(Err(ParameterError), s)
    else if src == dst then Outcome(Ok(()), s)
    else
      var copied := CopyListOutcome(s, g, p, src, dst);
      if copied.result.Err? then copied else DeleteListOutcome(copied.store, ListKey(g, src))
  }

  // ---------------------------------------------------------------------------------------
  // When they succeed, for any store
  // ---------------------------------------------------------------------------------------

  /** An append adds one entry at the end of a list, or of none; onto anything else it fails. */
  lemma AppendSucceedsIff(s: Store, key: Bytes, entry: Bytes)
    ensures var out := AppendOutcome(s, key, entry);
            && (out.result.Ok? <==> key in s ==> s[key].ListValue?)
            && (out.result.Err? ==> out == Outcome(Err(RuntimeError), s))
            && (out.result.Ok? ==>
                  Get(out.store, key) == Some(ListValue(ListAt(s, key) + [entry]))
                  && forall other :: other != key ==> Get(out.store, other) == Get(s, other))
  {
  }

  /** The push of a copy can fail only where the put prefix names another destination key. */
  predicate PushAllowed(s: Store, g: Bytes, p: Bytes, dst: Bytes) {
    ListKey(p, dst) == ListKey(g, dst) || ListKey(p, dst) !in s || s[ListKey(p, dst)].ListValue?
  }

  /** A copy under any prefixes: what it needs to succeed, its errors, and what a failure leaves.
      Once the source has been found the destination is deleted, whatever comes after. */
  lemma CopyListSucceedsIff(s: Store, g: Bytes, p: Bytes, src: Bytes, dst: Bytes)
    ensures var items, out := ListAt(s, ListKey(g, src)), CopyListOutcome(s, g, p, src, dst);
            && (out.result.Ok? <==>
                src != [] && dst != [] && (src == dst || (items != [] && [] !in items && PushAllowed(s, g, p, dst))))
            && (out.result.Err? ==> out.result.error == if src == [] || dst == [] then ParameterError else RuntimeError)
            && (src == [] || dst == [] || src == dst || items == [] ==> out.store == s)
            && (out.result.Err? && src != [] && dst != [] && items != [] ==>
                  forall key :: Get(out.store, key) == if key == ListKey(g, dst) then None else Get(s, key))
            && (forall key :: key != ListKey(g, dst) && key != ListKey(p, dst) ==> Get(out.store, key) == Get(s, key))
  {
    SliceAll(ListAt(s, ListKey(g, src)));
  }

  /** A renaming succeeds when its copy does; when it fails the source keeps its entries. */
  lemma RenameListSucceedsIff(s: Store, g: Bytes, p: Bytes, src: Bytes, dst: Bytes)
    ensures var items, out := ListAt(s, ListKey(g, src)), RenameListOutcome(s, g, p, src, dst);
            && (out.result.Ok? <==>
                src != [] && dst != [] && (src == dst || (items != [] && [] !in items && PushAllowed(s, g, p, dst))))
            && (out.result.Err? ==> out.result.error == if src == [] || dst == [] then ParameterError else RuntimeError)
            && (out.result.Err? ==> Get(out.store, ListKey(g, src)) == Get(s, ListKey(g, src)))
            && (src == [] || dst == [] || src == dst || items == [] ==> out.store == s)
  {
    CopyListSucceedsIff(s, g, p, src, dst);
    if ListKey(g, src) == ListKey(g, dst) {
      assert ListKey(g, src)[|g|..] == src && ListKey(g, dst)[|g|..] == dst;
    }
  }

  // ---------------------------------------------------------------------------------------
  // Refinement of a map of sequences
  // ---------------------------------------------------------------------------------------

  datatype ListOp =
    | Append(list: Bytes, entry: Bytes)
    | Delete(list: Bytes)
    | Copy(src: Bytes, dst: Bytes)
    | Rename(src: Bytes, dst: Bytes)

  predicate Mentions(op: ListOp, name: Bytes) {
    match op
    case Append(list, _) => name == list
    case Delete(list) => name == list
    case Copy(src, dst) => name == src || name == dst
    case Rename(src, dst) => name == src || name == dst
  }

  /** An operation of a client whose put and get prefixes resolve to the same `p`. */
  function Exec(s: Store, p: Bytes, op: ListOp): Outcome {
    match op
    case Append(list, entry) => AppendOutcome(s, ListKey(p, list), entry)
    case Delete(list) => DeleteListOutcome(s, ListKey(p, list))
    case Copy(src, dst) => CopyListOutcome(s, p, p, src, dst)
    case Rename(src, dst) => RenameListOutcome(s, p, p, src, dst)
  }

  type Lists = map<Bytes, seq<Bytes>>

  /** Whether an operation succeeds on a map of lists. */
  predicate Succeeds(m: Lists, op: ListOp) {
    match op
    case Append(_, _) => true
    case Delete(_) => true
    case Copy(src, dst) => src != [] && dst != [] && (src == dst || src in m)
    case Rename(src, dst) => src != [] && dst != [] && (src == dst || src in m)
  }

  /** What it does to the map: append extends, delete removes, copy replaces, rename moves; a
      failing operation changes nothing. */
  function Effect(m: Lists, op: ListOp): Lists {
    if !Succeeds(m, op) then m
    else match op
      case Append(list, entry) => m[list := (if list in m then m[list] else []) + [entry]]
      case Delete(list) => m - {list}
      case Copy(src, dst) => if src == dst then m else m[dst := m[src]]
      case Rename(src, dst) => if src == dst then m else m[dst := m[src]] - {src}
  }

  /** The names in `names` are free for lists: their keys are absent or hold a list that is not
      empty and has no empty entry. */
  ghost predicate ListsOnly(s: Store, p: Bytes, names: set<Bytes>) {
    forall n :: n in names && ListKey(p, n) in s ==>
      var v := s[ListKey(p, n)];
      v.ListValue? && v.items != [] && [] !in v.items
  }

  /** The lists in the store. */
  function View(s: Store, p: Bytes, names: set<Bytes>): Lists {
    map n | n in names && ListKey(p, n) in s :: ListAt(s, ListKey(p, n))
  }

  lemma ListKeyInjective(p: Bytes, n: Bytes, m: Bytes)
    requires ListKey(p, n) == ListKey(p, m)
    ensures n == m
  {
    assert ListKey(p, n)[|p|..] == n && ListKey(p, m)[|p|..] == m;
  }

  /** The view after one key changed. */
  lemma ViewAfter(s: Store, s': Store, p: Bytes, names: set<Bytes>, name: Bytes)
    requires name in names
    requires forall key :: key != ListKey(p, name) ==> Get(s', key) == Get(s, key)
    ensures View(s', p, names) - {name} == View(s, p, names) - {name}
    ensures name in View(s', p, names) <==> ListKey(p, name) in s'
    ensures name in View(s', p, names) ==> View(s', p, names)[name] == ListAt(s', ListKey(p, name))
    ensures forall n :: n in names && n != name ==> Get(s', ListKey(p, n)) == Get(s, ListKey(p, n))
  {
    forall n | n in names && n != name ensures Get(s', ListKey(p, n)) == Get(s, ListKey(p, n)) {
      if ListKey(p, n) == ListKey(p, name) { ListKeyInjective(p, n, name); }
    }
  }

  /** DEL of one list. */
  lemma DeleteRefines(s: Store, p: Bytes, names: set<Bytes>, name: Bytes)
    requires ListsOnly(s, p, names) && name in names
    ensures var s' := DeleteListOutcome(s, ListKey(p, name)).store;
            && ListsOnly(s', p, names)
            && View(s', p, names) == View(s, p, names) - {name}
            && forall key :: key != ListKey(p, name) ==> Get(s', key) == Get(s, key)
  {
    var s' := DeleteListOutcome(s, ListKey(p, name)).store;
    ViewAfter(s, s', p, names, name);
    assert name !in View(s', p, names);
    assert View(s', p, names) - {name} == View(s', p, names);
    forall n | n in names && ListKey(p, n) in s' ensures Get(s', ListKey(p, n)) == Get(s, ListKey(p, n)) {}
  }

  /** RPUSH of some entries onto one list. */
  lemma PushRefines(s: Store, p: Bytes, names: set<Bytes>, name: Bytes, items: seq<Bytes>)
    requires ListsOnly(s, p, names) && name in names && items != [] && [] !in items
    ensures var push := RPush(ListKey(p, name), items);
            var s', m := Apply(s, push), View(s, p, names);
            && !Fails(s, push)
            && ListsOnly(s', p, names)
            && View(s', p, names) == m[name := (if name in m then m[name] else []) + items]
            && forall key :: key != ListKey(p, name) ==> Get(s', key) == Get(s, key)
  {
    var push := RPush(ListKey(p, name), items);
    var s', m := Apply(s, push), View(s, p, names);
    ViewAfter(s, s', p, names, name);
    var expected := m[name := (if name in m then m[name] else []) + items];
    assert expected - {name} == m - {name};
    assert View(s', p, names)[name] == expected[name];
    forall k | k in View(s', p, names) || k in expected
      ensures k in View(s', p, names) && k in expected && View(s', p, names)[k] == expected[k]
    {
      if k != name {
        assert k in View(s', p, names) - {name} <==> k in expected - {name};
      }
    }
    forall n | n in names && ListKey(p, n) in s'
      ensures s'[ListKey(p, n)].ListValue? && s'[ListKey(p, n)].items != [] && [] !in s'[ListKey(p, n)].items
    {
      if n != name {
        assert Get(s', ListKey(p, n)) == Get(s, ListKey(p, n));
      }
    }
  }

  lemma CopyRefines(s: Store, p: Bytes, names: set<Bytes>, src: Bytes, dst: Bytes)
    requires ListsOnly(s, p, names) && src in names && dst in names
    ensures var out, m := CopyListOutcome(s, p, p, src, dst), View(s, p, names);
            && ListsOnly(out.store, p, names)
            && (out.result.Ok? <==> Succeeds(m, Copy(src, dst)))
            && View(out.store, p, names) == Effect(m, Copy(src, dst))
            && (forall key :: key != ListKey(p, dst) ==> Get(out.store, key) == Get(s, key))
            && (out.result.Err? ==> out.store == s)
  {
    var m := View(s, p, names);
    if src != [] && dst != [] && src != dst && src in m {
      var items := s[ListKey(p, src)].items;
      SliceAll(items);
      DeleteRefines(s, p, names, dst);
      var cleared := DeleteListOutcome(s, ListKey(p, dst)).store;
      PushRefines(cleared, p, names, dst, items);
      assert View(cleared, p, names) == m - {dst};
      assert [] + items == items;
      assert (m - {dst})[dst := items] == m[dst := items];
    } else if src !in m {
      assert ListKey(p, src) !in s;
      assert ListAt(s, ListKey(p, src)) == [];
    }
  }

  /** One operation on the store is one operation on the map: same success, same lists, no
      other key touched, and entries stay non-empty, so that `copy_list` never stops between
      its deletion and its push. */
  lemma OpRefines(s: Store, p: Bytes, names: set<Bytes>, op: ListOp)
    requires ListsOnly(s, p, names)
    requires forall n :: Mentions(op, n) ==> n in names
    requires op.Append? ==> op.entry != []
    ensures var out, m := Exec(s, p, op), View(s, p, names);
            && ListsOnly(out.store, p, names)
            && (out.result.Ok? <==> Succeeds(m, op))
            && View(out.store, p, names) == Effect(m, op)
            && (forall key :: (forall n :: Mentions(op, n) ==> key != ListKey(p, n)) ==> Get(out.store, key) == Get(s, key))
            && (out.result.Err? ==> out.store == s)
  {
    match op
    case Append(list, entry) =>
      assert Mentions(op, list);
      PushRefines(s, p, names, list, [entry]);
    case Delete(list) =>
      assert Mentions(op, list);
      DeleteRefines(s, p, names, list);
    case Copy(src, dst) =>
      assert Mentions(op, src) && Mentions(op, dst);
      CopyRefines(s, p, names, src, dst);
    case Rename(src, dst) =>
      assert Mentions(op, src) && Mentions(op, dst);
      CopyRefines(s, p, names, src, dst);
      var copied := CopyListOutcome(s, p, p, src, dst);
      DeleteRefines(copied.store, p, names, src);
  }

  function ExecAll(s: Store, p: Bytes, ops: seq<ListOp>): Store {
    if ops == [] then s else Exec(ExecAll(s, p, ops[..|ops| - 1]), p, ops[|ops| - 1]).store
  }

  function EffectAll(m: Lists, ops: seq<ListOp>): Lists {
    if ops == [] then m else Effect(EffectAll(m, ops[..|ops| - 1]), ops[|ops| - 1])
  }

  /** Refinement over whole runs, failing operations included. */
  lemma {:induction false} RunRefines(s: Store, p: Bytes, names: set<Bytes>, ops: seq<ListOp>)
    requires ListsOnly(s, p, names)
    requires forall i, n :: 0 <= i < |ops| && Mentions(ops[i], n) ==> n in names
    requires forall i :: 0 <= i < |ops| && ops[i].Append? ==> ops[i].entry != []
    ensures ListsOnly(ExecAll(s, p, ops), p, names)
    ensures View(ExecAll(s, p, ops), p, names) == EffectAll(View(s, p, names), ops)
    ensures forall key :: (forall n :: n in names ==> key != ListKey(p, n)) ==> Get(ExecAll(s, p, ops), key) == Get(s, key)
    decreases |ops|
  {
    if ops != [] {
      var init := ops[..|ops| - 1];
      forall i, n | 0 <= i < |init| && Mentions(init[i], n) ensures n in names {
        assert Mentions(ops[i], n);
      }
      RunRefines(s, p, names, init);
      OpRefines(ExecAll(s, p, init), p, names, ops[|ops| - 1]);
    }
  }

  /** Every entry that `append_to_list` writes is a dataset key and so is not empty. */
  lemma EntriesNotEmpty(prefix: Bytes, name: Bytes)
    ensures DatasetKey(prefix, name) != []
  {
  }

  // ---------------------------------------------------------------------------------------
  // Differing prefixes
  // ---------------------------------------------------------------------------------------

  /** A source list under the get prefix that the copy accepts. */
  ghost predicate GoodSource(s: Store, g: Bytes, src: Bytes, dst: Bytes) {
    && src != [] && dst != [] && src != dst
    && ListAt(s, ListKey(g, src)) != [] && [] !in ListAt(s, ListKey(g, src))
  }

  /** `copy_list` deletes under the get prefix and pushes under the put prefix. Where the client
      reads lists, under the get prefix, the destination equals the source afterwards exactly
      when both prefixes name the same destination key; under the put prefix it does so exactly
      then or when there was no list. */
  lemma CopyListReplacesIff(s: Store, g: Bytes, p: Bytes, src: Bytes, dst: Bytes)
    requires GoodSource(s, g, src, dst)
    ensures var items, out := ListAt(s, ListKey(g, src)), CopyListOutcome(s, g, p, src, dst);
            && (out.result.Ok? <==> PushAllowed(s, g, p, dst))
            && (ListAt(out.store, ListKey(g, dst)) == items <==> ListKey(p, dst) == ListKey(g, dst))
            && (out.result.Ok? ==>
                  (ListAt(out.store, ListKey(p, dst)) == items
                   <==> ListKey(p, dst) == ListKey(g, dst) || ListAt(s, ListKey(p, dst)) == []))
            && Get(out.store, ListKey(g, src)) == (if out.result.Ok? && ListKey(p, dst) == ListKey(g, src)
                                                   then Some(ListValue(items + items)) else Get(s, ListKey(g, src)))
  {
    var items, target := ListAt(s, ListKey(g, src)), ListKey(p, dst);
    SliceAll(items);
    if ListKey(g, src) == ListKey(g, dst) { ListKeyInjective(g, src, dst); }
    var cleared := DeleteListOutcome(s, ListKey(g, dst)).store;
    var kept := ListAt(cleared, target);
    assert |kept + items| == |kept| + |items|;
    if kept == [] {
      assert kept + items == items;
    }
  }

  /** `rename_list` then deletes the source: the list arrives where the client reads it exactly
      when both prefixes name the same destination key, and under the put prefix it survives
      only if that is not the source's own key. A failed push leaves the source in place and the
      destination deleted. */
  lemma RenameListMovesIff(s: Store, g: Bytes, p: Bytes, src: Bytes, dst: Bytes)
    requires GoodSource(s, g, src, dst)
    ensures var items, out := ListAt(s, ListKey(g, src)), RenameListOutcome(s, g, p, src, dst);
            && (out.result.Ok? <==> PushAllowed(s, g, p, dst))
            && (ListAt(out.store, ListKey(g, dst)) == items <==> ListKey(p, dst) == ListKey(g, dst))
            && (out.result.Ok? ==>
                  (ListAt(out.store, ListKey(p, dst)) == items
                   <==> ListKey(p, dst) != ListKey(g, src)
                        && (ListKey(p, dst) == ListKey(g, dst) || ListAt(s, ListKey(p, dst)) == [])))
            && Get(out.store, ListKey(g, src)) == (if out.result.Ok? then None else Get(s, ListKey(g, src)))
  {
    CopyListReplacesIff(s, g, p, src, dst);
    if ListKey(g, src) == ListKey(g, dst) { ListKeyInjective(g, src, dst); }
    var copied := CopyListOutcome(s, g, p, src, dst);
    if copied.result.Ok? {
      var final := DeleteListOutcome(copied.store, ListKey(g, src)).store;
      assert forall key :: key != ListKey(g, src) ==> ListAt(final, key) == ListAt(copied.store, key);
    }
  }
}
