/** Copying, renaming and deleting datasets, as functions of the store. */
module DatasetOperations {
  import opened Basics
  import opened Metadata
  import opened Keys
  import opened Store
  import opened DatasetCommands
  import opened DatasetReads

  /** How a call ends and what it leaves in the store, also when it throws. */
  datatype Outcome = Outcome(result: Result<()>, store: Store)

  function MetadataAt(s: Store, base: Bytes, missing: Error): Result<Fields> {
    var h :- HGetAll(s, MetaKey(base));
    if h == map[] then Err(missing) else DecodeHash(h)
  }

  /** `copy_tensors`: get and set one tensor after the other, stopping at the first error. */
  function CopyTensors(s: Store, src: Bytes, dst: Bytes, names: seq<Bytes>): Outcome {
    if names == [] then Outcome(Ok(()), s)
    else
      var n := |names| - 1;
      var before := CopyTensors(s, src, dst, names[..n]);
      if before.result.Err? then before
      else match TensorGet(before.store, TensorKey(src, names[n]))
        case Err(e) => Outcome(Err(e), before.store)
        case Ok(tensor) =>
          var set' := TensorSet(TensorKey(dst, names[n]), tensor);
          if Fails(before.store, set') then Outcome(Err(RuntimeError), before.store)
          else Outcome(Ok(()), Apply(before.store, set'))
  }

  lemma CopyNext(s: Store, src: Bytes, dst: Bytes, names: seq<Bytes>, i: nat)
    requires i < |names|
    ensures var before := CopyTensors(s, src, dst, names[..i]);
            CopyTensors(s, src, dst, names[..i + 1]) ==
            if before.result.Err? then before
            else match TensorGet(before.store, TensorKey(src, names[i]))
              case Err(e) => Outcome(Err(e), before.store)
              case Ok(tensor) =>
                var set' := TensorSet(TensorKey(dst, names[i]), tensor);
                if Fails(before.store, set') then Outcome(Err(RuntimeError), before.store)
                else Outcome(Ok(()), Apply(before.store, set'))
  {
    assert names[..i + 1][..i] == names[..i];
  }

  lemma {:induction false} CopyErrorStays(s: Store, src: Bytes, dst: Bytes, names: seq<Bytes>, i: nat)
    requires i <= |names| && CopyTensors(s, src, dst, names[..i]).result.Err?
    ensures CopyTensors(s, src, dst, names) == CopyTensors(s, src, dst, names[..i])
    decreases |names| - i
  {
    if i < |names| {
      CopyNext(s, src, dst, names, i);
      CopyErrorStays(s, src, dst, names, i + 1);
    } else {
      assert names[..i] == names;
    }
  }

  /** The store once metadata and acknowledgement have been sent. */
  function Place(s: Store, base: Bytes, fields: Fields): Store {
    s[MetaKey(base) := HashValue(SerializeFields(fields)[ACK_FIELD := ACK_VALUE])]
  }

  lemma PlaceMetadata(s: Store, base: Bytes, fields: Fields, pairs: Pairs)
    requires IsListing(pairs, SerializeFields(fields))
    ensures Run(s, MetadataCommands(base, pairs) + [AckCommand(base)]) == Place(s, base, fields)
    ensures !SomeFails(s, MetadataCommands(base, pairs) + [AckCommand(base)])
  {
    var m := MetadataCommands(base, pairs);
    var cmds := m + [AckCommand(base)];
    ListingToMap(pairs, SerializeFields(fields));
    AfterMetadataCommands(s, base, pairs);
    assert cmds[..|cmds| - 1] == m;
    assert Run(s, cmds) == Apply(Run(s, m), AckCommand(base));
    forall key ensures Get(Run(s, cmds), key) == Get(Place(s, base, fields), key) {}
    SameStore(Run(s, cmds), Place(s, base, fields));
    assert cmds[..1] == m[..1] && cmds[..2] == m;
  }

  /** `copy_dataset`. The name check of `set_name` and the check for an empty dataset come
      after the tensors have been copied. */
  function CopyOutcome(s: Store, src: Bytes, dst: Bytes, dstName: Bytes): Outcome {
    match MetadataAt(s, src, KeyError)
    case Err(e) => Outcome(Err(e), s)
    case Ok(fields) =>
      match TensorNames(fields)
      case Err(e) => Outcome(Err(e), s)
      case Ok(names) =>
        var copied := CopyTensors(s, src, dst, names);
        if copied.result.Err? then copied
        else if dstName == [] then Outcome(Err(ParameterError), copied.store)
        else if fields == map[] then Outcome(Err(RuntimeError), copied.store)
        else Outcome(Ok(()), Place(copied.store, dst, fields))
  }

  /** The outcome once the source's metadata has been read. */
  lemma CopyOfReadable(s: Store, src: Bytes, dst: Bytes, dstName: Bytes, fields: Fields, names: seq<Bytes>)
    requires MetadataAt(s, src, KeyError) == Ok(fields) && TensorNames(fields) == Ok(names)
    ensures var copied, out := CopyTensors(s, src, dst, names), CopyOutcome(s, src, dst, dstName);
            && (out.result.Ok? <==> copied.result.Ok? && dstName != [] && fields != map[])
            && (out.result.Ok? ==> out.store == Place(copied.store, dst, fields))
  {
  }

  function TensorKeys(base: Bytes, names: seq<Bytes>): seq<Bytes> {
    seq(|names|, i requires 0 <= i < |names| => TensorKey(base, names[i]))
  }

  /** `delete_dataset`: one DEL for the metadata key and the listed tensor keys. */
  function DeleteOutcome(s: Store, base: Bytes): Outcome {
    match MetadataAt(s, base, RuntimeError)
    case Err(e) => Outcome(Err(e), s)
    case Ok(fields) =>
      match TensorNames(fields)
      case Err(e) => Outcome(Err(e), s)
      case Ok(names) => Outcome(Ok(()), Apply(s, Del([MetaKey(base)] + TensorKeys(base, names))))
  }

  /** `rename_dataset`: a copy, then a deletion of the source. */
  function RenameOutcome(s: Store, src: Bytes, dst: Bytes, dstName: Bytes): Outcome {
    var copied := CopyOutcome(s, src, dst, dstName);
    if copied.result.Err? then copied else DeleteOutcome(copied.store, src)
  }

  // ---------------------------------------------------------------------------------------
  // What they achieve
  // ---------------------------------------------------------------------------------------

  /** The metadata key and the tensor keys of a dataset. */
  ghost predicate Owns(base: Bytes, ds: DataSet, key: Bytes) {
    key == MetaKey(base) || exists t :: t in ds.tensors && key == TensorKey(base, t)
  }

  lemma OwnedInSpace(base: Bytes, ds: DataSet, key: Bytes)
    requires Owns(base, ds, key)
    ensures InSpace(key, base)
  {
    MetaKeyInSpace(base);
    if key != MetaKey(base) {
      var t :| t in ds.tensors && key == TensorKey(base, t);
      TensorKeyInSpace(base, t);
    }
  }

  /** The same dataset under two dataset keys would share no key. */
  ghost predicate KeysApart(src: Bytes, dst: Bytes, ds: DataSet) {
    forall key :: !(Owns(src, ds, key) && Owns(dst, ds, key))
  }

  lemma TensorKeysApart(src: Bytes, dst: Bytes, ds: DataSet, t: Bytes, u: Bytes)
    requires KeysApart(src, dst, ds) && t in ds.tensors && u in ds.tensors
    ensures TensorKey(src, t) != TensorKey(dst, u)
  {
    assert Owns(src, ds, TensorKey(src, t)) && Owns(dst, ds, TensorKey(dst, u));
  }

  lemma ApartSpaces(src: Bytes, dst: Bytes, ds: DataSet)
    requires Apart(src, dst)
    ensures KeysApart(src, dst, ds)
  {
    forall key ensures !(Owns(src, ds, key) && Owns(dst, ds, key)) {
      if Owns(src, ds, key) && Owns(dst, ds, key) {
        OwnedInSpace(src, ds, key);
        OwnedInSpace(dst, ds, key);
      }
    }
  }

  /** A successful read depends on the keys of the dataset read only. */
  lemma ReadDependsOnOwned(s: Store, s': Store, base: Bytes, name: Bytes)
    requires ReadDataset(s, base, name).Ok?
    requires forall key :: Owns(base, ReadDataset(s, base, name).value, key) ==> Get(s', key) == Get(s, key)
    ensures ReadDataset(s', base, name) == ReadDataset(s, base, name)
  {
    var ds := ReadDataset(s, base, name).value;
    ReadIsStored(s, base, name);
    assert Owns(base, ds, MetaKey(base));
    assert Get(s', MetaKey(base)) == Get(s, MetaKey(base));
    var names := TensorNames(ds.fields).value;
    forall i | 0 <= i < |names| ensures TensorGet(s', TensorKey(base, names[i])) == TensorGet(s, TensorKey(base, names[i])) {
      assert names[i] in ds.tensors;
      assert Owns(base, ds, TensorKey(base, names[i]));
      assert Get(s', TensorKey(base, names[i])) == Get(s, TensorKey(base, names[i]));
    }
    assert FetchTensors(s', base, names) == FetchTensors(s, base, names) by {
      assert FetchTensors(s', base, names).value == FetchTensors(s, base, names).value;
    }
  }

  function Named(names: seq<Bytes>, pack: map<Bytes, Tensor>): NamedTensors
    requires forall t :: t in names ==> t in pack
  {
    seq(|names|, i requires 0 <= i < |names| => assert names[i] in names; (names[i], pack[names[i]]))
  }

  /** A dataset that reads back is well formed but for a possible lack of fields. */
  lemma ReadIsWellFormed(s: Store, base: Bytes, name: Bytes)
    requires ReadDataset(s, base, name).Ok?
    ensures var ds := ReadDataset(s, base, name).value;
            && META_NAME !in ds.tensors
            && ValidFields(ds.fields)
            && (ds.fields != map[] ==> WellFormed(ds))
            && SerializeFields(ds.fields)[ACK_FIELD := ACK_VALUE] == HashAt(s, MetaKey(base))[ACK_FIELD := ACK_VALUE]
  {
    ReadIsStored(s, base, name);
    HashCanonical(HashAt(s, MetaKey(base)));
    MetaKeyIsTensorKey(base);
  }

  /** Copied tensors, as far as none of their new keys was taken. */
  ghost predicate CopiedSoFar(s: Store, out: Outcome, dst: Bytes, tensors: NamedTensors, k: nat)
    requires k <= |tensors|
  {
    && (out.result.Ok? <==> forall i :: 0 <= i < k ==> Settable(s, TensorKey(dst, tensors[i].0)))
    && (out.result.Ok? ==> out.store == Run(s, TensorCommands(dst, tensors)[..k]))
  }

  /** Tensor commands leave other keys alone. */
  lemma TensorCommandsFrame(s: Store, dst: Bytes, tensors: NamedTensors, k: nat, key: Bytes)
    requires k <= |tensors| && forall j :: 0 <= j < k ==> TensorKey(dst, tensors[j].0) != key
    ensures Get(Run(s, TensorCommands(dst, tensors)[..k]), key) == Get(s, key)
  {
    var cmds := TensorCommands(dst, tensors)[..k];
    forall j | 0 <= j < |cmds| ensures !Touches(cmds[j], key) {
      assert cmds[j] == TensorSet(TensorKey(dst, tensors[j].0), tensors[j].1);
    }
    RunFrame(s, cmds, key);
  }

  lemma {:induction false} CopyTensorsEffect(s: Store, src: Bytes, dst: Bytes, names: seq<Bytes>, tensors: NamedTensors, k: nat)
    requires k <= |names| == |tensors| && UniqueNames(tensors)
    requires forall i :: 0 <= i < |names| ==> tensors[i].0 == names[i] && TensorGet(s, TensorKey(src, names[i])) == Ok(tensors[i].1)
    requires forall i, j :: 0 <= i < |names| && 0 <= j < |names| ==> TensorKey(src, names[i]) != TensorKey(dst, names[j])
    ensures CopiedSoFar(s, CopyTensors(s, src, dst, names[..k]), dst, tensors, k)
  {
    if k > 0 {
      CopyTensorsEffect(s, src, dst, names, tensors, k - 1);
      CopyTensorsNext(s, src, dst, names, tensors, k - 1);
    } else {
      assert TensorCommands(dst, tensors)[..0] == [];
    }
  }

  lemma CopyTensorsNext(s: Store, src: Bytes, dst: Bytes, names: seq<Bytes>, tensors: NamedTensors, i: nat)
    requires i < |names| == |tensors| && UniqueNames(tensors)
    requires forall j :: 0 <= j <= i ==> tensors[j].0 == names[j] && TensorKey(src, names[i]) != TensorKey(dst, names[j])
    requires TensorGet(s, TensorKey(src, names[i])) == Ok(tensors[i].1)
    requires CopiedSoFar(s, CopyTensors(s, src, dst, names[..i]), dst, tensors, i)
    ensures CopiedSoFar(s, CopyTensors(s, src, dst, names[..i + 1]), dst, tensors, i + 1)
  {
    CopyNext(s, src, dst, names, i);
    var before := CopyTensors(s, src, dst, names[..i]);
    if before.result.Ok? {
      var from, to := TensorKey(src, names[i]), TensorKey(dst, names[i]);
      RunNext(s, TensorCommands(dst, tensors), i);
      TensorCommandsFrame(s, dst, tensors, i, from);
      assert Get(before.store, from) == Get(s, from);
      forall j | 0 <= j < i ensures TensorKey(dst, tensors[j].0) != to {
        if TensorKey(dst, tensors[j].0) == to { TensorKeyInjective(dst, tensors[j].0, names[i]); }
      }
      TensorCommandsFrame(s, dst, tensors, i, to);
      assert Get(before.store, to) == Get(s, to);
    }
  }

  lemma SettableNames(s: Store, base: Bytes, names: seq<Bytes>, pack: map<Bytes, Tensor>)
    requires forall t :: t in names <==> t in pack
    ensures AllSettable(s, base, pack.Keys) <==> forall i :: 0 <= i < |names| ==> Settable(s, TensorKey(base, names[i]))
  {
    if AllSettable(s, base, pack.Keys) {
      forall i | 0 <= i < |names| ensures Settable(s, TensorKey(base, names[i])) {
        assert names[i] in pack.Keys;
      }
    } else {
      var t :| t in pack.Keys && !Settable(s, TensorKey(base, t));
      assert t in names;
      var i :| 0 <= i < |names| && names[i] == t;
    }
  }

  /** What copying tensors does to a store when the keys of source and destination may meet. */
  ghost predicate TensorsOverwritten(s: Store, st: Store, dst: Bytes, names: seq<Bytes>) {
    forall key ::
      if exists i :: 0 <= i < |names| && key == TensorKey(dst, names[i])
      then key in st && st[key].TensorValue?
      else Get(st, key) == Get(s, key)
  }

  lemma OverwriteNext(s: Store, before: Store, dst: Bytes, names: seq<Bytes>, tensor: Tensor)
    requires names != [] && TensorsOverwritten(s, before, dst, names[..|names| - 1])
    ensures TensorsOverwritten(s, before[TensorKey(dst, names[|names| - 1]) := TensorValue(tensor)], dst, names)
  {
    var n := |names| - 1;
    var to := TensorKey(dst, names[n]);
    var after := before[to := TensorValue(tensor)];
    forall key
      ensures if exists i :: 0 <= i < |names| && key == TensorKey(dst, names[i])
              then key in after && after[key].TensorValue?
              else Get(after, key) == Get(s, key)
    {
      if i :| 0 <= i < |names| && key == TensorKey(dst, names[i]) {
        if key != to {
          assert names[..n][i] == names[i];
        }
      } else {
        forall i | 0 <= i < n ensures key != TensorKey(dst, names[..n][i]) {
          assert names[..n][i] == names[i];
        }
      }
    }
  }

  /** Tensor `i` is there when its turn comes: from the start, or put there by an earlier copy. */
  ghost predicate Available(s: Store, src: Bytes, dst: Bytes, names: seq<Bytes>, i: nat)
    requires i < |names|
  {
    TensorGet(s, TensorKey(src, names[i])).Ok? || exists j :: 0 <= j < i && TensorKey(dst, names[j]) == TensorKey(src, names[i])
  }

  /** Every listed tensor is available, and its new key is free for a tensor. */
  ghost predicate InTurn(s: Store, src: Bytes, dst: Bytes, names: seq<Bytes>) {
    forall i :: 0 <= i < |names| ==> Available(s, src, dst, names, i) && Settable(s, TensorKey(dst, names[i]))
  }

  lemma AvailableInPrefix(s: Store, src: Bytes, dst: Bytes, names: seq<Bytes>, n: nat, i: nat)
    requires i < n <= |names|
    ensures Available(s, src, dst, names[..n], i) <==> Available(s, src, dst, names, i)
  {
    forall j | 0 <= j <= i ensures names[..n][j] == names[j] {}
    if j :| 0 <= j < i && TensorKey(dst, names[j]) == TensorKey(src, names[i]) {
      assert TensorKey(dst, names[..n][j]) == TensorKey(src, names[..n][i]);
    }
  }

  lemma InTurnPrefix(s: Store, src: Bytes, dst: Bytes, names: seq<Bytes>, n: nat)
    requires InTurn(s, src, dst, names) && n <= |names|
    ensures InTurn(s, src, dst, names[..n])
  {
    forall i | 0 <= i < n ensures Available(s, src, dst, names[..n], i) && Settable(s, TensorKey(dst, names[..n][i])) {
      AvailableInPrefix(s, src, dst, names, n, i);
      assert names[..n][i] == names[i];
    }
  }

  lemma InTurnMore(s: Store, src: Bytes, dst: Bytes, names: seq<Bytes>)
    requires names != [] && InTurn(s, src, dst, names[..|names| - 1])
    requires Available(s, src, dst, names, |names| - 1) && Settable(s, TensorKey(dst, names[|names| - 1]))
    ensures InTurn(s, src, dst, names)
  {
    var n := |names| - 1;
    forall i | 0 <= i < |names| ensures Available(s, src, dst, names, i) && Settable(s, TensorKey(dst, names[i])) {
      if i < n {
        AvailableInPrefix(s, src, dst, names, n, i);
        assert names[..n][i] == names[i];
      }
    }
  }

  /** One key after the tensors before the last have been copied. */
  lemma OverwrittenAt(s: Store, before: Store, dst: Bytes, names: seq<Bytes>, key: Bytes)
    requires names != [] && TensorsOverwritten(s, before, dst, names[..|names| - 1])
    ensures TensorGet(before, key).Ok? <==>
            TensorGet(s, key).Ok? || exists j :: 0 <= j < |names| - 1 && TensorKey(dst, names[j]) == key
    ensures Settable(before, key) <==>
            Settable(s, key) || exists j :: 0 <= j < |names| - 1 && TensorKey(dst, names[j]) == key
  {
    var init := names[..|names| - 1];
    if j :| 0 <= j < |names| - 1 && TensorKey(dst, names[j]) == key {
      assert key == TensorKey(dst, init[j]);
    } else {
      forall j | 0 <= j < |init| ensures key != TensorKey(dst, init[j]) {
        assert names[j] == init[j];
      }
      assert Get(before, key) == Get(s, key);
    }
  }

  /** The last step of the loop. */
  lemma CopyLastTensor(s: Store, src: Bytes, dst: Bytes, names: seq<Bytes>)
    requires names != [] && InTurn(s, src, dst, names[..|names| - 1])
    requires CopyTensors(s, src, dst, names[..|names| - 1]).result.Ok?
    requires TensorsOverwritten(s, CopyTensors(s, src, dst, names[..|names| - 1]).store, dst, names[..|names| - 1])
    ensures var n := |names| - 1;
            CopyTensors(s, src, dst, names).result.Ok? <==> Available(s, src, dst, names, n) && Settable(s, TensorKey(dst, names[n]))
    ensures CopyTensors(s, src, dst, names).result.Ok? ==> TensorsOverwritten(s, CopyTensors(s, src, dst, names).store, dst, names)
  {
    var n := |names| - 1;
    var init, from, to := names[..n], TensorKey(src, names[n]), TensorKey(dst, names[n]);
    var before := CopyTensors(s, src, dst, init).store;
    OverwrittenAt(s, before, dst, names, from);
    OverwrittenAt(s, before, dst, names, to);
    if j :| 0 <= j < n && TensorKey(dst, names[j]) == to {
      assert init[j] == names[j];
    }
    assert Settable(before, to) <==> Settable(s, to);
    assert TensorGet(before, from).Ok? <==> Available(s, src, dst, names, n);
    if TensorGet(before, from).Ok? {
      OverwriteNext(s, before, dst, names, TensorGet(before, from).value);
    }
  }

  /** When copying tensors succeeds, for any list of names, and what it then does. */
  lemma {:induction false} CopyTensorsIff(s: Store, src: Bytes, dst: Bytes, names: seq<Bytes>)
    ensures CopyTensors(s, src, dst, names).result.Ok? <==> InTurn(s, src, dst, names)
    ensures CopyTensors(s, src, dst, names).result.Ok? ==> TensorsOverwritten(s, CopyTensors(s, src, dst, names).store, dst, names)
    ensures CopyTensors(s, src, dst, names).result.Err? ==> CopyTensors(s, src, dst, names).result.error == RuntimeError
    decreases |names|
  {
    if names != [] {
      var n := |names| - 1;
      CopyTensorsIff(s, src, dst, names[..n]);
      if InTurn(s, src, dst, names) {
        InTurnPrefix(s, src, dst, names, n);
      }
      if CopyTensors(s, src, dst, names[..n]).result.Ok? {
        CopyLastTensor(s, src, dst, names);
        if CopyTensors(s, src, dst, names).result.Ok? {
          InTurnMore(s, src, dst, names);
        }
      }
    }
  }

  lemma CopyTensorsAnywhere(s: Store, src: Bytes, dst: Bytes, names: seq<Bytes>)
    requires forall i :: 0 <= i < |names| ==> TensorGet(s, TensorKey(src, names[i])).Ok? && Settable(s, TensorKey(dst, names[i]))
    ensures CopyTensors(s, src, dst, names).result.Ok?
    ensures TensorsOverwritten(s, CopyTensors(s, src, dst, names).store, dst, names)
  {
    CopyTensorsIff(s, src, dst, names);
  }

  /** The tensors of a readable source can be copied to any destination whose keys are free,
      even if the two share keys; the source's metadata stays. */
  lemma CopyTensorsOf(s: Store, src: Bytes, dst: Bytes, name: Bytes)
    requires ReadDataset(s, src, name).Ok?
    requires AllSettable(s, dst, ReadDataset(s, src, name).value.tensors.Keys)
    ensures var ds := ReadDataset(s, src, name).value;
            var out := CopyTensors(s, src, dst, TensorNames(ds.fields).value);
            && out.result.Ok?
            && Get(out.store, MetaKey(src)) == Get(s, MetaKey(src))
            && (forall key :: !Owns(dst, ds, key) ==> Get(out.store, key) == Get(s, key))
  {
    var ds := ReadDataset(s, src, name).value;
    var names := TensorNames(ds.fields).value;
    ReadIsStored(s, src, name);
    SettableNames(s, dst, names, ds.tensors);
    forall i | 0 <= i < |names| ensures TensorGet(s, TensorKey(src, names[i])).Ok? {
      assert names[i] in ds.tensors;
    }
    CopyTensorsAnywhere(s, src, dst, names);
    var copied := CopyTensors(s, src, dst, names).store;
    forall key | !Owns(dst, ds, key) ensures Get(copied, key) == Get(s, key) {
      OverwrittenFrame(s, copied, dst, ds, key);
    }
    forall i | 0 <= i < |names| ensures MetaKey(src) != TensorKey(dst, names[i]) {
      assert Settable(s, TensorKey(dst, names[i]));
    }
  }

  /** A hash written with these fields and the acknowledgement reads as these fields. */
  lemma PlacedMetadata(s: Store, base: Bytes, fields: Fields, missing: Error)
    requires ValidFields(fields)
    ensures MetadataAt(Place(s, base, fields), base, missing) == Ok(fields)
  {
    HashRoundTrip(fields);
    assert ACK_FIELD in SerializeFields(fields)[ACK_FIELD := ACK_VALUE];
  }

  /** The keys `base` + ".meta" determine `base`. */
  lemma MetaKeyInjective(a: Bytes, b: Bytes)
    requires MetaKey(a) == MetaKey(b)
    ensures a == b
  {
    assert |MetaKey(a)| == |a| + 5 && MetaKey(a)[..|a|] == a && MetaKey(b)[..|b|] == b;
  }

  /** A copy to any destination whose tensor keys are free succeeds and leaves the metadata of
      the source readable, even if the two share keys. */
  lemma CopyAnywhere(s: Store, src: Bytes, dst: Bytes, name: Bytes, dstName: Bytes)
    requires ReadDataset(s, src, name).Ok? && ReadDataset(s, src, name).value.fields != map[] && dstName != []
    requires AllSettable(s, dst, ReadDataset(s, src, name).value.tensors.Keys)
    ensures var ds, out := ReadDataset(s, src, name).value, CopyOutcome(s, src, dst, dstName);
            && out.result.Ok?
            && MetadataAt(out.store, src, RuntimeError) == Ok(ds.fields)
            && (forall key :: !Owns(dst, ds, key) ==> Get(out.store, key) == Get(s, key))
  {
    var ds := ReadDataset(s, src, name).value;
    ReadIsWellFormed(s, src, name);
    CopyTensorsOf(s, src, dst, name);
    var copied := CopyTensors(s, src, dst, TensorNames(ds.fields).value).store;
    var placed := Place(copied, dst, ds.fields);
    CopyOfReadable(s, src, dst, dstName, ds.fields, TensorNames(ds.fields).value);
    forall key | !Owns(dst, ds, key) ensures Get(placed, key) == Get(s, key) {
      assert key != MetaKey(dst);
    }
    if MetaKey(src) == MetaKey(dst) {
      MetaKeyInjective(src, dst);
      PlacedMetadata(copied, dst, ds.fields, RuntimeError);
    } else {
      SameMetadata(s, placed, src, ds.fields);
    }
  }

  lemma SameMetadata(s: Store, t: Store, base: Bytes, fields: Fields)
    requires MetadataAt(s, base, KeyError) == Ok(fields) && Get(t, MetaKey(base)) == Get(s, MetaKey(base))
    ensures MetadataAt(t, base, RuntimeError) == Ok(fields)
  {
  }

  lemma OverwrittenFrame(s: Store, copied: Store, dst: Bytes, ds: DataSet, key: Bytes)
    requires TensorNames(ds.fields).Ok? && forall t :: t in TensorNames(ds.fields).value <==> t in ds.tensors
    requires TensorsOverwritten(s, copied, dst, TensorNames(ds.fields).value) && !Owns(dst, ds, key)
    ensures Get(copied, key) == Get(s, key)
  {
    var names := TensorNames(ds.fields).value;
    forall i | 0 <= i < |names| ensures key != TensorKey(dst, names[i]) {
      assert names[i] in ds.tensors;
    }
  }

  /** A key that holds no tensor keeps what it holds. */
  lemma {:induction false} CopyTensorsKeep(s: Store, src: Bytes, dst: Bytes, names: seq<Bytes>, key: Bytes)
    requires !Settable(s, key)
    ensures Get(CopyTensors(s, src, dst, names).store, key) == Get(s, key)
    decreases |names|
  {
    if names != [] {
      CopyTensorsKeep(s, src, dst, names[..|names| - 1], key);
    }
  }

  lemma {:induction false} CopyTensorsStop(s: Store, src: Bytes, dst: Bytes, names: seq<Bytes>, i: nat)
    requires i < |names| && !Settable(s, TensorKey(dst, names[i]))
    ensures CopyTensors(s, src, dst, names).result.Err?
    decreases |names|
  {
    var init := names[..|names| - 1];
    if i < |names| - 1 {
      CopyTensorsStop(s, src, dst, init, i);
    } else {
      CopyTensorsKeep(s, src, dst, init, TensorKey(dst, names[i]));
    }
  }

  /** A copy from a readable source succeeds exactly when the destination is named, there is
      something to store and no destination key is in use for anything but a tensor. */
  lemma CopySucceedsIff(s: Store, src: Bytes, dst: Bytes, name: Bytes, dstName: Bytes)
    requires ReadDataset(s, src, name).Ok?
    ensures var ds := ReadDataset(s, src, name).value;
            CopyOutcome(s, src, dst, dstName).result.Ok? <==>
            dstName != [] && ds.fields != map[] && AllSettable(s, dst, ds.tensors.Keys)
  {
    var ds := ReadDataset(s, src, name).value;
    var names := TensorNames(ds.fields).value;
    ReadIsStored(s, src, name);
    if !AllSettable(s, dst, ds.tensors.Keys) {
      SettableNames(s, dst, names, ds.tensors);
      var i :| 0 <= i < |names| && !Settable(s, TensorKey(dst, names[i]));
      CopyTensorsStop(s, src, dst, names, i);
    } else if dstName != [] && ds.fields != map[] {
      CopyAnywhere(s, src, dst, name, dstName);
    }
  }

  /** The tensor part of a copy from a readable source that shares no key with its copy. */
  lemma CopiedTensors(s: Store, src: Bytes, dst: Bytes, name: Bytes)
    requires ReadDataset(s, src, name).Ok? && KeysApart(src, dst, ReadDataset(s, src, name).value)
    ensures forall t :: t in TensorNames(ReadDataset(s, src, name).value.fields).value <==> t in ReadDataset(s, src, name).value.tensors
    ensures var ds := ReadDataset(s, src, name).value;
            var names := TensorNames(ds.fields).value;
            var tensors := Named(names, ds.tensors);
            CopiedSoFar(s, CopyTensors(s, src, dst, names), dst, tensors, |tensors|)
  {
    var ds := ReadDataset(s, src, name).value;
    var names := TensorNames(ds.fields).value;
    ReadIsStored(s, src, name);
    ReadIsWellFormed(s, src, name);
    var tensors := Named(names, ds.tensors);
    forall i | 0 <= i < |names| ensures TensorGet(s, TensorKey(src, names[i])) == Ok(tensors[i].1) {
      assert names[i] in names;
      assert Get(s, TensorKey(src, names[i])) == Some(TensorValue(ds.tensors[names[i]]));
    }
    forall i, j | 0 <= i < |names| && 0 <= j < |names| ensures TensorKey(src, names[i]) != TensorKey(dst, names[j]) {
      TensorKeysApart(src, dst, ds, names[i], names[j]);
    }
    CopyTensorsEffect(s, src, dst, names, tensors, |names|);
    assert names[..|names|] == names;
  }

  lemma RunCopyCommands(s: Store, dst: Bytes, fields: Fields, pairs: Pairs, tensors: NamedTensors)
    requires IsListing(pairs, SerializeFields(fields))
    ensures Run(s, CopyCommands(dst, pairs, tensors)) == Place(Run(s, TensorCommands(dst, tensors)), dst, fields)
  {
    var t, m := TensorCommands(dst, tensors), MetadataCommands(dst, pairs) + [AckCommand(dst)];
    PlaceMetadata(Run(s, t), dst, fields, pairs);
    RunAppend(s, t, m);
    assert t + m == CopyCommands(dst, pairs, tensors);
  }

  lemma NamedLists(names: seq<Bytes>, pack: map<Bytes, Tensor>)
    requires Distinct(names) && forall t :: t in names <==> t in pack
    ensures IsListing(Named(names, pack), pack)
  {
    var tensors := Named(names, pack);
    forall t | t in pack ensures exists i :: 0 <= i < |tensors| && tensors[i].0 == t {
      var i :| 0 <= i < |names| && names[i] == t;
      assert tensors[i].0 == t;
    }
  }

  /** A successful copy leaves the store that the command list of `CopyCommands` leaves, for
      every order of sending: what is proved of its intermediate states applies. */
  lemma CopyIsItsCommands(s: Store, src: Bytes, dst: Bytes, ds: DataSet, dstName: Bytes, pairs: Pairs)
    requires ReadDataset(s, src, ds.name) == Ok(ds) && KeysApart(src, dst, ds)
    requires CopyOutcome(s, src, dst, dstName).result.Ok?
    requires IsListing(pairs, SerializeFields(ds.fields))
    ensures TensorNames(ds.fields).Ok? && forall t :: t in TensorNames(ds.fields).value ==> t in ds.tensors
    ensures var tensors := Named(TensorNames(ds.fields).value, ds.tensors);
            && Orders(ds, pairs, tensors)
            && CopyOutcome(s, src, dst, dstName).store == Run(s, CopyCommands(dst, pairs, tensors))
  {
    ReadIsStored(s, src, ds.name);
    var names := TensorNames(ds.fields).value;
    CopiedTensors(s, src, dst, ds.name);
    var tensors := Named(names, ds.tensors);
    CopyOfReadable(s, src, dst, dstName, ds.fields, names);
    assert TensorCommands(dst, tensors)[..|tensors|] == TensorCommands(dst, tensors);
    RunCopyCommands(s, dst, ds.fields, pairs, tensors);
    NamedLists(names, ds.tensors);
  }

  /** Copying to keys the source does not use: the destination then reads as the source under its
      new name, with the same bytes in every field, and is acknowledged; every key outside the
      destination's metadata and listed tensors keeps its value. */
  lemma CopyApart(s: Store, src: Bytes, dst: Bytes, name: Bytes, dstName: Bytes)
    requires ReadDataset(s, src, name).Ok? && KeysApart(src, dst, ReadDataset(s, src, name).value)
    requires CopyOutcome(s, src, dst, dstName).result.Ok?
    ensures var ds, s' := ReadDataset(s, src, name).value, CopyOutcome(s, src, dst, dstName).store;
            && ReadDataset(s', dst, dstName) == Ok(ds.(name := dstName))
            && WhollyStored(s', dst, ds.(name := dstName))
            && HashAt(s', MetaKey(dst)) == HashAt(s, MetaKey(src))[ACK_FIELD := ACK_VALUE]
            && (forall key :: !Owns(dst, ds, key) ==> Get(s', key) == Get(s, key))
            && ReadDataset(s', src, name) == Ok(ds)
  {
    var ds, s' := ReadDataset(s, src, name).value, CopyOutcome(s, src, dst, dstName).store;
    CopySucceedsIff(s, src, dst, name, dstName);
    ReadIsWellFormed(s, src, name);
    var pairs := ListingExists(SerializeFields(ds.fields));
    ReadIsStored(s, src, name);
    CopyIsItsCommands(s, src, dst, ds, dstName, pairs);
    var tensors := Named(TensorNames(ds.fields).value, ds.tensors);
    CopyStores(s, dst, ds, pairs, tensors);
    StoredReads(s', dst, ds.(name := dstName));
    forall key | !Owns(dst, ds, key) ensures Get(s', key) == Get(s, key) {
      CopyFrame(s, dst, ds, pairs, tensors, key);
    }
    ReadDependsOnOwned(s, s', src, name);
  }

  lemma CopyFrame(s: Store, dst: Bytes, ds: DataSet, pairs: Pairs, tensors: NamedTensors, key: Bytes)
    requires IsListing(tensors, ds.tensors) && !Owns(dst, ds, key)
    ensures Get(Run(s, CopyCommands(dst, pairs, tensors)), key) == Get(s, key)
  {
    PutFrame(s, dst, pairs, tensors, key);
  }

  /** The keys that one DEL removes: the metadata key and those of the listed tensors. */
  ghost predicate Lists(base: Bytes, names: seq<Bytes>, key: Bytes) {
    key == MetaKey(base) || exists t :: t in names && key == TensorKey(base, t)
  }

  lemma DeletedKeys(base: Bytes, names: seq<Bytes>, key: Bytes)
    ensures key in [MetaKey(base)] + TensorKeys(base, names) <==> Lists(base, names, key)
  {
    var keys := TensorKeys(base, names);
    if key in keys {
      var i :| 0 <= i < |keys| && keys[i] == key;
      assert names[i] in names;
    }
    if t :| t in names && key == TensorKey(base, t) {
      var i :| 0 <= i < |names| && names[i] == t;
      assert keys[i] == key;
    }
  }

  /** Deleting needs no more than metadata that decodes; the listed tensors may be missing. The
      metadata key and the listed tensor keys go, nothing else changes, and no dataset reads
      under this key any more. */
  lemma DeleteCorrect(s: Store, base: Bytes, fields: Fields, names: seq<Bytes>)
    requires MetadataAt(s, base, RuntimeError) == Ok(fields) && TensorNames(fields) == Ok(names)
    ensures DeleteOutcome(s, base).result.Ok?
    ensures forall key :: Get(DeleteOutcome(s, base).store, key) == if Lists(base, names, key) then None else Get(s, key)
    ensures forall name :: ReadDataset(DeleteOutcome(s, base).store, base, name) == Err(KeyError)
  {
    forall key ensures key in [MetaKey(base)] + TensorKeys(base, names) <==> Lists(base, names, key) {
      DeletedKeys(base, names, key);
    }
  }

  /** For a dataset whose list names its tensors, these are the keys it owns. */
  lemma DeleteRemoves(s: Store, base: Bytes, ds: DataSet)
    requires MetadataAt(s, base, RuntimeError) == Ok(ds.fields)
    requires TensorNames(ds.fields).Ok? && forall t :: t in TensorNames(ds.fields).value <==> t in ds.tensors
    ensures DeleteOutcome(s, base).result.Ok?
    ensures forall key :: Get(DeleteOutcome(s, base).store, key) == if Owns(base, ds, key) then None else Get(s, key)
    ensures forall name :: ReadDataset(DeleteOutcome(s, base).store, base, name) == Err(KeyError)
  {
    var names := TensorNames(ds.fields).value;
    DeleteCorrect(s, base, ds.fields, names);
    forall key ensures Lists(base, names, key) <==> Owns(base, ds, key) {}
  }

  /** Renaming moves the dataset exactly when it would share no key with its new self. There is
      no guard: for equal keys the dataset is copied onto itself and deleted, and where the keys
      meet otherwise the deletion takes a part of the copy. The old name reads no more, and keys
      outside both keep their values. */
  lemma RenameMovesIff(s: Store, src: Bytes, dst: Bytes, name: Bytes, newName: Bytes)
    requires ReadDataset(s, src, name).Ok? && ReadDataset(s, src, name).value.fields != map[] && newName != []
    requires AllSettable(s, dst, ReadDataset(s, src, name).value.tensors.Keys)
    ensures var ds, out := ReadDataset(s, src, name).value, RenameOutcome(s, src, dst, newName);
            && out.result.Ok?
            && (ReadDataset(out.store, dst, newName) == Ok(ds.(name := newName)) <==> KeysApart(src, dst, ds))
            && ReadDataset(out.store, src, name) == Err(KeyError)
            && (forall key :: !Owns(src, ds, key) && !Owns(dst, ds, key) ==> Get(out.store, key) == Get(s, key))
  {
    var ds := ReadDataset(s, src, name).value;
    ReadIsStored(s, src, name);
    CopyAnywhere(s, src, dst, name, newName);
    var copied := CopyOutcome(s, src, dst, newName).store;
    DeleteRemoves(copied, src, ds);
    var final := DeleteOutcome(copied, src).store;
    assert Owns(src, ds, MetaKey(src));
    if KeysApart(src, dst, ds) {
      CopyApart(s, src, dst, name, newName);
      OwnsSame(dst, ds, ds.(name := newName));
      ReadDependsOnOwned(copied, final, dst, newName);
    } else {
      var key :| Owns(src, ds, key) && Owns(dst, ds, key);
      assert key !in final;
      MissingKeyRead(final, dst, ds, newName, key);
    }
  }

  lemma OwnsSame(base: Bytes, ds: DataSet, other: DataSet)
    requires ds.tensors == other.tensors
    ensures forall key :: Owns(base, ds, key) <==> Owns(base, other, key)
  {
  }

  /** Without one of its keys a dataset does not read as itself. */
  lemma MissingKeyRead(s: Store, base: Bytes, ds: DataSet, name: Bytes, key: Bytes)
    requires Owns(base, ds, key) && key !in s
    ensures ReadDataset(s, base, name) != Ok(ds.(name := name))
  {
    if ReadDataset(s, base, name) == Ok(ds.(name := name)) {
      ReadIsStored(s, base, name);
    }
  }

  /** In terms of names, for prefixes without an opening brace: renaming moves a dataset to
      every name it is not entangled with. */
  lemma RenameMovesToApartName(s: Store, p: Bytes, name: Bytes, q: Bytes, newName: Bytes)
    requires OPEN !in p && OPEN !in q && newName != [] && !Entangled(p, name, q, newName)
    requires ReadDataset(s, DatasetKey(p, name), name).Ok?
    requires ReadDataset(s, DatasetKey(p, name), name).value.fields != map[]
    requires AllSettable(s, DatasetKey(q, newName), ReadDataset(s, DatasetKey(p, name), name).value.tensors.Keys)
    ensures var src, dst := DatasetKey(p, name), DatasetKey(q, newName);
            var ds, out := ReadDataset(s, src, name).value, RenameOutcome(s, src, dst, newName);
            && out.result.Ok?
            && ReadDataset(out.store, dst, newName) == Ok(ds.(name := newName))
            && ReadDataset(out.store, src, name) == Err(KeyError)
  {
    var src, dst := DatasetKey(p, name), DatasetKey(q, newName);
    SpacesApartIff(p, name, q, newName);
    ApartSpaces(src, dst, ReadDataset(s, src, name).value);
    RenameMovesIff(s, src, dst, name, newName);
  }

  /** Renaming onto the same key destroys the dataset. */
  lemma RenameToSelf(s: Store, base: Bytes, name: Bytes, newName: Bytes)
    requires ReadDataset(s, base, name).Ok? && newName != []
    requires ReadDataset(s, base, name).value.fields != map[]
    ensures var ds, out := ReadDataset(s, base, name).value, RenameOutcome(s, base, base, newName);
            && out.result.Ok?
            && ReadDataset(out.store, base, newName) == Err(KeyError)
            && (forall key :: !Owns(base, ds, key) ==> Get(out.store, key) == Get(s, key))
  {
    var ds := ReadDataset(s, base, name).value;
    ReadIsStored(s, base, name);
    forall t | t in ds.tensors ensures Settable(s, TensorKey(base, t)) {
      assert Get(s, TensorKey(base, t)) == Some(TensorValue(ds.tensors[t]));
    }
    RenameMovesIff(s, base, base, name, newName);
    assert ReadDataset(RenameOutcome(s, base, base, newName).store, base, name).Err?;
  }

  /** Conservation: placing a dataset on unused keys and deleting it restores the store. */
  lemma PutThenDelete(s: Store, base: Bytes, ds: DataSet, pairs: Pairs, tensors: NamedTensors)
    requires WellFormed(ds) && Orders(ds, pairs, tensors)
    requires MetaKey(base) !in s && forall t :: t in ds.tensors ==> TensorKey(base, t) !in s
    ensures DeleteOutcome(Run(s, PutCommands(base, pairs, tensors)), base) == Outcome(Ok(()), s)
  {
    var st := Run(s, PutCommands(base, pairs, tensors));
    PutStores(s, base, ds, pairs, tensors);
    WholeDelete(st, base, ds);
    var s' := DeleteOutcome(st, base).store;
    forall key ensures Get(s', key) == Get(s, key) {
      if !Owns(base, ds, key) {
        PutFrame(s, base, pairs, tensors, key);
      }
    }
    SameStore(s', s);
  }

  /** Deleting a wholly stored dataset. */
  lemma WholeDelete(s: Store, base: Bytes, ds: DataSet)
    requires WellFormed(ds) && WhollyStored(s, base, ds)
    ensures DeleteOutcome(s, base).result.Ok?
    ensures forall key :: Get(DeleteOutcome(s, base).store, key) == if Owns(base, ds, key) then None else Get(s, key)
  {
    HashRoundTrip(ds.fields);
    assert ACK_FIELD in HashAt(s, MetaKey(base));
    DeleteRemoves(s, base, ds);
  }

  /** Overwriting a dataset and deleting the new one leaves the tensors that only the old one
      had: deletion knows the listed tensors only. */
  lemma OverwriteLeavesOrphans(s: Store, base: Bytes, old': DataSet, ds: DataSet, pairs: Pairs, tensors: NamedTensors)
    requires WellFormed(old') && WellFormed(ds) && Orders(ds, pairs, tensors)
    requires WhollyStored(s, base, old') && AllSettable(s, base, ds.tensors.Keys)
    ensures var out := DeleteOutcome(Run(s, PutCommands(base, pairs, tensors)), base);
            && out.result.Ok?
            && forall t :: t in old'.tensors ==>
                 Get(out.store, TensorKey(base, t)) == if t in ds.tensors then None else Some(TensorValue(old'.tensors[t]))
  {
    var st := Run(s, PutCommands(base, pairs, tensors));
    PutStores(s, base, ds, pairs, tensors);
    WholeDelete(st, base, ds);
    forall t, u | TensorKey(base, t) == TensorKey(base, u) ensures t == u {
      TensorKeyInjective(base, t, u);
    }
    forall t | t in old'.tensors ensures TensorKey(base, t) != MetaKey(base) {
      MetaKeyApart(base, t);
    }
  }
}
