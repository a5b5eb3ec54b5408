/** Copying a dataset between any two keys, shared ones included: what the destination and the
    source read as afterwards. Tensors are copied one after the other, so that a key that both
    sides use may be overwritten before it is read. */
module DatasetCopies {
  import opened Basics
  import opened Metadata
  import opened Keys
  import opened Store
  import opened DatasetCommands
  import opened DatasetReads
  import opened DatasetOperations

  /** Every tensor can be fetched under `src` and stored under `dst`. */
  ghost predicate Copyable(s: Store, src: Bytes, dst: Bytes, names: seq<Bytes>) {
    Distinct(names)
    && forall i :: 0 <= i < |names| ==> TensorGet(s, TensorKey(src, names[i])).Ok? && Settable(s, TensorKey(dst, names[i]))
  }

  /** The store when tensor `i` is about to be copied. */
  function Before(s: Store, src: Bytes, dst: Bytes, names: seq<Bytes>, i: nat): Store
    requires i <= |names|
  {
    CopyTensors(s, src, dst, names[..i]).store
  }

  /** What is then fetched for it. */
  function FetchedFor(s: Store, src: Bytes, dst: Bytes, names: seq<Bytes>, i: nat): Result<Tensor>
    requires i < |names|
  {
    TensorGet(Before(s, src, dst, names, i), TensorKey(src, names[i]))
  }

  lemma CopyOne(s: Store, src: Bytes, dst: Bytes, names: seq<Bytes>, i: nat)
    requires Copyable(s, src, dst, names) && i < |names|
    ensures FetchedFor(s, src, dst, names, i).Ok?
    ensures Before(s, src, dst, names, i + 1) ==
            Before(s, src, dst, names, i)[TensorKey(dst, names[i]) := TensorValue(FetchedFor(s, src, dst, names, i).value)]
  {
    CopyTensorsAnywhere(s, src, dst, names[..i]);
    CopyTensorsAnywhere(s, src, dst, names[..i + 1]);
    CopyNext(s, src, dst, names, i);
  }

  /** A tensor once written stays. */
  lemma {:induction false} WrittenStays(s: Store, src: Bytes, dst: Bytes, names: seq<Bytes>, i: nat, k: nat)
    requires Copyable(s, src, dst, names) && i < k <= |names|
    ensures TensorGet(Before(s, src, dst, names, k), TensorKey(dst, names[i])) == FetchedFor(s, src, dst, names, i)
    decreases k
  {
    CopyOne(s, src, dst, names, k - 1);
    if i < k - 1 {
      WrittenStays(s, src, dst, names, i, k - 1);
      if TensorKey(dst, names[i]) == TensorKey(dst, names[k - 1]) {
        TensorKeyInjective(dst, names[i], names[k - 1]);
      }
    }
  }

  /** Other keys stay as they were. */
  lemma {:induction false} Untouched(s: Store, src: Bytes, dst: Bytes, names: seq<Bytes>, k: nat, key: Bytes)
    requires Copyable(s, src, dst, names) && k <= |names|
    requires forall j :: 0 <= j < k ==> TensorKey(dst, names[j]) != key
    ensures Get(Before(s, src, dst, names, k), key) == Get(s, key)
  {
    if k > 0 {
      Untouched(s, src, dst, names, k - 1, key);
      CopyOne(s, src, dst, names, k - 1);
    }
  }

  /** What is fetched is what an earlier copy left there, or the original. */
  lemma FetchedIs(s: Store, src: Bytes, dst: Bytes, names: seq<Bytes>, i: nat)
    requires Copyable(s, src, dst, names) && i < |names|
    ensures forall j :: 0 <= j < i && TensorKey(dst, names[j]) == TensorKey(src, names[i]) ==>
              FetchedFor(s, src, dst, names, i) == FetchedFor(s, src, dst, names, j)
    ensures (forall j :: 0 <= j < i ==> TensorKey(dst, names[j]) != TensorKey(src, names[i])) ==>
              FetchedFor(s, src, dst, names, i) == TensorGet(s, TensorKey(src, names[i]))
  {
    var from := TensorKey(src, names[i]);
    if j :| 0 <= j < i && TensorKey(dst, names[j]) == from {
      forall k | 0 <= k < i && TensorKey(dst, names[k]) == from
        ensures FetchedFor(s, src, dst, names, i) == FetchedFor(s, src, dst, names, k)
      {
        WrittenStays(s, src, dst, names, k, i);
      }
    } else {
      Untouched(s, src, dst, names, i, from);
      assert Get(Before(s, src, dst, names, i), from) == Get(s, from);
    }
  }

  // ---------------------------------------------------------------------------------------
  // Which copies are faithful
  // ---------------------------------------------------------------------------------------

  /** No tensor is overwritten by a different one before it is fetched. */
  ghost predicate InTime(src: Bytes, dst: Bytes, names: seq<Bytes>, pack: map<Bytes, Tensor>)
    requires forall t :: t in names ==> t in pack
  {
    forall j, i :: 0 <= j < i < |names| && TensorKey(dst, names[j]) == TensorKey(src, names[i]) ==>
      assert names[j] in names && names[i] in names; pack[names[j]] == pack[names[i]]
  }

  /** The tensors of `pack` are stored under `base`. */
  ghost predicate Originals(s: Store, base: Bytes, names: seq<Bytes>, pack: map<Bytes, Tensor>) {
    forall i :: 0 <= i < |names| ==> names[i] in pack && TensorGet(s, TensorKey(base, names[i])) == Ok(pack[names[i]])
  }

  lemma {:induction false} InTimeFetches(s: Store, src: Bytes, dst: Bytes, names: seq<Bytes>, pack: map<Bytes, Tensor>, i: nat)
    requires Copyable(s, src, dst, names) && Originals(s, src, names, pack) && i < |names|
    requires (forall t :: t in names ==> t in pack) && InTime(src, dst, names, pack)
    ensures FetchedFor(s, src, dst, names, i) == Ok(pack[names[i]])
    decreases i
  {
    FetchedIs(s, src, dst, names, i);
    if j :| 0 <= j < i && TensorKey(dst, names[j]) == TensorKey(src, names[i]) {
      InTimeFetches(s, src, dst, names, pack, j);
    }
  }

  lemma FetchesAllIff(s: Store, src: Bytes, dst: Bytes, names: seq<Bytes>, pack: map<Bytes, Tensor>)
    requires Copyable(s, src, dst, names) && Originals(s, src, names, pack)
    ensures forall t :: t in names ==> t in pack
    ensures (forall i :: 0 <= i < |names| ==> FetchedFor(s, src, dst, names, i) == Ok(pack[names[i]])) <==> InTime(src, dst, names, pack)
  {
    forall t | t in names ensures t in pack {
      var i :| 0 <= i < |names| && names[i] == t;
    }
    if InTime(src, dst, names, pack) {
      forall i | 0 <= i < |names| ensures FetchedFor(s, src, dst, names, i) == Ok(pack[names[i]]) {
        InTimeFetches(s, src, dst, names, pack, i);
      }
    } else {
      var j, i :| 0 <= j < i < |names| && TensorKey(dst, names[j]) == TensorKey(src, names[i]) && pack[names[j]] != pack[names[i]];
      FetchedIs(s, src, dst, names, i);
    }
  }

  /** What a copy of a readable source starts from. */
  lemma SourceOf(s: Store, src: Bytes, dst: Bytes, ds: DataSet)
    requires ReadDataset(s, src, ds.name) == Ok(ds) && AllSettable(s, dst, ds.tensors.Keys)
    ensures TensorNames(ds.fields).Ok? && ValidFields(ds.fields) && META_NAME !in ds.tensors
    ensures forall t :: t in TensorNames(ds.fields).value <==> t in ds.tensors
    ensures Copyable(s, src, dst, TensorNames(ds.fields).value)
    ensures Originals(s, src, TensorNames(ds.fields).value, ds.tensors)
  {
    var names := TensorNames(ds.fields).value;
    ReadIsStored(s, src, ds.name);
    ReadIsWellFormed(s, src, ds.name);
    forall i | 0 <= i < |names|
      ensures names[i] in ds.tensors && Settable(s, TensorKey(dst, names[i]))
      ensures TensorGet(s, TensorKey(src, names[i])) == Ok(ds.tensors[names[i]])
    {
      assert names[i] in ds.tensors.Keys;
    }
  }

  /** The store after the copy: the destination's metadata, and under its tensor keys what was
      fetched. */
  lemma CopiedStore(s: Store, src: Bytes, dst: Bytes, ds: DataSet, dstName: Bytes)
    requires ReadDataset(s, src, ds.name) == Ok(ds) && ds.fields != map[] && dstName != []
    requires AllSettable(s, dst, ds.tensors.Keys)
    ensures TensorNames(ds.fields).Ok? && CopyOutcome(s, src, dst, dstName).result.Ok?
    ensures var names := TensorNames(ds.fields).value;
            CopyOutcome(s, src, dst, dstName).store == Place(Before(s, src, dst, names, |names|), dst, ds.fields)
  {
    var names := TensorNames(ds.fields).value;
    CopySucceedsIff(s, src, dst, ds.name, dstName);
    ReadIsStored(s, src, ds.name);
    CopyOfReadable(s, src, dst, dstName, ds.fields, names);
    assert names[..|names|] == names;
  }

  lemma PlacedTensor(s: Store, dst: Bytes, fields: Fields, t: Bytes)
    requires t != META_NAME
    ensures TensorGet(Place(s, dst, fields), TensorKey(dst, t)) == TensorGet(s, TensorKey(dst, t))
  {
    MetaKeyApart(dst, t);
  }

  /** With a dataset's metadata in place it reads as itself exactly when its tensors are there. */
  lemma ReadsIffTensors(s: Store, base: Bytes, ds: DataSet)
    requires WellFormed(ds) && MetadataAt(s, base, RuntimeError) == Ok(ds.fields)
    ensures ReadDataset(s, base, ds.name) == Ok(ds) <==> Originals(s, base, TensorNames(ds.fields).value, ds.tensors)
  {
    var names := TensorNames(ds.fields).value;
    if ReadDataset(s, base, ds.name) == Ok(ds) {
      ReadIsStored(s, base, ds.name);
    } else if Originals(s, base, names, ds.tensors) {
      forall t | t in ds.tensors ensures Get(s, TensorKey(base, t)) == Some(TensorValue(ds.tensors[t])) {
        var i :| 0 <= i < |names| && names[i] == t;
        assert TensorGet(s, TensorKey(base, names[i])) == Ok(ds.tensors[names[i]]);
      }
      TensorsRead(s, base, ds);
    }
  }

  /** Under the destination's keys stands what was fetched. */
  lemma DestinationTensors(s: Store, src: Bytes, dst: Bytes, ds: DataSet, dstName: Bytes)
    requires ReadDataset(s, src, ds.name) == Ok(ds) && ds.fields != map[] && dstName != []
    requires AllSettable(s, dst, ds.tensors.Keys)
    ensures TensorNames(ds.fields).Ok? && forall t :: t in TensorNames(ds.fields).value ==> t in ds.tensors
    ensures Originals(CopyOutcome(s, src, dst, dstName).store, dst, TensorNames(ds.fields).value, ds.tensors)
            <==> InTime(src, dst, TensorNames(ds.fields).value, ds.tensors)
  {
    var out := CopyOutcome(s, src, dst, dstName).store;
    CopiedStore(s, src, dst, ds, dstName);
    SourceOf(s, src, dst, ds);
    var names := TensorNames(ds.fields).value;
    FetchesAllIff(s, src, dst, names, ds.tensors);
    forall i | 0 <= i < |names|
      ensures names[i] in ds.tensors && TensorGet(out, TensorKey(dst, names[i])) == FetchedFor(s, src, dst, names, i)
    {
      assert names[i] in names;
      WrittenStays(s, src, dst, names, i, |names|);
      PlacedTensor(Before(s, src, dst, names, |names|), dst, ds.fields, names[i]);
    }
  }

  /** Copying a readable source, for any two keys, with nothing but tensors under the
      destination's tensor keys: the call succeeds, and the destination reads as the source under
      its new name exactly when no tensor is overwritten by a different one before it is fetched. It always gets the
      source's field bytes and the acknowledgement, and no other key changes. */
  lemma CopyReadsIff(s: Store, src: Bytes, dst: Bytes, ds: DataSet, dstName: Bytes)
    requires ReadDataset(s, src, ds.name) == Ok(ds) && ds.fields != map[] && dstName != []
    requires AllSettable(s, dst, ds.tensors.Keys)
    ensures CopyOutcome(s, src, dst, dstName).result.Ok?
    ensures TensorNames(ds.fields).Ok? && forall t :: t in TensorNames(ds.fields).value ==> t in ds.tensors
    ensures ReadDataset(CopyOutcome(s, src, dst, dstName).store, dst, dstName) == Ok(ds.(name := dstName))
            <==> InTime(src, dst, TensorNames(ds.fields).value, ds.tensors)
    ensures HashAt(CopyOutcome(s, src, dst, dstName).store, MetaKey(dst)) == HashAt(s, MetaKey(src))[ACK_FIELD := ACK_VALUE]
    ensures forall key :: !Owns(dst, ds, key) ==> Get(CopyOutcome(s, src, dst, dstName).store, key) == Get(s, key)
  {
    CopiedStore(s, src, dst, ds, dstName);
    ReadIsWellFormed(s, src, ds.name);
    DestinationTensors(s, src, dst, ds, dstName);
    PlacedMetadata(Before(s, src, dst, TensorNames(ds.fields).value, |TensorNames(ds.fields).value|), dst, ds.fields, RuntimeError);
    ReadsIffTensors(CopyOutcome(s, src, dst, dstName).store, dst, ds.(name := dstName));
    CopySucceedsIff(s, src, dst, ds.name, dstName);
    CopyAnywhere(s, src, dst, ds.name, dstName);
  }

  // ---------------------------------------------------------------------------------------
  // What becomes of the source
  // ---------------------------------------------------------------------------------------

  /** The copy puts nothing else on a tensor of the source. */
  ghost predicate Spared(src: Bytes, dst: Bytes, pack: map<Bytes, Tensor>) {
    && (forall t :: t in pack ==> TensorKey(src, t) != MetaKey(dst))
    && (forall t, u :: t in pack && u in pack && TensorKey(dst, u) == TensorKey(src, t) ==> pack[u] == pack[t])
  }

  /** A tensor key of the source in the end. */
  lemma SourceTensor(s: Store, src: Bytes, dst: Bytes, names: seq<Bytes>, fields: Fields, i: nat)
    requires Copyable(s, src, dst, names) && i < |names|
    ensures var final := TensorGet(Place(Before(s, src, dst, names, |names|), dst, fields), TensorKey(src, names[i]));
            && (TensorKey(src, names[i]) == MetaKey(dst) ==> final.Err?)
            && (TensorKey(src, names[i]) != MetaKey(dst) ==>
                  (forall j :: 0 <= j < |names| && TensorKey(dst, names[j]) == TensorKey(src, names[i]) ==>
                     final == FetchedFor(s, src, dst, names, j))
                  && ((forall j :: 0 <= j < |names| ==> TensorKey(dst, names[j]) != TensorKey(src, names[i])) ==>
                        final == TensorGet(s, TensorKey(src, names[i]))))
  {
    var from, n := TensorKey(src, names[i]), |names|;
    if j :| 0 <= j < n && TensorKey(dst, names[j]) == from {
      forall k | 0 <= k < n && TensorKey(dst, names[k]) == from
        ensures TensorGet(Before(s, src, dst, names, n), from) == FetchedFor(s, src, dst, names, k)
      {
        WrittenStays(s, src, dst, names, k, n);
      }
    } else {
      Untouched(s, src, dst, names, n, from);
      assert Get(Before(s, src, dst, names, n), from) == Get(s, from);
    }
  }

  lemma SparedKeeps(s: Store, src: Bytes, dst: Bytes, names: seq<Bytes>, pack: map<Bytes, Tensor>, fields: Fields)
    requires Copyable(s, src, dst, names) && Originals(s, src, names, pack) && Spared(src, dst, pack)
    requires forall t :: t in names ==> t in pack
    ensures Originals(Place(Before(s, src, dst, names, |names|), dst, fields), src, names, pack)
  {
    var final := Place(Before(s, src, dst, names, |names|), dst, fields);
    forall i | 0 <= i < |names| ensures names[i] in pack && TensorGet(final, TensorKey(src, names[i])) == Ok(pack[names[i]]) {
      SourceTensor(s, src, dst, names, fields, i);
      if j :| 0 <= j < |names| && TensorKey(dst, names[j]) == TensorKey(src, names[i]) {
        assert pack[names[j]] == pack[names[i]];
        InTimeFetches(s, src, dst, names, pack, j);
      }
    }
  }

  lemma KeptIsSpared(s: Store, src: Bytes, dst: Bytes, names: seq<Bytes>, pack: map<Bytes, Tensor>, fields: Fields, i: nat, j: nat)
    requires Copyable(s, src, dst, names) && Originals(s, src, names, pack)
    requires Originals(Place(Before(s, src, dst, names, |names|), dst, fields), src, names, pack)
    requires i < |names| && j < |names| && TensorKey(dst, names[j]) == TensorKey(src, names[i])
    ensures pack[names[j]] == pack[names[i]]
  {
    SourceTensor(s, src, dst, names, fields, i);
    FetchedIs(s, src, dst, names, j);
    if k :| 0 <= k < j && TensorKey(dst, names[k]) == TensorKey(src, names[j]) {
      SourceTensor(s, src, dst, names, fields, j);
    }
  }

  lemma SourceTensors(s: Store, src: Bytes, dst: Bytes, names: seq<Bytes>, pack: map<Bytes, Tensor>, fields: Fields)
    requires Copyable(s, src, dst, names) && Originals(s, src, names, pack)
    requires forall t :: t in names <==> t in pack
    ensures Originals(Place(Before(s, src, dst, names, |names|), dst, fields), src, names, pack) <==> Spared(src, dst, pack)
  {
    var final := Place(Before(s, src, dst, names, |names|), dst, fields);
    if Spared(src, dst, pack) {
      SparedKeeps(s, src, dst, names, pack, fields);
    } else if Originals(final, src, names, pack) {
      forall t | t in pack ensures TensorKey(src, t) != MetaKey(dst) {
        var i :| 0 <= i < |names| && names[i] == t;
        SourceTensor(s, src, dst, names, fields, i);
      }
      forall t, u | t in pack && u in pack && TensorKey(dst, u) == TensorKey(src, t) ensures pack[u] == pack[t] {
        var i :| 0 <= i < |names| && names[i] == t;
        var j :| 0 <= j < |names| && names[j] == u;
        KeptIsSpared(s, src, dst, names, pack, fields, i, j);
      }
    }
  }

  /** The source still reads as before exactly when none of its tensor keys becomes the
      destination's metadata key or gets a different tensor. */
  lemma SourceReadsIff(s: Store, src: Bytes, dst: Bytes, ds: DataSet, dstName: Bytes)
    requires ReadDataset(s, src, ds.name) == Ok(ds) && ds.fields != map[] && dstName != []
    requires AllSettable(s, dst, ds.tensors.Keys)
    ensures ReadDataset(CopyOutcome(s, src, dst, dstName).store, src, ds.name) == Ok(ds) <==> Spared(src, dst, ds.tensors)
  {
    CopiedStore(s, src, dst, ds, dstName);
    SourceOf(s, src, dst, ds);
    ReadIsWellFormed(s, src, ds.name);
    CopySucceedsIff(s, src, dst, ds.name, dstName);
    CopyAnywhere(s, src, dst, ds.name, dstName);
    SourceTensors(s, src, dst, TensorNames(ds.fields).value, ds.tensors, ds.fields);
    ReadsIffTensors(CopyOutcome(s, src, dst, dstName).store, src, ds);
  }

  // ---------------------------------------------------------------------------------------
  // Two cases
  // ---------------------------------------------------------------------------------------

  /** A copy onto the dataset's own key leaves it readable as it was. */
  lemma CopyToSelf(s: Store, base: Bytes, ds: DataSet, dstName: Bytes)
    requires ReadDataset(s, base, ds.name) == Ok(ds) && ds.fields != map[] && dstName != []
    ensures CopyOutcome(s, base, base, dstName).result.Ok?
    ensures ReadDataset(CopyOutcome(s, base, base, dstName).store, base, ds.name) == Ok(ds)
    ensures ReadDataset(CopyOutcome(s, base, base, dstName).store, base, dstName) == Ok(ds.(name := dstName))
  {
    ReadIsStored(s, base, ds.name);
    ReadIsWellFormed(s, base, ds.name);
    forall t | t in ds.tensors.Keys ensures Settable(s, TensorKey(base, t)) {
      assert Get(s, TensorKey(base, t)) == Some(TensorValue(ds.tensors[t]));
    }
    CopySucceedsIff(s, base, base, ds.name, dstName);
    forall t, u | TensorKey(base, t) == TensorKey(base, u) ensures t == u {
      TensorKeyInjective(base, t, u);
    }
    forall t | t in ds.tensors ensures TensorKey(base, t) != MetaKey(base) {
      MetaKeyApart(base, t);
    }
    CopyReadsIff(s, base, base, ds, dstName);
    SourceReadsIff(s, base, base, ds, dstName);
  }

  /** Two tensors under names such that copying `n` to the longer `m` puts the first on the key
      of the second. */
  function TwoTensors(n: Bytes, t: Bytes, v: Tensor, u: Bytes, w: Tensor): DataSet {
    DataSet(n, map[TENSOR_NAMES := StringField([t, u])], map[t := v, u := w])
  }

  function Stored(base: Bytes, ds: DataSet, t: Bytes, v: Tensor, u: Bytes, w: Tensor): Store {
    map[TensorKey(base, t) := TensorValue(v), TensorKey(base, u) := TensorValue(w),
        MetaKey(base) := HashValue(SerializeFields(ds.fields)[ACK_FIELD := ACK_VALUE])]
  }

  lemma TwoTensorsWellFormed(n: Bytes, t: Bytes, v: Tensor, u: Bytes, w: Tensor)
    requires t != u && t != META_NAME && u != META_NAME && |t| < SIZE_LIMIT && |u| < SIZE_LIMIT
    requires Constructible(t, v) && Constructible(u, w)
    ensures WellFormed(TwoTensors(n, t, v, u, w))
  {
    var ds := TwoTensors(n, t, v, u, w);
    assert |TENSOR_NAMES| != |ACK_FIELD|;
    assert TENSOR_NAMES in ds.fields;
  }

  lemma TwoTensorsStored(base: Bytes, ds: DataSet, t: Bytes, v: Tensor, u: Bytes, w: Tensor)
    requires t != u && t != META_NAME && u != META_NAME && ds.tensors == map[t := v, u := w]
    ensures WhollyStored(Stored(base, ds, t, v, u, w), base, ds)
  {
    MetaKeyApart(base, t);
    MetaKeyApart(base, u);
    if TensorKey(base, t) == TensorKey(base, u) { TensorKeyInjective(base, t, u); }
  }

  lemma TwoTensorsRead(base: Bytes, n: Bytes, t: Bytes, v: Tensor, u: Bytes, w: Tensor)
    requires t != u && t != META_NAME && u != META_NAME && |t| < SIZE_LIMIT && |u| < SIZE_LIMIT
    requires Constructible(t, v) && Constructible(u, w)
    ensures ReadDataset(Stored(base, TwoTensors(n, t, v, u, w), t, v, u, w), base, n) == Ok(TwoTensors(n, t, v, u, w))
  {
    var ds := TwoTensors(n, t, v, u, w);
    TwoTensorsWellFormed(n, t, v, u, w);
    TwoTensorsStored(base, ds, t, v, u, w);
    StoredReads(Stored(base, ds, t, v, u, w), base, ds);
  }

  lemma TwoTensorsCopyable(p: Bytes, n: Bytes, m: Bytes, t: Bytes, v: Tensor, u: Bytes, w: Tensor)
    requires Extends(m, n)
    ensures AllSettable(Stored(DatasetKey(p, n), TwoTensors(n, t, v, u, w), t, v, u, w), DatasetKey(p, m), {t, u})
  {
    var src, dst := DatasetKey(p, n), DatasetKey(p, m);
    forall x ensures TensorKey(dst, x) != MetaKey(src) {
      ContinuedKey(p, n, m, x);
      MetaKeyApart(src, Continuation(n, m, x));
      assert CLOSE in Continuation(n, m, x) && CLOSE !in META_NAME;
    }
  }

  /** Copying `n` to a name `m` that continues it, for every two different tensors: the first goes
      to the key of the second, which is then copied from there. The call reports success and the
      destination does not read as the source. */
  lemma ContinuedCopyLoses(p: Bytes, n: Bytes, m: Bytes, t: Bytes, v: Tensor, w: Tensor) returns (s: Store, ds: DataSet)
    requires Extends(m, n) && v != w && t != META_NAME
    requires Constructible(t, v) && Constructible(Continuation(n, m, t), w) && |Continuation(n, m, t)| < SIZE_LIMIT
    ensures ds.name == n && ReadDataset(s, DatasetKey(p, n), n) == Ok(ds)
    ensures CopyOutcome(s, DatasetKey(p, n), DatasetKey(p, m), m).result.Ok?
    ensures ReadDataset(CopyOutcome(s, DatasetKey(p, n), DatasetKey(p, m), m).store, DatasetKey(p, m), m) != Ok(ds.(name := m))
  {
    var src, dst, u := DatasetKey(p, n), DatasetKey(p, m), Continuation(n, m, t);
    assert CLOSE in u && CLOSE !in META_NAME;
    assert |u| > |t|;
    ds := TwoTensors(n, t, v, u, w);
    s := Stored(src, ds, t, v, u, w);
    TwoTensorsRead(src, n, t, v, u, w);
    TwoTensorsCopyable(p, n, m, t, v, u, w);
    assert TENSOR_NAMES in ds.fields && ds.tensors.Keys == {t, u};
    CopySucceedsIff(s, src, dst, n, m);
    CopyReadsIff(s, src, dst, ds, m);
    ContinuedKey(p, n, m, t);
    var names := TensorNames(ds.fields).value;
    assert names[0] == t && names[1] == u;
  }
}
