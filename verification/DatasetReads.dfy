/** What reading a dataset returns, as a function of the store. */
module DatasetReads {
  import opened Basics
  import opened Metadata
  import opened Keys
  import opened Store
  import opened DatasetCommands

  /** `TensorPack::add_tensor` for one tensor after the other: a name that is already there
      throws, and so does a tensor that cannot be constructed. */
  function AddTensors(names: seq<Bytes>, got: seq<Tensor>): Result<map<Bytes, Tensor>>
    requires |names| == |got|
  {
    if names == [] then Ok(map[])
    else
      var n := |names| - 1;
      var pack :- AddTensors(names[..n], got[..n]);
      if names[n] in pack || !Constructible(names[n], got[n]) then Err(RuntimeError)
      else Ok(pack[names[n] := got[n]])
  }

  lemma AddNext(names: seq<Bytes>, got: seq<Tensor>, i: nat)
    requires |names| == |got| && i < |names|
    ensures AddTensors(names[..i + 1], got[..i + 1]) ==
            match AddTensors(names[..i], got[..i])
            case Err(e) => Err(e)
            case Ok(pack) =>
              if names[i] in pack || !Constructible(names[i], got[i]) then Err(RuntimeError)
              else Ok(pack[names[i] := got[i]])
  {
    assert names[..i + 1][..i] == names[..i] && got[..i + 1][..i] == got[..i];
  }

  /** Every tensor can be constructed under its name. */
  ghost predicate AllConstructible(names: seq<Bytes>, got: seq<Tensor>)
    requires |names| == |got|
  {
    forall i :: 0 <= i < |names| ==> Constructible(names[i], got[i])
  }

  lemma DistinctNext(names: seq<Bytes>)
    requires names != []
    ensures Distinct(names) <==> Distinct(names[..|names| - 1]) && names[|names| - 1] !in names[..|names| - 1]
  {
    var n := |names| - 1;
    var init := names[..n];
    if Distinct(names) {
      forall i, j | 0 <= i < j < n ensures init[i] != init[j] {
        assert names[i] != names[j];
      }
    }
    if Distinct(init) && names[n] !in init {
      forall i, j | 0 <= i < j < |names| ensures names[i] != names[j] {
        assert names[i] == init[i];
        if j < n { assert names[j] == init[j]; }
      }
    }
  }

  lemma AllConstructibleNext(names: seq<Bytes>, got: seq<Tensor>)
    requires |names| == |got| && names != []
    ensures AllConstructible(names, got) <==>
            AllConstructible(names[..|names| - 1], got[..|names| - 1]) && Constructible(names[|names| - 1], got[|names| - 1])
  {
    var n := |names| - 1;
    if AllConstructible(names[..n], got[..n]) && Constructible(names[n], got[n]) {
      forall i | 0 <= i < |names| ensures Constructible(names[i], got[i]) {
        if i < n { assert Constructible(names[..n][i], got[..n][i]); }
      }
    }
  }

  /** The pack maps each name to the tensor fetched for it. */
  ghost predicate PackOf(pack: map<Bytes, Tensor>, names: seq<Bytes>, got: seq<Tensor>)
    requires |names| == |got|
  {
    && (forall t :: t in pack ==> t in names)
    && (forall i :: 0 <= i < |names| ==> names[i] in pack && pack[names[i]] == got[i])
  }

  lemma PackNext(pack: map<Bytes, Tensor>, names: seq<Bytes>, got: seq<Tensor>)
    requires |names| == |got| && names != []
    requires PackOf(pack, names[..|names| - 1], got[..|names| - 1]) && names[|names| - 1] !in pack
    ensures PackOf(pack[names[|names| - 1] := got[|names| - 1]], names, got)
  {
    var n := |names| - 1;
    var more := pack[names[n] := got[n]];
    forall t | t in more ensures t in names {
      if t != names[n] {
        assert t in names[..n];
      }
    }
    forall i | 0 <= i < |names| ensures names[i] in more && more[names[i]] == got[i] {
      if i < n {
        assert names[..n][i] == names[i] && got[..n][i] == got[i];
      }
    }
  }

  lemma {:induction false} AddTensorsMeaning(names: seq<Bytes>, got: seq<Tensor>)
    requires |names| == |got| && AddTensors(names, got).Ok?
    ensures PackOf(AddTensors(names, got).value, names, got)
    decreases |names|
  {
    if names != [] {
      var n := |names| - 1;
      AddTensorsMeaning(names[..n], got[..n]);
      PackNext(AddTensors(names[..n], got[..n]).value, names, got);
    }
  }

  /** The pack is built exactly when the names are distinct and every tensor can be constructed
      under its name. */
  lemma {:induction false} AddTensorsIff(names: seq<Bytes>, got: seq<Tensor>)
    requires |names| == |got|
    ensures AddTensors(names, got).Ok? <==> Distinct(names) && AllConstructible(names, got)
    ensures AddTensors(names, got).Err? ==> AddTensors(names, got).error == RuntimeError
    decreases |names|
  {
    if names != [] {
      var n := |names| - 1;
      AddTensorsIff(names[..n], got[..n]);
      DistinctNext(names);
      AllConstructibleNext(names, got);
      if AddTensors(names[..n], got[..n]).Ok? {
        AddTensorsMeaning(names[..n], got[..n]);
        var pack := AddTensors(names[..n], got[..n]).value;
        assert names[n] in pack <==> names[n] in names[..n];
      }
    }
  }

  /** A dataset's own tensors, fetched in the order of its name list, make its pack again. */
  lemma AddOwnTensors(names: seq<Bytes>, got: seq<Tensor>, pack: map<Bytes, Tensor>)
    requires |names| == |got| && Distinct(names) && forall t :: t in names <==> t in pack
    requires forall t :: t in pack ==> Constructible(t, pack[t])
    requires forall i :: 0 <= i < |names| ==> names[i] in pack && got[i] == pack[names[i]]
    ensures AddTensors(names, got) == Ok(pack)
  {
    AddTensorsIff(names, got);
    AddTensorsMeaning(names, got);
    var r := AddTensors(names, got).value;
    forall t | t in pack ensures t in r && r[t] == pack[t] {
      var i :| 0 <= i < |names| && names[i] == t;
    }
    assert r == pack;
  }

  /** One TENSORGET per name, in a pipeline that throws if any reply is an error. */
  function FetchTensors(s: Store, base: Bytes, names: seq<Bytes>): Result<seq<Tensor>> {
    if forall i :: 0 <= i < |names| ==> TensorGet(s, TensorKey(base, names[i])).Ok? then
      Ok(seq(|names|, i requires 0 <= i < |names| && TensorGet(s, TensorKey(base, names[i])).Ok? =>
                        TensorGet(s, TensorKey(base, names[i])).value))
    else Err(RuntimeError)
  }

  /** The tensors a set of fields names, added to a dataset with those fields. */
  function ReadTensors(s: Store, base: Bytes, name: Bytes, fields: Fields): Result<DataSet> {
    var names :- TensorNames(fields);
    var got :- FetchTensors(s, base, names);
    var pack :- AddTensors(names, got);
    Ok(DataSet(name, fields, pack))
  }

  /** `get_dataset` on a dataset key. */
  function ReadDataset(s: Store, base: Bytes, name: Bytes): Result<DataSet> {
    var h :- HGetAll(s, MetaKey(base));
    if h == map[] then Err(KeyError)
    else
      var fields :- DecodeHash(h);
      ReadTensors(s, base, name, fields)
  }

  /** Which datasets read, acknowledged or not: there is metadata that decodes, its list is one of
      distinct names, and every listed tensor is there and can be constructed. A missing dataset
      has an error of its own. */
  lemma ReadSucceedsIff(s: Store, base: Bytes, name: Bytes)
    ensures ReadDataset(s, base, name).Ok? <==>
            && MetaKey(base) in s && s[MetaKey(base)].HashValue? && s[MetaKey(base)].hash != map[]
            && DecodeHash(s[MetaKey(base)].hash).Ok?
            && var fields := DecodeHash(s[MetaKey(base)].hash).value;
               TensorNames(fields).Ok? && Distinct(TensorNames(fields).value)
               && forall t :: t in TensorNames(fields).value ==>
                    TensorGet(s, TensorKey(base, t)).Ok? && Constructible(t, TensorGet(s, TensorKey(base, t)).value)
    ensures ReadDataset(s, base, name).Err? ==>
              ReadDataset(s, base, name).error == if HGetAll(s, MetaKey(base)) == Ok(map[]) then KeyError else RuntimeError
  {
    var key := MetaKey(base);
    if key in s && s[key].HashValue? && DecodeHash(s[key].hash).Ok? && TensorNames(DecodeHash(s[key].hash).value).Ok? {
      ListedTensorsIff(s, base, TensorNames(DecodeHash(s[key].hash).value).value);
    }
  }

  lemma ListedTensorsIff(s: Store, base: Bytes, names: seq<Bytes>)
    ensures FetchTensors(s, base, names).Err? ==> FetchTensors(s, base, names).error == RuntimeError
    ensures FetchTensors(s, base, names).Ok? ==> |FetchTensors(s, base, names).value| == |names|
    ensures FetchTensors(s, base, names).Ok? && AddTensors(names, FetchTensors(s, base, names).value).Err? ==>
              AddTensors(names, FetchTensors(s, base, names).value).error == RuntimeError
    ensures FetchTensors(s, base, names).Ok? && AddTensors(names, FetchTensors(s, base, names).value).Ok? <==>
            Distinct(names) && forall t :: t in names ==>
              TensorGet(s, TensorKey(base, t)).Ok? && Constructible(t, TensorGet(s, TensorKey(base, t)).value)
  {
    if FetchTensors(s, base, names).Ok? {
      var got := FetchTensors(s, base, names).value;
      AddTensorsIff(names, got);
      if AllConstructible(names, got) {
        forall t | t in names
          ensures TensorGet(s, TensorKey(base, t)).Ok? && Constructible(t, TensorGet(s, TensorKey(base, t)).value)
        {
          var i :| 0 <= i < |names| && names[i] == t;
          assert Constructible(names[i], got[i]);
        }
      }
    } else {
      var i :| 0 <= i < |names| && TensorGet(s, TensorKey(base, names[i])).Err?;
      assert names[i] in names;
    }
  }

  /** A wholly stored dataset reads back as itself. */
  lemma StoredReads(s: Store, base: Bytes, ds: DataSet)
    requires WhollyStored(s, base, ds) && WellFormed(ds)
    ensures ReadDataset(s, base, ds.name) == Ok(ds)
  {
    HashRoundTrip(ds.fields);
    var h := SerializeFields(ds.fields)[ACK_FIELD := ACK_VALUE];
    assert ACK_FIELD in h;
    var names := TensorNames(ds.fields).value;
    TensorsRead(s, base, ds);
  }

  lemma TensorsRead(s: Store, base: Bytes, ds: DataSet)
    requires WellFormed(ds)
    requires forall t :: t in ds.tensors ==> Get(s, TensorKey(base, t)) == Some(TensorValue(ds.tensors[t]))
    ensures ReadTensors(s, base, ds.name, ds.fields) == Ok(ds)
  {
    var names := TensorNames(ds.fields).value;
    forall i | 0 <= i < |names|
      ensures TensorGet(s, TensorKey(base, names[i])) == Ok(ds.tensors[names[i]])
    {
      assert names[i] in ds.tensors;
    }
    var got := FetchTensors(s, base, names).value;
    AddOwnTensors(names, got, ds.tensors);
  }

  /** Everything that was read is in the store. */
  lemma ReadIsStored(s: Store, base: Bytes, name: Bytes)
    requires ReadDataset(s, base, name).Ok?
    ensures var ds := ReadDataset(s, base, name).value;
            && ds.name == name
            && Get(s, MetaKey(base)) == Some(HashValue(HashAt(s, MetaKey(base))))
            && DecodeHash(HashAt(s, MetaKey(base))) == Ok(ds.fields)
            && TensorNames(ds.fields).Ok? && Distinct(TensorNames(ds.fields).value)
            && (forall t :: t in TensorNames(ds.fields).value <==> t in ds.tensors)
            && (forall t :: t in ds.tensors ==> Constructible(t, ds.tensors[t]))
            && (forall t :: t in ds.tensors ==> Get(s, TensorKey(base, t)) == Some(TensorValue(ds.tensors[t])))
  {
    var ds := ReadDataset(s, base, name).value;
    var names := TensorNames(ds.fields).value;
    var got := FetchTensors(s, base, names).value;
    AddTensorsIff(names, got);
    AddTensorsMeaning(names, got);
    forall t | t in ds.tensors
      ensures Constructible(t, ds.tensors[t]) && Get(s, TensorKey(base, t)) == Some(TensorValue(ds.tensors[t]))
    {
      var i :| 0 <= i < |names| && names[i] == t;
      assert Constructible(names[i], got[i]);
      assert TensorGet(s, TensorKey(base, names[i])) == Ok(got[i]);
    }
  }

  /** Reading depends on the key space of the dataset only. */
  lemma ReadDependsOnSpace(s: Store, t: Store, base: Bytes, name: Bytes)
    requires forall key :: InSpace(key, base) ==> Get(s, key) == Get(t, key)
    ensures ReadDataset(s, base, name) == ReadDataset(t, base, name)
  {
    MetaKeyInSpace(base);
    assert Get(s, MetaKey(base)) == Get(t, MetaKey(base));
    assert HGetAll(s, MetaKey(base)) == HGetAll(t, MetaKey(base));
    forall names: seq<Bytes> ensures FetchTensors(s, base, names) == FetchTensors(t, base, names) {
      forall i | 0 <= i < |names| ensures TensorGet(s, TensorKey(base, names[i])) == TensorGet(t, TensorKey(base, names[i])) {
        TensorKeyInSpace(base, names[i]);
        assert Get(s, TensorKey(base, names[i])) == Get(t, TensorKey(base, names[i]));
      }
      if FetchTensors(s, base, names).Ok? {
        assert FetchTensors(s, base, names).value == FetchTensors(t, base, names).value;
      }
    }
  }

  /** Put, then get, through the codec: the same fields and tensors come back, for every order
      of sending and of listing, and no other key has changed. */
  lemma PutThenGet(s: Store, base: Bytes, ds: DataSet, pairs: Pairs, tensors: NamedTensors, reply: Pairs)
    requires WellFormed(ds) && Orders(ds, pairs, tensors)
    requires AllSettable(s, base, ds.tensors.Keys)
    requires IsListing(reply, HashAt(Run(s, PutCommands(base, pairs, tensors)), MetaKey(base)))
    ensures !SomeFails(s, PutCommands(base, pairs, tensors))
    ensures ReadDataset(Run(s, PutCommands(base, pairs, tensors)), base, ds.name) == Ok(ds)
    ensures UnpackReply(Flat(reply)) == Ok(ds.fields)
    ensures ACK_FIELD in HashAt(Run(s, PutCommands(base, pairs, tensors)), MetaKey(base)) && ACK_FIELD !in ds.fields
  {
    var st := Run(s, PutCommands(base, pairs, tensors));
    PutStores(s, base, ds, pairs, tensors);
    PutFailsIff(s, base, ds, pairs, tensors);
    StoredReads(st, base, ds);
    UnpackListing(reply, HashAt(st, MetaKey(base)));
    HashRoundTrip(ds.fields);
  }
}
