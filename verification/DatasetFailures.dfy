/** When copying, renaming and deleting fail, for every store and any two keys, and what they
    leave behind then. */
module DatasetFailures {
  import opened Basics
  import opened Metadata
  import opened Keys
  import opened Store
  import opened DatasetCommands
  import opened DatasetReads
  import opened DatasetOperations

  // ---------------------------------------------------------------------------------------
  // Reading the metadata
  // ---------------------------------------------------------------------------------------

  /** There is metadata under the key, with these fields and this list of tensors. */
  ghost predicate Described(s: Store, base: Bytes, fields: Fields, names: seq<Bytes>) {
    && MetaKey(base) in s && s[MetaKey(base)].HashValue? && s[MetaKey(base)].hash != map[]
    && DecodeHash(s[MetaKey(base)].hash) == Ok(fields)
    && TensorNames(fields) == Ok(names)
  }

  lemma DescribedMetadata(s: Store, base: Bytes, fields: Fields, names: seq<Bytes>, missing: Error)
    ensures Described(s, base, fields, names) <==> MetadataAt(s, base, missing) == Ok(fields) && TensorNames(fields) == Ok(names)
  {
  }

  /** Without such metadata nothing is sent: no key changes, and a missing dataset has its own
      error. */
  lemma UndescribedCopy(s: Store, src: Bytes, dst: Bytes, dstName: Bytes)
    requires forall fields, names :: !Described(s, src, fields, names)
    ensures CopyOutcome(s, src, dst, dstName) ==
            Outcome(Err(if HGetAll(s, MetaKey(src)) == Ok(map[]) then KeyError else RuntimeError), s)
  {
    NamesError(s, src, KeyError);
  }

  lemma NamesError(s: Store, base: Bytes, missing: Error)
    requires forall fields, names :: !Described(s, base, fields, names)
    ensures MetadataAt(s, base, missing).Ok? ==> TensorNames(MetadataAt(s, base, missing).value) == Err(RuntimeError)
    ensures MetadataAt(s, base, missing).Err? ==>
              MetadataAt(s, base, missing).error == if HGetAll(s, MetaKey(base)) == Ok(map[]) then missing else RuntimeError
  {
    if MetadataAt(s, base, missing).Ok? {
      var fields := MetadataAt(s, base, missing).value;
      if TensorNames(fields).Ok? {
        assert Described(s, base, fields, TensorNames(fields).value);
      }
    }
  }

  // ---------------------------------------------------------------------------------------
  // Copying
  // ---------------------------------------------------------------------------------------

  /** Whatever becomes of a copy, a changed key is one of the destination's tensor keys and holds
      a tensor. */
  ghost predicate OnlyTensors(s: Store, t: Store, dst: Bytes, names: seq<Bytes>) {
    forall key :: Get(t, key) != Get(s, key) ==>
      key in t && t[key].TensorValue? && Settable(s, key) && exists i :: 0 <= i < |names| && key == TensorKey(dst, names[i])
  }

  lemma {:induction false} CopyTensorsOnly(s: Store, src: Bytes, dst: Bytes, names: seq<Bytes>)
    ensures OnlyTensors(s, CopyTensors(s, src, dst, names).store, dst, names)
    decreases |names|
  {
    if names != [] {
      var n := |names| - 1;
      var before, after := CopyTensors(s, src, dst, names[..n]).store, CopyTensors(s, src, dst, names).store;
      CopyTensorsOnly(s, src, dst, names[..n]);
      forall key | Get(after, key) != Get(s, key)
        ensures key in after && after[key].TensorValue? && Settable(s, key)
        ensures exists i :: 0 <= i < |names| && key == TensorKey(dst, names[i])
      {
        if Get(before, key) != Get(s, key) {
          var i :| 0 <= i < n && key == TensorKey(dst, names[..n][i]);
          assert key == TensorKey(dst, names[i]);
        } else {
          assert key == TensorKey(dst, names[n]);
        }
      }
    }
  }

  /** A described copy: it succeeds exactly when every listed tensor can be fetched and stored in
      turn, the destination has a name and there is a field; and a failure sends no metadata. */
  lemma DescribedCopy(s: Store, src: Bytes, dst: Bytes, dstName: Bytes, fields: Fields, names: seq<Bytes>)
    requires Described(s, src, fields, names)
    ensures var out := CopyOutcome(s, src, dst, dstName);
            && (out.result.Ok? <==> InTurn(s, src, dst, names) && dstName != [] && fields != map[])
            && (out.result.Err? ==>
                  OnlyTensors(s, out.store, dst, names)
                  && out.result.error == if InTurn(s, src, dst, names) && dstName == [] then ParameterError else RuntimeError)
  {
    DescribedMetadata(s, src, fields, names, KeyError);
    CopyTensorsIff(s, src, dst, names);
    CopyTensorsOnly(s, src, dst, names);
    CopyOfReadable(s, src, dst, dstName, fields, names);
  }

  /** For every source: a copy succeeds exactly when the metadata is there and decodes, its list
      is one of strings, every listed tensor can be fetched and stored in turn, the destination
      has a name and there is a field. */
  lemma CopySucceedsForAnyIff(s: Store, src: Bytes, dst: Bytes, dstName: Bytes)
    ensures CopyOutcome(s, src, dst, dstName).result.Ok? <==>
            exists fields, names :: Described(s, src, fields, names) && InTurn(s, src, dst, names) && dstName != [] && fields != map[]
  {
    if fields, names :| Described(s, src, fields, names) {
      DescribedCopy(s, src, dst, dstName, fields, names);
    } else {
      UndescribedCopy(s, src, dst, dstName);
    }
  }

  /** A failed copy removes no key and changes none but free tensor keys of the destination; in
      particular it brings no acknowledgement. */
  lemma FailedCopy(s: Store, src: Bytes, dst: Bytes, dstName: Bytes)
    requires CopyOutcome(s, src, dst, dstName).result.Err?
    ensures var t := CopyOutcome(s, src, dst, dstName).store;
            && (forall key :: key in s ==> key in t)
            && (forall key :: (forall name :: key != TensorKey(dst, name)) || !Settable(s, key) ==> Get(t, key) == Get(s, key))
            && (forall base :: Acked(t, base) ==> Acked(s, base))
  {
    var t := CopyOutcome(s, src, dst, dstName).store;
    if fields, names :| Described(s, src, fields, names) {
      DescribedCopy(s, src, dst, dstName, fields, names);
      forall key | Get(t, key) != Get(s, key) ensures key in t && t[key].TensorValue? {}
    } else {
      UndescribedCopy(s, src, dst, dstName);
    }
    forall base | Acked(t, base) ensures Acked(s, base) {
      assert Get(t, MetaKey(base)) == Get(s, MetaKey(base));
    }
  }

  /** A listed tensor that is missing, and that the copy itself does not put there, makes the copy
      fail. */
  lemma MissingTensorFails(s: Store, src: Bytes, dst: Bytes, dstName: Bytes, fields: Fields, names: seq<Bytes>, i: nat)
    requires Described(s, src, fields, names) && i < |names|
    requires TensorGet(s, TensorKey(src, names[i])).Err?
    requires forall j :: 0 <= j < i ==> TensorKey(dst, names[j]) != TensorKey(src, names[i])
    ensures CopyOutcome(s, src, dst, dstName).result.Err?
    ensures Acked(CopyOutcome(s, src, dst, dstName).store, dst) ==> Acked(s, dst)
  {
    DescribedCopy(s, src, dst, dstName, fields, names);
    assert !Available(s, src, dst, names, i);
    FailedCopy(s, src, dst, dstName);
  }

  /** A copy stops at the first tensor that cannot be copied: what was copied before it is there,
      and no other key has changed. */
  lemma CopyStopsAt(s: Store, src: Bytes, dst: Bytes, dstName: Bytes, fields: Fields, names: seq<Bytes>, k: nat)
    requires Described(s, src, fields, names) && k < |names| && InTurn(s, src, dst, names[..k])
    requires !(Available(s, src, dst, names, k) && Settable(s, TensorKey(dst, names[k])))
    ensures var out := CopyOutcome(s, src, dst, dstName);
            && out.result == Err(RuntimeError)
            && (forall j :: 0 <= j < k ==> TensorGet(out.store, TensorKey(dst, names[j])).Ok?)
            && (forall key :: (forall j :: 0 <= j < k ==> key != TensorKey(dst, names[j])) ==> Get(out.store, key) == Get(s, key))
  {
    DescribedMetadata(s, src, fields, names, KeyError);
    StopsAt(s, src, dst, names, k);
    var st := CopyTensors(s, src, dst, names).store;
    forall j | 0 <= j < k ensures TensorGet(st, TensorKey(dst, names[j])).Ok? {
      assert TensorKey(dst, names[j]) == TensorKey(dst, names[..k][j]);
    }
    forall key | forall j :: 0 <= j < k ==> key != TensorKey(dst, names[j]) ensures Get(st, key) == Get(s, key) {
      assert forall j :: 0 <= j < k ==> names[..k][j] == names[j];
    }
  }

  lemma StopsAt(s: Store, src: Bytes, dst: Bytes, names: seq<Bytes>, k: nat)
    requires k < |names| && InTurn(s, src, dst, names[..k])
    requires !(Available(s, src, dst, names, k) && Settable(s, TensorKey(dst, names[k])))
    ensures CopyTensors(s, src, dst, names).result == Err(RuntimeError)
    ensures TensorsOverwritten(s, CopyTensors(s, src, dst, names).store, dst, names[..k])
  {
    CopyTensorsIff(s, src, dst, names[..k]);
    CopyNext(s, src, dst, names, k);
    CopyTensorsIff(s, src, dst, names[..k + 1]);
    AvailableInPrefix(s, src, dst, names, k + 1, k);
    assert names[..k + 1][k] == names[k];
    CopyErrorStays(s, src, dst, names, k + 1);
  }

  // ---------------------------------------------------------------------------------------
  // Deleting
  // ---------------------------------------------------------------------------------------

  /** A deletion succeeds exactly for described datasets; otherwise nothing changes. */
  lemma DeleteSucceedsIff(s: Store, base: Bytes)
    ensures DeleteOutcome(s, base).result.Ok? <==> exists fields, names :: Described(s, base, fields, names)
    ensures DeleteOutcome(s, base).result.Err? ==> DeleteOutcome(s, base) == Outcome(Err(RuntimeError), s)
  {
    if fields, names :| Described(s, base, fields, names) {
      DescribedMetadata(s, base, fields, names, RuntimeError);
      DeleteCorrect(s, base, fields, names);
    } else {
      NamesError(s, base, RuntimeError);
    }
  }

  // ---------------------------------------------------------------------------------------
  // Renaming
  // ---------------------------------------------------------------------------------------

  /** After a successful copy the source is still described as before. */
  lemma SourceStaysDescribed(s: Store, src: Bytes, dst: Bytes, dstName: Bytes, fields: Fields, names: seq<Bytes>)
    requires Described(s, src, fields, names) && CopyOutcome(s, src, dst, dstName).result.Ok?
    ensures Described(CopyOutcome(s, src, dst, dstName).store, src, fields, names)
  {
    var out := CopyOutcome(s, src, dst, dstName).store;
    DescribedMetadata(s, src, fields, names, KeyError);
    CopyOfReadable(s, src, dst, dstName, fields, names);
    CopyTensorsOnly(s, src, dst, names);
    HashCanonical(HashAt(s, MetaKey(src)));
    var copied := CopyTensors(s, src, dst, names).store;
    assert Get(copied, MetaKey(src)) == Get(s, MetaKey(src));
    if MetaKey(src) == MetaKey(dst) {
      PlacedMetadata(copied, src, fields, KeyError);
      DescribedMetadata(out, src, fields, names, KeyError);
    } else {
      assert Get(out, MetaKey(src)) == Get(s, MetaKey(src));
    }
  }

  /** For every source and any two keys: a renaming succeeds exactly when its copy would, and when
      it fails it has deleted nothing and changed no key but free tensor keys of the destination. */
  lemma RenameSucceedsForAnyIff(s: Store, src: Bytes, dst: Bytes, newName: Bytes)
    ensures RenameOutcome(s, src, dst, newName).result.Ok? <==>
            exists fields, names :: Described(s, src, fields, names) && InTurn(s, src, dst, names) && newName != [] && fields != map[]
    ensures RenameOutcome(s, src, dst, newName).result.Err? ==>
              var t := RenameOutcome(s, src, dst, newName).store;
              && (forall key :: key in s ==> key in t)
              && (forall key :: (forall name :: key != TensorKey(dst, name)) || !Settable(s, key) ==> Get(t, key) == Get(s, key))
  {
    CopySucceedsForAnyIff(s, src, dst, newName);
    if CopyOutcome(s, src, dst, newName).result.Ok? {
      var fields, names :| Described(s, src, fields, names) && InTurn(s, src, dst, names) && newName != [] && fields != map[];
      SourceStaysDescribed(s, src, dst, newName, fields, names);
      DeleteSucceedsIff(CopyOutcome(s, src, dst, newName).store, src);
    } else {
      FailedCopy(s, src, dst, newName);
    }
  }

  /** For a readable source: a renaming to no name, of a dataset without fields, or onto a tensor
      key that something else holds, ends with an error. Every key outside the destination's
      tensor keys keeps its value, and unless the two share tensor keys the source reads as
      before. */
  lemma FailedRename(s: Store, src: Bytes, dst: Bytes, ds: DataSet, newName: Bytes)
    requires ReadDataset(s, src, ds.name) == Ok(ds)
    requires newName == [] || ds.fields == map[] || !AllSettable(s, dst, ds.tensors.Keys)
    ensures RenameOutcome(s, src, dst, newName).result ==
            Err(if newName == [] && AllSettable(s, dst, ds.tensors.Keys) then ParameterError else RuntimeError)
    ensures forall key :: (forall t :: t in ds.tensors ==> key != TensorKey(dst, t)) ==>
              Get(RenameOutcome(s, src, dst, newName).store, key) == Get(s, key)
    ensures (forall t, u :: t in ds.tensors && u in ds.tensors ==> TensorKey(src, t) != TensorKey(dst, u)) ==>
              ReadDataset(RenameOutcome(s, src, dst, newName).store, src, ds.name) == Ok(ds)
  {
    var names := TensorNames(ds.fields).value;
    var t := RenameOutcome(s, src, dst, newName).store;
    ReadIsStored(s, src, ds.name);
    DescribedMetadata(s, src, ds.fields, names, KeyError);
    DescribedCopy(s, src, dst, newName, ds.fields, names);
    ReadableInTurn(s, src, dst, ds);
    assert forall i :: 0 <= i < |names| ==> names[i] in ds.tensors;
    if forall x, u :: x in ds.tensors && u in ds.tensors ==> TensorKey(src, x) != TensorKey(dst, u) {
      forall key | Owns(src, ds, key) ensures Get(t, key) == Get(s, key) {
        SourceKeyKept(s, t, src, dst, ds, names, key);
      }
      ReadDependsOnOwned(s, t, src, ds.name);
    }
  }

  lemma ReadableInTurn(s: Store, src: Bytes, dst: Bytes, ds: DataSet)
    requires ReadDataset(s, src, ds.name) == Ok(ds)
    ensures TensorNames(ds.fields).Ok?
    ensures InTurn(s, src, dst, TensorNames(ds.fields).value) <==> AllSettable(s, dst, ds.tensors.Keys)
  {
    var names := TensorNames(ds.fields).value;
    ReadIsStored(s, src, ds.name);
    SettableNames(s, dst, names, ds.tensors);
    forall i | 0 <= i < |names| ensures Available(s, src, dst, names, i) {
      assert names[i] in ds.tensors;
    }
  }

  lemma SourceKeyKept(s: Store, t: Store, src: Bytes, dst: Bytes, ds: DataSet, names: seq<Bytes>, key: Bytes)
    requires OnlyTensors(s, t, dst, names) && Owns(src, ds, key)
    requires MetaKey(src) in s && s[MetaKey(src)].HashValue?
    requires forall x :: x in names ==> x in ds.tensors
    requires forall x, u :: x in ds.tensors && u in ds.tensors ==> TensorKey(src, x) != TensorKey(dst, u)
    ensures Get(t, key) == Get(s, key)
  {
    assert forall i :: 0 <= i < |names| ==> names[i] in ds.tensors;
  }
}
