/** The client and the server it talks to, in the form of the source: objects whose methods
    change the server's store by commands. */
module Client {
  import opened Basics
  import opened Metadata
  import opened Keys
  import opened Store
  import opened DatasetCommands
  import opened DatasetReads
  import opened DatasetOperations
  import opened AggregationLists
  import opened ListReads
  import opened Prefixes

  class Server {
    var store: Store

    constructor ()
      ensures store == map[]
    {
      store := map[];
    }

    /** One command; an error reply changes nothing and makes the client throw. */
    method Execute(c: Command) returns (r: Result<()>)
      modifies this
      ensures store == Apply(old(store), c)
      ensures r == if Fails(old(store), c) then Err(RuntimeError) else Ok(())
    {
      r := if Fails(store, c) then Err(RuntimeError) else Ok(());
      store := Apply(store, c);
    }

    /** All commands in order on one connection; any error reply makes the client throw once
        they have run. */
    method RunInPipeline(cmds: seq<Command>) returns (r: Result<()>)
      modifies this
      ensures store == Run(old(store), cmds)
      ensures r == if SomeFails(old(store), cmds) then Err(RuntimeError) else Ok(())
    {
      r := Ok(());
      for i := 0 to |cmds|
        invariant store == Run(old(store), cmds[..i])
        invariant r == if SomeFails(old(store), cmds[..i]) then Err(RuntimeError) else Ok(())
      {
        RunNext(old(store), cmds, i);
        SomeFailsNext(old(store), cmds, i);
        var reply := Execute(cmds[i]);
        if reply.Err? {
          r := reply;
        }
      }
      assert cmds[..|cmds|] == cmds;
    }
  }

  /** A list call with its arguments. */
  datatype ListCall =
    | AppendCall(list: Bytes, dataset: DataSet)
    | DeleteCall(list: Bytes)
    | CopyCall(src: Bytes, dst: Bytes)
    | RenameCall(src: Bytes, dst: Bytes)

  /** The operation on lists that a call is, for a client with the given dataset prefix. */
  function OpOf(call: ListCall, prefix: Bytes): ListOp {
    match call
    case AppendCall(list, ds) => Append(list, DatasetKey(prefix, ds.name))
    case DeleteCall(list) => Delete(list)
    case CopyCall(src, dst) => Copy(src, dst)
    case RenameCall(src, dst) => Rename(src, dst)
  }

  function OpsOf(calls: seq<ListCall>, prefix: Bytes): seq<ListOp> {
    seq(|calls|, i requires 0 <= i < |calls| => OpOf(calls[i], prefix))
  }

  /** What a client appends is a dataset key and so is not empty: its calls meet the conditions
      under which lists refine a map of sequences. */
  lemma CallsRefine(s: Store, p: Bytes, calls: seq<ListCall>, prefix: Bytes, names: set<Bytes>)
    requires ListsOnly(s, p, names)
    requires forall i, n :: 0 <= i < |calls| && Mentions(OpOf(calls[i], prefix), n) ==> n in names
    ensures ListsOnly(ExecAll(s, p, OpsOf(calls, prefix)), p, names)
    ensures View(ExecAll(s, p, OpsOf(calls, prefix)), p, names) == EffectAll(View(s, p, names), OpsOf(calls, prefix))
  {
    var ops := OpsOf(calls, prefix);
    forall i | 0 <= i < |ops| && ops[i].Append? ensures ops[i].entry != [] {
      EntriesNotEmpty(prefix, calls[i].dataset.name);
    }
    RunRefines(s, p, names, ops);
  }

  /** Dataset `i` of a range is what entry `first + i` of the list reads as. */
  ghost predicate ReadsFrom(s: Store, xs: seq<Bytes>, first: nat, datasets: seq<DataSet>) {
    first + |datasets| <= |xs|
    && forall i :: 0 <= i < |datasets| ==> ReadEntry(s, xs[first + i]) == Ok(datasets[i])
  }

  /** The datasets of a range by the positions of its ends: both inside; the end past the list;
      the start before it; nothing in between. */
  ghost predicate RangeRead(s: Store, xs: seq<Bytes>, start: int, end: int, datasets: seq<DataSet>) {
    var a, b := Position(|xs|, start), Position(|xs|, end);
    && (0 <= a <= b < |xs| ==> |datasets| == b - a + 1 && ReadsFrom(s, xs, a, datasets))
    && (0 <= a < |xs| <= b ==> |datasets| == |xs| - a && ReadsFrom(s, xs, a, datasets))
    && (a < 0 <= b < |xs| ==> |datasets| == b + 1 && ReadsFrom(s, xs, 0, datasets))
    && (a < 0 && |xs| <= b ==> |datasets| == |xs| && ReadsFrom(s, xs, 0, datasets))
    && (a > b || a >= |xs| || b < 0 ==> datasets == [])
  }

  lemma SlicedRange(s: Store, xs: seq<Bytes>, start: int, end: int, datasets: seq<DataSet>)
    requires |datasets| == |Slice(xs, start, end)|
    requires forall i :: 0 <= i < |datasets| ==> ReadEntry(s, Slice(xs, start, end)[i]) == Ok(datasets[i])
    ensures RangeRead(s, xs, start, end, datasets)
  {
    SliceEntries(xs, start, end);
    SliceEntries(xs, 0, end);
  }

  class Client {
    const server: Server
    var putKeyPrefix: Bytes
    var getKeyPrefix: Bytes
    var getKeyPrefixes: seq<Bytes>
    var useDatasetPrefix: bool
    var useListPrefix: bool

    /** The active get prefix is a listed one, or empty when none is listed. */
    ghost predicate Valid()
      reads this
    {
      if getKeyPrefixes == [] then getKeyPrefix == [] else getKeyPrefix in getKeyPrefixes
    }

    constructor (server: Server, ssKeyOut: Bytes, ssKeyIn: Bytes)
      ensures this.server == server && Valid()
      ensures putKeyPrefix == ssKeyOut && getKeyPrefixes == Tokens(CString(ssKeyIn))
      ensures getKeyPrefix == ActiveAfter(getKeyPrefixes, [])
      ensures useDatasetPrefix && useListPrefix
    {
      this.server := server;
      putKeyPrefix, getKeyPrefix, getKeyPrefixes := [], [], [];
      useDatasetPrefix, useListPrefix := true, true;
      new;
      GetPrefixSettings(ssKeyOut, ssKeyIn);
    }

    /** `_get_prefix_settings`, for a client that has no prefixes yet. */
    method GetPrefixSettings(ssKeyOut: Bytes, ssKeyIn: Bytes)
      requires getKeyPrefixes == [] && getKeyPrefix == []
      modifies this`putKeyPrefix, this`getKeyPrefix, this`getKeyPrefixes
      ensures Valid()
      ensures putKeyPrefix == ssKeyOut && getKeyPrefixes == Tokens(CString(ssKeyIn))
      ensures getKeyPrefix == ActiveAfter(getKeyPrefixes, [])
    {
      putKeyPrefix := ssKeyOut;
      getKeyPrefixes := SplitPrefixes(ssKeyIn);
      if |getKeyPrefixes| > 0 {
        var r := SetDataSource(getKeyPrefixes[0]);
      }
    }

    /** `set_data_source`: a search that keeps the index of the first match. */
    method SetDataSource(sourceId: Bytes) returns (r: Result<()>)
      modifies this`getKeyPrefix
      ensures r == if sourceId in getKeyPrefixes then Ok(()) else Err(RuntimeError)
      ensures getKeyPrefix == if sourceId in getKeyPrefixes then sourceId else old(getKeyPrefix)
      ensures old(Valid()) ==> Valid()
    {
      var validPrefix, saveIndex := false, 0;
      var i := 0;
      while i < |getKeyPrefixes|
        invariant i <= |getKeyPrefixes|
        invariant !validPrefix && sourceId !in getKeyPrefixes[..i]
        decreases |getKeyPrefixes| - i
      {
        if getKeyPrefixes[i] == sourceId {
          validPrefix, saveIndex := true, i;
          break;
        }
        assert getKeyPrefixes[..i + 1] == getKeyPrefixes[..i] + [getKeyPrefixes[i]];
        i := i + 1;
      }
      if !validPrefix {
        assert getKeyPrefixes[..|getKeyPrefixes|] == getKeyPrefixes;
        return Err(RuntimeError);
      }
      getKeyPrefix := getKeyPrefixes[saveIndex];
      return Ok(());
    }

    /** Any run of calls ends with the last listed source that was asked for. */
    method SetDataSources(ids: seq<Bytes>)
      requires getKeyPrefix == ActiveAfter(getKeyPrefixes, [])
      modifies this`getKeyPrefix
      ensures getKeyPrefix == ActiveAfter(getKeyPrefixes, ids)
      ensures Valid()
    {
      for i := 0 to |ids|
        invariant getKeyPrefix == ActiveAfter(getKeyPrefixes, ids[..i])
      {
        var r := SetDataSource(ids[i]);
        assert ids[..i + 1][..i] == ids[..i];
      }
      assert ids[..|ids|] == ids;
      ActiveIsListed(getKeyPrefixes, ids);
    }

    // -------------------------------------------------------------------------------------
    // Keys under the current settings
    // -------------------------------------------------------------------------------------

    function DatasetPrefix(onDb: bool): Bytes
      reads this
    {
      if useDatasetPrefix then ResolvePrefix(if onDb then getKeyPrefix else putKeyPrefix) else []
    }

    function ListPrefix(onDb: bool): Bytes
      reads this
    {
      if useListPrefix then ResolvePrefix(if onDb then getKeyPrefix else putKeyPrefix) else []
    }

    /** `_build_dataset_key`. */
    function DatasetKeyOf(name: Bytes, onDb: bool): Bytes
      reads this
    {
      DatasetKey(DatasetPrefix(onDb), name)
    }

    // -------------------------------------------------------------------------------------
    // Datasets
    // -------------------------------------------------------------------------------------

    /** `get_metadata_serialization_map`: name and serialization of every field, in the order
        of the map. */
    static method SerializationMap(fields: Fields) returns (mdf: Pairs)
      requires forall k :: k in fields ==> ValidField(fields[k])
      ensures IsListing(mdf, SerializeFields(fields))
      ensures mdf == [] <==> fields == map[]
    {
      var listing := Iterate(fields);
      mdf := [];
      for i := 0 to |listing|
        invariant |mdf| == i
        invariant forall k :: 0 <= k < i ==> mdf[k] == (listing[k].0, SerializeField(listing[k].1))
      {
        var buf := GenerateFieldBuf(listing[i].1);
        mdf := mdf + [(listing[i].0, buf)];
      }
      assert listing == [] <==> fields == map[] by { ListingEmpty(listing, fields); }
      forall k | k in SerializeFields(fields) ensures exists i :: 0 <= i < |mdf| && mdf[i].0 == k {
        var i :| 0 <= i < |listing| && listing[i].0 == k;
        assert mdf[i].0 == k;
      }
    }

    /** `_append_dataset_tensor_commands`. */
    static method AppendTensorCommands(cmds: seq<Command>, base: Bytes, tensors: NamedTensors) returns (r: seq<Command>)
      ensures r == cmds + TensorCommands(base, tensors)
    {
      r := cmds;
      for i := 0 to |tensors|
        invariant r == cmds + TensorCommands(base, tensors)[..i]
      {
        r := r + [TensorSet(TensorKey(base, tensors[i].0), tensors[i].1)];
      }
    }

    /** `put_dataset`. The out-parameters `pairs` and `tensors` are the orders in which fields
        and tensors were iterated. */
    method PutDataset(ds: DataSet) returns (r: Result<()>, ghost pairs: Pairs, ghost tensors: NamedTensors)
      requires forall k :: k in ds.fields ==> ValidField(ds.fields[k])
      modifies server
      ensures ds.fields == map[] ==> r == Err(RuntimeError) && server.store == old(server.store)
      ensures ds.fields != map[] ==>
                && Orders(ds, pairs, tensors)
                && server.store == Run(old(server.store), PutCommands(DatasetKeyOf(ds.name, false), pairs, tensors))
                && r == (if SomeFails(old(server.store), PutCommands(DatasetKeyOf(ds.name, false), pairs, tensors)) then Err(RuntimeError) else Ok(()))
      ensures ds.fields != map[] ==> (r.Ok? <==> WhollyStored(server.store, DatasetKeyOf(ds.name, false), ds))
      ensures WellFormed(ds) && r.Ok? ==>
                && WhollyStored(server.store, DatasetKeyOf(ds.name, false), ds)
                && ReadDataset(server.store, DatasetKeyOf(ds.name, false), ds.name) == Ok(ds)
    {
      var base := DatasetKeyOf(ds.name, false);
      var mdf := SerializationMap(ds.fields);
      var order := Iterate(ds.tensors);
      pairs, tensors := mdf, order;
      if |mdf| == 0 {
        return Err(RuntimeError), pairs, tensors;
      }
      var cmds := MetadataCommands(base, mdf);
      cmds := AppendTensorCommands(cmds, base, order);
      cmds := cmds + [AckCommand(base)];
      r := server.RunInPipeline(cmds);
      PutWholeIff(old(server.store), base, ds, pairs, tensors);
      if WellFormed(ds) && r.Ok? {
        StoredReads(server.store, base, ds);
      }
    }

    /** HGETALL and unpacking, as `get_dataset`, `copy_dataset` and `delete_dataset` begin. */
    method GetMetadata(base: Bytes, missing: Error) returns (r: Result<Fields>)
      requires FitsMemory(server.store)
      ensures r == MetadataAt(server.store, base, missing)
    {
      var reply, pairs := HGetAllReply(server.store, MetaKey(base));
      if reply.Err? {
        return Err(reply.error);
      }
      if |reply.value| == 0 {
        assert HashAt(server.store, MetaKey(base)) == map[];
        return Err(missing);
      }
      assert pairs[0].0 in HashAt(server.store, MetaKey(base));
      FlatFits(server.store, MetaKey(base), pairs);
      UnpackListing(pairs, HashAt(server.store, MetaKey(base)));
      r := UnpackDatasetMetadata(reply.value);
    }

    /** `get_dataset`. */
    method GetDataset(name: Bytes) returns (r: Result<DataSet>)
      requires FitsMemory(server.store)
      ensures r == ReadDataset(server.store, DatasetKeyOf(name, true), name)
    {
      var base := DatasetKeyOf(name, true);
      var fields := GetMetadata(base, KeyError);
      if fields.Err? {
        return Err(fields.error);
      }
      var names := TensorNames(fields.value);
      if names.Err? {
        return Err(names.error);
      }
      var tensors := FetchTensors(server.store, base, names.value);
      if tensors.Err? {
        return Err(tensors.error);
      }
      r := AddFetched(DataSet(name, fields.value, map[]), names.value, tensors.value);
    }

    /** The loop that puts retrieved tensors into a new dataset. */
    static method AddFetched(ds: DataSet, names: seq<Bytes>, tensors: seq<Tensor>) returns (r: Result<DataSet>)
      requires |names| == |tensors| && ds.tensors == map[]
      ensures r == match AddTensors(names, tensors)
                   case Err(e) => Err(e)
                   case Ok(pack) => Ok(ds.(tensors := pack))
    {
      var dataset := ds;
      assert names[..0] == [] && tensors[..0] == [];
      for i := 0 to |names|
        invariant dataset == ds.(tensors := dataset.tensors)
        invariant AddTensors(names[..i], tensors[..i]) == Ok(dataset.tensors)
      {
        AddNext(names, tensors, i);
        var added := AddToTensorpack(dataset, names[i], tensors[i]);
        if added.Err? {
          AddErrorStays(names, tensors, i + 1);
          return Err(added.error);
        }
        dataset := added.value;
      }
      assert names[..|names|] == names && tensors[..|names|] == tensors;
      return Ok(dataset);
    }

    /** `copy_tensors`. */
    method CopyTensorsOneByOne(src: Bytes, dst: Bytes, names: seq<Bytes>) returns (r: Result<()>)
      modifies server
      ensures Outcome(r, server.store) == CopyTensors(old(server.store), src, dst, names)
    {
      ghost var s := old(server.store);
      assert names[..0] == [];
      for i := 0 to |names|
        invariant Outcome(Ok(()), server.store) == CopyTensors(s, src, dst, names[..i])
      {
        CopyNext(s, src, dst, names, i);
        var tensor := TensorGet(server.store, TensorKey(src, names[i]));
        if tensor.Err? {
          CopyErrorStays(s, src, dst, names, i + 1);
          return Err(tensor.error);
        }
        r := server.Execute(TensorSet(TensorKey(dst, names[i]), tensor.value));
        if r.Err? {
          CopyErrorStays(s, src, dst, names, i + 1);
          return r;
        }
      }
      assert names[..|names|] == names;
      return Ok(());
    }

    /** `copy_dataset`: reads under the get prefix, writes under the put prefix. */
    method CopyDataset(srcName: Bytes, dstName: Bytes) returns (r: Result<()>)
      requires FitsMemory(server.store)
      modifies server
      ensures Outcome(r, server.store) ==
              CopyOutcome(old(server.store), DatasetKeyOf(srcName, true), DatasetKeyOf(dstName, false), dstName)
      ensures FitsMemory(server.store)
    {
      var src, dst := DatasetKeyOf(srcName, true), DatasetKeyOf(dstName, false);
      var fields := GetMetadata(src, KeyError);
      if fields.Err? {
        return Err(fields.error);
      }
      var names := TensorNames(fields.value);
      if names.Err? {
        return Err(names.error);
      }
      r := CopyTensorsOneByOne(src, dst, names.value);
      CopyTensorsFits(old(server.store), src, dst, names.value);
      if r.Err? {
        return r;
      }
      if dstName == [] {
        return Err(ParameterError);
      }
      HashCanonical(HashAt(old(server.store), MetaKey(src)));
      var mdf := SerializationMap(fields.value);
      if |mdf| == 0 {
        return Err(RuntimeError);
      }
      ghost var copied := server.store;
      PlaceMetadata(copied, dst, fields.value, mdf);
      r := server.RunInPipeline(MetadataCommands(dst, mdf) + [AckCommand(dst)]);
      PlaceFits(old(server.store), copied, src, dst, fields.value);
    }

    /** `delete_dataset`. */
    method DeleteDataset(name: Bytes) returns (r: Result<()>)
      requires FitsMemory(server.store)
      modifies server
      ensures Outcome(r, server.store) == DeleteOutcome(old(server.store), DatasetKeyOf(name, true))
    {
      var base := DatasetKeyOf(name, true);
      var fields := GetMetadata(base, RuntimeError);
      if fields.Err? {
        return Err(fields.error);
      }
      var names := TensorNames(fields.value);
      if names.Err? {
        return Err(names.error);
      }
      var keys := AppendTensorKeys([MetaKey(base)], base, names.value);
      r := server.Execute(Del(keys));
    }

    /** `rename_dataset`. */
    method RenameDataset(oldName: Bytes, newName: Bytes) returns (r: Result<()>)
      requires FitsMemory(server.store)
      modifies server
      ensures Outcome(r, server.store) ==
              RenameOutcome(old(server.store), DatasetKeyOf(oldName, true), DatasetKeyOf(newName, false), newName)
    {
      r := CopyDataset(oldName, newName);
      if r.Ok? {
        r := DeleteDataset(oldName);
      }
    }

    // -------------------------------------------------------------------------------------
    // Aggregation lists
    // -------------------------------------------------------------------------------------

    /** `append_to_list`: list and dataset keys both take the put prefix. */
    method AppendToList(list: Bytes, ds: DataSet) returns (r: Result<()>)
      modifies server
      ensures Outcome(r, server.store) ==
              AppendOutcome(old(server.store), ListKey(ListPrefix(false), list), DatasetKeyOf(ds.name, false))
    {
      r := server.Execute(RPush(ListKey(ListPrefix(false), list), [DatasetKeyOf(ds.name, false)]));
    }

    /** `delete_list`. */
    method DeleteList(list: Bytes) returns (r: Result<()>)
      modifies server
      ensures Outcome(r, server.store) == DeleteListOutcome(old(server.store), ListKey(ListPrefix(true), list))
    {
      r := server.Execute(Del([ListKey(ListPrefix(true), list)]));
    }

    /** `copy_list`. */
    method CopyList(src: Bytes, dst: Bytes) returns (r: Result<()>)
      modifies server
      ensures Outcome(r, server.store) == CopyListOutcome(old(server.store), ListPrefix(true), ListPrefix(false), src, dst)
    {
      if |src| == 0 || |dst| == 0 {
        return Err(ParameterError);
      }
      if src == dst {
        return Ok(());
      }
      var reply := LRange(server.store, ListKey(ListPrefix(true), src), 0, -1);
      if reply.Err? {
        return Err(reply.error);
      }
      if |reply.value| == 0 {
        return Err(RuntimeError);
      }
      var deleted := DeleteList(dst);
      var items: seq<Bytes> := [];
      for i := 0 to |reply.value|
        invariant items == reply.value[..i] && [] !in items
      {
        if |reply.value[i]| == 0 {
          assert reply.value[i] in reply.value;
          return Err(RuntimeError);
        }
        items := items + [reply.value[i]];
      }
      assert items == reply.value;
      r := server.Execute(RPush(ListKey(ListPrefix(false), dst), items));
    }

    /** `rename_list`. */
    method RenameList(src: Bytes, dst: Bytes) returns (r: Result<()>)
      modifies server
      ensures Outcome(r, server.store) == RenameListOutcome(old(server.store), ListPrefix(true), ListPrefix(false), src, dst)
    {
      if |src| == 0 || |dst| == 0 {
        return Err(ParameterError);
      }
      if src == dst {
        return Ok(());
      }
      r := CopyList(src, dst);
      if r.Ok? {
        r := DeleteList(src);
      }
    }

    /** Any run of list calls of a client whose prefixes agree is the run of the same operations
        on a map of sequences. */
    method PerformLists(calls: seq<ListCall>, ghost names: set<Bytes>)
      requires ListPrefix(true) == ListPrefix(false) && ListsOnly(server.store, ListPrefix(true), names)
      requires forall i, n :: 0 <= i < |calls| && Mentions(OpOf(calls[i], DatasetPrefix(false)), n) ==> n in names
      modifies server
      ensures server.store == ExecAll(old(server.store), ListPrefix(true), OpsOf(calls, DatasetPrefix(false)))
      ensures ListsOnly(server.store, ListPrefix(true), names)
      ensures View(server.store, ListPrefix(true), names) ==
              EffectAll(View(old(server.store), ListPrefix(true), names), OpsOf(calls, DatasetPrefix(false)))
    {
      ghost var s, p, ops := server.store, ListPrefix(true), OpsOf(calls, DatasetPrefix(false));
      for i := 0 to |calls|
        invariant server.store == ExecAll(s, p, ops[..i])
      {
        PerformList(calls[i]);
        assert ops[..i + 1][..i] == ops[..i];
      }
      assert ops[..|calls|] == ops;
      CallsRefine(s, p, calls, DatasetPrefix(false), names);
    }

    /** One list call, whose error the caller of a run ignores. */
    method PerformList(call: ListCall)
      requires ListPrefix(true) == ListPrefix(false)
      modifies server
      ensures server.store == Exec(old(server.store), ListPrefix(true), OpOf(call, DatasetPrefix(false))).store
    {
      var r;
      match call {
        case AppendCall(list, ds) => r := AppendToList(list, ds);
        case DeleteCall(list) => r := DeleteList(list);
        case CopyCall(src, dst) => r := CopyList(src, dst);
        case RenameCall(src, dst) => r := RenameList(src, dst);
      }
    }

    /** `get_dataset_list_range`; `get_datasets_from_list` is the range 0 to -1. */
    method GetDatasetListRange(list: Bytes, start: int, end: int) returns (r: Result<seq<DataSet>>)
      requires FitsMemory(server.store)
      ensures list == [] ==> r == Err(ParameterError)
      ensures list != [] && r.Ok? ==>
                var range := LRange(server.store, ListKey(ListPrefix(true), list), start, end);
                && range.Ok? && |r.value| == |range.value|
                && forall i :: 0 <= i < |r.value| ==> ReadEntry(server.store, range.value[i]) == Ok(r.value[i])
      ensures list != [] && r.Ok? ==>
                RangeRead(server.store, ListAt(server.store, ListKey(ListPrefix(true), list)), start, end, r.value)
      ensures list != [] && (var key := ListKey(ListPrefix(true), list); key in server.store && !server.store[key].ListValue?) ==>
                r == Err(RuntimeError)
      ensures list != [] && r.Err? ==>
                match LRange(server.store, ListKey(ListPrefix(true), list), start, end)
                case Err(_) => true
                case Ok(entries) => [] in entries || exists i :: 0 <= i < |entries| && ReadEntry(server.store, entries[i]).Err?
    {
      if |list| == 0 {
        return Err(ParameterError);
      }
      var reply := LRange(server.store, ListKey(ListPrefix(true), list), start, end);
      if reply.Err? {
        return Err(reply.error);
      }
      r := ReadList(server.store, server.store, reply.value);
      if r.Ok? {
        SlicedRange(server.store, ListAt(server.store, ListKey(ListPrefix(true), list)), start, end, r.value);
      }
    }
  }

  lemma {:induction false} AddErrorStays(names: seq<Bytes>, tensors: seq<Tensor>, i: nat)
    requires |names| == |tensors| && i <= |names| && AddTensors(names[..i], tensors[..i]).Err?
    ensures AddTensors(names, tensors) == AddTensors(names[..i], tensors[..i])
    decreases |names| - i
  {
    if i < |names| {
      AddNext(names, tensors, i);
      AddErrorStays(names, tensors, i + 1);
    } else {
      assert names[..i] == names && tensors[..i] == tensors;
    }
  }

  lemma {:induction false} CopyTensorsFits(s: Store, src: Bytes, dst: Bytes, names: seq<Bytes>)
    requires FitsMemory(s)
    ensures FitsMemory(CopyTensors(s, src, dst, names).store)
    decreases |names|
  {
    if names != [] {
      CopyTensorsFits(s, src, dst, names[..|names| - 1]);
    }
  }

  /** The hash a copy writes has the strings of the hash it read. */
  lemma PlaceFits(s: Store, copied: Store, src: Bytes, dst: Bytes, fields: Fields)
    requires FitsMemory(s) && FitsMemory(copied) && DecodeHash(HashAt(s, MetaKey(src))) == Ok(fields)
    ensures FitsMemory(Place(copied, dst, fields))
  {
    HashCanonical(HashAt(s, MetaKey(src)));
    var h := SerializeFields(fields)[ACK_FIELD := ACK_VALUE];
    forall f | f in h ensures |f| < SIZE_LIMIT && |h[f]| < SIZE_LIMIT {
      if f != ACK_FIELD {
        assert f in HashAt(s, MetaKey(src)) && h[f] == HashAt(s, MetaKey(src))[f];
      }
    }
  }

  /** A key prefix as the client writes it: the prefix and a dot, unless it is empty or switched
      off. */
  ghost predicate Prefixed(key: Bytes, on: bool, prefix: Bytes, rest: Bytes) {
    key == if on && prefix != [] then prefix + [0x2E] + rest else rest
  }

  /** The keys in bytes: placing uses the put prefix and retrieving the get prefix, each with a dot
      and under its own switch; dataset names stand in braces, list names do not. */
  lemma KeyBytes(c: Client, name: Bytes)
    ensures Prefixed(c.DatasetKeyOf(name, false), c.useDatasetPrefix, c.putKeyPrefix, [0x7B] + name + [0x7D])
    ensures Prefixed(c.DatasetKeyOf(name, true), c.useDatasetPrefix, c.getKeyPrefix, [0x7B] + name + [0x7D])
    ensures Prefixed(ListKey(c.ListPrefix(false), name), c.useListPrefix, c.putKeyPrefix, name)
    ensures Prefixed(ListKey(c.ListPrefix(true), name), c.useListPrefix, c.getKeyPrefix, name)
  {
    assert [] + [OPEN] + name + [CLOSE] == [0x7B] + name + [0x7D];
    assert [] + name == name;
    forall p: Bytes ensures p + [DOT] + [OPEN] + name + [CLOSE] == p + [0x2E] + ([0x7B] + name + [0x7D]) {}
  }

  /** Strings of a word-sized length make a hash that can be replied. */
  ghost predicate FitsFields(fields: Fields) {
    forall k :: k in fields ==> |k| < SIZE_LIMIT && |SerializeField(fields[k])| < SIZE_LIMIT
  }

  lemma PutFits(s: Store, base: Bytes, ds: DataSet, pairs: Pairs, tensors: NamedTensors)
    requires FitsMemory(s) && FitsFields(ds.fields) && Orders(ds, pairs, tensors) && META_NAME !in ds.tensors
    requires AllSettable(s, base, ds.tensors.Keys)
    ensures FitsMemory(Run(s, PutCommands(base, pairs, tensors)))
  {
    var t := Run(s, PutCommands(base, pairs, tensors));
    PutStores(s, base, ds, pairs, tensors);
    forall key | key in t && t[key].HashValue?
      ensures forall f :: f in t[key].hash ==> |f| < SIZE_LIMIT && |t[key].hash[f]| < SIZE_LIMIT
    {
      if key != MetaKey(base) {
        assert forall x :: x in ds.tensors ==> key != TensorKey(base, x) by {
          assert forall x :: x in ds.tensors ==> Get(t, TensorKey(base, x)) == Some(TensorValue(ds.tensors[x]));
        }
        assert Get(t, key) == Get(s, key);
      } else {
        assert Get(t, key) == Some(HashValue(SerializeFields(ds.fields)[ACK_FIELD := ACK_VALUE]));
      }
    }
  }

  /** One client writes, another reads: with the same switch and, if it is on, the writer's put
      prefix as the reader's get prefix, the reader gets the dataset. */
  method WriteThenRead(writer: Client, reader: Client, ds: DataSet) returns (put: Result<()>, got: Result<DataSet>)
    requires writer.server == reader.server && FitsMemory(writer.server.store)
    requires writer.useDatasetPrefix == reader.useDatasetPrefix
    requires writer.useDatasetPrefix ==> writer.putKeyPrefix == reader.getKeyPrefix
    requires WellFormed(ds) && FitsFields(ds.fields)
    modifies writer.server
    ensures put.Ok? <==> AllSettable(old(writer.server.store), writer.DatasetKeyOf(ds.name, false), ds.tensors.Keys)
    ensures put.Ok? ==> got == Ok(ds)
  {
    ghost var s, base := writer.server.store, writer.DatasetKeyOf(ds.name, false);
    ghost var pairs, tensors;
    put, pairs, tensors := writer.PutDataset(ds);
    PutFailsIff(s, base, ds, pairs, tensors);
    got := Err(RuntimeError);
    if put.Ok? {
      PutFits(s, base, ds, pairs, tensors);
      got := reader.GetDataset(ds.name);
    }
  }
}
