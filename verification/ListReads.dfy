/** Reading the datasets of an aggregation list: three passes over two pipelines, with one
    running index into the flattened tensor replies (`_get_dataset_list_range`). */
module ListReads {
  import opened Basics
  import opened Metadata
  import opened Keys
  import opened Store
  import opened DatasetReads
  import opened DatasetOperations

  /** Every string in a reply has a length that fits `size_t`. */
  ghost predicate FitsMemory(s: Store) {
    forall key :: key in s && s[key].HashValue? ==>
      forall f :: f in s[key].hash ==> |f| < SIZE_LIMIT && |s[key].hash[f]| < SIZE_LIMIT
  }

  lemma {:induction false} FlatAt(pairs: seq<(Bytes, Bytes)>, i: nat)
    requires i < 2 * |pairs|
    ensures Flat(pairs)[i] == if i % 2 == 0 then pairs[i / 2].0 else pairs[i / 2].1
  {
    var k := i / 2;
    assert Flat(pairs)[2 * k] == pairs[k].0 && Flat(pairs)[2 * k + 1] == pairs[k].1;
  }

  lemma FlatFits(s: Store, key: Bytes, pairs: seq<(Bytes, Bytes)>)
    requires FitsMemory(s) && IsListing(pairs, HashAt(s, key))
    ensures forall i :: 0 <= i < |Flat(pairs)| ==> |Flat(pairs)[i]| < SIZE_LIMIT
  {
    forall k | 0 <= k < |pairs| ensures |pairs[k].0| < SIZE_LIMIT && |pairs[k].1| < SIZE_LIMIT {
      assert pairs[k].0 in HashAt(s, key);
    }
    forall i | 0 <= i < |Flat(pairs)| ensures |Flat(pairs)[i]| < SIZE_LIMIT {
      FlatAt(pairs, i);
    }
  }

  /** HGETALL as the client sees it: pairs in any order. */
  method HGetAllReply(s: Store, key: Bytes) returns (reply: Result<seq<Bytes>>, ghost pairs: seq<(Bytes, Bytes)>)
    ensures match HGetAll(s, key)
            case Err(e) => reply == Err(e)
            case Ok(h) => IsListing(pairs, h) && reply == Ok(Flat(pairs))
  {
    if key in s && !s[key].HashValue? {
      return Err(RuntimeError), [];
    }
    var listing := Iterate(HashAt(s, key));
    return Ok(Flat(listing)), listing;
  }

  /** The dataset of an entry before its tensors are fetched. Unlike `get_dataset`, an absent
      dataset is no error here: it reads as one without fields. */
  function ReadHeader(s: Store, entry: Bytes): Result<DataSet> {
    var h :- HGetAll(s, MetaKey(entry));
    var name :- NameFromEntry(entry);
    var fields :- DecodeHash(h);
    var names :- TensorNames(fields);
    Ok(DataSet(name, fields, map[]))
  }

  /** Reading one list entry by itself, the simple way. */
  function ReadEntry(s: Store, entry: Bytes): Result<DataSet> {
    var header :- ReadHeader(s, entry);
    ReadTensors(s, entry, header.name, header.fields)
  }

  /** `get_tensor_names` of a dataset for which it does not throw. */
  function NamesIn(ds: DataSet): seq<Bytes> {
    match TensorNames(ds.fields)
    case Err(_) => []
    case Ok(names) => names
  }

  /** The same while other clients are at work: the metadata is read in `s`, the tensors later in
      `t`. */
  function ReadAcross(s: Store, t: Store, entry: Bytes): Result<DataSet> {
    var header :- ReadHeader(s, entry);
    ReadTensors(t, entry, header.name, header.fields)
  }

  /** Both stores hold the same under the tensor keys that the entry's metadata lists in `s`. */
  ghost predicate SameTensors(s: Store, t: Store, entry: Bytes) {
    ReadHeader(s, entry).Ok? ==>
      var names := NamesIn(ReadHeader(s, entry).value);
      forall i :: 0 <= i < |names| ==> TensorGet(s, TensorKey(entry, names[i])) == TensorGet(t, TensorKey(entry, names[i]))
  }

  lemma SameTensorsRead(s: Store, t: Store, entry: Bytes)
    requires SameTensors(s, t, entry)
    ensures ReadAcross(s, t, entry) == ReadEntry(s, entry)
  {
    if ReadHeader(s, entry).Ok? {
      var names := NamesIn(ReadHeader(s, entry).value);
      if FetchTensors(s, entry, names).Ok? {
        assert FetchTensors(s, entry, names).value == FetchTensors(t, entry, names).value;
      }
    }
  }

  /** For an entry that reads, the read across two stores is its own read in the first exactly
      when the listed tensors are the same in both. */
  lemma ReadAcrossIff(s: Store, t: Store, entry: Bytes)
    requires ReadEntry(s, entry).Ok?
    ensures ReadAcross(s, t, entry) == ReadEntry(s, entry) <==> SameTensors(s, t, entry)
  {
    if SameTensors(s, t, entry) {
      SameTensorsRead(s, t, entry);
    } else if ReadAcross(s, t, entry) == ReadEntry(s, entry) {
      var names := NamesIn(ReadHeader(s, entry).value);
      AddTensorsMeaning(names, FetchTensors(s, entry, names).value);
      AddTensorsMeaning(names, FetchTensors(t, entry, names).value);
      assert false;
    }
  }

  /** Commands in between that touch none of the listed tensor keys do no harm. */
  lemma UntouchedEntry(s: Store, cmds: seq<Command>, entry: Bytes)
    requires ReadHeader(s, entry).Ok? ==>
               forall k, i :: 0 <= k < |cmds| && 0 <= i < |NamesIn(ReadHeader(s, entry).value)| ==>
                 !Touches(cmds[k], TensorKey(entry, NamesIn(ReadHeader(s, entry).value)[i]))
    ensures ReadAcross(s, Run(s, cmds), entry) == ReadEntry(s, entry)
  {
    if ReadHeader(s, entry).Ok? {
      var names := NamesIn(ReadHeader(s, entry).value);
      forall i | 0 <= i < |names|
        ensures TensorGet(s, TensorKey(entry, names[i])) == TensorGet(Run(s, cmds), TensorKey(entry, names[i]))
      {
        RunFrame(s, cmds, TensorKey(entry, names[i]));
        assert Get(Run(s, cmds), TensorKey(entry, names[i])) == Get(s, TensorKey(entry, names[i]));
      }
    }
    SameTensorsRead(s, Run(s, cmds), entry);
  }

  /** For a stored dataset that is `get_dataset` on its key. */
  lemma EntryIsDataset(s: Store, prefix: Bytes, name: Bytes)
    requires OPEN !in prefix && |DatasetKey(prefix, name)| < SIZE_LIMIT
    requires HGetAll(s, MetaKey(DatasetKey(prefix, name))) != Ok(map[])
    ensures ReadEntry(s, DatasetKey(prefix, name)) == ReadDataset(s, DatasetKey(prefix, name), name)
  {
    NameFromKey(prefix, name);
  }

  /** For an absent one `get_dataset` throws and the list read returns an empty dataset. */
  lemma MissingEntry(s: Store, prefix: Bytes, name: Bytes)
    requires OPEN !in prefix && |DatasetKey(prefix, name)| < SIZE_LIMIT
    requires HGetAll(s, MetaKey(DatasetKey(prefix, name))) == Ok(map[])
    ensures ReadDataset(s, DatasetKey(prefix, name), name) == Err(KeyError)
    ensures ReadEntry(s, DatasetKey(prefix, name)) == Ok(DataSet(name, map[], map[]))
  {
    NameFromKey(prefix, name);
    var key := DatasetKey(prefix, name);
    assert DecodeHash(map[]).value == map[];
    assert FetchTensors(s, key, []).value == [];
  }

  /** The two reads of one dataset differ exactly when HGETALL finds no metadata. */
  lemma EntryIsDatasetIff(s: Store, prefix: Bytes, name: Bytes)
    requires OPEN !in prefix && |DatasetKey(prefix, name)| < SIZE_LIMIT
    ensures ReadEntry(s, DatasetKey(prefix, name)) == ReadDataset(s, DatasetKey(prefix, name), name)
            <==> HGetAll(s, MetaKey(DatasetKey(prefix, name))) != Ok(map[])
  {
    if HGetAll(s, MetaKey(DatasetKey(prefix, name))) == Ok(map[]) {
      MissingEntry(s, prefix, name);
    } else {
      EntryIsDataset(s, prefix, name);
    }
  }

  // ---------------------------------------------------------------------------------------
  // The flattened second pipeline
  // ---------------------------------------------------------------------------------------

  /** The number of tensors the datasets name. */
  function TensorCount(datasets: seq<DataSet>): nat {
    if datasets == [] then 0
    else TensorCount(datasets[..|datasets| - 1]) + |NamesIn(datasets[|datasets| - 1])|
  }

  /** The keys of the second pipeline, dataset by dataset. */
  function FlatKeys(entries: seq<Bytes>, datasets: seq<DataSet>): (keys: seq<Bytes>)
    requires |entries| == |datasets|
    ensures |keys| == TensorCount(datasets)
  {
    if datasets == [] then []
    else
      var n := |datasets| - 1;
      FlatKeys(entries[..n], datasets[..n]) + TensorKeys(entries[n], NamesIn(datasets[n]))
  }

  lemma CountNext(datasets: seq<DataSet>, i: nat)
    requires i < |datasets|
    ensures TensorCount(datasets[..i + 1]) == TensorCount(datasets[..i]) + |NamesIn(datasets[i])|
  {
    assert datasets[..i + 1][..i] == datasets[..i];
  }

  lemma FlatKeysNext(entries: seq<Bytes>, datasets: seq<DataSet>, i: nat)
    requires |entries| == |datasets| && i < |datasets|
    ensures FlatKeys(entries[..i + 1], datasets[..i + 1]) ==
            FlatKeys(entries[..i], datasets[..i]) + TensorKeys(entries[i], NamesIn(datasets[i]))
  {
    assert datasets[..i + 1][..i] == datasets[..i] && entries[..i + 1][..i] == entries[..i];
  }

  lemma {:induction false} FlatKeysPrefix(entries: seq<Bytes>, datasets: seq<DataSet>, i: nat)
    requires |entries| == |datasets| && i <= |datasets|
    ensures FlatKeys(entries[..i], datasets[..i]) <= FlatKeys(entries, datasets)
    decreases |entries| - i
  {
    if i == |entries| {
      assert entries[..i] == entries && datasets[..i] == datasets;
    } else {
      FlatKeysNext(entries, datasets, i);
      FlatKeysPrefix(entries, datasets, i + 1);
    }
  }

  lemma PartOfPrefix<T>(before: seq<T>, own: seq<T>, whole: seq<T>, j: nat)
    requires before + own <= whole && j < |own|
    ensures |before| + j < |whole| && whole[|before| + j] == own[j]
  {
    assert (before + own)[|before| + j] == own[j];
  }

  /** The running index points at tensor `j` of entry `i`: it is the number of tensors of the
      earlier entries plus `j`. */
  lemma FlatKeyAt(entries: seq<Bytes>, datasets: seq<DataSet>, i: nat, j: nat)
    requires |entries| == |datasets| && i < |entries| && j < |NamesIn(datasets[i])|
    ensures TensorCount(datasets[..i]) + j < |FlatKeys(entries, datasets)|
    ensures FlatKeys(entries, datasets)[TensorCount(datasets[..i]) + j] == TensorKey(entries[i], NamesIn(datasets[i])[j])
  {
    var before, own := FlatKeys(entries[..i], datasets[..i]), TensorKeys(entries[i], NamesIn(datasets[i]));
    FlatKeysNext(entries, datasets, i);
    FlatKeysPrefix(entries, datasets, i + 1);
    PartOfPrefix(before, own, FlatKeys(entries, datasets), j);
  }

  /** The replies that belong to entry `i`. */
  function Own(datasets: seq<DataSet>, replies: seq<Result<Tensor>>, i: nat): (r: seq<Result<Tensor>>)
    requires i < |datasets| && |replies| == TensorCount(datasets)
    ensures |r| == |NamesIn(datasets[i])|
  {
    CountNext(datasets, i);
    CountPrefix(datasets, i + 1);
    replies[TensorCount(datasets[..i])..TensorCount(datasets[..i]) + |NamesIn(datasets[i])|]
  }

  lemma {:induction false} CountPrefix(datasets: seq<DataSet>, i: nat)
    requires i <= |datasets|
    ensures TensorCount(datasets[..i]) <= TensorCount(datasets)
    decreases |datasets| - i
  {
    if i == |datasets| {
      assert datasets[..i] == datasets;
    } else {
      CountNext(datasets, i);
      CountPrefix(datasets, i + 1);
    }
  }

  /** `_add_to_tensorpack`. */
  function AddToTensorpack(ds: DataSet, name: Bytes, tensor: Tensor): Result<DataSet> {
    if name in ds.tensors || !Constructible(name, tensor) then Err(RuntimeError)
    else Ok(ds.(tensors := ds.tensors[name := tensor]))
  }

  /** Adding one reply after the other to a dataset. */
  function Assemble(ds: DataSet, names: seq<Bytes>, replies: seq<Result<Tensor>>): Result<DataSet>
    requires |names| == |replies|
  {
    if names == [] then Ok(ds)
    else
      var n := |names| - 1;
      var before :- Assemble(ds, names[..n], replies[..n]);
      var tensor :- replies[n];
      AddToTensorpack(before, names[n], tensor)
  }

  lemma AssembleNext(ds: DataSet, names: seq<Bytes>, replies: seq<Result<Tensor>>, j: nat)
    requires |names| == |replies| && j < |names|
    ensures Assemble(ds, names[..j + 1], replies[..j + 1]) ==
            match Assemble(ds, names[..j], replies[..j])
            case Err(e) => Err(e)
            case Ok(before) =>
              match replies[j]
              case Err(e) => Err(e)
              case Ok(tensor) => AddToTensorpack(before, names[j], tensor)
  {
    assert names[..j + 1][..j] == names[..j] && replies[..j + 1][..j] == replies[..j];
  }

  lemma {:induction false} AssembleErrorStays(ds: DataSet, names: seq<Bytes>, replies: seq<Result<Tensor>>, j: nat)
    requires |names| == |replies| && j <= |names|
    requires Assemble(ds, names[..j], replies[..j]).Err?
    ensures Assemble(ds, names, replies) == Assemble(ds, names[..j], replies[..j])
    decreases |names| - j
  {
    if j == |names| {
      assert names[..j] == names && replies[..j] == replies;
    } else {
      AssembleNext(ds, names, replies, j);
      AssembleErrorStays(ds, names, replies, j + 1);
    }
  }

  lemma {:induction false} AssembleMeaning(ds: DataSet, names: seq<Bytes>, replies: seq<Result<Tensor>>, got: seq<Tensor>)
    requires |names| == |replies| == |got| && ds.tensors == map[]
    requires forall k :: 0 <= k < |got| ==> replies[k] == Ok(got[k])
    ensures Assemble(ds, names, replies) ==
            match AddTensors(names, got)
            case Err(e) => Err(e)
            case Ok(pack) => Ok(ds.(tensors := pack))
    decreases |names|
  {
    if names != [] {
      var n := |names| - 1;
      AssembleMeaning(ds, names[..n], replies[..n], got[..n]);
    }
  }

  lemma {:induction false} AssembleNeedsAll(ds: DataSet, names: seq<Bytes>, replies: seq<Result<Tensor>>, k: nat)
    requires |names| == |replies| && k < |names| && replies[k].Err?
    ensures Assemble(ds, names, replies).Err?
    decreases |names|
  {
    if k < |names| - 1 {
      AssembleNeedsAll(ds, names[..|names| - 1], replies[..|names| - 1], k);
    }
  }

  // ---------------------------------------------------------------------------------------
  // The passes
  // ---------------------------------------------------------------------------------------

  /** The entry check of the first pass. */
  method HasEmptyEntry(entries: seq<Bytes>) returns (r: bool)
    ensures r <==> [] in entries
  {
    for i := 0 to |entries|
      invariant [] !in entries[..i]
    {
      if |entries[i]| == 0 {
        assert entries[i] in entries;
        return true;
      }
      assert entries[..i + 1] == entries[..i] + [entries[i]];
    }
    assert entries[..|entries|] == entries;
    return false;
  }

  /** The inner loop of the second pass. */
  method AppendTensorKeys(keys: seq<Bytes>, entry: Bytes, names: seq<Bytes>) returns (r: seq<Bytes>)
    ensures r == keys + TensorKeys(entry, names)
  {
    r := keys;
    for j := 0 to |names|
      invariant r == keys + TensorKeys(entry, names)[..j]
    {
      r := r + [TensorKey(entry, names[j])];
    }
  }

  /** The dataset that a metadata reply gives, still without tensors. */
  function HeaderOf(entry: Bytes, reply: Result<seq<Bytes>>): Result<DataSet> {
    var r :- reply;
    var name :- NameFromEntry(entry);
    var fields :- UnpackReply(r);
    var names :- TensorNames(fields);
    Ok(DataSet(name, fields, map[]))
  }

  /** Replies that arrived from the server have lengths that fit `size_t`. */
  ghost predicate ReplyFits(reply: Result<seq<Bytes>>) {
    reply.Ok? ==> forall i :: 0 <= i < |reply.value| ==> |reply.value[i]| < SIZE_LIMIT
  }

  method UnpackHeader(entry: Bytes, reply: Result<seq<Bytes>>) returns (r: Result<DataSet>)
    requires ReplyFits(reply)
    ensures r == HeaderOf(entry, reply)
  {
    if reply.Err? {
      return Err(reply.error);
    }
    var name := NameFromEntry(entry);
    if name.Err? {
      return Err(name.error);
    }
    var fields := UnpackDatasetMetadata(reply.value);
    if fields.Err? {
      return Err(fields.error);
    }
    var names := TensorNames(fields.value);
    if names.Err? {
      return Err(names.error);
    }
    return Ok(DataSet(name.value, fields.value, map[]));
  }

  /** The datasets of all entries, unless one of them throws. */
  function HeadersOf(entries: seq<Bytes>, replies: seq<Result<seq<Bytes>>>): Result<seq<DataSet>>
    requires |replies| == |entries|
  {
    if entries == [] then Ok([])
    else
      var n := |entries| - 1;
      var before :- HeadersOf(entries[..n], replies[..n]);
      var header :- HeaderOf(entries[n], replies[n]);
      Ok(before + [header])
  }

  lemma HeadersNext(entries: seq<Bytes>, replies: seq<Result<seq<Bytes>>>, i: nat)
    requires |replies| == |entries| && i < |entries|
    ensures HeadersOf(entries[..i + 1], replies[..i + 1]) ==
            match HeadersOf(entries[..i], replies[..i])
            case Err(e) => Err(e)
            case Ok(before) =>
              match HeaderOf(entries[i], replies[i])
              case Err(e) => Err(e)
              case Ok(header) => Ok(before + [header])
  {
    assert entries[..i + 1][..i] == entries[..i] && replies[..i + 1][..i] == replies[..i];
  }

  lemma {:induction false} HeadersErrorStays(entries: seq<Bytes>, replies: seq<Result<seq<Bytes>>>, i: nat)
    requires |replies| == |entries| && i <= |entries| && HeadersOf(entries[..i], replies[..i]).Err?
    ensures HeadersOf(entries, replies) == HeadersOf(entries[..i], replies[..i])
    decreases |entries| - i
  {
    if i < |entries| {
      HeadersNext(entries, replies, i);
      HeadersErrorStays(entries, replies, i + 1);
    } else {
      assert entries[..i] == entries && replies[..i] == replies;
    }
  }

  lemma {:induction false} HeadersMeaning(entries: seq<Bytes>, replies: seq<Result<seq<Bytes>>>)
    requires |replies| == |entries| && HeadersOf(entries, replies).Ok?
    ensures |HeadersOf(entries, replies).value| == |entries|
    ensures forall i :: 0 <= i < |entries| ==> HeaderOf(entries[i], replies[i]) == Ok(HeadersOf(entries, replies).value[i])
    decreases |entries|
  {
    if entries != [] {
      HeadersMeaning(entries[..|entries| - 1], replies[..|entries| - 1]);
    }
  }

  /** If the second pass throws, some entry's metadata cannot be unpacked. */
  lemma {:induction false} HeadersFailAt(entries: seq<Bytes>, replies: seq<Result<seq<Bytes>>>) returns (i: nat)
    requires |replies| == |entries| && HeadersOf(entries, replies).Err?
    ensures i < |entries| && HeaderOf(entries[i], replies[i]).Err?
    decreases |entries|
  {
    var n := |entries| - 1;
    if HeadersOf(entries[..n], replies[..n]).Err? {
      i := HeadersFailAt(entries[..n], replies[..n]);
    } else {
      i := n;
    }
  }

  /** The second pass: the datasets without tensors, and the commands that fetch the tensors. */
  method ReadHeaders(entries: seq<Bytes>, replies: seq<Result<seq<Bytes>>>)
    returns (r: Result<seq<DataSet>>, tensorKeys: seq<Bytes>)
    requires |replies| == |entries|
    requires forall i :: 0 <= i < |replies| ==> ReplyFits(replies[i])
    ensures r == HeadersOf(entries, replies)
    ensures r.Ok? ==> |r.value| == |entries| && tensorKeys == FlatKeys(entries, r.value)
  {
    var datasets: seq<DataSet> := [];
    tensorKeys := [];
    for i := 0 to |entries|
      invariant |datasets| == i
      invariant HeadersOf(entries[..i], replies[..i]) == Ok(datasets)
      invariant tensorKeys == FlatKeys(entries[..i], datasets)
    {
      HeadersNext(entries, replies, i);
      var header := UnpackHeader(entries[i], replies[i]);
      if header.Err? {
        HeadersErrorStays(entries, replies, i + 1);
        return Err(header.error), tensorKeys;
      }
      tensorKeys := AppendTensorKeys(tensorKeys, entries[i], NamesIn(header.value));
      ghost var before := datasets;
      datasets := datasets + [header.value];
      assert datasets[..i] == before && entries[..i + 1][..i] == entries[..i];
    }
    assert entries[..|entries|] == entries && replies[..|entries|] == replies;
    return Ok(datasets), tensorKeys;
  }

  /** The inner loop of the third pass: the replies from the running index on become the
      tensors of one dataset. */
  method UnpackTensors(header: DataSet, names: seq<Bytes>, replies: seq<Result<Tensor>>, start: nat)
    returns (r: Result<DataSet>, tensorReplyIndex: nat)
    requires start + |names| <= |replies|
    ensures r == Assemble(header, names, replies[start..start + |names|])
    ensures r.Ok? ==> tensorReplyIndex == start + |names|
  {
    var dataset := header;
    tensorReplyIndex := start;
    ghost var mine := replies[start..start + |names|];
    for j := 0 to |names|
      invariant tensorReplyIndex == start + j
      invariant Assemble(header, names[..j], mine[..j]) == Ok(dataset)
    {
      AssembleNext(header, names, mine, j);
      var reply := replies[tensorReplyIndex];
      if reply.Err? {
        AssembleErrorStays(header, names, mine, j + 1);
        return Err(reply.error), tensorReplyIndex;
      }
      var added := AddToTensorpack(dataset, names[j], reply.value);
      if added.Err? {
        AssembleErrorStays(header, names, mine, j + 1);
        return Err(added.error), tensorReplyIndex;
      }
      dataset := added.value;
      tensorReplyIndex := tensorReplyIndex + 1;
    }
    assert names[..|names|] == names && mine[..|names|] == mine;
    return Ok(dataset), tensorReplyIndex;
  }

  /** Dataset `i` with its own replies added. */
  function Filled(headers: seq<DataSet>, replies: seq<Result<Tensor>>, i: nat): Result<DataSet>
    requires i < |headers| && |replies| == TensorCount(headers)
  {
    Assemble(headers[i], NamesIn(headers[i]), Own(headers, replies, i))
  }

  /** The third pass for dataset `i`. */
  method FillNext(headers: seq<DataSet>, replies: seq<Result<Tensor>>, i: nat, start: nat)
    returns (r: Result<DataSet>, tensorReplyIndex: nat)
    requires i < |headers| && |replies| == TensorCount(headers) && start == TensorCount(headers[..i])
    ensures r == Filled(headers, replies, i)
    ensures r.Ok? ==> tensorReplyIndex == TensorCount(headers[..i + 1])
  {
    CountNext(headers, i);
    CountPrefix(headers, i + 1);
    r, tensorReplyIndex := UnpackTensors(headers[i], NamesIn(headers[i]), replies, start);
  }

  /** The third pass: `tensor_reply_index` runs over all replies. */
  method AddAllTensors(headers: seq<DataSet>, replies: seq<Result<Tensor>>) returns (r: Result<seq<DataSet>>)
    requires |replies| == TensorCount(headers)
    ensures r.Err? ==> exists i :: 0 <= i < |headers| && Filled(headers, replies, i).Err?
    ensures r.Ok? ==> |r.value| == |headers|
    ensures r.Ok? ==> forall i :: 0 <= i < |headers| ==> Filled(headers, replies, i) == Ok(r.value[i])
  {
    var datasets := headers;
    var tensorReplyIndex := 0;
    for i := 0 to |headers|
      invariant |datasets| == |headers|
      invariant tensorReplyIndex == TensorCount(headers[..i])
      invariant forall k :: 0 <= k < i ==> Filled(headers, replies, k) == Ok(datasets[k])
    {
      var dataset;
      dataset, tensorReplyIndex := FillNext(headers, replies, i, tensorReplyIndex);
      if dataset.Err? {
        return Err(dataset.error);
      }
      datasets := datasets[i := dataset.value];
    }
    return Ok(datasets);
  }

  // ---------------------------------------------------------------------------------------
  // The whole read
  // ---------------------------------------------------------------------------------------

  /** Assembling an entry's own replies is reading the entry. */
  lemma AssembleReads(s: Store, t: Store, entry: Bytes, header: DataSet, replies: seq<Result<Tensor>>)
    requires ReadHeader(s, entry) == Ok(header)
    requires |replies| == |NamesIn(header)|
    requires forall k :: 0 <= k < |replies| ==> replies[k] == TensorGet(t, TensorKey(entry, NamesIn(header)[k]))
    ensures Assemble(header, NamesIn(header), replies).Ok? <==> ReadAcross(s, t, entry).Ok?
    ensures Assemble(header, NamesIn(header), replies).Ok? ==> Assemble(header, NamesIn(header), replies) == ReadAcross(s, t, entry)
  {
    var names := NamesIn(header);
    if forall k :: 0 <= k < |names| ==> replies[k].Ok? {
      var got := FetchTensors(t, entry, names).value;
      AssembleMeaning(header, names, replies, got);
    } else {
      var k :| 0 <= k < |names| && replies[k].Err?;
      AssembleNeedsAll(header, names, replies, k);
      assert TensorGet(t, TensorKey(entry, names[k])).Err?;
    }
  }

  /** What the first pipeline answers for one entry. */
  ghost predicate AnswersMetadata(s: Store, entry: Bytes, reply: Result<seq<Bytes>>) {
    match HGetAll(s, MetaKey(entry))
    case Err(e) => reply == Err(e)
    case Ok(h) => exists pairs :: IsListing(pairs, h) && reply == Ok(Flat(pairs))
  }

  lemma ListedHeader(s: Store, entry: Bytes, pairs: seq<(Bytes, Bytes)>)
    requires HGetAll(s, MetaKey(entry)).Ok? && UnpackReply(Flat(pairs)) == DecodeHash(HashAt(s, MetaKey(entry)))
    ensures HeaderOf(entry, Ok(Flat(pairs))) == ReadHeader(s, entry)
  {
  }

  lemma HeaderIsRead(s: Store, entry: Bytes, reply: Result<seq<Bytes>>)
    requires AnswersMetadata(s, entry, reply)
    ensures HeaderOf(entry, reply) == ReadHeader(s, entry)
  {
    if reply.Ok? {
      var pairs :| IsListing(pairs, HashAt(s, MetaKey(entry))) && reply == Ok(Flat(pairs));
      UnpackListing(pairs, HashAt(s, MetaKey(entry)));
      ListedHeader(s, entry, pairs);
    }
  }

  lemma AnswerFits(s: Store, entry: Bytes, reply: Result<seq<Bytes>>)
    requires FitsMemory(s) && AnswersMetadata(s, entry, reply)
    ensures ReplyFits(reply)
  {
    if reply.Ok? {
      var pairs :| IsListing(pairs, HashAt(s, MetaKey(entry))) && reply == Ok(Flat(pairs));
      FlatFits(s, MetaKey(entry), pairs);
    }
  }

  /** The first pipeline: reply i answers the HGETALL of entry i. */
  method MetadataReplies(s: Store, entries: seq<Bytes>) returns (replies: seq<Result<seq<Bytes>>>)
    ensures |replies| == |entries|
    ensures forall i :: 0 <= i < |entries| ==> AnswersMetadata(s, entries[i], replies[i])
  {
    replies := [];
    for i := 0 to |entries|
      invariant |replies| == i
      invariant forall k :: 0 <= k < i ==> AnswersMetadata(s, entries[k], replies[k])
    {
      var reply, pairs := HGetAllReply(s, MetaKey(entries[i]));
      assert AnswersMetadata(s, entries[i], reply);
      replies := replies + [reply];
    }
  }

  /** The second pipeline, from the contract of `run_via_unordered_pipelines`: reply i answers
      command i. */
  method TensorReplies(s: Store, keys: seq<Bytes>) returns (replies: seq<Result<Tensor>>)
    ensures |replies| == |keys|
    ensures forall i :: 0 <= i < |keys| ==> replies[i] == TensorGet(s, keys[i])
  {
    replies := seq(|keys|, i requires 0 <= i < |keys| => TensorGet(s, keys[i]));
  }

  /** Entry `i` on its own, in terms of the replies. */
  lemma EntryOfReplies(s: Store, t: Store, entries: seq<Bytes>, headers: seq<DataSet>, replies: seq<Result<Tensor>>, i: nat)
    requires |headers| == |entries| && i < |entries| && ReadHeader(s, entries[i]) == Ok(headers[i])
    requires |replies| == TensorCount(headers)
    requires forall k :: 0 <= k < |replies| ==> replies[k] == TensorGet(t, FlatKeys(entries, headers)[k])
    ensures Filled(headers, replies, i).Ok? <==> ReadAcross(s, t, entries[i]).Ok?
    ensures Filled(headers, replies, i).Ok? ==> Filled(headers, replies, i) == ReadAcross(s, t, entries[i])
  {
    OwnReplies(t, entries, headers, replies, i);
    AssembleReads(s, t, entries[i], headers[i], Own(headers, replies, i));
  }

  lemma OwnReplies(s: Store, entries: seq<Bytes>, headers: seq<DataSet>, replies: seq<Result<Tensor>>, i: nat)
    requires |headers| == |entries| && i < |entries| && |replies| == TensorCount(headers)
    requires forall k :: 0 <= k < |replies| ==> replies[k] == TensorGet(s, FlatKeys(entries, headers)[k])
    ensures var own, names := Own(headers, replies, i), NamesIn(headers[i]);
            forall j :: 0 <= j < |own| ==> own[j] == TensorGet(s, TensorKey(entries[i], names[j]))
  {
    forall j | 0 <= j < |NamesIn(headers[i])|
      ensures Own(headers, replies, i)[j] == TensorGet(s, TensorKey(entries[i], NamesIn(headers[i])[j]))
    {
      FlatKeyAt(entries, headers, i, j);
      OwnReply(headers, replies, i, j);
    }
  }

  lemma OwnReply(datasets: seq<DataSet>, replies: seq<Result<Tensor>>, i: nat, j: nat)
    requires i < |datasets| && |replies| == TensorCount(datasets) && j < |NamesIn(datasets[i])|
    ensures TensorCount(datasets[..i]) + j < |replies|
    ensures Own(datasets, replies, i)[j] == replies[TensorCount(datasets[..i]) + j]
  {
    CountNext(datasets, i);
    CountPrefix(datasets, i + 1);
  }

  lemma HeaderFails(s: Store, t: Store, entry: Bytes)
    requires ReadHeader(s, entry).Err?
    ensures ReadAcross(s, t, entry).Err?
  {
  }

  /** The pipelined read refines the simple one: it succeeds exactly when no entry is empty and
      every entry reads by itself, and result i is what entry i reads as, repeated entries
      included. The first pipeline is answered from the store `s`, the second from whatever
      store `t` other clients have made of it since. */
  method ReadList(s: Store, t: Store, entries: seq<Bytes>) returns (r: Result<seq<DataSet>>)
    requires FitsMemory(s)
    ensures r.Ok? ==> [] !in entries && |r.value| == |entries|
    ensures r.Ok? ==> forall i :: 0 <= i < |entries| ==> ReadAcross(s, t, entries[i]) == Ok(r.value[i])
    ensures r.Err? ==> [] in entries || exists i :: 0 <= i < |entries| && ReadAcross(s, t, entries[i]).Err?
  {
    var bad := HasEmptyEntry(entries);
    if bad {
      return Err(RuntimeError);
    }
    var metadataReplies := MetadataReplies(s, entries);
    forall i | 0 <= i < |entries|
      ensures ReplyFits(metadataReplies[i]) && HeaderOf(entries[i], metadataReplies[i]) == ReadHeader(s, entries[i])
    {
      HeaderIsRead(s, entries[i], metadataReplies[i]);
      AnswerFits(s, entries[i], metadataReplies[i]);
    }
    var headers, tensorKeys := ReadHeaders(entries, metadataReplies);
    if headers.Err? {
      ghost var i := HeadersFailAt(entries, metadataReplies);
      HeaderFails(s, t, entries[i]);
      return Err(headers.error);
    }
    HeadersMeaning(entries, metadataReplies);
    var tensorReplies := TensorReplies(t, tensorKeys);
    r := AddAllTensors(headers.value, tensorReplies);
    forall i | 0 <= i < |entries|
      ensures var filled := Filled(headers.value, tensorReplies, i);
              && (filled.Ok? <==> ReadAcross(s, t, entries[i]).Ok?)
              && (filled.Ok? ==> filled == ReadAcross(s, t, entries[i]))
    {
      assert HeaderOf(entries[i], metadataReplies[i]) == Ok(headers.value[i]);
      EntryOfReplies(s, t, entries, headers.value, tensorReplies, i);
    }
  }
}
