/** The command lists that place a dataset, state by state. */
module DatasetCommands {
  import opened Basics
  import opened Metadata
  import opened Keys
  import opened Store

  type Pairs = seq<(Bytes, Bytes)>
  type NamedTensors = seq<(Bytes, Tensor)>

  /** `_append_dataset_metadata_commands`. */
  function MetadataCommands(base: Bytes, pairs: Pairs): seq<Command> {
    [Del([MetaKey(base)]), HmSet(MetaKey(base), pairs)]
  }

  /** `_append_dataset_tensor_commands`. */
  function TensorCommands(base: Bytes, tensors: NamedTensors): seq<Command> {
    seq(|tensors|, i requires 0 <= i < |tensors| => TensorSet(TensorKey(base, tensors[i].0), tensors[i].1))
  }

  /** `_append_dataset_ack_command`. */
  function AckCommand(base: Bytes): Command {
    HSet(MetaKey(base), ACK_FIELD, ACK_VALUE)
  }

  /** What `put_dataset` sends, for the orders in which it iterates fields and tensors. */
  function PutCommands(base: Bytes, pairs: Pairs, tensors: NamedTensors): seq<Command> {
    MetadataCommands(base, pairs) + TensorCommands(base, tensors) + [AckCommand(base)]
  }

  /** What `copy_dataset` sends to the destination: the tensors come before the DEL. */
  function CopyCommands(base: Bytes, pairs: Pairs, tensors: NamedTensors): seq<Command> {
    TensorCommands(base, tensors) + MetadataCommands(base, pairs) + [AckCommand(base)]
  }

  /** Iteration orders for the parts of a dataset. */
  ghost predicate Orders(ds: DataSet, pairs: Pairs, tensors: NamedTensors) {
    IsListing(pairs, SerializeFields(ds.fields)) && IsListing(tensors, ds.tensors)
  }

  ghost predicate Acked(s: Store, base: Bytes) {
    ACK_FIELD in HashAt(s, MetaKey(base))
  }

  /** A tensor may be stored at an absent key or over a tensor. */
  predicate Settable(s: Store, key: Bytes) {
    key in s ==> s[key].TensorValue?
  }

  ghost predicate AllSettable(s: Store, base: Bytes, names: set<Bytes>) {
    forall t :: t in names ==> Settable(s, TensorKey(base, t))
  }

  /** The dataset is completely in the store: its fields, the acknowledgement, its tensors. */
  ghost predicate WhollyStored(s: Store, base: Bytes, ds: DataSet) {
    && Get(s, MetaKey(base)) == Some(HashValue(SerializeFields(ds.fields)[ACK_FIELD := ACK_VALUE]))
    && forall t :: t in ds.tensors ==> Get(s, TensorKey(base, t)) == Some(TensorValue(ds.tensors[t]))
  }

  ghost predicate UniqueNames(tensors: NamedTensors) {
    && (forall i, j :: 0 <= i < j < |tensors| ==> tensors[i].0 != tensors[j].0)
    && (forall i :: 0 <= i < |tensors| ==> tensors[i].0 != META_NAME)
  }

  /** What storing the first `k` tensors does to a store. */
  ghost predicate TensorsStored(s: Store, st: Store, base: Bytes, tensors: NamedTensors, k: nat)
    requires k <= |tensors|
  {
    && Get(st, MetaKey(base)) == Get(s, MetaKey(base))
    && (forall j :: 0 <= j < |tensors| ==>
          var key := TensorKey(base, tensors[j].0);
          Get(st, key) == if j < k && Settable(s, key) then Some(TensorValue(tensors[j].1)) else Get(s, key))
  }

  lemma {:induction false} AfterTensorCommands(s: Store, base: Bytes, tensors: NamedTensors, k: nat)
    requires k <= |tensors| && UniqueNames(tensors)
    ensures TensorsStored(s, Run(s, TensorCommands(base, tensors)[..k]), base, tensors, k)
  {
    var cmds := TensorCommands(base, tensors);
    if k > 0 {
      AfterTensorCommands(s, base, tensors, k - 1);
      RunNext(s, cmds, k - 1);
      MetaKeyApart(base, tensors[k - 1].0);
      forall j | 0 <= j < |tensors| && j != k - 1
        ensures TensorKey(base, tensors[j].0) != TensorKey(base, tensors[k - 1].0)
      {
        if TensorKey(base, tensors[j].0) == TensorKey(base, tensors[k - 1].0) {
          TensorKeyInjective(base, tensors[j].0, tensors[k - 1].0);
        }
      }
    }
  }

  /** DEL then HMSET: the metadata is gone after the first command and new after the second. */
  lemma AfterMetadataCommands(s: Store, base: Bytes, pairs: Pairs)
    ensures MetaKey(base) !in Run(s, MetadataCommands(base, pairs)[..1])
    ensures Get(Run(s, MetadataCommands(base, pairs)), MetaKey(base)) == Some(HashValue(PairsToMap(pairs)))
    ensures forall key :: key != MetaKey(base) ==>
              && Get(Run(s, MetadataCommands(base, pairs)[..1]), key) == Get(s, key)
              && Get(Run(s, MetadataCommands(base, pairs)), key) == Get(s, key)
  {
    var cmds := MetadataCommands(base, pairs);
    assert cmds[..0] == [] && cmds[..2] == cmds;
    RunNext(s, cmds, 0);
    RunNext(s, cmds, 1);
    var s1 := Run(s, cmds[..1]);
    assert s1 == Apply(s, Del([MetaKey(base)]));
    assert HashAt(s1, MetaKey(base)) == map[];
    assert map[] + PairsToMap(pairs) == PairsToMap(pairs);
  }

  lemma TakeFront<T>(a: seq<T>, b: seq<T>, i: nat)
    requires i <= |a|
    ensures (a + b)[..i] == a[..i]
    ensures i == |a| ==> a[..i] == a && (b != [] ==> (a + b)[i] == b[0])
  {
  }

  lemma RunSnoc(s: Store, cmds: seq<Command>, c: Command)
    ensures Run(s, cmds + [c]) == Apply(Run(s, cmds), c)
  {
    assert (cmds + [c])[..|cmds + [c]| - 1] == cmds;
  }

  lemma RunSplit(s: Store, a: seq<Command>, b: seq<Command>, i: nat)
    requires i <= |a + b|
    ensures Run(s, (a + b)[..i]) == if i <= |a| then Run(s, a[..i]) else Run(Run(s, a), b[..i - |a|])
  {
    if i <= |a| {
      assert (a + b)[..i] == a[..i];
    } else {
      assert (a + b)[..i] == a + b[..i - |a|];
      RunAppend(s, a, b[..i - |a|]);
    }
  }

  /** What the store `st` holds after the first `i` commands of a placement from `s`. */
  ghost predicate PutState(s: Store, st: Store, base: Bytes, pairs: Pairs, tensors: NamedTensors, i: nat) {
    && (i == 0 ==> st == s)
    && (i == 1 ==> MetaKey(base) !in st)
    && (2 <= i < |tensors| + 3 ==> Get(st, MetaKey(base)) == Some(HashValue(PairsToMap(pairs))))
    && (i == |tensors| + 3 ==> Get(st, MetaKey(base)) == Some(HashValue(PairsToMap(pairs)[ACK_FIELD := ACK_VALUE])))
    && (forall j :: 0 <= j < |tensors| ==>
          var key := TensorKey(base, tensors[j].0);
          Get(st, key) == if j + 2 < i && Settable(s, key) then Some(TensorValue(tensors[j].1)) else Get(s, key))
  }

  lemma PutStatesBeforeAck(s: Store, base: Bytes, pairs: Pairs, tensors: NamedTensors, i: nat)
    requires UniqueNames(tensors) && i <= |tensors| + 2
    ensures PutState(s, Run(s, (MetadataCommands(base, pairs) + TensorCommands(base, tensors))[..i]), base, pairs, tensors, i)
  {
    var m, t := MetadataCommands(base, pairs), TensorCommands(base, tensors);
    forall j | 0 <= j < |tensors| ensures TensorKey(base, tensors[j].0) != MetaKey(base) {
      MetaKeyApart(base, tensors[j].0);
    }
    AfterMetadataCommands(s, base, pairs);
    RunSplit(s, m, t, i);
    assert m[..2] == m && m[..0] == [];
    if i > 2 {
      AfterTensorCommands(Run(s, m), base, tensors, i - 2);
    }
  }

  lemma PutStateAck(s: Store, st: Store, base: Bytes, pairs: Pairs, tensors: NamedTensors)
    requires UniqueNames(tensors) && PutState(s, st, base, pairs, tensors, |tensors| + 2)
    ensures PutState(s, Apply(st, AckCommand(base)), base, pairs, tensors, |tensors| + 3)
  {
    var after := Apply(st, AckCommand(base));
    forall key | key != MetaKey(base) ensures Get(after, key) == Get(st, key) {
      ApplyFrame(st, AckCommand(base), key);
    }
    forall j | 0 <= j < |tensors| ensures TensorKey(base, tensors[j].0) != MetaKey(base) {
      MetaKeyApart(base, tensors[j].0);
    }
  }

  lemma PutFinalState(s: Store, base: Bytes, pairs: Pairs, tensors: NamedTensors)
    requires UniqueNames(tensors)
    ensures PutState(s, Run(s, PutCommands(base, pairs, tensors)), base, pairs, tensors, |tensors| + 3)
  {
    var front := MetadataCommands(base, pairs) + TensorCommands(base, tensors);
    RunSnoc(s, front, AckCommand(base));
    TakeFront(front, [], |tensors| + 2);
    PutStatesBeforeAck(s, base, pairs, tensors, |tensors| + 2);
    PutStateAck(s, Run(s, front), base, pairs, tensors);
  }

  /** The three parts of `put_dataset`, command by command. */
  lemma PutStates(s: Store, base: Bytes, pairs: Pairs, tensors: NamedTensors, i: nat)
    requires UniqueNames(tensors) && i <= |tensors| + 3
    ensures |PutCommands(base, pairs, tensors)| == |tensors| + 3
    ensures PutState(s, Run(s, PutCommands(base, pairs, tensors)[..i]), base, pairs, tensors, i)
  {
    var cmds := PutCommands(base, pairs, tensors);
    if i < |cmds| {
      TakeFront(MetadataCommands(base, pairs) + TensorCommands(base, tensors), [AckCommand(base)], i);
      PutStatesBeforeAck(s, base, pairs, tensors, i);
    } else {
      assert cmds[..i] == cmds;
      PutFinalState(s, base, pairs, tensors);
    }
  }

  lemma PutFrame(s: Store, base: Bytes, pairs: Pairs, tensors: NamedTensors, key: Bytes)
    requires key != MetaKey(base)
    requires forall i :: 0 <= i < |tensors| ==> key != TensorKey(base, tensors[i].0)
    ensures Get(Run(s, PutCommands(base, pairs, tensors)), key) == Get(s, key)
    ensures Get(Run(s, CopyCommands(base, pairs, tensors)), key) == Get(s, key)
  {
    RunFrame(s, PutCommands(base, pairs, tensors), key);
    RunFrame(s, CopyCommands(base, pairs, tensors), key);
  }

  lemma ListedNames(ds: DataSet, pairs: Pairs, tensors: NamedTensors)
    requires Orders(ds, pairs, tensors) && META_NAME !in ds.tensors
    ensures UniqueNames(tensors)
    ensures PairsToMap(pairs) == SerializeFields(ds.fields)
  {
    ListingToMap(pairs, SerializeFields(ds.fields));
  }

  /** A finished placement stores the whole dataset and changes no other key, in whatever
      order fields and tensors were sent. */
  lemma PutStores(s: Store, base: Bytes, ds: DataSet, pairs: Pairs, tensors: NamedTensors)
    requires Orders(ds, pairs, tensors) && META_NAME !in ds.tensors
    requires AllSettable(s, base, ds.tensors.Keys)
    ensures WhollyStored(Run(s, PutCommands(base, pairs, tensors)), base, ds)
    ensures forall key :: key != MetaKey(base) && (forall t :: t in ds.tensors ==> key != TensorKey(base, t)) ==>
              Get(Run(s, PutCommands(base, pairs, tensors)), key) == Get(s, key)
  {
    var cmds := PutCommands(base, pairs, tensors);
    ListedNames(ds, pairs, tensors);
    PutStates(s, base, pairs, tensors, |tensors| + 3);
    assert cmds[..|tensors| + 3] == cmds;
    forall t | t in ds.tensors
      ensures Get(Run(s, cmds), TensorKey(base, t)) == Some(TensorValue(ds.tensors[t]))
    {
      var j :| 0 <= j < |tensors| && tensors[j].0 == t;
      assert Settable(s, TensorKey(base, t));
    }
    forall key | key != MetaKey(base) && (forall t :: t in ds.tensors ==> key != TensorKey(base, t))
      ensures Get(Run(s, cmds), key) == Get(s, key)
    {
      PutFrame(s, base, pairs, tensors, key);
    }
  }

  /** What a wholly stored dataset looks like in the server, key by key and field by field. */
  lemma StoredLayout(s: Store, base: Bytes, ds: DataSet)
    ensures WhollyStored(s, base, ds) <==>
            var key := base + Ascii(".meta");
            && key in s && s[key].HashValue?
            && (forall f :: f in s[key].hash <==> f == Ascii(".COMPLETE") || f in ds.fields)
            && s[key].hash[Ascii(".COMPLETE")] == Ascii("1")
            && (forall f :: f in ds.fields && f != Ascii(".COMPLETE") ==> s[key].hash[f] == SerializeField(ds.fields[f]))
            && (forall t :: t in ds.tensors ==> Get(s, base + Ascii(".") + t) == Some(TensorValue(ds.tensors[t])))
  {
    var key, h := MetaKey(base), SerializeFields(ds.fields)[ACK_FIELD := ACK_VALUE];
    assert forall t: Bytes :: TensorKey(base, t) == base + Ascii(".") + t;
    if key in s && s[key].HashValue? && (forall f :: f in s[key].hash <==> f in h) && (forall f :: f in h ==> s[key].hash[f] == h[f]) {
      assert s[key].hash == h;
    }
  }

  lemma PutFailsAt(s: Store, base: Bytes, pairs: Pairs, tensors: NamedTensors, i: nat)
    requires UniqueNames(tensors) && i < |tensors| + 3
    ensures |PutCommands(base, pairs, tensors)| == |tensors| + 3
    ensures Fails(Run(s, PutCommands(base, pairs, tensors)[..i]), PutCommands(base, pairs, tensors)[i]) <==>
            2 <= i < |tensors| + 2 && !Settable(s, TensorKey(base, tensors[i - 2].0))
  {
    var cmds := PutCommands(base, pairs, tensors);
    PutStates(s, base, pairs, tensors, i);
    var st := Run(s, cmds[..i]);
    if 2 <= i < |tensors| + 2 {
      assert cmds[i] == TensorCommands(base, tensors)[i - 2];
      var key := TensorKey(base, tensors[i - 2].0);
      assert Get(st, key) == Get(s, key);
    } else if i == 0 {
      assert cmds[i] == Del([MetaKey(base)]);
    } else if i == 1 {
      assert cmds[i] == HmSet(MetaKey(base), pairs);
    } else {
      assert cmds[i] == AckCommand(base);
      assert Get(st, MetaKey(base)) == Some(HashValue(PairsToMap(pairs)));
    }
  }

  /** Once the metadata is a hash, no tensor command changes it, not even one for a tensor
      called "meta". */
  lemma {:induction false} MetadataStays(s: Store, base: Bytes, tensors: NamedTensors, k: nat)
    requires MetaKey(base) in s && s[MetaKey(base)].HashValue? && k <= |tensors|
    ensures Get(Run(s, TensorCommands(base, tensors)[..k]), MetaKey(base)) == Get(s, MetaKey(base))
  {
    if k > 0 {
      MetadataStays(s, base, tensors, k - 1);
      RunNext(s, TensorCommands(base, tensors), k - 1);
    }
  }

  lemma MetadataBeforeAck(s: Store, base: Bytes, pairs: Pairs, tensors: NamedTensors, i: nat)
    requires 0 < i <= |tensors| + 2
    ensures |MetadataCommands(base, pairs) + TensorCommands(base, tensors)| == |tensors| + 2
    ensures Get(Run(s, (MetadataCommands(base, pairs) + TensorCommands(base, tensors))[..i]), MetaKey(base)) ==
            if i == 1 then None else Some(HashValue(PairsToMap(pairs)))
  {
    var m, t := MetadataCommands(base, pairs), TensorCommands(base, tensors);
    AfterMetadataCommands(s, base, pairs);
    RunSplit(s, m, t, i);
    if i >= 2 {
      assert m[..2] == m;
      assert i == 2 ==> t[..0] == [];
      MetadataStays(Run(s, m), base, tensors, i - 2);
    }
  }

  /** The metadata key during a placement, whatever the tensors are called. */
  lemma PutMetadataStates(s: Store, base: Bytes, pairs: Pairs, tensors: NamedTensors, i: nat)
    requires 0 < i <= |tensors| + 3
    ensures |PutCommands(base, pairs, tensors)| == |tensors| + 3
    ensures Get(Run(s, PutCommands(base, pairs, tensors)[..i]), MetaKey(base)) ==
            if i == 1 then None
            else if i < |tensors| + 3 then Some(HashValue(PairsToMap(pairs)))
            else Some(HashValue(PairsToMap(pairs)[ACK_FIELD := ACK_VALUE]))
  {
    var cmds, mt, n := PutCommands(base, pairs, tensors), MetadataCommands(base, pairs) + TensorCommands(base, tensors), |tensors|;
    if i < n + 3 {
      MetadataBeforeAck(s, base, pairs, tensors, i);
      assert cmds[..i] == mt[..i];
    } else {
      MetadataBeforeAck(s, base, pairs, tensors, n + 2);
      assert cmds[..n + 2] == mt[..n + 2];
      assert cmds[n + 2] == AckCommand(base);
      RunNext(s, cmds, n + 2);
    }
  }

  lemma MetaTensorFails(s: Store, base: Bytes, pairs: Pairs, tensors: NamedTensors, j: nat)
    requires j < |tensors| && tensors[j].0 == META_NAME
    ensures SomeFails(s, PutCommands(base, pairs, tensors))
  {
    var cmds := PutCommands(base, pairs, tensors);
    PutMetadataStates(s, base, pairs, tensors, j + 2);
    MetaKeyIsTensorKey(base);
    assert cmds[j + 2] == TensorCommands(base, tensors)[j];
    assert Fails(Run(s, cmds[..j + 2]), cmds[j + 2]);
  }

  /** A placement is answered with an error exactly when some tensor key holds something that
      is not a tensor, or a tensor is called "meta". */
  lemma PutFailsIff(s: Store, base: Bytes, ds: DataSet, pairs: Pairs, tensors: NamedTensors)
    requires Orders(ds, pairs, tensors) && ds.fields != map[]
    ensures SomeFails(s, PutCommands(base, pairs, tensors)) <==> !AllSettable(s, base, ds.tensors.Keys) || META_NAME in ds.tensors
  {
    if META_NAME in ds.tensors {
      var j :| 0 <= j < |tensors| && tensors[j].0 == META_NAME;
      MetaTensorFails(s, base, pairs, tensors, j);
    } else {
      ListedNames(ds, pairs, tensors);
      if AllSettable(s, base, ds.tensors.Keys) {
        forall i | 0 <= i < |PutCommands(base, pairs, tensors)|
          ensures !Fails(Run(s, PutCommands(base, pairs, tensors)[..i]), PutCommands(base, pairs, tensors)[i])
        {
          PutFailsAt(s, base, pairs, tensors, i);
          if 2 <= i < |tensors| + 2 {
            assert tensors[i - 2].0 in ds.tensors.Keys;
          }
        }
      } else {
        var t :| t in ds.tensors.Keys && !Settable(s, TensorKey(base, t));
        var j :| 0 <= j < |tensors| && tensors[j].0 == t;
        PutFailsAt(s, base, pairs, tensors, j + 2);
      }
    }
  }

  /** The pipeline runs to its end all the same: the acknowledgement is set even when the call
      throws. */
  lemma PutAcksAnyway(s: Store, base: Bytes, ds: DataSet, pairs: Pairs, tensors: NamedTensors)
    requires Orders(ds, pairs, tensors) && ds.fields != map[]
    ensures Acked(Run(s, PutCommands(base, pairs, tensors)), base)
  {
    var cmds := PutCommands(base, pairs, tensors);
    PutMetadataStates(s, base, pairs, tensors, |tensors| + 3);
    assert cmds[..|cmds|] == cmds;
  }

  lemma PutLeavesTaken(s: Store, base: Bytes, ds: DataSet, pairs: Pairs, tensors: NamedTensors, t: Bytes)
    requires Orders(ds, pairs, tensors) && META_NAME !in ds.tensors
    requires t in ds.tensors && !Settable(s, TensorKey(base, t))
    ensures Get(Run(s, PutCommands(base, pairs, tensors)), TensorKey(base, t)) == Get(s, TensorKey(base, t))
  {
    ListedNames(ds, pairs, tensors);
    PutFinalState(s, base, pairs, tensors);
    var j :| 0 <= j < |tensors| && tensors[j].0 == t;
  }

  /** When the acknowledgement of a finished placement is truthful: exactly when every tensor
      key was free for a tensor and no tensor is called "meta", which is exactly when the call
      does not throw. */
  lemma PutWholeIff(s: Store, base: Bytes, ds: DataSet, pairs: Pairs, tensors: NamedTensors)
    requires Orders(ds, pairs, tensors) && ds.fields != map[]
    ensures WhollyStored(Run(s, PutCommands(base, pairs, tensors)), base, ds) <==>
            AllSettable(s, base, ds.tensors.Keys) && META_NAME !in ds.tensors
    ensures WhollyStored(Run(s, PutCommands(base, pairs, tensors)), base, ds) <==> !SomeFails(s, PutCommands(base, pairs, tensors))
  {
    PutFailsIff(s, base, ds, pairs, tensors);
    if META_NAME in ds.tensors {
      MetaKeyIsTensorKey(base);
    } else if AllSettable(s, base, ds.tensors.Keys) {
      PutStores(s, base, ds, pairs, tensors);
    } else {
      var t :| t in ds.tensors.Keys && !Settable(s, TensorKey(base, t));
      PutLeavesTaken(s, base, ds, pairs, tensors, t);
    }
  }

  /** Once the first command has run, an acknowledgement shows after the last command only. */
  lemma PutAckComesLast(s: Store, base: Bytes, ds: DataSet, pairs: Pairs, tensors: NamedTensors, i: nat)
    requires Orders(ds, pairs, tensors) && ds.fields != map[] && ACK_FIELD !in ds.fields
    requires 0 < i <= |PutCommands(base, pairs, tensors)|
    ensures Acked(Run(s, PutCommands(base, pairs, tensors)[..i]), base) <==> i == |PutCommands(base, pairs, tensors)|
  {
    ListingToMap(pairs, SerializeFields(ds.fields));
    PutMetadataStates(s, base, pairs, tensors, i);
  }

  /** Overwriting: from the first command on, an acknowledgement means the whole new dataset
      exactly when every tensor could be stored. */
  lemma PutAckDiscipline(s: Store, base: Bytes, ds: DataSet, pairs: Pairs, tensors: NamedTensors)
    requires Orders(ds, pairs, tensors) && ds.fields != map[] && ACK_FIELD !in ds.fields
    ensures (forall i :: 0 < i <= |PutCommands(base, pairs, tensors)| && Acked(Run(s, PutCommands(base, pairs, tensors)[..i]), base) ==>
               WhollyStored(Run(s, PutCommands(base, pairs, tensors)[..i]), base, ds))
            <==> AllSettable(s, base, ds.tensors.Keys) && META_NAME !in ds.tensors
  {
    var cmds := PutCommands(base, pairs, tensors);
    PutWholeIff(s, base, ds, pairs, tensors);
    assert cmds[..|cmds|] == cmds;
    forall i | 0 < i <= |cmds| ensures Acked(Run(s, cmds[..i]), base) <==> i == |cmds| {
      PutAckComesLast(s, base, ds, pairs, tensors, i);
    }
  }

  // ---------------------------------------------------------------------------------------
  // Copying over an existing dataset
  // ---------------------------------------------------------------------------------------

  /** What the store `st` holds after the first `i` commands of a copy from `s`. */
  ghost predicate CopyState(s: Store, st: Store, base: Bytes, pairs: Pairs, tensors: NamedTensors, i: nat) {
    && (i <= |tensors| ==> Get(st, MetaKey(base)) == Get(s, MetaKey(base)))
    && (i == |tensors| + 1 ==> MetaKey(base) !in st)
    && (i == |tensors| + 2 ==> Get(st, MetaKey(base)) == Some(HashValue(PairsToMap(pairs))))
    && (i == |tensors| + 3 ==> Get(st, MetaKey(base)) == Some(HashValue(PairsToMap(pairs)[ACK_FIELD := ACK_VALUE])))
    && (forall j :: 0 <= j < |tensors| ==>
          var key := TensorKey(base, tensors[j].0);
          Get(st, key) == if j < i && Settable(s, key) then Some(TensorValue(tensors[j].1)) else Get(s, key))
  }

  lemma CopyStatesBeforeAck(s: Store, base: Bytes, pairs: Pairs, tensors: NamedTensors, i: nat)
    requires UniqueNames(tensors) && i <= |tensors| + 2
    ensures CopyState(s, Run(s, (TensorCommands(base, tensors) + MetadataCommands(base, pairs))[..i]), base, pairs, tensors, i)
  {
    var t, m, n := TensorCommands(base, tensors), MetadataCommands(base, pairs), |tensors|;
    forall j | 0 <= j < n ensures TensorKey(base, tensors[j].0) != MetaKey(base) {
      MetaKeyApart(base, tensors[j].0);
    }
    RunSplit(s, t, m, i);
    AfterTensorCommands(s, base, tensors, if i <= n then i else n);
    if i > n {
      assert t[..n] == t && m[..2] == m;
      AfterMetadataCommands(Run(s, t), base, pairs);
    }
  }

  lemma CopyStateAck(s: Store, st: Store, base: Bytes, pairs: Pairs, tensors: NamedTensors)
    requires UniqueNames(tensors) && CopyState(s, st, base, pairs, tensors, |tensors| + 2)
    ensures CopyState(s, Apply(st, AckCommand(base)), base, pairs, tensors, |tensors| + 3)
  {
    var after := Apply(st, AckCommand(base));
    forall key | key != MetaKey(base) ensures Get(after, key) == Get(st, key) {
      ApplyFrame(st, AckCommand(base), key);
    }
    forall j | 0 <= j < |tensors| ensures TensorKey(base, tensors[j].0) != MetaKey(base) {
      MetaKeyApart(base, tensors[j].0);
    }
  }

  lemma CopyFinalState(s: Store, base: Bytes, pairs: Pairs, tensors: NamedTensors)
    requires UniqueNames(tensors)
    ensures CopyState(s, Run(s, CopyCommands(base, pairs, tensors)), base, pairs, tensors, |tensors| + 3)
  {
    var front := TensorCommands(base, tensors) + MetadataCommands(base, pairs);
    RunSnoc(s, front, AckCommand(base));
    TakeFront(front, [], |tensors| + 2);
    CopyStatesBeforeAck(s, base, pairs, tensors, |tensors| + 2);
    CopyStateAck(s, Run(s, front), base, pairs, tensors);
  }

  lemma CopyStates(s: Store, base: Bytes, pairs: Pairs, tensors: NamedTensors, i: nat)
    requires UniqueNames(tensors) && i <= |tensors| + 3
    ensures |CopyCommands(base, pairs, tensors)| == |tensors| + 3
    ensures CopyState(s, Run(s, CopyCommands(base, pairs, tensors)[..i]), base, pairs, tensors, i)
  {
    var cmds := CopyCommands(base, pairs, tensors);
    if i < |cmds| {
      TakeFront(TensorCommands(base, tensors) + MetadataCommands(base, pairs), [AckCommand(base)], i);
      CopyStatesBeforeAck(s, base, pairs, tensors, i);
    } else {
      assert cmds[..i] == cmds;
      CopyFinalState(s, base, pairs, tensors);
    }
  }

  lemma CopyStores(s: Store, base: Bytes, ds: DataSet, pairs: Pairs, tensors: NamedTensors)
    requires Orders(ds, pairs, tensors) && META_NAME !in ds.tensors
    requires AllSettable(s, base, ds.tensors.Keys)
    ensures WhollyStored(Run(s, CopyCommands(base, pairs, tensors)), base, ds)
  {
    var cmds := CopyCommands(base, pairs, tensors);
    ListedNames(ds, pairs, tensors);
    CopyStates(s, base, pairs, tensors, |tensors| + 3);
    assert cmds[..|tensors| + 3] == cmds;
    forall t | t in ds.tensors
      ensures Get(Run(s, cmds), TensorKey(base, t)) == Some(TensorValue(ds.tensors[t]))
    {
      var j :| 0 <= j < |tensors| && tensors[j].0 == t;
      assert Settable(s, TensorKey(base, t));
    }
  }

  lemma CopyFailsAt(s: Store, base: Bytes, pairs: Pairs, tensors: NamedTensors, i: nat)
    requires UniqueNames(tensors) && i < |tensors| + 3
    ensures |CopyCommands(base, pairs, tensors)| == |tensors| + 3
    ensures Fails(Run(s, CopyCommands(base, pairs, tensors)[..i]), CopyCommands(base, pairs, tensors)[i]) <==>
            i < |tensors| && !Settable(s, TensorKey(base, tensors[i].0))
  {
    var cmds, n := CopyCommands(base, pairs, tensors), |tensors|;
    CopyStates(s, base, pairs, tensors, i);
    var st := Run(s, cmds[..i]);
    if i < n {
      assert cmds[i] == TensorCommands(base, tensors)[i];
      var key := TensorKey(base, tensors[i].0);
      assert Get(st, key) == Get(s, key);
    } else if i == n {
      assert cmds[i] == Del([MetaKey(base)]);
    } else if i == n + 1 {
      assert cmds[i] == HmSet(MetaKey(base), pairs);
    } else {
      assert cmds[i] == AckCommand(base);
      assert Get(st, MetaKey(base)) == Some(HashValue(PairsToMap(pairs)));
    }
  }

  /** A copy that has sent all its tensors found all their keys free. */
  lemma CopiedAllSettable(s: Store, base: Bytes, ds: DataSet, pairs: Pairs, tensors: NamedTensors, i: nat)
    requires Orders(ds, pairs, tensors) && META_NAME !in ds.tensors
    requires |tensors| <= i <= |CopyCommands(base, pairs, tensors)|
    requires forall k :: 0 <= k < i ==> !Fails(Run(s, CopyCommands(base, pairs, tensors)[..k]), CopyCommands(base, pairs, tensors)[k])
    ensures AllSettable(s, base, ds.tensors.Keys)
  {
    ListedNames(ds, pairs, tensors);
    forall t | t in ds.tensors.Keys ensures Settable(s, TensorKey(base, t)) {
      var j :| 0 <= j < |tensors| && tensors[j].0 == t;
      CopyFailsAt(s, base, pairs, tensors, j);
    }
  }

  /** Copying to a destination without an acknowledgement: none appears before the copy is
      wholly stored. A copy stops at the first command that fails. */
  lemma CopyAckDiscipline(s: Store, base: Bytes, ds: DataSet, pairs: Pairs, tensors: NamedTensors, i: nat)
    requires Orders(ds, pairs, tensors) && META_NAME !in ds.tensors && ACK_FIELD !in ds.fields
    requires i <= |CopyCommands(base, pairs, tensors)|
    requires forall k :: 0 <= k < i ==> !Fails(Run(s, CopyCommands(base, pairs, tensors)[..k]), CopyCommands(base, pairs, tensors)[k])
    requires !Acked(s, base)
    requires Acked(Run(s, CopyCommands(base, pairs, tensors)[..i]), base)
    ensures i == |CopyCommands(base, pairs, tensors)|
    ensures WhollyStored(Run(s, CopyCommands(base, pairs, tensors)[..i]), base, ds)
  {
    ListedNames(ds, pairs, tensors);
    CopyStates(s, base, pairs, tensors, i);
    var cmds := CopyCommands(base, pairs, tensors);
    assert cmds[..i] == cmds;
    CopiedAllSettable(s, base, ds, pairs, tensors, i);
    CopyStores(s, base, ds, pairs, tensors);
  }

  /** Copying over a complete dataset `old`: the acknowledgement of `old` stays truthful at
      every point before the end exactly when each copied tensor that shares its name with a
      tensor of `old` is equal to it. */
  lemma CopyOverExisting(s: Store, base: Bytes, old': DataSet, ds: DataSet, pairs: Pairs, tensors: NamedTensors)
    requires Orders(ds, pairs, tensors) && META_NAME !in ds.tensors && ACK_FIELD !in ds.fields
    requires META_NAME !in old'.tensors && WhollyStored(s, base, old')
    requires AllSettable(s, base, ds.tensors.Keys)
    ensures (forall i :: 0 <= i < |CopyCommands(base, pairs, tensors)| && Acked(Run(s, CopyCommands(base, pairs, tensors)[..i]), base) ==>
               WhollyStored(Run(s, CopyCommands(base, pairs, tensors)[..i]), base, old'))
            <==> (forall t :: t in ds.tensors && t in old'.tensors ==> ds.tensors[t] == old'.tensors[t])
  {
    var cmds, n := CopyCommands(base, pairs, tensors), |tensors|;
    ListedNames(ds, pairs, tensors);
    CopyStates(s, base, pairs, tensors, n);
    if forall t :: t in ds.tensors && t in old'.tensors ==> ds.tensors[t] == old'.tensors[t] {
      forall i | 0 <= i < n + 3 && Acked(Run(s, cmds[..i]), base)
        ensures WhollyStored(Run(s, cmds[..i]), base, old')
      {
        CopyKeepsOld(s, base, old', ds, pairs, tensors, i);
      }
    } else {
      var t :| t in ds.tensors && t in old'.tensors && ds.tensors[t] != old'.tensors[t];
      CopyBreaksOld(s, base, old', ds, pairs, tensors, t);
    }
  }

  lemma CopyBreaksOld(s: Store, base: Bytes, old': DataSet, ds: DataSet, pairs: Pairs, tensors: NamedTensors, t: Bytes)
    requires Orders(ds, pairs, tensors) && META_NAME !in ds.tensors
    requires WhollyStored(s, base, old') && AllSettable(s, base, ds.tensors.Keys)
    requires t in ds.tensors && t in old'.tensors && ds.tensors[t] != old'.tensors[t]
    ensures |tensors| < |CopyCommands(base, pairs, tensors)|
    ensures Acked(Run(s, CopyCommands(base, pairs, tensors)[..|tensors|]), base)
    ensures !WhollyStored(Run(s, CopyCommands(base, pairs, tensors)[..|tensors|]), base, old')
  {
    ListedNames(ds, pairs, tensors);
    CopyStates(s, base, pairs, tensors, |tensors|);
    var st := Run(s, CopyCommands(base, pairs, tensors)[..|tensors|]);
    var j :| 0 <= j < |tensors| && tensors[j].0 == t;
    assert Settable(s, TensorKey(base, t));
    assert Get(st, TensorKey(base, t)) == Some(TensorValue(ds.tensors[t]));
    assert Get(st, MetaKey(base)) == Get(s, MetaKey(base));
  }

  lemma CopyKeepsOld(s: Store, base: Bytes, old': DataSet, ds: DataSet, pairs: Pairs, tensors: NamedTensors, i: nat)
    requires Orders(ds, pairs, tensors) && META_NAME !in ds.tensors && ACK_FIELD !in ds.fields
    requires META_NAME !in old'.tensors && WhollyStored(s, base, old')
    requires forall t :: t in ds.tensors && t in old'.tensors ==> ds.tensors[t] == old'.tensors[t]
    requires i < |CopyCommands(base, pairs, tensors)|
    requires Acked(Run(s, CopyCommands(base, pairs, tensors)[..i]), base)
    ensures WhollyStored(Run(s, CopyCommands(base, pairs, tensors)[..i]), base, old')
  {
    var cmds, n := CopyCommands(base, pairs, tensors), |tensors|;
    ListedNames(ds, pairs, tensors);
    CopyStates(s, base, pairs, tensors, i);
    var st := Run(s, cmds[..i]);
    assert i <= n;
    forall t | t in old'.tensors
      ensures Get(st, TensorKey(base, t)) == Some(TensorValue(old'.tensors[t]))
    {
      if t in ds.tensors {
        var j :| 0 <= j < n && tensors[j].0 == t;
      } else {
        MetaKeyApart(base, t);
        forall k | 0 <= k < i ensures !Touches(cmds[..i][k], TensorKey(base, t)) {
          assert cmds[k] == TensorCommands(base, tensors)[k];
          if TensorKey(base, tensors[k].0) == TensorKey(base, t) {
            TensorKeyInjective(base, tensors[k].0, t);
          }
        }
        RunFrame(s, cmds[..i], TensorKey(base, t));
      }
    }
  }
}
