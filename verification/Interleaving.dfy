/** One writer placing a dataset, by `put_dataset` or as the destination of `copy_dataset`, one
    reader polling for it and then reading it, and any other clients, all interleaved command by
    command on one store. */
module Interleaving {
  import opened Basics
  import opened Metadata
  import opened Keys
  import opened Store
  import opened DatasetCommands
  import opened DatasetReads

  /** Where the reader is in `poll_dataset` followed by `get_dataset`. */
  datatype Reader =
    | Polling
    | PollFailed(error: Error)
    | Acknowledged
    | Fetching(fields: Fields, names: seq<Bytes>, got: seq<Tensor>)
    | Done(result: Result<DataSet>)

  datatype System = System(store: Store, sent: nat, reader: Reader)

  /** The dataset being placed, the key it resolves to for writer and reader alike, and the
      orders in which the writer iterates its fields and tensors. A copying writer sends what
      it has read from its source. */
  datatype Scenario = Scenario(initial: Store, base: Bytes, dataset: DataSet, pairs: Pairs, tensors: NamedTensors, copying: bool)

  function WriterCommands(base: Bytes, pairs: Pairs, tensors: NamedTensors, copying: bool): seq<Command> {
    if copying then CopyCommands(base, pairs, tensors) else PutCommands(base, pairs, tensors)
  }

  function Commands(sc: Scenario): seq<Command> {
    WriterCommands(sc.base, sc.pairs, sc.tensors, sc.copying)
  }

  ghost predicate ValidScenario(sc: Scenario) {
    WellFormed(sc.dataset) && Orders(sc.dataset, sc.pairs, sc.tensors)
  }

  /** What makes the guarantee hold, all of it visible at the start: no acknowledgement, and for
      a placement no other type at a tensor key. */
  ghost predicate StartsClear(sc: Scenario) {
    && !Acked(sc.initial, sc.base)
    && (sc.copying || AllSettable(sc.initial, sc.base, sc.dataset.tensors.Keys))
  }

  /** The metadata key holds something a poll cannot ask. */
  ghost predicate MetadataTaken(s: Store, base: Bytes) {
    MetaKey(base) in s && !s[MetaKey(base)].HashValue?
  }

  function Start(sc: Scenario): System {
    System(sc.initial, 0, Polling)
  }

  // ---------------------------------------------------------------------------------------
  // Steps
  // ---------------------------------------------------------------------------------------

  /** The writer's next command takes effect. A placement is one pipeline and goes on after a
      command that fails; a copy stops there. */
  ghost predicate WriterStep(sc: Scenario, a: System, b: System) {
    && a.sent < |Commands(sc)|
    && (sc.copying ==> !Fails(a.store, Commands(sc)[a.sent]))
    && b == a.(store := Apply(a.store, Commands(sc)[a.sent]), sent := a.sent + 1)
  }

  /** A command that leaves the keys of the dataset alone. */
  ghost predicate Foreign(c: Command, base: Bytes) {
    forall key :: Touches(c, key) ==> !InSpace(key, base)
  }

  /** Any command of any other client takes effect. */
  ghost predicate OtherStep(sc: Scenario, a: System, b: System) {
    exists c :: Foreign(c, sc.base) && b == a.(store := Apply(a.store, c))
  }

  /** One try of `poll_dataset`, which throws on an error reply. */
  function AfterPoll(sc: Scenario, a: System): Reader {
    match HExists(a.store, MetaKey(sc.base), ACK_FIELD)
    case Err(e) => PollFailed(e)
    case Ok(found) => if found then Acknowledged else Polling
  }

  /** HGETALL has replied and the reply has been unpacked. */
  function AfterMetadata(sc: Scenario, reply: seq<Bytes>): Reader {
    if |reply| == 0 then Done(Err(KeyError))
    else match UnpackReply(reply)
      case Err(e) => Done(Err(e))
      case Ok(fields) =>
        match TensorNames(fields)
        case Err(e) => Done(Err(e))
        case Ok(names) => Fetching(fields, names, [])
  }

  ghost predicate MetadataStep(sc: Scenario, a: System, b: System) {
    match HGetAll(a.store, MetaKey(sc.base))
    case Err(e) => b == a.(reader := Done(Err(e)))
    case Ok(h) => exists pairs :: IsListing(pairs, h) && b == a.(reader := AfterMetadata(sc, Flat(pairs)))
  }

  /** The next tensor of the read pipeline is answered, or all have been and the dataset is
      assembled. */
  function AfterTensor(sc: Scenario, a: System): Reader
    requires a.reader.Fetching?
  {
    var r := a.reader;
    if |r.got| < |r.names| then
      match TensorGet(a.store, TensorKey(sc.base, r.names[|r.got|]))
      case Err(e) => Done(Err(e))
      case Ok(t) => r.(got := r.got + [t])
    else if |r.got| == |r.names| then
      match AddTensors(r.names, r.got)
      case Err(e) => Done(Err(e))
      case Ok(pack) => Done(Ok(DataSet(sc.dataset.name, r.fields, pack)))
    else r
  }

  ghost predicate ReaderStep(sc: Scenario, a: System, b: System) {
    match a.reader
    case Polling => b == a.(reader := AfterPoll(sc, a))
    case Acknowledged => MetadataStep(sc, a, b)
    case Fetching(_, _, _) => b == a.(reader := AfterTensor(sc, a))
    case PollFailed(_) => false
    case Done(_) => false
  }

  /** The poll has found the acknowledgement. */
  predicate PastPoll(r: Reader) {
    !r.Polling? && !r.PollFailed?
  }

  ghost predicate Step(sc: Scenario, a: System, b: System) {
    WriterStep(sc, a, b) || OtherStep(sc, a, b) || ReaderStep(sc, a, b)
  }

  ghost predicate IsRun(sc: Scenario, run: seq<System>) {
    && |run| > 0
    && run[0] == Start(sc)
    && forall i :: 0 <= i < |run| - 1 ==> Step(sc, run[i], run[i + 1])
  }

  // ---------------------------------------------------------------------------------------
  // Other datasets are foreign
  // ---------------------------------------------------------------------------------------

  /** For prefixes without an opening brace, whatever a client does to the keys of another
      dataset is a foreign command exactly when the two datasets are not entangled. */
  lemma OtherDatasetIsForeignIff(p: Bytes, n: Bytes, q: Bytes, m: Bytes)
    requires OPEN !in p && OPEN !in q
    ensures (forall c :: StaysIn(c, DatasetKey(q, m)) ==> Foreign(c, DatasetKey(p, n))) <==> !Entangled(p, n, q, m)
  {
    var a, b := DatasetKey(p, n), DatasetKey(q, m);
    SpacesApartIff(p, n, q, m);
    if Entangled(p, n, q, m) {
      var key :| InSpace(key, a) && InSpace(key, b);
      var c := Del([key]);
      assert Touches(c, key);
      assert StaysIn(c, b) && !Foreign(c, a);
    }
  }

  ghost predicate StaysIn(c: Command, base: Bytes) {
    forall key :: Touches(c, key) ==> InSpace(key, base)
  }

  /** In particular every command of another dataset's placement or copy. */
  lemma OtherWriterIsForeign(p: Bytes, n: Bytes, q: Bytes, m: Bytes, pairs: Pairs, tensors: NamedTensors, copying: bool, i: nat)
    requires OPEN !in p && OPEN !in q && !Entangled(p, n, q, m)
    requires i < |WriterCommands(DatasetKey(q, m), pairs, tensors, copying)|
    ensures Foreign(WriterCommands(DatasetKey(q, m), pairs, tensors, copying)[i], DatasetKey(p, n))
  {
    var base := DatasetKey(q, m);
    var c := WriterCommands(base, pairs, tensors, copying)[i];
    forall key | Touches(c, key) ensures InSpace(key, base) {
      WriterCommandInSpace(base, pairs, tensors, copying, i, key);
    }
    OtherDatasetIsForeignIff(p, n, q, m);
    assert StaysIn(c, base);
  }

  // ---------------------------------------------------------------------------------------
  // The invariant
  // ---------------------------------------------------------------------------------------

  /** Two stores hold the same at every key of the dataset. */
  ghost predicate AgreeOn(s: Store, t: Store, base: Bytes) {
    forall key :: InSpace(key, base) ==> Get(s, key) == Get(t, key)
  }

  /** A command on two agreeing stores leaves them in agreement. */
  lemma ApplyAgrees(s: Store, t: Store, base: Bytes, c: Command)
    requires AgreeOn(s, t, base)
    requires forall key :: Touches(c, key) ==> InSpace(key, base)
    ensures AgreeOn(Apply(s, c), Apply(t, c), base)
  {
    forall key | InSpace(key, base) ensures Get(Apply(s, c), key) == Get(Apply(t, c), key) {
      assert Get(s, key) == Get(t, key);
      if !c.Del? && key == c.key {
        assert Touches(c, key);
      }
    }
  }

  lemma WriterCommandInSpace(base: Bytes, pairs: Pairs, tensors: NamedTensors, copying: bool, i: nat, key: Bytes)
    requires i < |WriterCommands(base, pairs, tensors, copying)|
    requires Touches(WriterCommands(base, pairs, tensors, copying)[i], key)
    ensures InSpace(key, base)
  {
    MetaKeyInSpace(base);
    var n := |tensors|;
    if !copying && 2 <= i < n + 2 {
      TensorKeyInSpace(base, tensors[i - 2].0);
    } else if copying && i < n {
      TensorKeyInSpace(base, tensors[i].0);
    }
  }

  /** All commands together store the dataset. */
  lemma WriterStores(sc: Scenario)
    requires ValidScenario(sc) && AllSettable(sc.initial, sc.base, sc.dataset.tensors.Keys)
    ensures WhollyStored(Run(sc.initial, Commands(sc)), sc.base, sc.dataset)
  {
    if sc.copying {
      CopyStores(sc.initial, sc.base, sc.dataset, sc.pairs, sc.tensors);
    } else {
      PutStores(sc.initial, sc.base, sc.dataset, sc.pairs, sc.tensors);
    }
  }

  /** On its own the writer shows an acknowledgement after its last command only. */
  lemma AckComesLast(sc: Scenario, i: nat)
    requires ValidScenario(sc) && StartsClear(sc) && i <= |Commands(sc)|
    ensures HExists(Run(sc.initial, Commands(sc)[..i]), MetaKey(sc.base), ACK_FIELD) == Ok(true) <==> i == |Commands(sc)|
  {
    ListedNames(sc.dataset, sc.pairs, sc.tensors);
    if sc.copying {
      CopyStates(sc.initial, sc.base, sc.pairs, sc.tensors, i);
      var st := Run(sc.initial, Commands(sc)[..i]);
      if i <= |sc.tensors| {
        assert Get(st, MetaKey(sc.base)) == Get(sc.initial, MetaKey(sc.base));
      }
    } else {
      PutStates(sc.initial, sc.base, sc.pairs, sc.tensors, i);
    }
  }

  /** At one point of every placement and every copy there is no metadata. */
  lemma MetadataGone(sc: Scenario) returns (k: nat)
    requires ValidScenario(sc)
    ensures k <= |Commands(sc)| && MetaKey(sc.base) !in Run(sc.initial, Commands(sc)[..k])
  {
    ListedNames(sc.dataset, sc.pairs, sc.tensors);
    if sc.copying {
      k := |sc.tensors| + 1;
      CopyStates(sc.initial, sc.base, sc.pairs, sc.tensors, k);
    } else {
      k := 1;
      PutStates(sc.initial, sc.base, sc.pairs, sc.tensors, k);
    }
  }

  /** None of the first `n` commands fails. */
  ghost predicate NoneFailed(s: Store, cmds: seq<Command>, n: nat)
    requires n <= |cmds|
  {
    forall k :: 0 <= k < n ==> !Fails(Run(s, cmds[..k]), cmds[k])
  }

  /** The keys of the dataset hold exactly what the commands sent so far put there, and a
      copying writer has had no failure. */
  ghost predicate StoreInvariant(sc: Scenario, a: System) {
    && a.sent <= |Commands(sc)|
    && AgreeOn(a.store, Run(sc.initial, Commands(sc)[..a.sent]), sc.base)
    && (sc.copying ==> NoneFailed(sc.initial, Commands(sc), a.sent))
  }

  /** A command fails on both of two agreeing stores or on neither. */
  lemma FailsAgrees(s: Store, t: Store, base: Bytes, c: Command)
    requires AgreeOn(s, t, base) && forall key :: Touches(c, key) ==> InSpace(key, base)
    ensures Fails(s, c) <==> Fails(t, c)
  {
    if !c.Del? {
      assert Touches(c, c.key);
      assert Get(s, c.key) == Get(t, c.key);
    }
  }

  ghost predicate GotTensors(sc: Scenario, names: seq<Bytes>, got: seq<Tensor>) {
    && |got| <= |names|
    && forall i :: 0 <= i < |got| ==> names[i] in sc.dataset.tensors && got[i] == sc.dataset.tensors[names[i]]
  }

  /** A reader past its poll has seen the last command, and holds parts of this dataset only. */
  ghost predicate ReaderInvariant(sc: Scenario, a: System) {
    && (PastPoll(a.reader) ==> a.sent == |Commands(sc)|)
    && (a.reader.Fetching? ==>
          && a.reader.fields == sc.dataset.fields
          && TensorNames(sc.dataset.fields) == Ok(a.reader.names)
          && GotTensors(sc, a.reader.names, a.reader.got))
    && (a.reader.Done? ==> a.reader.result == Ok(sc.dataset))
  }

  lemma WriterKeepsStore(sc: Scenario, a: System, b: System)
    requires StoreInvariant(sc, a) && WriterStep(sc, a, b)
    ensures StoreInvariant(sc, b)
  {
    var cmds := Commands(sc);
    var alone := Run(sc.initial, cmds[..a.sent]);
    forall key | Touches(cmds[a.sent], key) ensures InSpace(key, sc.base) {
      WriterCommandInSpace(sc.base, sc.pairs, sc.tensors, sc.copying, a.sent, key);
    }
    ApplyAgrees(a.store, alone, sc.base, cmds[a.sent]);
    FailsAgrees(a.store, alone, sc.base, cmds[a.sent]);
    RunNext(sc.initial, cmds, a.sent);
    if sc.copying {
      NoneFailedNext(sc.initial, cmds, a.sent);
    }
  }

  lemma NoneFailedNext(s: Store, cmds: seq<Command>, n: nat)
    requires n < |cmds| && NoneFailed(s, cmds, n) && !Fails(Run(s, cmds[..n]), cmds[n])
    ensures NoneFailed(s, cmds, n + 1)
  {
  }

  lemma OthersKeepStore(sc: Scenario, a: System, b: System)
    requires StoreInvariant(sc, a) && OtherStep(sc, a, b)
    ensures StoreInvariant(sc, b)
  {
    var c :| Foreign(c, sc.base) && b == a.(store := Apply(a.store, c));
    forall key | InSpace(key, sc.base) ensures Get(b.store, key) == Get(a.store, key) {
      ApplyFrame(a.store, c, key);
    }
  }

  lemma StoreInvariantStep(sc: Scenario, a: System, b: System)
    requires StoreInvariant(sc, a) && Step(sc, a, b)
    ensures StoreInvariant(sc, b)
  {
    if WriterStep(sc, a, b) {
      WriterKeepsStore(sc, a, b);
    } else if OtherStep(sc, a, b) {
      OthersKeepStore(sc, a, b);
    }
  }

  /** The acknowledgement is visible only after the last command. */
  lemma AckMeansSent(sc: Scenario, a: System)
    requires ValidScenario(sc) && StartsClear(sc)
    requires StoreInvariant(sc, a)
    ensures HExists(a.store, MetaKey(sc.base), ACK_FIELD) == Ok(true) <==> a.sent == |Commands(sc)|
    ensures a.sent == |Commands(sc)| ==> WhollyStored(a.store, sc.base, sc.dataset)
  {
    var cmds := Commands(sc);
    var st := Run(sc.initial, cmds[..a.sent]);
    AckComesLast(sc, a.sent);
    MetaKeyInSpace(sc.base);
    assert Get(a.store, MetaKey(sc.base)) == Get(st, MetaKey(sc.base));
    if a.sent == |cmds| {
      assert cmds[..a.sent] == cmds;
      if sc.copying {
        CopiedAllSettable(sc.initial, sc.base, sc.dataset, sc.pairs, sc.tensors, a.sent);
      }
      WriterStores(sc);
      forall t | t in sc.dataset.tensors
        ensures Get(a.store, TensorKey(sc.base, t)) == Some(TensorValue(sc.dataset.tensors[t]))
      {
        TensorKeyInSpace(sc.base, t);
        assert Get(a.store, TensorKey(sc.base, t)) == Get(st, TensorKey(sc.base, t));
      }
    }
  }

  /** The metadata reply of the wholly stored dataset, in any order. */
  lemma MetadataOfStored(sc: Scenario, s: Store, base: Bytes, ds: DataSet, pairs: Pairs)
    requires WellFormed(ds) && WhollyStored(s, base, ds)
    requires IsListing(pairs, HashAt(s, MetaKey(base)))
    ensures AfterMetadata(sc, Flat(pairs)) == Fetching(ds.fields, TensorNames(ds.fields).value, [])
  {
    var h := HashAt(s, MetaKey(base));
    UnpackListing(pairs, h);
    HashRoundTrip(ds.fields);
    assert ACK_FIELD in h;
    assert pairs != [];
  }

  /** A reader told of the acknowledgement unpacks the metadata of this dataset. */
  lemma MetadataStepKeeps(sc: Scenario, a: System, b: System)
    requires ValidScenario(sc) && StartsClear(sc)
    requires StoreInvariant(sc, a) && ReaderInvariant(sc, a)
    requires a.reader.Acknowledged? && MetadataStep(sc, a, b)
    ensures ReaderInvariant(sc, b)
  {
    AckMeansSent(sc, a);
    var h := HGetAll(a.store, MetaKey(sc.base)).value;
    var pairs :| IsListing(pairs, h) && b == a.(reader := AfterMetadata(sc, Flat(pairs)));
    MetadataOfStored(sc, a.store, sc.base, sc.dataset, pairs);
  }

  /** A reader that collects tensors gets those of this dataset. */
  lemma NextTensorIsOurs(sc: Scenario, a: System)
    requires ValidScenario(sc) && StartsClear(sc)
    requires StoreInvariant(sc, a) && ReaderInvariant(sc, a)
    requires a.reader.Fetching? && |a.reader.got| < |a.reader.names|
    ensures var t := a.reader.names[|a.reader.got|];
            t in sc.dataset.tensors && TensorGet(a.store, TensorKey(sc.base, t)) == Ok(sc.dataset.tensors[t])
  {
    AckMeansSent(sc, a);
    assert a.reader.names[|a.reader.got|] in sc.dataset.tensors;
  }

  /** The steps of a collecting reader. */
  lemma TensorStepKeeps(sc: Scenario, a: System, b: System)
    requires ValidScenario(sc) && StartsClear(sc)
    requires StoreInvariant(sc, a) && ReaderInvariant(sc, a)
    requires a.reader.Fetching? && b == a.(reader := AfterTensor(sc, a))
    ensures ReaderInvariant(sc, b)
  {
    if |a.reader.got| < |a.reader.names| {
      NextTensorIsOurs(sc, a);
    } else {
      Assembled(sc.dataset, a.reader.names, a.reader.got);
    }
  }

  lemma Assembled(ds: DataSet, names: seq<Bytes>, got: seq<Tensor>)
    requires WellFormed(ds) && TensorNames(ds.fields) == Ok(names) && |got| == |names|
    requires forall i :: 0 <= i < |got| ==> names[i] in ds.tensors && got[i] == ds.tensors[names[i]]
    ensures AddTensors(names, got) == Ok(ds.tensors)
  {
    assert forall t :: t in names <==> t in ds.tensors;
    AddOwnTensors(names, got, ds.tensors);
  }

  lemma ReaderInvariantStep(sc: Scenario, a: System, b: System)
    requires ValidScenario(sc) && StartsClear(sc)
    requires StoreInvariant(sc, a) && ReaderInvariant(sc, a) && Step(sc, a, b)
    ensures ReaderInvariant(sc, b)
  {
    if !WriterStep(sc, a, b) && !OtherStep(sc, a, b) {
      match a.reader
      case Polling => AckMeansSent(sc, a);
      case Acknowledged => MetadataStepKeeps(sc, a, b);
      case Fetching(_, _, _) => TensorStepKeeps(sc, a, b);
      case PollFailed(_) =>
      case Done(_) =>
    }
  }

  lemma StartInvariant(sc: Scenario)
    ensures StoreInvariant(sc, Start(sc)) && ReaderInvariant(sc, Start(sc))
  {
    assert Commands(sc)[..0] == [];
  }

  lemma InvariantStep(sc: Scenario, a: System, b: System)
    requires ValidScenario(sc) && StartsClear(sc)
    requires StoreInvariant(sc, a) && ReaderInvariant(sc, a) && Step(sc, a, b)
    ensures StoreInvariant(sc, b) && ReaderInvariant(sc, b)
  {
    StoreInvariantStep(sc, a, b);
    ReaderInvariantStep(sc, a, b);
  }

  lemma {:induction false} Invariant(sc: Scenario, run: seq<System>, i: nat)
    requires ValidScenario(sc) && StartsClear(sc)
    requires IsRun(sc, run) && i < |run|
    ensures StoreInvariant(sc, run[i]) && ReaderInvariant(sc, run[i])
  {
    if i == 0 {
      StartInvariant(sc);
    } else {
      Invariant(sc, run, i - 1);
      RunStep(sc, run, i - 1);
      InvariantStep(sc, run[i - 1], run[i]);
    }
  }

  lemma RunStep(sc: Scenario, run: seq<System>, i: nat)
    requires IsRun(sc, run) && i < |run| - 1
    ensures Step(sc, run[i], run[i + 1])
  {
  }

  /** Safety: from a clear start, a reader whose poll succeeds reads exactly the dataset placed,
      in every interleaving with the writer and with any foreign commands. */
  lemma ReaderSeesWholeDataset(sc: Scenario, run: seq<System>, i: nat)
    requires ValidScenario(sc) && StartsClear(sc)
    requires IsRun(sc, run) && i < |run|
    ensures run[i].reader.Done? ==> run[i].reader.result == Ok(sc.dataset)
    ensures PastPoll(run[i].reader) ==> run[i].sent == |Commands(sc)| && WhollyStored(run[i].store, sc.base, sc.dataset)
  {
    Invariant(sc, run, i);
    AckMeansSent(sc, run[i]);
  }

  // ---------------------------------------------------------------------------------------
  // Reading while overwriting
  // ---------------------------------------------------------------------------------------

  ghost predicate Reaches(sc: Scenario, a: System, b: System) {
    exists run: seq<System> :: IsPath(sc, run, a, b)
  }

  ghost predicate IsPath(sc: Scenario, run: seq<System>, a: System, b: System) {
    && |run| > 0 && run[0] == a && run[|run| - 1] == b
    && forall i :: 0 <= i < |run| - 1 ==> Step(sc, run[i], run[i + 1])
  }

  lemma ReachesSelf(sc: Scenario, a: System)
    ensures Reaches(sc, a, a)
  {
    assert IsPath(sc, [a], a, a);
  }

  lemma ReachesStep(sc: Scenario, a: System, b: System, c: System)
    requires Reaches(sc, a, b) && Step(sc, b, c)
    ensures Reaches(sc, a, c)
  {
    var run :| IsPath(sc, run, a, b);
    var longer := run + [c];
    forall i | 0 <= i < |longer| - 1 ensures Step(sc, longer[i], longer[i + 1]) {
      if i < |run| - 1 { assert Step(sc, run[i], run[i + 1]); }
    }
    assert IsPath(sc, longer, a, c);
  }

  lemma ReachesReader(sc: Scenario, a: System, b: System, reader: Reader)
    requires Reaches(sc, a, b) && ReaderStep(sc, b, b.(reader := reader))
    ensures Reaches(sc, a, b.(reader := reader))
  {
    ReachesStep(sc, a, b, b.(reader := reader));
  }

  /** A copying writer is not stopped when all tensor keys are free. */
  lemma WriterGoesOn(sc: Scenario, k: nat)
    requires ValidScenario(sc) && k < |Commands(sc)|
    requires sc.copying ==> AllSettable(sc.initial, sc.base, sc.dataset.tensors.Keys)
    ensures sc.copying ==> !Fails(Run(sc.initial, Commands(sc)[..k]), Commands(sc)[k])
  {
    if sc.copying {
      ListedNames(sc.dataset, sc.pairs, sc.tensors);
      CopyFailsAt(sc.initial, sc.base, sc.pairs, sc.tensors, k);
      if k < |sc.tensors| {
        assert sc.tensors[k].0 in sc.dataset.tensors.Keys;
      }
    }
  }

  /** The writer runs on undisturbed. */
  lemma {:induction false} WriterRuns(sc: Scenario, a: System, reader: Reader, k: nat)
    requires ValidScenario(sc) && k <= |Commands(sc)|
    requires sc.copying ==> AllSettable(sc.initial, sc.base, sc.dataset.tensors.Keys)
    requires Reaches(sc, a, System(sc.initial, 0, reader))
    ensures Reaches(sc, a, System(Run(sc.initial, Commands(sc)[..k]), k, reader))
  {
    if k == 0 {
      assert Commands(sc)[..0] == [];
    } else {
      WriterRuns(sc, a, reader, k - 1);
      WriterGoesOn(sc, k - 1);
      RunNext(sc.initial, Commands(sc), k - 1);
      var b := System(Run(sc.initial, Commands(sc)[..k - 1]), k - 1, reader);
      var c := System(Run(sc.initial, Commands(sc)[..k]), k, reader);
      assert WriterStep(sc, b, c);
      ReachesStep(sc, a, b, c);
    }
  }

  /** The tensors that the store has under the first `k` names. */
  ghost predicate Fetched(s: Store, base: Bytes, names: seq<Bytes>, got: seq<Tensor>, k: nat) {
    k <= |names| && k == |got| && forall i :: 0 <= i < k ==> TensorGet(s, TensorKey(base, names[i])) == Ok(got[i])
  }

  /** The reader fetches the first `k` tensors from an unchanging store. */
  lemma {:induction false} ReaderFetches(sc: Scenario, a: System, s: Store, n: nat, fields: Fields, names: seq<Bytes>, got: seq<Tensor>, k: nat)
    requires Fetched(s, sc.base, names, got, k)
    requires Reaches(sc, a, System(s, n, Fetching(fields, names, [])))
    ensures Reaches(sc, a, System(s, n, Fetching(fields, names, got)))
  {
    if k == 0 {
      assert got == [];
    } else {
      ReaderFetches(sc, a, s, n, fields, names, got[..k - 1], k - 1);
      var b := System(s, n, Fetching(fields, names, got[..k - 1]));
      assert got == got[..k - 1] + [got[k - 1]];
      assert AfterTensor(sc, b) == Fetching(fields, names, got);
      ReachesReader(sc, a, b, Fetching(fields, names, got));
    }
  }

  /** How far a fetch gets: to the end or to the first name without a tensor. */
  lemma {:induction false} FirstUnreadable(s: Store, base: Bytes, names: seq<Bytes>, n: nat) returns (got: seq<Tensor>)
    requires n <= |names|
    ensures Fetched(s, base, names, got, |got|) && |got| <= n
    ensures |got| < n ==> TensorGet(s, TensorKey(base, names[|got|])).Err?
  {
    if n == 0 {
      got := [];
    } else {
      got := FirstUnreadable(s, base, names, n - 1);
      if |got| == n - 1 && TensorGet(s, TensorKey(base, names[n - 1])).Ok? {
        got := got + [TensorGet(s, TensorKey(base, names[n - 1])).value];
      }
    }
  }

  /** A reader that holds a list of names and is left alone ends as the plain read of these
      tensors does. */
  lemma ReaderCollects(sc: Scenario, a: System, s: Store, n: nat, fields: Fields, names: seq<Bytes>)
    requires TensorNames(fields) == Ok(names)
    requires Reaches(sc, a, System(s, n, Fetching(fields, names, [])))
    ensures Reaches(sc, a, System(s, n, Done(ReadTensors(s, sc.base, sc.dataset.name, fields))))
  {
    var got := FirstUnreadable(s, sc.base, names, |names|);
    ReaderFetches(sc, a, s, n, fields, names, got, |got|);
    var b := System(s, n, Fetching(fields, names, got));
    var result := ReadTensors(s, sc.base, sc.dataset.name, fields);
    if |got| < |names| {
      assert TensorGet(s, TensorKey(sc.base, names[|got|])) == Err(RuntimeError);
      assert FetchTensors(s, sc.base, names) == Err(RuntimeError);
    } else {
      assert FetchTensors(s, sc.base, names).value == got;
    }
    assert AfterTensor(sc, b) == Done(result);
    ReachesReader(sc, a, b, Done(result));
  }

  /** A reader that finds an acknowledgement unpacks the metadata it then gets. */
  lemma ReaderUnpacks(sc: Scenario, a: System, s: Store, n: nat, pairs: Pairs)
    requires Acked(s, sc.base) && Reaches(sc, a, System(s, n, Polling))
    requires IsListing(pairs, HashAt(s, MetaKey(sc.base)))
    ensures Reaches(sc, a, System(s, n, AfterMetadata(sc, Flat(pairs))))
  {
    var b, next := System(s, n, Acknowledged), AfterMetadata(sc, Flat(pairs));
    assert AfterPoll(sc, System(s, n, Polling)) == Acknowledged;
    ReachesReader(sc, a, System(s, n, Polling), Acknowledged);
    assert HGetAll(s, MetaKey(sc.base)) == Ok(HashAt(s, MetaKey(sc.base)));
    assert MetadataStep(sc, b, b.(reader := next));
    ReachesReader(sc, a, b, next);
  }

  /** What unpacking leads to is what the plain read does with the hash. */
  lemma UnpackedIsRead(sc: Scenario, s: Store, pairs: Pairs)
    requires Acked(s, sc.base) && IsListing(pairs, HashAt(s, MetaKey(sc.base)))
    ensures match AfterMetadata(sc, Flat(pairs))
            case Fetching(fields, names, got) =>
              got == [] && TensorNames(fields) == Ok(names)
              && ReadDataset(s, sc.base, sc.dataset.name) == ReadTensors(s, sc.base, sc.dataset.name, fields)
            case Done(result) => result == ReadDataset(s, sc.base, sc.dataset.name)
            case _ => false
  {
    var h := HashAt(s, MetaKey(sc.base));
    UnpackListing(pairs, h);
    ListingEmpty(pairs, h);
    assert ACK_FIELD in h;
  }

  /** A reader that finds an acknowledgement and is left alone ends as the plain read does: the
      step-by-step reader refines `ReadDataset`. */
  lemma ReaderAlone(sc: Scenario, a: System, s: Store, n: nat)
    requires Acked(s, sc.base) && Reaches(sc, a, System(s, n, Polling))
    ensures Reaches(sc, a, System(s, n, Done(ReadDataset(s, sc.base, sc.dataset.name))))
  {
    var pairs := ListingExists(HashAt(s, MetaKey(sc.base)));
    ReaderUnpacks(sc, a, s, n, pairs);
    UnpackedIsRead(sc, s, pairs);
    var next := AfterMetadata(sc, Flat(pairs));
    if next.Fetching? {
      ReaderCollects(sc, a, s, n, next.fields, next.names);
    }
  }

  /** The start condition is needed: over any complete older dataset with the same tensor names,
      a reader can return the old fields with the new tensors. */
  lemma TornRead(sc: Scenario, old': DataSet)
    requires ValidScenario(sc)
    requires WellFormed(old') && WhollyStored(sc.initial, sc.base, old')
    requires old'.tensors.Keys == sc.dataset.tensors.Keys
    ensures exists b :: Reaches(sc, Start(sc), b)
                     && b.reader == Done(Ok(DataSet(sc.dataset.name, old'.fields, sc.dataset.tensors)))
  {
    var a, cmds, names := Start(sc), Commands(sc), TensorNames(old'.fields).value;
    OldTensorsSettable(sc, old');
    ReachesSelf(sc, a);
    ReaderReadsMetadata(sc, a, old');
    WriterRuns(sc, a, Fetching(old'.fields, names, []), |cmds|);
    assert cmds[..|cmds|] == cmds;
    WriterStores(sc);
    ReaderCollects(sc, a, Run(sc.initial, cmds), |cmds|, old'.fields, names);
    forall t ensures t in names <==> t in sc.dataset.tensors {
      assert t in old'.tensors.Keys <==> t in sc.dataset.tensors.Keys;
    }
    TornTensors(sc, Run(sc.initial, cmds), old', names);
  }

  lemma OldTensorsSettable(sc: Scenario, old': DataSet)
    requires WhollyStored(sc.initial, sc.base, old') && old'.tensors.Keys == sc.dataset.tensors.Keys
    ensures AllSettable(sc.initial, sc.base, sc.dataset.tensors.Keys)
  {
    forall t | t in sc.dataset.tensors.Keys ensures Settable(sc.initial, TensorKey(sc.base, t)) {
      assert t in old'.tensors.Keys;
    }
  }

  /** A reader that finds a complete dataset at the start polls and reads its metadata. */
  lemma ReaderReadsMetadata(sc: Scenario, a: System, ds: DataSet)
    requires WellFormed(ds) && WhollyStored(sc.initial, sc.base, ds) && Reaches(sc, a, Start(sc))
    ensures Reaches(sc, a, System(sc.initial, 0, Fetching(ds.fields, TensorNames(ds.fields).value, [])))
  {
    var pairs := ListingExists(HashAt(sc.initial, MetaKey(sc.base)));
    ReaderUnpacks(sc, a, sc.initial, 0, pairs);
    MetadataOfStored(sc, sc.initial, sc.base, ds, pairs);
  }

  lemma TornTensors(sc: Scenario, s: Store, old': DataSet, names: seq<Bytes>)
    requires WellFormed(sc.dataset) && WhollyStored(s, sc.base, sc.dataset)
    requires TensorNames(old'.fields) == Ok(names) && Distinct(names) && forall t :: t in names <==> t in sc.dataset.tensors
    ensures ReadTensors(s, sc.base, sc.dataset.name, old'.fields) == Ok(DataSet(sc.dataset.name, old'.fields, sc.dataset.tensors))
  {
    forall i | 0 <= i < |names| ensures TensorGet(s, TensorKey(sc.base, names[i])) == Ok(sc.dataset.tensors[names[i]]) {
      assert names[i] in sc.dataset.tensors;
    }
    AddOwnTensors(names, FetchTensors(s, sc.base, names).value, sc.dataset.tensors);
  }

  // ---------------------------------------------------------------------------------------
  // A tensor that cannot be stored
  // ---------------------------------------------------------------------------------------

  /** The key of tensor `t` holds something else, and the reader has no such tensor. */
  ghost predicate Lacks(sc: Scenario, a: System, t: Bytes) {
    && !Settable(a.store, TensorKey(sc.base, t))
    && (a.reader.Fetching? ==> t !in a.reader.names[..Min(|a.reader.got|, |a.reader.names|)] && |a.reader.got| <= |a.reader.names|)
    && (a.reader.Done? && a.reader.result.Ok? ==> t !in a.reader.result.value.tensors)
  }

  lemma LacksStep(sc: Scenario, a: System, b: System, t: Bytes)
    requires Lacks(sc, a, t) && Step(sc, a, b) && t != META_NAME
    ensures Lacks(sc, b, t)
  {
    var key := TensorKey(sc.base, t);
    if WriterStep(sc, a, b) {
      MetaKeyApart(sc.base, t);
      StaysUnsettable(sc, a.store, a.sent, key);
    } else if OtherStep(sc, a, b) {
      var c :| Foreign(c, sc.base) && b == a.(store := Apply(a.store, c));
      TensorKeyInSpace(sc.base, t);
      ApplyFrame(a.store, c, key);
      assert Get(b.store, key) == Get(a.store, key);
    } else if a.reader.Acknowledged? {
    } else if a.reader.Fetching? {
      LacksTensor(sc, a, t);
    }
  }

  lemma StaysUnsettable(sc: Scenario, s: Store, i: nat, key: Bytes)
    requires i < |Commands(sc)| && !Settable(s, key) && key != MetaKey(sc.base)
    ensures !Settable(Apply(s, Commands(sc)[i]), key)
  {
    var c, n := Commands(sc)[i], |sc.tensors|;
    assert c == Del([MetaKey(sc.base)]) || c == HmSet(MetaKey(sc.base), sc.pairs) || c == AckCommand(sc.base) || c.TensorSet?;
  }

  lemma LacksTensor(sc: Scenario, a: System, t: Bytes)
    requires Lacks(sc, a, t) && a.reader.Fetching?
    ensures Lacks(sc, a.(reader := AfterTensor(sc, a)), t)
  {
    var r := a.reader;
    var n := |r.got|;
    if n < |r.names| {
      assert r.names[..n + 1] == r.names[..n] + [r.names[n]];
    } else {
      assert r.names[..n] == r.names;
      if AddTensors(r.names, r.got).Ok? {
        AddTensorsMeaning(r.names, r.got);
      }
    }
  }

  lemma {:induction false} LacksAlways(sc: Scenario, run: seq<System>, i: nat, t: Bytes)
    requires i < |run| && Lacks(sc, run[0], t) && t != META_NAME
    requires forall k :: 0 <= k < |run| - 1 ==> Step(sc, run[k], run[k + 1])
    ensures Lacks(sc, run[i], t)
  {
    if i > 0 {
      LacksAlways(sc, run, i - 1, t);
      assert Step(sc, run[i - 1], run[i]);
      LacksStep(sc, run[i - 1], run[i], t);
    }
  }

  /** If some tensor key is taken by another type, no run reads the dataset. */
  lemma NeverRead(sc: Scenario, b: System)
    requires ValidScenario(sc) && !AllSettable(sc.initial, sc.base, sc.dataset.tensors.Keys)
    requires Reaches(sc, Start(sc), b)
    ensures b.reader != Done(Ok(sc.dataset))
  {
    var t :| t in sc.dataset.tensors.Keys && !Settable(sc.initial, TensorKey(sc.base, t));
    var run: seq<System> :| IsPath(sc, run, Start(sc), b);
    LacksAlways(sc, run, |run| - 1, t);
  }

  /** Progress: some run ends with the reader holding the dataset, whatever was there before,
      exactly when no tensor key is taken by another type. */
  lemma ReaderCanFinishIff(sc: Scenario)
    requires ValidScenario(sc)
    ensures (exists b :: Reaches(sc, Start(sc), b) && b.reader == Done(Ok(sc.dataset)))
            <==> AllSettable(sc.initial, sc.base, sc.dataset.tensors.Keys)
  {
    if AllSettable(sc.initial, sc.base, sc.dataset.tensors.Keys) {
      var a, cmds := Start(sc), Commands(sc);
      var final := Run(sc.initial, cmds);
      ReachesSelf(sc, a);
      WriterRuns(sc, a, Polling, |cmds|);
      assert cmds[..|cmds|] == cmds;
      WriterStores(sc);
      StoredReads(final, sc.base, sc.dataset);
      ReaderAlone(sc, a, final, |cmds|);
    } else {
      forall b | Reaches(sc, Start(sc), b) ensures b.reader != Done(Ok(sc.dataset)) {
        NeverRead(sc, b);
      }
    }
  }

  // ---------------------------------------------------------------------------------------
  // The guarantee in full
  // ---------------------------------------------------------------------------------------

  /** With an acknowledgement at the start, a poll can succeed on it, the writer's DEL can
      follow, and the read finds nothing. */
  lemma ReadFindsNothing(sc: Scenario) returns (d: System)
    requires ValidScenario(sc) && Acked(sc.initial, sc.base)
    requires sc.copying ==> AllSettable(sc.initial, sc.base, sc.dataset.tensors.Keys)
    ensures Reaches(sc, Start(sc), d) && d.reader == Done(Err(KeyError))
  {
    var a, cmds := Start(sc), Commands(sc);
    ReachesSelf(sc, a);
    assert AfterPoll(sc, a) == Acknowledged;
    ReachesReader(sc, a, a, Acknowledged);
    var k := MetadataGone(sc);
    WriterRuns(sc, a, Acknowledged, k);
    var c := System(Run(sc.initial, cmds[..k]), k, Acknowledged);
    d := c.(reader := Done(Err(KeyError)));
    assert HGetAll(c.store, MetaKey(sc.base)) == Ok(map[]);
    var none: Pairs := [];
    assert IsListing(none, map[]) && d == c.(reader := AfterMetadata(sc, Flat(none)));
    ReachesReader(sc, a, c, d.reader);
  }

  /** A start that is not clear has a run whose read ends with something else. */
  lemma WrongRead(sc: Scenario) returns (d: System)
    requires ValidScenario(sc) && !StartsClear(sc)
    ensures Reaches(sc, Start(sc), d) && d.reader.Done? && d.reader.result != Ok(sc.dataset)
  {
    var a, cmds := Start(sc), Commands(sc);
    ReachesSelf(sc, a);
    if AllSettable(sc.initial, sc.base, sc.dataset.tensors.Keys) || (Acked(sc.initial, sc.base) && !sc.copying) {
      d := ReadFindsNothing(sc);
    } else if sc.copying {
      ReaderAlone(sc, a, sc.initial, 0);
      d := System(sc.initial, 0, Done(ReadDataset(sc.initial, sc.base, sc.dataset.name)));
      NeverRead(sc, d);
    } else {
      var final := Run(sc.initial, cmds);
      WriterRuns(sc, a, Polling, |cmds|);
      assert cmds[..|cmds|] == cmds;
      PutAcksAnyway(sc.initial, sc.base, sc.dataset, sc.pairs, sc.tensors);
      ReaderAlone(sc, a, final, |cmds|);
      d := System(final, |cmds|, Done(ReadDataset(final, sc.base, sc.dataset.name)));
      NeverRead(sc, d);
    }
  }

  lemma PollStep(sc: Scenario, a: System, b: System)
    requires ValidScenario(sc) && Step(sc, a, b)
    requires !MetadataTaken(a.store, sc.base) && !a.reader.PollFailed?
    ensures !MetadataTaken(b.store, sc.base) && !b.reader.PollFailed?
  {
    var key := MetaKey(sc.base);
    if WriterStep(sc, a, b) {
      ListedNames(sc.dataset, sc.pairs, sc.tensors);
      WriterKeepsHash(sc, a.store, a.sent);
    } else if OtherStep(sc, a, b) {
      var c :| Foreign(c, sc.base) && b == a.(store := Apply(a.store, c));
      MetaKeyInSpace(sc.base);
      ApplyFrame(a.store, c, key);
      assert Get(b.store, key) == Get(a.store, key);
    }
  }

  lemma WriterKeepsHash(sc: Scenario, s: Store, i: nat)
    requires UniqueNames(sc.tensors) && i < |Commands(sc)| && !MetadataTaken(s, sc.base)
    ensures !MetadataTaken(Apply(s, Commands(sc)[i]), sc.base)
  {
    var c, n := Commands(sc)[i], |sc.tensors|;
    if !sc.copying && 2 <= i < n + 2 {
      MetaKeyApart(sc.base, sc.tensors[i - 2].0);
    } else if sc.copying && i < n {
      MetaKeyApart(sc.base, sc.tensors[i].0);
    }
  }

  lemma {:induction false} PollNeverFails(sc: Scenario, run: seq<System>, i: nat)
    requires ValidScenario(sc) && i < |run|
    requires !MetadataTaken(run[0].store, sc.base) && !run[0].reader.PollFailed?
    requires forall k :: 0 <= k < |run| - 1 ==> Step(sc, run[k], run[k + 1])
    ensures !MetadataTaken(run[i].store, sc.base) && !run[i].reader.PollFailed?
  {
    if i > 0 {
      PollNeverFails(sc, run, i - 1);
      assert Step(sc, run[i - 1], run[i]);
      PollStep(sc, run[i - 1], run[i]);
    }
  }

  /** A poll throws in some run exactly when another type holds the metadata key at the start. */
  lemma PollThrowsIff(sc: Scenario)
    requires ValidScenario(sc)
    ensures (exists b :: Reaches(sc, Start(sc), b) && b.reader.PollFailed?) <==> MetadataTaken(sc.initial, sc.base)
  {
    if MetadataTaken(sc.initial, sc.base) {
      ReachesSelf(sc, Start(sc));
      ReachesReader(sc, Start(sc), Start(sc), PollFailed(RuntimeError));
    } else {
      forall b | Reaches(sc, Start(sc), b) ensures !b.reader.PollFailed? {
        var run: seq<System> :| IsPath(sc, run, Start(sc), b);
        PollNeverFails(sc, run, |run| - 1);
      }
    }
  }

  /** In full: every completed read of every run returns the dataset placed exactly when the
      start was clear. */
  lemma SafeIffStartsClear(sc: Scenario)
    requires ValidScenario(sc)
    ensures (forall run: seq<System>, i: int :: IsRun(sc, run) && 0 <= i < |run| && run[i].reader.Done? ==> run[i].reader.result == Ok(sc.dataset))
            <==> StartsClear(sc)
  {
    if StartsClear(sc) {
      forall run: seq<System>, i: int | IsRun(sc, run) && 0 <= i < |run| && run[i].reader.Done?
        ensures run[i].reader.result == Ok(sc.dataset)
      {
        ReaderSeesWholeDataset(sc, run, i);
      }
    } else {
      var d := WrongRead(sc);
      var run: seq<System> :| IsPath(sc, run, Start(sc), d);
      assert IsRun(sc, run);
      assert run[|run| - 1].reader.Done? && run[|run| - 1].reader.result != Ok(sc.dataset);
    }
  }
}
