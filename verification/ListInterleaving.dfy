/** One `rename_list` interleaved, command by command, with other clients that push to the same
    lists: which entries arrive, and which are lost. */
module ListInterleaving {
  import opened Basics
  import opened Keys
  import opened Store
  import opened DatasetOperations
  import opened AggregationLists

  /** How far the renaming has come: LRANGE of the source, DEL of the destination, RPUSH onto it,
      DEL of the source. */
  datatype Phase =
    | Called
    | Ranged(items: seq<Bytes>)
    | Cleared(items: seq<Bytes>)
    | Moved
    | Ended(result: Result<()>)

  /** What other clients have pushed: to the source before the LRANGE, up to the last DEL and
      after it, to the destination before its DEL, up to the RPUSH and after it. A renaming that
      finds no source has no commands after the LRANGE: all later pushes count as after it. */
  datatype Pushes = Pushes(early: seq<Bytes>, meanwhile: seq<Bytes>, late: seq<Bytes>,
                           before: seq<Bytes>, between: seq<Bytes>, after: seq<Bytes>)

  datatype System = System(store: Store, phase: Phase, pushes: Pushes)

  /** The keys of the two lists and the store at the call. */
  datatype Scenario = Scenario(initial: Store, src: Bytes, dst: Bytes)

  /** A key that holds a list as the client makes them, or nothing. */
  ghost predicate ListKeyed(s: Store, key: Bytes) {
    key in s ==> s[key].ListValue? && s[key].items != [] && [] !in s[key].items
  }

  ghost predicate ValidScenario(sc: Scenario) {
    sc.src != sc.dst && ListKeyed(sc.initial, sc.src) && ListKeyed(sc.initial, sc.dst)
  }

  function Start(sc: Scenario): System {
    System(sc.initial, Called, Pushes([], [], [], [], [], []))
  }

  // ---------------------------------------------------------------------------------------
  // Steps
  // ---------------------------------------------------------------------------------------

  /** The next command of `rename_list`. */
  function AfterCommand(sc: Scenario, a: System): System {
    match a.phase
    case Called =>
      var items := Slice(ListAt(a.store, sc.src), 0, -1);
      if items == [] then a.(phase := Ended(Err(RuntimeError))) else a.(phase := Ranged(items))
    case Ranged(items) => a.(store := Apply(a.store, Del([sc.dst])), phase := Cleared(items))
    case Cleared(items) =>
      if [] in items || Fails(a.store, RPush(sc.dst, items)) then a.(phase := Ended(Err(RuntimeError)))
      else a.(store := Apply(a.store, RPush(sc.dst, items)), phase := Moved)
    case Moved => a.(store := Apply(a.store, Del([sc.src])), phase := Ended(Ok(())))
    case Ended(_) => a
  }

  ghost predicate RenameStep(sc: Scenario, a: System, b: System) {
    !a.phase.Ended? && b == AfterCommand(sc, a)
  }

  function SourceLog(p: Pushes, phase: Phase, items: seq<Bytes>): Pushes {
    if phase.Called? then p.(early := p.early + items)
    else if phase.Ended? then p.(late := p.late + items)
    else p.(meanwhile := p.meanwhile + items)
  }

  function DestinationLog(p: Pushes, phase: Phase, items: seq<Bytes>): Pushes {
    if phase.Called? || phase.Ranged? then p.(before := p.before + items)
    else if phase.Cleared? then p.(between := p.between + items)
    else p.(after := p.after + items)
  }

  /** Another client appends to one of the two lists. */
  ghost predicate PushStep(sc: Scenario, a: System, b: System) {
    exists key, items :: items != [] && [] !in items && (key == sc.src || key == sc.dst)
      && b == System(Apply(a.store, RPush(key, items)), a.phase,
                     if key == sc.src then SourceLog(a.pushes, a.phase, items) else DestinationLog(a.pushes, a.phase, items))
  }

  /** Another client does anything else. */
  ghost predicate OtherStep(sc: Scenario, a: System, b: System) {
    exists c :: !Touches(c, sc.src) && !Touches(c, sc.dst) && b == a.(store := Apply(a.store, c))
  }

  ghost predicate Step(sc: Scenario, a: System, b: System) {
    RenameStep(sc, a, b) || PushStep(sc, a, b) || OtherStep(sc, a, b)
  }

  ghost predicate IsRun(sc: Scenario, run: seq<System>) {
    && |run| > 0 && run[0] == Start(sc)
    && forall i :: 0 <= i < |run| - 1 ==> Step(sc, run[i], run[i + 1])
  }

  // ---------------------------------------------------------------------------------------
  // Where every entry is
  // ---------------------------------------------------------------------------------------

  /** The source list as the LRANGE finds it. */
  function Taken(sc: Scenario, p: Pushes): seq<Bytes> {
    ListAt(sc.initial, sc.src) + p.early
  }

  /** The source list in each phase. */
  function Source(sc: Scenario, a: System): seq<Bytes> {
    var p := a.pushes;
    match a.phase
    case Called => Taken(sc, p)
    case Ended(result) => if result.Ok? then p.late else Taken(sc, p) + p.late
    case _ => Taken(sc, p) + p.meanwhile
  }

  /** The destination list in each phase. */
  function Destination(sc: Scenario, a: System): seq<Bytes> {
    var p, old' := a.pushes, ListAt(sc.initial, sc.dst) + a.pushes.before;
    match a.phase
    case Called => old'
    case Ranged(_) => old'
    case Cleared(_) => p.between
    case Moved => p.between + Taken(sc, p) + p.after
    case Ended(result) => if result.Ok? then p.between + Taken(sc, p) + p.after else old' + p.after
  }

  ghost predicate PhaseInvariant(sc: Scenario, a: System) {
    var p := a.pushes;
    match a.phase
    case Called => p.meanwhile == [] && p.late == [] && p.between == [] && p.after == []
    case Ranged(items) => items == Taken(sc, p) && items != [] && p.late == [] && p.between == [] && p.after == []
    case Cleared(items) => items == Taken(sc, p) && items != [] && p.late == [] && p.after == []
    case Moved => p.late == []
    case Ended(result) => result.Err? ==> Taken(sc, p) == [] && p.meanwhile == [] && p.between == []
  }

  ghost predicate Invariant(sc: Scenario, a: System) {
    && ListKeyed(a.store, sc.src) && ListKeyed(a.store, sc.dst)
    && ListAt(a.store, sc.src) == Source(sc, a)
    && ListAt(a.store, sc.dst) == Destination(sc, a)
    && PhaseInvariant(sc, a)
  }

  /** A push to one list, seen from both. */
  lemma PushEffect(s: Store, key: Bytes, items: seq<Bytes>, other: Bytes)
    requires ListKeyed(s, key) && items != [] && [] !in items && key != other
    ensures var t := Apply(s, RPush(key, items));
            && !Fails(s, RPush(key, items))
            && ListKeyed(t, key) && ListAt(t, key) == ListAt(s, key) + items
            && Get(t, other) == Get(s, other)
  {
  }

  /** The logs keep up with a push to the source. */
  lemma SourceLogged(sc: Scenario, a: System, items: seq<Bytes>)
    requires PhaseInvariant(sc, a)
    ensures var b := a.(pushes := SourceLog(a.pushes, a.phase, items));
            PhaseInvariant(sc, b) && Source(sc, b) == Source(sc, a) + items && Destination(sc, b) == Destination(sc, a)
  {
  }

  lemma SourcePushKeeps(sc: Scenario, a: System, items: seq<Bytes>)
    requires ValidScenario(sc) && Invariant(sc, a) && items != [] && [] !in items
    ensures Invariant(sc, System(Apply(a.store, RPush(sc.src, items)), a.phase, SourceLog(a.pushes, a.phase, items)))
  {
    PushEffect(a.store, sc.src, items, sc.dst);
    SourceLogged(sc, a, items);
    assert ListAt(Apply(a.store, RPush(sc.src, items)), sc.dst) == ListAt(a.store, sc.dst);
  }

  /** The same for the destination. */
  lemma DestinationLogged(sc: Scenario, a: System, items: seq<Bytes>)
    requires PhaseInvariant(sc, a)
    ensures var b := a.(pushes := DestinationLog(a.pushes, a.phase, items));
            PhaseInvariant(sc, b) && Destination(sc, b) == Destination(sc, a) + items && Source(sc, b) == Source(sc, a)
  {
  }

  lemma DestinationPushKeeps(sc: Scenario, a: System, items: seq<Bytes>)
    requires ValidScenario(sc) && Invariant(sc, a) && items != [] && [] !in items
    ensures Invariant(sc, System(Apply(a.store, RPush(sc.dst, items)), a.phase, DestinationLog(a.pushes, a.phase, items)))
  {
    PushEffect(a.store, sc.dst, items, sc.src);
    DestinationLogged(sc, a, items);
    assert ListAt(Apply(a.store, RPush(sc.dst, items)), sc.src) == ListAt(a.store, sc.src);
  }

  lemma CommandKeeps(sc: Scenario, a: System)
    requires ValidScenario(sc) && Invariant(sc, a) && !a.phase.Ended?
    ensures Invariant(sc, AfterCommand(sc, a))
  {
    SliceAll(ListAt(a.store, sc.src));
    match a.phase
    case Called =>
      assert [] !in ListAt(a.store, sc.src);
      assert Taken(sc, a.pushes) + [] == Taken(sc, a.pushes);
      assert ListAt(sc.initial, sc.dst) + a.pushes.before + [] == ListAt(sc.initial, sc.dst) + a.pushes.before;
    case Ranged(items) =>
      assert Get(AfterCommand(sc, a).store, sc.src) == Get(a.store, sc.src);
    case Cleared(items) =>
      assert [] !in items by {
        assert forall x :: x in items ==> x in ListAt(a.store, sc.src);
      }
      PushEffect(a.store, sc.dst, items, sc.src);
      assert a.pushes.between + items + [] == a.pushes.between + items;
    case Moved =>
      assert Get(AfterCommand(sc, a).store, sc.dst) == Get(a.store, sc.dst);
  }

  lemma OtherKeeps(sc: Scenario, a: System, c: Command)
    requires Invariant(sc, a) && !Touches(c, sc.src) && !Touches(c, sc.dst)
    ensures Invariant(sc, a.(store := Apply(a.store, c)))
  {
    ApplyFrame(a.store, c, sc.src);
    ApplyFrame(a.store, c, sc.dst);
    assert Get(Apply(a.store, c), sc.src) == Get(a.store, sc.src) && Get(Apply(a.store, c), sc.dst) == Get(a.store, sc.dst);
  }

  lemma InvariantStep(sc: Scenario, a: System, b: System)
    requires ValidScenario(sc) && Invariant(sc, a) && Step(sc, a, b)
    ensures Invariant(sc, b)
  {
    if RenameStep(sc, a, b) {
      CommandKeeps(sc, a);
    } else if PushStep(sc, a, b) {
      var key, items :| items != [] && [] !in items && (key == sc.src || key == sc.dst)
        && b == System(Apply(a.store, RPush(key, items)), a.phase,
                       if key == sc.src then SourceLog(a.pushes, a.phase, items) else DestinationLog(a.pushes, a.phase, items));
      if key == sc.src {
        SourcePushKeeps(sc, a, items);
      } else {
        DestinationPushKeeps(sc, a, items);
      }
    } else {
      var c :| !Touches(c, sc.src) && !Touches(c, sc.dst) && b == a.(store := Apply(a.store, c));
      OtherKeeps(sc, a, c);
    }
  }

  lemma {:induction false} InvariantHolds(sc: Scenario, run: seq<System>, i: nat)
    requires ValidScenario(sc) && IsRun(sc, run) && i < |run|
    ensures Invariant(sc, run[i])
  {
    if i == 0 {
      assert ListAt(sc.initial, sc.src) + [] == ListAt(sc.initial, sc.src);
      assert ListAt(sc.initial, sc.dst) + [] == ListAt(sc.initial, sc.dst);
    } else {
      InvariantHolds(sc, run, i - 1);
      assert Step(sc, run[i - 1], run[i]);
      InvariantStep(sc, run[i - 1], run[i]);
    }
  }

  /** Where every entry is when the renaming has ended, in every interleaving. After a success
      the destination holds what was pushed there since its DEL around everything the source held
      at the LRANGE, and the source what was pushed after the last DEL: of the entries of the
      source exactly those pushed in between are lost. A failure found no source and moved
      nothing. */
  lemma RenameAccountsForAll(sc: Scenario, run: seq<System>, i: nat)
    requires ValidScenario(sc) && IsRun(sc, run) && i < |run| && run[i].phase.Ended?
    ensures var s, p := run[i].store, run[i].pushes;
            if run[i].phase.result.Ok? then
              && ListAt(s, sc.dst) == p.between + (ListAt(sc.initial, sc.src) + p.early) + p.after
              && ListAt(s, sc.src) == p.late
            else
              && ListAt(sc.initial, sc.src) + p.early == [] && p.meanwhile == []
              && ListAt(s, sc.src) == p.late
              && ListAt(s, sc.dst) == ListAt(sc.initial, sc.dst) + p.before + p.after
  {
    InvariantHolds(sc, run, i);
    if run[i].phase.result.Err? {
      assert [] + run[i].pushes.late == run[i].pushes.late;
    }
  }

  /** In numbers: the entries ever in the source are those moved, those still there and those
      pushed between the LRANGE and the last DEL; a renaming loses none of them exactly when
      nothing was pushed in between. */
  lemma NoLossIff(sc: Scenario, run: seq<System>, i: nat)
    requires ValidScenario(sc) && IsRun(sc, run) && i < |run| && run[i].phase == Ended(Ok(()))
    ensures var s, p := run[i].store, run[i].pushes;
            var ever := |ListAt(sc.initial, sc.src)| + |p.early| + |p.meanwhile| + |p.late|;
            var there := |ListAt(s, sc.src)| + (|ListAt(s, sc.dst)| - |p.between| - |p.after|);
            there == ever <==> p.meanwhile == []
  {
    RenameAccountsForAll(sc, run, i);
  }

  // ---------------------------------------------------------------------------------------
  // Left alone, and disturbed
  // ---------------------------------------------------------------------------------------

  /** Left alone, the steps of a renaming are the whole call. */
  lemma RenameAlone(s: Store, p: Bytes, from: Bytes, to: Bytes) returns (run: seq<System>)
    requires from != [] && to != [] && from != to
    requires ListKeyed(s, ListKey(p, from)) && ListKeyed(s, ListKey(p, to))
    ensures var sc := Scenario(s, ListKey(p, from), ListKey(p, to));
            && IsRun(sc, run)
            && run[|run| - 1].phase == Ended(RenameListOutcome(s, p, p, from, to).result)
            && run[|run| - 1].store == RenameListOutcome(s, p, p, from, to).store
  {
    var sc := Scenario(s, ListKey(p, from), ListKey(p, to));
    var a := Start(sc);
    var b := AfterCommand(sc, a);
    SliceAll(ListAt(s, sc.src));
    if b.phase.Ended? {
      run := [a, b];
      assert RenameStep(sc, run[0], run[1]);
    } else {
      var c := AfterCommand(sc, b);
      var d := AfterCommand(sc, c);
      var e := AfterCommand(sc, d);
      run := [a, b, c, d, e];
      assert RenameStep(sc, run[0], run[1]) && RenameStep(sc, run[1], run[2]) && RenameStep(sc, run[2], run[3]) && RenameStep(sc, run[3], run[4]);
    }
  }

  /** For every source that is there and every entry, some run loses that entry: the call
      succeeds, the source is gone and the destination has only what the source held. */
  lemma EntryCanBeLost(sc: Scenario, entry: Bytes) returns (run: seq<System>)
    requires ValidScenario(sc) && sc.src in sc.initial && entry != []
    ensures IsRun(sc, run) && run[|run| - 1].phase == Ended(Ok(())) && run[|run| - 1].pushes.meanwhile == [entry]
    ensures ListAt(run[|run| - 1].store, sc.src) == []
    ensures ListAt(run[|run| - 1].store, sc.dst) == ListAt(sc.initial, sc.src)
  {
    var a := Start(sc);
    SliceAll(ListAt(sc.initial, sc.src));
    var b := AfterCommand(sc, a);
    var c := System(Apply(b.store, RPush(sc.src, [entry])), b.phase, SourceLog(b.pushes, b.phase, [entry]));
    var d := AfterCommand(sc, c);
    var e := AfterCommand(sc, d);
    var f := AfterCommand(sc, e);
    run := [a, b, c, d, e, f];
    assert [] + [entry] == [entry];
    assert PushStep(sc, b, c);
    assert Step(sc, run[0], run[1]) && Step(sc, run[1], run[2]) && Step(sc, run[2], run[3]) && Step(sc, run[3], run[4]) && Step(sc, run[4], run[5]);
    RenameAccountsForAll(sc, run, 5);
    assert [] + (ListAt(sc.initial, sc.src) + []) + [] == ListAt(sc.initial, sc.src);
  }
}
