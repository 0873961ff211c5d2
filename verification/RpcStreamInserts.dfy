/**
 * Inserts over ids in use: which of them are safe, and what the others can do to the streams of
 * `RpcStreams`.
 */
module RpcStreamInserts {
  import opened Common
  import opened RpcStreams
  import opened RpcStreamSafety

  // ----- Exactly which inserts are safe -----

  // Every mapped stream's bytes are in its sink, or on their way there.
  ghost predicate Delivering(s: State) {
    forall id :: id in s.records ==> id in s.current && Conserved(s, s.current[id], Undelivered(s, s.current[id]))
  }

  // However the system goes on, short of further inserts over busy streams.
  ghost predicate DeliversFrom(s: State) {
    forall acts :: Run(s, acts) && SafeInserts(s, acts) ==> Delivering(Exec(s, acts))
  }

  lemma StepRun(s: State, a: Action, rest: seq<Action>)
    requires Enabled(s, a) && !a.Insert? && Run(Next(s, a), rest) && SafeInserts(Next(s, a), rest)
    ensures Run(s, [a] + rest) && SafeInserts(s, [a] + rest)
    ensures Exec(s, [a] + rest) == Exec(Next(s, a), rest)
  {
    assert ([a] + rest)[1..] == rest;
  }

  // An old loop k, with nothing in its batch, takes the first write of the stream inserted over its own.
  lemma OldLoopSteals(s: State, id: Id, k: nat, h: Half)
    requires id in s.records && s.records[id] == StreamRec(Some(h), [], false)
    requires id in s.current && s.current[id] == h
    requires h in s.accepted && s.accepted[h] == [] && h in s.sinks && s.sinks[h] == Sink([], false, 0)
    requires k in s.tasks && s.tasks[k].Loop? && s.tasks[k].id == id && s.tasks[k].items == [] && k != s.nextTask
    ensures !DeliversFrom(s)
  {
    var s1 := Next(s, Write(id, [0]));
    assert s.records[id].q + [[0]] == [[0]] && [] + [0] == [0];
    assert s1.records[id] == StreamRec(None, [[0]], false) && s1.accepted[h] == [0];
    assert s1.tasks[s.nextTask] == Loop(id, h, []) && s1.tasks[k] == s.tasks[k];
    var s2 := Next(s1, TaskLock(k));
    assert s2.records[id] == StreamRec(None, [], false) && s2.tasks[s.nextTask] == Loop(id, h, []);
    assert s2.place[h] == InTask(s.nextTask) && Undelivered(s2, h) == [];
    assert !Delivering(s2);
    var acts := [Write(id, [0])] + ([TaskLock(k)] + []);
    StepRun(s1, TaskLock(k), []);
    StepRun(s, Write(id, [0]), [TaskLock(k)] + []);
    assert Exec(s, acts) == s2;
  }

  lemma DeliversAfter(s: State, a: Action)
    requires DeliversFrom(s) && Enabled(s, a) && !a.Insert?
    ensures DeliversFrom(Next(s, a))
  {
    forall acts | Run(Next(s, a), acts) && SafeInserts(Next(s, a), acts) ensures Delivering(Exec(Next(s, a), acts)) {
      StepRun(s, a, acts);
      assert Delivering(Exec(s, [a] + acts));
    }
  }

  lemma BusyInsertIsUnsafe(s: State, h: Half)
    requires Inv(s) && Enabled(s, Insert(h)) && !Insertable(s, WireId(h))
    ensures !DeliversFrom(Next(s, Insert(h)))
  {
    var id := WireId(h);
    RecordFacts(s, id);
    var g, s' := s.current[id], Next(s, Insert(h));
    var k := s.place[g].k;
    if s.tasks[k].items == [] {
      OldLoopSteals(s', id, k, h);
    } else {
      assert h !in s.place by { assert h in s.place ==> HalfOk(s, h); }
      assert Enabled(s', TaskFail(k));
      OldLoopSteals(Next(s', TaskFail(k)), id, k, h);
      if DeliversFrom(s') { DeliversAfter(s', TaskFail(k)); }
    }
  }

  lemma InvDelivers(s: State)
    requires Inv(s)
    ensures DeliversFrom(s)
  {
    forall acts | Run(s, acts) && SafeInserts(s, acts) ensures Delivering(Exec(s, acts)) {
      RunKeepsInv(s, acts);
      var s' := Exec(s, acts);
      forall id | id in s'.records
        ensures id in s'.current && Conserved(s', s'.current[id], Undelivered(s', s'.current[id]))
      {
        RecordFacts(s', id);
      }
    }
  }

  // An insert is safe, in that however the system goes on no stream's bytes are lost, doubled, reordered
  // or given to another, exactly if its id is free or the stream that has it is idle.
  lemma InsertIsSafeIff(s: State, h: Half)
    requires Inv(s) && Enabled(s, Insert(h))
    ensures DeliversFrom(Next(s, Insert(h))) <==> Insertable(s, WireId(h))
  {
    if Insertable(s, WireId(h)) {
      InsertKeepsInv(s, h);
      InvDelivers(Next(s, Insert(h)));
    } else {
      BusyInsertIsUnsafe(s, h);
    }
  }

  // ----- What wrapping does -----

  lemma {:induction false} ExecConcat(s: State, a: seq<Action>, b: seq<Action>)
    requires Run(s, a) && Run(Exec(s, a), b)
    ensures Run(s, a + b) && Exec(s, a + b) == Exec(Exec(s, a), b)
    decreases |a|
  {
    if a == [] {
      assert a + b == b;
    } else {
      assert (a + b)[1..] == a[1..] + b;
      ExecConcat(Next(s, a[0]), a[1..], b);
    }
  }

  lemma {:induction false} ExecCalls(s: State, n: nat)
    ensures var calls := seq(n, _ => AllocCall);
            Run(s, calls) && Exec(s, calls) == s.(allocs := s.allocs + n)
    decreases n
  {
    var calls := seq(n, _ => AllocCall);
    if n > 0 {
      assert calls[1..] == seq(n - 1, _ => AllocCall);
      ExecCalls(Next(s, AllocCall), n - 1);
    }
  }

  lemma {:induction false} FreshSuffix(s: State, a: seq<Action>, b: seq<Action>)
    requires Run(s, a) && Run(Exec(s, a), b) && Run(s, a + b) && SafeInserts(s, a + b)
    ensures SafeInserts(Exec(s, a), b)
    decreases |a|
  {
    if a == [] {
      assert a + b == b;
    } else {
      assert (a + b)[1..] == a[1..] + b;
      FreshSuffix(Next(s, a[0]), a[1..], b);
    }
  }

  const FIRST_STREAM: seq<Action> := [AllocStream, Insert(0), Write(0, [7])]
  const CALLS: seq<Action> := seq(ID_SPACE - 1, _ => AllocCall)
  const SECOND_STREAM: seq<Action> := [AllocStream, Insert(ID_SPACE)]

  ghost function WithFirst(allocs: nat): State {
    State(map[0 := StreamRec(None, [[7]], false)], map[0 := Loop(0, 0, [])], 1, map[0 := Sink([], false, 0)],
          allocs, {}, map[0 := 0], map[0 := [7]], map[0 := InTask(0)])
  }

  lemma RunFirst()
    ensures Run(INIT, FIRST_STREAM) && Exec(INIT, FIRST_STREAM) == WithFirst(1)
  {
    var s1 := Next(INIT, AllocStream);
    assert s1.pending == {0};
    var s2 := Next(s1, Insert(0));
    var s3 := Next(s2, Write(0, [7]));
    assert s2.records == map[0 := StreamRec(Some(0), [], false)];
    assert s3 == WithFirst(1) by {
      assert [] + [[7 as byte]] == [[7]] && [] + [7 as byte] == [7];
      assert s3.records == map[0 := StreamRec(None, [[7]], false)];
      assert s3.accepted == map[0 := [7]];
      assert s3.pending == {};
    }
    assert FIRST_STREAM[1..] == [Insert(0), Write(0, [7])];
    assert FIRST_STREAM[1..][1..] == [Write(0, [7])];
    assert Run(s3, []);
    assert Run(s2, [Write(0, [7])]) && Exec(s2, [Write(0, [7])]) == s3;
  }

  lemma RunSecond()
    ensures var s := WithFirst(ID_SPACE);
            && Run(s, SECOND_STREAM) && !SafeInserts(s, SECOND_STREAM)
            && var s' := Exec(s, SECOND_STREAM);
            && s'.accepted == map[0 := [7], ID_SPACE := []]
            && s'.sinks == map[0 := Sink([], false, 0), ID_SPACE := Sink([], false, 0)]
            && s'.records == map[0 := StreamRec(Some(ID_SPACE), [], false)]
            && s'.tasks == map[0 := Loop(0, 0, [])]
  {
    var s := WithFirst(ID_SPACE);
    var s1 := Next(s, AllocStream);
    assert s1.pending == {ID_SPACE};
    var s2 := Next(s1, Insert(ID_SPACE));
    assert WireId(ID_SPACE) == 0;
    assert SECOND_STREAM[1..] == [Insert(ID_SPACE)];
    assert Run(s2, []) && Exec(s2, []) == s2;
    assert Run(s1, [Insert(ID_SPACE)]) && Exec(s1, [Insert(ID_SPACE)]) == s2;
    assert Exec(s, SECOND_STREAM) == s2;
    assert s2.records == map[0 := StreamRec(Some(ID_SPACE), [], false)];
  }

  // After 2^32 allocations an id is handed out again. Here the second stream takes over the record of
  // the first, whose accepted byte is then in no queue, no task and no sink; and the first stream's
  // loop, finding the queue empty, puts its own half into the second stream's record.
  lemma WrappedIdLosesData()
    ensures var acts := FIRST_STREAM + CALLS + SECOND_STREAM;
            && Run(INIT, acts) && !SafeInserts(INIT, acts)
            && var s := Exec(INIT, acts);
            && s.accepted == map[0 := [7], ID_SPACE := []]
            && s.sinks == map[0 := Sink([], false, 0), ID_SPACE := Sink([], false, 0)]
            && s.records == map[0 := StreamRec(Some(ID_SPACE), [], false)]
            && s.tasks == map[0 := Loop(0, 0, [])]
            && Next(s, TaskLock(0)).records == map[0 := StreamRec(Some(0), [], false)]
  {
    RunFirst();
    ExecCalls(WithFirst(1), ID_SPACE - 1);
    ExecConcat(INIT, FIRST_STREAM, CALLS);
    RunSecond();
    ExecConcat(INIT, FIRST_STREAM + CALLS, SECOND_STREAM);
    if SafeInserts(INIT, FIRST_STREAM + CALLS + SECOND_STREAM) {
      FreshSuffix(INIT, FIRST_STREAM + CALLS, SECOND_STREAM);
    }
  }

  const FIRST_BATCH: seq<Action> := [TaskLock(0)]

  // The first stream's loop has its batch in hand.
  ghost function WithBatch(allocs: nat): State {
    WithFirst(allocs).(records := map[0 := StreamRec(None, [], false)], tasks := map[0 := Loop(0, 0, [[7]])])
  }

  lemma RunBatch()
    ensures Run(WithFirst(1), FIRST_BATCH) && Exec(WithFirst(1), FIRST_BATCH) == WithBatch(1)
  {
    var s := WithFirst(1);
    var s' := Next(s, TaskLock(0));
    assert s'.records == map[0 := StreamRec(None, [], false)];
    assert s'.tasks == map[0 := Loop(0, 0, [[7]])];
    assert FIRST_BATCH[1..] == [] && Run(s', []) && Exec(s', []) == s';
  }

  // The second stream has taken over, and its write goes through the first stream's loop.
  const SECOND_WRITE: seq<Action> := [TaskWrite(0, 1), Write(0, [9])]
  const FIRST_LOOP: seq<Action> := [TaskLock(0), TaskWrite(0, 1)]

  ghost predicate TakenOver(s: State) {
    && s.records == map[0 := StreamRec(Some(ID_SPACE), [], false)] && s.tasks == map[0 := Loop(0, 0, [[7]])]
    && s.sinks == map[0 := Sink([], false, 0), ID_SPACE := Sink([], false, 0)]
    && s.accepted == map[0 := [7], ID_SPACE := []] && s.current == map[0 := ID_SPACE] && s.nextTask == 1
  }

  ghost predicate Queued(s: State) {
    && s.records == map[0 := StreamRec(None, [[9]], false)]
    && s.tasks == map[0 := Loop(0, 0, []), 1 := Loop(0, ID_SPACE, [])]
    && s.sinks == map[0 := Sink([7], false, 0), ID_SPACE := Sink([], false, 0)]
    && s.accepted == map[0 := [7], ID_SPACE := [9]]
  }

  lemma BatchWritten(s: State)
    requires TakenOver(s)
    ensures Enabled(s, TaskWrite(0, 1))
    ensures var s' := Next(s, TaskWrite(0, 1));
            && s' == s.(tasks := s'.tasks, sinks := s'.sinks) && s'.tasks == map[0 := Loop(0, 0, [])]
            && s'.sinks == map[0 := Sink([7], false, 0), ID_SPACE := Sink([], false, 0)]
  {
    assert [[7 as byte]][0][..1] == [7] && [] + [7 as byte] == [7] && [[7 as byte]][1..] == [];
  }

  lemma SecondQueued(s: State)
    requires TakenOver(s)
    ensures Enabled(s, TaskWrite(0, 1)) && Queued(Next(Next(s, TaskWrite(0, 1)), Write(0, [9])))
  {
    BatchWritten(s);
    assert [] + [[9 as byte]] == [[9]] && [] + [9 as byte] == [9];
    var s1 := Next(s, TaskWrite(0, 1));
    assert WriteRec(s1.records, 0, [9]).0 == map[0 := StreamRec(None, [[9]], false)];
  }

  lemma RunSecondWrite(s: State)
    requires TakenOver(s)
    ensures Run(s, SECOND_WRITE) && Queued(Exec(s, SECOND_WRITE))
  {
    SecondQueued(s);
    var s1 := Next(s, TaskWrite(0, 1));
    StepRun(s1, Write(0, [9]), []);
    StepRun(s, TaskWrite(0, 1), [Write(0, [9])] + []);
    assert SECOND_WRITE == [TaskWrite(0, 1)] + ([Write(0, [9])] + []);
  }

  lemma FirstLocks(s: State)
    requires Queued(s)
    ensures Enabled(s, TaskLock(0))
    ensures var s' := Next(s, TaskLock(0));
            && s'.records == map[0 := StreamRec(None, [], false)] && s'.sinks == s.sinks && s'.accepted == s.accepted
            && s'.tasks == map[0 := Loop(0, 0, [[9]]), 1 := Loop(0, ID_SPACE, [])]
  {
  }

  lemma FirstWrites(s: State)
    requires s.tasks == map[0 := Loop(0, 0, [[9]]), 1 := Loop(0, ID_SPACE, [])]
    requires s.sinks == map[0 := Sink([7], false, 0), ID_SPACE := Sink([], false, 0)]
    ensures Enabled(s, TaskWrite(0, 1))
    ensures var s' := Next(s, TaskWrite(0, 1));
            && s' == s.(tasks := s'.tasks, sinks := s'.sinks)
            && s'.tasks == map[0 := Loop(0, 0, []), 1 := Loop(0, ID_SPACE, [])]
            && s'.sinks == map[0 := Sink([7, 9], false, 0), ID_SPACE := Sink([], false, 0)]
  {
    assert [[9 as byte]][0][..1] == [9] && [7] + [9 as byte] == [7, 9] && [[9 as byte]][1..] == [];
  }

  lemma RunFirstLoop(s: State)
    requires Queued(s)
    ensures Run(s, FIRST_LOOP)
    ensures var s' := Exec(s, FIRST_LOOP);
            && s'.accepted == map[0 := [7], ID_SPACE := [9]]
            && s'.sinks == map[0 := Sink([7, 9], false, 0), ID_SPACE := Sink([], false, 0)]
            && s'.records == map[0 := StreamRec(None, [], false)]
            && s'.tasks == map[0 := Loop(0, 0, []), 1 := Loop(0, ID_SPACE, [])]
  {
    FirstLocks(s);
    var s1 := Next(s, TaskLock(0));
    FirstWrites(s1);
    StepRun(s1, TaskWrite(0, 1), []);
    StepRun(s, TaskLock(0), [TaskWrite(0, 1)] + []);
    assert FIRST_LOOP == [TaskLock(0)] + ([TaskWrite(0, 1)] + []);
  }

  lemma RunOver()
    ensures Run(WithBatch(ID_SPACE), SECOND_STREAM) && TakenOver(Exec(WithBatch(ID_SPACE), SECOND_STREAM))
  {
    var s := WithBatch(ID_SPACE);
    var s1 := Next(s, AllocStream);
    assert s1.pending == {ID_SPACE};
    var s2 := Next(s1, Insert(ID_SPACE));
    assert WireId(ID_SPACE) == 0;
    assert SECOND_STREAM[1..] == [Insert(ID_SPACE)];
    assert Run(s2, []) && Exec(s2, []) == s2;
    assert Run(s1, [Insert(ID_SPACE)]) && Exec(s1, [Insert(ID_SPACE)]) == s2;
    assert Exec(s, SECOND_STREAM) == s2;
  }

  // Here the first stream has nothing queued when the second takes its record over, so at that moment
  // nothing is lost. Yet the second stream's byte is then delivered to the first stream's sink.
  lemma WrappedIdMisdelivers()
    ensures var acts := FIRST_STREAM + FIRST_BATCH + CALLS + SECOND_STREAM + SECOND_WRITE + FIRST_LOOP;
            && Run(INIT, acts)
            && var s := Exec(INIT, acts);
            && s.accepted == map[0 := [7], ID_SPACE := [9]]
            && s.sinks == map[0 := Sink([7, 9], false, 0), ID_SPACE := Sink([], false, 0)]
            && s.records == map[0 := StreamRec(None, [], false)]
            && s.tasks == map[0 := Loop(0, 0, []), 1 := Loop(0, ID_SPACE, [])]
  {
    RunFirst();
    RunBatch();
    ExecConcat(INIT, FIRST_STREAM, FIRST_BATCH);
    ExecCalls(WithBatch(1), ID_SPACE - 1);
    ExecConcat(INIT, FIRST_STREAM + FIRST_BATCH, CALLS);
    RunOver();
    ExecConcat(INIT, FIRST_STREAM + FIRST_BATCH + CALLS, SECOND_STREAM);
    var s := Exec(WithBatch(ID_SPACE), SECOND_STREAM);
    RunSecondWrite(s);
    ExecConcat(INIT, FIRST_STREAM + FIRST_BATCH + CALLS + SECOND_STREAM, SECOND_WRITE);
    RunFirstLoop(Exec(s, SECOND_WRITE));
    ExecConcat(INIT, FIRST_STREAM + FIRST_BATCH + CALLS + SECOND_STREAM + SECOND_WRITE, FIRST_LOOP);
  }
}
