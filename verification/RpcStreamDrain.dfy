/**
 * Streams of `RpcStreams` that have been removed: their data drains, and their sinks are shut down.
 */
module RpcStreamDrain {
  import opened Common
  import opened RpcStreams
  import opened RpcStreamSafety

  // ----- Ended streams drain -----

  function Weight(items: seq<Item>): nat {
    if items == [] then 0 else |items[0]| + 1 + Weight(items[1..])
  }

  lemma ShiftLighter(items: seq<Item>, n: nat)
    requires items != [] && n <= |items[0]| && (n == 0 ==> items[0] == [])
    ensures Weight(Shift(items, n)) < Weight(items)
  {
  }

  // The steps task k still has to take.
  ghost function StepsLeft(s: State, k: nat): nat {
    if k !in s.tasks then 0
    else match s.tasks[k]
      case Closing(_) => 1
      case Loop(id, _, items) =>
        2 + Weight(items) + (if id !in s.records || s.records[id].q == [] then 0 else 1 + Weight(s.records[id].q))
  }

  // Task k will shut h down: it is about to, or its stream has been ended.
  ghost predicate Draining(s: State, k: nat, h: Half) {
    && k in s.tasks && s.tasks[k].w == h
    && (s.tasks[k].Loop? ==> s.tasks[k].id in s.records && s.records[s.tasks[k].id].ended)
  }

  ghost predicate ShutDown(s: State, h: Half) {
    h in s.place && s.place[h] == Shut
  }

  predicate TaskAction(a: Action) {
    a.TaskLock? || a.TaskWrite? || a.TaskFail? || a.TaskShutdown?
  }

  predicate ByTask(a: Action, k: nat) {
    TaskAction(a) && a.k == k
  }

  function CountSteps(acts: seq<Action>, k: nat): nat {
    if acts == [] then 0 else (if ByTask(acts[0], k) then 1 else 0) + CountSteps(acts[1..], k)
  }

  // No more writes for the stream.
  ghost predicate Quiet(acts: seq<Action>, h: Half) {
    forall a :: a in acts && a.Write? ==> a.id != WireId(h)
  }

  // A task always has a step to take.
  lemma TaskIsNotStuck(s: State, k: nat, h: Half)
    requires Inv(s) && k in s.tasks && s.tasks[k].w == h
    ensures exists a :: ByTask(a, k) && Enabled(s, a) && (h in s.sinks && !s.sinks[h].broken ==> !a.TaskFail?)
  {
    assert TaskOk(s, k) && HalfOk(s, h);
    match s.tasks[k]
    case Closing(_) => assert Enabled(s, TaskShutdown(k));
    case Loop(_, _, items) =>
      if items == [] {
        assert Enabled(s, TaskLock(k));
      } else if s.sinks[h].broken {
        assert Enabled(s, TaskFail(k));
      } else {
        assert Enabled(s, TaskWrite(k, |items[0]|));
      }
  }

  lemma OwnLockEnds(s: State, k: nat)
    requires Enabled(s, TaskLock(k)) && TaskOk(s, k)
    ensures StepsLeft(DoLock(s, k), k) < StepsLeft(s, k)
    ensures k !in DoLock(s, k).tasks ==>
              s.tasks[k].id in DoLock(s, k).records && DoLock(s, k).records[s.tasks[k].id].write == Some(s.tasks[k].w)
  {
  }

  // No task runs idle: each step of its own brings its end nearer, and at the end its half is back in the
  // record of its stream, or shut down.
  lemma OwnStepEnds(s: State, a: Action, k: nat)
    requires Inv(s) && Enabled(s, a) && k in s.tasks && ByTask(a, k)
    ensures var s' := Next(s, a);
            && StepsLeft(s', k) < StepsLeft(s, k)
            && (k !in s'.tasks ==>
                  if s.tasks[k].Closing? then ShutDown(s', s.tasks[k].w)
                  else s.tasks[k].id in s'.records && s'.records[s.tasks[k].id].write == Some(s.tasks[k].w))
  {
    assert TaskOk(s, k);
    if a.TaskLock? {
      OwnLockEnds(s, k);
    } else if a.TaskWrite? {
      ShiftLighter(s.tasks[k].items, a.n);
    }
  }

  ghost predicate Drained(s: State, s': State, k: nat, h: Half) {
    && StepsLeft(s', k) < StepsLeft(s, k)
    && h in s.accepted && h in s'.accepted && s'.accepted[h] == s.accepted[h]
    && (Draining(s', k, h) || (k !in s'.tasks && ShutDown(s', h)))
  }

  lemma OwnLockDrains(s: State, k: nat, h: Half)
    requires Inv(s) && Enabled(s, TaskLock(k)) && Draining(s, k, h)
    ensures Drained(s, DoLock(s, k), k, h)
  {
    assert TaskOk(s, k) && HalfOk(s, h) && RecordOk(s, s.tasks[k].id);
  }

  // Each step of the task brings the end nearer.
  lemma OwnStepDrains(s: State, a: Action, k: nat, h: Half)
    requires Inv(s) && Enabled(s, a) && Draining(s, k, h) && ByTask(a, k)
    ensures Drained(s, Next(s, a), k, h)
  {
    if a.TaskLock? {
      OwnLockDrains(s, k, h);
    } else {
      assert TaskOk(s, k) && HalfOk(s, h);
      if a.TaskWrite? {
        ShiftLighter(s.tasks[k].items, a.n);
      }
    }
  }

  lemma OtherTaskOtherStream(s: State, k: nat, k': nat)
    requires Inv(s) && k in s.tasks && k' in s.tasks && k != k'
    ensures s.tasks[k].w != s.tasks[k'].w
    ensures s.tasks[k].Loop? && s.tasks[k'].Loop? ==> s.tasks[k].id != s.tasks[k'].id
  {
    assert TaskOk(s, k) && TaskOk(s, k');
  }

  // Between two steps of task k: its batch and its queue stay, and so does what was accepted.
  ghost predicate SameDrain(s: State, s': State, k: nat, h: Half) {
    && Draining(s, k, h) && k in s'.tasks && s'.tasks[k] == s.tasks[k]
    && (s.tasks[k].Loop? ==> s.tasks[k].id in s'.records && s'.records[s.tasks[k].id] == s.records[s.tasks[k].id])
    && h in s.accepted && h in s'.accepted && s'.accepted[h] == s.accepted[h]
  }

  lemma OtherTaskStepDrains(s: State, a: Action, k: nat, h: Half)
    requires Enabled(s, a) && Draining(s, k, h) && !ByTask(a, k)
    requires TaskOk(s, k) && h in s.accepted
    requires TaskAction(a)
    requires s.tasks[k].Loop? && s.tasks[a.k].Loop? ==> s.tasks[k].id != s.tasks[a.k].id
    ensures SameDrain(s, Next(s, a), k, h)
  {
  }

  lemma WriteElsewhereDrains(s: State, id: Id, buf: Item, k: nat, h: Half)
    requires Inv(s) && Draining(s, k, h) && id != WireId(h)
    ensures SameDrain(s, DoWrite(s, id, buf), k, h)
  {
    assert TaskOk(s, k) && HalfOk(s, h);
    if id in s.records { RecordFacts(s, id); }
  }

  lemma RemoveAgainDrains(s: State, id: Id, k: nat, h: Half)
    requires Inv(s) && Draining(s, k, h)
    ensures SameDrain(s, DoRemove(s, id), k, h)
  {
    assert TaskOk(s, k) && HalfOk(s, h);
    if id in s.records { RecordFacts(s, id); }
  }

  lemma CallerStepDrains(s: State, a: Action, k: nat, h: Half)
    requires Inv(s) && Enabled(s, a) && Draining(s, k, h)
    requires a.Insert? ==> Insertable(s, WireId(a.half))
    requires a.Write? ==> a.id != WireId(h)
    requires !TaskAction(a)
    ensures SameDrain(s, Next(s, a), k, h)
  {
    assert TaskOk(s, k) && HalfOk(s, h);
    if a.Write? {
      WriteElsewhereDrains(s, a.id, a.buf, k, h);
    } else if a.Remove? {
      RemoveAgainDrains(s, a.id, k, h);
    }
  }

  // No step of another task or caller delays it.
  lemma OtherStepDrains(s: State, a: Action, k: nat, h: Half)
    requires Inv(s) && Enabled(s, a) && Draining(s, k, h) && !ByTask(a, k)
    requires a.Insert? ==> Insertable(s, WireId(a.half))
    requires a.Write? ==> a.id != WireId(h)
    ensures SameDrain(s, Next(s, a), k, h)
  {
    if TaskAction(a) {
      assert TaskOk(s, k) && HalfOk(s, h);
      OtherTaskOtherStream(s, k, a.k);
      OtherTaskStepDrains(s, a, k, h);
    } else {
      CallerStepDrains(s, a, k, h);
    }
  }

  // What is shut down stays as it is, and its task does not come back.
  ghost predicate SameShut(s: State, s': State, k: nat, h: Half) {
    && ShutDown(s', h) && k !in s'.tasks && k < s'.nextTask
    && h in s.accepted && h in s'.accepted && s'.accepted[h] == s.accepted[h]
  }

  lemma ShutStaysUnderCallers(s: State, a: Action, k: nat, h: Half)
    requires Inv(s) && (a.Write? || a.Remove?) && ShutDown(s, h) && k !in s.tasks && k < s.nextTask
    ensures SameShut(s, Next(s, a), k, h)
  {
    assert HalfOk(s, h);
    if a.id in s.records { RecordFacts(s, a.id); }
  }

  lemma ShutStaysUnderTasks(s: State, a: Action, k: nat, h: Half)
    requires ShutDown(s, h) && k !in s.tasks && k < s.nextTask
    requires Enabled(s, a) && TaskAction(a) && TaskOk(s, a.k) && HalfOk(s, h)
    ensures SameShut(s, Next(s, a), k, h)
  {
  }

  lemma ShutStaysUnderInserts(s: State, g: Half, k: nat, h: Half)
    requires ShutDown(s, h) && k !in s.tasks && k < s.nextTask
    requires Enabled(s, Insert(g)) && g !in s.place && HalfOk(s, h)
    requires WireId(g) in s.records && s.records[WireId(g)].write.Some? ==> s.records[WireId(g)].write.value != h
    ensures SameShut(s, DoInsert(s, g), k, h)
  {
  }

  lemma ShutStays(s: State, a: Action, k: nat, h: Half)
    requires Inv(s) && Enabled(s, a) && ShutDown(s, h) && k !in s.tasks && k < s.nextTask
    requires a.Insert? ==> Insertable(s, WireId(a.half))
    ensures SameShut(s, Next(s, a), k, h)
  {
    assert HalfOk(s, h);
    if a.Write? || a.Remove? {
      ShutStaysUnderCallers(s, a, k, h);
    } else if TaskAction(a) {
      assert TaskOk(s, a.k);
      ShutStaysUnderTasks(s, a, k, h);
    } else if a.Insert? {
      assert a.half in s.place ==> HalfOk(s, a.half);
      if WireId(a.half) in s.records { RecordFacts(s, WireId(a.half)); }
      ShutStaysUnderInserts(s, a.half, k, h);
    }
  }

  lemma TasksGrow(s: State, a: Action)
    requires Enabled(s, a)
    ensures s.nextTask <= Next(s, a).nextTask
  {
  }

  lemma {:induction false} DrainRun(s: State, acts: seq<Action>, k: nat, h: Half)
    requires Inv(s) && Run(s, acts) && SafeInserts(s, acts) && Quiet(acts, h) && k < s.nextTask
    requires Draining(s, k, h) || (k !in s.tasks && ShutDown(s, h))
    ensures var s' := Exec(s, acts);
            && Inv(s')
            && h in s.accepted && h in s'.accepted && s'.accepted[h] == s.accepted[h]
            && (Draining(s', k, h) || (k !in s'.tasks && ShutDown(s', h)))
            && (Draining(s', k, h) ==> StepsLeft(s', k) + CountSteps(acts, k) <= StepsLeft(s, k))
    decreases |acts|
  {
    assert h in s.accepted by { assert HalfOk(s, h); }
    if acts != [] {
      var a, s' := acts[0], Next(s, acts[0]);
      StepKeepsInv(s, a);
      if Draining(s, k, h) {
        if ByTask(a, k) { OwnStepDrains(s, a, k, h); } else { OtherStepDrains(s, a, k, h); }
      } else {
        ShutStays(s, a, k, h);
      }
      assert k < s'.nextTask by { TasksGrow(s, a); }
      DrainRun(s', acts[1..], k, h);
    }
  }

  lemma RemoveDrains(s: State, id: Id) returns (k: nat)
    requires Inv(s) && id in s.records
    ensures id in s.current && Draining(DoRemove(s, id), k, s.current[id])
    ensures k < DoRemove(s, id).nextTask
    ensures DoRemove(s, id).accepted == s.accepted
  {
    RecordFacts(s, id);
    var h := s.current[id];
    if s.place[h].InRecord? {
      k := s.nextTask;
    } else {
      k := s.place[h].k;
    }
  }

  // What the end of a drained run looks like.
  lemma DrainedOrMoving(s: State, k: nat, h: Half)
    requires Inv(s) && (Draining(s, k, h) || (k !in s.tasks && ShutDown(s, h)))
    ensures h in s.sinks && h in s.accepted
    ensures s.sinks[h].shutdowns == 0 ==>
              Draining(s, k, h) && exists a :: ByTask(a, k) && Enabled(s, a) && (!s.sinks[h].broken ==> !a.TaskFail?)
    ensures s.sinks[h].shutdowns != 0 ==>
              && s.sinks[h].shutdowns == 1 && k !in s.tasks
              && (!s.sinks[h].broken ==> s.sinks[h].delivered == s.accepted[h])
              && forall id :: id in s.records ==> id in s.current && s.current[id] != h
  {
    if Draining(s, k, h) {
      assert TaskOk(s, k);
      TaskIsNotStuck(s, k, h);
    }
    assert HalfOk(s, h);
    if s.place[h] == Shut {
      forall id | id in s.records ensures id in s.current && s.current[id] != h {
        assert RecordOk(s, id);
      }
    }
  }

  // Where task k has got to with the stream h, having taken a number of its steps: it can go on, or it has
  // shut the stream down once, everything accepted delivered and the record gone.
  ghost predicate DrainsOn(s: State, k: nat, h: Half, id: Id, accepted: seq<byte>, taken: nat, due: nat) {
    && h in s.sinks
    && (s.sinks[h].shutdowns == 0 ==>
          taken < due && exists a :: ByTask(a, k) && Enabled(s, a) && (!s.sinks[h].broken ==> !a.TaskFail?))
    && (taken >= due ==>
          && s.sinks[h].shutdowns == 1
          && (!s.sinks[h].broken ==> s.sinks[h].delivered == accepted)
          && (id in s.records ==> id in s.current && s.current[id] != h))
  }

  lemma StepsRemain(s: State, k: nat, h: Half)
    requires Draining(s, k, h)
    ensures StepsLeft(s, k) > 0
  {
  }

  lemma DrainRunOn(s: State, acts: seq<Action>, k: nat, h: Half, id: Id)
    requires Inv(s) && Run(s, acts) && SafeInserts(s, acts) && Quiet(acts, h) && k < s.nextTask && Draining(s, k, h)
    ensures h in s.accepted
    ensures DrainsOn(Exec(s, acts), k, h, id, s.accepted[h], CountSteps(acts, k), StepsLeft(s, k))
  {
    DrainRun(s, acts, k, h);
    var s' := Exec(s, acts);
    DrainedOrMoving(s', k, h);
    if Draining(s', k, h) { StepsRemain(s', k, h); }
  }

  // After `remove`, one task k is left to shut the stream down. Whatever everyone else does, short of
  // writing to the stream again, k cannot get stuck, and by the time it has taken the steps it had
  // left the sink has been shut down, once, with every accepted byte delivered before that and the
  // record gone.
  lemma RemovedStreamDrains(before: seq<Action>, id: Id, after: seq<Action>) returns (k: nat)
    requires Run(INIT, before) && SafeInserts(INIT, before)
    requires id in Exec(INIT, before).records && id in Exec(INIT, before).current
    requires var s := Next(Exec(INIT, before), Remove(id));
             Run(s, after) && SafeInserts(s, after) && Quiet(after, Exec(INIT, before).current[id])
    ensures var s := Exec(INIT, before);
            var s1 := Next(s, Remove(id));
            var h := s.current[id];
            && h in s.accepted
            && DrainsOn(Exec(s1, after), k, h, id, s.accepted[h], CountSteps(after, k), StepsLeft(s1, k))
  {
    var s := Exec(INIT, before);
    RunKeepsInv(INIT, before);
    k := RemoveDrains(s, id);
    RemoveKeepsInv(s, id);
    DrainRunOn(Next(s, Remove(id)), after, k, s.current[id], id);
  }
}
