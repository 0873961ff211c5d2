/** What the streams of `RpcStreams` keep to over every run: ownership, order, shutdown. */
module RpcStreamSafety {
  import opened Common
  import opened RpcStreams

  // ----- Safety over every run -----

  // Every insert of the run finds its id free, or its stream idle.
  ghost predicate SafeInserts(s: State, acts: seq<Action>)
    requires Run(s, acts)
    decreases |acts|
  {
    acts != [] ==>
      (acts[0].Insert? ==> Insertable(s, WireId(acts[0].half))) && SafeInserts(Next(s, acts[0]), acts[1..])
  }

  lemma {:induction false} RunKeepsInv(s: State, acts: seq<Action>)
    requires Inv(s) && Run(s, acts) && SafeInserts(s, acts)
    ensures Inv(Exec(s, acts))
    decreases |acts|
  {
    if acts != [] {
      StepKeepsInv(s, acts[0]);
      RunKeepsInv(Next(s, acts[0]), acts[1..]);
    }
  }

  ghost predicate InvThroughout(s: State, acts: seq<Action>)
    requires Run(s, acts)
    decreases |acts|
  {
    Inv(s) && (acts != [] ==> InvThroughout(Next(s, acts[0]), acts[1..]))
  }

  // The invariant holds all through a run exactly if no insert finds its id's stream busy.
  lemma {:induction false} InvThroughoutIff(s: State, acts: seq<Action>)
    requires Inv(s) && Run(s, acts)
    ensures InvThroughout(s, acts) <==> SafeInserts(s, acts)
    decreases |acts|
  {
    if acts != [] {
      var a, s' := acts[0], Next(s, acts[0]);
      if a.Insert? {
        InsertKeepsInvIff(s, a.half);
      } else {
        StepKeepsInv(s, a);
      }
      if Inv(s') { InvThroughoutIff(s', acts[1..]); }
    }
  }

  lemma {:induction false} AllocsGrow(s: State, acts: seq<Action>)
    requires Run(s, acts)
    ensures s.allocs <= Exec(s, acts).allocs
    decreases |acts|
  {
    if acts != [] {
      AllocsGrow(Next(s, acts[0]), acts[1..]);
    }
  }

  lemma FewAllocsFreeId(s: State, h: Half)
    requires Inv(s) && h in s.pending && s.allocs <= ID_SPACE
    ensures WireId(h) !in s.records
  {
    if WireId(h) in s.records {
      RecordFacts(s, WireId(h));
      assert false;
    }
  }

  // Until the counter wraps, every id is free when it is inserted.
  lemma {:induction false} FewAllocsAreFresh(s: State, acts: seq<Action>)
    requires Inv(s) && Run(s, acts) && Exec(s, acts).allocs <= ID_SPACE
    ensures SafeInserts(s, acts)
    decreases |acts|
  {
    if acts != [] {
      var a, s' := acts[0], Next(s, acts[0]);
      AllocsGrow(s', acts[1..]);
      if a.Insert? {
        FewAllocsFreeId(s, a.half);
      }
      StepKeepsInv(s, a);
      FewAllocsAreFresh(s', acts[1..]);
    }
  }

  ghost predicate LoopFor(s: State, k: nat, id: Id) {
    k in s.tasks && s.tasks[k].Loop? && s.tasks[k].id == id
  }

  // A mapped stream's half is in its record, with nothing queued, no end announced and no loop
  // task, or it is in exactly one loop task and not in the record.
  lemma OneOwner(acts: seq<Action>, id: Id)
    requires Run(INIT, acts) && SafeInserts(INIT, acts) && id in Exec(INIT, acts).records
    ensures var s := Exec(INIT, acts);
            var r := s.records[id];
            && id in s.current
            && if r.write.Some? then r == StreamRec(Some(s.current[id]), [], false) && forall k :: !LoopFor(s, k, id)
               else exists k :: LoopFor(s, k, id) && s.tasks[k].w == s.current[id]
                                && forall k' :: LoopFor(s, k', id) ==> k' == k
  {
    RunKeepsInv(INIT, acts);
    var s := Exec(INIT, acts);
    RecordFacts(s, id);
    forall k | LoopFor(s, k, id) ensures s.place[s.current[id]] == InTask(k) {
      assert TaskOk(s, k);
    }
    if s.records[id].write.None? {
      assert LoopFor(s, s.place[s.current[id]].k, id);
    }
  }

  // The `None => break` branch of `write_loop` is never taken: a loop finds its record, with the
  // half missing from it.
  lemma LoopFindsItsRecord(acts: seq<Action>, k: nat)
    requires Run(INIT, acts) && SafeInserts(INIT, acts)
    requires k in Exec(INIT, acts).tasks && Exec(INIT, acts).tasks[k].Loop?
    ensures var s := Exec(INIT, acts);
            var id := s.tasks[k].id;
            && id in s.records && s.records[id].write.None?
            && id in s.current && s.tasks[k].w == s.current[id]
  {
    RunKeepsInv(INIT, acts);
    LoopFacts(Exec(INIT, acts), k);
  }

  // The batch of the loop that works for id, or nothing.
  ghost function LoopItems(s: State, id: Id): seq<Item> {
    if exists k :: LoopFor(s, k, id) then (var k :| LoopFor(s, k, id); s.tasks[k].items) else []
  }

  lemma UndeliveredIsLoopThenQueue(s: State, id: Id)
    requires At(s, id) && TasksOk(s)
    ensures Undelivered(s, s.current[id]) == Flatten(LoopItems(s, id)) + Flatten(s.records[id].q)
  {
    var h := s.current[id];
    forall k | LoopFor(s, k, id) ensures s.place[h] == InTask(k) {
      assert TaskOk(s, k);
    }
    if s.place[h].InTask? {
      assert LoopFor(s, s.place[h].k, id);
    }
  }

  // What the sink got, then what the loop holds, then the queue is what was accepted, in order. Once
  // the reader is gone, what it got is a prefix of what was accepted.
  ghost predicate Fifo(s: State, id: Id)
    requires id in s.records
  {
    && id in s.current && s.current[id] in s.sinks && s.current[id] in s.accepted
    && var sink, accepted := s.sinks[s.current[id]], s.accepted[s.current[id]];
    && sink.delivered <= accepted
    && (!sink.broken ==> sink.delivered + (Flatten(LoopItems(s, id)) + Flatten(s.records[id].q)) == accepted)
  }

  // No byte of an accepted write is lost, repeated or reordered, in any run.
  lemma FifoDelivery(acts: seq<Action>, id: Id)
    requires Run(INIT, acts) && SafeInserts(INIT, acts) && id in Exec(INIT, acts).records
    ensures Fifo(Exec(INIT, acts), id)
  {
    RunKeepsInv(INIT, acts);
    RecordFacts(Exec(INIT, acts), id);
    UndeliveredIsLoopThenQueue(Exec(INIT, acts), id);
  }

  // Over whole runs, a half that was shut down was shut down once and short of nothing; every other
  // half was not shut down.
  lemma ShutdownOnceComplete(acts: seq<Action>, h: Half)
    requires Run(INIT, acts) && SafeInserts(INIT, acts) && h in Exec(INIT, acts).place
    ensures var s := Exec(INIT, acts);
            && h in s.sinks && h in s.accepted
            && s.sinks[h].shutdowns <= 1
            && (s.sinks[h].shutdowns == 1 && !s.sinks[h].broken ==> s.sinks[h].delivered == s.accepted[h])
            && (s.sinks[h].shutdowns == 1 ==>
                  (forall id :: id in s.records ==> s.records[id].write != Some(h))
                  && (forall k :: k in s.tasks ==> s.tasks[k].w != h))
  {
    RunKeepsInv(INIT, acts);
    var s := Exec(INIT, acts);
    assert HalfOk(s, h);
    if s.sinks[h].shutdowns == 1 {
      forall id | id in s.records ensures s.records[id].write != Some(h) {
        RecordFacts(s, id);
      }
      forall k | k in s.tasks ensures s.tasks[k].w != h {
        assert TaskOk(s, k);
      }
    }
  }
}
