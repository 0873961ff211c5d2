/**
 * How long a stream of `RpcStreams` stays open: from its insert until it is removed, and meanwhile every
 * write to it is accepted.
 */
module RpcStreamOpen {
  import opened Common
  import opened RpcStreams
  import opened RpcStreamSafety

  // What the callers wrote to an id.
  function WrittenTo(acts: seq<Action>, id: Id): seq<byte> {
    if acts == [] then []
    else (if acts[0].Write? && acts[0].id == id then acts[0].buf else []) + WrittenTo(acts[1..], id)
  }

  lemma WrittenFirst(acts: seq<Action>, id: Id)
    requires acts != []
    ensures WrittenTo(acts, id) == WrittenTo([acts[0]], id) + WrittenTo(acts[1..], id)
  {
    var first := if acts[0].Write? && acts[0].id == id then acts[0].buf else [];
    assert [acts[0]][1..] == [] && first + [] == first;
  }

  predicate Removes(a: Action, id: Id) {
    a.Remove? && a.id == id
  }

  predicate Reuses(a: Action, id: Id) {
    a.Insert? && WireId(a.half) == id
  }

  // Nobody removes the id or inserts under it again.
  ghost predicate Untouched(acts: seq<Action>, id: Id) {
    forall a :: a in acts ==> !Removes(a, id) && !Reuses(a, id)
  }

  // ----- Open streams stay open -----

  // The stream of h is mapped and not ended, and has accepted w.
  ghost predicate Open(s: State, h: Half, w: seq<byte>) {
    var id := WireId(h);
    && id in s.records && !s.records[id].ended
    && id in s.current && s.current[id] == h && h in s.accepted && s.accepted[h] == w
  }

  lemma CallerKeepsOpen(s: State, a: Action, h: Half, w: seq<byte>)
    requires Inv(s) && Enabled(s, a) && Open(s, h, w) && (a.Write? || a.Remove?)
    requires !Removes(a, WireId(h))
    ensures Open(Next(s, a), h, w + WrittenTo([a], WireId(h)))
  {
    assert w + [] == w && [a][1..] == [];
    if a.id in s.records {
      RecordFacts(s, a.id);
      if a.id != WireId(h) { assert s.current[a.id] != h; }
      if a.Write? { assert a.buf + [] == a.buf; }
    }
  }

  lemma InsertKeepsOpen(s: State, h': Half, h: Half, w: seq<byte>)
    requires Inv(s) && Enabled(s, Insert(h')) && Open(s, h, w) && WireId(h') != WireId(h)
    ensures Open(DoInsert(s, h'), h, w)
  {
  }

  lemma LockKeepsOpen(s: State, k: nat, h: Half, w: seq<byte>)
    requires Enabled(s, TaskLock(k)) && Open(s, h, w) && Working(s, k)
    ensures Open(DoLock(s, k), h, w)
  {
  }

  lemma TaskKeepsOpen(s: State, a: Action, h: Half, w: seq<byte>)
    requires Inv(s) && Enabled(s, a) && Open(s, h, w)
    requires a.TaskLock? || a.TaskWrite? || a.TaskFail? || a.TaskShutdown?
    ensures Open(Next(s, a), h, w)
  {
    if a.TaskLock? {
      LoopFacts(s, a.k);
      LockKeepsOpen(s, a.k, h, w);
    }
  }

  lemma StepKeepsOpen(s: State, a: Action, h: Half, w: seq<byte>)
    requires Inv(s) && Enabled(s, a) && Open(s, h, w)
    requires !Removes(a, WireId(h)) && !Reuses(a, WireId(h))
    ensures Open(Next(s, a), h, w + WrittenTo([a], WireId(h)))
  {
    assert w + [] == w && [a][1..] == [];
    if a.Insert? {
      InsertKeepsOpen(s, a.half, h, w);
    } else if a.Write? || a.Remove? {
      CallerKeepsOpen(s, a, h, w);
    } else if !(a.AllocCall? || a.AllocStream?) {
      TaskKeepsOpen(s, a, h, w);
    }
  }

  lemma {:induction false} RunKeepsOpen(s: State, acts: seq<Action>, h: Half, w: seq<byte>)
    requires Inv(s) && Run(s, acts) && SafeInserts(s, acts) && Open(s, h, w) && Untouched(acts, WireId(h))
    ensures Open(Exec(s, acts), h, w + WrittenTo(acts, WireId(h)))
    decreases |acts|
  {
    if acts == [] {
      assert w + [] == w;
    } else {
      var a := acts[0];
      var now, later := WrittenTo([a], WireId(h)), WrittenTo(acts[1..], WireId(h));
      assert a in acts;
      StepKeepsOpen(s, a, h, w);
      StepKeepsInv(s, a);
      RunKeepsOpen(Next(s, a), acts[1..], h, w + now);
      WrittenFirst(acts, WireId(h));
      Regroup(w, now, later);
    }
  }

  // No one shuts its sink down, or is about to.
  ghost predicate NotClosing(s: State, h: Half) {
    && h in s.sinks && s.sinks[h].shutdowns == 0
    && forall k :: k in s.tasks && s.tasks[k].w == h ==> s.tasks[k].Loop?
  }

  lemma OpenIsNotClosing(s: State, h: Half, w: seq<byte>)
    requires Inv(s) && Open(s, h, w)
    ensures NotClosing(s, h)
  {
    RecordFacts(s, WireId(h));
    forall k | k in s.tasks && s.tasks[k].w == h ensures s.tasks[k].Loop? {
      assert TaskOk(s, k);
    }
  }

  // From its insert on, whatever else happens, a stream stays mapped and its sink open for as long as
  // nobody removes it or reuses its id; and every write of that time is accepted, in order.
  lemma StaysOpen(before: seq<Action>, h: Half, after: seq<Action>)
    requires Run(INIT, before) && SafeInserts(INIT, before)
    requires Enabled(Exec(INIT, before), Insert(h)) && Insertable(Exec(INIT, before), WireId(h))
    requires var s := Next(Exec(INIT, before), Insert(h)); Run(s, after) && SafeInserts(s, after)
    requires Untouched(after, WireId(h))
    ensures var s := Exec(Next(Exec(INIT, before), Insert(h)), after);
            && WireId(h) in s.records && WireId(h) in s.current && s.current[WireId(h)] == h
            && h in s.accepted && s.accepted[h] == WrittenTo(after, WireId(h))
            && NotClosing(s, h)
  {
    var s := Exec(INIT, before);
    RunKeepsInv(INIT, before);
    StepKeepsInv(s, Insert(h));
    var s1 := Next(s, Insert(h));
    RunKeepsInv(s1, after);
    RunKeepsOpen(s1, after, h, []);
    assert [] + WrittenTo(after, WireId(h)) == WrittenTo(after, WireId(h));
    OpenIsNotClosing(Exec(s1, after), h, WrittenTo(after, WireId(h)));
  }

  // ----- Nothing else closes a stream -----

  // Nothing about h has been ended: not its record, while it is the current one, and no task is closing it.
  ghost predicate Live(s: State, h: Half) {
    && NotClosing(s, h) && h in s.place && s.place[h] != Shut
    && (WireId(h) in s.records && WireId(h) in s.current && s.current[WireId(h)] == h ==> !s.records[WireId(h)].ended)
  }

  lemma InsertKeepsLive(s: State, g: Half, h: Half)
    requires Live(s, h) && g !in s.place && Enabled(s, Insert(g))
    requires WireId(g) in s.records ==> RecordOk(s, WireId(g)) && s.records[WireId(g)].write.Some?
    ensures Live(DoInsert(s, g), h)
  {
  }

  lemma WriteKeepsLive(s: State, id: Id, buf: Item, h: Half)
    requires Live(s, h) && (id in s.records ==> At(s, id))
    ensures Live(DoWrite(s, id, buf), h)
  {
  }

  lemma RemoveKeepsLive(s: State, id: Id, h: Half)
    requires Live(s, h) && SerialsOk(s) && (id in s.records ==> At(s, id)) && id != WireId(h)
    ensures Live(DoRemove(s, id), h)
  {
  }

  lemma CallerKeepsLive(s: State, a: Action, h: Half)
    requires Inv(s) && Enabled(s, a) && Live(s, h) && (a.Insert? || a.Write? || a.Remove?) && !Removes(a, WireId(h))
    requires a.Insert? ==> Insertable(s, WireId(a.half))
    ensures Live(Next(s, a), h)
  {
    if a.Insert? {
      assert a.half in s.place ==> HalfOk(s, a.half);
      if WireId(a.half) in s.records { RecordFacts(s, WireId(a.half)); }
      InsertKeepsLive(s, a.half, h);
    } else {
      if a.id in s.records { RecordFacts(s, a.id); }
      if a.Write? { WriteKeepsLive(s, a.id, a.buf, h); } else { RemoveKeepsLive(s, a.id, h); }
    }
  }

  lemma LockKeepsLive(s: State, k: nat, h: Half)
    requires Enabled(s, TaskLock(k)) && Live(s, h) && Working(s, k) && SerialsOk(s)
    ensures Live(DoLock(s, k), h)
  {
  }

  lemma TaskKeepsLive(s: State, a: Action, h: Half)
    requires Inv(s) && Enabled(s, a) && Live(s, h)
    requires a.TaskLock? || a.TaskWrite? || a.TaskFail? || a.TaskShutdown?
    ensures Live(Next(s, a), h)
  {
    if a.TaskLock? {
      LoopFacts(s, a.k);
      LockKeepsLive(s, a.k, h);
    }
  }

  lemma {:induction false} RunKeepsLive(s: State, acts: seq<Action>, h: Half)
    requires Inv(s) && Run(s, acts) && SafeInserts(s, acts) && Live(s, h)
    requires forall a :: a in acts ==> !Removes(a, WireId(h))
    ensures Live(Exec(s, acts), h)
    decreases |acts|
  {
    if acts != [] {
      var a := acts[0];
      assert a in acts;
      if a.Insert? || a.Write? || a.Remove? {
        CallerKeepsLive(s, a, h);
      } else if !(a.AllocCall? || a.AllocStream?) {
        TaskKeepsLive(s, a, h);
      }
      StepKeepsInv(s, a);
      RunKeepsLive(Next(s, a), acts[1..], h);
    }
  }

  // The remove that ended h comes after the insert of h.
  ghost predicate RemovedSince(acts: seq<Action>, h: Half) {
    exists i, j :: 0 <= i < j < |acts| && acts[i] == Insert(h) && Removes(acts[j], WireId(h))
  }

  lemma InsertIsLive(s: State, h: Half)
    requires Inv(s) && h in s.pending && h !in s.place
    ensures Live(DoInsert(s, h), h)
  {
    forall k | k in s.tasks ensures s.tasks[k].w != h {
      assert TaskOk(s, k);
    }
  }

  lemma ClosingLater(s: State, acts: seq<Action>, h: Half)
    requires Inv(s) && Run(s, acts) && SafeInserts(s, acts) && Live(s, h) && !NotClosing(Exec(s, acts), h)
    ensures exists j :: 0 <= j < |acts| && Removes(acts[j], WireId(h))
  {
    if forall a :: a in acts ==> !Removes(a, WireId(h)) {
      RunKeepsLive(s, acts, h);
    }
  }

  lemma StepPlaces(s: State, a: Action, h: Half)
    requires Inv(s) && Enabled(s, a) && h !in s.place && a != Insert(h)
    requires a.Insert? ==> Insertable(s, WireId(a.half))
    ensures h !in Next(s, a).place
  {
    if a.Write? || a.Remove? {
      if a.id in s.records { RecordFacts(s, a.id); }
    } else if a.TaskLock? || a.TaskShutdown? {
      assert TaskOk(s, a.k);
    } else if a.Insert? && WireId(a.half) in s.records {
      RecordFacts(s, WireId(a.half));
    }
  }

  lemma {:induction false} ClosingFrom(s: State, acts: seq<Action>, h: Half)
    requires Inv(s) && Run(s, acts) && SafeInserts(s, acts) && h !in s.place
    requires h in Exec(s, acts).place && !NotClosing(Exec(s, acts), h)
    ensures RemovedSince(acts, h)
    decreases |acts|
  {
    if acts != [] {
      var a, s', rest := acts[0], Next(s, acts[0]), acts[1..];
      StepKeepsInv(s, a);
      if a == Insert(h) {
        InsertIsLive(s, h);
        ClosingLater(s', rest, h);
        var j :| 0 <= j < |rest| && Removes(rest[j], WireId(h));
        assert acts[0] == Insert(h) && Removes(acts[j + 1], WireId(h));
      } else {
        StepPlaces(s, a, h);
        ClosingFrom(s', rest, h);
        var i, j :| 0 <= i < j < |rest| && rest[i] == Insert(h) && Removes(rest[j], WireId(h));
        assert acts[i + 1] == Insert(h) && Removes(acts[j + 1], WireId(h));
      }
    }
  }

  // A sink is shut down, or about to be, only after a remove of its id that came after its insert.
  lemma ClosedWasRemoved(acts: seq<Action>, h: Half)
    requires Run(INIT, acts) && SafeInserts(INIT, acts) && h in Exec(INIT, acts).place
    requires !NotClosing(Exec(INIT, acts), h)
    ensures RemovedSince(acts, h)
  {
    ClosingFrom(INIT, acts, h);
  }
}
