/**
 * The inbound half of the RPC stream multiplexer: `Streams` and its `write_loop`.
 *
 * `Streams` guards a map of records with a mutex. The write half of a stream sits either in its
 * record or in a spawned loop task, and it moves between the two under the lock. Every lock section
 * is one atomic action here, and so is every partial write to a sink; the actions of all tasks
 * interleave freely.
 */
module RpcStreams {
  import opened Common

  type Item = seq<byte>

  // A write half is named by the serial number of the allocation its stream id came from.
  type Half = nat

  datatype StreamRec = StreamRec(write: Option<Half>, q: seq<Item>, ended: bool)

  type Records = map<Id, StreamRec>

  // What a spawned task holds between two lock sections: `write_loop` owns the half and a batch of
  // items; a task that left the loop, or a `remove` that took the half, only has to shut it down.
  datatype Task = Loop(id: Id, w: Half, items: seq<Item>) | Closing(w: Half)

  // ----- The lock sections, as functions of the record map -----

  function InsertRec(m: Records, id: Id, h: Half): Records {
    m[id := StreamRec(Some(h), [], false)]
  }

  function WriteRec(m: Records, id: Id, buf: Item): (Records, Option<Task>) {
    if id !in m then (m, None)
    else
      var s := m[id];
      var q := s.q + [buf];
      if s.write.Some? then (m[id := StreamRec(None, q, s.ended)], Some(Loop(id, s.write.value, [])))
      else (m[id := s.(q := q)], None)
  }

  function RemoveRec(m: Records, id: Id): (Records, Option<Task>) {
    if id !in m then (m, None)
    else if m[id].write.Some? then (m - {id}, Some(Closing(m[id].write.value)))
    else (m[id := m[id].(ended := true)], None)
  }

  // One pass of the loop through the lock, for a task whose batch is used up.
  function LoopRec(m: Records, id: Id, w: Half): (Records, Option<Task>) {
    if id !in m then (m, Some(Closing(w)))
    else
      var s := m[id];
      if s.q == [] then
        if s.ended then (m - {id}, Some(Closing(w)))
        else (m[id := s.(write := Some(w))], None)
      else (m[id := s.(q := [])], Some(Loop(id, w, s.q)))
  }

  // ----- The code: records updated in place -----

  class Streams {
    var records: Records

    constructor ()
      ensures records == map[]
    {
      records := map[];
    }

    method Insert(id: Id, half: Half)
      modifies this
      ensures records == InsertRec(old(records), id, half)
    {
      records := records[id := StreamRec(Some(half), [], false)];
    }

    method Write(id: Id, buf: Item) returns (spawned: Option<Task>)
      modifies this
      ensures (records, spawned) == WriteRec(old(records), id, buf)
    {
      spawned := None;
      if id in records {
        var s := records[id];
        s := s.(q := s.q + [buf]);
        var taken := s.write;
        s := s.(write := None);
        if taken.Some? {
          spawned := Some(Loop(id, taken.value, []));
        }
        records := records[id := s];
      }
    }

    method Remove(id: Id) returns (closing: Option<Task>)
      modifies this
      ensures (records, closing) == RemoveRec(old(records), id)
    {
      closing := None;
      if id in records {
        var s := records[id];
        if s.write.Some? {
          records := records - {id};
          closing := Some(Closing(s.write.value));
        } else {
          records := records[id := s.(ended := true)];
        }
      }
    }
  }

  // The locals of `write_loop`.
  class WriteLoop {
    const id: Id
    const w: Half
    var items: seq<Item>

    constructor (id: Id, w: Half)
      ensures this.id == id && this.w == w && items == []
    {
      this.id, this.w, items := id, w, [];
    }

    // The locked block at the top of the loop; `None` means the task returned the half.
    method LockSection(streams: Streams) returns (next: Option<Task>)
      requires items == []
      modifies this, streams
      ensures (streams.records, next) == LoopRec(old(streams.records), id, w)
      ensures next.Some? && next.value.Loop? ==> next.value.items == items != []
    {
      if id !in streams.records {
        return Some(Closing(w));
      }
      var rec := streams.records[id];
      if rec.q == [] {
        if rec.ended {
          streams.records := streams.records - {id};
          return Some(Closing(w));
        }
        streams.records := streams.records[id := rec.(write := Some(w))];
        return None;
      }
      items, rec := rec.q, rec.(q := items);
      streams.records := streams.records[id := rec];
      next := Some(Loop(id, w, items));
    }
  }

  // ----- The whole system: records, tasks, sinks and the history they are judged by -----

  datatype Sink = Sink(delivered: seq<byte>, broken: bool, shutdowns: nat)

  datatype State = State(
    records: Records,
    tasks: map<nat, Task>,
    nextTask: nat,
    sinks: map<Half, Sink>,
    allocs: nat,                    // ids handed out so far by the shared counter
    pending: set<Half>,             // streams that have their id but are not inserted yet
    current: map<Id, Half>,         // history: the stream last inserted under an id
    accepted: map<Half, seq<byte>>, // history: bytes of the writes that found the stream's record
    place: map<Half, Place>         // history: where the half went last
  )

  datatype Place = InRecord(id: Id) | InTask(k: nat) | Shut | Dropped

  const INIT := State(map[], map[], 0, map[], 0, {}, map[], map[], map[])

  datatype Action =
    | AllocCall                         // the counter also numbers calls
    | AllocStream
    | Insert(half: Half)
    | Write(id: Id, buf: Item)
    | Remove(id: Id)
    | TaskLock(k: nat)
    | TaskWrite(k: nat, n: nat)         // the sink takes the next n bytes of the current item
    | TaskFail(k: nat)                  // the reader is gone: this and every later write fails
    | TaskShutdown(k: nat)

  ghost predicate Enabled(s: State, a: Action) {
    match a
    case Insert(h) => h in s.pending
    case TaskLock(k) => k in s.tasks && s.tasks[k].Loop? && s.tasks[k].items == []
    case TaskWrite(k, n) =>
      && k in s.tasks && s.tasks[k].Loop? && s.tasks[k].items != []
      && s.tasks[k].w in s.sinks && !s.sinks[s.tasks[k].w].broken
      && n <= |s.tasks[k].items[0]| && (n == 0 ==> s.tasks[k].items[0] == [])
    case TaskFail(k) => k in s.tasks && s.tasks[k].Loop? && s.tasks[k].items != [] && s.tasks[k].w in s.sinks
    case TaskShutdown(k) => k in s.tasks && s.tasks[k].Closing? && s.tasks[k].w in s.sinks
    case _ => true
  }

  ghost function Spawn(s: State, t: Option<Task>): State {
    if t.None? then s
    else s.(tasks := s.tasks[s.nextTask := t.value], nextTask := s.nextTask + 1,
            place := s.place[t.value.w := InTask(s.nextTask)])
  }

  // Task k goes on as t, or ends and leaves its half at p.
  ghost function Continue(s: State, k: nat, t: Option<Task>, p: Place): State
    requires k in s.tasks
  {
    if t.Some? then s.(tasks := s.tasks[k := t.value])
    else s.(tasks := s.tasks - {k}, place := s.place[s.tasks[k].w := p])
  }

  ghost function Accept(s: State, id: Id, buf: Item): map<Half, seq<byte>> {
    if id in s.records && id in s.current && s.current[id] in s.accepted
    then s.accepted[s.current[id] := s.accepted[s.current[id]] + buf]
    else s.accepted
  }

  function Shift(items: seq<Item>, n: nat): seq<Item>
    requires items != [] && n <= |items[0]|
  {
    if n == |items[0]| then items[1..] else [items[0][n..]] + items[1..]
  }

  // A record that is replaced is dropped, with the half it may hold.
  ghost function DropRecord(s: State, id: Id): map<Half, Place> {
    if id in s.records && s.records[id].write.Some? then s.place[s.records[id].write.value := Dropped] else s.place
  }

  ghost function DoInsert(s: State, h: Half): State {
    s.(records := InsertRec(s.records, WireId(h), h), pending := s.pending - {h},
       sinks := s.sinks[h := Sink([], false, 0)], accepted := s.accepted[h := []],
       current := s.current[WireId(h) := h], place := DropRecord(s, WireId(h))[h := InRecord(WireId(h))])
  }

  ghost function DoWrite(s: State, id: Id, buf: Item): State {
    var (m, t) := WriteRec(s.records, id, buf);
    Spawn(s.(records := m, accepted := Accept(s, id, buf)), t)
  }

  ghost function DoRemove(s: State, id: Id): State {
    var (m, t) := RemoveRec(s.records, id);
    Spawn(s.(records := m), t)
  }

  ghost function DoLock(s: State, k: nat): State
    requires k in s.tasks && s.tasks[k].Loop?
  {
    var Loop(id, w, _) := s.tasks[k];
    var (m, t) := LoopRec(s.records, id, w);
    Continue(s.(records := m), k, t, InRecord(id))
  }

  ghost function DoTaskWrite(s: State, k: nat, n: nat): State
    requires Enabled(s, TaskWrite(k, n))
  {
    var Loop(id, w, items) := s.tasks[k];
    var sink := s.sinks[w];
    s.(sinks := s.sinks[w := sink.(delivered := sink.delivered + items[0][..n])],
       tasks := s.tasks[k := Loop(id, w, Shift(items, n))])
  }

  // The rest of the batch is dropped and the loop goes back to the lock.
  ghost function DoFail(s: State, k: nat): State
    requires Enabled(s, TaskFail(k))
  {
    var Loop(id, w, _) := s.tasks[k];
    s.(sinks := s.sinks[w := s.sinks[w].(broken := true)], tasks := s.tasks[k := Loop(id, w, [])])
  }

  ghost function DoShutdown(s: State, k: nat): State
    requires Enabled(s, TaskShutdown(k))
  {
    var w := s.tasks[k].w;
    var sink := s.sinks[w];
    Continue(s.(sinks := s.sinks[w := sink.(shutdowns := sink.shutdowns + 1)]), k, None, Shut)
  }

  ghost function Next(s: State, a: Action): State
    requires Enabled(s, a)
  {
    match a
    case AllocCall => s.(allocs := s.allocs + 1)
    case AllocStream => s.(allocs := s.allocs + 1, pending := s.pending + {s.allocs})
    case Insert(h) => DoInsert(s, h)
    case Write(id, buf) => DoWrite(s, id, buf)
    case Remove(id) => DoRemove(s, id)
    case TaskLock(k) => DoLock(s, k)
    case TaskWrite(k, n) => DoTaskWrite(s, k, n)
    case TaskFail(k) => DoFail(s, k)
    case TaskShutdown(k) => DoShutdown(s, k)
  }

  ghost predicate Run(s: State, acts: seq<Action>)
    decreases |acts|
  {
    acts == [] || (Enabled(s, acts[0]) && Run(Next(s, acts[0]), acts[1..]))
  }

  ghost function Exec(s: State, acts: seq<Action>): State
    requires Run(s, acts)
    decreases |acts|
  {
    if acts == [] then s else Exec(Next(s, acts[0]), acts[1..])
  }

  // ----- The invariant -----

  // `pending` is what still has to reach sink h. A sink that never failed is short of exactly that;
  // a failed one holds a prefix of what was accepted.
  ghost predicate Conserved(s: State, h: Half, pending: seq<byte>) {
    && h in s.sinks && h in s.accepted
    && s.sinks[h].delivered <= s.accepted[h]
    && (!s.sinks[h].broken ==> s.sinks[h].delivered + pending == s.accepted[h])
  }

  // A mapped record is idle with the half inside, or busy with the half in a loop task.
  ghost predicate RecordOk(s: State, id: Id)
    requires id in s.records
  {
    && id in s.current && s.current[id] in s.place
    && var h := s.current[id];
    match s.place[h]
    case InRecord(i) => i == id && s.records[id] == StreamRec(Some(h), [], false)
    case InTask(k) => k in s.tasks && s.tasks[k].Loop? && s.tasks[k].id == id && s.records[id].write == None
    case _ => false
  }

  ghost predicate TaskOk(s: State, k: nat)
    requires k in s.tasks
  {
    var t := s.tasks[k];
    && k < s.nextTask
    && t.w in s.place && s.place[t.w] == InTask(k)
    && (t.Loop? ==> t.id in s.records && t.id in s.current && s.current[t.id] == t.w)
  }

  // The bytes that are still on their way to the sink of h.
  ghost function Undelivered(s: State, h: Half): seq<byte> {
    if h in s.place && s.place[h].InTask? && s.place[h].k in s.tasks then
      match s.tasks[s.place[h].k]
      case Loop(id, _, items) => Flatten(items) + (if id in s.records then Flatten(s.records[id].q) else [])
      case Closing(_) => []
    else []
  }

  ghost predicate HalfOk(s: State, h: Half)
    requires h in s.place
  {
    && h < s.allocs && h !in s.pending
    && Conserved(s, h, Undelivered(s, h))
    && s.sinks[h].shutdowns == (if s.place[h] == Shut then 1 else 0)
    && match s.place[h]
       case InRecord(id) => id in s.records && id in s.current && s.current[id] == h
       case InTask(k) => k in s.tasks && s.tasks[k].w == h
       case _ => true
  }

  ghost predicate SerialsOk(s: State) {
    && (forall h :: h in s.pending ==> h < s.allocs)
    && (forall id :: id in s.current ==> WireId(s.current[id]) == id && s.current[id] in s.place)
  }

  ghost predicate RecordsOk(s: State) {
    forall id :: id in s.records ==> RecordOk(s, id)
  }

  ghost predicate TasksOk(s: State) {
    forall k :: k in s.tasks ==> TaskOk(s, k)
  }

  ghost predicate HalvesOk(s: State) {
    forall h :: h in s.place ==> HalfOk(s, h)
  }

  ghost predicate Inv(s: State) {
    SerialsOk(s) && RecordsOk(s) && TasksOk(s) && HalvesOk(s)
  }

  lemma CurrentInjective(s: State, id: Id, id': Id)
    requires SerialsOk(s) && id in s.current && id' in s.current && s.current[id] == s.current[id']
    ensures id == id'
  {
  }

  // Nothing about h differs between s and s'.
  ghost predicate SameHalf(s: State, s': State, h: Half) {
    && h in s.place && h in s'.place && s'.place[h] == s.place[h]
    && h in s.sinks && h in s'.sinks && s'.sinks[h] == s.sinks[h]
    && h in s.accepted && h in s'.accepted && s'.accepted[h] == s.accepted[h]
    && s.allocs <= s'.allocs && h !in s'.pending
    && match s.place[h]
       case InRecord(id) =>
         id in s'.records && id in s.current && id in s'.current && s'.current[id] == s.current[id]
       case InTask(k) =>
         && k in s.tasks && k in s'.tasks && s'.tasks[k] == s.tasks[k]
         && (s.tasks[k].Loop? ==>
               s.tasks[k].id in s.records && s.tasks[k].id in s'.records
               && s'.records[s.tasks[k].id] == s.records[s.tasks[k].id])
       case _ => true
  }

  lemma SameHalfKeeps(s: State, s': State, h: Half)
    requires SameHalf(s, s', h) && HalfOk(s, h)
    ensures HalfOk(s', h)
  {
    assert Undelivered(s', h) == Undelivered(s, h);
  }

  lemma AllocKeepsInv(s: State, allocs: nat, pending: set<Half>)
    requires Inv(s) && s.allocs <= allocs
    requires forall h :: h in pending ==> h < allocs && (h in s.pending || s.allocs <= h)
    ensures Inv(s.(allocs := allocs, pending := pending))
  {
    var s' := s.(allocs := allocs, pending := pending);
    forall id | id in s'.records ensures RecordOk(s', id) {
      assert RecordOk(s, id);
    }
    forall k | k in s'.tasks ensures TaskOk(s', k) {
      assert TaskOk(s, k);
    }
    forall h | h in s'.place ensures HalfOk(s', h) {
      assert HalfOk(s, h);
      if s.place[h].InTask? { assert TaskOk(s, s.place[h].k); }
      SameHalfKeeps(s, s', h);
    }
  }

  // The id is free, or its stream is idle.
  predicate Insertable(s: State, id: Id) {
    id in s.records ==> s.records[id].write.Some?
  }

  lemma InsertSparesRecord(s: State, h: Half, id: Id)
    requires id in s.records && RecordOk(s, id) && id != WireId(h) && h !in s.place
    requires WireId(h) in s.records ==> RecordOk(s, WireId(h)) && s.current[WireId(h)] != s.current[id]
    ensures RecordOk(DoInsert(s, h), id)
  {
  }

  lemma InsertSparesTask(s: State, h: Half, k: nat)
    requires k in s.tasks && TaskOk(s, k) && h !in s.place
    requires WireId(h) in s.records ==> RecordOk(s, WireId(h)) && s.records[WireId(h)].write.Some?
    ensures TaskOk(DoInsert(s, h), k)
  {
  }

  lemma InsertKeepsRecords(s: State, h: Half)
    requires Inv(s) && h in s.pending && Insertable(s, WireId(h))
    ensures RecordsOk(DoInsert(s, h)) && TasksOk(DoInsert(s, h))
  {
    var s' := DoInsert(s, h);
    assert h in s.place ==> HalfOk(s, h);
    assert WireId(h) in s.records ==> RecordOk(s, WireId(h));
    forall id | id in s'.records ensures RecordOk(s', id) {
      if id != WireId(h) {
        assert RecordOk(s, id);
        InsertSparesRecord(s, h, id);
      }
    }
    forall k | k in s'.tasks ensures TaskOk(s', k) {
      InsertSparesTask(s, h, k);
    }
  }

  // What an action on record id, or on the task that has its half, starts from.
  ghost predicate At(s: State, id: Id) {
    && id in s.records && RecordOk(s, id)
    && HalfOk(s, s.current[id])
    && (s.place[s.current[id]].InTask? ==> TaskOk(s, s.place[s.current[id]].k))
    && s.nextTask !in s.tasks
  }

  lemma RecordFacts(s: State, id: Id)
    requires Inv(s) && id in s.records
    ensures At(s, id)
  {
    assert RecordOk(s, id);
    assert s.nextTask in s.tasks ==> TaskOk(s, s.nextTask);
  }

  lemma InsertDropsHalf(s: State, h: Half)
    requires At(s, WireId(h)) && Insertable(s, WireId(h)) && s.current[WireId(h)] != h && h in s.pending
    ensures HalfOk(DoInsert(s, h), s.current[WireId(h)])
  {
    var g := s.current[WireId(h)];
    assert DoInsert(s, h).place[g] == Dropped;
    assert Undelivered(s, g) == [] == Undelivered(DoInsert(s, h), g);
  }

  lemma InsertSparesHalf(s: State, h: Half, g: Half)
    requires g != h && g in s.place && HalfOk(s, g) && h in s.pending
    requires s.place[g].InTask? ==> TaskOk(s, s.place[g].k)
    requires WireId(h) in s.records ==> WireId(h) in s.current && s.current[WireId(h)] != g
    requires WireId(h) in s.records && s.records[WireId(h)].write.Some? ==>
               s.records[WireId(h)].write.value == s.current[WireId(h)]
    requires s.place[g].InTask? && s.tasks[s.place[g].k].Loop? ==> s.tasks[s.place[g].k].id != WireId(h)
    ensures HalfOk(DoInsert(s, h), g)
  {
    SameHalfKeeps(s, DoInsert(s, h), g);
  }

  lemma InsertKeepsHalves(s: State, h: Half)
    requires Inv(s) && h in s.pending && Insertable(s, WireId(h))
    ensures HalvesOk(DoInsert(s, h))
  {
    var s', id := DoInsert(s, h), WireId(h);
    assert h in s.place ==> HalfOk(s, h);
    if id in s.records { RecordFacts(s, id); }
    forall g | g in s'.place ensures HalfOk(s', g) {
      if g != h {
        assert HalfOk(s, g);
        if id in s.records && g == s.current[id] {
          InsertDropsHalf(s, h);
        } else {
          if s.place[g].InTask? { assert TaskOk(s, s.place[g].k); }
          InsertSparesHalf(s, h, g);
        }
      }
    }
  }

  lemma InsertKeepsInv(s: State, h: Half)
    requires Inv(s) && h in s.pending && Insertable(s, WireId(h))
    ensures Inv(DoInsert(s, h))
  {
    InsertKeepsRecords(s, h);
    InsertKeepsHalves(s, h);
  }

  function Put<K, V>(m: map<K, V>, k: K, v: Option<V>): map<K, V> {
    if v.Some? then m[k := v.value] else m - {k}
  }

  // What one action changes: one half, the task k that has it, the record it belongs to.
  datatype Change = Change(
    id: Id, rec: Option<StreamRec>,
    k: nat, task: Option<Task>,
    h: Half, sink: Sink, acc: seq<byte>, at: Place)

  ghost function Apply(s: State, c: Change): State {
    s.(records := Put(s.records, c.id, c.rec),
       tasks := Put(s.tasks, c.k, c.task),
       nextTask := if c.k < s.nextTask then s.nextTask else c.k + 1,
       sinks := s.sinks[c.h := c.sink],
       accepted := s.accepted[c.h := c.acc],
       place := s.place[c.h := c.at])
  }

  // h was in the record or in task k, and belongs to no record but that of id.
  ghost predicate Local(s: State, c: Change) {
    && c.h in s.place
    && (if c.k in s.tasks then s.tasks[c.k].w == c.h && s.place[c.h] == InTask(c.k)
        else c.k == s.nextTask && s.place[c.h] == InRecord(c.id))
    && (forall id :: id in s.records && id in s.current && s.current[id] == c.h ==> id == c.id)
  }

  ghost predicate ChangeOk(s: State, c: Change) {
    var s' := Apply(s, c);
    && (c.task.Some? ==> TaskOk(s', c.k))
    && (c.rec.Some? ==> RecordOk(s', c.id))
    && HalfOk(s', c.h)
    && Spares(s, c)
  }

  // The record of another stream is left alone, and none is made.
  ghost predicate Spares(s: State, c: Change) {
    && (c.id in s.records && (c.id !in s.current || s.current[c.id] != c.h) ==> c.rec == Some(s.records[c.id]))
    && (c.id !in s.records ==> c.rec.None?)
  }

  lemma ApplyKeepsRecords(s: State, c: Change)
    requires RecordsOk(s) && TasksOk(s) && Local(s, c) && Spares(s, c)
    requires c.rec.Some? ==> RecordOk(Apply(s, c), c.id)
    ensures RecordsOk(Apply(s, c))
  {
    var s' := Apply(s, c);
    forall i | i in s'.records ensures RecordOk(s', i) {
      if i != c.id {
        assert RecordOk(s, i);
        var g := s.current[i];
        assert g != c.h;
        if s.place[g].InTask? { assert TaskOk(s, s.place[g].k); }
      }
    }
  }

  lemma ApplyKeepsTasks(s: State, c: Change)
    requires TasksOk(s) && Local(s, c) && Spares(s, c)
    requires c.task.Some? ==> TaskOk(Apply(s, c), c.k)
    ensures TasksOk(Apply(s, c))
  {
    var s' := Apply(s, c);
    forall k | k in s'.tasks ensures TaskOk(s', k) {
      if k != c.k {
        assert TaskOk(s, k);
      }
    }
  }

  lemma ApplyKeepsHalves(s: State, c: Change)
    requires HalvesOk(s) && TasksOk(s) && Local(s, c) && Spares(s, c)
    requires HalfOk(Apply(s, c), c.h)
    ensures HalvesOk(Apply(s, c))
  {
    var s' := Apply(s, c);
    forall g | g in s'.place ensures HalfOk(s', g) {
      if g != c.h {
        assert HalfOk(s, g);
        if s.place[g].InTask? {
          assert TaskOk(s, s.place[g].k);
        }
        SameHalfKeeps(s, s', g);
      }
    }
  }

  lemma ApplyKeepsInv(s: State, c: Change)
    requires Inv(s) && Local(s, c) && ChangeOk(s, c)
    ensures Inv(Apply(s, c))
  {
    ApplyKeepsRecords(s, c);
    ApplyKeepsTasks(s, c);
    ApplyKeepsHalves(s, c);
  }

  // s' is s after change c to the stream of record id.
  ghost predicate Explains(s: State, s': State, id: Id, c: Change) {
    && s' == Apply(s, c) && ChangeOk(s, c)
    && id in s.current && c.id == id && c.h == s.current[id]
    && c.h in s.place
    && (if c.k in s.tasks then s.tasks[c.k].w == c.h && s.place[c.h] == InTask(c.k)
        else c.k == s.nextTask && s.place[c.h] == InRecord(c.id))
  }

  lemma ExplainedKeepsInv(s: State, s': State, id: Id, c: Change)
    requires Inv(s) && id in s.records && Explains(s, s', id, c)
    ensures Inv(s')
  {
    forall i | i in s.records && i in s.current && s.current[i] == c.h ensures i == id {
      CurrentInjective(s, i, id);
    }
    ApplyKeepsInv(s, c);
  }

  lemma WriteToIdle(s: State, id: Id, buf: Item) returns (c: Change)
    requires At(s, id) && s.place[s.current[id]].InRecord?
    ensures Explains(s, DoWrite(s, id, buf), id, c)
  {
    var h := s.current[id];
    c := Change(id, Some(StreamRec(None, [buf], false)), s.nextTask, Some(Loop(id, h, [])),
                h, s.sinks[h], s.accepted[h] + buf, InTask(s.nextTask));
    var s' := DoWrite(s, id, buf);
    assert s.records[id].q + [buf] == [buf];
    FlattenSnoc([], buf);
    assert Undelivered(s', h) == [] + buf;
    assert s'.sinks == s.sinks[h := s.sinks[h]];
  }

  lemma WriteToBusy(s: State, id: Id, buf: Item) returns (c: Change)
    requires At(s, id) && s.place[s.current[id]].InTask?
    ensures Explains(s, DoWrite(s, id, buf), id, c)
  {
    var h, r := s.current[id], s.records[id];
    var k := s.place[h].k;
    c := Change(id, Some(r.(q := r.q + [buf])), k, Some(s.tasks[k]),
                h, s.sinks[h], s.accepted[h] + buf, InTask(k));
    var s' := DoWrite(s, id, buf);
    FlattenSnoc(r.q, buf);
    assert Undelivered(s', h) == Undelivered(s, h) + buf;
    assert s'.tasks == s.tasks[k := s.tasks[k]];
    assert s'.sinks == s.sinks[h := s.sinks[h]];
    assert s'.place == s.place[h := InTask(k)];
  }

  lemma RemoveIdle(s: State, id: Id) returns (c: Change)
    requires At(s, id) && s.place[s.current[id]].InRecord?
    ensures Explains(s, DoRemove(s, id), id, c)
  {
    var h := s.current[id];
    c := Change(id, None, s.nextTask, Some(Closing(h)), h, s.sinks[h], s.accepted[h], InTask(s.nextTask));
    var s' := DoRemove(s, id);
    assert s'.sinks == s.sinks[h := s.sinks[h]];
    assert s'.accepted == s.accepted[h := s.accepted[h]];
    assert Undelivered(s', h) == [];
  }

  lemma RemoveBusy(s: State, id: Id) returns (c: Change)
    requires At(s, id) && s.place[s.current[id]].InTask?
    ensures Explains(s, DoRemove(s, id), id, c)
  {
    var h, r := s.current[id], s.records[id];
    var k := s.place[h].k;
    c := Change(id, Some(r.(ended := true)), k, Some(s.tasks[k]), h, s.sinks[h], s.accepted[h], InTask(k));
    var s' := DoRemove(s, id);
    assert s'.sinks == s.sinks[h := s.sinks[h]];
    assert s'.accepted == s.accepted[h := s.accepted[h]];
    assert s'.tasks == s.tasks[k := s.tasks[k]];
    assert s'.place == s.place[h := InTask(k)];
    assert Undelivered(s', h) == Undelivered(s, h);
  }

  // A loop task, and the record it works for.
  ghost predicate Working(s: State, k: nat) {
    && k in s.tasks && s.tasks[k].Loop? && TaskOk(s, k)
    && At(s, s.tasks[k].id) && s.place[s.tasks[k].w] == InTask(k)
  }

  lemma LoopFacts(s: State, k: nat)
    requires Inv(s) && k in s.tasks && s.tasks[k].Loop?
    ensures Working(s, k)
  {
    assert TaskOk(s, k);
    RecordFacts(s, s.tasks[k].id);
  }

  lemma LockChange(s: State, k: nat) returns (c: Change)
    requires Working(s, k) && s.tasks[k].items == []
    ensures Explains(s, DoLock(s, k), s.tasks[k].id, c)
  {
    var id, h := s.tasks[k].id, s.tasks[k].w;
    var r := s.records[id];
    var (m, t) := LoopRec(s.records, id, h);
    c := Change(id, if id in m then Some(m[id]) else None, k, t, h, s.sinks[h], s.accepted[h],
                if t.Some? then InTask(k) else InRecord(id));
    var s' := DoLock(s, k);
    assert s'.sinks == s.sinks[h := s.sinks[h]];
    assert s'.accepted == s.accepted[h := s.accepted[h]];
    assert t.Some? ==> s'.place == s.place[h := InTask(k)];
    assert Undelivered(s', h) == Undelivered(s, h);
  }

  lemma FlattenShift(items: seq<Item>, n: nat)
    requires items != [] && n <= |items[0]|
    ensures Flatten(items) == items[0][..n] + Flatten(Shift(items, n))
  {
    SplitAt(items[0], n);
    if n < |items[0]| {
      assert Shift(items, n)[1..] == items[1..];
      Regroup(items[0][..n], items[0][n..], Flatten(items[1..]));
    } else {
      assert items[0][..n] == items[0];
    }
  }

  lemma TaskWriteChange(s: State, k: nat, n: nat) returns (c: Change)
    requires Working(s, k) && Enabled(s, TaskWrite(k, n))
    ensures Explains(s, DoTaskWrite(s, k, n), s.tasks[k].id, c)
  {
    var Loop(id, h, items) := s.tasks[k];
    var sink := s.sinks[h];
    var part := items[0][..n];
    c := Change(id, Some(s.records[id]), k, Some(Loop(id, h, Shift(items, n))),
                h, sink.(delivered := sink.delivered + part), s.accepted[h], InTask(k));
    var s' := DoTaskWrite(s, k, n);
    FlattenShift(items, n);
    assert s'.records == s.records[id := s.records[id]];
    assert s'.accepted == s.accepted[h := s.accepted[h]];
    assert s'.place == s.place[h := InTask(k)];
    assert Undelivered(s, h) == part + Undelivered(s', h);
  }

  lemma FailChange(s: State, k: nat) returns (c: Change)
    requires Working(s, k) && Enabled(s, TaskFail(k))
    ensures Explains(s, DoFail(s, k), s.tasks[k].id, c)
  {
    var Loop(id, h, items) := s.tasks[k];
    c := Change(id, Some(s.records[id]), k, Some(Loop(id, h, [])),
                h, s.sinks[h].(broken := true), s.accepted[h], InTask(k));
    var s' := DoFail(s, k);
    assert s'.records == s.records[id := s.records[id]];
    assert s'.accepted == s.accepted[h := s.accepted[h]];
    assert s'.place == s.place[h := InTask(k)];
  }

  lemma ShutdownChange(s: State, k: nat) returns (c: Change)
    requires k in s.tasks && s.tasks[k].Closing? && TaskOk(s, k)
    requires var h := s.tasks[k].w;
             && HalfOk(s, h)
             && (WireId(h) in s.records ==> RecordOk(s, WireId(h)) && s.current[WireId(h)] != h)
    ensures Enabled(s, TaskShutdown(k)) && DoShutdown(s, k) == Apply(s, c) && ChangeOk(s, c)
    ensures c.h == s.tasks[k].w && c.k == k
  {
    var h := s.tasks[k].w;
    var id := WireId(h);
    var rec := if id in s.records then Some(s.records[id]) else None;
    c := Change(id, rec, k, None, h, s.sinks[h].(shutdowns := 1), s.accepted[h], Shut);
    assert Put(s.records, id, rec) == s.records;
    assert s.accepted == s.accepted[h := s.accepted[h]];
    assert DoShutdown(s, k) == Apply(s, c);
    if id in s.records && s.place[s.current[id]].InTask? {
      assert s.place[s.current[id]].k != k;
    }
  }

  lemma ShutdownKeepsInv(s: State, k: nat)
    requires Inv(s) && Enabled(s, TaskShutdown(k))
    ensures Inv(DoShutdown(s, k))
  {
    var h := s.tasks[k].w;
    assert TaskOk(s, k) && HalfOk(s, h);
    forall i | i in s.records ensures RecordOk(s, i) && s.current[i] != h {
      assert RecordOk(s, i);
    }
    var c := ShutdownChange(s, k);
    ApplyKeepsInv(s, c);
  }

  lemma WriteKeepsInv(s: State, id: Id, buf: Item)
    requires Inv(s)
    ensures Inv(DoWrite(s, id, buf))
  {
    if id in s.records {
      RecordFacts(s, id);
      var c;
      if s.place[s.current[id]].InRecord? { c := WriteToIdle(s, id, buf); } else { c := WriteToBusy(s, id, buf); }
      ExplainedKeepsInv(s, DoWrite(s, id, buf), id, c);
    }
  }

  lemma RemoveKeepsInv(s: State, id: Id)
    requires Inv(s)
    ensures Inv(DoRemove(s, id))
  {
    if id in s.records {
      RecordFacts(s, id);
      var c;
      if s.place[s.current[id]].InRecord? { c := RemoveIdle(s, id); } else { c := RemoveBusy(s, id); }
      ExplainedKeepsInv(s, DoRemove(s, id), id, c);
    }
  }

  lemma LockKeepsInv(s: State, k: nat)
    requires Inv(s) && Enabled(s, TaskLock(k))
    ensures Inv(DoLock(s, k))
  {
    LoopFacts(s, k);
    var c := LockChange(s, k);
    ExplainedKeepsInv(s, DoLock(s, k), s.tasks[k].id, c);
  }

  lemma TaskWriteKeepsInv(s: State, k: nat, n: nat)
    requires Inv(s) && Enabled(s, TaskWrite(k, n))
    ensures Inv(DoTaskWrite(s, k, n))
  {
    LoopFacts(s, k);
    var c := TaskWriteChange(s, k, n);
    ExplainedKeepsInv(s, DoTaskWrite(s, k, n), s.tasks[k].id, c);
  }

  lemma FailKeepsInv(s: State, k: nat)
    requires Inv(s) && Enabled(s, TaskFail(k))
    ensures Inv(DoFail(s, k))
  {
    LoopFacts(s, k);
    var c := FailChange(s, k);
    ExplainedKeepsInv(s, DoFail(s, k), s.tasks[k].id, c);
  }

  lemma AllocStepKeepsInv(s: State, a: Action)
    requires Inv(s) && (a.AllocCall? || a.AllocStream?)
    ensures Inv(Next(s, a))
  {
    AllocKeepsInv(s, s.allocs + 1, if a.AllocCall? then s.pending else s.pending + {s.allocs});
  }

  lemma CallerStepKeepsInv(s: State, a: Action)
    requires Inv(s) && Enabled(s, a) && (a.Insert? || a.Write? || a.Remove?)
    requires a.Insert? ==> Insertable(s, WireId(a.half))
    ensures Inv(Next(s, a))
  {
    match a
    case Insert(h) => InsertKeepsInv(s, h);
    case Write(id, buf) => WriteKeepsInv(s, id, buf);
    case Remove(id) => RemoveKeepsInv(s, id);
  }

  // Every action keeps the invariant, an `Insert` provided that no busy stream has its id.
  lemma StepKeepsInv(s: State, a: Action)
    requires Inv(s) && Enabled(s, a)
    requires a.Insert? ==> Insertable(s, WireId(a.half))
    ensures Inv(Next(s, a))
  {
    if a.TaskLock? {
      LockKeepsInv(s, a.k);
    } else if a.TaskWrite? {
      TaskWriteKeepsInv(s, a.k, a.n);
    } else if a.TaskFail? {
      FailKeepsInv(s, a.k);
    } else if a.TaskShutdown? {
      ShutdownKeepsInv(s, a.k);
    } else if a.AllocCall? || a.AllocStream? {
      AllocStepKeepsInv(s, a);
    } else {
      CallerStepKeepsInv(s, a);
    }
  }

  // An insert keeps the invariant exactly when its id is free or its stream idle: over a busy record it
  // strands a half.
  lemma InsertKeepsInvIff(s: State, h: Half)
    requires Inv(s) && Enabled(s, Insert(h))
    ensures Inv(Next(s, Insert(h))) <==> Insertable(s, WireId(h))
  {
    var id := WireId(h);
    if Insertable(s, id) {
      InsertKeepsInv(s, h);
    } else {
      RecordFacts(s, id);
      var g, s' := s.current[id], DoInsert(s, h);
      assert g in s'.place && s'.current[id] == h != g;
      assert !TaskOk(s', s.place[g].k);
    }
  }

  // What an insert over a mapped id costs the stream that was there, at once: exactly what is still queued
  // for it. Its loop's batch still gets through, and a sink that failed had no claim to more.
  lemma InsertLosesBytesIff(s: State, h: Half)
    requires Inv(s) && Enabled(s, Insert(h)) && WireId(h) in s.records
    ensures var s' := Next(s, Insert(h));
            && WireId(h) in s.current && s.current[WireId(h)] in s.sinks
            && var g := s.current[WireId(h)];
            Conserved(s', g, Undelivered(s', g)) <==> s.sinks[g].broken || Flatten(s.records[WireId(h)].q) == []
  {
    var id := WireId(h);
    RecordFacts(s, id);
    var g, s' := s.current[id], DoInsert(s, h);
    assert h !in s.place by { assert h in s.place ==> HalfOk(s, h); }
    assert s'.sinks[g] == s.sinks[g] && s'.accepted[g] == s.accepted[g];
    if s.place[g].InTask? {
      var items := s.tasks[s.place[g].k].items;
      assert Undelivered(s, g) == Flatten(items) + Flatten(s.records[id].q);
      assert Undelivered(s', g) == Flatten(items) + [];
      SameWithoutIff(s.sinks[g].delivered, Flatten(items), Flatten(s.records[id].q));
    }
  }

  lemma SameWithoutIff(a: seq<byte>, b: seq<byte>, c: seq<byte>)
    ensures a + (b + []) == a + (b + c) <==> c == []
  {
    assert |a + (b + c)| == |a + (b + [])| + |c|;
  }
}
