/**
 * `RpcCaller::call` and `RpcDispatcher::dispatch_with_partial`: requests and their replies, calls and
 * their callbacks, in any interleaving of callers, the receive loop and the futures it spawned.
 */
module RpcDispatch {
  import opened Common

  // What `PartialIncoming` shows of a message.
  datatype Msg = Msg(id: Option<Id>, name: Option<string>, isError: bool)

  datatype Handler = Sync | Async | Duplex

  // How a handler ends; parameters that do not deserialize never reach it.
  datatype Outcome = BadParams | Returned | Raised

  datatype Reply = Success(id: Id) | Failure(id: Id, code: int)

  // A callback that ran: the call it belongs to, and whether it was given an error.
  datatype Firing = Firing(call: nat, isError: bool)

  // What a dispatch hands its caller: a reply at once, a future, a future with the request its streams
  // belong to, or a panic.
  datatype MaybeSync =
    | Now(reply: Option<Reply>)
    | Future(badParams: bool)
    | Stream(forRequest: Option<Id>)
    | Panicked

  function ReplyTo(id: Option<Id>, o: Outcome): Option<Reply> {
    if id.None? then None
    else match o
      case BadParams => Some(Failure(id.value, 0))
      case Returned => Some(Success(id.value))
      case Raised => Some(Failure(id.value, -1))
  }

  // The callback of the n-th allocated id, a serial number, is stored under the id itself, which wraps.
  type Calls = map<Id, nat>

  // ----- What a dispatch does -----

  datatype Dispatched = Dispatched(r: MaybeSync, calls: Calls, poisoned: bool, fired: Option<Firing>)

  function DispatchSpec(methods: map<string, Handler>, calls: Calls, poisoned: bool, msg: Msg, o: Outcome): Dispatched {
    match msg.name
    case Some(m) =>
      var r :=
        if m !in methods then Now(ReplyTo(msg.id, Raised))
        else match methods[m]
          case Sync => Now(ReplyTo(msg.id, o))
          case Async => Future(o == BadParams)
          case Duplex => Stream(if o == BadParams then None else Some(if msg.id.Some? then msg.id.value else 0));
      Dispatched(r, calls, poisoned, None)
    case None =>
      if poisoned || msg.id.None? then Dispatched(Panicked, calls, true, None)
      else if msg.id.value in calls then
        Dispatched(Now(None), calls - {msg.id.value}, false, Some(Firing(calls[msg.id.value], msg.isError)))
      else Dispatched(Now(None), calls, false, None)
  }

  // ----- The code -----

  class Dispatcher {
    const methods: map<string, Handler>
    var calls: Calls
    // A panic while the lock on `calls` is held poisons it, and every later lock panics in turn.
    var poisoned: bool

    constructor (methods: map<string, Handler>)
      ensures this.methods == methods && calls == map[] && !poisoned
    {
      this.methods, calls, poisoned := methods, map[], false;
    }

    // The second half of `call`: the message has been sent already.
    method StoreCallback(call: nat) returns (panicked: bool)
      modifies this
      ensures poisoned == old(poisoned) == panicked
      ensures calls == if panicked then old(calls) else old(calls)[WireId(call) := call]
    {
      panicked := poisoned;
      if !poisoned {
        calls := calls[WireId(call) := call];
      }
    }

    method Dispatch(msg: Msg, o: Outcome) returns (r: MaybeSync, fired: Option<Firing>)
      modifies this
      ensures Dispatched(r, calls, poisoned, fired) == DispatchSpec(methods, old(calls), old(poisoned), msg, o)
    {
      fired := None;
      if msg.name.Some? {
        if msg.name.value !in methods {
          r := Now(if msg.id.Some? then Some(Failure(msg.id.value, -1)) else None);
        } else {
          match methods[msg.name.value]
          case Sync => r := Now(ReplyTo(msg.id, o));
          case Async => r := Future(o == BadParams);
          case Duplex => r := Stream(if o == BadParams then None else Some(if msg.id.Some? then msg.id.value else 0));
        }
      } else if poisoned || msg.id.None? {
        poisoned := true;
        r := Panicked;
      } else {
        if msg.id.value in calls {
          fired := Some(Firing(calls[msg.id.value], msg.isError));
          calls := calls - {msg.id.value};
        }
        r := Now(None);
      }
    }
  }

  // ----- Runs -----

  // A spawned future; a request whose parameters were bad has one too, which is ready at once.
  datatype Task = Task(badParams: bool)

  datatype State = State(
    methods: map<string, Handler>,
    calls: Calls,
    poisoned: bool,
    allocs: nat,
    sent: set<nat>,                 // calls sent whose callback is not stored yet
    msgs: seq<Msg>,                 // messages received
    given: seq<Outcome>,            // history: what came of each at once; bad parameters, if nothing else
    streams: map<nat, Id>,          // the request the r-th message's streams are announced for
    tasks: map<nat, Task>,          // the future of the r-th message
    outbox: seq<Sent>,              // replies sent back
    fired: seq<(nat, Firing)>)      // callbacks run, with the message that ran each

  // A call allocates an id, for nothing if its message cannot be sent; streams allocate ids too.
  datatype Action =
    | Allocate(sent: bool)
    | Store(call: nat)
    | Receive(msg: Msg, o: Outcome)
    | Finish(r: nat, o: Outcome)

  ghost predicate Enabled(s: State, a: Action) {
    match a
    case Allocate(_) => true
    case Store(call) => call in s.sent
    case Receive(_, _) => true
    case Finish(r, o) => r in s.tasks && (s.tasks[r].badParams <==> o == BadParams)
  }

  // A reply, with the message it answers and how that message's handler ended.
  datatype Sent = Sent(r: nat, o: Outcome, reply: Reply)

  function Post(outbox: seq<Sent>, r: nat, o: Outcome, reply: Option<Reply>): seq<Sent> {
    if reply.Some? then outbox + [Sent(r, o, reply.value)] else outbox
  }

  function AddTask(tasks: map<nat, Task>, r: nat, result: MaybeSync): map<nat, Task> {
    match result
    case Future(bad) => tasks[r := Task(bad)]
    case Stream(streams) => tasks[r := Task(streams.None?)]
    case _ => tasks
  }

  ghost function DoReceive(s: State, msg: Msg, o: Outcome): State {
    var d := DispatchSpec(s.methods, s.calls, s.poisoned, msg, o);
    s.(msgs := s.msgs + [msg], given := s.given + [o], calls := d.calls, poisoned := d.poisoned,
       streams := if d.r.Stream? && d.r.forRequest.Some? then s.streams[|s.msgs| := d.r.forRequest.value]
                  else s.streams,
       tasks := AddTask(s.tasks, |s.msgs|, d.r),
       outbox := Post(s.outbox, |s.msgs|, o, if d.r.Now? then d.r.reply else None),
       fired := if d.fired.Some? then s.fired + [(|s.msgs|, d.fired.value)] else s.fired)
  }

  ghost function Next(s: State, a: Action): State
    requires Enabled(s, a)
  {
    match a
    case Allocate(sent) => s.(allocs := s.allocs + 1, sent := if sent then s.sent + {s.allocs} else s.sent)
    case Store(call) =>
      s.(sent := s.sent - {call}, calls := if s.poisoned then s.calls else s.calls[WireId(call) := call])
    case Receive(msg, o) => DoReceive(s, msg, o)
    case Finish(r, o) =>
      s.(tasks := s.tasks - {r},
         outbox := if r < |s.msgs| then Post(s.outbox, r, o, ReplyTo(s.msgs[r].id, o)) else s.outbox)
  }

  ghost predicate Run(s: State, acts: seq<Action>)
    decreases |acts|
  {
    acts == [] || (Enabled(s, acts[0]) && Run(Next(s, acts[0]), acts[1..]))
  }

  ghost function Exec(s: State, acts: seq<Action>): State
    requires Run(s, acts)
    decreases |acts|
  {
    if acts == [] then s else Exec(Next(s, acts[0]), acts[1..])
  }

  function Init(methods: map<string, Handler>): State {
    State(methods, map[], false, 0, {}, [], [], map[], map[], [], [])
  }

  // ----- Replies -----

  predicate Expects(m: Msg) {
    m.name.Some? && m.id.Some?
  }

  function ReplyCount(outbox: seq<Sent>, r: nat): nat {
    if outbox == [] then 0
    else ReplyCount(outbox[..|outbox| - 1], r) + if outbox[|outbox| - 1].r == r then 1 else 0
  }

  predicate Known(methods: map<string, Handler>, m: Msg) {
    m.name.Some? && m.name.value in methods
  }

  // The reply carries the message's id; it is a success exactly if a known method's handler returned, and
  // its error code is 0 exactly if the parameters of a known method were bad.
  predicate Fits(methods: map<string, Handler>, m: Msg, given: Outcome, sent: Sent) {
    && Expects(m) && sent.reply.id == m.id.value
    && (sent.o == BadParams <==> given == BadParams)
    && (Known(methods, m) && methods[m.name.value] == Sync ==> sent.o == given)
    && (sent.reply.Success? <==> Known(methods, m) && sent.o == Returned)
    && (sent.reply.Failure? ==> sent.reply.code == if Known(methods, m) && given == BadParams then 0 else -1)
  }

  ghost predicate RequestOk(s: State, r: nat)
    requires r < |s.msgs| == |s.given|
  {
    var m := s.msgs[r];
    && (r in s.tasks ==>
          && Known(s.methods, m) && s.methods[m.name.value] != Sync
          && (s.tasks[r].badParams <==> s.given[r] == BadParams))
    && ReplyCount(s.outbox, r) + (if r in s.tasks && m.id.Some? then 1 else 0) == (if Expects(m) then 1 else 0)
  }

  ghost predicate RepliesOk(s: State) {
    && |s.given| == |s.msgs|
    && (forall r :: 0 <= r < |s.msgs| ==> RequestOk(s, r))
    && (forall r :: r in s.tasks ==> r < |s.msgs|)
    && (forall k :: 0 <= k < |s.outbox| ==>
          && s.outbox[k].r < |s.msgs|
          && Fits(s.methods, s.msgs[s.outbox[k].r], s.given[s.outbox[k].r], s.outbox[k]))
  }

  lemma AnswersPost(outbox: seq<Sent>, r: nat, o: Outcome, reply: Option<Reply>, r': nat)
    ensures ReplyCount(Post(outbox, r, o, reply), r') ==
              ReplyCount(outbox, r') + if reply.Some? && r' == r then 1 else 0
  {
    if reply.Some? {
      assert Post(outbox, r, o, reply)[..|outbox|] == outbox;
    }
  }

  lemma {:induction false} NoAnswersYet(outbox: seq<Sent>, r: nat)
    requires forall k :: 0 <= k < |outbox| ==> outbox[k].r < r
    ensures ReplyCount(outbox, r) == 0
  {
    if outbox != [] {
      NoAnswersYet(outbox[..|outbox| - 1], r);
    }
  }

  // What a dispatch adds for the message it received.
  lemma DispatchAnswers(s: State, msg: Msg, o: Outcome)
    ensures var d := DispatchSpec(s.methods, s.calls, s.poisoned, msg, o);
            && (d.r.Now? && d.r.reply.Some? ==> Fits(s.methods, msg, o, Sent(|s.msgs|, o, d.r.reply.value)))
            && (d.r.Future? || d.r.Stream? ==> Known(s.methods, msg) && s.methods[msg.name.value] != Sync)
            && (d.r.Future? ==> (d.r.badParams <==> o == BadParams))
            && (d.r.Stream? ==> (d.r.forRequest.None? <==> o == BadParams))
            && (Expects(msg) <==> (d.r.Now? && d.r.reply.Some?) || ((d.r.Future? || d.r.Stream?) && msg.id.Some?))
  {
  }

  lemma ReceiveAnswers(s: State, msg: Msg, o: Outcome, r: nat)
    requires |s.given| == |s.msgs| && (r < |s.msgs| ==> RequestOk(s, r))
    requires r == |s.msgs| ==> ReplyCount(s.outbox, r) == 0 && r !in s.tasks
    requires r <= |s.msgs|
    ensures RequestOk(DoReceive(s, msg, o), r)
  {
    var result := DispatchSpec(s.methods, s.calls, s.poisoned, msg, o).r;
    AnswersPost(s.outbox, |s.msgs|, o, if result.Now? then result.reply else None, r);
    DispatchAnswers(s, msg, o);
  }

  lemma ReceiveKeepsReplies(s: State, msg: Msg, o: Outcome)
    requires RepliesOk(s)
    ensures RepliesOk(DoReceive(s, msg, o))
  {
    var n, s' := |s.msgs|, DoReceive(s, msg, o);
    NoAnswersYet(s.outbox, n);
    DispatchAnswers(s, msg, o);
    forall r | 0 <= r < |s'.msgs| ensures RequestOk(s', r) {
      if r < n { assert RequestOk(s, r); }
      ReceiveAnswers(s, msg, o, r);
    }
    forall k | 0 <= k < |s'.outbox|
      ensures s'.outbox[k].r < |s'.msgs|
      ensures Fits(s.methods, s'.msgs[s'.outbox[k].r], s'.given[s'.outbox[k].r], s'.outbox[k])
    {
      if k < |s.outbox| { assert s'.outbox[k] == s.outbox[k]; }
    }
  }

  lemma FinishKeepsReplies(s: State, r: nat, o: Outcome)
    requires RepliesOk(s) && Enabled(s, Finish(r, o))
    ensures RepliesOk(Next(s, Finish(r, o)))
  {
    var s' := Next(s, Finish(r, o));
    assert RequestOk(s, r);
    forall r' | 0 <= r' < |s'.msgs| ensures RequestOk(s', r') {
      AnswersPost(s.outbox, r, o, ReplyTo(s.msgs[r].id, o), r');
      assert RequestOk(s, r');
    }
  }

  lemma CallsKeepReplies(s: State, a: Action)
    requires RepliesOk(s) && Enabled(s, a) && (a.Allocate? || a.Store?)
    ensures RepliesOk(Next(s, a))
  {
    forall r | 0 <= r < |s.msgs| ensures RequestOk(Next(s, a), r) {
      assert RequestOk(s, r);
    }
  }

  lemma {:induction false} RunKeepsReplies(s: State, acts: seq<Action>)
    requires RepliesOk(s) && Run(s, acts)
    ensures RepliesOk(Exec(s, acts))
    decreases |acts|
  {
    if acts != [] {
      var s' := Next(s, acts[0]);
      assert RepliesOk(s') by {
        match acts[0] {
          case Receive(msg, o) => ReceiveKeepsReplies(s, msg, o);
          case Finish(r, o) => FinishKeepsReplies(s, r, o);
          case Allocate(_) => CallsKeepReplies(s, acts[0]);
          case Store(_) => CallsKeepReplies(s, acts[0]);
        }
      }
      RunKeepsReplies(s', acts[1..]);
    }
  }

  // A message with a method and an id gets one reply, which carries that id, once its future is done,
  // and none before; no other message gets any.
  lemma OneReplyPerRequest(methods: map<string, Handler>, acts: seq<Action>, r: nat)
    requires Run(Init(methods), acts) && r < |Exec(Init(methods), acts).msgs|
    ensures var s := Exec(Init(methods), acts);
            && |s.given| == |s.msgs|
            && ReplyCount(s.outbox, r) == (if Expects(s.msgs[r]) && r !in s.tasks then 1 else 0)
            && forall k :: 0 <= k < |s.outbox| && s.outbox[k].r == r ==>
                 Fits(s.methods, s.msgs[r], s.given[r], s.outbox[k])
  {
    RunKeepsReplies(Init(methods), acts);
    assert RequestOk(Exec(Init(methods), acts), r);
  }

  // A synchronous method is answered at once; any other gets a future, whatever comes of its parameters.
  lemma OthersWait(s: State, msg: Msg, o: Outcome)
    requires RepliesOk(s)
    ensures |s.msgs| in DoReceive(s, msg, o).tasks <==> Known(s.methods, msg) && s.methods[msg.name.value] != Sync
  {
  }

  // ----- Streams -----

  predicate StreamOk(s: State, r: nat)
    requires r < |s.msgs| == |s.given|
  {
    var m := s.msgs[r];
    && (r in s.streams <==> Known(s.methods, m) && s.methods[m.name.value] == Duplex && s.given[r] != BadParams)
    && (r in s.streams ==> s.streams[r] == if m.id.Some? then m.id.value else 0)
  }

  ghost predicate StreamsOk(s: State) {
    && |s.given| == |s.msgs|
    && (forall r :: r in s.streams ==> r < |s.msgs|)
    && (forall r :: 0 <= r < |s.msgs| ==> StreamOk(s, r))
  }

  lemma ReceiveKeepsStreams(s: State, msg: Msg, o: Outcome)
    requires StreamsOk(s)
    ensures StreamsOk(DoReceive(s, msg, o))
  {
    var s' := DoReceive(s, msg, o);
    forall r | 0 <= r < |s'.msgs| ensures StreamOk(s', r) {
      if r < |s.msgs| { assert StreamOk(s, r); }
    }
  }

  lemma StepKeepsStreams(s: State, a: Action)
    requires StreamsOk(s) && Enabled(s, a)
    ensures StreamsOk(Next(s, a))
  {
    if a.Receive? {
      ReceiveKeepsStreams(s, a.msg, a.o);
    } else {
      forall r | 0 <= r < |s.msgs| ensures StreamOk(Next(s, a), r) { assert StreamOk(s, r); }
    }
  }

  lemma {:induction false} RunKeepsStreams(s: State, acts: seq<Action>)
    requires StreamsOk(s) && Run(s, acts)
    ensures StreamsOk(Exec(s, acts))
    decreases |acts|
  {
    if acts != [] {
      StepKeepsStreams(s, acts[0]);
      RunKeepsStreams(Next(s, acts[0]), acts[1..]);
    }
  }

  lemma {:induction false} MethodsStay(s: State, acts: seq<Action>)
    requires Run(s, acts)
    ensures Exec(s, acts).methods == s.methods
    decreases |acts|
  {
    if acts != [] {
      MethodsStay(Next(s, acts[0]), acts[1..]);
    }
  }

  // In every run, streams are announced exactly for the messages that name a duplex method with good
  // parameters, and for the request that the reply to the same message answers; those of a message
  // without an id, which gets no reply, for request 0.
  lemma StreamsFollowRequests(methods: map<string, Handler>, acts: seq<Action>, r: nat)
    requires Run(Init(methods), acts) && r < |Exec(Init(methods), acts).msgs|
    ensures var s := Exec(Init(methods), acts); var m := s.msgs[r];
            && |s.given| == |s.msgs|
            && (r in s.streams <==> Known(methods, m) && methods[m.name.value] == Duplex && s.given[r] != BadParams)
            && (r in s.streams && m.id.None? ==> s.streams[r] == 0)
            && (r in s.streams && m.id.Some? ==> s.streams[r] == m.id.value)
            && forall k :: 0 <= k < |s.outbox| && s.outbox[k].r == r && r in s.streams ==>
                 s.outbox[k].reply.id == s.streams[r]
  {
    RunKeepsStreams(Init(methods), acts);
    RunKeepsReplies(Init(methods), acts);
    MethodsStay(Init(methods), acts);
    assert StreamOk(Exec(Init(methods), acts), r);
  }

  // ----- Callbacks -----

  ghost predicate StoredOk(calls: Calls, sent: set<nat>, allocs: nat) {
    && (forall id :: id in calls ==> WireId(calls[id]) == id && calls[id] < allocs && calls[id] !in sent)
    && (forall c :: c in sent ==> c < allocs)
  }

  // The k-th callback ran for a response with its call's id, and was given what that response carried.
  predicate FitsResponse(msgs: seq<Msg>, fired: (nat, Firing)) {
    fired.0 < |msgs| && msgs[fired.0] == Msg(Some(WireId(fired.1.call)), None, fired.1.isError)
  }

  ghost predicate FiredOk(fired: seq<(nat, Firing)>, msgs: seq<Msg>, calls: Calls, sent: set<nat>, allocs: nat) {
    && (forall k :: 0 <= k < |fired| ==>
          && FitsResponse(msgs, fired[k]) && fired[k].1.call < allocs && fired[k].1.call !in sent
          && (WireId(fired[k].1.call) in calls ==> calls[WireId(fired[k].1.call)] != fired[k].1.call))
    && (forall j, k :: 0 <= j < k < |fired| ==> fired[j].1.call != fired[k].1.call)
  }

  ghost predicate CallsOk(s: State) {
    StoredOk(s.calls, s.sent, s.allocs) && FiredOk(s.fired, s.msgs, s.calls, s.sent, s.allocs)
  }

  lemma MessageKeepsFired(fired: seq<(nat, Firing)>, msgs: seq<Msg>, msg: Msg,
                          calls: Calls, sent: set<nat>, allocs: nat)
    requires FiredOk(fired, msgs, calls, sent, allocs)
    ensures FiredOk(fired, msgs + [msg], calls, sent, allocs)
  {
    forall k | 0 <= k < |fired| ensures FitsResponse(msgs + [msg], fired[k]) {
      assert FitsResponse(msgs, fired[k]);
    }
  }

  // The callback under the id of the r-th message runs.
  lemma FiringKeepsFired(fired: seq<(nat, Firing)>, msgs: seq<Msg>, r: nat, calls: Calls, sent: set<nat>, allocs: nat)
    requires FiredOk(fired, msgs, calls, sent, allocs) && StoredOk(calls, sent, allocs)
    requires r < |msgs| && msgs[r].name.None? && msgs[r].id.Some? && msgs[r].id.value in calls
    ensures var id := msgs[r].id.value;
            FiredOk(fired + [(r, Firing(calls[id], msgs[r].isError))], msgs, calls - {id}, sent, allocs)
  {
    var id := msgs[r].id.value;
    forall k | 0 <= k < |fired| ensures fired[k].1.call != calls[id] {
      assert FitsResponse(msgs, fired[k]) && WireId(calls[id]) == id;
    }
  }

  lemma ReceiveKeepsCalls(s: State, msg: Msg, o: Outcome)
    requires CallsOk(s)
    ensures CallsOk(DoReceive(s, msg, o))
  {
    var d := DispatchSpec(s.methods, s.calls, s.poisoned, msg, o);
    MessageKeepsFired(s.fired, s.msgs, msg, s.calls, s.sent, s.allocs);
    if d.fired.Some? {
      FiringKeepsFired(s.fired, s.msgs + [msg], |s.msgs|, s.calls, s.sent, s.allocs);
    }
  }

  lemma StepKeepsCalls(s: State, a: Action)
    requires CallsOk(s) && Enabled(s, a)
    ensures CallsOk(Next(s, a))
  {
    if a.Receive? { ReceiveKeepsCalls(s, a.msg, a.o); }
  }

  lemma {:induction false} RunKeepsCalls(s: State, acts: seq<Action>)
    requires CallsOk(s) && Run(s, acts)
    ensures CallsOk(Exec(s, acts))
    decreases |acts|
  {
    if acts != [] {
      StepKeepsCalls(s, acts[0]);
      RunKeepsCalls(Next(s, acts[0]), acts[1..]);
    }
  }

  // However calls, messages and wrapped-around ids interleave, a callback runs at most once, only for a
  // response with its call's id, and with the outcome that response carries.
  lemma CallbackOnce(methods: map<string, Handler>, acts: seq<Action>)
    requires Run(Init(methods), acts)
    ensures var s := Exec(Init(methods), acts);
            && (forall k :: 0 <= k < |s.fired| ==> FitsResponse(s.msgs, s.fired[k]))
            && (forall j, k :: 0 <= j < k < |s.fired| ==> s.fired[j].1.call != s.fired[k].1.call)
  {
    RunKeepsCalls(Init(methods), acts);
  }

  // ----- Exactly when a callback runs -----

  predicate IsResponse(a: Action, id: Id) {
    a.Receive? && a.msg.name.None? && a.msg.id == Some(id)
  }

  // Neither a request nor a response.
  predicate Poisons(a: Action) {
    a.Receive? && a.msg.name.None? && a.msg.id.None?
  }

  // Another call's callback takes the place.
  predicate Replaces(a: Action, call: nat) {
    a.Store? && a.call != call && WireId(a.call) == WireId(call)
  }

  ghost predicate Waiting(s: State, call: nat) {
    WireId(call) in s.calls && s.calls[WireId(call)] == call
  }

  ghost predicate Fired(s: State, call: nat) {
    exists k :: 0 <= k < |s.fired| && s.fired[k].1.call == call
  }

  // One step, wrapped ids and poisoned locks included.
  lemma StepFires(s: State, a: Action, call: nat)
    requires CallsOk(s) && Enabled(s, a)
    ensures Fired(Next(s, a), call) <==>
              Fired(s, call) || (Waiting(s, call) && !s.poisoned && IsResponse(a, WireId(call)))
    ensures Waiting(Next(s, a), call) <==>
              if s.poisoned then Waiting(s, call)
              else (Waiting(s, call) && !IsResponse(a, WireId(call)) && !Replaces(a, call)) || a == Store(call)
    ensures Next(s, a).poisoned <==> s.poisoned || Poisons(a)
  {
    var s' := Next(s, a);
    assert s.fired <= s'.fired;
    if a.Receive? && |s'.fired| > |s.fired| {
      assert s'.fired[|s.fired|].1.call == s.calls[a.msg.id.value];
    }
    forall k | 0 <= k < |s.fired| ensures s'.fired[k] == s.fired[k] {}
  }

  // Whether the actions run the callback of a call that is waiting or not, under a lock that is poisoned
  // or not.
  predicate FiresIn(acts: seq<Action>, call: nat, waiting: bool, poisoned: bool)
    decreases |acts|
  {
    acts != [] && !poisoned
    && var a := acts[0];
    || (waiting && IsResponse(a, WireId(call)))
    || FiresIn(acts[1..], call, (waiting && !Replaces(a, call)) || a == Store(call), Poisons(a))
  }

  lemma {:induction false} FiredFrom(s: State, acts: seq<Action>, call: nat)
    requires CallsOk(s) && Run(s, acts)
    ensures Fired(Exec(s, acts), call) <==> Fired(s, call) || FiresIn(acts, call, Waiting(s, call), s.poisoned)
    decreases |acts|
  {
    if acts != [] {
      var s' := Next(s, acts[0]);
      StepKeepsCalls(s, acts[0]);
      StepFires(s, acts[0], call);
      FiredFrom(s', acts[1..], call);
    }
  }

  // A response at j finds the callback in place: nothing has replaced it since i, and nothing has
  // poisoned the lock.
  ghost predicate Answers(acts: seq<Action>, call: nat, i: int, j: nat) {
    && i < j < |acts| && IsResponse(acts[j], WireId(call))
    && (forall k :: 0 <= k < j ==> !Poisons(acts[k]))
    && (forall k :: i < k < j && 0 <= k ==> !Replaces(acts[k], call))
  }

  ghost predicate AnsweredAfterStore(acts: seq<Action>, call: nat) {
    exists i: nat, j: nat :: i < |acts| && acts[i] == Store(call) && Answers(acts, call, i, j)
  }

  lemma AnswersShift(acts: seq<Action>, call: nat, i: int, j: nat)
    requires acts != [] && j > 0 && -1 <= i
    requires !Poisons(acts[0]) && (i == -1 ==> !Replaces(acts[0], call))
    ensures Answers(acts, call, i, j) <==> Answers(acts[1..], call, if i == -1 then -1 else i - 1, j - 1)
  {
    var rest := acts[1..];
    assert forall k :: 0 <= k < |rest| ==> rest[k] == acts[k + 1];
    assert forall k :: 0 < k < |acts| ==> acts[k] == rest[k - 1];
  }

  ghost predicate AnsweredIfWaiting(acts: seq<Action>, call: nat) {
    exists j: nat :: Answers(acts, call, -1, j)
  }

  // What a first action that does not poison the lock leaves to the others.
  lemma AnsweredStep(acts: seq<Action>, call: nat)
    requires acts != [] && !Poisons(acts[0])
    ensures var a, rest := acts[0], acts[1..];
            && (AnsweredIfWaiting(acts, call) <==>
                  IsResponse(a, WireId(call)) || (!Replaces(a, call) && AnsweredIfWaiting(rest, call)))
            && (AnsweredAfterStore(acts, call) <==>
                  (a == Store(call) && AnsweredIfWaiting(rest, call)) || AnsweredAfterStore(rest, call))
  {
    var a, rest := acts[0], acts[1..];
    if IsResponse(a, WireId(call)) {
      assert Answers(acts, call, -1, 0);
    }
    forall j: nat | j > 0 && !Replaces(a, call)
      ensures Answers(acts, call, -1, j) <==> Answers(rest, call, -1, j - 1)
    {
      AnswersShift(acts, call, -1, j);
    }
    forall i: nat, j: nat | i < j ensures Answers(acts, call, i, j) <==> Answers(rest, call, i - 1, j - 1) {
      AnswersShift(acts, call, i, j);
    }
    AnsweredBack(acts, call);
    if i: nat, j: nat :| i < |acts| && acts[i] == Store(call) && Answers(acts, call, i, j) {
      if i > 0 { assert rest[i - 1] == Store(call) && Answers(rest, call, i - 1, j - 1); }
    }
  }

  lemma AnsweredBack(acts: seq<Action>, call: nat)
    requires acts != [] && !Poisons(acts[0])
    ensures var a, rest := acts[0], acts[1..];
            && (!Replaces(a, call) && AnsweredIfWaiting(rest, call) ==> AnsweredIfWaiting(acts, call))
            && (a == Store(call) && AnsweredIfWaiting(rest, call) ==> AnsweredAfterStore(acts, call))
            && (AnsweredAfterStore(rest, call) ==> AnsweredAfterStore(acts, call))
  {
    var a, rest := acts[0], acts[1..];
    if j: nat :| Answers(rest, call, -1, j) {
      if !Replaces(a, call) {
        AnswersShift(acts, call, -1, j + 1);
        assert Answers(acts, call, -1, j + 1);
      }
      AnswersShift(acts, call, 0, j + 1);
    }
    if i: nat, j: nat :| i < |rest| && rest[i] == Store(call) && Answers(rest, call, i, j) {
      AnswersShift(acts, call, i + 1, j + 1);
      assert acts[i + 1] == Store(call) && Answers(acts, call, i + 1, j + 1);
    }
  }

  lemma {:induction false} FiresInIff(acts: seq<Action>, call: nat, waiting: bool)
    ensures FiresIn(acts, call, waiting, false) <==>
              (waiting && AnsweredIfWaiting(acts, call)) || AnsweredAfterStore(acts, call)
    decreases |acts|
  {
    if acts != [] {
      var a, rest := acts[0], acts[1..];
      if Poisons(a) {
        assert !FiresIn(rest, call, (waiting && !Replaces(a, call)) || a == Store(call), true);
      } else {
        AnsweredStep(acts, call);
        FiresInIff(rest, call, (waiting && !Replaces(a, call)) || a == Store(call));
      }
    }
  }

  // In every run, the callback of a call has run exactly if a response with the call's id came after
  // the callback was stored, with no callback of another call stored over it in between, and no
  // message with neither a method nor an id before.
  lemma CallbackIff(methods: map<string, Handler>, acts: seq<Action>, call: nat)
    requires Run(Init(methods), acts)
    ensures Fired(Exec(Init(methods), acts), call) <==> AnsweredAfterStore(acts, call)
  {
    FiredFrom(Init(methods), acts, call);
    FiresInIff(acts, call, false);
  }

  lemma {:induction false} AllocsGrow(s: State, acts: seq<Action>)
    requires Run(s, acts)
    ensures s.allocs <= Exec(s, acts).allocs
    decreases |acts|
  {
    if acts != [] {
      AllocsGrow(Next(s, acts[0]), acts[1..]);
    }
  }

  // Until the counter wraps, no callback is stored over another one.
  lemma {:induction false} FewAllocsNoReplacing(s: State, acts: seq<Action>, call: nat, k: nat)
    requires CallsOk(s) && Run(s, acts) && Exec(s, acts).allocs <= ID_SPACE && call < ID_SPACE && k < |acts|
    ensures !Replaces(acts[k], call)
    decreases |acts|
  {
    var s' := Next(s, acts[0]);
    AllocsGrow(s', acts[1..]);
    if k > 0 {
      StepKeepsCalls(s, acts[0]);
      FewAllocsNoReplacing(s', acts[1..], call, k - 1);
    }
  }

  // ----- Responses that are lost -----

  lemma StepRun(s: State, a: Action, rest: seq<Action>)
    requires Enabled(s, a) && Run(Next(s, a), rest)
    ensures Run(s, [a] + rest) && Exec(s, [a] + rest) == Exec(Next(s, a), rest)
  {
    assert ([a] + rest)[1..] == rest;
  }

  // The callback is stored after the message is sent: a response in between is lost, and the call stays
  // pending.
  lemma EarlyResponseIsLost()
    ensures var acts := [Allocate(true), Receive(Msg(Some(0), None, false), Returned), Store(0)];
            && Run(Init(map[]), acts)
            && Exec(Init(map[]), acts).fired == [] && Exec(Init(map[]), acts).calls == map[0 := 0]
  {
    var s, respond := Init(map[]), Receive(Msg(Some(0), None, false), Returned);
    var s1 := Next(s, Allocate(true));
    assert s1.sent == {0};
    var s2 := Next(s1, respond);
    StepRun(s2, Store(0), []);
    StepRun(s1, respond, [Store(0)] + []);
    StepRun(s, Allocate(true), [respond] + ([Store(0)] + []));
    assert [Allocate(true), respond, Store(0)] == [Allocate(true)] + ([respond] + ([Store(0)] + []));
  }

  // After a message with neither a method nor an id, the response to a pending call is lost.
  lemma PoisonedResponseIsLost()
    ensures var acts := [Allocate(true), Store(0), Receive(Msg(None, None, false), Returned),
                         Receive(Msg(Some(0), None, false), Returned)];
            && Run(Init(map[]), acts)
            && Exec(Init(map[]), acts).fired == [] && Exec(Init(map[]), acts).poisoned
  {
    var s := Init(map[]);
    var poison, respond := Receive(Msg(None, None, false), Returned), Receive(Msg(Some(0), None, false), Returned);
    var s1 := Next(s, Allocate(true));
    assert s1.sent == {0};
    var s2 := Next(s1, Store(0));
    var s3 := Next(s2, poison);
    StepRun(s3, respond, []);
    StepRun(s2, poison, [respond] + []);
    StepRun(s1, Store(0), [poison] + ([respond] + []));
    StepRun(s, Allocate(true), [Store(0)] + ([poison] + ([respond] + [])));
    assert [Allocate(true), Store(0), poison, respond] ==
           [Allocate(true)] + ([Store(0)] + ([poison] + ([respond] + [])));
  }

  // ----- A wrapped id -----

  function Unsent(k: nat): seq<Action> {
    seq(k, _ => Allocate(false))
  }

  lemma {:induction false} Allocating(s: State, k: nat, rest: seq<Action>)
    requires Run(s.(allocs := s.allocs + k), rest)
    ensures Run(s, Unsent(k) + rest)
    ensures Exec(s, Unsent(k) + rest) == Exec(s.(allocs := s.allocs + k), rest)
    decreases k
  {
    if k == 0 {
      assert Unsent(0) + rest == rest;
    } else {
      Allocating(Next(s, Allocate(false)), k - 1, rest);
      StepRun(s, Allocate(false), Unsent(k - 1) + rest);
      assert Unsent(k) + rest == [Allocate(false)] + (Unsent(k - 1) + rest);
    }
  }

  // A call whose id has wrapped around is made, and a response with the id arrives.
  function WrappedCall(call: nat, msg: Msg): seq<Action> {
    [Allocate(true)] + ([Store(call)] + ([Receive(msg, Returned)] + []))
  }

  lemma WrappedCallFires(s: State, msg: Msg)
    requires s == Init(map[]).(calls := map[0 := 0], allocs := ID_SPACE) && msg == Msg(Some(0), None, false)
    ensures Run(s, WrappedCall(ID_SPACE, msg))
    ensures Exec(s, WrappedCall(ID_SPACE, msg)).fired == [(0, Firing(ID_SPACE, false))]
  {
    var s1 := Next(s, Allocate(true));
    assert s1.sent == {ID_SPACE};
    var s2 := Next(s1, Store(ID_SPACE));
    assert s2.calls == map[0 := ID_SPACE];
    StepRun(s2, Receive(msg, Returned), []);
    StepRun(s1, Store(ID_SPACE), [Receive(msg, Returned)] + []);
    StepRun(s, Allocate(true), [Store(ID_SPACE)] + ([Receive(msg, Returned)] + []));
  }

  // After 2^32 allocations a pending call is forgotten: a response with its id runs the callback that was
  // stored over its own.
  lemma WrappedIdStealsResponse()
    ensures exists acts :: Run(Init(map[]), acts) && [Allocate(true), Store(0)] <= acts
                           && Exec(Init(map[]), acts).fired == [(0, Firing(ID_SPACE, false))]
  {
    var msg, k: nat := Msg(Some(0), None, false), ID_SPACE - 1;
    var s, later := Init(map[]), WrappedCall(ID_SPACE, Msg(Some(0), None, false));
    var s1 := Next(s, Allocate(true));
    assert s1.sent == {0};
    var s2 := Next(s1, Store(0));
    assert s2.sent == {} && s2.calls == map[0 := 0];
    WrappedCallFires(s2.(allocs := s2.allocs + k), msg);
    Allocating(s2, k, later);
    StepRun(s1, Store(0), Unsent(k) + later);
    StepRun(s, Allocate(true), [Store(0)] + (Unsent(k) + later));
    var acts := [Allocate(true)] + ([Store(0)] + (Unsent(k) + later));
    assert acts[..2] == [Allocate(true), Store(0)];
  }

  // The lock is poisoned exactly if a message with neither a method nor an id has come.
  lemma {:induction false} PoisonedIff(s: State, acts: seq<Action>)
    requires Run(s, acts)
    ensures Exec(s, acts).poisoned <==> s.poisoned || exists k :: 0 <= k < |acts| && Poisons(acts[k])
    decreases |acts|
  {
    if acts != [] {
      var rest := acts[1..];
      PoisonedIff(Next(s, acts[0]), rest);
      assert forall j :: 0 <= j < |rest| ==> rest[j] == acts[j + 1];
      assert forall j :: 0 < j < |acts| ==> acts[j] == rest[j - 1];
    }
  }
}
