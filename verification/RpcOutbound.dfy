/**
 * `RpcDispatcher::register_stream` and the reader task it spawns for each stream: what reaches the
 * connection, under any interleaving of registrations, readers and other senders.
 */
module RpcOutbound {
  import opened Common

  const SEGMENT_MAX: nat := 4096

  datatype Out =
    | Started(ids: seq<Id>, forRequest: Id)
    | Data(stream: Id, segment: seq<byte>)
    | Ended(stream: Id)
    | Other

  // ----- The far end -----

  // One stream as the far end sees it; an id may carry several, one after the other.
  datatype Session = Session(bytes: seq<byte>, ended: bool)

  // What the far end knows of one id; `Bad` once a message is out of place or out of size.
  datatype View = Bad | Good(sessions: seq<Session>)

  predicate IsOpen(v: View) {
    v.Good? && v.sessions != [] && !v.sessions[|v.sessions| - 1].ended
  }

  // The latest stream goes on.
  function Continued(v: View, segment: seq<byte>, ended: bool): View
    requires IsOpen(v)
  {
    var k := |v.sessions| - 1;
    Good(v.sessions[k := Session(v.sessions[k].bytes + segment, ended)])
  }

  function After(v: View, m: Out, id: Id): View {
    match m
    case Started(ids, _) =>
      if id !in ids then v else if v.Good? && !IsOpen(v) then Good(v.sessions + [Session([], false)]) else Bad
    case Data(stream, segment) =>
      if stream != id then v
      else if IsOpen(v) && 1 <= |segment| <= SEGMENT_MAX then Continued(v, segment, false) else Bad
    case Ended(stream) => if stream != id then v else if IsOpen(v) then Continued(v, [], true) else Bad
    case Other => v
  }

  function Seen(sent: seq<Out>, id: Id): View {
    if sent == [] then Good([]) else After(Seen(sent[..|sent| - 1], id), sent[|sent| - 1], id)
  }

  lemma SeenSnoc(sent: seq<Out>, m: Out, id: Id)
    ensures Seen(sent + [m], id) == After(Seen(sent, id), m, id)
  {
    assert (sent + [m])[..|sent|] == sent;
  }

  predicate IsFor(m: Out, id: Id) {
    (m.Data? && m.stream == id) || (m.Ended? && m.stream == id)
  }

  predicate Announces(m: Out, id: Id) {
    m.Started? && id in m.ids
  }

  function Segments(sent: seq<Out>, id: Id): seq<seq<byte>> {
    if sent == [] then []
    else
      var m := sent[|sent| - 1];
      Segments(sent[..|sent| - 1], id) + if m.Data? && m.stream == id then [m.segment] else []
  }

  function AllBytes(sessions: seq<Session>): seq<byte> {
    if sessions == [] then [] else AllBytes(sessions[..|sessions| - 1]) + sessions[|sessions| - 1].bytes
  }

  // An announcement at j, and no end from there to i.
  ghost predicate OpenSince(sent: seq<Out>, id: Id, j: nat, i: nat) {
    j < i <= |sent| && Announces(sent[j], id) && forall k :: j < k < i ==> sent[k] != Ended(id)
  }

  lemma {:induction false} OpenMeans(sent: seq<Out>, id: Id)
    requires Seen(sent, id).Good?
    ensures IsOpen(Seen(sent, id)) <==> exists j: nat :: OpenSince(sent, id, j, |sent|)
  {
    if sent != [] {
      var n := |sent| - 1;
      var before := sent[..n];
      OpenMeans(before, id);
      forall j: nat | j < n ensures OpenSince(before, id, j, n) <==> OpenSince(sent, id, j, n) {
        assert forall k :: 0 <= k < n ==> before[k] == sent[k];
      }
      forall j: nat | j < n
        ensures OpenSince(sent, id, j, |sent|) <==> OpenSince(sent, id, j, n) && sent[n] != Ended(id)
      {
      }
      if Announces(sent[n], id) { assert OpenSince(sent, id, n, |sent|); }
    }
  }

  lemma {:induction false} GoodBefore(sent: seq<Out>, id: Id, i: nat)
    requires Seen(sent, id).Good? && i <= |sent|
    ensures Seen(sent[..i], id).Good?
    ensures i < |sent| ==> After(Seen(sent[..i], id), sent[i], id).Good?
    decreases |sent|
  {
    if i < |sent| {
      var before := sent[..|sent| - 1];
      if i < |before| {
        GoodBefore(before, id, i);
        assert before[..i] == sent[..i];
      }
    } else {
      assert sent[..i] == sent;
    }
  }

  lemma ContinuedBytes(v: View, segment: seq<byte>, ended: bool)
    requires IsOpen(v)
    ensures AllBytes(Continued(v, segment, ended).sessions) == AllBytes(v.sessions) + segment
  {
    var k := |v.sessions| - 1;
    assert Continued(v, segment, ended).sessions[..k] == v.sessions[..k];
    Regroup(AllBytes(v.sessions[..k]), v.sessions[k].bytes, segment);
  }

  lemma StartedBytes(sessions: seq<Session>)
    ensures AllBytes(sessions + [Session([], false)]) == AllBytes(sessions)
  {
    assert (sessions + [Session([], false)])[..|sessions|] == sessions;
  }

  lemma AfterBytes(v: View, m: Out, id: Id)
    requires v.Good? && After(v, m, id).Good?
    ensures AllBytes(After(v, m, id).sessions) ==
              AllBytes(v.sessions) + if m.Data? && m.stream == id then m.segment else []
  {
    if IsFor(m, id) {
      ContinuedBytes(v, if m.Data? then m.segment else [], m.Ended?);
    } else {
      StartedBytes(v.sessions);
    }
  }

  lemma {:induction false} SeenBytes(sent: seq<Out>, id: Id)
    requires Seen(sent, id).Good?
    ensures forall segment :: segment in Segments(sent, id) ==> 1 <= |segment| <= SEGMENT_MAX
    ensures Flatten(Segments(sent, id)) == AllBytes(Seen(sent, id).sessions)
  {
    if sent != [] {
      var before, m := sent[..|sent| - 1], sent[|sent| - 1];
      SeenBytes(before, id);
      AfterBytes(Seen(before, id), m, id);
      if m.Data? && m.stream == id {
        FlattenSnoc(Segments(before, id), m.segment);
      } else {
        assert Segments(sent, id) == Segments(before, id);
      }
    }
  }

  lemma SeenOrder(sent: seq<Out>, id: Id, i: nat)
    requires Seen(sent, id).Good? && i < |sent|
    ensures IsFor(sent[i], id) ==> exists j: nat :: OpenSince(sent, id, j, i)
    ensures Announces(sent[i], id) ==> forall j: nat :: !OpenSince(sent, id, j, i)
  {
    GoodBefore(sent, id, i);
    OpenMeans(sent[..i], id);
    forall j: nat ensures OpenSince(sent[..i], id, j, i) <==> OpenSince(sent, id, j, i) {
      assert forall k :: 0 <= k < i ==> sent[..i][k] == sent[k];
    }
  }

  // What a good view amounts to: data and ends come only between the announcement of a stream and its
  // end, no stream is announced before the one before it has ended, the segments have the size of a read,
  // and together they are the bytes of the streams.
  lemma SeenMeans(sent: seq<Out>, id: Id)
    requires Seen(sent, id).Good?
    ensures forall i: nat :: i < |sent| && IsFor(sent[i], id) ==> exists j: nat :: OpenSince(sent, id, j, i)
    ensures forall i: nat, j: nat :: i < |sent| && Announces(sent[i], id) ==> !OpenSince(sent, id, j, i)
    ensures forall segment :: segment in Segments(sent, id) ==> 1 <= |segment| <= SEGMENT_MAX
    ensures Flatten(Segments(sent, id)) == AllBytes(Seen(sent, id).sessions)
  {
    SeenBytes(sent, id);
    forall i: nat | i < |sent|
      ensures IsFor(sent[i], id) ==> exists j: nat :: OpenSince(sent, id, j, i)
      ensures Announces(sent[i], id) ==> forall j: nat :: !OpenSince(sent, id, j, i)
    {
      SeenOrder(sent, id, i);
    }
  }

  // ----- One reader -----

  predicate ReadsFit(chunks: seq<seq<byte>>) {
    forall i :: 0 <= i < |chunks| ==> |chunks[i]| <= SEGMENT_MAX
  }

  // The successive reads up to the end of the stream, which an empty read, an error or nothing marks.
  function UpToEnd(chunks: seq<seq<byte>>): seq<seq<byte>> {
    if chunks == [] || chunks[0] == [] then [] else [chunks[0]] + UpToEnd(chunks[1..])
  }

  lemma {:induction false} UpToEndSnoc(chunks: seq<seq<byte>>, i: nat)
    requires i <= |chunks| && forall k :: 0 <= k < i ==> chunks[k] != []
    ensures i < |chunks| && chunks[i] != [] ==> i + 1 <= |UpToEnd(chunks)|
    ensures i == |chunks| || chunks[i] == [] ==> UpToEnd(chunks) == chunks[..i]
    ensures i <= |UpToEnd(chunks)| && UpToEnd(chunks)[..i] == chunks[..i]
  {
    if i > 0 {
      UpToEndSnoc(chunks[1..], i - 1);
      assert chunks[..i] == [chunks[0]] + chunks[1..][..i - 1];
    }
  }

  // Another part of the latest stream.
  lemma ContinuedTwice(v: View, a: seq<byte>, b: seq<byte>, ended: bool)
    requires IsOpen(v)
    ensures IsOpen(Continued(v, a, false)) && Continued(Continued(v, a, false), b, ended) == Continued(v, a + b, ended)
  {
    var k := |v.sessions| - 1;
    Regroup(v.sessions[k].bytes, a, b);
    assert v.sessions[k := Session(v.sessions[k].bytes + a, false)][k := Session(v.sessions[k].bytes + a + b, ended)]
        == v.sessions[k := Session(v.sessions[k].bytes + (a + b), ended)];
  }

  lemma ReaderStep(before: seq<Out>, sent: seq<Out>, id: Id, v: View, chunks: seq<seq<byte>>, i: nat)
    requires IsOpen(v) && i < |chunks| && 1 <= |chunks[i]| <= SEGMENT_MAX
    requires Seen(before + sent, id) == Continued(v, Flatten(chunks[..i]), false)
    ensures Seen(before + (sent + [Data(id, chunks[i])]), id) == Continued(v, Flatten(chunks[..i + 1]), false)
  {
    var m := Data(id, chunks[i]);
    SeenSnoc(before + sent, m, id);
    Regroup(before, sent, [m]);
    assert chunks[..i + 1] == chunks[..i] + [chunks[i]];
    FlattenSnoc(chunks[..i], chunks[i]);
    ContinuedTwice(v, Flatten(chunks[..i]), chunks[i], false);
  }

  lemma ReaderEnd(before: seq<Out>, sent: seq<Out>, id: Id, v: View, bytes: seq<byte>)
    requires IsOpen(v) && Seen(before + sent, id) == Continued(v, bytes, false)
    ensures Seen(before + (sent + [Ended(id)]), id) == Continued(v, bytes, true)
  {
    SeenSnoc(before + sent, Ended(id), id);
    Regroup(before, sent, [Ended(id)]);
    ContinuedTwice(v, bytes, [], true);
    assert bytes + [] == bytes;
  }

  /**
   * The reader task alone. The channel accepts `room` more messages before its receiver is gone. A far
   * end to which the stream is open gets every byte up to the first refused message, and the end exactly
   * if nothing was refused; a refused segment stops the task, a refused end is ignored.
   */
  method ReaderTask(id: Id, chunks: seq<seq<byte>>, room: nat, ghost before: seq<Out>)
      returns (sent: seq<Out>)
    requires ReadsFit(chunks) && IsOpen(Seen(before, id))
    ensures var n := |UpToEnd(chunks)|;
            var delivered := Flatten(UpToEnd(chunks)[..if room < n then room else n]);
            Seen(before + sent, id) == Continued(Seen(before, id), delivered, n < room)
    ensures |sent| <= room && forall k :: 0 <= k < |sent| ==> IsFor(sent[k], id)
  {
    sent := [];
    var i := 0;
    ghost var v := Seen(before, id);
    assert before + sent == before;
    assert v.sessions[|v.sessions| - 1].bytes + [] == v.sessions[|v.sessions| - 1].bytes;
    assert Continued(v, [], false) == v by {
      var k := |v.sessions| - 1;
      assert v.sessions[k := v.sessions[k]] == v.sessions;
    }
    while i < |chunks| && chunks[i] != []
      invariant i == |sent| <= |chunks| && i <= room
      invariant forall k :: 0 <= k < i ==> chunks[k] != []
      invariant forall k :: 0 <= k < |sent| ==> IsFor(sent[k], id)
      invariant Seen(before + sent, id) == Continued(v, Flatten(chunks[..i]), false)
    {
      UpToEndSnoc(chunks, i);
      if |sent| == room {
        return;
      }
      ReaderStep(before, sent, id, v, chunks, i);
      sent := sent + [Data(id, chunks[i])];
      i := i + 1;
    }
    UpToEndSnoc(chunks, i);
    assert UpToEnd(chunks)[..i] == chunks[..i];
    if |sent| < room {
      ReaderEnd(before, sent, id, v, Flatten(chunks[..i]));
      sent := sent + [Ended(id)];
    }
  }

  // ----- Runs -----

  // A stream is named by the serial number of its id's allocation.
  datatype Registration = Registration(ids: seq<nat>, forRequest: Id, phase: RegPhase)

  datatype RegPhase = Building | Announced(spawned: nat) | Refused

  datatype ReaderPhase = Reading | Sending(segment: seq<byte>) | AtEnd | Finished | Aborted

  datatype Reader = Reader(phase: ReaderPhase, read: seq<byte>)

  datatype State = State(
    allocs: nat,
    regs: seq<Registration>,
    owner: map<nat, nat>,         // which registration a stream belongs to
    readers: map<nat, Reader>,
    sent: seq<Out>,               // the messages the channel accepted
    closed: bool,
    served: map<Id, seq<nat>>)    // history: the streams announced under each id, in order

  datatype Action =
    | Allocate                           // an id for something else
    | NewRegistration(forRequest: Id)
    | AddStream(r: nat)
    | Announce(r: nat)
    | Spawn(r: nat)
    | Read(n: nat, segment: seq<byte>)
    | ReadEnd(n: nat)
    | Send(n: nat)
    | SendOther
    | Close

  predicate Enabled(s: State, a: Action) {
    match a
    case AddStream(r) => r < |s.regs| && s.regs[r].phase.Building?
    case Announce(r) => r < |s.regs| && s.regs[r].phase.Building?
    case Spawn(r) =>
      r < |s.regs| && s.regs[r].phase.Announced? && s.regs[r].phase.spawned < |s.regs[r].ids|
    case Read(n, segment) =>
      n in s.readers && s.readers[n].phase.Reading? && 1 <= |segment| <= SEGMENT_MAX
    case ReadEnd(n) => n in s.readers && s.readers[n].phase.Reading?
    case Send(n) => n in s.readers && (s.readers[n].phase.Sending? || s.readers[n].phase.AtEnd?)
    case SendOther => !s.closed
    case _ => true
  }

  function WireIds(ids: seq<nat>): seq<Id> {
    seq(|ids|, i requires 0 <= i < |ids| => WireId(ids[i]))
  }

  function Served(served: map<Id, seq<nat>>, id: Id): seq<nat> {
    if id in served then served[id] else []
  }

  function ServeAll(served: map<Id, seq<nat>>, ids: seq<nat>): map<Id, seq<nat>> {
    if ids == [] then served
    else
      var before, n := ServeAll(served, ids[..|ids| - 1]), ids[|ids| - 1];
      before[WireId(n) := Served(before, WireId(n)) + [n]]
  }

  function Outgoing(n: nat, rd: Reader): Out {
    if rd.phase.Sending? then Data(WireId(n), rd.phase.segment) else Ended(WireId(n))
  }

  function SendStep(s: State, n: nat): State
    requires Enabled(s, Send(n))
  {
    var rd := s.readers[n];
    var phase := if rd.phase.AtEnd? then Finished else if s.closed then Aborted else Reading;
    s.(sent := if s.closed then s.sent else s.sent + [Outgoing(n, rd)],
       readers := s.readers[n := Reader(phase, rd.read)])
  }

  function Next(s: State, a: Action): State
    requires Enabled(s, a)
  {
    match a
    case Allocate => s.(allocs := s.allocs + 1)
    case NewRegistration(req) => s.(regs := s.regs + [Registration([], req, Building)])
    case AddStream(r) =>
      s.(allocs := s.allocs + 1, owner := s.owner[s.allocs := r],
         regs := s.regs[r := s.regs[r].(ids := s.regs[r].ids + [s.allocs])])
    case Announce(r) =>
      if s.closed then s.(regs := s.regs[r := s.regs[r].(phase := Refused)])
      else s.(regs := s.regs[r := s.regs[r].(phase := Announced(0))],
              sent := s.sent + [Started(WireIds(s.regs[r].ids), s.regs[r].forRequest)],
              served := ServeAll(s.served, s.regs[r].ids))
    case Spawn(r) =>
      var k := s.regs[r].phase.spawned;
      s.(regs := s.regs[r := s.regs[r].(phase := Announced(k + 1))],
         readers := s.readers[s.regs[r].ids[k] := Reader(Reading, [])])
    case Read(n, segment) =>
      s.(readers := s.readers[n := Reader(Sending(segment), s.readers[n].read + segment)])
    case ReadEnd(n) => s.(readers := s.readers[n := s.readers[n].(phase := AtEnd)])
    case Send(n) => SendStep(s, n)
    case SendOther => s.(sent := s.sent + [Other])
    case Close => s.(closed := true)
  }

  predicate Run(s: State, acts: seq<Action>)
    decreases |acts|
  {
    acts == [] || (Enabled(s, acts[0]) && Run(Next(s, acts[0]), acts[1..]))
  }

  function Exec(s: State, acts: seq<Action>): State
    requires Run(s, acts)
    decreases |acts|
  {
    if acts == [] then s else Exec(Next(s, acts[0]), acts[1..])
  }

  const INIT := State(0, [], map[], map[], [], false, map[])

  // ----- The invariant -----

  // What the far end may have of a stream, given how far its reader is. Only a closed channel loses
  // anything: the segment whose sending failed, or the end.
  predicate ReaderOk(rd: Reader, x: Session, closed: bool) {
    match rd.phase
    case Reading => x == Session(rd.read, false)
    case Sending(segment) => 1 <= |segment| <= SEGMENT_MAX && !x.ended && rd.read == x.bytes + segment
    case AtEnd => x == Session(rd.read, false)
    case Finished => x.bytes == rd.read && (x.ended || closed)
    case Aborted => closed && !x.ended && x.bytes < rd.read && |rd.read| <= |x.bytes| + SEGMENT_MAX
  }

  predicate IsAnnounced(s: State, n: nat) {
    n in s.owner && s.owner[n] < |s.regs| && s.regs[s.owner[n]].phase.Announced?
  }

  // Session x of id is the one of stream n.
  predicate LineOk(s: State, id: Id, n: nat, x: Session) {
    && IsAnnounced(s, n) && WireId(n) == id
    && if n in s.readers then ReaderOk(s.readers[n], x, s.closed) else x == Session([], false)
  }

  // The far end's sessions of an id are the streams announced under it, one after the other.
  ghost predicate LinesOk(s: State, id: Id) {
    var v, ns := Seen(s.sent, id), Served(s.served, id);
    && v.Good? && |v.sessions| == |ns| && NoDuplicates(ns)
    && (forall k :: 0 <= k < |ns| ==> LineOk(s, id, ns[k], v.sessions[k]))
    && (forall k :: 0 <= k < |ns| - 1 ==> v.sessions[k].ended)
  }

  predicate RegOk(s: State, r: nat)
    requires r < |s.regs|
  {
    var reg := s.regs[r];
    && (forall i :: 0 <= i < |reg.ids| ==> reg.ids[i] in s.owner && s.owner[reg.ids[i]] == r)
    && (forall i, j :: 0 <= i < j < |reg.ids| ==> reg.ids[i] < reg.ids[j])
    && (forall i :: 0 <= i < |reg.ids| && reg.ids[i] in s.readers ==>
          reg.phase.Announced? && i < reg.phase.spawned)
  }

  predicate OwnersOk(s: State) {
    && (forall n :: n in s.owner ==> s.owner[n] < |s.regs| && n < s.allocs && n in s.regs[s.owner[n]].ids)
    && (forall n :: n in s.readers ==> IsAnnounced(s, n))
  }

  predicate StreamOk(s: State, n: nat) {
    IsAnnounced(s, n) ==> n in Served(s.served, WireId(n))
  }

  ghost predicate RegsOk(s: State) {
    OwnersOk(s) && forall r :: 0 <= r < |s.regs| ==> RegOk(s, r)
  }

  ghost predicate Inv(s: State) {
    RegsOk(s) && (forall n: nat :: StreamOk(s, n)) && forall id: Id :: LinesOk(s, id)
  }

  // ----- Sending -----

  // What a reader sends goes to the latest session of its own id, and of no other.
  lemma SendExtends(s: State, n: nat, id: Id)
    requires Enabled(s, Send(n))
    ensures var s', before, phase := SendStep(s, n), Seen(s.sent, id), s.readers[n].phase;
            Seen(s'.sent, id) ==
              if s.closed || id != WireId(n) then before
              else if !IsOpen(before) then Bad
              else if phase.AtEnd? then Continued(before, [], true)
              else if 1 <= |phase.segment| <= SEGMENT_MAX then Continued(before, phase.segment, false)
              else Bad
  {
    SeenSnoc(s.sent, Outgoing(n, s.readers[n]), id);
  }

  // The session of a reader that has something to send is the latest.
  lemma SenderIsLatest(s: State, n: nat)
    requires Enabled(s, Send(n)) && LinesOk(s, WireId(n)) && n in Served(s.served, WireId(n))
    ensures var v, ns := Seen(s.sent, WireId(n)), Served(s.served, WireId(n));
            IsOpen(v) && ns[|ns| - 1] == n && ReaderOk(s.readers[n], v.sessions[|ns| - 1], s.closed)
  {
    var v, ns := Seen(s.sent, WireId(n)), Served(s.served, WireId(n));
    var k :| 0 <= k < |ns| && ns[k] == n;
    assert LineOk(s, WireId(n), ns[k], v.sessions[k]);
  }

  lemma SendKeepsOwnLines(s: State, n: nat)
    requires Enabled(s, Send(n)) && LinesOk(s, WireId(n)) && n in Served(s.served, WireId(n))
    ensures LinesOk(SendStep(s, n), WireId(n))
  {
    var s', id := SendStep(s, n), WireId(n);
    var v, ns := Seen(s.sent, id), Served(s.served, id);
    SenderIsLatest(s, n);
    SendExtends(s, n, id);
    forall k | 0 <= k < |ns| ensures LineOk(s', id, ns[k], Seen(s'.sent, id).sessions[k]) {
      assert LineOk(s, id, ns[k], v.sessions[k]);
      assert k < |ns| - 1 ==> ns[k] != n;
    }
  }

  lemma SendSparesLines(s: State, n: nat, id: Id)
    requires Enabled(s, Send(n)) && LinesOk(s, id) && id != WireId(n)
    ensures LinesOk(SendStep(s, n), id)
  {
    SendExtends(s, n, id);
    var s', ns := SendStep(s, n), Served(s.served, id);
    forall k | 0 <= k < |ns| ensures LineOk(s', id, ns[k], Seen(s'.sent, id).sessions[k]) {
      assert LineOk(s, id, ns[k], Seen(s.sent, id).sessions[k]);
    }
  }

  lemma SendKeepsInv(s: State, n: nat)
    requires Inv(s) && Enabled(s, Send(n))
    ensures Inv(SendStep(s, n))
  {
    var s' := SendStep(s, n);
    forall r | 0 <= r < |s'.regs| ensures RegOk(s', r) { assert RegOk(s, r); }
    forall m: nat ensures StreamOk(s', m) { assert StreamOk(s, m); }
    assert StreamOk(s, n);
    forall id: Id ensures LinesOk(s', id) {
      if id == WireId(n) { SendKeepsOwnLines(s, n); } else { SendSparesLines(s, n, id); }
    }
  }

  // ----- Announcing -----

  ghost predicate Distinct(ids: seq<Id>) {
    forall i, j :: 0 <= i < j < |ids| ==> ids[i] != ids[j]
  }

  // The announced ids are not open at the far end, and different from each other.
  ghost predicate FreshAnnounce(s: State, r: nat)
    requires r < |s.regs|
  {
    var ids := WireIds(s.regs[r].ids);
    && (forall i :: 0 <= i < |ids| ==> !IsOpen(Seen(s.sent, ids[i])))
    && Distinct(ids)
  }

  // An accepted announcement opens exactly its own ids.
  lemma AnnounceOpens(s: State, r: nat, id: Id)
    requires Enabled(s, Announce(r)) && !s.closed
    ensures var v := Seen(s.sent, id);
            Seen(Next(s, Announce(r)).sent, id) ==
              if id !in WireIds(s.regs[r].ids) then v
              else if v.Good? && !IsOpen(v) then Good(v.sessions + [Session([], false)])
              else Bad
  {
    SeenSnoc(s.sent, Started(WireIds(s.regs[r].ids), s.regs[r].forRequest), id);
  }

  function WithId(ids: seq<nat>, id: Id): seq<nat> {
    if ids == [] then []
    else WithId(ids[..|ids| - 1], id) + if WireId(ids[|ids| - 1]) == id then [ids[|ids| - 1]] else []
  }

  lemma {:induction false} ServeAllAt(served: map<Id, seq<nat>>, ids: seq<nat>, id: Id)
    ensures Served(ServeAll(served, ids), id) == Served(served, id) + WithId(ids, id)
  {
    if ids != [] {
      var before, n := ids[..|ids| - 1], ids[|ids| - 1];
      ServeAllAt(served, before, id);
      if WireId(n) == id {
        Regroup(Served(served, id), WithId(before, id), [n]);
      } else {
        assert WithId(ids, id) == WithId(before, id);
      }
    }
  }

  lemma {:induction false} WithIdMembers(ids: seq<nat>, id: Id, n: nat)
    ensures n in WithId(ids, id) <==> n in ids && WireId(n) == id
  {
    if ids != [] {
      WithIdMembers(ids[..|ids| - 1], id, n);
      assert ids == ids[..|ids| - 1] + [ids[|ids| - 1]];
    }
  }

  // How many streams of the registration have the id.
  lemma {:induction false} WithIdOnce(ids: seq<nat>, id: Id)
    ensures |WithId(ids, id)| <= 1 <==>
              forall i, j :: 0 <= i < j < |ids| && WireId(ids[i]) == id ==> WireId(ids[j]) != id
  {
    if ids != [] {
      var before, n := ids[..|ids| - 1], ids[|ids| - 1];
      WithIdOnce(before, id);
      if WireId(n) == id {
        if WithId(before, id) != [] {
          var m := WithId(before, id)[0];
          WithIdMembers(before, id, m);
          var i :| 0 <= i < |before| && before[i] == m;
          assert ids[i] == m && ids[|ids| - 1] == n;
        } else {
          forall i | 0 <= i < |before| ensures WireId(before[i]) != id { WithIdMembers(before, id, before[i]); }
        }
      }
    }
  }

  lemma InWireIds(ids: seq<nat>, id: Id)
    ensures id in WireIds(ids) <==> WithId(ids, id) != []
  {
    if id in WireIds(ids) {
      var i :| 0 <= i < |ids| && WireIds(ids)[i] == id;
      WithIdMembers(ids, id, ids[i]);
    }
    if WithId(ids, id) != [] {
      var n := WithId(ids, id)[0];
      WithIdMembers(ids, id, n);
      var i :| 0 <= i < |ids| && ids[i] == n;
      assert WireIds(ids)[i] == id;
    }
  }

  lemma DistinctIsOnce(ids: seq<nat>, id: Id)
    requires Distinct(WireIds(ids))
    ensures |WithId(ids, id)| <= 1
  {
    WithIdOnce(ids, id);
    forall i, j | 0 <= i < j < |ids| && WireId(ids[i]) == id ensures WireId(ids[j]) != id {
      assert WireIds(ids)[i] != WireIds(ids)[j];
    }
  }

  lemma OnceIsDistinct(ids: seq<nat>)
    requires forall id: Id :: |WithId(ids, id)| <= 1
    ensures Distinct(WireIds(ids))
  {
    forall i, j | 0 <= i < j < |ids| ensures WireIds(ids)[i] != WireIds(ids)[j] {
      assert |WithId(ids, WireId(ids[i]))| <= 1;
      WithIdOnce(ids, WireId(ids[i]));
    }
  }

  lemma AnnouncedBy(s: State, r: nat, n: nat)
    requires OwnersOk(s) && Enabled(s, Announce(r)) && !s.closed && RegOk(s, r)
    ensures IsAnnounced(Next(s, Announce(r)), n) <==> IsAnnounced(s, n) || n in s.regs[r].ids
    ensures n in s.regs[r].ids ==> !IsAnnounced(s, n) && n !in s.readers
  {
  }

  lemma AnnounceSparesLines(s: State, r: nat, id: Id)
    requires RegsOk(s) && LinesOk(s, id) && Enabled(s, Announce(r)) && !s.closed
    requires WithId(s.regs[r].ids, id) == []
    ensures LinesOk(Next(s, Announce(r)), id)
  {
    var s', ids := Next(s, Announce(r)), s.regs[r].ids;
    assert RegOk(s, r);
    AnnounceOpens(s, r, id);
    InWireIds(ids, id);
    ServeAllAt(s.served, ids, id);
    var ns := Served(s.served, id);
    assert ns + [] == ns;
    forall k | 0 <= k < |ns| ensures LineOk(s', id, ns[k], Seen(s'.sent, id).sessions[k]) {
      assert LineOk(s, id, ns[k], Seen(s.sent, id).sessions[k]);
      AnnouncedBy(s, r, ns[k]);
    }
  }

  lemma AnnounceGrows(s: State, r: nat, id: Id) returns (n: nat)
    requires Enabled(s, Announce(r)) && !s.closed && Seen(s.sent, id).Good? && !IsOpen(Seen(s.sent, id))
    requires |WithId(s.regs[r].ids, id)| == 1
    ensures n in s.regs[r].ids && WireId(n) == id
    ensures var s' := Next(s, Announce(r));
            && Seen(s'.sent, id) == Good(Seen(s.sent, id).sessions + [Session([], false)])
            && Served(s'.served, id) == Served(s.served, id) + [n]
  {
    var ids := s.regs[r].ids;
    n := WithId(ids, id)[0];
    AnnounceOpens(s, r, id);
    InWireIds(ids, id);
    ServeAllAt(s.served, ids, id);
    WithIdMembers(ids, id, n);
    assert WithId(ids, id) == [n];
  }

  lemma AnnounceKeepsLine(s: State, r: nat, id: Id, n: nat, x: Session)
    requires RegsOk(s) && Enabled(s, Announce(r)) && !s.closed && LineOk(s, id, n, x)
    ensures LineOk(Next(s, Announce(r)), id, n, x) && n !in s.regs[r].ids
  {
    assert RegOk(s, r);
    AnnouncedBy(s, r, n);
  }

  lemma LinesGrow(s: State, s': State, id: Id, n: nat)
    requires LinesOk(s, id) && !IsOpen(Seen(s.sent, id)) && n !in Served(s.served, id)
    requires Seen(s'.sent, id) == Good(Seen(s.sent, id).sessions + [Session([], false)])
    requires Served(s'.served, id) == Served(s.served, id) + [n]
    requires forall k :: 0 <= k < |Served(s.served, id)| ==>
               LineOk(s', id, Served(s.served, id)[k], Seen(s.sent, id).sessions[k])
    requires LineOk(s', id, n, Session([], false))
    ensures LinesOk(s', id)
  {
  }

  lemma AnnounceAddsLine(s: State, r: nat, id: Id)
    requires RegsOk(s) && LinesOk(s, id) && Enabled(s, Announce(r)) && !s.closed
    requires |WithId(s.regs[r].ids, id)| == 1 && !IsOpen(Seen(s.sent, id))
    ensures LinesOk(Next(s, Announce(r)), id)
  {
    var s', v, ns := Next(s, Announce(r)), Seen(s.sent, id), Served(s.served, id);
    var n := AnnounceGrows(s, r, id);
    assert RegOk(s, r);
    AnnouncedBy(s, r, n);
    forall k | 0 <= k < |ns| ensures LineOk(s', id, ns[k], v.sessions[k]) && ns[k] != n {
      AnnounceKeepsLine(s, r, id, ns[k], v.sessions[k]);
    }
    LinesGrow(s, s', id, n);
  }

  lemma AnnounceKeepsStreams(s: State, r: nat, n: nat)
    requires RegsOk(s) && StreamOk(s, n) && Enabled(s, Announce(r)) && !s.closed
    ensures StreamOk(Next(s, Announce(r)), n)
  {
    assert RegOk(s, r);
    AnnouncedBy(s, r, n);
    ServeAllAt(s.served, s.regs[r].ids, WireId(n));
    WithIdMembers(s.regs[r].ids, WireId(n), n);
  }

  lemma FreshAnnounceKeepsInv(s: State, r: nat)
    requires Inv(s) && Enabled(s, Announce(r)) && !s.closed && FreshAnnounce(s, r)
    ensures Inv(Next(s, Announce(r)))
  {
    var s', ids := Next(s, Announce(r)), s.regs[r].ids;
    forall r' | 0 <= r' < |s'.regs| ensures RegOk(s', r') { assert RegOk(s, r') && RegOk(s, r); }
    forall n: nat ensures StreamOk(s', n) { assert StreamOk(s, n); AnnounceKeepsStreams(s, r, n); }
    forall id: Id ensures LinesOk(s', id) {
      DistinctIsOnce(ids, id);
      assert LinesOk(s, id);
      if WithId(ids, id) == [] {
        AnnounceSparesLines(s, r, id);
      } else {
        InWireIds(ids, id);
        var i :| 0 <= i < |ids| && WireIds(ids)[i] == id;
        AnnounceAddsLine(s, r, id);
      }
    }
  }

  lemma KeptIsFresh(s: State, r: nat)
    requires Inv(s) && Enabled(s, Announce(r)) && !s.closed && Inv(Next(s, Announce(r)))
    ensures FreshAnnounce(s, r)
  {
    var s', ids := Next(s, Announce(r)), s.regs[r].ids;
    forall i | 0 <= i < |ids| ensures !IsOpen(Seen(s.sent, WireIds(ids)[i])) {
      AnnounceOpens(s, r, WireIds(ids)[i]);
      assert LinesOk(s', WireIds(ids)[i]);
    }
    forall id: Id ensures |WithId(ids, id)| <= 1 {
      AnnounceOpens(s, r, id);
      InWireIds(ids, id);
      ServeAllAt(s.served, ids, id);
      assert LinesOk(s, id) && LinesOk(s', id);
    }
    OnceIsDistinct(ids);
  }

  // An accepted announcement keeps the invariant exactly if its ids are fresh.
  lemma AnnounceKeepsInvIff(s: State, r: nat)
    requires Inv(s) && Enabled(s, Announce(r)) && !s.closed
    ensures Inv(Next(s, Announce(r))) <==> FreshAnnounce(s, r)
  {
    if FreshAnnounce(s, r) {
      FreshAnnounceKeepsInv(s, r);
    }
    if Inv(Next(s, Announce(r))) {
      KeptIsFresh(s, r);
    }
  }

  // ----- The other steps -----

  // Nothing was announced or sent, and stream n is where it was, or its reader has only been spawned.
  predicate SameLine(s: State, s': State, n: nat) {
    && (IsAnnounced(s, n) <==> IsAnnounced(s', n))
    && (n in s.readers ==> n in s'.readers && s'.readers[n] == s.readers[n])
    && (n !in s.readers && n in s'.readers ==> s'.readers[n] == Reader(Reading, []))
  }

  ghost predicate SameLines(s: State, s': State) {
    && (forall id: Id :: Seen(s'.sent, id) == Seen(s.sent, id)) && s'.served == s.served
    && (s.closed ==> s'.closed) && forall n: nat :: SameLine(s, s', n)
  }

  lemma SameLinesKeep(s: State, s': State)
    requires Inv(s) && SameLines(s, s')
    ensures (forall n: nat :: StreamOk(s', n)) && forall id: Id :: LinesOk(s', id)
  {
    forall n: nat ensures StreamOk(s', n) { assert StreamOk(s, n) && SameLine(s, s', n); }
    forall id: Id ensures LinesOk(s', id) {
      assert LinesOk(s, id);
      var v, ns := Seen(s.sent, id), Served(s.served, id);
      forall k | 0 <= k < |ns| ensures LineOk(s', id, ns[k], v.sessions[k]) {
        assert LineOk(s, id, ns[k], v.sessions[k]) && SameLine(s, s', ns[k]);
      }
    }
  }

  lemma RefuseKeepsInv(s: State, r: nat)
    requires Inv(s) && Enabled(s, Announce(r)) && s.closed
    ensures Inv(Next(s, Announce(r)))
  {
    var s' := Next(s, Announce(r));
    assert RegOk(s, r);
    forall r' | 0 <= r' < |s'.regs| ensures RegOk(s', r') { assert RegOk(s, r'); }
    forall n: nat ensures SameLine(s, s', n) {}
    SameLinesKeep(s, s');
  }

  lemma SpawnKeepsReg(s: State, r: nat, r': nat)
    requires Enabled(s, Spawn(r)) && RegOk(s, r) && r' < |s.regs| && RegOk(s, r')
    ensures RegOk(Next(s, Spawn(r)), r')
  {
  }

  lemma SpawnKeepsInv(s: State, r: nat)
    requires Inv(s) && Enabled(s, Spawn(r))
    ensures Inv(Next(s, Spawn(r)))
  {
    var s' := Next(s, Spawn(r));
    assert RegOk(s, r);
    forall r' | 0 <= r' < |s'.regs| ensures RegOk(s', r') { SpawnKeepsReg(s, r, r'); }
    forall n: nat ensures SameLine(s, s', n) {}
    SameLinesKeep(s, s');
  }

  lemma AddStreamKeepsReg(s: State, r: nat, r': nat)
    requires OwnersOk(s) && Enabled(s, AddStream(r)) && r' < |s.regs| && RegOk(s, r')
    ensures RegOk(Next(s, AddStream(r)), r')
  {
    assert s.allocs !in s.owner;
  }

  lemma AddStreamKeepsOwners(s: State, r: nat)
    requires OwnersOk(s) && Enabled(s, AddStream(r))
    ensures OwnersOk(Next(s, AddStream(r)))
  {
    var s' := Next(s, AddStream(r));
    assert s'.regs[r].ids == s.regs[r].ids + [s.allocs];
  }

  lemma AddStreamKeepsInv(s: State, r: nat)
    requires Inv(s) && Enabled(s, AddStream(r))
    ensures Inv(Next(s, AddStream(r)))
  {
    var s' := Next(s, AddStream(r));
    AddStreamKeepsOwners(s, r);
    forall r' | 0 <= r' < |s'.regs| ensures RegOk(s', r') { AddStreamKeepsReg(s, r, r'); }
    forall n: nat ensures SameLine(s, s', n) {}
    SameLinesKeep(s, s');
  }

  lemma SendOtherKeepsInv(s: State)
    requires Inv(s) && Enabled(s, SendOther)
    ensures Inv(Next(s, SendOther))
  {
    var s' := s.(sent := s.sent + [Other]);
    forall id: Id ensures Seen(s'.sent, id) == Seen(s.sent, id) { SeenSnoc(s.sent, Other, id); }
    forall r | 0 <= r < |s'.regs| ensures RegOk(s', r) { assert RegOk(s, r); }
    forall n: nat ensures SameLine(s, s', n) {}
    SameLinesKeep(s, s');
  }

  // What a reader becomes by a read.
  predicate HasRead(was: Reader, rd: Reader) {
    && was.phase.Reading?
    && match rd.phase
       case AtEnd => rd.read == was.read
       case Sending(segment) => 1 <= |segment| <= SEGMENT_MAX && rd.read == was.read + segment
       case _ => false
  }

  lemma ReadKeepsLines(s: State, n: nat, rd: Reader, id: Id)
    requires n in s.readers && HasRead(s.readers[n], rd) && LinesOk(s, id)
    ensures LinesOk(s.(readers := s.readers[n := rd]), id)
  {
    var s', v, ns := s.(readers := s.readers[n := rd]), Seen(s.sent, id), Served(s.served, id);
    forall k | 0 <= k < |ns| ensures LineOk(s', id, ns[k], v.sessions[k]) {
      assert LineOk(s, id, ns[k], v.sessions[k]);
    }
  }

  lemma ReadKeepsInv(s: State, n: nat, rd: Reader)
    requires Inv(s) && n in s.readers && HasRead(s.readers[n], rd)
    ensures Inv(s.(readers := s.readers[n := rd]))
  {
    var s' := s.(readers := s.readers[n := rd]);
    forall r | 0 <= r < |s'.regs| ensures RegOk(s', r) { assert RegOk(s, r); }
    forall m: nat ensures StreamOk(s', m) { assert StreamOk(s, m); }
    forall id: Id ensures LinesOk(s', id) { ReadKeepsLines(s, n, rd, id); }
  }

  lemma QuietStepKeepsInv(s: State, a: Action)
    requires Inv(s) && (a.Allocate? || a.NewRegistration? || a.Close?)
    ensures Inv(Next(s, a))
  {
    var s' := Next(s, a);
    forall r | 0 <= r < |s'.regs| ensures RegOk(s', r) { if r < |s.regs| { assert RegOk(s, r); } }
    forall n: nat ensures SameLine(s, s', n) {}
    SameLinesKeep(s, s');
  }

  // Every step keeps the invariant, an accepted announcement provided that its ids are fresh.
  lemma StepKeepsInv(s: State, a: Action)
    requires Inv(s) && Enabled(s, a) && (a.Announce? && !s.closed ==> FreshAnnounce(s, a.r))
    ensures Inv(Next(s, a))
  {
    match a {
      case Send(n) => SendKeepsInv(s, n);
      case Announce(r) => if s.closed { RefuseKeepsInv(s, r); } else { FreshAnnounceKeepsInv(s, r); }
      case Spawn(r) => SpawnKeepsInv(s, r);
      case AddStream(r) => AddStreamKeepsInv(s, r);
      case SendOther => SendOtherKeepsInv(s);
      case Read(n, segment) => ReadKeepsInv(s, n, Reader(Sending(segment), s.readers[n].read + segment));
      case ReadEnd(n) => ReadKeepsInv(s, n, s.readers[n].(phase := AtEnd));
      case _ => QuietStepKeepsInv(s, a);
    }
  }

  // Every accepted announcement of the run finds its ids fresh.
  ghost predicate FreshAnnounces(s: State, acts: seq<Action>)
    requires Run(s, acts)
    decreases |acts|
  {
    acts != [] ==>
      && (acts[0].Announce? && !s.closed ==> FreshAnnounce(s, acts[0].r))
      && FreshAnnounces(Next(s, acts[0]), acts[1..])
  }

  lemma {:induction false} RunKeepsInv(s: State, acts: seq<Action>)
    requires Inv(s) && Run(s, acts) && FreshAnnounces(s, acts)
    ensures Inv(Exec(s, acts))
    decreases |acts|
  {
    if acts != [] {
      StepKeepsInv(s, acts[0]);
      RunKeepsInv(Next(s, acts[0]), acts[1..]);
    }
  }

  ghost predicate InvThroughout(s: State, acts: seq<Action>)
    requires Run(s, acts)
    decreases |acts|
  {
    Inv(s) && (acts != [] ==> InvThroughout(Next(s, acts[0]), acts[1..]))
  }

  // The invariant holds all through a run exactly if every accepted announcement is fresh.
  lemma {:induction false} InvThroughoutIff(s: State, acts: seq<Action>)
    requires Inv(s) && Run(s, acts)
    ensures InvThroughout(s, acts) <==> FreshAnnounces(s, acts)
    decreases |acts|
  {
    if acts != [] {
      var a, s' := acts[0], Next(s, acts[0]);
      if a.Announce? && !s.closed {
        AnnounceKeepsInvIff(s, a.r);
      } else {
        StepKeepsInv(s, a);
      }
      if Inv(s') { InvThroughoutIff(s', acts[1..]); }
    }
  }

  lemma {:induction false} AllocsGrow(s: State, acts: seq<Action>)
    requires Run(s, acts)
    ensures s.allocs <= Exec(s, acts).allocs
    decreases |acts|
  {
    if acts != [] {
      AllocsGrow(Next(s, acts[0]), acts[1..]);
    }
  }

  lemma ServedIsAnnounced(s: State, id: Id)
    requires Inv(s)
    ensures var ns := Served(s.served, id);
            && Seen(s.sent, id).Good? && |Seen(s.sent, id).sessions| == |ns|
            && (ns != [] ==> IsAnnounced(s, ns[0]) && WireId(ns[0]) == id)
  {
    assert LinesOk(s, id);
    var ns := Served(s.served, id);
    if ns != [] { assert LineOk(s, id, ns[0], Seen(s.sent, id).sessions[0]); }
  }

  lemma FewAllocsFreshAnnounce(s: State, r: nat)
    requires Inv(s) && Enabled(s, Announce(r)) && s.allocs <= ID_SPACE
    ensures FreshAnnounce(s, r)
  {
    var ids := s.regs[r].ids;
    assert RegOk(s, r);
    assert forall n :: n in s.owner ==> WireId(n) == n;
    forall i | 0 <= i < |ids| ensures WireIds(ids)[i] == ids[i] && !IsOpen(Seen(s.sent, ids[i])) {
      assert ids[i] in s.owner && s.owner[ids[i]] == r;
      ServedIsAnnounced(s, ids[i]);
    }
  }

  // Until the counter wraps, every announcement is fresh.
  lemma {:induction false} FewAllocsAreFresh(s: State, acts: seq<Action>)
    requires Inv(s) && Run(s, acts) && Exec(s, acts).allocs <= ID_SPACE
    ensures FreshAnnounces(s, acts)
    decreases |acts|
  {
    if acts != [] {
      var s' := Next(s, acts[0]);
      AllocsGrow(s', acts[1..]);
      if acts[0].Announce? { FewAllocsFreshAnnounce(s, acts[0].r); }
      StepKeepsInv(s, acts[0]);
      FewAllocsAreFresh(s', acts[1..]);
    }
  }

  // ----- Main results -----

  // In every interleaving the far end sees, for each id, streams that follow one another: each announced,
  // then segments of 1 to 4096 bytes, then at most one end (`SeenMeans` spells this out).
  lemma OutboundProper(acts: seq<Action>, id: Id)
    requires Run(INIT, acts) && FreshAnnounces(INIT, acts)
    ensures Seen(Exec(INIT, acts).sent, id).Good?
    ensures |Seen(Exec(INIT, acts).sent, id).sessions| == |Served(Exec(INIT, acts).served, id)|
  {
    RunKeepsInv(INIT, acts);
    assert LinesOk(Exec(INIT, acts), id);
  }

  // The far end's session of stream n.
  ghost predicate IsSession(s: State, n: nat, x: Session) {
    var v, ns := Seen(s.sent, WireId(n)), Served(s.served, WireId(n));
    v.Good? && |v.sessions| == |ns| && exists k :: 0 <= k < |ns| && ns[k] == n && v.sessions[k] == x
  }

  lemma ReaderSession(s: State, n: nat) returns (x: Session)
    requires Inv(s) && n in s.readers
    ensures IsSession(s, n, x) && ReaderOk(s.readers[n], x, s.closed)
    ensures forall y :: IsSession(s, n, y) ==> y == x
  {
    var v, ns := Seen(s.sent, WireId(n)), Served(s.served, WireId(n));
    assert StreamOk(s, n) && LinesOk(s, WireId(n));
    var k :| 0 <= k < |ns| && ns[k] == n;
    x := v.sessions[k];
    assert LineOk(s, WireId(n), ns[k], x);
  }

  // While the channel accepts, the far end has of a stream what its reader has read, but for the segment
  // it is sending, and the end exactly if the reader has finished.
  lemma OutboundComplete(acts: seq<Action>, n: nat) returns (x: Session)
    requires Run(INIT, acts) && FreshAnnounces(INIT, acts)
    requires n in Exec(INIT, acts).readers && !Exec(INIT, acts).closed
    ensures var s := Exec(INIT, acts); var rd := s.readers[n];
            && IsSession(s, n, x) && (forall y :: IsSession(s, n, y) ==> y == x)
            && x.bytes + (if rd.phase.Sending? then rd.phase.segment else []) == rd.read
            && (rd.phase.Finished? <==> x.ended)
            && !rd.phase.Aborted?
  {
    RunKeepsInv(INIT, acts);
    x := ReaderSession(Exec(INIT, acts), n);
  }

  // A closed channel costs a stream at most the one segment in flight, and never reorders.
  lemma ClosedLosesOneSegment(acts: seq<Action>, n: nat) returns (x: Session)
    requires Run(INIT, acts) && FreshAnnounces(INIT, acts)
    requires n in Exec(INIT, acts).readers
    ensures var s := Exec(INIT, acts); var rd := s.readers[n];
            && IsSession(s, n, x) && (forall y :: IsSession(s, n, y) ==> y == x)
            && x.bytes <= rd.read && |rd.read| <= |x.bytes| + SEGMENT_MAX
            && (x.ended ==> x.bytes == rd.read && rd.phase.Finished?)
  {
    RunKeepsInv(INIT, acts);
    x := ReaderSession(Exec(INIT, acts), n);
  }

  // ----- What is announced -----

  function Announcement(reg: Registration): Out {
    Started(WireIds(reg.ids), reg.forRequest)
  }

  ghost predicate AnnouncementOk(s: State, i: nat) {
    i < |s.sent| && s.sent[i].Started? ==>
      exists r :: 0 <= r < |s.regs| && s.regs[r].phase.Announced? && s.sent[i] == Announcement(s.regs[r])
  }

  ghost predicate AnnouncementsOk(s: State) {
    && (forall i: nat :: AnnouncementOk(s, i))
    && (forall r :: 0 <= r < |s.regs| && s.regs[r].phase.Announced? ==> Announcement(s.regs[r]) in s.sent)
  }

  // A registration that has been announced does not change any more but in how many readers it has.
  ghost predicate RegsGrow(s: State, s': State) {
    |s.regs| <= |s'.regs| && forall r :: 0 <= r < |s.regs| && s.regs[r].phase.Announced? ==>
      s'.regs[r].phase.Announced? && Announcement(s'.regs[r]) == Announcement(s.regs[r])
  }

  lemma StepRegsGrow(s: State, a: Action)
    requires Enabled(s, a)
    ensures RegsGrow(s, Next(s, a)) && s.sent <= Next(s, a).sent
  {
  }

  lemma StepKeepsAnnouncements(s: State, a: Action)
    requires AnnouncementsOk(s) && Enabled(s, a)
    ensures AnnouncementsOk(Next(s, a))
  {
    var s' := Next(s, a);
    StepRegsGrow(s, a);
    forall i: nat ensures AnnouncementOk(s', i) {
      if i < |s.sent| && s.sent[i].Started? {
        assert AnnouncementOk(s, i);
        var r :| 0 <= r < |s.regs| && s.regs[r].phase.Announced? && s.sent[i] == Announcement(s.regs[r]);
        assert s'.sent[i] == Announcement(s'.regs[r]);
      } else if i < |s'.sent| && s'.sent[i].Started? {
        assert s'.sent[i] == Announcement(s'.regs[a.r]);
      }
    }
    forall r | 0 <= r < |s'.regs| && s'.regs[r].phase.Announced? ensures Announcement(s'.regs[r]) in s'.sent {
      if r < |s.regs| && s.regs[r].phase.Announced? {
        assert Announcement(s.regs[r]) in s.sent;
      } else {
        assert s'.sent[|s.sent|] == Announcement(s'.regs[r]);
      }
    }
  }

  // In every run, what is announced are the registrations, each with exactly its own ids and request.
  lemma {:induction false} RunKeepsAnnouncements(s: State, acts: seq<Action>)
    requires AnnouncementsOk(s) && Run(s, acts)
    ensures AnnouncementsOk(Exec(s, acts))
    decreases |acts|
  {
    if acts != [] {
      StepKeepsAnnouncements(s, acts[0]);
      RunKeepsAnnouncements(Next(s, acts[0]), acts[1..]);
    }
  }

  // ----- What is read -----

  // What the reads of a stream in these actions give.
  function ReadBytes(acts: seq<Action>, n: nat): seq<byte> {
    if acts == [] then []
    else (if acts[0].Read? && acts[0].n == n then acts[0].segment else []) + ReadBytes(acts[1..], n)
  }

  function ReadSoFar(s: State, n: nat): seq<byte> {
    if n in s.readers then s.readers[n].read else []
  }

  lemma StepReads(s: State, a: Action, n: nat)
    requires RegsOk(s) && Enabled(s, a)
    ensures ReadSoFar(Next(s, a), n) == ReadSoFar(s, n) + if a.Read? && a.n == n then a.segment else []
  {
    if a.Spawn? {
      assert RegOk(s, a.r);
    }
  }

  // A reader's bytes are those of all reads of its stream in the run, in order.
  lemma {:induction false} ReadersHoldReads(s: State, acts: seq<Action>, n: nat)
    requires Inv(s) && Run(s, acts) && FreshAnnounces(s, acts)
    ensures ReadSoFar(Exec(s, acts), n) == ReadSoFar(s, n) + ReadBytes(acts, n)
    decreases |acts|
  {
    if acts == [] {
      assert ReadSoFar(s, n) + [] == ReadSoFar(s, n);
    } else {
      var a := acts[0];
      StepKeepsInv(s, a);
      StepReads(s, a, n);
      ReadersHoldReads(Next(s, a), acts[1..], n);
      Regroup(ReadSoFar(s, n), if a.Read? && a.n == n then a.segment else [], ReadBytes(acts[1..], n));
    }
  }

  // ----- Readers start and end -----

  predicate SpawnedRead(s: State, r: nat)
    requires r < |s.regs|
  {
    s.regs[r].phase.Announced? ==>
      forall i :: 0 <= i < |s.regs[r].ids| && i < s.regs[r].phase.spawned ==> s.regs[r].ids[i] in s.readers
  }

  predicate AllSpawnedRead(s: State) {
    forall r :: 0 <= r < |s.regs| ==> SpawnedRead(s, r)
  }

  lemma StepSpawns(s: State, a: Action)
    requires Enabled(s, a) && AllSpawnedRead(s)
    ensures AllSpawnedRead(Next(s, a))
  {
    var s' := Next(s, a);
    forall r | 0 <= r < |s'.regs| ensures SpawnedRead(s', r) {
      if r < |s.regs| { assert SpawnedRead(s, r); }
    }
  }

  // In every run, a stream that has its reader task has a reader.
  lemma {:induction false} RunSpawns(s: State, acts: seq<Action>)
    requires Run(s, acts) && AllSpawnedRead(s)
    ensures AllSpawnedRead(Exec(s, acts))
    decreases |acts|
  {
    if acts != [] {
      StepSpawns(s, acts[0]);
      RunSpawns(Next(s, acts[0]), acts[1..]);
    }
  }

  // The reader has met the end of its stream; a reader that gave up has not.
  predicate MetEnd(s: State, n: nat) {
    n in s.readers && (s.readers[n].phase.AtEnd? || s.readers[n].phase.Finished?)
  }

  lemma StepMeetsEnd(s: State, a: Action, n: nat)
    requires RegsOk(s) && Enabled(s, a)
    ensures MetEnd(Next(s, a), n) <==> MetEnd(s, n) || a == ReadEnd(n)
  {
    if a.Spawn? {
      assert RegOk(s, a.r);
    }
  }

  // In every run the readers that have met the end are those whose stream was read to its end; the send
  // that follows is the end of the stream for the far end.
  lemma {:induction false} EndedIff(s: State, acts: seq<Action>, n: nat)
    requires Inv(s) && Run(s, acts) && FreshAnnounces(s, acts)
    ensures MetEnd(Exec(s, acts), n) <==> MetEnd(s, n) || ReadEnd(n) in acts
    decreases |acts|
  {
    if acts != [] {
      StepKeepsInv(s, acts[0]);
      StepMeetsEnd(s, acts[0], n);
      EndedIff(Next(s, acts[0]), acts[1..], n);
      assert acts == [acts[0]] + acts[1..];
    }
  }

  // ----- What others send -----

  function CountOther(sent: seq<Out>): nat {
    if sent == [] then 0 else CountOther(sent[..|sent| - 1]) + if sent[|sent| - 1].Other? then 1 else 0
  }

  function SendsOther(acts: seq<Action>): nat {
    if acts == [] then 0 else (if acts[0].SendOther? then 1 else 0) + SendsOther(acts[1..])
  }

  // Every message of another sender passes.
  lemma {:induction false} OthersPass(s: State, acts: seq<Action>)
    requires Run(s, acts)
    ensures CountOther(Exec(s, acts).sent) == CountOther(s.sent) + SendsOther(acts)
    decreases |acts|
  {
    if acts != [] {
      var s' := Next(s, acts[0]);
      assert s'.sent != s.sent ==> s'.sent[..|s'.sent| - 1] == s.sent;
      OthersPass(s', acts[1..]);
    }
  }

  // ----- Wrapped ids -----

  function Allocations(k: nat): seq<Action> {
    seq(k, _ => Allocate)
  }

  lemma {:induction false} Allocating(s: State, k: nat, rest: seq<Action>)
    requires Run(s.(allocs := s.allocs + k), rest)
    ensures Run(s, Allocations(k) + rest)
    ensures Exec(s, Allocations(k) + rest) == Exec(s.(allocs := s.allocs + k), rest)
    decreases k
  {
    if k == 0 {
      assert Allocations(0) + rest == rest;
    } else {
      Allocating(Next(s, Allocate), k - 1, rest);
      assert (Allocations(k) + rest)[1..] == Allocations(k - 1) + rest;
    }
  }

  lemma StepRun(s: State, a: Action, rest: seq<Action>)
    requires Enabled(s, a) && Run(Next(s, a), rest)
    ensures Run(s, [a] + rest) && Exec(s, [a] + rest) == Exec(Next(s, a), rest)
  {
    assert ([a] + rest)[1..] == rest;
  }

  function OneStream(req: Id): State {
    State(1, [Registration([0], req, Announced(0))], map[0 := 0], map[], [Started([0], req)], false, map[0 := [0]])
  }

  lemma AnnounceFirst(req: Id, rest: seq<Action>)
    requires Run(OneStream(req), rest)
    ensures var acts := [NewRegistration(req)] + ([AddStream(0)] + ([Announce(0)] + rest));
            Run(INIT, acts) && Exec(INIT, acts) == Exec(OneStream(req), rest)
  {
    var s1 := Next(INIT, NewRegistration(req));
    var s2 := Next(s1, AddStream(0));
    assert s1.regs == [Registration([], req, Building)];
    assert s1.regs[0].ids + [s1.allocs] == [0];
    assert s2.regs == [Registration([0], req, Building)];
    assert WireIds([0]) == [0];
    var s3 := Next(s2, Announce(0));
    assert s3.sent == [] + [Started([0], req)] == [Started([0], req)];
    assert s3.regs == [Registration([0], req, Announced(0))];
    assert s3.owner == map[0 := 0];
    assert s3.readers == map[];
    StepRun(s2, Announce(0), rest);
    StepRun(s1, AddStream(0), [Announce(0)] + rest);
    StepRun(INIT, NewRegistration(req), [AddStream(0)] + ([Announce(0)] + rest));
  }

  function AnnounceNext(req: Id): seq<Action> {
    [NewRegistration(req)] + ([AddStream(1)] + ([Announce(1)] + []))
  }

  lemma AnnounceAgain(s: State, req: Id)
    requires s == OneStream(req).(allocs := ID_SPACE)
    ensures Run(s, AnnounceNext(req))
    ensures Exec(s, AnnounceNext(req)).sent == [Started([0], req)] + [Started([0], req)]
    ensures Exec(s, AnnounceNext(req)).allocs == ID_SPACE + 1
  {
    var s1 := Next(s, NewRegistration(req));
    var s2 := Next(s1, AddStream(1));
    assert WireIds([ID_SPACE]) == [0];
    assert s2.regs[1].ids == [ID_SPACE];
    StepRun(s2, Announce(1), []);
    StepRun(s1, AddStream(1), [Announce(1)] + []);
    StepRun(s, NewRegistration(req), [AddStream(1)] + ([Announce(1)] + []));
  }

  // The bound is exact: one allocation more, and the far end can see an id announced twice.
  lemma WrappedIdIsAnnouncedTwice(req: Id)
    ensures exists acts :: Run(INIT, acts) && Exec(INIT, acts).allocs == ID_SPACE + 1
                           && Seen(Exec(INIT, acts).sent, 0) == Bad
  {
    AnnounceAgain(OneStream(req).(allocs := ID_SPACE), req);
    var k: nat := ID_SPACE - 1;
    Allocating(OneStream(req), k, AnnounceNext(req));
    AnnounceFirst(req, Allocations(k) + AnnounceNext(req));
    SeenSnoc([], Started([0], req), 0);
    SeenSnoc([Started([0], req)], Started([0], req), 0);
    assert [] + [Started([0], req)] == [Started([0], req)];
  }
}
