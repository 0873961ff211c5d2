/**
 * Singleton acquisition: processes race for a lock file, the winner writes its socket and pid into the
 * file and listens, the others read the file and connect. The file is never truncated, so what an
 * earlier singleton wrote may stick out behind the current contents.
 */
module Singleton {
  import opened Common
  import opened MessagePack

  type Pid = Id

  type Socket = Bytes

  datatype Matter = Matter(socketPath: Socket, pid: Pid)

  // ----- The lock file -----

  // The struct is written as an array of its fields.
  function ToValue(m: Matter): Value {
    Arr([Str(m.socketPath), Int(m.pid)])
  }

  function FromValue(v: Value): Option<Matter> {
    match v
    case Arr(items) =>
      if |items| == 2 && items[0].Str? && items[1].Int? && 0 <= items[1].n < ID_SPACE
      then Some(Matter(items[0].text, items[1].n)) else None
    case _ => None
  }

  // Exactly the written value reads as a matter.
  lemma ReadsWritten(v: Value, m: Matter)
    ensures FromValue(v) == Some(m) <==> v == ToValue(m)
  {
    if FromValue(v) == Some(m) {
      assert v.items == [v.items[0], v.items[1]];
    }
  }

  predicate ValidSocket(s: Socket) {
    |s| < 0x1_0000_0000
  }

  // The bytes a new singleton writes: the locked prefix, then the matter.
  function Image(prefix: nat, m: Matter): Bytes
    requires ValidSocket(m.socketPath)
  {
    seq(prefix, _ => 0) + Encode(ToValue(m))
  }

  // Writing at an offset without truncating.
  function Overlay(file: Bytes, pos: nat, part: Bytes): Bytes
    requires pos <= |file|
  {
    file[..pos] + part + (if pos + |part| <= |file| then file[pos + |part|..] else [])
  }

  // Seek behind the prefix and read one value; `None` is a read error.
  function ReadMatter(prefix: nat, file: Bytes): Option<Matter> {
    if |file| < prefix then None
    else match Parse(file[prefix..])
      case Done(v, _) => FromValue(v)
      case _ => None
  }

  // Whatever stale bytes follow, the file reads as what was written over its start.
  lemma StaleBytesIgnored(prefix: nat, m: Matter, stale: Bytes)
    requires ValidSocket(m.socketPath)
    ensures ReadMatter(prefix, Image(prefix, m) + stale) == Some(m)
  {
    var v := ToValue(m);
    assert Encodable(v);
    assert (Image(prefix, m) + stale)[prefix..] == Encode(v) + stale;
    DecodeEncode(v, stale);
  }

  // The open file; nobody truncates it.
  class LockFile {
    const prefix: nat
    var data: Bytes

    constructor (prefix: nat, data: Bytes)
      ensures this.prefix == prefix && this.data == data
    {
      this.prefix, this.data := prefix, data;
    }

    // Whatever the file held before, it reads back as m afterwards, and the rest of it stays.
    method WriteMatter(m: Matter)
      requires ValidSocket(m.socketPath)
      modifies this
      ensures data == Overlay(old(data), 0, Image(prefix, m))
      ensures ReadMatter(prefix, data) == Some(m)
    {
      var vec := seq(prefix, _ => 0);
      vec := vec + Encode(ToValue(m));
      ghost var stale := if |vec| <= |data| then data[|vec|..] else [];
      data := vec + (if |vec| <= |data| then data[|vec|..] else []);
      StaleBytesIgnored(prefix, m, stale);
    }
  }

  // ----- Processes -----

  datatype Phase =
    | Starting
    | Writing(socket: Socket, pos: nat)       // locked; pos bytes are in the file
    | Listening(socket: Socket)               // locked
    | Releasing                               // locked; the listener has been dropped
    | Client(attempt: nat, target: Option<Matter>)
    | Connected(socket: Socket)

  datatype State = State(
    prefix: nat,              // bytes kept free for the lock, a constant
    file: Bytes,
    holder: Option<Pid>,      // of the file lock
    procs: map<Pid, Phase>,   // the live processes
    sockets: set<Socket>)     // names handed out so far

  const MAX_CLIENT_ATTEMPTS: nat := 10

  datatype Action =
    | Start(p: Pid)
    | TryLock(p: Pid, socket: Socket)
    | WriteSome(p: Pid, n: nat)
    | WriteFails(p: Pid)
    | Listen(p: Pid, ok: bool)
    | DropListener(p: Pid)
    | ReleaseLock(p: Pid)
    | ReadFile(p: Pid)
    | Connect(p: Pid)
    | Retry(p: Pid)
    | GiveUp(p: Pid)
    | Crash(p: Pid)

  ghost predicate ListensOn(s: State, p: Pid, socket: Socket) {
    p in s.procs && s.procs[p] == Listening(socket)
  }

  ghost predicate Enabled(s: State, a: Action) {
    if a.Start? then a.p !in s.procs
    else a.p in s.procs && var ph := s.procs[a.p];
      match a
      case Start(_) => false
      case TryLock(_, socket) => ph == Starting && socket !in s.sockets && ValidSocket(socket)
      case WriteSome(p, n) =>
        ph.Writing? && ValidSocket(ph.socket) && 0 < n
        && ph.pos + n <= |Image(s.prefix, Matter(ph.socket, p))| && ph.pos <= |s.file|
      case WriteFails(_) => ph.Writing?
      case Listen(p, _) => ph.Writing? && ValidSocket(ph.socket) && ph.pos == |Image(s.prefix, Matter(ph.socket, p))|
      case DropListener(_) => ph.Listening?
      case ReleaseLock(_) => ph == Releasing
      case ReadFile(_) => ph.Client?
      case Connect(_) => ph.Client? && ph.target.Some? && exists q :: ListensOn(s, q, ph.target.value.socketPath)
      case Retry(_) => ph.Client? && ph.attempt < MAX_CLIENT_ATTEMPTS
      case GiveUp(_) => ph.Client?
      case Crash(_) => true
  }

  // The process ends; the system takes its lock.
  ghost function Exit(s: State, p: Pid): State {
    s.(procs := s.procs - {p}, holder := if s.holder == Some(p) then None else s.holder)
  }

  ghost function To(s: State, p: Pid, ph: Phase): State {
    s.(procs := s.procs[p := ph])
  }

  ghost function Next(s: State, a: Action): State
    requires Enabled(s, a)
  {
    var p := a.p;
    match a
    case Start(_) => To(s, p, Starting)
    case TryLock(_, socket) =>
      if s.holder.None? then To(s, p, Writing(socket, 0)).(holder := Some(p), sockets := s.sockets + {socket})
      else To(s, p, Client(0, None))
    case WriteSome(_, n) =>
      var Writing(socket, pos) := s.procs[p];
      var part := Image(s.prefix, Matter(socket, p))[pos..pos + n];
      To(s, p, Writing(socket, pos + n)).(file := Overlay(s.file, pos, part))
    case WriteFails(_) => Exit(s, p)
    case Listen(_, ok) => if ok then To(s, p, Listening(s.procs[p].socket)) else Exit(s, p)
    case DropListener(_) => To(s, p, Releasing)
    case ReleaseLock(_) => Exit(s, p)
    case ReadFile(_) => To(s, p, s.procs[p].(target := ReadMatter(s.prefix, s.file)))
    case Connect(_) => To(s, p, Connected(s.procs[p].target.value.socketPath))
    case Retry(_) => To(s, p, Client(s.procs[p].attempt + 1, None))
    case GiveUp(_) => Exit(s, p)
    case Crash(_) => Exit(s, p)
  }

  // ----- The invariant -----

  predicate Locked(ph: Phase) {
    ph.Writing? || ph.Listening? || ph.Releasing?
  }

  // How far the file holds the image of m.
  ghost predicate Holds(s: State, m: Matter, n: nat) {
    ValidSocket(m.socketPath) && n <= |Image(s.prefix, m)| && Image(s.prefix, m)[..n] <= s.file
  }

  ghost predicate ProcOk(s: State, p: Pid)
    requires p in s.procs
  {
    && (Locked(s.procs[p]) <==> s.holder == Some(p))
    && match s.procs[p]
       case Writing(socket, pos) => Holds(s, Matter(socket, p), pos)
       case Listening(socket) =>
         ValidSocket(socket) && Holds(s, Matter(socket, p), |Image(s.prefix, Matter(socket, p))|)
       case Client(attempt, _) => attempt <= MAX_CLIENT_ATTEMPTS
       case _ => true
  }

  ghost predicate Inv(s: State) {
    && (s.holder.Some? ==> s.holder.value in s.procs)
    && forall p :: p in s.procs ==> ProcOk(s, p)
  }

  lemma OverlayHolds(image: Bytes, file: Bytes, pos: nat, n: nat)
    requires pos + n <= |image| && image[..pos] <= file
    ensures image[..pos + n] <= Overlay(file, pos, image[pos..pos + n])
  {
  }

  lemma WriteKeepsInv(s: State, p: Pid, n: nat)
    requires Inv(s) && Enabled(s, WriteSome(p, n))
    ensures Inv(Next(s, WriteSome(p, n)))
  {
    var s' := Next(s, WriteSome(p, n));
    var Writing(socket, pos) := s.procs[p];
    assert ProcOk(s, p);
    OverlayHolds(Image(s.prefix, Matter(socket, p)), s.file, pos, n);
    forall q | q in s'.procs ensures ProcOk(s', q) {
      assert ProcOk(s, q);
    }
  }

  lemma StepKeepsInv(s: State, a: Action)
    requires Inv(s) && Enabled(s, a)
    ensures Inv(Next(s, a))
  {
    if a.WriteSome? {
      WriteKeepsInv(s, a.p, a.n);
    } else {
      var s' := Next(s, a);
      assert a.p in s.procs ==> ProcOk(s, a.p);
      forall q | q in s'.procs ensures ProcOk(s', q) {
        assert q in s.procs ==> ProcOk(s, q);
      }
    }
  }

  // ----- Every run -----

  ghost predicate Run(s: State, acts: seq<Action>)
    decreases |acts|
  {
    acts == [] || (Enabled(s, acts[0]) && Run(Next(s, acts[0]), acts[1..]))
  }

  ghost function Exec(s: State, acts: seq<Action>): State
    requires Run(s, acts)
    decreases |acts|
  {
    if acts == [] then s else Exec(Next(s, acts[0]), acts[1..])
  }

  // No process, no lock; the file may hold anything.
  ghost predicate Initial(s: State) {
    s.holder == None && s.procs == map[]
  }

  lemma {:induction false} RunKeepsInv(s: State, acts: seq<Action>)
    requires Inv(s) && Run(s, acts)
    ensures Inv(Exec(s, acts)) && Exec(s, acts).prefix == s.prefix
    decreases |acts|
  {
    if acts != [] {
      StepKeepsInv(s, acts[0]);
      RunKeepsInv(Next(s, acts[0]), acts[1..]);
    }
  }

  // At most one process listens, and it holds the lock; while it listens the file names it.
  lemma SingletonIsUnique(start: State, acts: seq<Action>, p: Pid, socket: Socket)
    requires Initial(start) && Run(start, acts) && ListensOn(Exec(start, acts), p, socket)
    ensures var s := Exec(start, acts);
            && s.holder == Some(p)
            && (forall q, other :: ListensOn(s, q, other) ==> q == p && other == socket)
            && ReadMatter(s.prefix, s.file) == Some(Matter(socket, p))
  {
    RunKeepsInv(start, acts);
    var s, m := Exec(start, acts), Matter(socket, p);
    assert ProcOk(s, p);
    forall q, other | ListensOn(s, q, other) ensures q == p && other == socket {
      assert ProcOk(s, q);
    }
    var image := Image(s.prefix, m);
    assert image[..|image|] == image;
    assert s.file == image + s.file[|image|..];
    StaleBytesIgnored(s.prefix, m, s.file[|image|..]);
  }

  // ----- Who is there, and as what -----

  // The process ends with this action.
  predicate Leaves(a: Action, p: Pid) {
    a.p == p && (a.WriteFails? || (a.Listen? && !a.ok) || a.ReleaseLock? || a.GiveUp? || a.Crash?)
  }

  predicate Stays(acts: seq<Action>, p: Pid) {
    forall j :: 0 <= j < |acts| ==> !Leaves(acts[j], p)
  }

  ghost predicate StartedAndStayed(acts: seq<Action>, p: Pid) {
    exists k :: 0 <= k < |acts| && acts[k] == Start(p) && Stays(acts[k + 1..], p)
  }

  lemma StayedStep(acts: seq<Action>, p: Pid)
    requires acts != []
    ensures Stays(acts, p) <==> !Leaves(acts[0], p) && Stays(acts[1..], p)
    ensures StartedAndStayed(acts, p) <==>
              StartedAndStayed(acts[1..], p) || (acts[0] == Start(p) && Stays(acts[1..], p))
  {
    var rest := acts[1..];
    if Stays(rest, p) && !Leaves(acts[0], p) {
      forall j | 0 <= j < |acts| ensures !Leaves(acts[j], p) {
        assert j > 0 ==> acts[j] == rest[j - 1];
      }
    }
    if Stays(acts, p) {
      forall j | 0 <= j < |rest| ensures !Leaves(rest[j], p) { assert rest[j] == acts[j + 1]; }
    }
    if k :| 0 <= k < |acts| && acts[k] == Start(p) && Stays(acts[k + 1..], p) {
      assert k > 0 ==> rest[k - 1] == acts[k] && rest[k..] == acts[k + 1..];
    }
    if k :| 0 <= k < |rest| && rest[k] == Start(p) && Stays(rest[k + 1..], p) {
      assert acts[k + 1] == rest[k] && acts[k + 2..] == rest[k + 1..];
    }
  }

  // A process is there from its start to the action it ends with; losing the race for the lock is none.
  lemma {:induction false} AliveIff(s: State, acts: seq<Action>, p: Pid)
    requires Run(s, acts)
    ensures p in Exec(s, acts).procs <==> StartedAndStayed(acts, p) || (p in s.procs && Stays(acts, p))
    decreases |acts|
  {
    if acts != [] {
      AliveIff(Next(s, acts[0]), acts[1..], p);
      StayedStep(acts, p);
    }
  }

  // The lock goes to the one that asks while no live process has it; everybody else becomes a client.
  lemma LockDecides(start: State, acts: seq<Action>, p: Pid, socket: Socket)
    requires Initial(start) && Run(start, acts) && Enabled(Exec(start, acts), TryLock(p, socket))
    ensures var s := Exec(start, acts);
            var s' := Next(s, TryLock(p, socket));
            if forall q :: q in s.procs ==> !Locked(s.procs[q])
            then s'.holder == Some(p) && s'.procs[p] == Writing(socket, 0)
            else s'.holder == s.holder && s'.procs[p] == Client(0, None)
  {
    RunKeepsInv(start, acts);
    var s := Exec(start, acts);
    forall q | q in s.procs ensures Locked(s.procs[q]) <==> s.holder == Some(q) {
      assert ProcOk(s, q);
    }
  }

  // How often the process has retried since it started, after n times before.
  function Retries(acts: seq<Action>, p: Pid, n: nat): nat {
    if acts == [] then n
    else Retries(acts[1..], p, if acts[0] == Start(p) then 0 else if acts[0] == Retry(p) then n + 1 else n)
  }

  ghost predicate Counts(s: State, p: Pid, n: nat) {
    p in s.procs ==>
      match s.procs[p]
      case Client(attempt, _) => attempt == n
      case Connected(_) => true
      case _ => n == 0
  }

  lemma {:induction false} RunCounts(s: State, acts: seq<Action>, p: Pid, n: nat)
    requires Run(s, acts) && Counts(s, p, n)
    ensures Counts(Exec(s, acts), p, Retries(acts, p, n))
    decreases |acts|
  {
    if acts != [] {
      RunCounts(Next(s, acts[0]), acts[1..], p,
                if acts[0] == Start(p) then 0 else if acts[0] == Retry(p) then n + 1 else n);
    }
  }

  // A client counts its retries, and has made ten at most.
  lemma ClientsRetryTenTimes(start: State, acts: seq<Action>, p: Pid)
    requires Initial(start) && Run(start, acts) && p in Exec(start, acts).procs && Exec(start, acts).procs[p].Client?
    ensures Exec(start, acts).procs[p].attempt == Retries(acts, p, 0) <= MAX_CLIENT_ATTEMPTS
  {
    RunCounts(start, acts, p, 0);
    RunKeepsInv(start, acts);
    assert ProcOk(Exec(start, acts), p);
  }

  // ----- What a client can rely on -----

  predicate HasSocket(ph: Phase, socket: Socket) {
    (ph.Writing? || ph.Listening?) && ph.socket == socket
  }

  // The socket was handed out, and to nobody but p.
  ghost predicate OwnedBy(s: State, p: Pid, socket: Socket) {
    socket in s.sockets && forall q :: q in s.procs && HasSocket(s.procs[q], socket) ==> q == p
  }

  ghost predicate SocketsOk(s: State) {
    forall p :: p in s.procs && (s.procs[p].Writing? || s.procs[p].Listening?) ==> s.procs[p].socket in s.sockets
  }

  lemma {:induction false} RunKeepsSockets(s: State, acts: seq<Action>)
    requires SocketsOk(s) && Run(s, acts)
    ensures SocketsOk(Exec(s, acts))
    decreases |acts|
  {
    if acts != [] {
      RunKeepsSockets(Next(s, acts[0]), acts[1..]);
    }
  }

  lemma {:induction false} RunKeepsOwner(s: State, acts: seq<Action>, p: Pid, socket: Socket)
    requires OwnedBy(s, p, socket) && Run(s, acts)
    ensures OwnedBy(Exec(s, acts), p, socket)
    decreases |acts|
  {
    if acts != [] {
      RunKeepsOwner(Next(s, acts[0]), acts[1..], p, socket);
    }
  }

  // A client that reads the file while somebody listens learns who and where. Whenever it connects after
  // that, with whatever happening in between, it connects to that process: nobody else ever listens on
  // that socket.
  lemma ClientsFindTheSingleton(start: State, before: seq<Action>, c: Pid, p: Pid, socket: Socket, after: seq<Action>)
    requires Initial(start) && Run(start, before)
    requires ListensOn(Exec(start, before), p, socket) && Enabled(Exec(start, before), ReadFile(c))
    requires Run(Next(Exec(start, before), ReadFile(c)), after)
    ensures var read := Next(Exec(start, before), ReadFile(c));
            var s := Exec(read, after);
            && read.procs[c].target == Some(Matter(socket, p))
            && (forall q :: ListensOn(s, q, socket) ==> q == p)
            && (Enabled(s, Connect(c)) && s.procs[c].target == Some(Matter(socket, p)) ==>
                  ListensOn(s, p, socket) && Next(s, Connect(c)).procs[c] == Connected(socket))
  {
    var s := Exec(start, before);
    SingletonIsUnique(start, before, p, socket);
    RunKeepsInv(start, before);
    RunKeepsSockets(start, before);
    forall q | q in s.procs && HasSocket(s.procs[q], socket) ensures q == p {
      assert ProcOk(s, q) && ProcOk(s, p);
    }
    RunKeepsOwner(Next(s, ReadFile(c)), after, p, socket);
  }

  // ----- A file that is not written out yet -----

  // The pid whose encoding differs in the last byte only.
  function OtherPid(pid: Pid): Pid {
    if pid % 2 == 0 then pid + 1 else pid - 1
  }

  function OtherByte(b: byte): byte {
    if b == 0 then 1 else b - 1
  }

  // What an earlier singleton may have written: another pid and, unless it is empty, another socket.
  function OtherMatter(m: Matter): Matter {
    Matter(if m.socketPath == [] then [] else [OtherByte(m.socketPath[0])] + m.socketPath[1..], OtherPid(m.pid))
  }

  lemma OtherBytes(n: nat, w: nat)
    requires w > 0 && n < Pow256(w) && n % 2 == 0 && n + 1 < Pow256(w)
    ensures ToBE(n, w)[..w - 1] == ToBE(n + 1, w)[..w - 1] && ToBE(n, w)[w - 1] != ToBE(n + 1, w)[w - 1]
  {
    assert n / 256 == (n + 1) / 256;
  }

  lemma OtherPidEncoded(pid: Pid)
    ensures var e, e' := EncodeInt(pid), EncodeInt(OtherPid(pid));
            |e| == |e'| > 0 && e[..|e| - 1] == e'[..|e| - 1] && e[|e| - 1] != e'[|e| - 1]
  {
    Pow256Values();
    var n := if pid % 2 == 0 then pid else pid - 1;
    if 0x80 <= n {
      OtherBytes(n, if n < 0x100 then 1 else if n < 0x1_0000 then 2 else 4);
    }
  }

  function Header(prefix: nat, size: nat): Bytes
    requires size < 0x1_0000_0000
  {
    seq(prefix, _ => 0) + ([0x92] + EncodeLen(size, 32, 0xa0, Some(0xd9), 0xda, 0xdb))
  }

  lemma ImageParts(prefix: nat, m: Matter)
    requires ValidSocket(m.socketPath)
    ensures Image(prefix, m) == Header(prefix, |m.socketPath|) + m.socketPath + EncodeInt(m.pid)
  {
    var items := [Str(m.socketPath), Int(m.pid)];
    assert items[1..] == [Int(m.pid)] && items[1..][1..] == [];
    assert EncodeAll([]) == [] && EncodeAll(items[1..]) == EncodeInt(m.pid) + [];
    assert EncodeAll(items) == Encode(items[0]) + EncodeInt(m.pid);
    assert CountHead(false, 2) == [0x92];
  }

  // Two images of the same size, mixed.
  lemma MixedImage(header: Bytes, s: Bytes, s': Bytes, e: Bytes, e': Bytes, pos: nat)
    requires |s| == |s'| && |e| == |e'| > 0 && e[..|e| - 1] == e'[..|e| - 1] && (s == [] ==> s' == [])
    requires s != [] ==> s[1..] == s'[1..]
    requires pos < |header + s + e|
    ensures (header + s + e)[..pos] + (header + s' + e')[pos..] ==
              header + (if pos > |header| then s else s') + e'
  {
    var mixed := (header + s + e)[..pos] + (header + s' + e')[pos..];
    var whole := header + (if pos > |header| then s else s') + e';
    forall i | 0 <= i < |whole| ensures mixed[i] == whole[i] {
      var j, k := i - |header|, i - |header| - |s|;
      if 0 < j < |s| { assert s[j] == s[1..][j - 1] && s'[j] == s'[1..][j - 1]; }
      if 0 <= k < |e| - 1 { assert e[k] == e[..|e| - 1][k] && e'[k] == e'[..|e| - 1][k]; }
    }
    assert |mixed| == |whole|;
  }

  function Misread(prefix: nat, m: Matter, pos: nat): Matter
    requires ValidSocket(m.socketPath)
  {
    var other := OtherMatter(m);
    Matter(if pos > |Header(prefix, |m.socketPath|)| then m.socketPath else other.socketPath, other.pid)
  }

  lemma MisreadImage(prefix: nat, m: Matter, pos: nat)
    requires ValidSocket(m.socketPath) && pos < |Image(prefix, m)|
    ensures ValidSocket(OtherMatter(m).socketPath)
    ensures |Image(prefix, OtherMatter(m))| == |Image(prefix, m)|
    ensures Image(prefix, m)[..pos] + Image(prefix, OtherMatter(m))[pos..] == Image(prefix, Misread(prefix, m, pos))
  {
    var other := OtherMatter(m);
    var header := Header(prefix, |m.socketPath|);
    ImageParts(prefix, m);
    ImageParts(prefix, other);
    ImageParts(prefix, Misread(prefix, m, pos));
    OtherPidEncoded(m.pid);
    MixedImage(header, m.socketPath, other.socketPath, EncodeInt(m.pid), EncodeInt(other.pid), pos);
  }

  // As long as a single byte is missing, what an earlier singleton wrote can make the file read as a
  // matter that is not the holder's: its own, or once the socket has begun to be written, one that nobody
  // wrote, of the new socket and the old pid.
  lemma HalfWrittenMisleads(prefix: nat, m: Matter, pos: nat)
    requires ValidSocket(m.socketPath) && pos < |Image(prefix, m)|
    ensures ValidSocket(OtherMatter(m).socketPath)
    ensures ReadMatter(prefix, Overlay(Image(prefix, OtherMatter(m)), 0, Image(prefix, m)[..pos])) ==
              Some(Misread(prefix, m, pos))
  {
    MisreadImage(prefix, m, pos);
    var misread := Misread(prefix, m, pos);
    assert Overlay(Image(prefix, OtherMatter(m)), 0, Image(prefix, m)[..pos]) == Image(prefix, misread) + [];
    StaleBytesIgnored(prefix, misread, []);
  }

  // Whatever the file held before, a read names the holder exactly once the holder has written out the
  // file.
  lemma ReadNamesHolderIff(prefix: nat, m: Matter, pos: nat)
    requires ValidSocket(m.socketPath) && pos <= |Image(prefix, m)|
    ensures (forall file :: ReadMatter(prefix, Overlay(file, 0, Image(prefix, m)[..pos])) == Some(m)) <==>
              pos == |Image(prefix, m)|
  {
    var image := Image(prefix, m);
    if pos < |image| {
      HalfWrittenMisleads(prefix, m, pos);
      var file := Image(prefix, OtherMatter(m));
      assert ReadMatter(prefix, Overlay(file, 0, image[..pos])) != Some(m);
    } else {
      assert image[..pos] == image;
      forall file ensures ReadMatter(prefix, Overlay(file, 0, image[..pos])) == Some(m) {
        var stale := if |image| <= |file| then file[|image|..] else [];
        assert Overlay(file, 0, image) == image + stale;
        StaleBytesIgnored(prefix, m, stale);
      }
    }
  }

  // ----- The client's retry loop -----

  // Six tries at the socket by default; answers[i] is whether the i-th connects.
  method RetryGetSocketRwStream(answers: seq<bool>, maxTries: nat) returns (ok: bool, tries: nat)
    requires |answers| == maxTries + 1
    ensures 1 <= tries <= |answers| && ok == answers[tries - 1]
    ensures forall i :: 0 <= i < tries - 1 ==> !answers[i]
    ensures !ok ==> tries == |answers|
  {
    var i := 0;
    while true
      invariant i <= maxTries && forall j :: 0 <= j < i ==> !answers[j]
      decreases maxTries - i
    {
      if answers[i] || i == maxTries {
        return answers[i], i + 1;
      }
      i := i + 1;
    }
  }

  // What one pass of the loop meets: an unreadable file, a socket that refused to the end of its own
  // retries, a listed process that exited meanwhile, or a connection.
  datatype Answer = Unreadable | Refused | ProcessExited(pid: Pid) | Accepted(socket: Socket)

  datatype ClientError = ReadFailed | ConnectFailed | LockedProcessExited(pid: Pid)

  function Outcome(a: Answer): Result<Socket, ClientError> {
    match a
    case Unreadable => Err(ReadFailed)
    case Refused => Err(ConnectFailed)
    case ProcessExited(pid) => Err(LockedProcessExited(pid))
    case Accepted(socket) => Ok(socket)
  }

  predicate Final(a: Answer) {
    a.ProcessExited? || a.Accepted?
  }

  // The client makes at most eleven passes and reports the first final answer, or else the last error.
  method ConnectAsClientWithFile(answers: seq<Answer>) returns (r: Result<Socket, ClientError>, passes: nat)
    requires |answers| == MAX_CLIENT_ATTEMPTS + 1
    ensures 1 <= passes <= |answers| && r == Outcome(answers[passes - 1])
    ensures forall i :: 0 <= i < passes - 1 ==> !Final(answers[i])
    ensures passes < |answers| ==> Final(answers[passes - 1])
    ensures r.Ok? <==>
              exists i :: 0 <= i < |answers| && answers[i].Accepted? && forall j :: 0 <= j < i ==> !Final(answers[j])
  {
    var attempt := 0;
    while true
      invariant attempt <= MAX_CLIENT_ATTEMPTS
      invariant forall i :: 0 <= i < attempt ==> !Final(answers[i])
      decreases MAX_CLIENT_ATTEMPTS - attempt
    {
      passes := attempt + 1;
      if answers[attempt].ProcessExited? {
        return Err(LockedProcessExited(answers[attempt].pid)), passes;
      }
      r := Outcome(answers[attempt]);
      if r.Ok? || attempt == MAX_CLIENT_ATTEMPTS {
        return;
      }
      attempt := attempt + 1;
    }
  }
}
