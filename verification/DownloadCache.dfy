/**
 * `DownloadCache`: named directories on disk, a least-recently-used list of their names in memory, and
 * the JSON file the list is saved to. Removals, renames and saves can fail; each failure the code can
 * meet is an argument here.
 */
module DownloadCache {
  import opened Common

  const KEEP_LRU: nat := 5
  const STAGING_SUFFIX: string := ".staging"
  const RENAME_ATTEMPTS: nat := 20

  // A removal that fails half-way leaves a damaged directory behind.
  datatype Dir = Building | Complete | Damaged

  type Disk = map<string, Dir>

  type Names = seq<string>

  predicate Staging(name: string) {
    |STAGING_SUFFIX| <= |name| && name[|name| - |STAGING_SUFFIX|..] == STAGING_SUFFIX
  }

  // ----- The persisted list -----

  datatype Stored = Missing | Garbage | Json(names: Names)

  datatype SaveOutcome = Saved | OpenFailed | WriteFailed

  function Load(file: Stored): Names {
    if file.Json? then file.names else []
  }

  // The file is truncated when it is opened.
  function Written(file: Stored, names: Names, o: SaveOutcome): Stored {
    match o
    case Saved => Json(names)
    case OpenFailed => file
    case WriteFailed => Garbage
  }

  class PersistedState {
    var cached: Option<Names>
    var file: Stored

    constructor (file: Stored)
      ensures cached == None && this.file == file
    {
      cached, this.file := None, file;
    }

    function Current(): Names
      reads this
    {
      if cached.Some? then cached.value else Load(file)
    }

    method LoadOrGet() returns (l: Names)
      modifies this`cached
      ensures l == old(Current()) && cached == Some(l)
    {
      if cached.Some? {
        return cached.value;
      }
      l := if file.Json? then file.names else [];
      cached := Some(l);
    }

    // The list in memory changes even when the save fails.
    method Save(l: Names, o: SaveOutcome) returns (ok: bool)
      modifies this
      ensures Current() == l && cached == Some(l) && file == Written(old(file), l, o) && ok == o.Saved?
    {
      cached := Some(l);
      match o {
        case Saved => file := Json(l);
        case OpenFailed =>
        case WriteFailed => file := Garbage;
      }
      ok := o.Saved?;
    }
  }

  // ----- The list operations -----

  function RemoveFirst(l: Names, name: string): Names {
    if l == [] then [] else if l[0] == name then l[1..] else [l[0]] + RemoveFirst(l[1..], name)
  }

  function Without(l: Names, name: string): Names {
    if l == [] then [] else (if l[0] == name then [] else [l[0]]) + Without(l[1..], name)
  }

  function Touched(l: Names, name: string): Names {
    [name] + RemoveFirst(l, name)
  }

  function Remove(d: Disk, name: string, ok: bool): Disk {
    if name !in d then d else if ok then d - {name} else d[name := Damaged]
  }

  // A touch puts the name in front; with more than five names the last one's directory is removed, and
  // then its name. The flag says whether an eviction failed.
  function TouchSpec(d: Disk, l: Names, name: string, evicts: bool): (Disk, Names, bool) {
    var t := Touched(l, name);
    if |t| <= KEEP_LRU then (d, t, false)
    else
      var last := t[|t| - 1];
      if last !in d || evicts then (Remove(d, last, true), t[..|t| - 1], false)
      else (Remove(d, last, false), t, true)
  }

  // ----- The operations -----

  // What happens inside one `create`; renames[i] is the i-th attempt.
  datatype Outcomes = Outcomes(cleans: bool, makesDir: bool, builds: bool, evicts: bool, renames: seq<bool>)

  function ExistsSpec(d: Disk, l: Names, name: string, evicts: bool): (Disk, Names, bool) {
    if name !in d then (d, l, false)
    else var (d', l', _) := TouchSpec(d, l, name, evicts); (d', l', true)
  }

  function DeleteSpec(d: Disk, l: Names, name: string, removes: bool): (Disk, Names) {
    if name in d && !removes then (Remove(d, name, false), l) else (d - {name}, Without(l, name))
  }

  // The disk after the staging directory is prepared; what an earlier attempt left there is removed first.
  function Staged(d: Disk, temp: string, c: Outcomes): Disk {
    var d1 := Remove(d, temp, c.cleans);
    if !c.makesDir then d1 else d1[temp := if c.builds then Complete else Building]
  }

  function CreateSpec(d: Disk, l: Names, name: string, c: Outcomes): (Disk, Names, bool) {
    var temp := name + STAGING_SUFFIX;
    if name in d then (d, l, true)
    else if !c.makesDir || !c.builds then (Staged(d, temp, c), l, false)
    else
      var (d2, l2, _) := TouchSpec(Staged(d, temp, c), l, name, c.evicts);
      if true in c.renames && temp in d2 then ((d2 - {temp})[name := d2[temp]], l2, true) else (d2, l2, false)
  }

  lemma {:induction false} NothingToRemove(l: Names, name: string)
    requires name !in l
    ensures RemoveFirst(l, name) == l == Without(l, name)
  {
    if l != [] {
      NothingToRemove(l[1..], name);
    }
  }

  // ----- The code -----

  class Cache {
    var dirs: Disk
    const state: PersistedState

    constructor (dirs: Disk, state: PersistedState)
      ensures this.dirs == dirs && this.state == state
    {
      this.dirs, this.state := dirs, state;
    }

    method Touch(name: string, evicts: bool, save: SaveOutcome) returns (ok: bool)
      modifies this, state
      ensures ok == save.Saved?
      ensures var (d, l, _) := TouchSpec(old(dirs), old(state.Current()), name, evicts);
              && dirs == d && state.Current() == l
              && state.file == Written(old(state.file), l, save)
    {
      var l := state.LoadOrGet();
      if name in l {
        l := RemoveFirst(l, name);
      } else {
        NothingToRemove(l, name);
      }
      l := [name] + l;
      if |l| > KEEP_LRU {
        var f := l[|l| - 1];
        if f !in dirs {
          l := l[..|l| - 1];
        } else if evicts {
          dirs, l := dirs - {f}, l[..|l| - 1];
        } else {
          dirs := dirs[f := Damaged];
        }
      }
      ok := state.Save(l, save);
    }

    method Exists(name: string, evicts: bool, save: SaveOutcome) returns (found: bool)
      modifies this, state
      ensures (dirs, state.Current(), found) == ExistsSpec(old(dirs), old(state.Current()), name, evicts)
      ensures state.file == if found then Written(old(state.file), state.Current(), save) else old(state.file)
    {
      if name !in dirs {
        return false;
      }
      var _ := Touch(name, evicts, save);
      return true;
    }

    method Delete(name: string, removes: bool, save: SaveOutcome) returns (ok: bool)
      modifies this, state
      ensures (dirs, state.Current()) == DeleteSpec(old(dirs), old(state.Current()), name, removes)
      ensures ok <==> (name in old(dirs) ==> removes) && save.Saved?
      ensures state.file == if name in old(dirs) && !removes then old(state.file)
                            else Written(old(state.file), state.Current(), save)
    {
      assert name !in dirs ==> dirs - {name} == dirs;
      if name in dirs {
        if !removes {
          dirs := dirs[name := Damaged];
          return false;
        }
        dirs := dirs - {name};
      }
      var l := state.LoadOrGet();
      l := Without(l, name);
      ok := state.Save(l, save);
    }

    method Create(name: string, c: Outcomes, save: SaveOutcome) returns (ok: bool)
      requires |c.renames| == RENAME_ATTEMPTS + 1
      modifies this, state
      ensures (dirs, state.Current(), ok) == CreateSpec(old(dirs), old(state.Current()), name, c)
      ensures state.file == if name in old(dirs) || !c.makesDir || !c.builds then old(state.file)
                            else Written(old(state.file), state.Current(), save)
    {
      if name in dirs {
        return true;
      }
      var temp := name + STAGING_SUFFIX;
      if temp in dirs {
        dirs := if c.cleans then dirs - {temp} else dirs[temp := Damaged];
      }
      if !c.makesDir {
        return false;
      }
      dirs := dirs[temp := Building];
      if !c.builds {
        assert dirs == Staged(old(dirs), temp, c);
        return false;
      }
      dirs := dirs[temp := Complete];
      assert dirs == Staged(old(dirs), temp, c);
      var _ := Touch(name, c.evicts, save);
      for attempt := 0 to RENAME_ATTEMPTS + 1
        invariant forall i :: 0 <= i < attempt ==> !(c.renames[i] && temp in dirs)
      {
        if c.renames[attempt] && temp in dirs {
          dirs := (dirs - {temp})[name := dirs[temp]];
          return true;
        }
      }
      return false;
    }
  }

  // What the next process finds after one has saved a list: that list if the save succeeded, nothing if
  // it failed half-way, and otherwise what was in the file before.
  method SaveAndRestart(state: PersistedState, l: Names, o: SaveOutcome) returns (found: Names)
    modifies state
    ensures o.Saved? ==> found == l
    ensures o.WriteFailed? ==> found == []
    ensures o.OpenFailed? ==> found == Load(old(state.file))
  {
    var _ := state.Save(l, o);
    var next := new PersistedState(state.file);
    found := next.LoadOrGet();
  }

  // ----- Runs -----

  // A process uses the cache; when it restarts, the next one starts from the file.
  datatype Action =
    | Exists(name: string, evicts: bool, save: SaveOutcome)
    | Delete(name: string, removes: bool, save: SaveOutcome)
    | Create(name: string, c: Outcomes, save: SaveOutcome)
    | Restart

  datatype State = State(
    dirs: Disk, list: Names, file: Stored,
    failedEvictions: nat)   // history

  const INIT: State := State(map[], [], Missing, 0)

  // The list was changed and saved with outcome o.
  function Update(s: State, d: Disk, l: Names, o: SaveOutcome, evictionFailed: bool): State {
    State(d, l, Written(s.file, l, o), s.failedEvictions + if evictionFailed then 1 else 0)
  }

  function Next(s: State, a: Action): State {
    match a
    case Exists(name, evicts, save) =>
      if name !in s.dirs then s
      else var (d, l, failed) := TouchSpec(s.dirs, s.list, name, evicts); Update(s, d, l, save, failed)
    case Delete(name, removes, save) =>
      var (d, l) := DeleteSpec(s.dirs, s.list, name, removes);
      if name in s.dirs && !removes then s.(dirs := d) else Update(s, d, l, save, false)
    case Create(name, c, save) =>
      var (d, l, _) := CreateSpec(s.dirs, s.list, name, c);
      if name in s.dirs || !c.makesDir || !c.builds then s.(dirs := d)
      else Update(s, d, l, save, TouchSpec(Staged(s.dirs, name + STAGING_SUFFIX, c), s.list, name, c.evicts).2)
    case Restart => s.(list := Load(s.file))
  }

  function Exec(s: State, acts: seq<Action>): State
    decreases |acts|
  {
    if acts == [] then s else Exec(Next(s, acts[0]), acts[1..])
  }

  // A call of the cache takes the state's step.
  lemma CallsTakeSteps(s: State, name: string, ok: bool, c: Outcomes, save: SaveOutcome)
    ensures var s' := Next(s, Exists(name, ok, save));
            && (s'.dirs, s'.list, name in s.dirs) == ExistsSpec(s.dirs, s.list, name, ok)
            && s'.file == if name in s.dirs then Written(s.file, s'.list, save) else s.file
    ensures var s' := Next(s, Delete(name, ok, save));
            && (s'.dirs, s'.list) == DeleteSpec(s.dirs, s.list, name, ok)
            && s'.file == if name in s.dirs && !ok then s.file else Written(s.file, s'.list, save)
    ensures var s', spec := Next(s, Create(name, c, save)), CreateSpec(s.dirs, s.list, name, c);
            && (s'.dirs, s'.list) == (spec.0, spec.1)
            && s'.file == if name in s.dirs || !c.makesDir || !c.builds then s.file else Written(s.file, s'.list, save)
  {
  }

  // The state before the k-th action.
  function Before(acts: seq<Action>, k: nat): State
    requires k <= |acts|
  {
    Exec(INIT, acts[..k])
  }

  lemma {:induction false} ExecSnoc(s: State, acts: seq<Action>, a: Action)
    ensures Exec(s, acts + [a]) == Next(Exec(s, acts), a)
    decreases |acts|
  {
    if acts == [] {
      assert [a][1..] == [] && acts + [a] == [a];
    } else {
      assert (acts + [a])[1..] == acts[1..] + [a];
      ExecSnoc(Next(s, acts[0]), acts[1..], a);
    }
  }

  lemma BeforeNext(acts: seq<Action>, k: nat)
    requires k < |acts|
    ensures Before(acts, k + 1) == Next(Before(acts, k), acts[k])
  {
    assert acts[..k + 1] == acts[..k] + [acts[k]];
    ExecSnoc(INIT, acts[..k], acts[k]);
  }

  // ----- The list over every run -----

  ghost predicate ListOk(l: Names, failedEvictions: nat) {
    NoDuplicates(l) && |l| <= KEEP_LRU + failedEvictions
  }

  ghost predicate Inv(s: State) {
    ListOk(s.list, s.failedEvictions) && ListOk(Load(s.file), s.failedEvictions)
  }

  // Every directory but a staging directory is on the list, from which it can be evicted.
  ghost predicate Covers(l: Names, d: Disk) {
    forall n :: n in d && !Staging(n) ==> n in l
  }

  ghost predicate Listed(s: State) {
    Covers(s.list, s.dirs)
  }

  lemma {:induction false} WithoutFacts(l: Names, name: string)
    requires NoDuplicates(l)
    ensures NoDuplicates(Without(l, name)) && RemoveFirst(l, name) == Without(l, name)
    ensures forall n :: n in Without(l, name) <==> n in l && n != name
    ensures |Without(l, name)| == |l| - if name in l then 1 else 0
  {
    if l != [] {
      WithoutFacts(l[1..], name);
      if l[0] == name {
        NothingToRemove(l[1..], name);
        assert Without(l, name) == l[1..];
      } else {
        assert l[0] !in l[1..] && l[0] !in Without(l[1..], name);
      }
    }
  }

  lemma TouchedFacts(l: Names, name: string)
    requires NoDuplicates(l)
    ensures NoDuplicates(Touched(l, name)) && forall n :: n in Touched(l, name) <==> n == name || n in l
    ensures |Touched(l, name)| == |l| + if name in l then 0 else 1
  {
    WithoutFacts(l, name);
    assert Touched(l, name)[1..] == Without(l, name);
  }

  // What a touch does: the name comes first and keeps its directory; besides it the list loses at most
  // its last name, and with it the directory of that name.
  lemma TouchFacts(d: Disk, l: Names, name: string, evicts: bool)
    requires NoDuplicates(l)
    ensures var (d', l', failed) := TouchSpec(d, l, name, evicts);
            && NoDuplicates(l') && l' != [] && l'[0] == name
            && |l'| <= (if |l| <= KEEP_LRU then KEEP_LRU else |l|) + (if failed then 1 else 0)
            && (name in d ==> name in d' && d'[name] == d[name])
            && (forall n :: n in d' ==> n in d && (d'[n] == d[n] || (failed && d'[n] == Damaged)))
            && (forall n :: n in l && n !in l' ==> n !in d')
  {
    TouchedFacts(l, name);
    var t := Touched(l, name);
    if |t| > KEEP_LRU {
      var last := t[|t| - 1];
      assert t[0] == name && t[0] != t[|t| - 1];
      assert t == t[..|t| - 1] + [last];
    }
  }

  lemma StagingIsStaging(name: string)
    ensures Staging(name + STAGING_SUFFIX)
  {
  }

  lemma CreateKeepsListed(s: State, name: string, c: Outcomes, save: SaveOutcome)
    requires Inv(s) && Listed(s)
    ensures Listed(Next(s, Create(name, c, save)))
  {
    var temp := name + STAGING_SUFFIX;
    StagingIsStaging(name);
    var staged := Staged(s.dirs, temp, c);
    assert Covers(s.list, staged);
    TouchFacts(staged, s.list, name, c.evicts);
    var (d, l, _) := TouchSpec(staged, s.list, name, c.evicts);
    assert name in l && Covers(l, d);
  }

  lemma TouchKeepsInv(s: State, d: Disk, name: string, evicts: bool, save: SaveOutcome)
    requires Inv(s)
    ensures var (d', l, failed) := TouchSpec(d, s.list, name, evicts); Inv(Update(s, d', l, save, failed))
  {
    TouchFacts(d, s.list, name, evicts);
  }

  lemma CreateKeepsInv(s: State, name: string, c: Outcomes, save: SaveOutcome)
    requires Inv(s)
    ensures Inv(Next(s, Create(name, c, save)))
  {
    var staged := Staged(s.dirs, name + STAGING_SUFFIX, c);
    TouchKeepsInv(s, staged, name, c.evicts, save);
    var (d, l, failed) := TouchSpec(staged, s.list, name, c.evicts);
    assert Inv(Update(s, d, l, save, failed));
  }

  // No run makes the list repeat a name, or longer than five by more than the evictions that failed.
  lemma StepKeepsInv(s: State, a: Action)
    requires Inv(s)
    ensures Inv(Next(s, a))
  {
    match a
    case Exists(name, evicts, save) => TouchKeepsInv(s, s.dirs, name, evicts, save);
    case Delete(name, _, _) => WithoutFacts(s.list, name);
    case Create(name, c, save) => CreateKeepsInv(s, name, c, save);
    case Restart =>
  }

  lemma {:induction false} RunKeepsInv(s: State, acts: seq<Action>)
    requires Inv(s)
    ensures Inv(Exec(s, acts))
    decreases |acts|
  {
    if acts != [] {
      StepKeepsInv(s, acts[0]);
      RunKeepsInv(Next(s, acts[0]), acts[1..]);
    }
  }

  // The file names every directory, so that a restart forgets none.
  ghost predicate Recoverable(s: State) {
    Covers(Load(s.file), s.dirs)
  }

  // Only a restart can lose a directory from the list, and it does exactly if the file does not name it.
  lemma StepKeepsListedIff(s: State, a: Action)
    requires Inv(s) && Listed(s)
    ensures Listed(Next(s, a)) <==> (a.Restart? ==> Recoverable(s))
  {
    match a
    case Exists(name, evicts, _) => TouchFacts(s.dirs, s.list, name, evicts);
    case Delete(name, _, _) => WithoutFacts(s.list, name);
    case Create(name, c, save) => CreateKeepsListed(s, name, c, save);
    case Restart =>
  }

  ghost predicate SafeRestarts(s: State, acts: seq<Action>)
    decreases |acts|
  {
    acts == [] || ((acts[0].Restart? ==> Recoverable(s)) && SafeRestarts(Next(s, acts[0]), acts[1..]))
  }

  ghost predicate ListedThroughout(s: State, acts: seq<Action>)
    decreases |acts|
  {
    Listed(s) && (acts == [] || ListedThroughout(Next(s, acts[0]), acts[1..]))
  }

  // Every directory is listed all through a run exactly if each restart finds a file that names them all.
  lemma {:induction false} ListedThroughoutIff(s: State, acts: seq<Action>)
    requires Inv(s) && Listed(s)
    ensures ListedThroughout(s, acts) <==> SafeRestarts(s, acts)
    decreases |acts|
  {
    if acts != [] {
      StepKeepsInv(s, acts[0]);
      StepKeepsListedIff(s, acts[0]);
      if Listed(Next(s, acts[0])) {
        ListedThroughoutIff(Next(s, acts[0]), acts[1..]);
      }
    }
  }

  // A restart after a failed save forgets a directory: nothing evicts it any more.
  lemma UnsavedRestartOrphans()
    ensures exists acts: seq<Action> ::
              var s := Exec(INIT, acts); !SafeRestarts(INIT, acts) && "a" in s.dirs && "a" !in s.list
  {
    var c := Outcomes(true, true, true, false, seq(RENAME_ATTEMPTS + 1, _ => true));
    assert c.renames[0];
    var acts := [Create("a", c, OpenFailed), Restart];
    var s1 := Next(INIT, acts[0]);
    var s2 := Next(s1, acts[1]);
    assert acts[1..][0] == acts[1] && acts[1..][1..] == [];
    assert Exec(s2, []) == s2 && Exec(s1, acts[1..]) == s2 && Exec(INIT, acts) == s2;
    assert s1.dirs == map["a" := Complete];
    assert "a" in s1.dirs && !Staging("a") && "a" !in Load(s1.file);
    assert !SafeRestarts(s1, acts[1..]);
  }

  // ----- What a restart finds -----

  // How the step saved the list, if it got that far.
  function SaveAttempt(s: State, a: Action): Option<SaveOutcome> {
    match a
    case Exists(name, _, save) => if name in s.dirs then Some(save) else None
    case Delete(name, removes, save) => if name in s.dirs && !removes then None else Some(save)
    case Create(name, c, save) => if name !in s.dirs && c.makesDir && c.builds then Some(save) else None
    case Restart => None
  }

  lemma StepSaves(s: State, a: Action)
    ensures var s', o := Next(s, a), SaveAttempt(s, a);
            && (o == Some(Saved) ==> Load(s'.file) == s'.list)
            && (o == Some(WriteFailed) ==> Load(s'.file) == [])
            && (o == None || o == Some(OpenFailed) ==> s'.file == s.file)
  {
  }

  // The k-th action wrote the file, or broke it.
  predicate WroteAt(acts: seq<Action>, k: nat) {
    k < |acts| && SaveAttempt(Before(acts, k), acts[k]) in {Some(Saved), Some(WriteFailed)}
  }

  ghost predicate LastWrite(acts: seq<Action>, k: nat, m: nat) {
    k < m && WroteAt(acts, k) && forall j: nat :: k < j < m ==> !WroteAt(acts, j)
  }

  // What such an action left in the file.
  function LeftAt(acts: seq<Action>, k: nat): Names
    requires k < |acts|
  {
    if SaveAttempt(Before(acts, k), acts[k]) == Some(Saved) then Before(acts, k + 1).list else []
  }

  lemma WriteLeaves(acts: seq<Action>, k: nat)
    requires k < |acts|
    ensures var file := Before(acts, k + 1).file;
            if WroteAt(acts, k) then Load(file) == LeftAt(acts, k) else file == Before(acts, k).file
  {
    BeforeNext(acts, k);
    StepSaves(Before(acts, k), acts[k]);
  }

  lemma {:induction false} FileFollowsSaves(acts: seq<Action>, k: nat, m: nat)
    requires k < m <= |acts| && LastWrite(acts, k, m)
    ensures Load(Before(acts, m).file) == LeftAt(acts, k)
    decreases m
  {
    WriteLeaves(acts, m - 1);
    if k < m - 1 {
      FileFollowsSaves(acts, k, m - 1);
    }
  }

  lemma {:induction false} UnsavedIsEmpty(acts: seq<Action>, m: nat)
    requires m <= |acts| && forall j: nat :: j < m ==> !WroteAt(acts, j)
    ensures Load(Before(acts, m).file) == []
    decreases m
  {
    if m > 0 {
      WriteLeaves(acts, m - 1);
      UnsavedIsEmpty(acts, m - 1);
    }
  }

  // After a restart the list is the one that was in memory right after the last save that succeeded, if no
  // save has failed half-way since, and empty otherwise.
  lemma RestartFindsLastSave(acts: seq<Action>)
    ensures forall k: nat :: k < |acts| && LastWrite(acts, k, |acts|) ==>
              Next(Exec(INIT, acts), Restart).list == LeftAt(acts, k)
    ensures (forall k: nat :: k < |acts| ==> !WroteAt(acts, k)) ==> Next(Exec(INIT, acts), Restart).list == []
  {
    assert acts[..|acts|] == acts;
    forall k: nat | k < |acts| && LastWrite(acts, k, |acts|)
      ensures Load(Before(acts, |acts|).file) == LeftAt(acts, k)
    {
      FileFollowsSaves(acts, k, |acts|);
    }
    if forall k: nat :: k < |acts| ==> !WroteAt(acts, k) {
      UnsavedIsEmpty(acts, |acts|);
    }
  }

  // Right after a save that succeeded, a restart changes nothing.
  lemma RestartAfterSave(s: State, a: Action)
    requires SaveAttempt(s, a) == Some(Saved)
    ensures Next(Next(s, a), Restart) == Next(s, a)
  {
    StepSaves(s, a);
  }

  // ----- What a deletion leaves -----

  lemma {:induction false} WithoutMembers(l: Names, name: string, n: string)
    ensures n in Without(l, name) <==> n in l && n != name
  {
    if l != [] {
      WithoutMembers(l[1..], name, n);
      assert l == [l[0]] + l[1..];
    }
  }

  // A deletion that succeeds leaves neither the directory nor the name, and nothing else changes; one that
  // fails keeps the list.
  lemma DeleteMeans(d: Disk, l: Names, name: string, removes: bool, n: string)
    ensures var (d', l') := DeleteSpec(d, l, name, removes);
            if name in d && !removes then l' == l && d'.Keys == d.Keys && (n in d && n != name ==> d'[n] == d[n])
            else (n in l' <==> n in l && n != name) && (n in d' <==> n in d && n != name) && (n in d' ==> d'[n] == d[n])
  {
    WithoutMembers(l, name, n);
  }

  // ----- What is handed out -----

  // The directory a touch tries to remove.
  function Victim(d: Disk, l: Names, name: string): Option<string> {
    var t := Touched(l, name);
    if |t| <= KEEP_LRU || t[|t| - 1] !in d then None else Some(t[|t| - 1])
  }

  lemma TouchRemoves(d: Disk, l: Names, name: string, evicts: bool)
    ensures var v := Victim(d, l, name);
            TouchSpec(d, l, name, evicts).0 == if v.None? then d else Remove(d, v.value, evicts)
  {
  }

  // The step tried to remove a directory and failed, and at its end the directory has the name n: a
  // staging directory may still have been renamed.
  predicate Ruins(s: State, a: Action, n: string) {
    match a
    case Exists(name, evicts, _) => name in s.dirs && !evicts && Victim(s.dirs, s.list, name) == Some(n)
    case Delete(name, removes, _) => n == name && name in s.dirs && !removes
    case Create(name, c, _) =>
      var temp := name + STAGING_SUFFIX;
      name !in s.dirs
      && if !c.makesDir then n == temp && temp in s.dirs && !c.cleans
         else
           var v := Victim(Staged(s.dirs, temp, c), s.list, name);
           c.builds && !c.evicts && v.Some? && n == if v.value == temp && true in c.renames then name else v.value
    case Restart => false
  }

  // The step starts to build in n anew.
  predicate Rebuilds(s: State, a: Action, n: string) {
    a.Create? && a.name !in s.dirs && a.c.makesDir && n == a.name + STAGING_SUFFIX
  }

  // The step's own touch evicts the staging directory.
  predicate EvictsStaging(s: State, name: string, c: Outcomes) {
    Victim(Staged(s.dirs, name + STAGING_SUFFIX, c), s.list, name) == Some(name + STAGING_SUFFIX)
  }

  predicate Renames(s: State, name: string, c: Outcomes) {
    c.makesDir && c.builds && true in c.renames && !(c.evicts && EvictsStaging(s, name, c))
  }

  // The step removes the directory n.
  predicate Drops(s: State, a: Action, n: string) {
    match a
    case Exists(name, evicts, _) => name in s.dirs && evicts && Victim(s.dirs, s.list, name) == Some(n)
    case Delete(name, removes, _) => n == name && removes
    case Create(name, c, _) =>
      var temp := name + STAGING_SUFFIX;
      name !in s.dirs
      && if !c.makesDir then c.cleans && n == temp
         else c.builds && ((c.evicts && Victim(Staged(s.dirs, temp, c), s.list, name) == Some(n))
                           || (n == temp && Renames(s, name, c)))
    case Restart => false
  }

  // The step leaves a directory n of its own.
  predicate Makes(s: State, a: Action, n: string) {
    a.Create? && a.name !in s.dirs && a.c.makesDir
    && if n == a.name then Renames(s, a.name, a.c)
       else n == a.name + STAGING_SUFFIX
            && !(a.c.builds && (Renames(s, a.name, a.c) || (a.c.evicts && EvictsStaging(s, a.name, a.c))))
  }

  // No directory comes or goes otherwise.
  lemma StepPresence(s: State, a: Action, n: string)
    ensures n in Next(s, a).dirs <==> (n in s.dirs && !Drops(s, a, n)) || Makes(s, a, n)
  {
    if a.Exists? {
      TouchRemoves(s.dirs, s.list, a.name, a.evicts);
    } else if a.Create? && a.name !in s.dirs {
      TouchRemoves(Staged(s.dirs, a.name + STAGING_SUFFIX, a.c), s.list, a.name, a.c.evicts);
    }
  }

  predicate Is(s: State, n: string, d: Dir) {
    n in s.dirs && s.dirs[n] == d
  }

  lemma CreateDamages(s: State, name: string, c: Outcomes, save: SaveOutcome, n: string)
    requires name !in s.dirs
    ensures var a := Create(name, c, save);
            Is(Next(s, a), n, Damaged) <==>
              Ruins(s, a, n) || (Is(s, n, Damaged) && n in Next(s, a).dirs && !Rebuilds(s, a, n))
  {
    TouchRemoves(Staged(s.dirs, name + STAGING_SUFFIX, c), s.list, name, c.evicts);
  }

  lemma StepDamages(s: State, a: Action, n: string)
    ensures Is(Next(s, a), n, Damaged) <==>
              Ruins(s, a, n) || (Is(s, n, Damaged) && n in Next(s, a).dirs && !Rebuilds(s, a, n))
  {
    if a.Exists? {
      TouchRemoves(s.dirs, s.list, a.name, a.evicts);
    } else if a.Create? && a.name !in s.dirs {
      CreateDamages(s, a.name, a.c, a.save, n);
    }
  }

  lemma StepBuilds(s: State, a: Action, n: string)
    ensures Is(Next(s, a), n, Building) <==>
              || (Rebuilds(s, a, n) && !a.c.builds)
              || (Is(s, n, Building) && n in Next(s, a).dirs && !Rebuilds(s, a, n) && !Ruins(s, a, n))
  {
    if a.Exists? {
      TouchRemoves(s.dirs, s.list, a.name, a.evicts);
    } else if a.Create? && a.name !in s.dirs {
      TouchRemoves(Staged(s.dirs, a.name + STAGING_SUFFIX, a.c), s.list, a.name, a.c.evicts);
    }
  }

  predicate RuinedAt(acts: seq<Action>, n: string, k: nat) {
    k < |acts| && Ruins(Before(acts, k), acts[k], n)
  }

  predicate AbandonedAt(acts: seq<Action>, n: string, k: nat) {
    k < |acts| && Rebuilds(Before(acts, k), acts[k], n) && !acts[k].c.builds
  }

  // The k-th action leaves n there, and nobody builds in it anew.
  predicate KeptAt(acts: seq<Action>, n: string, k: nat) {
    k < |acts| && n in Before(acts, k + 1).dirs && !Rebuilds(Before(acts, k), acts[k], n)
  }

  // Something happened at some k < m, and something else has held since.
  ghost predicate Since(happens: nat -> bool, holds: nat -> bool, m: nat) {
    exists k: nat :: k < m && happens(k) && forall j: nat :: k < j < m ==> holds(j)
  }

  lemma SinceStep(happens: nat -> bool, holds: nat -> bool, m: nat)
    ensures Since(happens, holds, m + 1) <==> happens(m) || (Since(happens, holds, m) && holds(m))
  {
    if happens(m) {
      assert forall j: nat :: m < j < m + 1 ==> holds(j);
    }
    if k: nat :| k < m + 1 && happens(k) && forall j: nat :: k < j < m + 1 ==> holds(j) {
      assert k < m ==> holds(m);
    }
  }

  // A removal of n failed, and n has been there since and has not been built anew.
  ghost predicate WasRuined(acts: seq<Action>, n: string, m: nat) {
    Since((k: nat) => RuinedAt(acts, n, k), (k: nat) => KeptAt(acts, n, k), m)
  }

  // A build in n was given up, and n has been there since with no other build and no failed removal.
  ghost predicate WasAbandoned(acts: seq<Action>, n: string, m: nat) {
    Since((k: nat) => AbandonedAt(acts, n, k), (k: nat) => KeptAt(acts, n, k) && !RuinedAt(acts, n, k), m)
  }

  lemma {:induction false} DamagedIff(acts: seq<Action>, n: string, m: nat)
    requires m <= |acts|
    ensures Is(Before(acts, m), n, Damaged) <==> WasRuined(acts, n, m)
    decreases m
  {
    if m > 0 {
      DamagedIff(acts, n, m - 1);
      BeforeNext(acts, m - 1);
      StepDamages(Before(acts, m - 1), acts[m - 1], n);
      SinceStep((k: nat) => RuinedAt(acts, n, k), (k: nat) => KeptAt(acts, n, k), m - 1);
    }
  }

  lemma {:induction false} BuildingIff(acts: seq<Action>, n: string, m: nat)
    requires m <= |acts|
    ensures Is(Before(acts, m), n, Building) <==> WasAbandoned(acts, n, m)
    decreases m
  {
    if m > 0 {
      BuildingIff(acts, n, m - 1);
      BeforeNext(acts, m - 1);
      StepBuilds(Before(acts, m - 1), acts[m - 1], n);
      SinceStep((k: nat) => AbandonedAt(acts, n, k), (k: nat) => KeptAt(acts, n, k) && !RuinedAt(acts, n, k), m - 1);
    }
  }

  lemma NoneAbandoned(acts: seq<Action>, n: string, m: nat)
    requires !Staging(n)
    ensures !WasAbandoned(acts, n, m)
  {
    forall k: nat ensures !AbandonedAt(acts, n, k) {
      if k < |acts| && acts[k].Create? { StagingIsStaging(acts[k].name); }
    }
  }

  // Over every run, a directory is complete unless the last that happened to it was a removal that
  // failed, or a build that was given up. The latter only happens to staging directories.
  lemma CompleteIff(acts: seq<Action>, n: string)
    requires n in Exec(INIT, acts).dirs
    ensures Exec(INIT, acts).dirs[n] == Complete <==> !WasRuined(acts, n, |acts|) && !WasAbandoned(acts, n, |acts|)
    ensures !Staging(n) ==> !WasAbandoned(acts, n, |acts|)
  {
    assert acts[..|acts|] == acts;
    DamagedIff(acts, n, |acts|);
    BuildingIff(acts, n, |acts|);
    if !Staging(n) { NoneAbandoned(acts, n, |acts|); }
  }

  // `create` reports success exactly for a directory that was there, or was built to the end and renamed
  // (which its own touch can only prevent by evicting the staging directory). What it hands out is
  // complete or not by the history of that one directory.
  lemma HandedOutIsBuilt(acts: seq<Action>, name: string, c: Outcomes, save: SaveOutcome)
    ensures var s := Exec(INIT, acts);
            var all := acts + [Create(name, c, save)];
            var s' := Exec(INIT, all);
            && s' == Next(s, Create(name, c, save))
            && (CreateSpec(s.dirs, s.list, name, c).2 <==>
                  || name in s.dirs
                  || (c.makesDir && c.builds && true in c.renames && !(c.evicts && EvictsStaging(s, name, c))))
            && (CreateSpec(s.dirs, s.list, name, c).2 ==>
                  && name in s'.dirs
                  && (s'.dirs[name] == Complete <==>
                        !WasRuined(all, name, |all|) && !WasAbandoned(all, name, |all|)))
  {
    ExecSnoc(INIT, acts, Create(name, c, save));
    TouchRemoves(Staged(Exec(INIT, acts).dirs, name + STAGING_SUFFIX, c), Exec(INIT, acts).list, name, c.evicts);
    var all := acts + [Create(name, c, save)];
    if name in Exec(INIT, all).dirs { CompleteIff(all, name); }
  }

  // So is what `exists` finds, and the touch leaves it as it is.
  lemma FoundIsBuilt(acts: seq<Action>, name: string, evicts: bool)
    ensures var s := Exec(INIT, acts);
            && (ExistsSpec(s.dirs, s.list, name, evicts).2 <==> name in s.dirs)
            && (name in s.dirs ==> Is(s.(dirs := ExistsSpec(s.dirs, s.list, name, evicts).0), name, s.dirs[name]))
            && (name in s.dirs ==>
                  (s.dirs[name] == Complete <==>
                     !WasRuined(acts, name, |acts|) && !WasAbandoned(acts, name, |acts|)))
  {
    var s := Exec(INIT, acts);
    RunKeepsInv(INIT, acts);
    TouchFacts(s.dirs, s.list, name, evicts);
    if name in s.dirs { CompleteIff(acts, name); }
  }

  // A removal that fails half-way leaves a directory that `exists` still hands out.
  lemma FailedRemovalIsHandedOut()
    ensures exists acts: seq<Action> ::
              var s := Exec(INIT, acts);
              SafeRestarts(INIT, acts) && "a" in s.dirs && s.dirs["a"] == Damaged
              && ExistsSpec(s.dirs, s.list, "a", true).2
  {
    var c := Outcomes(true, true, true, false, seq(RENAME_ATTEMPTS + 1, _ => true));
    assert c.renames[0];
    var acts := [Create("a", c, Saved), Delete("a", false, Saved)];
    var s1 := Next(INIT, acts[0]);
    var s2 := Next(s1, acts[1]);
    assert acts[1..][0] == acts[1] && acts[1..][1..] == [];
    assert Exec(s2, []) == s2 && Exec(s1, acts[1..]) == s2 && Exec(INIT, acts) == s2;
    assert SafeRestarts(s2, []) && SafeRestarts(s1, acts[1..]) && SafeRestarts(INIT, acts);
    assert s1.dirs == map["a" := Complete];
  }

  // Asked for the name of another entry's staging directory, `create` hands out a build that was given up.
  lemma AbandonedBuildIsHandedOut(c: Outcomes)
    ensures exists acts: seq<Action> ::
              var s := Exec(INIT, acts);
              "a.staging" in s.dirs && s.dirs["a.staging"] == Building && CreateSpec(s.dirs, s.list, "a.staging", c).2
  {
    var given := Outcomes(true, true, false, true, []);
    var acts := [Create("a", given, Saved)];
    var s1 := Next(INIT, acts[0]);
    assert "a" + STAGING_SUFFIX == "a.staging";
    assert acts[1..] == [] && Exec(s1, []) == s1 && Exec(INIT, acts) == s1;
    assert s1.dirs["a.staging"] == Building;
  }

  // ----- Least recently used -----

  // The distinct names of a history, last used first.
  function Recent(history: Names): Names {
    if history == [] then []
    else var n := history[|history| - 1]; [n] + Without(Recent(history[..|history| - 1]), n)
  }

  // One past the last use of a name.
  function LastUse(history: Names, name: string): nat {
    if history == [] then 0
    else if history[|history| - 1] == name then |history|
    else LastUse(history[..|history| - 1], name)
  }

  lemma {:induction false} LastUseIsLast(history: Names, name: string)
    ensures LastUse(history, name) <= |history|
    ensures LastUse(history, name) == 0 <==> name !in history
    ensures var k := LastUse(history, name);
            k > 0 ==> history[k - 1] == name && forall i :: k <= i < |history| ==> history[i] != name
  {
    if history != [] {
      LastUseIsLast(history[..|history| - 1], name);
    }
  }

  ghost predicate ByLastUse(history: Names, l: Names) {
    forall i, j :: 0 <= i < j < |l| ==> LastUse(history, l[i]) > LastUse(history, l[j])
  }

  lemma {:induction false} WithoutKeepsOrder(history: Names, l: Names, name: string)
    requires ByLastUse(history, l)
    ensures ByLastUse(history, Without(l, name))
    ensures forall n :: n in Without(l, name) <==> n in l && n != name
  {
    if l != [] {
      assert ByLastUse(history, l[1..]);
      WithoutKeepsOrder(history, l[1..], name);
      var w, w' := Without(l, name), Without(l[1..], name);
      if l[0] != name {
        assert w == [l[0]] + w';
        forall j | 0 < j < |w| ensures LastUse(history, w[0]) > LastUse(history, w[j]) {
          assert w[j] in w';
        }
      }
    }
  }

  lemma LaterUses(init: Names, n: string, w: Names)
    requires ByLastUse(init, w) && n !in w
    ensures ByLastUse(init + [n], [n] + w)
  {
    var history := init + [n];
    assert history[..|init|] == init;
    forall j | 0 <= j < |w| ensures LastUse(history, w[j]) == LastUse(init, w[j]) <= |init| {
      assert w[j] in w;
      LastUseIsLast(init, w[j]);
    }
  }

  // `Recent` lists exactly the names used, in the order of their last use.
  lemma {:induction false} RecentByLastUse(history: Names)
    ensures forall n :: n in Recent(history) <==> n in history
    ensures ByLastUse(history, Recent(history))
  {
    if history != [] {
      var init, n := history[..|history| - 1], history[|history| - 1];
      RecentByLastUse(init);
      assert history == init + [n];
      WithoutKeepsOrder(init, Recent(init), n);
      LaterUses(init, n, Without(Recent(init), n));
    }
  }

  function Shortest(l: Names): Names {
    if |l| <= KEEP_LRU then l else l[..KEEP_LRU]
  }

  // Touches with evictions that succeed.
  function TouchAll(d: Disk, history: Names): (Disk, Names) {
    if history == [] then (d, [])
    else
      var (d1, l1) := TouchAll(d, history[..|history| - 1]);
      var (d2, l2, _) := TouchSpec(d1, l1, history[|history| - 1], true);
      (d2, l2)
  }

  lemma {:induction false} WithoutPrefix(l: Names, name: string, k: nat)
    requires NoDuplicates(l) && k <= |l|
    ensures var j := if name in l[..k] then k - 1 else k;
            j <= |Without(l, name)| && Without(l[..k], name) == Without(l, name)[..j]
  {
    if k > 0 {
      var rest := l[1..][..k - 1];
      assert l[..k] == [l[0]] + rest;
      WithoutPrefix(l[1..], name, k - 1);
      if l[0] == name {
        assert name !in l[1..] by { assert forall i :: 0 < i < |l| ==> l[i] != l[0]; }
        NothingToRemove(rest, name);
        NothingToRemove(l[1..], name);
      } else {
        assert name in l[..k] <==> name in rest;
      }
    }
  }

  lemma TouchedShortest(r: Names, n: string)
    requires NoDuplicates(r)
    ensures Touched(Shortest(r), n) <= [n] + Without(r, n)
    ensures |Touched(Shortest(r), n)| >= KEEP_LRU || Touched(Shortest(r), n) == [n] + Without(r, n)
    ensures |Touched(Shortest(r), n)| <= KEEP_LRU + 1
  {
    var k := if |r| <= KEEP_LRU then |r| else KEEP_LRU;
    assert Shortest(r) == r[..k];
    WithoutFacts(r, n);
    WithoutFacts(r[..k], n);
    WithoutPrefix(r, n, k);
    var w := Without(r, n);
    var j := if n in r[..k] then k - 1 else k;
    assert [n] + w[..j] == ([n] + w)[..j + 1];
    if k == |r| { assert r[..k] == r; }
  }

  // A touch of the five latest names gives the five latest names.
  lemma TouchKeepsShortest(d: Disk, r: Names, n: string)
    requires NoDuplicates(r)
    ensures TouchSpec(d, Shortest(r), n, true).1 == Shortest([n] + Without(r, n))
  {
    TouchedShortest(r, n);
    var t := Touched(Shortest(r), n);
    assert |t| > KEEP_LRU ==> t[..|t| - 1] == ([n] + Without(r, n))[..KEEP_LRU];
  }

  // After any touches the list is the five names used last, the latest first.
  lemma {:induction false} TouchesKeepTheRecent(d: Disk, history: Names)
    ensures NoDuplicates(Recent(history)) && TouchAll(d, history).1 == Shortest(Recent(history))
  {
    if history != [] {
      var init, n := history[..|history| - 1], history[|history| - 1];
      TouchesKeepTheRecent(d, init);
      WithoutFacts(Recent(init), n);
      TouchKeepsShortest(TouchAll(d, init).0, Recent(init), n);
    }
  }
}
