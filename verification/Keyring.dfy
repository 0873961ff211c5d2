/**
 * `KeyringStorage`: a sealed credential is split over numbered keyring entries of limited size. An entry
 * that ends in a marker is continued in the next one.
 */
module Keyring {
  import opened Common

  // UTF-8 text.
  type Text = seq<byte>

  type Vault = map<nat, Text>

  // "<MORE>"
  const MARKER: Text := [0x3c, 0x4d, 0x4f, 0x52, 0x45, 0x3e]

  predicate Continued(chunk: Text) {
    |MARKER| <= |chunk| && chunk[|chunk| - |MARKER|..] == MARKER
  }

  // Slicing a string anywhere else panics.
  predicate CharBoundary(s: Text, i: nat)
    requires i <= |s|
  {
    i == |s| || !(0x80 <= s[i] < 0xc0)
  }

  datatype StoreResult = Stored | Refused | Panicked

  datatype ReadResult = Found(text: Text) | NoEntry | Broken

  // ----- What store and read do to the entries from k on -----

  // step bytes go into an entry; entries in `refused` cannot be written.
  function StoreFrom(step: nat, refused: set<nat>, v: Vault, s: Text, k: nat): (StoreResult, Vault)
    requires step > 0
    decreases |s| - k * step
  {
    var i := k * step;
    if i >= |s| then (Stored, v)
    else if !CharBoundary(s, i) || (i + step <= |s| && !CharBoundary(s, i + step)) then (Panicked, v)
    else if k in refused then (Refused, v)
    else StoreFrom(step, refused, v[k := Part(step, s, k)], s, k + 1)
  }

  function Part(step: nat, s: Text, k: nat): Text
    requires k * step <= |s|
  {
    var i := k * step;
    if i + step <= |s| then s[i..i + step] + MARKER else s[i..]
  }

  // Entries in `broken` cannot be read.
  function ReadFrom(v: Vault, broken: set<nat>, k: nat): ReadResult
    decreases |EntriesFrom(v, k)|
  {
    if k in broken then Broken
    else if k !in v then NoEntry
    else if Continued(v[k]) then
      FewerEntries(v, k);
      Prefixed(v[k][..|v[k]| - |MARKER|], ReadFrom(v, broken, k + 1))
    else Found(v[k])
  }

  function Prefixed(s: Text, r: ReadResult): ReadResult {
    if r.Found? then Found(s + r.text) else r
  }

  function EntriesFrom(v: Vault, k: nat): set<nat> {
    set j | j in v && k <= j
  }

  // The entry at which reading stops.
  function StopAt(v: Vault, broken: set<nat>, k: nat): nat
    decreases |EntriesFrom(v, k)|
  {
    if k in broken || k !in v || !Continued(v[k]) then k
    else
      FewerEntries(v, k);
      StopAt(v, broken, k + 1)
  }

  function Max(a: nat, b: nat): nat {
    if a < b then b else a
  }

  // The entries before the n-th.
  function Below(n: nat): (ks: set<nat>)
    ensures forall k: nat :: k in ks <==> k < n
  {
    if n == 0 then {} else Below(n - 1) + {n - 1}
  }

  lemma FewerEntries(v: Vault, k: nat)
    requires k in v
    ensures |EntriesFrom(v, k + 1)| < |EntriesFrom(v, k)|
  {
    assert EntriesFrom(v, k) == EntriesFrom(v, k + 1) + {k};
  }

  // The first entry a store of s does not write.
  function Count(step: nat, s: Text, k: nat): nat
    requires step > 0
    decreases |s| - k * step
  {
    if k * step >= |s| then k else Count(step, s, k + 1)
  }

  lemma PrefixedTwice(a: Text, b: Text, r: ReadResult)
    ensures Prefixed(a, Prefixed(b, r)) == Prefixed(a + b, r)
  {
    if r.Found? {
      assert a + (b + r.text) == a + b + r.text;
    }
  }

  // ----- The code -----

  class KeyringStorage {
    const limit: nat           // KEYCHAIN_ENTRY_LIMIT, by platform
    var vault: Vault           // the system's keyring
    var entries: nat           // handles opened so far: 0, 1, ...

    constructor (limit: nat, vault: Vault)
      ensures this.limit == limit && this.vault == vault && entries == 0
    {
      this.limit, this.vault, entries := limit, vault, 0;
    }

    method Store(sealed: Text, refused: set<nat>) returns (r: StoreResult)
      requires limit > |MARKER|
      modifies this
      ensures (r, vault) == StoreFrom(limit - |MARKER|, refused, old(vault), sealed, 0)
      ensures entries >= old(entries)
      ensures r == Stored ==> entries == Max(old(entries), Count(limit - |MARKER|, sealed, 0))
    {
      var step := limit - |MARKER|;
      var i, k := 0, 0;
      while i < |sealed|
        invariant i == k * step && entries == Max(old(entries), k)
        invariant Count(step, sealed, 0) == Count(step, sealed, k)
        invariant StoreFrom(step, refused, vault, sealed, k) == StoreFrom(step, refused, old(vault), sealed, 0)
        decreases |sealed| - i
      {
        var cutoff := i + step;
        if !CharBoundary(sealed, i) || (cutoff <= |sealed| && !CharBoundary(sealed, cutoff)) {
          return Panicked;
        }
        if k == entries {
          entries := entries + 1;
        }
        if k in refused {
          return Refused;
        }
        if cutoff <= |sealed| {
          vault := vault[k := sealed[i..cutoff] + MARKER];
        } else {
          vault := vault[k := sealed[i..]];
        }
        i, k := cutoff, k + 1;
      }
      return Stored;
    }

    method Read(broken: set<nat>) returns (r: ReadResult)
      modifies this`entries
      ensures r == ReadFrom(vault, broken, 0)
      ensures entries == Max(old(entries), StopAt(vault, broken, 0) + 1)
    {
      var str: Text := [];
      var i := 0;
      while true
        invariant ReadFrom(vault, broken, 0) == Prefixed(str, ReadFrom(vault, broken, i))
        invariant StopAt(vault, broken, 0) == StopAt(vault, broken, i)
        invariant entries == Max(old(entries), i)
        decreases |EntriesFrom(vault, i)|
      {
        if i == entries {
          entries := entries + 1;
        }
        if i in broken {
          return Broken;
        }
        if i !in vault {
          return NoEntry;
        }
        var chunk := vault[i];
        if Continued(chunk) {
          FewerEntries(vault, i);
          var head := chunk[..|chunk| - |MARKER|];
          assert ReadFrom(vault, broken, i) == Prefixed(head, ReadFrom(vault, broken, i + 1));
          PrefixedTwice(str, head, ReadFrom(vault, broken, i + 1));
          str, i := str + head, i + 1;
        } else {
          return Found(str + chunk);
        }
      }
    }

    // Every opened entry is deleted, up to one that is not there, which is an error. Reading first opens
    // the entries of the stored text.
    method Clear(broken: set<nat>) returns (ok: bool)
      modifies this
      ensures var n := Max(old(entries), StopAt(old(vault), broken, 0) + 1);
              && (ok <==> Below(n) <= old(vault).Keys)
              && (ok ==> vault == old(vault) - Below(n) && entries == 0)
              && (!ok ==> entries == n && exists m: nat ::
                    m < n && m !in old(vault) && Below(m) <= old(vault).Keys && vault == old(vault) - Below(m))
      ensures ok ==> ReadFrom(vault, {}, 0) == NoEntry
    {
      var _ := Read(broken);
      var n := entries;
      assert old(vault) - Below(0) == old(vault);
      for k := 0 to n
        invariant entries == n
        invariant vault == old(vault) - Below(k) && Below(k) <= old(vault).Keys
      {
        if k !in vault {
          assert k in Below(n) && k !in old(vault).Keys;
          return false;
        }
        vault := vault - {k};
        assert vault == old(vault) - Below(k + 1);
      }
      entries := 0;
      assert 0 in Below(n);
      return true;
    }
  }

  // ----- What reading gives back -----

  // The text behind the last full entry.
  function Tail(step: nat, s: Text): Text
    requires step > 0
  {
    s[|s| - |s| % step..]
  }

  ghost predicate BadCut(step: nat, s: Text, j: nat) {
    j * step <= |s| && !CharBoundary(s, j * step)
  }

  ghost predicate Sliceable(step: nat, s: Text) {
    forall k: nat :: !BadCut(step, s, k)
  }

  lemma NextPart(step: nat, k: nat, k': nat)
    requires step > 0 && k < k'
    ensures k * step + step == (k + 1) * step <= k' * step
  {
    assert k' * step == (k + 1) * step + (k' - k - 1) * step;
  }

  lemma ModOf(k: nat, step: nat, r: nat)
    requires r < step
    ensures (k * step + r) % step == r
  {
    var n := k * step + r;
    var q := n / step;
    assert n == q * step + n % step;
    if q > k { NextPart(step, k, q); } else if q < k { NextPart(step, q, k); }
  }

  predicate SameEntry(v: Vault, v': Vault, j: nat) {
    (j in v' <==> j in v) && (j in v ==> v'[j] == v[j])
  }

  // v' is v with the entries of s from k on.
  ghost predicate Holds(step: nat, s: Text, v: Vault, v': Vault, k: nat)
    requires step > 0
  {
    && (forall j: nat :: k <= j && j * step < |s| ==> j in v' && v'[j] == Part(step, s, j))
    && (forall j: nat :: j < k || |s| <= j * step ==> SameEntry(v, v', j))
  }

  lemma {:induction false} StoreHolds(step: nat, v: Vault, s: Text, k: nat)
    requires step > 0 && Sliceable(step, s)
    ensures StoreFrom(step, {}, v, s, k).0 == Stored
    ensures Holds(step, s, v, StoreFrom(step, {}, v, s, k).1, k)
    decreases |s| - k * step
  {
    if k * step < |s| {
      NextPart(step, k, k + 1);
      assert !BadCut(step, s, k) && !BadCut(step, s, k + 1);
      var v1 := v[k := Part(step, s, k)];
      StoreHolds(step, v1, s, k + 1);
      var v' := StoreFrom(step, {}, v, s, k).1;
      assert v' == StoreFrom(step, {}, v1, s, k + 1).1;
      assert SameEntry(v1, v', k);
      forall j: nat | j < k || |s| <= j * step ensures SameEntry(v, v', j) {
        assert SameEntry(v1, v', j);
      }
    } else {
      forall j: nat | k <= j ensures |s| <= j * step {
        if k < j { NextPart(step, k, j); }
      }
    }
  }

  lemma {:induction false} SameRead(v: Vault, v': Vault, k: nat)
    requires forall j: nat :: k <= j ==> SameEntry(v, v', j)
    ensures ReadFrom(v', {}, k) == ReadFrom(v, {}, k)
    decreases |EntriesFrom(v, k)|
  {
    assert SameEntry(v, v', k);
    if k in v && Continued(v[k]) {
      FewerEntries(v, k);
      SameRead(v, v', k + 1);
    }
  }

  // What a store of s leaves to be read from entry k on, over a keyring that held v.
  function Reread(step: nat, v: Vault, s: Text, k: nat): ReadResult
    requires step > 0 && k * step <= |s|
  {
    var tail := Tail(step, s);
    if tail == [] then Prefixed(s[k * step..], ReadFrom(v, {}, Count(step, s, k)))
    else if Continued(tail) && k * step + |MARKER| <= |s| then
      Prefixed(s[k * step..|s| - |MARKER|], ReadFrom(v, {}, Count(step, s, k)))
    else Found(s[k * step..])
  }

  // From entry k on, v' is v with the entries of s.
  ghost predicate HoldsFrom(step: nat, s: Text, v: Vault, v': Vault, k: nat)
    requires step > 0
  {
    && (forall j: nat :: k <= j && j * step < |s| ==> j in v' && v'[j] == Part(step, s, j))
    && (forall j: nat :: k <= j && |s| <= j * step ==> SameEntry(v, v', j))
  }

  lemma BehindLast(step: nat, s: Text, v: Vault, v': Vault, k: nat)
    requires step > 0 && |s| <= k * step && HoldsFrom(step, s, v, v', k)
    ensures ReadFrom(v', {}, k) == ReadFrom(v, {}, k)
  {
    forall j: nat | k <= j ensures SameEntry(v, v', j) {
      if k < j { NextPart(step, k, j); }
    }
    SameRead(v, v', k);
  }

  lemma TailFollows(step: nat, s: Text, m: nat)
    requires step > 0 && m * step <= |s|
    ensures m * step + |Tail(step, s)| <= |s|
  {
    var q := |s| / step;
    assert |s| == q * step + |s| % step;
    if m > q {
      NextPart(step, q, m);
    } else if m < q {
      NextPart(step, m, q);
    }
  }

  lemma RereadFull(step: nat, v: Vault, s: Text, k: nat)
    requires step > 0 && k * step + step <= |s|
    ensures (k + 1) * step <= |s|
    ensures Reread(step, v, s, k) == Prefixed(s[k * step..k * step + step], Reread(step, v, s, k + 1))
  {
    NextPart(step, k, k + 1);
    TailFollows(step, s, k + 1);
    var i, i' := k * step, (k + 1) * step;
    var r := ReadFrom(v, {}, Count(step, s, k));
    assert s[i..] == s[i..i'] + s[i'..];
    PrefixedTwice(s[i..i'], s[i'..], r);
    if i' + |MARKER| <= |s| {
      assert s[i..|s| - |MARKER|] == s[i..i'] + s[i'..|s| - |MARKER|];
      PrefixedTwice(s[i..i'], s[i'..|s| - |MARKER|], r);
    }
  }

  lemma ReadLast(step: nat, v: Vault, v': Vault, s: Text, k: nat)
    requires step > 0 && k * step < |s| < k * step + step && HoldsFrom(step, s, v, v', k)
    ensures ReadFrom(v', {}, k) == Reread(step, v, s, k)
  {
    var i := k * step;
    ModOf(k, step, |s| - i);
    NextPart(step, k, k + 1);
    var tail := s[i..];
    assert Tail(step, s) == tail && v'[k] == tail;
    assert Count(step, s, k) == k + 1;
    BehindLast(step, s, v, v', k + 1);
    if Continued(tail) {
      assert tail[..|tail| - |MARKER|] == s[i..|s| - |MARKER|];
    }
  }

  lemma NothingPrefixed(r: ReadResult)
    ensures Prefixed([], r) == r
  {
    if r.Found? {
      assert [] + r.text == r.text;
    }
  }

  // However long the value stored before, reading gives this.
  lemma {:induction false} ReadBack(step: nat, v: Vault, v': Vault, s: Text, k: nat)
    requires step > 0 && k * step <= |s| && HoldsFrom(step, s, v, v', k)
    ensures ReadFrom(v', {}, k) == Reread(step, v, s, k)
    decreases |s| - k * step
  {
    var i := k * step;
    NextPart(step, k, k + 1);
    if i == |s| {
      ModOf(k, step, 0);
      BehindLast(step, s, v, v', k);
      assert s[i..] == [] && Tail(step, s) == [];
      NothingPrefixed(ReadFrom(v, {}, k));
    } else if i + step <= |s| {
      var part := s[i..i + step];
      assert v'[k] == part + MARKER;
      assert v'[k][..|v'[k]| - |MARKER|] == part;
      RereadFull(step, v, s, k);
      ReadBack(step, v, v', s, k + 1);
    } else {
      ReadLast(step, v, v', s, k);
    }
  }

  // Whatever the keyring held, reading after a store gives: the text, if its tail is neither empty nor
  // ends in the marker; otherwise the text, short of that marker, run together with whatever older
  // entry follows, if there is one.
  lemma StoreThenRead(step: nat, v: Vault, s: Text)
    requires step > 0 && Sliceable(step, s)
    ensures StoreFrom(step, {}, v, s, 0).0 == Stored
    ensures ReadFrom(StoreFrom(step, {}, v, s, 0).1, {}, 0) == Reread(step, v, s, 0)
  {
    StoreHolds(step, v, s, 0);
    var v' := StoreFrom(step, {}, v, s, 0).1;
    ReadBack(step, v, v', s, 0);
  }

  ghost predicate RoundTrips(step: nat, v: Vault, s: Text)
    requires step > 0
  {
    ReadFrom(StoreFrom(step, {}, v, s, 0).1, {}, 0) == Found(s)
  }

  // A stored text comes back from every keyring exactly when its length is not a multiple of the step
  // and its last part does not look continued. Otherwise a fresh keyring gives nothing back.
  lemma RoundTripIff(step: nat, s: Text)
    requires step > 0 && Sliceable(step, s)
    ensures (forall v :: RoundTrips(step, v, s)) <==> |s| % step != 0 && !Continued(Tail(step, s))
    ensures !(|s| % step != 0 && !Continued(Tail(step, s))) ==>
              ReadFrom(StoreFrom(step, {}, map[], s, 0).1, {}, 0) == NoEntry
  {
    assert s[0 * step..] == s;
    TailFollows(step, s, 0);
    forall v ensures ReadFrom(StoreFrom(step, {}, v, s, 0).1, {}, 0) == Reread(step, v, s, 0) {
      StoreThenRead(step, v, s);
    }
    assert !(|s| % step != 0 && !Continued(Tail(step, s))) ==> !RoundTrips(step, map[], s);
  }

  // A store that is cut inside a character panics, and only then.
  lemma {:induction false} StorePanicsIff(step: nat, v: Vault, s: Text, k: nat)
    requires step > 0 && k * step <= |s| && !BadCut(step, s, k)
    ensures StoreFrom(step, {}, v, s, k).0 == Panicked <==> exists j: nat :: k <= j && BadCut(step, s, j)
    decreases |s| - k * step
  {
    NextPart(step, k, k + 1);
    if k * step + step > |s| {
      forall j: nat | k <= j ensures !BadCut(step, s, j) {
        if k < j { NextPart(step, k, j); }
      }
      assert k * step < |s| ==> StoreFrom(step, {}, v[k := Part(step, s, k)], s, k + 1).0 == Stored;
    } else if BadCut(step, s, k + 1) {
      assert StoreFrom(step, {}, v, s, k).0 == Panicked;
    } else {
      StorePanicsIff(step, v[k := Part(step, s, k)], s, k + 1);
      forall j: nat | k <= j && BadCut(step, s, j) ensures k + 1 <= j {
      }
    }
  }

  ghost predicate Fits(v: Vault, limit: nat) {
    forall j :: j in v ==> |v[j]| <= limit
  }

  // No entry is longer than the limit.
  lemma {:induction false} EntriesFit(step: nat, refused: set<nat>, v: Vault, s: Text, k: nat)
    requires step > 0 && Fits(v, step + |MARKER|)
    ensures Fits(StoreFrom(step, refused, v, s, k).1, step + |MARKER|)
    decreases |s| - k * step
  {
    if k * step < |s| {
      NextPart(step, k, k + 1);
      assert |Part(step, s, k)| <= step + |MARKER|;
      EntriesFit(step, refused, v[k := Part(step, s, k)], s, k + 1);
    }
  }

  // ----- Characters -----

  // One character: a byte that does not continue another, and the bytes that continue it.
  predicate Character(c: Text) {
    c != [] && forall i :: 0 <= i < |c| ==> (0x80 <= c[i] < 0xc0 <==> i > 0)
  }

  ghost predicate StartsAt(chars: seq<Text>, i: nat) {
    exists k :: 0 <= k <= |chars| && |Flatten(chars[..k])| == i
  }

  lemma StartsBehind(chars: seq<Text>, i: nat)
    requires chars != [] && chars[0] != []
    ensures StartsAt(chars, i) <==> i == 0 || (i >= |chars[0]| && StartsAt(chars[1..], i - |chars[0]|))
  {
    if k :| 0 <= k <= |chars| && |Flatten(chars[..k])| == i {
      if k > 0 {
        assert chars[..k][1..] == chars[1..][..k - 1];
      }
    }
    assert chars[..0] == [] && Flatten(chars[..0]) == [];
    if i >= |chars[0]| && StartsAt(chars[1..], i - |chars[0]|) {
      var k :| 0 <= k <= |chars[1..]| && |Flatten(chars[1..][..k])| == i - |chars[0]|;
      assert chars[..k + 1][1..] == chars[1..][..k];
      assert |Flatten(chars[..k + 1])| == i;
    }
  }

  // In a text of characters the boundaries are where a character starts, and the end.
  lemma {:induction false} BoundaryIff(chars: seq<Text>, i: nat)
    requires (forall c :: c in chars ==> Character(c)) && i <= |Flatten(chars)|
    ensures CharBoundary(Flatten(chars), i) <==> StartsAt(chars, i)
    decreases |chars|
  {
    if chars == [] {
      assert chars[..0] == [];
    } else {
      var c, rest := chars[0], Flatten(chars[1..]);
      assert c in chars && Character(c);
      StartsBehind(chars, i);
      if i >= |c| {
        BoundaryIff(chars[1..], i - |c|);
        assert i < |c + rest| ==> (c + rest)[i] == rest[i - |c|];
      } else {
        assert (c + rest)[i] == c[i];
      }
    }
  }

  // ----- Entries that cannot be written or read -----

  // Part j is written.
  ghost predicate Writable(step: nat, refused: set<nat>, s: Text, j: nat) {
    j * step < |s| && !BadCut(step, s, j) && !BadCut(step, s, j + 1) && j !in refused
  }

  predicate HasPart(step: nat, s: Text, v: Vault, j: nat) {
    j in v && j * step <= |s| && v[j] == Part(step, s, j)
  }

  // A store writes the parts before the m-th, the first that is cut inside a character or refused, and
  // nothing else, and says which of the two it was.
  lemma {:induction false} StoreStops(step: nat, refused: set<nat>, v: Vault, s: Text, k: nat, m: nat)
    requires step > 0 && k <= m && !Writable(step, refused, s, m)
    requires forall j: nat :: k <= j < m ==> Writable(step, refused, s, j)
    ensures var (r, v') := StoreFrom(step, refused, v, s, k);
            && r == (if |s| <= m * step then Stored
                     else if BadCut(step, s, m) || BadCut(step, s, m + 1) then Panicked
                     else Refused)
            && (forall j: nat :: k <= j < m ==> HasPart(step, s, v', j))
            && (forall j: nat :: j < k || m <= j ==> SameEntry(v, v', j))
    decreases m - k
  {
    NextPart(step, k, k + 1);
    if k < m {
      assert Writable(step, refused, s, k);
      var v1 := v[k := Part(step, s, k)];
      StoreStops(step, refused, v1, s, k + 1, m);
      var v' := StoreFrom(step, refused, v1, s, k + 1).1;
      assert StoreFrom(step, refused, v, s, k).1 == v';
      assert SameEntry(v1, v', k) && HasPart(step, s, v1, k);
      forall j: nat | j < k || m <= j ensures SameEntry(v, v', j) {
        assert SameEntry(v1, v', j);
      }
    }
  }

  // The texts of the entries from k to m without their markers.
  ghost function Heads(v: Vault, k: nat, m: nat): Text
    requires k <= m && forall j: nat :: k <= j < m ==> j in v && Continued(v[j])
    decreases m - k
  {
    if k == m then []
    else
      assert Continued(v[k]);
      v[k][..|v[k]| - |MARKER|] + Heads(v, k + 1, m)
  }

  // Reading goes up to the m-th entry, the first that cannot be read, is missing or is not continued, and
  // gives a text only in the last case.
  lemma {:induction false} ReadStops(v: Vault, broken: set<nat>, k: nat, m: nat)
    requires k <= m && forall j: nat :: k <= j < m ==> j !in broken && j in v && Continued(v[j])
    requires m in broken || m !in v || !Continued(v[m])
    ensures StopAt(v, broken, k) == m
    ensures ReadFrom(v, broken, k) ==
              if m in broken then Broken else if m !in v then NoEntry else Found(Heads(v, k, m) + v[m])
    decreases m - k
  {
    if k < m {
      FewerEntries(v, k);
      ReadStops(v, broken, k + 1, m);
      if m !in broken && m in v {
        Regroup(v[k][..|v[k]| - |MARKER|], Heads(v, k + 1, m), v[m]);
      }
    } else if m in v {
      assert [] + v[m] == v[m];
    }
  }
}
