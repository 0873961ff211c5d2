/** `evaluate`: the verdict over all records found for a domain. */
module DomainVerdict {
  import opened Common
  import opened DomainRecords

  datatype Mode = Strict | Compat | Minimal

  // `validKey` is whether the address decodes to a 32-byte key.
  datatype Input = Input(address: string, validKey: bool, mode: Mode, network: string, addressTag: Option<AddressTag>)

  datatype Reason = DeniedByRecord | AssociationMatched | NoEligibleRecord | NoMatchingRecord

  datatype Verdict = Verdict(
    matched: bool, denied: bool, reason: Reason, sources: seq<Source>, warned: bool, recordsConsidered: nat)

  function MatchesNetwork(expected: string, network: Option<string>): bool {
    match network
    case None => ToLowerAscii(expected) == "mainnet"
    case Some(v) => EqIgnoreAsciiCase(v, ToLowerAscii(expected))
  }

  // ----- What one record says about the input -----

  predicate NamesAddress(i: Input, r: Record) {
    r.address.Some? && EqIgnoreAsciiCase(r.address.value, Trim(i.address))
  }

  predicate Eligible(i: Input, r: Record) {
    NamesAddress(i, r) && (i.addressTag.Some? ==> r.addressTag == i.addressTag) && MatchesNetwork(i.network, r.network)
  }

  predicate Denies(i: Input, r: Record) {
    Eligible(i, r) && (r.deny == Some(true) || r.allow == Some(false))
  }

  // An eligible record that does not deny, or in minimal mode a record without an address whose text
  // mentions it.
  predicate Allows(i: Input, r: Record) {
    if r.address.Some? then Eligible(i, r) && !Denies(i, r)
    else i.mode == Minimal && i.validKey && Contains(r.raw, Trim(i.address))
  }

  // ----- What all records say, as a set -----

  ghost predicate Matched(i: Input, rs: set<Record>) {
    (forall r :: r in rs ==> !r.denyAll) && exists r :: r in rs && Allows(i, r)
  }

  ghost predicate Denied(i: Input, rs: set<Record>) {
    exists r :: r in rs && (r.denyAll || Denies(i, r))
  }

  ghost function ReasonFor(i: Input, rs: set<Record>): Reason {
    if Denied(i, rs) then DeniedByRecord
    else if Matched(i, rs) then AssociationMatched
    else if exists r :: r in rs && NamesAddress(i, r) then NoEligibleRecord
    else NoMatchingRecord
  }

  ghost function SetOf(records: seq<Record>): set<Record> {
    set r | r in records
  }

  ghost predicate Judges(v: Verdict, i: Input, records: seq<Record>) {
    && (v.matched <==> Matched(i, SetOf(records)))
    && (v.denied <==> Denied(i, SetOf(records)))
    && v.reason == ReasonFor(i, SetOf(records))
    && NoDuplicates(v.sources) && (forall s :: s in v.sources <==> exists r :: r in records && r.source == s)
    && (v.warned <==> records == [])
    && v.recordsConsidered == |records|
  }

  // What some record among the first ones says.
  datatype Flags = Flags(denyAll: bool, denied: bool, matched: bool, named: bool)

  ghost function FlagsOf(i: Input, records: seq<Record>): Flags {
    if records == [] then Flags(false, false, false, false)
    else
      var f, r := FlagsOf(i, records[..|records| - 1]), records[|records| - 1];
      Flags(f.denyAll || r.denyAll, f.denied || Denies(i, r), f.matched || Allows(i, r), f.named || NamesAddress(i, r))
  }

  lemma {:induction false} FlagsOfSet(i: Input, records: seq<Record>)
    ensures var f, rs := FlagsOf(i, records), SetOf(records);
            && (f.denyAll <==> exists r :: r in rs && r.denyAll)
            && (f.denied <==> exists r :: r in rs && Denies(i, r))
            && (f.matched <==> exists r :: r in rs && Allows(i, r))
            && (f.named <==> exists r :: r in rs && NamesAddress(i, r))
  {
    if records != [] {
      var init, last := records[..|records| - 1], records[|records| - 1];
      FlagsOfSet(i, init);
      assert records == init + [last];
      assert SetOf(records) == SetOf(init) + {last};
    }
  }

  // ----- The code -----

  // The flags the loop keeps say nothing about the order or number of the records: the verdict depends
  // on the set of records alone.
  method Evaluate(records: seq<Record>, i: Input) returns (v: Verdict)
    ensures Judges(v, i, records)
  {
    var sources := Sources(records);
    var matched, denied, sawAddressMatch, sawDenyall := false, false, false, false;
    for k := 0 to |records|
      invariant Flags(sawDenyall, denied, matched, sawAddressMatch) == FlagsOf(i, records[..k])
    {
      assert records[..k + 1][..k] == records[..k];
      var record := records[k];
      if record.denyAll {
        sawDenyall := true;
      }
      if record.address.None? {
        if i.mode == Minimal && i.validKey && Contains(record.raw, Trim(i.address)) {
          matched := true;
        }
        continue;
      }
      if !EqIgnoreAsciiCase(record.address.value, Trim(i.address)) {
        continue;
      }
      sawAddressMatch := true;
      if i.addressTag.Some? && record.addressTag != i.addressTag {
        continue;
      }
      if !MatchesNetwork(i.network, record.network) {
        continue;
      }
      if record.deny == Some(true) || record.allow == Some(false) {
        denied := true;
      } else {
        matched := true;
      }
    }
    assert records[..|records|] == records;
    FlagsOfSet(i, records);
    if sawDenyall {
      denied, matched := true, false;
    }
    var reason := if denied then DeniedByRecord else if matched then AssociationMatched
                  else if sawAddressMatch then NoEligibleRecord else NoMatchingRecord;
    v := Verdict(matched, denied, reason, sources, records == [], |records|);
  }

  method Sources(records: seq<Record>) returns (sources: seq<Source>)
    ensures NoDuplicates(sources) && forall s :: s in sources <==> exists r :: r in records && r.source == s
  {
    sources := [];
    for k := 0 to |records|
      invariant NoDuplicates(sources) && forall s :: s in sources <==> exists r :: r in records[..k] && r.source == s
    {
      assert records[..k + 1] == records[..k] + [records[k]];
      if records[k].source !in sources {
        sources := sources + [records[k].source];
      }
    }
    assert records[..|records|] == records;
  }

  // ----- Consequences -----

  lemma SameMembers(a: seq<Record>, b: seq<Record>)
    requires multiset(a) == multiset(b)
    ensures forall r :: r in a <==> r in b
  {
    forall r ensures r in a <==> r in b {
      assert r in multiset(a) <==> r in multiset(b);
    }
  }

  // A deny-all record denies and unmatches; more records never lift a denial.
  lemma DenyAllWins(i: Input, rs: set<Record>, more: set<Record>)
    requires exists r :: r in rs && r.denyAll
    ensures Denied(i, rs + more) && !Matched(i, rs + more) && ReasonFor(i, rs + more) == DeniedByRecord
  {
    var r :| r in rs && r.denyAll;
    assert r in rs + more;
  }

  lemma DenialStays(i: Input, rs: set<Record>, more: set<Record>)
    requires Denied(i, rs)
    ensures Denied(i, rs + more)
  {
    var r :| r in rs && (r.denyAll || Denies(i, r));
    assert r in rs + more;
  }

  // A match is lost by adding records exactly when one of them denies all.
  lemma MatchStaysIff(i: Input, rs: set<Record>, more: set<Record>)
    requires Matched(i, rs)
    ensures Matched(i, rs + more) <==> forall r :: r in more ==> !r.denyAll
  {
    var r :| r in rs && Allows(i, r);
    assert r in rs + more;
    forall d | d in more && d.denyAll ensures !Matched(i, rs + more) {
      assert d in rs + more;
    }
  }

  // Two verdicts of the same input: on some records, and on any permutation of those and more. Without
  // more records they agree; a denial stays; a record that denies all decides; and a match is lost
  // exactly if one of the additional records denies all.
  lemma VerdictsCompare(i: Input, records: seq<Record>, more: seq<Record>, all: seq<Record>, v: Verdict, w: Verdict)
    requires Judges(v, i, records) && Judges(w, i, all) && multiset(all) == multiset(records + more)
    ensures more == [] ==> w == v.(sources := w.sources) && forall s :: s in w.sources <==> s in v.sources
    ensures v.denied ==> w.denied
    ensures (exists r :: r in records && r.denyAll) ==> w.denied && !w.matched && w.reason == DeniedByRecord
    ensures v.matched ==> (w.matched <==> forall r :: r in more ==> !r.denyAll)
  {
    var rs, extra := SetOf(records), SetOf(more);
    SameMembers(all, records + more);
    assert SetOf(all) == rs + extra;
    if v.denied { DenialStays(i, rs, extra); }
    if r :| r in records && r.denyAll {
      assert r in rs;
      DenyAllWins(i, rs, extra);
    }
    if v.matched { MatchStaysIff(i, rs, extra); }
    if more == [] {
      assert rs + extra == rs && records + more == records;
      assert |all| == |multiset(all)| == |multiset(records)| == |records|;
    }
  }
}
