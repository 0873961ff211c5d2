/**
 * From the lines found for a domain to the verdict: which reader a line gets, and what the verdict on
 * well-formed lines is in terms of the lines alone.
 */
module DomainVerify {
  import opened Common
  import opened DomainRecords
  import opened DomainParsers
  import opened DomainLines
  import opened DomainVerdict

  // ----- What a well-formed line says -----

  lemma NetworkMeans(expected: string, network: Option<string>)
    ensures MatchesNetwork(expected, network) <==>
              SameText(if network.Some? then network.value else "mainnet", expected)
  {
    var v := if network.Some? then network.value else "mainnet";
    SameTextIff(v, expected);
    LowerIsLower(expected);
    assert ToLowerAscii("mainnet") == "mainnet";
  }

  lemma LowerIsLower(s: string)
    ensures ToLowerAscii(ToLowerAscii(s)) == ToLowerAscii(s)
  {
  }

  // The line gives the address asked for.
  ghost predicate LineNames(i: Input, line: string) {
    exists t :: t in SplitWhitespace(line) && IsAddressKey(Key(t)) && SameText(Val(t), Trim(i.address))
  }

  ghost predicate LineTagged(i: Input, line: string) {
    i.addressTag.Some? ==> exists t :: t in SplitWhitespace(line) && Key(t) == TagText(i.addressTag.value)
  }

  // A line without a network is about the main network.
  ghost predicate LineOnNetwork(i: Input, line: string) {
    var ts := SplitWhitespace(line);
    if NoneOf(ts, HasKey("network")) then SameText("mainnet", i.network)
    else exists t :: t in ts && Key(t) == "network" && SameText(Val(t), i.network)
  }

  ghost predicate LineEligible(i: Input, line: string) {
    LineNames(i, line) && LineTagged(i, line) && LineOnNetwork(i, line)
  }

  ghost predicate LineSaysNo(line: string) {
    exists t :: t in SplitWhitespace(line)
                && ((Key(t) == "deny" && IsWord(Val(t), YES_WORDS)) || (Key(t) == "allow" && IsWord(Val(t), NO_WORDS)))
  }

  ghost predicate LineDenies(i: Input, line: string) {
    LineEligible(i, line) && LineSaysNo(line)
  }

  ghost predicate LineAllows(i: Input, line: string) {
    LineEligible(i, line) && !LineSaysNo(line)
  }

  lemma PlainValue(t: string)
    requires WellFormedToken(t)
    ensures Value(t) == Val(t) && !DenyAllToken(t)
  {
    var v := Val(t);
    assert v[0..|v|] == v && StrippedTo(v, Is('"'), 0, |v|);
    StrippedOnce(v, Is('"'), v, Value(t));
    SameTextIff(v, "denyall");
  }

  lemma OnlyOneOf(ts: seq<string>, k: nat)
    requires GoodTokens(ts) && k < |ts|
    ensures Key(ts[k]) in ["allow", "deny", "network"] ==> LastOf(ts, k, HasKey(Key(ts[k])))
    ensures IsAddressKey(Key(ts[k])) ==> LastOf(ts, k, GivesAddress)
  {
    PlainValue(ts[k]);
  }

  ghost predicate Sound(line: string) {
    WellFormed(line) && GoodTokens(SplitWhitespace(line))
  }

  lemma WellFormedIsSound(line: string)
    requires WellFormed(line)
    ensures Sound(line)
  {
    TokensHaveNoWs(line);
  }

  lemma WellFormedIsRead(source: Source, line: string)
    requires Sound(line)
    ensures StrictSpec(source, line).Some? && !StrictSpec(source, line).value.denyAll
  {
    StrictReadsIff(source, line);
    StrictReadsWhole(source, line);
    forall t | t in SplitWhitespace(line) ensures !DenyAllToken(t) { PlainValue(t); }
  }

  lemma DenyMeans(source: Source, line: string, t: string)
    requires Sound(line) && StrictSpec(source, line).Some? && t in SplitWhitespace(line) && Key(t) == "deny"
    ensures StrictSpec(source, line).value.deny == Some(true) <==> IsWord(Val(t), YES_WORDS)
  {
    var ts := SplitWhitespace(line);
    var k :| 0 <= k < |ts| && ts[k] == t;
    PlainValue(t);
    OnlyOneOf(ts, k);
    StrictReadsDeny(source, line, k);
  }

  lemma AllowMeans(source: Source, line: string, t: string)
    requires Sound(line) && StrictSpec(source, line).Some? && t in SplitWhitespace(line) && Key(t) == "allow"
    ensures StrictSpec(source, line).value.allow == Some(false) <==> IsWord(Val(t), NO_WORDS)
  {
    var ts := SplitWhitespace(line);
    var k :| 0 <= k < |ts| && ts[k] == t;
    PlainValue(t);
    OnlyOneOf(ts, k);
    StrictReadsAllow(source, line, k);
  }

  lemma SaysNoIff(source: Source, line: string)
    requires Sound(line) && StrictSpec(source, line).Some?
    ensures var r := StrictSpec(source, line).value;
            r.deny == Some(true) || r.allow == Some(false) <==> LineSaysNo(line)
  {
    var ts, r := SplitWhitespace(line), StrictSpec(source, line).value;
    forall t | t in ts && Key(t) == "deny" ensures r.deny == Some(true) <==> IsWord(Val(t), YES_WORDS) {
      DenyMeans(source, line, t);
    }
    forall t | t in ts && Key(t) == "allow" ensures r.allow == Some(false) <==> IsWord(Val(t), NO_WORDS) {
      AllowMeans(source, line, t);
    }
    StrictReadsDeny(source, line, 0);
    StrictReadsAllow(source, line, 0);
    assert r.deny == Some(true) ==> !NoneOf(ts, HasKey("deny"));
    assert r.allow == Some(false) ==> !NoneOf(ts, HasKey("allow"));
  }

  lemma OnNetworkIff(i: Input, source: Source, line: string)
    requires Sound(line) && StrictSpec(source, line).Some?
    ensures MatchesNetwork(i.network, StrictSpec(source, line).value.network) <==> LineOnNetwork(i, line)
  {
    var ts, r := SplitWhitespace(line), StrictSpec(source, line).value;
    NetworkMeans(i.network, r.network);
    StrictReadsNetwork(source, line, 0);
    forall t | t in ts && Key(t) == "network" ensures r.network == Some(Val(t)) {
      var k :| 0 <= k < |ts| && ts[k] == t;
      PlainValue(t);
      OnlyOneOf(ts, k);
      StrictReadsNetwork(source, line, k);
    }
  }

  // The one token that gives the address.
  lemma AddressIs(source: Source, line: string) returns (a: string)
    requires Sound(line) && StrictSpec(source, line).Some?
    ensures a in SplitWhitespace(line) && IsAddressKey(Key(a))
    ensures forall t :: t in SplitWhitespace(line) && IsAddressKey(Key(t)) ==> t == a
    ensures var r := StrictSpec(source, line).value; r.address == Some(Val(a)) && Tagged(r, Key(a))
  {
    var ts := SplitWhitespace(line);
    UniqueAddress(ts);
    a :| a in ts && IsAddressKey(Key(a));
    var k :| 0 <= k < |ts| && ts[k] == a;
    PlainValue(a);
    OnlyOneOf(ts, k);
    StrictReadsAddress(source, line, k);
  }

  lemma TagTexts(a: AddressTag, b: AddressTag)
    ensures TagText(a) == TagText(b) <==> a == b
    ensures IsAddressKey(TagText(a))
  {
    TagIsKnown(a);
    TagIsKnown(b);
  }

  lemma NamesIff(i: Input, source: Source, line: string)
    requires Sound(line) && StrictSpec(source, line).Some?
    ensures var r := StrictSpec(source, line).value;
            && r.address.Some? && (NamesAddress(i, r) <==> LineNames(i, line))
            && ((i.addressTag.Some? ==> r.addressTag == i.addressTag) <==> LineTagged(i, line))
  {
    var a := AddressIs(source, line);
    SameTextIff(Val(a), Trim(i.address));
    if i.addressTag.Some? {
      TagTexts(i.addressTag.value, StrictSpec(source, line).value.addressTag.value);
    }
  }

  // r is what one of the readers makes of the line.
  ghost predicate ReadAs(line: string, r: Record) {
    StrictSpec(r.source, line) == Some(r) || ParseRecordCompat(r.source, line) == r
  }

  ghost predicate Agree(i: Input, line: string, r: Record) {
    && !r.denyAll && (NamesAddress(i, r) <==> LineNames(i, line))
    && (Denies(i, r) <==> LineDenies(i, line)) && (Allows(i, r) <==> LineAllows(i, line))
  }

  // Whichever reader it is, a well-formed line denies the input it is eligible for if its `deny` is a yes
  // word or its `allow` a no word, and allows it otherwise.
  lemma LineDecides(i: Input, line: string, r: Record)
    requires WellFormed(line) && ReadAs(line, r)
    ensures Agree(i, line, r)
  {
    ReadersAgree(r.source, line);
    WellFormedIsSound(line);
    WellFormedIsRead(r.source, line);
    NamesIff(i, r.source, line);
    OnNetworkIff(i, r.source, line);
    SaysNoIff(r.source, line);
  }

  // A line without an address counts in minimal mode only, and there by mentioning the address.
  lemma MinimalMention(i: Input, source: Source, line: string)
    requires Unread(line, "solana-address")
    requires Unread(line, "solana-program-address") && Unread(line, "solana-mint-address")
    ensures var r := ParseRecordCompat(source, line);
            && !Denies(i, r)
            && (Allows(i, r) <==> i.mode == Minimal && i.validKey && Occurs(line, Trim(i.address)))
  {
    var r := ParseRecordCompat(source, line);
    if r.address.Some? { CompatReadsAddress(source, line, r.address.value); }
    OccursIff(line, Trim(i.address));
  }

  // ----- From the lines to the verdict -----

  // What the lines say about the input.
  ghost predicate Verdicts(v: Verdict, i: Input, lines: seq<string>) {
    && (v.denied <==> exists line :: line in lines && LineDenies(i, line))
    && (v.matched <==> exists line :: line in lines && LineAllows(i, line))
    && v.reason == (if v.denied then DeniedByRecord else if v.matched then AssociationMatched
                    else if exists line :: line in lines && LineNames(i, line) then NoEligibleRecord
                    else NoMatchingRecord)
  }

  ghost predicate AllReadAs(lines: seq<string>, records: seq<Record>) {
    |records| == |lines| && forall k :: 0 <= k < |lines| ==> ReadAs(lines[k], records[k])
  }

  lemma SomeRecord(lines: seq<string>, records: seq<Record>, p: Record -> bool, q: string -> bool)
    requires |records| == |lines| && forall k :: 0 <= k < |lines| ==> (p(records[k]) <==> q(lines[k]))
    ensures (exists r :: r in SetOf(records) && p(r)) <==> exists line :: line in lines && q(line)
  {
    if line :| line in lines && q(line) {
      var k :| 0 <= k < |lines| && lines[k] == line;
      assert records[k] in SetOf(records);
    }
  }

  lemma SomeDenies(i: Input, lines: seq<string>, records: seq<Record>)
    requires |records| == |lines|
    requires forall k :: 0 <= k < |lines| ==> (Denies(i, records[k]) <==> LineDenies(i, lines[k]))
    ensures (exists r :: r in SetOf(records) && Denies(i, r)) <==> exists line :: line in lines && LineDenies(i, line)
  {
    SomeRecord(lines, records, r => Denies(i, r), line => LineDenies(i, line));
  }

  lemma SomeAllows(i: Input, lines: seq<string>, records: seq<Record>)
    requires |records| == |lines|
    requires forall k :: 0 <= k < |lines| ==> (Allows(i, records[k]) <==> LineAllows(i, lines[k]))
    ensures (exists r :: r in SetOf(records) && Allows(i, r)) <==> exists line :: line in lines && LineAllows(i, line)
  {
    SomeRecord(lines, records, r => Allows(i, r), line => LineAllows(i, line));
  }

  lemma SomeNames(i: Input, lines: seq<string>, records: seq<Record>)
    requires |records| == |lines|
    requires forall k :: 0 <= k < |lines| ==> (NamesAddress(i, records[k]) <==> LineNames(i, lines[k]))
    ensures (exists r :: r in SetOf(records) && NamesAddress(i, r)) <==>
              exists line :: line in lines && LineNames(i, line)
  {
    SomeRecord(lines, records, r => NamesAddress(i, r), line => LineNames(i, line));
  }

  lemma JudgedWithoutDenyAll(v: Verdict, i: Input, records: seq<Record>)
    requires Judges(v, i, records) && forall r :: r in SetOf(records) ==> !r.denyAll
    ensures v.denied <==> exists r :: r in SetOf(records) && Denies(i, r)
    ensures v.matched <==> exists r :: r in SetOf(records) && Allows(i, r)
    ensures v.reason == if v.denied then DeniedByRecord else if v.matched then AssociationMatched
                        else if exists r :: r in SetOf(records) && NamesAddress(i, r) then NoEligibleRecord
                        else NoMatchingRecord
  {
  }

  lemma LinesAgree(i: Input, lines: seq<string>, records: seq<Record>)
    requires AllReadAs(lines, records) && forall line :: line in lines ==> WellFormed(line)
    ensures forall k :: 0 <= k < |lines| ==> Agree(i, lines[k], records[k])
  {
    forall k | 0 <= k < |lines| ensures Agree(i, lines[k], records[k]) {
      LineDecides(i, lines[k], records[k]);
    }
  }

  // The verdict on well-formed lines follows from the lines alone.
  lemma LinesDecide(i: Input, lines: seq<string>, records: seq<Record>, v: Verdict)
    requires AllReadAs(lines, records) && (forall line :: line in lines ==> WellFormed(line)) && Judges(v, i, records)
    ensures Verdicts(v, i, lines)
  {
    LinesAgree(i, lines, records);
    assert forall r :: r in SetOf(records) ==> !r.denyAll;
    JudgedWithoutDenyAll(v, i, records);
    SomeDenies(i, lines, records);
    SomeAllows(i, lines, records);
    SomeNames(i, lines, records);
  }

  // The strict reader first; what it refuses is left out in strict mode and else left to the compat reader.
  function Reading(mode: Mode, source: Source, line: string): Option<Record> {
    var strict := StrictSpec(source, line);
    if strict.Some? || mode == Strict then strict else Some(ParseRecordCompat(source, line))
  }

  function ReadAll(reader: string -> Option<Record>, lines: seq<string>): seq<Record> {
    if lines == [] then []
    else
      var init, last := ReadAll(reader, lines[..|lines| - 1]), reader(lines[|lines| - 1]);
      if last.Some? then init + [last.value] else init
  }

  function Readings(mode: Mode, source: Source, lines: seq<string>): seq<Record> {
    ReadAll(line => Reading(mode, source, line), lines)
  }

  method ReadLines(mode: Mode, source: Source, lines: seq<string>) returns (records: seq<Record>)
    ensures records == Readings(mode, source, lines)
  {
    records := [];
    for k := 0 to |lines|
      invariant records == Readings(mode, source, lines[..k])
    {
      assert lines[..k + 1][..k] == lines[..k];
      var parsed := ParseRecordStrict(source, lines[k]);
      if parsed.Some? {
        records := records + [parsed.value];
      } else if mode != Strict {
        records := records + [ParseRecordCompat(source, lines[k])];
      }
    }
    assert lines[..|lines|] == lines;
  }

  lemma WellFormedReading(mode: Mode, source: Source, line: string)
    requires WellFormed(line)
    ensures var r := Reading(mode, source, line); r.Some? && r.value.source == source && ReadAs(line, r.value)
  {
    ReadersAgree(source, line);
  }

  lemma {:induction false} EachIsRead(
      reader: string -> Option<Record>, lines: seq<string>, p: (string, Record) -> bool)
    requires forall line :: line in lines ==> reader(line).Some? && p(line, reader(line).value)
    ensures var rs := ReadAll(reader, lines);
            |rs| == |lines| && forall k :: 0 <= k < |lines| ==> p(lines[k], rs[k])
  {
    if lines != [] {
      EachIsRead(reader, lines[..|lines| - 1], p);
      assert lines[|lines| - 1] in lines;
    }
  }

  lemma WellFormedReadings(mode: Mode, source: Source, lines: seq<string>)
    requires forall line :: line in lines ==> WellFormed(line)
    ensures AllReadAs(lines, Readings(mode, source, lines))
  {
    forall line | line in lines
      ensures Reading(mode, source, line).Some? && ReadAs(line, Reading(mode, source, line).value)
    {
      WellFormedReading(mode, source, line);
    }
    EachIsRead(line => Reading(mode, source, line), lines, ReadAs);
  }

  lemma {:induction false} ReadAllAppend(reader: string -> Option<Record>, a: seq<string>, b: seq<string>)
    ensures ReadAll(reader, a + b) == ReadAll(reader, a) + ReadAll(reader, b)
    decreases |b|
  {
    if b == [] {
      assert a + b == a;
    } else {
      var init := b[..|b| - 1];
      assert (a + b)[..|a + b| - 1] == a + init;
      ReadAllAppend(reader, a, init);
    }
  }

  // A line the strict reader takes counts as that in every mode. One it refuses counts for nothing in
  // strict mode, and in the others as what the compat reader makes of it.
  lemma OneLineCounts(mode: Mode, source: Source, a: seq<string>, line: string, b: seq<string>)
    ensures var strict := StrictSpec(source, line);
            Readings(mode, source, a + [line] + b) ==
              Readings(mode, source, a)
              + (if strict.Some? then [strict.value]
                 else if mode == Strict then [] else [ParseRecordCompat(source, line)])
              + Readings(mode, source, b)
  {
    var reader := (l: string) => Reading(mode, source, l);
    ReadAllAppend(reader, a + [line], b);
    ReadAllAppend(reader, a, [line]);
    assert [line][..0] == [];
    OneLine(reader, line);
  }

  lemma OneLine(reader: string -> Option<Record>, line: string)
    ensures ReadAll(reader, [line]) == if reader(line).Some? then [reader(line).value] else []
  {
    assert [line][..0] == [] && ReadAll(reader, []) == [];
  }

  // The verification of a domain, once its two lists of lines are fetched.
  method Verify(txt: seq<string>, wellKnown: seq<string>, i: Input) returns (v: Verdict)
    ensures Judges(v, i, Readings(i.mode, DnsTxt, txt) + Readings(i.mode, WellKnown, wellKnown))
  {
    var records := ReadLines(i.mode, DnsTxt, txt);
    var more := ReadLines(i.mode, WellKnown, wellKnown);
    v := Evaluate(records + more, i);
  }

  lemma AppendReadAs(lines: seq<string>, records: seq<Record>, lines': seq<string>, records': seq<Record>)
    requires AllReadAs(lines, records) && AllReadAs(lines', records')
    ensures AllReadAs(lines + lines', records + records')
  {
    var all, rs := lines + lines', records + records';
    forall k | 0 <= k < |all| ensures ReadAs(all[k], rs[k]) {
      if k < |lines| {
        assert ReadAs(lines[k], records[k]);
      } else {
        assert ReadAs(lines'[k - |lines|], records'[k - |lines|]);
      }
    }
  }

  // On well-formed lines, in every mode, the verdict of `Verify` is what the lines say.
  lemma VerifyDecides(txt: seq<string>, wellKnown: seq<string>, i: Input, v: Verdict)
    requires Judges(v, i, Readings(i.mode, DnsTxt, txt) + Readings(i.mode, WellKnown, wellKnown))
    requires forall line :: line in txt + wellKnown ==> WellFormed(line)
    ensures Verdicts(v, i, txt + wellKnown)
  {
    forall line | line in txt || line in wellKnown ensures WellFormed(line) {
      assert line in txt + wellKnown;
    }
    WellFormedReadings(i.mode, DnsTxt, txt);
    WellFormedReadings(i.mode, WellKnown, wellKnown);
    AppendReadAs(txt, Readings(i.mode, DnsTxt, txt), wellKnown, Readings(i.mode, WellKnown, wellKnown));
    LinesDecide(i, txt + wellKnown, Readings(i.mode, DnsTxt, txt) + Readings(i.mode, WellKnown, wellKnown), v);
  }
}
