/**
 * What a record line says, read off its tokens: which words mean yes and no, which letters are the same
 * ignoring case, and what is stripped from a value. Both readers are stated in these terms, on any line.
 */
module DomainLines {
  import opened Common
  import opened DomainRecords
  import opened DomainParsers

  // ----- Text -----

  const UPPER: string := "ABCDEFGHIJKLMNOPQRSTUVWXYZ"
  const LOWER: string := "abcdefghijklmnopqrstuvwxyz"

  predicate SameLetter(a: char, b: char) {
    a == b || exists k :: 0 <= k < 26 && ((a == UPPER[k] && b == LOWER[k]) || (a == LOWER[k] && b == UPPER[k]))
  }

  predicate SameText(a: string, b: string) {
    |a| == |b| && forall i :: 0 <= i < |a| ==> SameLetter(a[i], b[i])
  }

  lemma Letters(k: nat)
    requires k < 26
    ensures UPPER[k] as int == 'A' as int + k && LOWER[k] as int == 'a' as int + k
  {
  }

  function Lower(c: char): char {
    ToLowerAscii([c])[0]
  }

  lemma SameLetterIff(a: char, b: char)
    ensures SameLetter(a, b) <==> Lower(a) == Lower(b)
  {
    if k :| 0 <= k < 26 && ((a == UPPER[k] && b == LOWER[k]) || (a == LOWER[k] && b == UPPER[k])) {
      Letters(k);
    }
    if Lower(a) == Lower(b) && a != b {
      LettersMeet(a, b);
    }
  }

  lemma LettersMeet(a: char, b: char)
    requires Lower(a) == Lower(b) && a != b
    ensures SameLetter(a, b)
  {
    var k := Lower(a) as int - 'a' as int;
    Letters(k);
    assert (a == UPPER[k] && b == LOWER[k]) || (a == LOWER[k] && b == UPPER[k]);
  }

  lemma SameTextIff(a: string, b: string)
    ensures SameText(a, b) <==> EqIgnoreAsciiCase(a, b)
  {
    if |a| == |b| {
      forall i | 0 <= i < |a| ensures SameLetter(a[i], b[i]) <==> ToLowerAscii(a)[i] == ToLowerAscii(b)[i] {
        SameLetterIff(a[i], b[i]);
        assert Lower(a[i]) == ToLowerAscii(a)[i] && Lower(b[i]) == ToLowerAscii(b)[i];
      }
    }
  }

  const YES_WORDS: set<string> := {"1", "true", "yes", "allow"}
  const NO_WORDS: set<string> := {"0", "false", "no", "deny"}

  ghost predicate IsWord(v: string, words: set<string>) {
    exists w :: w in words && SameText(v, w)
  }

  lemma LowerWords()
    ensures ToLowerAscii("1") == "1" && ToLowerAscii("true") == "true"
    ensures ToLowerAscii("yes") == "yes" && ToLowerAscii("allow") == "allow"
    ensures ToLowerAscii("0") == "0" && ToLowerAscii("false") == "false"
    ensures ToLowerAscii("no") == "no" && ToLowerAscii("deny") == "deny"
  {
  }

  lemma WordsDiffer()
    ensures forall w :: w in YES_WORDS ==> w !in NO_WORDS
  {
    assert |"1"| == |"0"| == 1 && |"no"| == 2 && |"yes"| == 3;
    assert |"true"| == |"deny"| == 4 && |"false"| == |"allow"| == 5;
    assert "1"[0] != "0"[0] && "true"[0] != "deny"[0] && "false"[0] != "allow"[0];
  }

  // A value means yes, no, or nothing.
  lemma WordsMean(v: string)
    ensures ParseBool(v) == Some(true) <==> IsWord(v, YES_WORDS)
    ensures ParseBool(v) == Some(false) <==> IsWord(v, NO_WORDS)
  {
    LowerWords();
    WordsDiffer();
    forall w ensures SameText(v, w) <==> ToLowerAscii(v) == ToLowerAscii(w) {
      SameTextIff(v, w);
    }
    assert forall w :: w in YES_WORDS + NO_WORDS ==> ToLowerAscii(w) == w;
    assert ParseBool(v) == Some(true) <==> ToLowerAscii(v) in YES_WORDS;
    assert ParseBool(v) == Some(false) <==> ToLowerAscii(v) in NO_WORDS;
    if ToLowerAscii(v) in YES_WORDS + NO_WORDS {
      assert SameText(v, ToLowerAscii(v));
    }
  }

  // ----- Stripping -----

  function Is(c: char): char -> bool {
    x => x == c
  }

  // v is s without the characters in p at its two ends.
  ghost predicate Stripped(s: string, p: char -> bool, v: string) {
    exists i, j :: StrippedTo(s, p, i, j) && v == s[i..j]
  }

  ghost predicate StrippedTo(s: string, p: char -> bool, i: int, j: int) {
    0 <= i <= j <= |s| && (forall k :: 0 <= k < i || j <= k < |s| ==> p(s[k])) && (i < j ==> !p(s[i]) && !p(s[j - 1]))
  }

  lemma StrippedOnce(s: string, p: char -> bool, v: string, w: string)
    requires Stripped(s, p, v) && Stripped(s, p, w)
    ensures v == w
  {
    var i, j :| StrippedTo(s, p, i, j) && v == s[i..j];
    var i', j' :| StrippedTo(s, p, i', j') && w == s[i'..j'];
  }

  lemma {:induction false} TrimStartAt(s: string) returns (i: nat)
    ensures i <= |s| && TrimStart(s) == s[i..] && (forall k :: 0 <= k < i ==> Ws(s[k])) && (i < |s| ==> !Ws(s[i]))
  {
    i := 0;
    if s != "" && Ws(s[0]) {
      var h := TrimStartAt(s[1..]);
      i := h + 1;
    }
  }

  lemma {:induction false} TrimEndAt(s: string) returns (j: nat)
    ensures j <= |s| && TrimEnd(s) == s[..j] && (forall k :: j <= k < |s| ==> Ws(s[k])) && (0 < j ==> !Ws(s[j - 1]))
  {
    j := |s|;
    if s != "" && Ws(s[|s| - 1]) {
      j := TrimEndAt(s[..|s| - 1]);
    }
  }

  lemma TrimStrips(s: string)
    ensures Stripped(s, Ws, Trim(s))
  {
    var i := TrimStartAt(s);
    var j := TrimEndAt(s[i..]);
    assert Trim(s) == s[i..i + j];
    assert StrippedTo(s, Ws, i, i + j);
  }

  lemma {:induction false} TrimLeftAt(s: string, c: char) returns (i: nat)
    ensures i <= |s| && TrimLeft(s, c) == s[i..] && (forall k :: 0 <= k < i ==> s[k] == c) && (i < |s| ==> s[i] != c)
  {
    i := 0;
    if s != "" && s[0] == c {
      var h := TrimLeftAt(s[1..], c);
      i := h + 1;
    }
  }

  lemma {:induction false} TrimRightAt(s: string, c: char) returns (j: nat)
    ensures j <= |s| && TrimRight(s, c) == s[..j]
    ensures (forall k :: j <= k < |s| ==> s[k] == c) && (0 < j ==> s[j - 1] != c)
  {
    j := |s|;
    if s != "" && s[|s| - 1] == c {
      j := TrimRightAt(s[..|s| - 1], c);
    }
  }

  lemma TrimMatchesStrips(s: string, c: char)
    ensures Stripped(s, Is(c), TrimMatches(s, c))
  {
    var i := TrimLeftAt(s, c);
    var j := TrimRightAt(s[i..], c);
    assert TrimMatches(s, c) == s[i..i + j];
    assert StrippedTo(s, Is(c), i, i + j);
  }

  // ----- The strict reader on any line -----

  // What the strict reader takes as the value of a token.
  ghost function Value(t: string): (v: string)
    ensures Stripped(Val(t), Is('"'), v)
  {
    TrimMatchesStrips(Val(t), '"');
    var v :| Stripped(Val(t), Is('"'), v);
    v
  }

  ghost predicate DenyAllToken(t: string) {
    Key(t) == "solana-address" && SameText(Value(t), "denyall")
  }

  ghost predicate GivesAddress(t: string) {
    IsAddressKey(Key(t)) && !DenyAllToken(t)
  }

  function HasKey(key: string): string -> bool {
    t => Key(t) == key
  }

  ghost predicate LastOf(ts: seq<string>, k: nat, p: string -> bool) {
    k < |ts| && p(ts[k]) && forall j :: k < j < |ts| ==> !p(ts[j])
  }

  ghost predicate NoneOf(ts: seq<string>, p: string -> bool) {
    forall t :: t in ts ==> !p(t)
  }

  // b is what the value v means.
  ghost predicate Meaning(b: Option<bool>, v: string) {
    (b == Some(true) <==> IsWord(v, YES_WORDS)) && (b == Some(false) <==> IsWord(v, NO_WORDS))
  }

  lemma ReadValue(t: string)
    requires NoWs(t)
    ensures TrimMatches(Trim(Val(t)), '"') == Value(t)
    ensures EqIgnoreAsciiCase(Value(t), "denyall") <==> SameText(Value(t), "denyall")
  {
    assert Trim(Val(t)) == Val(t);
    TrimMatchesStrips(Val(t), '"');
    StrippedOnce(Val(t), Is('"'), TrimMatches(Val(t), '"'), Value(t));
    SameTextIff(Value(t), "denyall");
  }

  predicate Tagged(r: Record, text: string) {
    r.addressTag.Some? && TagText(r.addressTag.value) == text
  }

  lemma ApplyFlags(r: Record, t: string, v: string)
    requires v == TrimMatches(Trim(Val(t)), '"')
    ensures var r' := Apply(r, t);
            && (r'.source, r'.raw) == (r.source, r.raw)
            && r'.allow == (if Key(t) == "allow" then ParseBool(v) else r.allow)
            && r'.deny == (if Key(t) == "deny" then ParseBool(v) else r.deny)
            && r'.network == (if Key(t) == "network" then Some(v) else r.network)
  {
    KeysDiffer();
  }

  lemma ApplyAddress(r: Record, t: string, v: string, d: bool)
    requires v == TrimMatches(Trim(Val(t)), '"') && d == EqIgnoreAsciiCase(v, "denyall")
    ensures var r', gives := Apply(r, t), IsAddressKey(Key(t)) && !(Key(t) == "solana-address" && d);
            && (r'.denyAll <==> r.denyAll || (Key(t) == "solana-address" && d))
            && (!gives ==> (r'.address, r'.addressTag) == (r.address, r.addressTag))
            && (gives ==> r'.address == Some(v) && Tagged(r', Key(t)))
  {
  }

  lemma KeysDiffer()
    ensures "allow" != "deny" && "deny" != "network" && "network" != "allow"
    ensures !IsAddressKey("allow") && !IsAddressKey("deny") && !IsAddressKey("network")
  {
    assert |"allow"| == 5 && |"deny"| == 4 && |"network"| == 7;
  }

  // What one token does to a record.
  lemma ApplyMeans(r: Record, t: string)
    requires NoWs(t)
    ensures var r', v := Apply(r, t), Value(t);
            && (r'.source, r'.raw) == (r.source, r.raw)
            && r'.allow == (if Key(t) == "allow" then ParseBool(v) else r.allow)
            && r'.deny == (if Key(t) == "deny" then ParseBool(v) else r.deny)
            && r'.network == (if Key(t) == "network" then Some(v) else r.network)
            && (r'.denyAll <==> r.denyAll || DenyAllToken(t))
            && (!GivesAddress(t) ==> (r'.address, r'.addressTag) == (r.address, r.addressTag))
            && (GivesAddress(t) ==> r'.address == Some(v) && Tagged(r', Key(t)))
            && (r'.denyAll || r'.address.Some? <==> r.denyAll || r.address.Some? || IsAddressKey(Key(t)))
  {
    var v := Value(t);
    ReadValue(t);
    ApplyFlags(r, t, v);
    ApplyAddress(r, t, v, EqIgnoreAsciiCase(v, "denyall"));
  }

  lemma {:induction false} FoldSome(ts: seq<string>, rec: Record)
    ensures StrictFold(ts, rec).Some? <==> forall t :: t in ts ==> '=' in t
  {
    if ts != [] {
      assert ts == [ts[0]] + ts[1..];
      FoldSome(ts[1..], Apply(rec, ts[0]));
    }
  }

  // What no token changes stays.
  lemma {:induction false} FoldNone<T>(ts: seq<string>, rec: Record, f: Record -> T)
    requires StrictFold(ts, rec).Some? && forall r: Record, t :: t in ts ==> f(Apply(r, t)) == f(r)
    ensures f(StrictFold(ts, rec).value) == f(rec)
  {
    if ts != [] {
      assert ts[0] in ts;
      FoldNone(ts[1..], Apply(rec, ts[0]), f);
    }
  }

  // What every token with p sets, and no other token changes.
  lemma {:induction false} FoldAny(ts: seq<string>, rec: Record, f: Record -> bool, p: string -> bool)
    requires StrictFold(ts, rec).Some? && forall r: Record, t :: t in ts ==> (f(Apply(r, t)) <==> f(r) || p(t))
    ensures f(StrictFold(ts, rec).value) <==> f(rec) || exists t :: t in ts && p(t)
  {
    if ts != [] {
      assert ts == [ts[0]] + ts[1..];
      FoldAny(ts[1..], Apply(rec, ts[0]), f, p);
    }
  }

  // What the k-th token sets and no later one changes.
  lemma {:induction false} FoldLast<T>(ts: seq<string>, rec: Record, k: nat, f: Record -> T, x: T)
    requires StrictFold(ts, rec).Some? && k < |ts| && forall r: Record :: f(Apply(r, ts[k])) == x
    requires forall r: Record, t :: t in ts[k + 1..] ==> f(Apply(r, t)) == f(r)
    ensures f(StrictFold(ts, rec).value) == x
  {
    if k == 0 {
      FoldNone(ts[1..], Apply(rec, ts[0]), f);
    } else {
      assert ts[1..][k..] == ts[k + 1..];
      FoldLast(ts[1..], Apply(rec, ts[0]), k - 1, f, x);
    }
  }

  lemma FoldNamed(ts: seq<string>, rec: Record)
    requires (forall t :: t in ts ==> NoWs(t)) && StrictFold(ts, rec).Some?
    ensures var r := StrictFold(ts, rec).value;
            r.denyAll || r.address.Some? <==>
              rec.denyAll || rec.address.Some? || exists t :: t in ts && IsAddressKey(Key(t))
  {
    forall r: Record, t | t in ts
      ensures Apply(r, t).denyAll || Apply(r, t).address.Some? <==> r.denyAll || r.address.Some? || IsAddressKey(Key(t))
    {
      ApplyMeans(r, t);
    }
    FoldAny(ts, rec, (r: Record) => r.denyAll || r.address.Some?, t => IsAddressKey(Key(t)));
  }

  // The strict reader takes exactly the lines all of whose tokens have an '=' and one of which has an
  // address key.
  lemma StrictReadsIff(source: Source, line: string)
    ensures var ts := SplitWhitespace(line);
            StrictSpec(source, line).Some? <==>
              (forall t :: t in ts ==> '=' in t) && exists t :: t in ts && IsAddressKey(Key(t))
  {
    var ts, rec := SplitWhitespace(line), Blank(source, line);
    TokensHaveNoWs(line);
    FoldSome(ts, rec);
    if StrictFold(ts, rec).Some? { FoldNamed(ts, rec); }
  }

  lemma StrictReadsWhole(source: Source, line: string)
    requires StrictSpec(source, line).Some?
    ensures var r := StrictSpec(source, line).value;
            && r.source == source && r.raw == line
            && (r.denyAll <==> exists t :: t in SplitWhitespace(line) && DenyAllToken(t))
  {
    var ts, rec := SplitWhitespace(line), Blank(source, line);
    TokensHaveNoWs(line);
    forall r: Record, t | t in ts
      ensures (Apply(r, t).source, Apply(r, t).raw) == (r.source, r.raw)
      ensures Apply(r, t).denyAll <==> r.denyAll || DenyAllToken(t)
    {
      ApplyMeans(r, t);
    }
    FoldNone(ts, rec, (r: Record) => (r.source, r.raw));
    FoldAny(ts, rec, (r: Record) => r.denyAll, DenyAllToken);
  }

  // The words of the last `allow` and `deny` token count.
  lemma StrictReadsAllow(source: Source, line: string, k: nat)
    requires StrictSpec(source, line).Some?
    ensures var ts, r := SplitWhitespace(line), StrictSpec(source, line).value;
            && (LastOf(ts, k, HasKey("allow")) ==> Meaning(r.allow, Value(ts[k])))
            && (NoneOf(ts, HasKey("allow")) ==> r.allow == None)
  {
    var ts, rec := SplitWhitespace(line), Blank(source, line);
    TokensHaveNoWs(line);
    forall r: Record, t | t in ts
      ensures Apply(r, t).allow == if Key(t) == "allow" then ParseBool(Value(t)) else r.allow
    {
      ApplyMeans(r, t);
    }
    if LastOf(ts, k, HasKey("allow")) {
      WordsMean(Value(ts[k]));
      FoldLast(ts, rec, k, (r: Record) => r.allow, ParseBool(Value(ts[k])));
    }
    if NoneOf(ts, HasKey("allow")) {
      FoldNone(ts, rec, (r: Record) => r.allow);
    }
  }

  lemma StrictReadsDeny(source: Source, line: string, k: nat)
    requires StrictSpec(source, line).Some?
    ensures var ts, r := SplitWhitespace(line), StrictSpec(source, line).value;
            && (LastOf(ts, k, HasKey("deny")) ==> Meaning(r.deny, Value(ts[k])))
            && (NoneOf(ts, HasKey("deny")) ==> r.deny == None)
  {
    var ts, rec := SplitWhitespace(line), Blank(source, line);
    TokensHaveNoWs(line);
    forall r: Record, t | t in ts
      ensures Apply(r, t).deny == if Key(t) == "deny" then ParseBool(Value(t)) else r.deny
    {
      ApplyMeans(r, t);
    }
    if LastOf(ts, k, HasKey("deny")) {
      WordsMean(Value(ts[k]));
      FoldLast(ts, rec, k, (r: Record) => r.deny, ParseBool(Value(ts[k])));
    }
    if NoneOf(ts, HasKey("deny")) {
      FoldNone(ts, rec, (r: Record) => r.deny);
    }
  }

  // The last network, and the last address with its tag.
  lemma StrictReadsNetwork(source: Source, line: string, k: nat)
    requires StrictSpec(source, line).Some?
    ensures var ts, r := SplitWhitespace(line), StrictSpec(source, line).value;
            && (LastOf(ts, k, HasKey("network")) ==> r.network == Some(Value(ts[k])))
            && (NoneOf(ts, HasKey("network")) ==> r.network == None)
  {
    var ts, rec := SplitWhitespace(line), Blank(source, line);
    TokensHaveNoWs(line);
    forall r: Record, t | t in ts
      ensures Apply(r, t).network == if Key(t) == "network" then Some(Value(t)) else r.network
    {
      ApplyMeans(r, t);
    }
    if LastOf(ts, k, HasKey("network")) {
      FoldLast(ts, rec, k, (r: Record) => r.network, Some(Value(ts[k])));
    }
    if NoneOf(ts, HasKey("network")) {
      FoldNone(ts, rec, (r: Record) => r.network);
    }
  }

  lemma StrictReadsAddress(source: Source, line: string, k: nat)
    requires StrictSpec(source, line).Some?
    ensures var ts, r := SplitWhitespace(line), StrictSpec(source, line).value;
            && (LastOf(ts, k, GivesAddress) ==> r.address == Some(Value(ts[k])) && Tagged(r, Key(ts[k])))
            && (NoneOf(ts, GivesAddress) ==> r.address == None && r.addressTag == None)
  {
    var ts, rec := SplitWhitespace(line), Blank(source, line);
    TokensHaveNoWs(line);
    forall r: Record, t | t in ts
      ensures !GivesAddress(t) ==> (Apply(r, t).address, Apply(r, t).addressTag) == (r.address, r.addressTag)
      ensures GivesAddress(t) ==> Apply(r, t).address == Some(Value(t)) && Tagged(Apply(r, t), Key(t))
    {
      ApplyMeans(r, t);
    }
    if LastOf(ts, k, GivesAddress) {
      FoldLast(ts, rec, k, (r: Record) => r.address == Some(Value(ts[k])) && Tagged(r, Key(ts[k])), true);
    }
    if NoneOf(ts, GivesAddress) {
      FoldNone(ts, rec, (r: Record) => (r.address, r.addressTag));
    }
  }

  // ----- The compat reader on any line -----

  ghost predicate Occurs(s: string, x: string) {
    exists p :: 0 <= p <= |s| && x <= s[p..]
  }

  ghost predicate FirstAt(s: string, x: string, at: nat) {
    at <= |s| && x <= s[at..] && forall p :: 0 <= p < at ==> !(x <= s[p..])
  }

  // The first token of a text, empty if there is none.
  ghost predicate FirstToken(text: string, tok: string) {
    exists i, j :: FirstTokenAt(text, i, j) && tok == text[i..j]
  }

  ghost predicate FirstTokenAt(text: string, i: int, j: int) {
    && 0 <= i <= j <= |text| && (forall k :: 0 <= k < i ==> Ws(text[k])) && NoWs(text[i..j])
    && (j < |text| ==> i < j && Ws(text[j]))
  }

  ghost predicate StrippedRight(s: string, c: char, v: string) {
    v <= s && (forall k :: |v| <= k < |s| ==> s[k] == c) && (v != "" ==> v[|v| - 1] != c)
  }

  // The token's value: without quotes, then without apostrophes, then without commas at its end.
  ghost predicate CompatValue(tok: string, v: string) {
    exists a, b :: Stripped(tok, Is('"'), a) && Stripped(a, Is('\''), b) && StrippedRight(b, ',', v)
  }

  // The value behind the first occurrence of the key and '='.
  ghost predicate Behind(line: string, key: string, v: string) {
    exists at: nat, tok ::
      FirstAt(line, key + "=", at) && FirstToken(line[at + |key| + 1..], tok) && CompatValue(tok, v)
  }

  lemma OccursIff(s: string, x: string)
    ensures Contains(s, x) <==> Occurs(s, x)
  {
    if Contains(s, x) {
      var p := OccursAt(s, x);
      assert x <= s[p..];
    }
    if p :| 0 <= p <= |s| && x <= s[p..] {
      OccursContains(s, x, p);
    }
  }

  lemma FirstAtShift(s: string, x: string, at: nat)
    requires s != "" && !(x <= s) && 0 < at <= |s|
    ensures FirstAt(s, x, at) <==> FirstAt(s[1..], x, at - 1)
  {
    assert s[0..] == s && s[1..][at - 1..] == s[at..];
    if FirstAt(s[1..], x, at - 1) {
      forall p | 0 < p < at ensures !(x <= s[p..]) {
        assert s[1..][p - 1..] == s[p..];
      }
    }
    if FirstAt(s, x, at) {
      forall p | 0 <= p < at - 1 ensures !(x <= s[1..][p..]) {
        assert s[1..][p..] == s[p + 1..];
      }
    }
  }

  lemma {:induction false} FindIff(s: string, x: string, at: nat)
    ensures Find(s, x) == Some(at) <==> FirstAt(s, x, at)
  {
    assert s[0..] == s;
    if !(x <= s) && s != "" && 0 < at <= |s| {
      FirstAtShift(s, x, at);
      FindIff(s[1..], x, at - 1);
    } else {
      FindFits(s, x);
    }
  }

  lemma FirstTokenShift(text: string, tok: string)
    requires text != "" && Ws(text[0]) && FirstToken(text[1..], tok)
    ensures FirstToken(text, tok)
  {
    var i, j :| FirstTokenAt(text[1..], i, j) && tok == text[1..][i..j];
    assert text[1..][i..j] == text[i + 1..j + 1];
    assert FirstTokenAt(text, i + 1, j + 1);
  }

  lemma {:induction false} FirstTokenIs(text: string)
    ensures var ts := SplitWhitespace(text); FirstToken(text, if ts == [] then "" else ts[0])
  {
    var ts := SplitWhitespace(text);
    var tok := if ts == [] then "" else ts[0];
    if text != "" && Ws(text[0]) {
      FirstTokenIs(text[1..]);
      FirstTokenShift(text, tok);
    } else {
      assert FirstTokenAt(text, 0, TokenLen(text)) && text[0..TokenLen(text)] == text[..TokenLen(text)];
    }
  }

  lemma TokenStartsOnce(text: string, i: int, j: int, i': int, j': int)
    requires FirstTokenAt(text, i, j) && FirstTokenAt(text, i', j')
    ensures i' <= i
  {
    if i < j { assert text[i] == text[i..j][0] && !Ws(text[i]); }
  }

  lemma TokenEndsOnce(text: string, i: int, j: int, j': int)
    requires FirstTokenAt(text, i, j) && FirstTokenAt(text, i, j')
    ensures j' <= j
  {
    assert forall k :: i <= k < j' ==> text[k] == text[i..j'][k - i];
  }

  lemma FirstTokenOnce(text: string, t: string, u: string)
    requires FirstToken(text, t) && FirstToken(text, u)
    ensures t == u
  {
    var i, j :| FirstTokenAt(text, i, j) && t == text[i..j];
    var i', j' :| FirstTokenAt(text, i', j') && u == text[i'..j'];
    TokenStartsOnce(text, i, j, i', j');
    TokenStartsOnce(text, i', j', i, j);
    TokenEndsOnce(text, i, j, j');
    TokenEndsOnce(text, i, j', j);
  }

  lemma CompatValueIs(tok: string)
    ensures CompatValue(tok, TrimRight(TrimMatches(TrimMatches(tok, '"'), '\''), ','))
  {
    var a := TrimMatches(tok, '"');
    var b := TrimMatches(a, '\'');
    TrimMatchesStrips(tok, '"');
    TrimMatchesStrips(a, '\'');
    var j := TrimRightAt(b, ',');
    assert StrippedRight(b, ',', b[..j]);
  }

  lemma CompatValueOnce(tok: string, v: string, w: string)
    requires CompatValue(tok, v) && CompatValue(tok, w)
    ensures v == w
  {
    var a, b :| Stripped(tok, Is('"'), a) && Stripped(a, Is('\''), b) && StrippedRight(b, ',', v);
    var a', b' :| Stripped(tok, Is('"'), a') && Stripped(a', Is('\''), b') && StrippedRight(b', ',', w);
    StrippedOnce(tok, Is('"'), a, a');
    StrippedOnce(a, Is('\''), b, b');
  }

  lemma FirstValueIs(text: string) returns (tok: string, w: string)
    ensures FirstToken(text, tok) && CompatValue(tok, w) && FirstValue(text) == if w == "" then None else Some(w)
  {
    tok := if SplitWhitespace(text) == [] then "" else SplitWhitespace(text)[0];
    FirstTokenIs(text);
    CompatValueIs(tok);
    w := TrimRight(TrimMatches(TrimMatches(tok, '"'), '\''), ',');
  }

  lemma ExtractAt(line: string, needle: string) returns (at: nat)
    requires Find(line, needle).Some?
    ensures FirstAt(line, needle, at) && at + |needle| <= |line|
    ensures ExtractAfter(line, needle) == FirstValue(line[at + |needle|..])
  {
    at := Find(line, needle).value;
    FindIff(line, needle, at);
    ExtractedAfter(line, needle);
  }

  lemma ExtractedAfter(line: string, needle: string)
    requires Find(line, needle).Some?
    ensures var at := Find(line, needle).value;
            at + |needle| <= |line| && ExtractAfter(line, needle) == FirstValue(line[at + |needle|..])
  {
    FindFits(line, needle);
  }

  lemma ExtractBehind(line: string, key: string) returns (w: string)
    requires Find(line, key + "=").Some?
    ensures Behind(line, key, w) && ExtractValue(line, key) == if w == "" then None else Some(w)
  {
    var at := ExtractAt(line, key + "=");
    var tok;
    tok, w := FirstValueIs(line[at + |key + "="|..]);
    IsBehind(line, key, at, tok, w);
  }

  lemma IsBehind(line: string, key: string, at: nat, tok: string, v: string)
    requires FirstAt(line, key + "=", at) && at + |key + "="| <= |line|
    requires FirstToken(line[at + |key + "="|..], tok) && CompatValue(tok, v)
    ensures Behind(line, key, v)
  {
  }

  lemma NothingBehind(line: string, key: string, v: string)
    requires Find(line, key + "=").None?
    ensures !Behind(line, key, v)
  {
    forall at: nat ensures !FirstAt(line, key + "=", at) {
      FindIff(line, key + "=", at);
    }
  }

  // What `extract_value` finds.
  lemma ExtractIff(line: string, key: string, v: string)
    ensures ExtractValue(line, key) == Some(v) <==> v != "" && Behind(line, key, v)
  {
    if Find(line, key + "=").Some? {
      var w := ExtractBehind(line, key);
      if Behind(line, key, v) { BehindOnce(line, key, v, w); }
    } else {
      NothingBehind(line, key, v);
    }
  }

  lemma FirstAtOnce(s: string, x: string, at: nat, at': nat)
    requires FirstAt(s, x, at) && FirstAt(s, x, at')
    ensures at == at'
  {
    FindIff(s, x, at);
    FindIff(s, x, at');
  }

  lemma BehindOnce(line: string, key: string, v: string, w: string)
    requires Behind(line, key, v) && Behind(line, key, w)
    ensures v == w
  {
    var at, t := BehindAt(line, key, v);
    var at', t' := BehindAt(line, key, w);
    BehindAtOnce(line, key, at, t, v, at', t', w);
  }

  lemma BehindAtOnce(line: string, key: string, at: nat, t: string, v: string, at': nat, t': string, w: string)
    requires FirstAt(line, key + "=", at) && FirstAt(line, key + "=", at') && at + |key| < |line|
    requires FirstToken(line[at + |key| + 1..], t) && CompatValue(t, v)
    requires at == at' ==> FirstToken(line[at' + |key| + 1..], t') && CompatValue(t', w)
    ensures v == w
  {
    FirstAtOnce(line, key + "=", at, at');
    FirstTokenOnce(line[at + |key| + 1..], t, t');
    CompatValueOnce(t, v, w);
  }

  lemma BehindAt(line: string, key: string, v: string) returns (at: nat, t: string)
    requires Behind(line, key, v)
    ensures FirstAt(line, key + "=", at) && at + |key| + 1 <= |line|
    ensures FirstToken(line[at + |key| + 1..], t) && CompatValue(t, v)
  {
    at, t :| FirstAt(line, key + "=", at) && FirstToken(line[at + |key| + 1..], t) && CompatValue(t, v);
  }

  ghost predicate Given(line: string, key: string, v: string) {
    v != "" && Behind(line, key, v)
  }

  ghost predicate Unread(line: string, key: string) {
    forall v :: !Given(line, key, v)
  }

  lemma ExtractGiven(line: string, key: string)
    ensures forall v :: ExtractValue(line, key) == Some(v) <==> Given(line, key, v)
    ensures ExtractValue(line, key) == None <==> Unread(line, key)
  {
    forall v ensures ExtractValue(line, key) == Some(v) <==> Given(line, key, v) {
      ExtractIff(line, key, v);
    }
    var x := ExtractValue(line, key);
    if x.Some? { assert Given(line, key, x.value); }
  }

  ghost predicate MeansWord(line: string, key: string, words: set<string>) {
    exists v :: Given(line, key, v) && IsWord(v, words)
  }

  lemma ExtractMeans(line: string, key: string)
    ensures var b := ParseBoolOpt(ExtractValue(line, key));
            && (b == Some(true) <==> MeansWord(line, key, YES_WORDS))
            && (b == Some(false) <==> MeansWord(line, key, NO_WORDS))
  {
    ExtractGiven(line, key);
    var x := ExtractValue(line, key);
    if x.Some? {
      WordsMean(x.value);
      assert Given(line, key, x.value);
    }
  }

  // The compat reader takes every line and goes by what occurs in it.
  lemma CompatReadsTag(source: Source, line: string)
    ensures var r := ParseRecordCompat(source, line);
            && r.source == source && r.raw == line
            && (r.denyAll <==> Occurs(line, "solana-address=denyall"))
            && (r.addressTag == Some(Program) <==> Occurs(line, "solana-program-address"))
            && (r.addressTag == Some(Mint) <==>
                  Occurs(line, "solana-mint-address") && !Occurs(line, "solana-program-address"))
            && (r.addressTag == Some(Address) <==>
                  && Occurs(line, "solana-address")
                  && !Occurs(line, "solana-mint-address") && !Occurs(line, "solana-program-address"))
  {
    OccursIff(line, "solana-address=denyall");
    OccursIff(line, "solana-program-address");
    OccursIff(line, "solana-mint-address");
    OccursIff(line, "solana-address");
  }

  lemma CompatReadsWords(source: Source, line: string)
    ensures var r := ParseRecordCompat(source, line);
            && (r.allow == Some(true) <==> MeansWord(line, "allow", YES_WORDS))
            && (r.allow == Some(false) <==> MeansWord(line, "allow", NO_WORDS))
            && (r.deny == Some(true) <==> MeansWord(line, "deny", YES_WORDS))
            && (r.deny == Some(false) <==> MeansWord(line, "deny", NO_WORDS))
  {
    ExtractMeans(line, "allow");
    ExtractMeans(line, "deny");
  }

  lemma CompatReadsNetwork(source: Source, line: string, v: string)
    ensures ParseRecordCompat(source, line).network == Some(v) <==> Given(line, "network", v)
  {
    ExtractIff(line, "network", v);
  }

  lemma FirstGiven(line: string, a: string, b: string, c: string, v: string)
    ensures OrElse(OrElse(ExtractValue(line, a), ExtractValue(line, b)), ExtractValue(line, c)) == Some(v) <==>
              || Given(line, a, v)
              || (Unread(line, a) && Given(line, b, v))
              || (Unread(line, a) && Unread(line, b) && Given(line, c, v))
  {
    GivenIff(line, a, v);
    GivenIff(line, b, v);
    GivenIff(line, c, v);
  }

  lemma GivenIff(line: string, key: string, v: string)
    ensures ExtractValue(line, key) == Some(v) <==> Given(line, key, v)
    ensures ExtractValue(line, key) == None <==> Unread(line, key)
  {
    ExtractGiven(line, key);
  }

  lemma CompatReadsAddress(source: Source, line: string, v: string)
    ensures ParseRecordCompat(source, line).address == Some(v) <==>
              || Given(line, "solana-address", v)
              || (Unread(line, "solana-address") && Given(line, "solana-program-address", v))
              || (Unread(line, "solana-address") && Unread(line, "solana-program-address")
                  && Given(line, "solana-mint-address", v))
  {
    FirstGiven(line, "solana-address", "solana-program-address", "solana-mint-address", v);
  }
}
