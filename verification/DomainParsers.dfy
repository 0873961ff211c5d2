/**
 * The two readers of a record line: `parse_record_strict` splits it into tokens, `parse_record_compat`
 * searches it for substrings. On well-formed lines they agree.
 */
module DomainParsers {
  import opened Common
  import opened DomainRecords

  // ----- Tokens -----

  // The length of the first token of a text that does not start with white space.
  function TokenLen(s: string): (n: nat)
    ensures n <= |s| && (forall i :: 0 <= i < n ==> !Ws(s[i])) && (n < |s| ==> Ws(s[n]))
  {
    if s == "" || Ws(s[0]) then 0 else 1 + TokenLen(s[1..])
  }

  function SplitWhitespace(s: string): seq<string> {
    if s == "" then []
    else if Ws(s[0]) then SplitWhitespace(s[1..])
    else [s[..TokenLen(s)]] + SplitWhitespace(s[TokenLen(s)..])
  }

  function IndexOf(s: string, c: char): (i: nat)
    ensures i <= |s| && c !in s[..i] && (i < |s| ==> s[i] == c)
  {
    if s == "" || s[0] == c then 0
    else
      var i := IndexOf(s[1..], c);
      assert s[..1 + i] == [s[0]] + s[1..][..i];
      1 + i
  }

  // `split_once('=')`.
  function Key(token: string): string {
    token[..IndexOf(token, '=')]
  }

  function Val(token: string): string {
    var i := IndexOf(token, '=');
    if i < |token| then token[i + 1..] else ""
  }

  function TrimLeft(s: string, c: char): string {
    if s != "" && s[0] == c then TrimLeft(s[1..], c) else s
  }

  function TrimRight(s: string, c: char): string {
    if s != "" && s[|s| - 1] == c then TrimRight(s[..|s| - 1], c) else s
  }

  function TrimMatches(s: string, c: char): string {
    TrimRight(TrimLeft(s, c), c)
  }

  function ParseBool(v: string): Option<bool> {
    var l := ToLowerAscii(v);
    if l == "1" || l == "true" || l == "yes" || l == "allow" then Some(true)
    else if l == "0" || l == "false" || l == "no" || l == "deny" then Some(false)
    else None
  }

  function TagText(t: AddressTag): string {
    match t
    case Program => "solana-program-address"
    case Mint => "solana-mint-address"
    case Address => "solana-address"
  }

  // ----- The strict reader -----

  function Blank(source: Source, line: string): Record {
    Record(source, line, None, None, None, None, None, false)
  }

  function Apply(rec: Record, token: string): Record {
    var k, value := Key(token), TrimMatches(Trim(Val(token)), '"');
    if k == "solana-program-address" then rec.(addressTag := Some(Program), address := Some(value))
    else if k == "solana-mint-address" then rec.(addressTag := Some(Mint), address := Some(value))
    else if k == "solana-address" then
      if EqIgnoreAsciiCase(value, "denyall") then rec.(denyAll := true)
      else rec.(addressTag := Some(Address), address := Some(value))
    else if k == "allow" then rec.(allow := ParseBool(value))
    else if k == "deny" then rec.(deny := ParseBool(value))
    else if k == "network" then rec.(network := Some(value))
    else rec
  }

  function StrictFold(tokens: seq<string>, rec: Record): Option<Record> {
    if tokens == [] then Some(rec)
    else if '=' !in tokens[0] then None
    else StrictFold(tokens[1..], Apply(rec, tokens[0]))
  }

  function StrictSpec(source: Source, line: string): Option<Record> {
    var tokens := SplitWhitespace(line);
    var r := StrictFold(tokens, Blank(source, line));
    if tokens == [] || r.None? || !(r.value.denyAll || r.value.address.Some?) then None else r
  }

  method ParseRecordStrict(source: Source, line: string) returns (r: Option<Record>)
    ensures r == StrictSpec(source, line)
  {
    var tokens := SplitWhitespace(line);
    if tokens == [] {
      return None;
    }
    var rec := Record(source, line, None, None, None, None, None, false);
    for i := 0 to |tokens|
      invariant StrictFold(tokens, Blank(source, line)) == StrictFold(tokens[i..], rec)
    {
      var token := tokens[i];
      if '=' !in token {
        return None;
      }
      var k, value := Key(token), TrimMatches(Trim(Val(token)), '"');
      if k == "solana-program-address" {
        rec := rec.(addressTag := Some(Program), address := Some(value));
      } else if k == "solana-mint-address" {
        rec := rec.(addressTag := Some(Mint), address := Some(value));
      } else if k == "solana-address" {
        if EqIgnoreAsciiCase(value, "denyall") {
          rec := rec.(denyAll := true);
        } else {
          rec := rec.(addressTag := Some(Address), address := Some(value));
        }
      } else if k == "allow" {
        rec := rec.(allow := ParseBool(value));
      } else if k == "deny" {
        rec := rec.(deny := ParseBool(value));
      } else if k == "network" {
        rec := rec.(network := Some(value));
      }
    }
    if rec.denyAll || rec.address.Some? {
      return Some(rec);
    }
    return None;
  }

  // ----- The compat reader -----

  function Find(s: string, needle: string): Option<nat> {
    if needle <= s then Some(0)
    else if s == "" then None
    else
      var i := Find(s[1..], needle);
      if i.Some? then Some(i.value + 1) else None
  }

  lemma {:induction false} FindFits(s: string, needle: string)
    ensures Find(s, needle).Some? ==> Find(s, needle).value + |needle| <= |s|
  {
    if !(needle <= s) && s != "" {
      FindFits(s[1..], needle);
    }
  }

  function ExtractAfter(line: string, needle: string): Option<string> {
    var start := Find(line, needle);
    if start.None? then None
    else
      FindFits(line, needle);
      FirstValue(line[start.value + |needle|..])
  }

  function ExtractValue(line: string, key: string): Option<string> {
    ExtractAfter(line, key + "=")
  }

  function FirstValue(text: string): Option<string> {
    var tokens := SplitWhitespace(text);
    var first := if tokens == [] then "" else tokens[0];
    var value := TrimRight(TrimMatches(TrimMatches(first, '"'), '\''), ',');
    if value == "" then None else Some(value)
  }

  function ParseBoolOpt(v: Option<string>): Option<bool> {
    if v.Some? then ParseBool(v.value) else None
  }

  function OrElse<T>(a: Option<T>, b: Option<T>): Option<T> {
    if a.Some? then a else b
  }

  function ParseRecordCompat(source: Source, line: string): Record {
    Record(
      source, line,
      if Contains(line, "solana-program-address") then Some(Program)
      else if Contains(line, "solana-mint-address") then Some(Mint)
      else if Contains(line, "solana-address") then Some(Address)
      else None,
      OrElse(OrElse(ExtractValue(line, "solana-address"), ExtractValue(line, "solana-program-address")),
             ExtractValue(line, "solana-mint-address")),
      ParseBoolOpt(ExtractValue(line, "allow")),
      ParseBoolOpt(ExtractValue(line, "deny")),
      ExtractValue(line, "network"),
      Contains(line, "solana-address=denyall"))
  }

  // ----- Well-formed lines -----

  const KNOWN: seq<string> :=
    ["solana-program-address", "solana-mint-address", "solana-address", "allow", "deny", "network"]

  predicate EndsWith(s: string, x: string) {
    |x| <= |s| && s[|s| - |x|..] == x
  }

  // Free of what the readers strip from values.
  predicate Plain(v: string) {
    v != "" && v[0] !in ['"', '\''] && v[|v| - 1] !in ['"', '\'', ',']
  }

  // One '=', a plain value behind it, no known key hidden at the end of another key, no tag text but as
  // the key, no deny-all.
  predicate WellFormedToken(t: string) {
    && '=' in t && '=' !in Val(t) && Plain(Val(t))
    && (forall k :: k in KNOWN && EndsWith(Key(t), k) ==> Key(t) == k)
    && (forall tag: AddressTag :: Contains(t, TagText(tag)) ==> Key(t) == TagText(tag))
    && (Key(t) == "solana-address" ==> !("denyall" <= Val(t)) && !EqIgnoreAsciiCase(Val(t), "denyall"))
  }

  predicate IsAddressKey(k: string) {
    k == "solana-program-address" || k == "solana-mint-address" || k == "solana-address"
  }

  // Keys that fill the same field.
  predicate SameField(a: string, b: string) {
    (IsAddressKey(a) && IsAddressKey(b)) || (a == b && a in ["allow", "deny", "network"])
  }

  // Well-formed tokens, no field twice, and an address.
  predicate WellFormed(line: string) {
    var ts := SplitWhitespace(line);
    && (forall t :: t in ts ==> WellFormedToken(t))
    && (forall i, j :: 0 <= i < j < |ts| ==> !SameField(Key(ts[i]), Key(ts[j])))
    && (exists t :: t in ts && IsAddressKey(Key(t)))
  }

  // ----- Occurrences lie within tokens -----

  predicate NoWs(s: string) {
    forall i :: 0 <= i < |s| ==> !Ws(s[i])
  }

  // The line is a token and what follows it.
  predicate TokenThen(s: string, tok: string, rest: string) {
    s == tok + rest && NoWs(tok) && tok != "" && (rest == "" || Ws(rest[0]))
  }

  lemma SplitFirst(s: string)
    requires s != "" && !Ws(s[0])
    ensures TokenThen(s, s[..TokenLen(s)], s[TokenLen(s)..])
  {
  }

  lemma {:induction false} TokenLenOf(tok: string, rest: string)
    requires NoWs(tok) && (rest == "" || Ws(rest[0]))
    ensures TokenLen(tok + rest) == |tok|
  {
    var s := tok + rest;
    var n := TokenLen(s);
    if tok != "" {
      assert s[1..] == tok[1..] + rest;
      TokenLenOf(tok[1..], rest);
    } else {
      assert s == rest;
    }
  }

  lemma {:induction false} TokensHaveNoWs(s: string)
    ensures forall t :: t in SplitWhitespace(s) ==> NoWs(t)
    decreases |s|
  {
    if s != "" {
      TokensHaveNoWs(if Ws(s[0]) then s[1..] else s[TokenLen(s)..]);
    }
  }

  // A text without white space cannot reach over the end of a token.
  lemma PrefixInToken(tok: string, rest: string, x: string)
    requires NoWs(x) && (rest == "" || Ws(rest[0]))
    ensures x <= tok + rest <==> x <= tok
  {
    if |x| > |tok| && rest != "" {
      assert (tok + rest)[|tok|] == rest[0] && !Ws(x[|tok|]);
    }
  }

  lemma {:induction false} ContainsSplit(tok: string, rest: string, x: string)
    requires x != "" && NoWs(x) && (rest == "" || Ws(rest[0]))
    ensures Contains(tok + rest, x) <==> Contains(tok, x) || Contains(rest, x)
  {
    PrefixInToken(tok, rest, x);
    if tok == "" {
      assert tok + rest == rest;
    } else {
      assert (tok + rest)[1..] == tok[1..] + rest;
      ContainsSplit(tok[1..], rest, x);
      assert !Ws(x[0]) && (rest != "" ==> Ws(rest[0]));
    }
  }

  lemma {:induction false} ContainsInTokens(s: string, x: string)
    requires x != "" && NoWs(x)
    ensures Contains(s, x) <==> exists t :: t in SplitWhitespace(s) && Contains(t, x)
    decreases |s|
  {
    if s != "" {
      if Ws(s[0]) {
        assert !Ws(x[0]);
        ContainsInTokens(s[1..], x);
      } else {
        var tok, rest := s[..TokenLen(s)], s[TokenLen(s)..];
        SplitFirst(s);
        ContainsSplit(tok, rest, x);
        ContainsInTokens(rest, x);
        var ts, ts' := SplitWhitespace(s), SplitWhitespace(rest);
        assert ts == [tok] + ts';
        assert forall t :: t in ts <==> t == tok || t in ts';
      }
    }
  }

  lemma {:induction false} FindSkip(s: string, needle: string, m: nat)
    requires m <= |s| && forall p :: 0 <= p < m ==> !(needle <= s[p..])
    ensures Find(s, needle) == if Find(s[m..], needle).Some? then Some(Find(s[m..], needle).value + m) else None
  {
    if m > 0 {
      assert s[0..] == s && s[1..][m - 1..] == s[m..];
      forall p | 0 <= p < m - 1 ensures !(needle <= s[1..][p..]) {
        assert s[1..][p..] == s[p + 1..];
      }
      FindSkip(s[1..], needle, m - 1);
    } else {
      assert s[0..] == s;
    }
  }

  lemma ExtractAfterSkip(s: string, needle: string, m: nat)
    requires m <= |s| && forall p :: 0 <= p < m ==> !(needle <= s[p..])
    ensures ExtractAfter(s, needle) == ExtractAfter(s[m..], needle)
  {
    FindSkip(s, needle, m);
    var at := Find(s[m..], needle);
    if at.Some? {
      FindFits(s[m..], needle);
      DropTwice(s, m, at.value + |needle|);
    }
  }

  lemma ExtractSkip(s: string, key: string, m: nat)
    requires m <= |s| && forall p :: 0 <= p < m ==> !(key + "=" <= s[p..])
    ensures ExtractValue(s, key) == ExtractValue(s[m..], key)
  {
    ExtractAfterSkip(s, key + "=", m);
  }

  lemma DropTwice(s: string, m: nat, n: nat)
    requires m + n <= |s|
    ensures s[m..][n..] == s[n + m..]
  {
  }

  predicate PlainKey(k: string) {
    k != "" && NoWs(k) && '=' !in k
  }

  lemma OneEquals(tok: string, j: nat)
    requires '=' in tok && '=' !in Val(tok) && j < |tok|
    ensures tok[j] == '=' <==> j == IndexOf(tok, '=')
  {
    var e := IndexOf(tok, '=');
    if j < e {
      assert tok[..e][j] == tok[j];
    } else if j > e {
      assert Val(tok)[j - e - 1] == tok[j];
    }
  }

  // In a well-formed token a known key and its '=' occur at the start only, as the key.
  lemma KeyAtStart(tok: string, rest: string, key: string, p: nat)
    requires WellFormedToken(tok) && TokenThen(tok + rest, tok, rest) && key in KNOWN && PlainKey(key)
    requires p < |tok| && key + "=" <= (tok + rest)[p..]
    ensures p == 0 && Key(tok) == key
  {
    var needle := key + "=";
    SliceOfAppend(tok, rest, p, p);
    assert NoWs(tok[p..]) && NoWs(needle);
    PrefixInToken(tok[p..], rest, needle);
    KeyAlone(tok, key, p);
  }

  lemma KeyAlone(tok: string, key: string, p: nat)
    requires WellFormedToken(tok) && key in KNOWN
    requires p < |tok| && key + "=" <= tok[p..]
    ensures p == 0 && Key(tok) == key
  {
    var needle := key + "=";
    assert tok[p + |key|] == needle[|key|] == '=';
    OneEquals(tok, p + |key|);
    assert Key(tok)[p..] == needle[..|key|] == key;
  }

  // The value behind the first token with the given key.
  function FirstVal(ts: seq<string>, key: string): Option<string> {
    if ts == [] then None else if Key(ts[0]) == key then Some(Val(ts[0])) else FirstVal(ts[1..], key)
  }

  lemma PlainUntrimmed(v: string)
    requires Plain(v)
    ensures TrimMatches(v, '"') == v && TrimMatches(v, '\'') == v && TrimRight(v, ',') == v
  {
  }

  lemma FirstTokenOf(v: string, rest: string)
    requires NoWs(v) && v != "" && (rest == "" || Ws(rest[0]))
    ensures SplitWhitespace(v + rest) != [] && SplitWhitespace(v + rest)[0] == v
  {
    TokenLenOf(v, rest);
    assert (v + rest)[..|v|] == v;
  }

  lemma ExtractAtStart(tok: string, rest: string, key: string)
    requires WellFormedToken(tok) && TokenThen(tok + rest, tok, rest) && Key(tok) == key
    ensures ExtractValue(tok + rest, key) == Some(Val(tok))
  {
    var needle, v := key + "=", Val(tok);
    assert tok == needle + v;
    assert tok + rest == needle + (v + rest);
    assert Find(needle + (v + rest), needle) == Some(0);
    assert (needle + (v + rest))[|needle|..] == v + rest;
    FirstTokenOf(v, rest);
    PlainUntrimmed(v);
  }

  // Searching the line for a key finds what splitting it finds.
  lemma {:induction false} ExtractInTokens(s: string, key: string)
    requires key in KNOWN && PlainKey(key) && forall t :: t in SplitWhitespace(s) ==> WellFormedToken(t)
    ensures ExtractValue(s, key) == FirstVal(SplitWhitespace(s), key)
    decreases |s|
  {
    var needle := key + "=";
    if s != "" {
      if Ws(s[0]) {
        assert s[0..] == s && (needle <= s ==> needle[0] == s[0]);
        ExtractSkip(s, key, 1);
        ExtractInTokens(s[1..], key);
      } else {
        var tok, rest := s[..TokenLen(s)], s[TokenLen(s)..];
        SplitFirst(s);
        var ts := SplitWhitespace(s);
        assert ts[0] == tok && ts[1..] == SplitWhitespace(rest);
        if Key(tok) == key {
          ExtractAtStart(tok, rest, key);
        } else {
          forall p | 0 <= p < |tok| ensures !(needle <= s[p..]) {
            if needle <= s[p..] { KeyAtStart(tok, rest, key, p); }
          }
          ExtractSkip(s, key, |tok|);
          ExtractInTokens(rest, key);
        }
      }
    }
  }

  // ----- The strict reader on well-formed tokens -----

  ghost predicate GoodTokens(ts: seq<string>) {
    && (forall t :: t in ts ==> WellFormedToken(t) && NoWs(t))
    && (forall i, j :: 0 <= i < j < |ts| ==> !SameField(Key(ts[i]), Key(ts[j])))
  }

  lemma ValueAsRead(t: string)
    requires WellFormedToken(t) && NoWs(t)
    ensures TrimMatches(Trim(Val(t)), '"') == Val(t)
  {
    PlainUntrimmed(Val(t));
  }

  // The first token that gives an address.
  function AddressToken(ts: seq<string>): Option<string> {
    if ts == [] then None else if IsAddressKey(Key(ts[0])) then Some(ts[0]) else AddressToken(ts[1..])
  }

  function TagOf(key: string): AddressTag {
    if key == "solana-program-address" then Program else if key == "solana-mint-address" then Mint else Address
  }

  // The record the tokens amount to, over one that has been filled in so far.
  function Amounts(ts: seq<string>, rec: Record): Record {
    var a := AddressToken(ts);
    rec.(addressTag := if a.Some? then Some(TagOf(Key(a.value))) else rec.addressTag,
         address := if a.Some? then Some(Val(a.value)) else rec.address,
         allow := if FirstVal(ts, "allow").Some? then ParseBool(FirstVal(ts, "allow").value) else rec.allow,
         deny := if FirstVal(ts, "deny").Some? then ParseBool(FirstVal(ts, "deny").value) else rec.deny,
         network := OrElse(FirstVal(ts, "network"), rec.network))
  }

  // No token fills the field of this key.
  ghost predicate Unfilled(ts: seq<string>, key: string) {
    forall t :: t in ts ==> !SameField(key, Key(t))
  }

  lemma {:induction false} UnfilledNone(ts: seq<string>, key: string)
    requires Unfilled(ts, key)
    ensures IsAddressKey(key) ==> AddressToken(ts) == None
    ensures key in ["allow", "deny", "network"] || IsAddressKey(key) ==> FirstVal(ts, key) == None
  {
    if ts != [] {
      assert ts[0] in ts;
      UnfilledNone(ts[1..], key);
    }
  }

  // Reading a token and then tokens that leave its field alone.
  lemma AmountsStep(ts: seq<string>, rec: Record)
    requires ts != [] && WellFormedToken(ts[0]) && NoWs(ts[0])
    requires IsAddressKey(Key(ts[0])) ==> AddressToken(ts[1..]) == None
    requires Key(ts[0]) in ["allow", "deny", "network"] ==> FirstVal(ts[1..], Key(ts[0])) == None
    ensures Amounts(ts[1..], Apply(rec, ts[0])) == Amounts(ts, rec)
  {
    ValueAsRead(ts[0]);
  }

  lemma LaterUnfilled(ts: seq<string>)
    requires ts != [] && GoodTokens(ts)
    ensures GoodTokens(ts[1..]) && Unfilled(ts[1..], Key(ts[0]))
  {
    forall i | 0 <= i < |ts[1..]| ensures !SameField(Key(ts[0]), Key(ts[1..][i])) {
      assert ts[1..][i] == ts[i + 1];
    }
  }

  lemma {:induction false} StrictFoldAmounts(ts: seq<string>, rec: Record)
    requires GoodTokens(ts)
    ensures StrictFold(ts, rec) == Some(Amounts(ts, rec))
  {
    if ts != [] {
      assert ts[0] in ts;
      LaterUnfilled(ts);
      UnfilledNone(ts[1..], Key(ts[0]));
      StrictFoldAmounts(ts[1..], Apply(rec, ts[0]));
      AmountsStep(ts, rec);
    }
  }

  // ----- The compat reader on well-formed lines -----

  lemma KnownPlain(key: string)
    requires key in KNOWN
    ensures PlainKey(key)
  {
  }

  lemma {:induction false} UniqueAddress(ts: seq<string>)
    requires GoodTokens(ts) && exists t :: t in ts && IsAddressKey(Key(t))
    ensures AddressToken(ts).Some?
    ensures var a := AddressToken(ts).value;
            && a in ts && IsAddressKey(Key(a))
            && (forall t :: t in ts && IsAddressKey(Key(t)) ==> t == a)
            && (forall k :: IsAddressKey(k) ==> FirstVal(ts, k) == if k == Key(a) then Some(Val(a)) else None)
  {
    var t, rest := ts[0], ts[1..];
    assert ts == [t] + rest;
    if IsAddressKey(Key(t)) {
      forall k | IsAddressKey(k) ensures FirstVal(rest, k) == None {
        assert Unfilled(rest, k) by {
          forall i | 0 <= i < |rest| ensures !SameField(k, Key(rest[i])) {
            assert rest[i] == ts[i + 1] && !SameField(Key(ts[0]), Key(ts[i + 1]));
          }
        }
        UnfilledNone(rest, k);
      }
      forall i | 0 <= i < |rest| ensures !IsAddressKey(Key(rest[i])) {
        assert rest[i] == ts[i + 1] && !SameField(Key(ts[0]), Key(ts[i + 1]));
      }
    } else {
      assert GoodTokens(rest);
      UniqueAddress(rest);
    }
  }

  lemma {:induction false} OccursAt(s: string, x: string) returns (p: nat)
    requires Contains(s, x)
    ensures p <= |s| && x <= s[p..]
  {
    if x <= s {
      p := 0;
      assert s[0..] == s;
    } else {
      var q := OccursAt(s[1..], x);
      p := q + 1;
      assert s[1..][q..] == s[p..];
    }
  }

  lemma {:induction false} OccursContains(s: string, x: string, p: nat)
    requires p <= |s| && x <= s[p..]
    ensures Contains(s, x)
    decreases p
  {
    if p == 0 {
      assert s[0..] == s;
    } else {
      assert s[1..][p - 1..] == s[p..];
      OccursContains(s[1..], x, p - 1);
    }
  }

  const DENY_ALL: string := "solana-address=denyall"

  lemma DenyAllAtStart(t: string)
    requires '=' in t && '=' !in Val(t) && Contains(t, DENY_ALL)
    requires Contains(t, "solana-address") ==> Key(t) == "solana-address"
    ensures Key(t) == "solana-address" && "denyall" <= Val(t)
  {
    var p := OccursAt(t, DENY_ALL);
    assert DENY_ALL[..14] == "solana-address" && DENY_ALL[14] == '=' && DENY_ALL[15..] == "denyall";
    assert "solana-address" <= t[p..] by {
      assert t[p..][..14] == DENY_ALL[..14];
    }
    OccursContains(t, "solana-address", p);
    OneEquals(t, p + 14);
    assert p == 0 && t[p..] == t;
    assert Val(t)[..7] == t[15..22] == DENY_ALL[15..];
  }

  lemma TagOccurs(a: string)
    requires '=' in a && IsAddressKey(Key(a))
    ensures Contains(a, TagText(TagOf(Key(a))))
  {
    assert Key(a) == TagText(TagOf(Key(a))) && Key(a) <= a;
  }

  lemma CompatTag(ts: seq<string>, line: string, tag: AddressTag)
    requires ts == SplitWhitespace(line) && GoodTokens(ts) && exists t :: t in ts && IsAddressKey(Key(t))
    ensures AddressToken(ts).Some?
    ensures Contains(line, TagText(tag)) <==> tag == TagOf(Key(AddressToken(ts).value))
  {
    UniqueAddress(ts);
    var a, text := AddressToken(ts).value, TagText(tag);
    TagOccurs(a);
    TagIsKnown(tag);
    KnownPlain(text);
    ContainsInTokens(line, text);
    if Contains(line, text) {
      var t :| t in ts && Contains(t, text);
      assert WellFormedToken(t) && Key(t) == text;
    }
  }

  lemma TagIsKnown(tag: AddressTag)
    ensures TagText(tag) in KNOWN && IsAddressKey(TagText(tag)) && TagOf(TagText(tag)) == tag
  {
    assert KNOWN[0] == TagText(Program) && KNOWN[1] == TagText(Mint) && KNOWN[2] == TagText(Address);
  }

  lemma DenyAllIsOneToken()
    ensures DENY_ALL != "" && NoWs(DENY_ALL)
  {
  }

  lemma NoDenyAll(ts: seq<string>, line: string)
    requires ts == SplitWhitespace(line) && GoodTokens(ts)
    ensures !Contains(line, DENY_ALL)
  {
    DenyAllIsOneToken();
    ContainsInTokens(line, DENY_ALL);
    forall t | t in ts ensures !Contains(t, DENY_ALL) {
      TokenNoDenyAll(t);
    }
  }

  lemma TokenNoDenyAll(t: string)
    requires WellFormedToken(t)
    ensures !Contains(t, DENY_ALL)
  {
    if Contains(t, DENY_ALL) {
      assert Contains(t, "solana-address") ==> Contains(t, TagText(Address));
      DenyAllAtStart(t);
    }
  }

  lemma ExtractKnown(ts: seq<string>, line: string, key: string)
    requires ts == SplitWhitespace(line) && GoodTokens(ts) && key in KNOWN
    ensures ExtractValue(line, key) == FirstVal(ts, key)
  {
    KnownPlain(key);
    ExtractInTokens(line, key);
  }

  lemma KnownKeys()
    ensures "solana-program-address" in KNOWN && "solana-mint-address" in KNOWN && "solana-address" in KNOWN
    ensures "allow" in KNOWN && "deny" in KNOWN && "network" in KNOWN
  {
    assert KNOWN[0] == TagText(Program) && KNOWN[1] == TagText(Mint) && KNOWN[2] == TagText(Address);
    assert KNOWN[3] == "allow" && KNOWN[4] == "deny" && KNOWN[5] == "network";
  }

  lemma CompatAddress(ts: seq<string>, source: Source, line: string)
    requires ts == SplitWhitespace(line) && GoodTokens(ts) && exists t :: t in ts && IsAddressKey(Key(t))
    ensures AddressToken(ts).Some?
    ensures var a, r := AddressToken(ts).value, ParseRecordCompat(source, line);
            r.address == Some(Val(a)) && r.addressTag == Some(TagOf(Key(a)))
  {
    UniqueAddress(ts);
    KnownKeys();
    ExtractKnown(ts, line, "solana-program-address");
    ExtractKnown(ts, line, "solana-mint-address");
    ExtractKnown(ts, line, "solana-address");
    CompatTag(ts, line, Program);
    CompatTag(ts, line, Mint);
    CompatTag(ts, line, Address);
  }

  lemma CompatRest(ts: seq<string>, source: Source, line: string)
    requires ts == SplitWhitespace(line) && GoodTokens(ts)
    ensures var r := ParseRecordCompat(source, line);
            && r.allow == ParseBoolOpt(FirstVal(ts, "allow")) && r.deny == ParseBoolOpt(FirstVal(ts, "deny"))
            && r.network == FirstVal(ts, "network") && !r.denyAll
  {
    KnownKeys();
    ExtractKnown(ts, line, "allow");
    ExtractKnown(ts, line, "deny");
    ExtractKnown(ts, line, "network");
    NoDenyAll(ts, line);
  }

  // On a well-formed line both readers produce the same record.
  lemma ReadersAgree(source: Source, line: string)
    requires WellFormed(line)
    ensures StrictSpec(source, line) == Some(ParseRecordCompat(source, line))
  {
    var ts := SplitWhitespace(line);
    TokensHaveNoWs(line);
    StrictFoldAmounts(ts, Blank(source, line));
    CompatAddress(ts, source, line);
    CompatRest(ts, source, line);
  }
}
