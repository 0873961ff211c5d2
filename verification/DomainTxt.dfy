/**
 * `decode_txt_answer`: the text of a DNS TXT answer, which arrives in the quoted presentation form of
 * RFC 1035, section 5.1: one quoted string for each character string of section 3.3.14.
 */
module DomainTxt {
  import opened Common
  import DomainLines
  import DomainParsers

  const QUOTE: char := '\"'
  const BACKSLASH: char := '\\'

  // ----- The presentation form -----

  predicate Special(c: char) {
    c == QUOTE || c == BACKSLASH
  }

  function Escape(s: string): string {
    if s == "" then "" else (if Special(s[0]) then [BACKSLASH, s[0]] else [s[0]]) + Escape(s[1..])
  }

  function Quoted(s: string): string {
    [QUOTE] + Escape(s) + [QUOTE]
  }

  function Presented(strings: seq<string>): string {
    if strings == [] then ""
    else Quoted(strings[0]) + (if |strings| == 1 then "" else " ") + Presented(strings[1..])
  }

  // ----- The code -----

  function Scan(raw: string, inQuote: bool): string {
    if raw == "" then ""
    else if raw[0] == QUOTE then Scan(raw[1..], !inQuote)
    else (if inQuote then [raw[0]] else "") + Scan(raw[1..], inQuote)
  }

  function Decoded(raw: string): string {
    var out := Scan(raw, false);
    if out == "" then DomainParsers.TrimMatches(raw, QUOTE) else out
  }

  method DecodeTxtAnswer(raw: string) returns (text: string)
    ensures text == Decoded(raw)
  {
    var out, inQuote := "", false;
    for i := 0 to |raw|
      invariant Scan(raw, false) == out + Scan(raw[i..], inQuote)
    {
      var c := raw[i];
      assert raw[i..][1..] == raw[i + 1..];
      if c == QUOTE {
        inQuote := !inQuote;
      } else if inQuote {
        assert out + ([c] + Scan(raw[i + 1..], inQuote)) == out + [c] + Scan(raw[i + 1..], inQuote);
        out := out + [c];
      } else {
        assert "" + Scan(raw[i + 1..], inQuote) == Scan(raw[i + 1..], inQuote);
      }
    }
    assert out + "" == out;
    text := if out == "" then DomainParsers.TrimMatches(raw, QUOTE) else out;
  }

  // ----- When it gives the strings back -----

  lemma {:induction false} ScanDropsQuotes(raw: string, inQuote: bool)
    ensures QUOTE !in Scan(raw, inQuote)
  {
    if raw != "" {
      ScanDropsQuotes(raw[1..], if raw[0] == QUOTE then !inQuote else inQuote);
    }
  }

  lemma {:induction false} ScanInside(a: string, rest: string)
    requires QUOTE !in a
    ensures Scan(a + rest, true) == a + Scan(rest, true)
  {
    if a == "" {
      assert a + rest == rest;
    } else {
      assert (a + rest)[1..] == a[1..] + rest;
      ScanInside(a[1..], rest);
    }
  }

  lemma {:induction false} EscapeFacts(s: string)
    ensures QUOTE in Escape(s) <==> QUOTE in s
    ensures |Escape(s)| >= |s|
    ensures Escape(s) == s <==> QUOTE !in s && BACKSLASH !in s
    ensures |Escape(s)| == |s| ==> Escape(s) == s
    ensures s != "" ==> Escape(s)[0] != QUOTE
  {
    if s != "" {
      EscapeFacts(s[1..]);
      assert s == [s[0]] + s[1..];
    }
  }

  function Escaped(strings: seq<string>): seq<string> {
    seq(|strings|, i requires 0 <= i < |strings| => Escape(strings[i]))
  }

  lemma ScanSeparator(sep: string, rest: string)
    requires sep == "" || sep == " "
    ensures Scan([QUOTE] + sep + rest, true) == Scan(rest, false)
  {
    assert ([QUOTE] + sep + rest)[1..] == sep + rest;
    if sep == " " {
      assert (sep + rest)[1..] == rest;
    } else {
      assert sep + rest == rest;
    }
  }

  // One quoted string and the separator behind it.
  lemma ScanQuoted(s: string, sep: string, rest: string)
    requires QUOTE !in s && (sep == "" || sep == " ")
    ensures Scan(Quoted(s) + sep + rest, false) == Escape(s) + Scan(rest, false)
  {
    EscapeFacts(s);
    assert (Quoted(s) + sep + rest)[1..] == Escape(s) + ([QUOTE] + sep + rest);
    ScanInside(Escape(s), [QUOTE] + sep + rest);
    ScanSeparator(sep, rest);
  }

  lemma {:induction false} ScanPresented(strings: seq<string>)
    requires forall s :: s in strings ==> QUOTE !in s
    ensures Scan(Presented(strings), false) == Flatten(Escaped(strings))
  {
    if strings != [] {
      ScanPresented(strings[1..]);
      ScanQuoted(strings[0], if |strings| == 1 then "" else " ", Presented(strings[1..]));
      assert Escaped(strings)[1..] == Escaped(strings[1..]);
    }
  }

  lemma {:induction false} ScanFindsText(strings: seq<string>)
    requires Flatten(strings) != ""
    ensures Scan(Presented(strings), false) != ""
  {
    var s := strings[0];
    if s == "" {
      ScanFindsText(strings[1..]);
      ScanQuoted(s, if |strings| == 1 then "" else " ", Presented(strings[1..]));
    } else {
      EscapeFacts(s);
      var p := Presented(strings);
      assert p[0] == QUOTE && p[1..][0] == Escape(s)[0];
    }
  }

  lemma {:induction false} EscapedLonger(strings: seq<string>)
    ensures |Flatten(Escaped(strings))| >= |Flatten(strings)|
    ensures Flatten(Escaped(strings)) == Flatten(strings) <==> Escaped(strings) == strings
  {
    if strings != [] {
      var es := Escaped(strings);
      EscapeFacts(strings[0]);
      EscapedLonger(strings[1..]);
      assert es[1..] == Escaped(strings[1..]);
      assert es[0] == Escape(strings[0]);
      assert es == [es[0]] + es[1..] && strings == [strings[0]] + strings[1..];
      if Flatten(es) == Flatten(strings) {
        assert |es[0]| == |strings[0]|;
        assert Flatten(es)[|es[0]|..] == Flatten(es[1..]) && Flatten(strings)[|es[0]|..] == Flatten(strings[1..]);
      }
    }
  }

  lemma {:induction false} InFlatten(strings: seq<string>, c: char)
    ensures c in Flatten(strings) <==> exists s :: s in strings && c in s
  {
    if strings != [] {
      InFlatten(strings[1..], c);
      assert forall s :: s in strings <==> s == strings[0] || s in strings[1..];
    }
  }

  lemma {:induction false} TrimLeftKeeps(s: string, c: char)
    requires c in s && c != QUOTE
    ensures c in DomainParsers.TrimLeft(s, QUOTE)
  {
    if s[0] == QUOTE {
      TrimLeftKeeps(s[1..], c);
    }
  }

  lemma {:induction false} TrimRightKeeps(s: string, c: char)
    requires c in s && c != QUOTE
    ensures c in DomainParsers.TrimRight(s, QUOTE)
  {
    if s[|s| - 1] == QUOTE {
      TrimRightKeeps(s[..|s| - 1], c);
    }
  }

  lemma EmptyStrings(strings: seq<string>)
    requires Flatten(strings) == ""
    ensures forall s :: s in strings ==> s == ""
    ensures Escaped(strings) == strings
  {
    forall s | s in strings ensures s == "" {
      if s != "" { InFlatten(strings, s[0]); }
    }
  }

  lemma PresentedSpace(strings: seq<string>)
    requires |strings| > 1
    ensures ' ' in Presented(strings)
  {
    var head := Quoted(strings[0]);
    var p := Presented(strings);
    assert p == head + " " + Presented(strings[1..]);
    assert p[|head|] == ' ';
  }

  lemma TrimQuotes()
    ensures DomainParsers.TrimMatches("", QUOTE) == "" && DomainParsers.TrimMatches([QUOTE, QUOTE], QUOTE) == ""
  {
    assert [QUOTE, QUOTE][1..] == [QUOTE] && [QUOTE][1..] == "";
    assert DomainParsers.TrimLeft([QUOTE], QUOTE) == "";
  }

  // Nothing between the quotes: the answer falls back to the raw text without its outer quotes, which
  // shows the separators.
  lemma EmptyFallback(strings: seq<string>)
    requires Flatten(strings) == ""
    ensures Scan(Presented(strings), false) == ""
    ensures DomainParsers.TrimMatches(Presented(strings), QUOTE) == "" <==> |strings| <= 1
  {
    EmptyStrings(strings);
    ScanPresented(strings);
    if |strings| > 1 {
      PresentedSpace(strings);
      TrimLeftKeeps(Presented(strings), ' ');
      TrimRightKeeps(DomainParsers.TrimLeft(Presented(strings), QUOTE), ' ');
    } else {
      TrimQuotes();
      if |strings| == 1 {
        assert strings == [""];
        assert Presented(strings) == Quoted("") == [QUOTE, QUOTE];
      }
    }
  }

  ghost predicate Unescaped(strings: seq<string>) {
    forall s :: s in strings ==> QUOTE !in s && BACKSLASH !in s
  }

  lemma EscapedSame(strings: seq<string>)
    requires forall s :: s in strings ==> QUOTE !in s
    ensures Escaped(strings) == strings <==> Unescaped(strings)
  {
    forall i | 0 <= i < |strings| ensures Escaped(strings)[i] == strings[i] <==> BACKSLASH !in strings[i] {
      EscapeFacts(strings[i]);
      assert strings[i] in strings;
    }
  }

  // An answer decodes to its strings run together exactly when no string needs an escape and there is
  // some text, or at most one string.
  lemma DecodesIff(strings: seq<string>)
    ensures Decoded(Presented(strings)) == Flatten(strings) <==>
              Unescaped(strings) && (Flatten(strings) != "" || |strings| <= 1)
  {
    if Flatten(strings) == "" {
      EmptyFallback(strings);
      EmptyStrings(strings);
    } else {
      ScanFindsText(strings);
      ScanDropsQuotes(Presented(strings), false);
      InFlatten(strings, QUOTE);
      if forall s :: s in strings ==> QUOTE !in s {
        ScanPresented(strings);
        EscapedLonger(strings);
        EscapedSame(strings);
      }
    }
  }

  // ----- On any answer -----

  // Every text is a sequence of parts without quotes, with a quote between one and the next.
  function Joined(parts: seq<string>): string {
    if parts == [] then "" else parts[0] + (if |parts| == 1 then "" else [QUOTE] + Joined(parts[1..]))
  }

  function EveryOther(parts: seq<string>, take: bool): string {
    if parts == [] then "" else (if take then parts[0] else "") + EveryOther(parts[1..], !take)
  }

  lemma {:induction false} ScanOutside(a: string, rest: string)
    requires QUOTE !in a
    ensures Scan(a + rest, false) == Scan(rest, false)
  {
    if a == "" {
      assert a + rest == rest;
    } else {
      assert (a + rest)[1..] == a[1..] + rest;
      ScanOutside(a[1..], rest);
    }
  }

  lemma {:induction false} ScanJoined(parts: seq<string>, inQuote: bool)
    requires forall p :: p in parts ==> QUOTE !in p
    ensures Scan(Joined(parts), inQuote) == EveryOther(parts, inQuote)
  {
    if parts != [] {
      var rest := if |parts| == 1 then "" else [QUOTE] + Joined(parts[1..]);
      ScanJoined(parts[1..], !inQuote);
      ScanPart(parts[0], rest, inQuote);
      assert |parts| > 1 ==> rest[1..] == Joined(parts[1..]);
    }
  }

  lemma ScanPart(a: string, rest: string, inQuote: bool)
    requires QUOTE !in a
    ensures Scan(a + rest, inQuote) == (if inQuote then a else "") + Scan(rest, inQuote)
  {
    if inQuote { ScanInside(a, rest); } else { ScanOutside(a, rest); }
  }

  // The answer is every other part, from the second on. If there is nothing in them, it is the text
  // without the quotes at its ends.
  lemma DecodesParts(parts: seq<string>)
    requires forall p :: p in parts ==> QUOTE !in p
    ensures var raw, inside := Joined(parts), EveryOther(parts, false);
            if inside != "" then Decoded(raw) == inside
            else DomainLines.Stripped(raw, DomainLines.Is(QUOTE), Decoded(raw))
  {
    ScanJoined(parts, false);
    DomainLines.TrimMatchesStrips(Joined(parts), QUOTE);
  }

  // A text without quotes is its own answer.
  lemma DecodesUnquoted(raw: string)
    requires QUOTE !in raw
    ensures Decoded(raw) == raw
  {
    ScanOutside(raw, "");
    assert raw + "" == raw;
  }
}
