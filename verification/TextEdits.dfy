/**
 * The text transformations of the protocol sync script: formatter edits applied from the last to the
 * first, and the conversion of two-space indentation to tabs.
 */
module TextEdits {

  datatype Edit = Edit(start: nat, length: nat, newText: string) {
    function End(): nat { start + length }
  }

  // What the formatter hands out: edits in order, none reaching into the next.
  ghost predicate Ordered(edits: seq<Edit>, from: nat, size: nat) {
    && from <= size
    && (forall i :: 0 <= i < |edits| ==> from <= edits[i].start && edits[i].End() <= size)
    && (forall i, j :: 0 <= i < j < |edits| ==> edits[i].End() <= edits[j].start)
  }

  // All edits at once: the untouched gaps of the original with the new texts between them.
  function Simultaneous(original: string, edits: seq<Edit>, from: nat): string
    requires Ordered(edits, from, |original|)
  {
    if edits == [] then original[from..]
    else
      assert Ordered(edits[1..], edits[0].End(), |original|) by { OrderedTail(edits, from, |original|); }
      original[from..edits[0].start] + edits[0].newText + Simultaneous(original, edits[1..], edits[0].End())
  }

  lemma OrderedFrom(edits: seq<Edit>, from: nat, size: nat, i: nat)
    requires i < |edits| && Ordered(edits, from, size)
    ensures Ordered(edits[i..], edits[i].start, size)
  {
  }

  lemma OrderedTail(edits: seq<Edit>, from: nat, size: nat)
    requires edits != [] && Ordered(edits, from, size)
    ensures Ordered(edits[1..], edits[0].End(), size)
  {
  }

  lemma Regroup(a: string, b: string, c: string, d: string)
    ensures a + b + c + d == a + (b + c + d)
  {
  }

  // A gap can be taken in two parts.
  lemma Widen(original: string, edits: seq<Edit>, from: nat, p: nat)
    requires from <= p && Ordered(edits, from, |original|) && Ordered(edits, p, |original|)
    ensures Simultaneous(original, edits, from) == original[from..p] + Simultaneous(original, edits, p)
  {
    if edits == [] {
      assert original[from..] == original[from..p] + original[p..];
    } else {
      var e := edits[0];
      OrderedTail(edits, from, |original|);
      var gap, later := original[p..e.start], Simultaneous(original, edits[1..], e.End());
      assert original[from..e.start] == original[from..p] + gap;
      Regroup(original[from..p], gap, e.newText, later);
    }
  }

  // The last edit not yet applied goes into text that is still the original's.
  lemma ApplyStep(original: string, edits: seq<Edit>, i: nat, p: nat, content: string)
    requires i < |edits| && Ordered(edits, 0, |original|)
    requires edits[i].End() <= p && Ordered(edits[i + 1..], p, |original|)
    requires content == original[..p] + Simultaneous(original, edits[i + 1..], p)
    ensures Ordered(edits[i..], edits[i].start, |original|)
    ensures content[..edits[i].start] + edits[i].newText + content[edits[i].End()..]
            == original[..edits[i].start] + Simultaneous(original, edits[i..], edits[i].start)
  {
    var e, rest := edits[i], edits[i + 1..];
    OrderedFrom(edits, 0, |original|, i);
    assert edits[i..][1..] == rest;
    OrderedTail(edits[i..], e.start, |original|);
    Widen(original, rest, e.End(), p);
    var s := Simultaneous(original, rest, p);
    assert content[e.End()..] == original[e.End()..p] + s;
    assert content[..e.start] == original[..e.start];
    assert Simultaneous(original, edits[i..], e.start) ==
           original[e.start..e.start] + e.newText + (original[e.End()..p] + s);
    assert original[..e.start] + original[e.start..e.start] == original[..e.start];
    Regroup(original[..e.start], original[e.start..e.start], e.newText, original[e.End()..p] + s);
  }

  // Applying the edits one by one from the last to the first, each at its original offset, is applying
  // them all at once; several insertions at one offset come out in order.
  method ApplyEdits(original: string, edits: seq<Edit>) returns (content: string)
    requires Ordered(edits, 0, |original|)
    ensures content == Simultaneous(original, edits, 0)
  {
    content := original;
    var i := |edits|;
    ghost var p: nat := |original|;    // content is untouched below p
    while i > 0
      invariant 0 <= i <= |edits| && p <= |original| && Ordered(edits[i..], p, |original|)
      invariant i > 0 ==> edits[i - 1].End() <= p
      invariant content == original[..p] + Simultaneous(original, edits[i..], p)
    {
      i := i - 1;
      var edit := edits[i];
      ApplyStep(original, edits, i, p, content);
      content := content[..edit.start] + edit.newText + content[edit.End()..];
      p := edit.start;
    }
    assert edits[0..] == edits;
    if edits != [] {
      Widen(original, edits, 0, p);
    } else {
      assert content == original;
    }
  }

  // ----- Where everything ends up -----

  // By how much the first k edits move what follows them.
  function Delta(edits: seq<Edit>, k: nat): int
    requires k <= |edits|
  {
    if k == 0 then 0 else |edits[0].newText| - edits[0].length + Delta(edits[1..], k - 1)
  }

  lemma {:induction false} SimultaneousLength(original: string, edits: seq<Edit>, from: nat)
    requires Ordered(edits, from, |original|)
    ensures |Simultaneous(original, edits, from)| == |original| - from + Delta(edits, |edits|)
  {
    if edits != [] {
      OrderedTail(edits, from, |original|);
      SimultaneousLength(original, edits[1..], edits[0].End());
    }
  }

  // r has x at i.
  ghost predicate HasAt(r: string, i: int, x: string) {
    exists a, b :: Around(r, a, x, b) && |a| == i
  }

  predicate Around(r: string, a: string, x: string, b: string) {
    r == a + x + b
  }

  lemma HasBehind(lead: string, r: string, i: int, x: string)
    requires HasAt(r, i, x)
    ensures HasAt(lead + r, |lead| + i, x)
  {
    var a, b :| Around(r, a, x, b) && |a| == i;
    assert lead + r == lead + a + x + b;
    assert Around(lead + r, lead + a, x, b);
  }

  lemma HasBetween(a: string, x: string, b: string)
    ensures HasAt(a + x + b, |a|, x)
  {
    assert Around(a + x + b, a, x, b);
  }

  // The edits behind the first move everything in them alike.
  lemma MovesBehind(original: string, edits: seq<Edit>, from: nat, at: int, k: nat, x: string)
    requires Ordered(edits, from, |original|) && 0 < k <= |edits| && Ordered(edits[1..], edits[0].End(), |original|)
    requires HasAt(Simultaneous(original, edits[1..], edits[0].End()),
                   at - edits[0].End() + Delta(edits[1..], k - 1), x)
    ensures HasAt(Simultaneous(original, edits, from), at - from + Delta(edits, k), x)
  {
    var e := edits[0];
    var lead := original[from..e.start] + e.newText;
    HasBehind(lead, Simultaneous(original, edits[1..], e.End()), at - e.End() + Delta(edits[1..], k - 1), x);
  }

  // The new text of the k-th edit stands where the edit was, moved by the edits before it.
  lemma {:induction false} NewTextAt(original: string, edits: seq<Edit>, from: nat, k: nat)
    requires Ordered(edits, from, |original|) && k < |edits|
    ensures HasAt(Simultaneous(original, edits, from), edits[k].start - from + Delta(edits, k), edits[k].newText)
    decreases k
  {
    OrderedTail(edits, from, |original|);
    var e := edits[0];
    if k == 0 {
      HasBetween(original[from..e.start], e.newText, Simultaneous(original, edits[1..], e.End()));
      assert Delta(edits, 0) == 0;
    } else {
      NewTextAt(original, edits[1..], e.End(), k - 1);
      MovesBehind(original, edits, from, edits[k].start, k, edits[k].newText);
    }
  }

  // Where the gap before the k-th edit, or behind the last one, starts and ends.
  function GapStart(edits: seq<Edit>, from: nat, k: nat): nat
    requires k <= |edits|
  {
    if k == 0 then from else edits[k - 1].End()
  }

  function GapEnd(edits: seq<Edit>, size: nat, k: nat): nat
    requires k <= |edits|
  {
    if k == |edits| then size else edits[k].start
  }

  lemma GapFits(edits: seq<Edit>, from: nat, size: nat, k: nat)
    requires Ordered(edits, from, size) && k <= |edits|
    ensures GapStart(edits, from, k) <= GapEnd(edits, size, k) <= size
  {
  }

  lemma FirstGapAt(original: string, edits: seq<Edit>, from: nat)
    requires Ordered(edits, from, |original|)
    ensures HasAt(Simultaneous(original, edits, from), 0, original[from..GapEnd(edits, |original|, 0)])
  {
    var gap := original[from..GapEnd(edits, |original|, 0)];
    if edits == [] {
      assert Around(Simultaneous(original, edits, from), "", gap, "");
    } else {
      OrderedTail(edits, from, |original|);
      var later := edits[0].newText + Simultaneous(original, edits[1..], edits[0].End());
      assert Simultaneous(original, edits, from) == "" + gap + later;
      assert Around(Simultaneous(original, edits, from), "", gap, later);
    }
  }

  // A gap stays, and is moved in the same way.
  lemma {:induction false} GapAt(original: string, edits: seq<Edit>, from: nat, k: nat)
    requires Ordered(edits, from, |original|) && k <= |edits|
    ensures var start, end := GapStart(edits, from, k), GapEnd(edits, |original|, k);
            start <= end <= |original| &&
            HasAt(Simultaneous(original, edits, from), start - from + Delta(edits, k), original[start..end])
    decreases k
  {
    GapFits(edits, from, |original|, k);
    var start, end := GapStart(edits, from, k), GapEnd(edits, |original|, k);
    if k > 0 {
      OrderedTail(edits, from, |original|);
      GapAt(original, edits[1..], edits[0].End(), k - 1);
      MovesBehind(original, edits, from, start, k, original[start..end]);
    } else {
      FirstGapAt(original, edits, from);
    }
  }

  // ----- Indentation -----

  function Spaces(line: string): (n: nat)
    ensures n <= |line| && (forall i :: 0 <= i < n ==> line[i] == ' ') && (n < |line| ==> line[n] != ' ')
  {
    if line != "" && line[0] == ' ' then 1 + Spaces(line[1..]) else 0
  }

  function Repeat(c: char, n: nat): (s: string)
    ensures |s| == n && forall i :: 0 <= i < n ==> s[i] == c
  {
    if n == 0 then "" else [c] + Repeat(c, n - 1)
  }

  // Two leading spaces become a tab; an odd one stays.
  function ConvertLine(line: string): string {
    var spaces := Spaces(line);
    Repeat('\t', spaces / 2) + Repeat(' ', spaces % 2) + line[spaces..]
  }

  // Two-space tab stops: the inverse.
  function ExpandLine(line: string): string {
    if line != "" && line[0] == '\t' then "  " + ExpandLine(line[1..]) else line
  }

  lemma {:induction false} ExpandTabs(tabs: nat, rest: string)
    ensures ExpandLine(Repeat('\t', tabs) + rest) == Repeat(' ', 2 * tabs) + ExpandLine(rest)
  {
    if tabs > 0 {
      var s := Repeat('\t', tabs) + rest;
      assert s[1..] == Repeat('\t', tabs - 1) + rest;
      ExpandTabs(tabs - 1, rest);
      assert Repeat(' ', 2 * tabs) == "  " + Repeat(' ', 2 * tabs - 2);
      assert ExpandLine(s) == "  " + (Repeat(' ', 2 * tabs - 2) + ExpandLine(rest));
    } else {
      assert Repeat('\t', 0) + rest == rest;
      assert Repeat(' ', 0) + ExpandLine(rest) == ExpandLine(rest);
    }
  }

  lemma {:induction false} ExpandLonger(line: string)
    ensures |ExpandLine(line)| >= |line|
    ensures ExpandLine(line) == line <==> line == "" || line[0] != '\t'
  {
    if line != "" && line[0] == '\t' {
      ExpandLonger(line[1..]);
    }
  }

  lemma CancelPrefix(lead: string, a: string, b: string)
    ensures lead + a == lead + b <==> a == b
  {
    assert (lead + a)[|lead|..] == a && (lead + b)[|lead|..] == b;
  }

  // A line is its pairs of leading spaces and a rest.
  lemma SplitIndent(line: string) returns (rest: string)
    ensures var n := Spaces(line);
            && ConvertLine(line) == Repeat('\t', n / 2) + rest
            && line == Repeat(' ', 2 * (n / 2)) + rest
            && (rest != "" && rest[0] == '\t' <==> n % 2 == 0 && n < |line| && line[n] == '\t')
  {
    var n := Spaces(line);
    rest := Repeat(' ', n % 2) + line[n..];
    assert Repeat('\t', n / 2) + Repeat(' ', n % 2) + line[n..] == Repeat('\t', n / 2) + rest;
    if n % 2 == 0 {
      assert rest == line[n..];
    } else {
      assert rest[0] == ' ';
    }
  }

  // The conversion loses nothing: expanding the tabs gives the line back, exactly unless a tab already
  // follows an even number of leading spaces.
  lemma ConvertExpandIff(line: string)
    ensures var n := Spaces(line);
            ExpandLine(ConvertLine(line)) == line <==> !(n % 2 == 0 && n < |line| && line[n] == '\t')
  {
    var rest := SplitIndent(line);
    var half := Spaces(line) / 2;
    ExpandTabs(half, rest);
    ExpandLonger(rest);
    CancelPrefix(Repeat(' ', 2 * half), ExpandLine(rest), rest);
  }

  // Converting again changes nothing.
  lemma ConvertIdempotent(line: string)
    ensures ConvertLine(ConvertLine(line)) == ConvertLine(line)
  {
    var n := Spaces(line);
    var c := ConvertLine(line);
    if n / 2 > 0 {
      assert c[0] == '\t' && Spaces(c) == 0;
    } else {
      assert c == line;
    }
    assert Repeat('\t', 0) + Repeat(' ', 0) + c[0..] == c;
  }
}
