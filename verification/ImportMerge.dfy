/**
 * `mergeDuplicateImports` of the protocol sync script, on lines whose imports have been matched and
 * whose name lists have been split and trimmed.
 */
module ImportMerge {
  import opened Common

  // `import type { names } from 'mod';`, `import { names } from 'mod';`, or any other line.
  datatype Line = Import(typeOnly: bool, names: seq<string>, mod: string) | Other(text: string)

  datatype Entry = Entry(typeNames: seq<string>, valueNames: seq<string>)

  const PLACEHOLDER: string := "__IMPORT_PLACEHOLDER__"

  // The distinct elements in the order of their first occurrence: an array made from a Set.
  function Unique(s: seq<string>): (u: seq<string>)
    ensures forall x :: x in u <==> x in s
    ensures NoDuplicates(u)
    ensures NoDuplicates(s) ==> u == s
  {
    if s == [] then []
    else
      var init, x := s[..|s| - 1], s[|s| - 1];
      assert s == init + [x];
      if x in init then Unique(init) else Unique(init) + [x]
  }

  lemma {:induction false} UniqueOfPrefix(s: seq<string>, k: nat)
    requires k <= |s|
    ensures Unique(s[..k]) <= Unique(s)
    decreases |s|
  {
    if k < |s| {
      assert s[..|s| - 1][..k] == s[..k];
      UniqueOfPrefix(s[..|s| - 1], k);
    } else {
      assert s[..k] == s;
    }
  }

  ghost predicate InOrder(u: seq<string>, x: string, y: string) {
    exists a, b :: 0 <= a < b < |u| && u[a] == x && u[b] == y
  }

  lemma PrefixFirst(p: seq<string>, u: seq<string>, x: string, y: string)
    requires p <= u && x in p && y in u && y !in p
    ensures InOrder(u, x, y)
  {
    var a :| 0 <= a < |p| && p[a] == x;
    var b :| 0 <= b < |u| && u[b] == y;
    assert forall k :: 0 <= k < |p| ==> u[k] == p[k];
  }

  // Of two names, the one that occurs first stays first.
  lemma UniqueKeepsOrder(s: seq<string>, i: nat, j: nat)
    requires i < j < |s| && s[j] !in s[..j]
    ensures InOrder(Unique(s), s[i], s[j])
  {
    UniqueOfPrefix(s, j);
    assert s[..j][i] == s[i];
    PrefixFirst(Unique(s[..j]), Unique(s), s[i], s[j]);
  }

  function TypeSpecifiers(types: seq<string>): seq<string> {
    seq(|types|, i requires 0 <= i < |types| => "type " + types[i])
  }

  // The line that replaces all imports of one module.
  function ImportLine(mod: string, e: Entry): Line {
    var types, values := Unique(e.typeNames), Unique(e.valueNames);
    if |values| > 0 && |types| > 0 then Import(false, values + TypeSpecifiers(types), mod)
    else if |values| > 0 then Import(false, values, mod)
    else Import(true, types, mod)
  }

  // The values come before the types, and each kind in the order of the file.
  lemma ImportLineOrder(mod: string, e: Entry, x: string, y: string)
    ensures x in e.valueNames && y in e.typeNames ==> InOrder(ImportLine(mod, e).names, x, "type " + y)
    ensures InOrder(Unique(e.valueNames), x, y) ==> InOrder(ImportLine(mod, e).names, x, y)
    ensures InOrder(Unique(e.typeNames), x, y) ==>
              var t := if e.valueNames == [] then "" else "type "; InOrder(ImportLine(mod, e).names, t + x, t + y)
  {
    var types, values := Unique(e.typeNames), Unique(e.valueNames);
    assert e.valueNames != [] ==> e.valueNames[0] in values;
    if x in e.valueNames && y in e.typeNames {
      var k :| 0 <= k < |types| && types[k] == y;
      assert TypeSpecifiers(types)[k] == "type " + y;
      OrderOfSum(values, TypeSpecifiers(types), x, "type " + y);
    }
    if InOrder(values, x, y) {
      OrderOfParts(values, TypeSpecifiers(types), x, y);
      assert values + TypeSpecifiers(types) == values || types != [];
    }
    if InOrder(types, x, y) {
      var a, b :| 0 <= a < b < |types| && types[a] == x && types[b] == y;
      var ts := TypeSpecifiers(types);
      assert ts[a] == "type " + x && ts[b] == "type " + y;
      OrderOfParts(ts, values, "type " + x, "type " + y);
      assert "" + x == x && "" + y == y;
    }
  }

  lemma OrderOfSum(u: seq<string>, v: seq<string>, x: string, y: string)
    requires x in u && y in v
    ensures InOrder(u + v, x, y)
  {
    var a :| 0 <= a < |u| && u[a] == x;
    var b :| 0 <= b < |v| && v[b] == y;
    assert (u + v)[a] == x && (u + v)[|u| + b] == y;
  }

  lemma OrderOfParts(u: seq<string>, v: seq<string>, x: string, y: string)
    requires InOrder(u, x, y)
    ensures InOrder(u + v, x, y) && InOrder(v + u, x, y)
  {
    var a, b :| 0 <= a < b < |u| && u[a] == x && u[b] == y;
    assert (u + v)[a] == x && (u + v)[b] == y;
    assert (v + u)[|v| + a] == x && (v + u)[|v| + b] == y;
  }

  // ----- What the merge should do -----

  function Mods(lines: seq<Line>): set<string> {
    set l | l in lines && l.Import? :: l.mod
  }

  // The names a module is imported with, over all lines.
  function NamesOf(lines: seq<Line>, mod: string, typeOnly: bool): seq<string> {
    if lines == [] then []
    else
      var l := lines[|lines| - 1];
      NamesOf(lines[..|lines| - 1], mod, typeOnly)
      + (if l.Import? && l.mod == mod && l.typeOnly == typeOnly then l.names else [])
  }

  function EntryOf(lines: seq<Line>, mod: string): Entry {
    Entry(NamesOf(lines, mod, true), NamesOf(lines, mod, false))
  }

  // The names of an earlier import come first.
  lemma {:induction false} NamesInFileOrder(lines: seq<Line>, i: nat, j: nat, x: string, y: string)
    requires i < j < |lines| && lines[i].Import? && lines[j].Import?
    requires lines[i].mod == lines[j].mod && lines[i].typeOnly == lines[j].typeOnly
    requires x in lines[i].names && y in lines[j].names
    ensures InOrder(NamesOf(lines, lines[i].mod, lines[i].typeOnly), x, y)
    decreases |lines|
  {
    var n, mod, typeOnly := |lines| - 1, lines[i].mod, lines[i].typeOnly;
    var before := NamesOf(lines[..n], mod, typeOnly);
    var last := NamesOf(lines, mod, typeOnly)[|before|..];
    assert NamesOf(lines, mod, typeOnly) == before + last;
    if j < n {
      NamesInFileOrder(lines[..n], i, j, x, y);
      OrderOfParts(before, last, x, y);
    } else {
      NamesOfEarlier(lines[..n], i, x);
      OrderOfSum(before, last, x, y);
    }
  }

  lemma {:induction false} NamesOfEarlier(lines: seq<Line>, i: nat, x: string)
    requires i < |lines| && lines[i].Import? && x in lines[i].names
    ensures x in NamesOf(lines, lines[i].mod, lines[i].typeOnly)
    decreases |lines|
  {
    if i < |lines| - 1 {
      NamesOfEarlier(lines[..|lines| - 1], i, x);
    }
  }

  // A file with its repeated imports left out: a slot for the first import of each module, and every
  // other line.
  datatype Slot = First(mod: string) | Text(text: string)

  function Skeleton(lines: seq<Line>): seq<Slot> {
    if lines == [] then []
    else
      var init, l := lines[..|lines| - 1], lines[|lines| - 1];
      Skeleton(init)
      + match l
        case Other(text) => [Text(text)]
        case Import(_, _, mod) => if mod in Mods(init) then [] else [First(mod)]
  }

  function SlotText(s: Slot): string {
    match s
    case First(mod) => PLACEHOLDER + mod
    case Text(text) => text
  }

  // A line of text that looks like a placeholder is taken for one; `None` is the TypeError when its
  // module was never imported.
  function Fill(lines: seq<Line>, s: Slot): Option<Line> {
    var text := SlotText(s);
    if PLACEHOLDER <= text then
      var mod := text[|PLACEHOLDER|..];
      if mod in Mods(lines) then Some(ImportLine(mod, EntryOf(lines, mod))) else None
    else Some(Other(text))
  }

  function FillAll(lines: seq<Line>, slots: seq<Slot>): Option<seq<Line>> {
    if slots == [] then Some([])
    else
      var init, last := FillAll(lines, slots[..|slots| - 1]), Fill(lines, slots[|slots| - 1]);
      if init.None? || last.None? then None else Some(init.value + [last.value])
  }

  function Merge(lines: seq<Line>): Option<seq<Line>> {
    FillAll(lines, Skeleton(lines))
  }

  function AddNames(e: Entry, typeOnly: bool, names: seq<string>): Entry {
    if typeOnly then e.(typeNames := e.typeNames + names) else e.(valueNames := e.valueNames + names)
  }

  function SlotTexts(slots: seq<Slot>): seq<string> {
    seq(|slots|, i requires 0 <= i < |slots| => SlotText(slots[i]))
  }

  ghost predicate Recorded(lines: seq<Line>, m: map<string, Entry>) {
    forall mod :: mod in m ==> m[mod] == EntryOf(lines, mod)
  }

  ghost predicate Collected(lines: seq<Line>, m: map<string, Entry>, seen: set<string>, texts: seq<string>) {
    m.Keys == seen == Mods(lines) && Recorded(lines, m) && texts == SlotTexts(Skeleton(lines))
  }

  lemma Extend(lines: seq<Line>, i: nat)
    requires i < |lines|
    ensures lines[..i + 1] == lines[..i] + [lines[i]]
    ensures lines[..i + 1][..i] == lines[..i]
    ensures Mods(lines[..i + 1]) == Mods(lines[..i]) + if lines[i].Import? then {lines[i].mod} else {}
  {
    var init, all := lines[..i], lines[..i + 1];
    assert all == init + [lines[i]];
    forall m ensures m in Mods(all) <==> m in Mods(init) || (lines[i].Import? && m == lines[i].mod) {
      if m in Mods(init) {
        var l :| l in init && l.Import? && l.mod == m;
        assert l in all;
      }
    }
  }

  lemma SkeletonStep(lines: seq<Line>, i: nat)
    requires i < |lines|
    ensures var texts := SlotTexts(Skeleton(lines[..i]));
            SlotTexts(Skeleton(lines[..i + 1])) ==
              match lines[i]
              case Other(text) => texts + [text]
              case Import(_, _, mod) => if mod in Mods(lines[..i]) then texts else texts + [PLACEHOLDER + mod]
  {
    Extend(lines, i);
  }

  lemma EntryStep(lines: seq<Line>, i: nat, mod: string)
    requires i < |lines|
    ensures var l, e := lines[i], EntryOf(lines[..i], mod);
            EntryOf(lines[..i + 1], mod) == if l.Import? && l.mod == mod then AddNames(e, l.typeOnly, l.names) else e
  {
    Extend(lines, i);
    var e := EntryOf(lines[..i], mod);
    assert e.typeNames + [] == e.typeNames && e.valueNames + [] == e.valueNames;
  }

  lemma {:induction false} AbsentNames(lines: seq<Line>, mod: string)
    requires mod !in Mods(lines)
    ensures EntryOf(lines, mod) == Entry([], [])
  {
    if lines != [] {
      Extend(lines, |lines| - 1);
      assert lines[..|lines|] == lines;
      AbsentNames(lines[..|lines| - 1], mod);
    }
  }

  lemma CollectOther(lines: seq<Line>, i: nat, m: map<string, Entry>, seen: set<string>, texts: seq<string>)
    requires i < |lines| && lines[i].Other? && Collected(lines[..i], m, seen, texts)
    ensures Collected(lines[..i + 1], m, seen, texts + [lines[i].text])
  {
    Extend(lines, i);
    SkeletonStep(lines, i);
    forall mod | mod in m ensures m[mod] == EntryOf(lines[..i + 1], mod) {
      EntryStep(lines, i, mod);
    }
  }

  lemma CollectImport(lines: seq<Line>, i: nat, m: map<string, Entry>, seen: set<string>, texts: seq<string>)
    requires i < |lines| && lines[i].Import? && Collected(lines[..i], m, seen, texts)
    ensures var Import(typeOnly, names, mod) := lines[i];
            var e := if mod in m then m[mod] else Entry([], []);
            Collected(lines[..i + 1], m[mod := AddNames(e, typeOnly, names)], seen + {mod},
                      if mod in seen then texts else texts + [PLACEHOLDER + mod])
  {
    var Import(typeOnly, names, mod) := lines[i];
    Extend(lines, i);
    SkeletonStep(lines, i);
    if mod !in m { AbsentNames(lines[..i], mod); }
    var m' := m[mod := AddNames(if mod in m then m[mod] else Entry([], []), typeOnly, names)];
    forall x | x in m' ensures m'[x] == EntryOf(lines[..i + 1], x) {
      EntryStep(lines, i, x);
    }
  }

  lemma {:induction false} NoFill(lines: seq<Line>, slots: seq<Slot>, i: nat)
    requires i < |slots| && Fill(lines, slots[i]) == None
    ensures FillAll(lines, slots) == None
    decreases |slots|
  {
    if i < |slots| - 1 {
      NoFill(lines, slots[..|slots| - 1], i);
    }
  }

  lemma FillLine(lines: seq<Line>, m: map<string, Entry>, s: Slot)
    requires m.Keys == Mods(lines) && Recorded(lines, m)
    ensures var line := SlotText(s);
            Fill(lines, s) ==
              if !(PLACEHOLDER <= line) then Some(Other(line))
              else if line[|PLACEHOLDER|..] !in m then None
              else Some(ImportLine(line[|PLACEHOLDER|..], m[line[|PLACEHOLDER|..]]))
  {
  }

  lemma FillNext(lines: seq<Line>, slots: seq<Slot>, i: nat, out: seq<Line>)
    requires i < |slots| && FillAll(lines, slots[..i]) == Some(out)
    ensures Fill(lines, slots[i]).Some? ==>
              FillAll(lines, slots[..i + 1]) == Some(out + [Fill(lines, slots[i]).value])
  {
    assert slots[..i + 1][..i] == slots[..i];
  }

  // ----- The code -----

  // The first loop: names by module, and the lines with placeholders for imports.
  method Collect(lines: seq<Line>) returns (importsByModule: map<string, Entry>, otherLines: seq<string>)
    ensures importsByModule.Keys == Mods(lines)
    ensures Recorded(lines, importsByModule)
    ensures otherLines == SlotTexts(Skeleton(lines))
  {
    importsByModule, otherLines := map[], [];
    var seenModules: set<string> := {};
    for i := 0 to |lines|
      invariant Collected(lines[..i], importsByModule, seenModules, otherLines)
    {
      match lines[i]
      case Other(text) =>
        CollectOther(lines, i, importsByModule, seenModules, otherLines);
        otherLines := otherLines + [text];
      case Import(typeOnly, names, mod) =>
        CollectImport(lines, i, importsByModule, seenModules, otherLines);
        var entry := Entry([], []);
        if mod in importsByModule {
          entry := importsByModule[mod];
        }
        importsByModule := importsByModule[mod := AddNames(entry, typeOnly, names)];
        if mod !in seenModules {
          seenModules := seenModules + {mod};
          otherLines := otherLines + [PLACEHOLDER + mod];
        }
    }
    assert lines[..|lines|] == lines;
  }

  method MergeDuplicateImports(lines: seq<Line>) returns (r: Option<seq<Line>>)
    ensures r == Merge(lines)
  {
    var importsByModule, otherLines := Collect(lines);
    ghost var slots := Skeleton(lines);
    var out: seq<Line> := [];
    for i := 0 to |otherLines|
      invariant FillAll(lines, slots[..i]) == Some(out)
    {
      var line := otherLines[i];
      FillLine(lines, importsByModule, slots[i]);
      FillNext(lines, slots, i, out);
      if PLACEHOLDER <= line {
        var mod := line[|PLACEHOLDER|..];
        if mod !in importsByModule {
          NoFill(lines, slots, i);
          return None;
        }
        out := out + [ImportLine(mod, importsByModule[mod])];
      } else {
        out := out + [Other(line)];
      }
    }
    assert slots[..|slots|] == slots;
    return Some(out);
  }

  // ----- Which slots there are -----

  lemma {:induction false} SkeletonTexts(lines: seq<Line>, text: string)
    ensures Text(text) in Skeleton(lines) <==> Other(text) in lines
  {
    if lines != [] {
      var i := |lines| - 1;
      SkeletonTexts(lines[..i], text);
      Extend(lines, i);
      assert lines[..|lines|] == lines;
    }
  }

  // Each imported module has one slot.
  lemma {:induction false} SkeletonFirsts(lines: seq<Line>)
    ensures forall mod :: First(mod) in Skeleton(lines) <==> mod in Mods(lines)
    ensures FirstsDistinct(Skeleton(lines))
  {
    if lines != [] {
      var i := |lines| - 1;
      SkeletonFirsts(lines[..i]);
      Extend(lines, i);
      assert lines[..|lines|] == lines;
    }
  }

  lemma {:induction false} FillAllPointwise(lines: seq<Line>, slots: seq<Slot>)
    ensures var r := FillAll(lines, slots);
            if r.Some? then
              |r.value| == |slots| && forall k :: 0 <= k < |slots| ==> Fill(lines, slots[k]) == Some(r.value[k])
            else exists k :: 0 <= k < |slots| && Fill(lines, slots[k]) == None
  {
    if slots != [] {
      var init, i := slots[..|slots| - 1], |slots| - 1;
      FillAllPointwise(lines, init);
      FillAllSnoc(init, slots[i], FillAll(lines, init), Fill(lines, slots[i]), s => Fill(lines, s));
      assert slots == init + [slots[i]];
    }
  }

  // What holds of the slots so far, and then of one more.
  lemma FillAllSnoc(init: seq<Slot>, s: Slot, r: Option<seq<Line>>, x: Option<Line>, fill: Slot -> Option<Line>)
    requires x == fill(s)
    requires if r.Some? then |r.value| == |init| && forall k :: 0 <= k < |init| ==> fill(init[k]) == Some(r.value[k])
             else exists k :: 0 <= k < |init| && fill(init[k]) == None
    ensures var slots := init + [s];
            if r.Some? && x.Some? then forall k :: 0 <= k < |slots| ==> fill(slots[k]) == Some((r.value + [x.value])[k])
            else exists k :: 0 <= k < |slots| && fill(slots[k]) == None
  {
    var slots := init + [s];
    assert slots[|init|] == s;
    if r.None? {
      var k :| 0 <= k < |init| && fill(init[k]) == None;
      assert slots[k] == init[k];
    }
  }

  // A line of text that would be taken for a placeholder.
  predicate Imposter(l: Line) {
    l.Other? && PLACEHOLDER <= l.text
  }

  // The merge throws exactly on a text line that looks like the placeholder of a module nobody imports.
  lemma MergeThrowsIff(lines: seq<Line>)
    ensures Merge(lines) == None <==>
              exists l :: l in lines && Imposter(l) && l.text[|PLACEHOLDER|..] !in Mods(lines)
  {
    var slots := Skeleton(lines);
    FillAllPointwise(lines, slots);
    SkeletonFirsts(lines);
    forall k | 0 <= k < |slots| && slots[k].First? ensures Fill(lines, slots[k]).Some? {
      assert slots[k] in slots && SlotText(slots[k])[|PLACEHOLDER|..] == slots[k].mod;
    }
    if Merge(lines) == None {
      var k :| 0 <= k < |slots| && Fill(lines, slots[k]) == None;
      SkeletonTexts(lines, slots[k].text);
      assert Imposter(Other(slots[k].text));
    }
    forall l | l in lines && Imposter(l) && l.text[|PLACEHOLDER|..] !in Mods(lines) ensures Merge(lines) == None {
      SkeletonTexts(lines, l.text);
      var k :| 0 <= k < |slots| && slots[k] == Text(l.text);
      assert Fill(lines, slots[k]) == None;
      NoFill(lines, slots, k);
    }
  }

  // ----- What the merge keeps -----

  ghost predicate Clean(lines: seq<Line>) {
    forall l :: l in lines ==> !Imposter(l)
  }

  function Filled(lines: seq<Line>, s: Slot): Line {
    match s
    case First(mod) => ImportLine(mod, EntryOf(lines, mod))
    case Text(text) => Other(text)
  }

  // The merged file, slot by slot.
  lemma MergeShape(lines: seq<Line>)
    requires Clean(lines)
    ensures var slots := Skeleton(lines);
            && Merge(lines).Some?
            && |Merge(lines).value| == |slots|
            && forall k :: 0 <= k < |slots| ==> Merge(lines).value[k] == Filled(lines, slots[k])
  {
    MergeThrowsIff(lines);
    var slots := Skeleton(lines);
    FillAllPointwise(lines, slots);
    SkeletonFirsts(lines);
    forall k | 0 <= k < |slots| ensures Merge(lines).value[k] == Filled(lines, slots[k]) {
      match slots[k]
      case First(mod) => assert SlotText(slots[k])[|PLACEHOLDER|..] == mod;
      case Text(text) =>
        assert slots[k] in slots;
        SkeletonTexts(lines, text);
        assert !Imposter(Other(text));
    }
  }

  // Line l stands for slot s.
  predicate Stands(l: Line, s: Slot) {
    match s
    case First(mod) => l.Import? && l.mod == mod
    case Text(text) => l == Other(text)
  }

  ghost predicate FirstsDistinct(slots: seq<Slot>) {
    forall i, j :: 0 <= i < j < |slots| && slots[i].First? ==> slots[i] != slots[j]
  }

  lemma {:induction false} StandingSkeleton(out: seq<Line>, slots: seq<Slot>)
    requires |out| == |slots| && FirstsDistinct(slots)
    requires forall k :: 0 <= k < |slots| ==> Stands(out[k], slots[k])
    ensures Skeleton(out) == slots
  {
    if out != [] {
      var n := |out| - 1;
      var init, slot := out[..n], slots[n];
      assert FirstsDistinct(slots[..n]);
      StandingSkeleton(init, slots[..n]);
      SkeletonFirsts(init);
      assert slots == slots[..n] + [slot];
      assert Stands(out[n], slot);
      if slot.First? {
        assert slot !in slots[..n];
        assert slot.mod !in Mods(init);
      }
    }
  }

  // One import line per module, where its first import was, and every other line in its place.
  lemma MergeKeepsSkeleton(lines: seq<Line>)
    requires Clean(lines)
    ensures Merge(lines).Some?
    ensures Skeleton(Merge(lines).value) == Skeleton(lines) && |Merge(lines).value| == |Skeleton(lines)|
    ensures Mods(Merge(lines).value) == Mods(lines)
  {
    MergeShape(lines);
    SkeletonFirsts(lines);
    StandingSkeleton(Merge(lines).value, Skeleton(lines));
    SkeletonFirsts(Merge(lines).value);
  }

  lemma {:induction false} SkeletonFits(lines: seq<Line>)
    ensures |Skeleton(lines)| <= |lines|
  {
    if lines != [] {
      SkeletonFits(lines[..|lines| - 1]);
    }
  }

  lemma {:induction false} SkeletonShorter(lines: seq<Line>, i: nat, j: nat)
    requires i < j < |lines| && lines[i].Import? && lines[j].Import? && lines[i].mod == lines[j].mod
    ensures |Skeleton(lines)| < |lines|
    decreases |lines|
  {
    var init := lines[..|lines| - 1];
    if j < |init| {
      SkeletonShorter(init, i, j);
    } else {
      SkeletonFits(init);
      assert init[i] in init && lines[j].mod in Mods(init);
    }
  }

  lemma MergedAt(lines: seq<Line>, s: Slot) returns (k: nat)
    requires Merge(lines).Some? && s in Skeleton(lines)
    ensures |Merge(lines).value| == |Skeleton(lines)|
    ensures k < |Skeleton(lines)| && Skeleton(lines)[k] == s && Fill(lines, s) == Some(Merge(lines).value[k])
  {
    FillAllPointwise(lines, Skeleton(lines));
    k :| 0 <= k < |Skeleton(lines)| && Skeleton(lines)[k] == s;
  }

  lemma FillFirst(lines: seq<Line>, mod: string)
    requires mod in Mods(lines)
    ensures Fill(lines, First(mod)) == Some(ImportLine(mod, EntryOf(lines, mod)))
  {
    assert SlotText(First(mod))[|PLACEHOLDER|..] == mod;
  }

  lemma FirstLine(lines: seq<Line>, mod: string) returns (k: nat)
    requires Merge(lines).Some? && mod in Mods(lines)
    ensures k < |Merge(lines).value| == |Skeleton(lines)| && Skeleton(lines)[k] == First(mod)
    ensures Stands(Merge(lines).value[k], First(mod))
  {
    SkeletonFirsts(lines);
    k := MergedAt(lines, First(mod));
    FillFirst(lines, mod);
  }

  lemma ImposterLine(lines: seq<Line>, l: Line) returns (k: nat)
    requires Merge(lines).Some? && l in lines && Imposter(l)
    ensures l.text[|PLACEHOLDER|..] in Mods(lines)
    ensures k < |Merge(lines).value| == |Skeleton(lines)| && Skeleton(lines)[k] == Text(l.text)
    ensures Stands(Merge(lines).value[k], First(l.text[|PLACEHOLDER|..]))
  {
    MergeThrowsIff(lines);
    SkeletonTexts(lines, l.text);
    k := MergedAt(lines, Text(l.text));
    FillsImposter(lines, l.text);
  }

  lemma FillsImposter(lines: seq<Line>, text: string)
    requires PLACEHOLDER <= text && text[|PLACEHOLDER|..] in Mods(lines)
    ensures Fill(lines, Text(text)).Some? && Stands(Fill(lines, Text(text)).value, First(text[|PLACEHOLDER|..]))
  {
  }

  // A text line that looks like a placeholder becomes a second import line of its module.
  lemma ImposterRepeats(lines: seq<Line>)
    requires Merge(lines).Some? && !Clean(lines)
    ensures |Merge(lines).value| == |Skeleton(lines)|
    ensures |Skeleton(Merge(lines).value)| < |Merge(lines).value|
  {
    var l :| l in lines && Imposter(l);
    var j := ImposterLine(lines, l);
    var i := FirstLine(lines, l.text[|PLACEHOLDER|..]);
    SkeletonShorter(Merge(lines).value, if i < j then i else j, if i < j then j else i);
  }

  // The merged file has the shape of the file exactly when no text line looks like a placeholder.
  lemma SkeletonKeptIff(lines: seq<Line>)
    requires Merge(lines).Some?
    ensures Skeleton(Merge(lines).value) == Skeleton(lines) <==> Clean(lines)
  {
    if Clean(lines) {
      MergeKeepsSkeleton(lines);
    } else {
      ImposterRepeats(lines);
    }
  }

  lemma MergeKeepsClean(lines: seq<Line>)
    requires Clean(lines) && Merge(lines).Some?
    ensures Clean(Merge(lines).value)
  {
    MergeShape(lines);
    var out, slots := Merge(lines).value, Skeleton(lines);
    forall k | 0 <= k < |out| ensures !Imposter(out[k]) {
      if slots[k].Text? {
        assert slots[k] in slots;
        SkeletonTexts(lines, slots[k].text);
      }
    }
  }

  // ----- The bindings an import makes -----

  // Import line l binds name as a type or as a value; `type X` in a value import binds X as a type.
  predicate LineBinds(l: Line, name: string, asType: bool) {
    l.Import?
    && if l.typeOnly then asType && name in l.names
       else if asType then "type " + name in l.names
       else name in l.names && !("type " <= name)
  }

  ghost predicate Binds(lines: seq<Line>, mod: string, name: string, asType: bool) {
    exists l :: l in lines && l.Import? && l.mod == mod && LineBinds(l, name, asType)
  }

  lemma {:induction false} NamesOfMembers(lines: seq<Line>, mod: string, typeOnly: bool, name: string)
    ensures name in NamesOf(lines, mod, typeOnly) <==>
              exists l :: l in lines && l.Import? && l.mod == mod && l.typeOnly == typeOnly && name in l.names
  {
    if lines != [] {
      var i := |lines| - 1;
      NamesOfMembers(lines[..i], mod, typeOnly, name);
      assert lines == lines[..i] + [lines[i]];
    }
  }

  lemma SpecifierMembers(types: seq<string>, name: string)
    ensures "type " + name in TypeSpecifiers(types) <==> name in types
    ensures name in TypeSpecifiers(types) ==> "type " <= name
  {
    if name in types {
      var k :| 0 <= k < |types| && types[k] == name;
      assert TypeSpecifiers(types)[k] == "type " + name;
    }
    forall k | 0 <= k < |types| && TypeSpecifiers(types)[k] == "type " + name ensures types[k] == name {
      assert ("type " + types[k])[5..] == types[k] && ("type " + name)[5..] == name;
    }
  }

  // The bindings of one module, before and after.
  lemma ImportLineBinds(lines: seq<Line>, mod: string, name: string, asType: bool)
    ensures LineBinds(ImportLine(mod, EntryOf(lines, mod)), name, asType) <==> Binds(lines, mod, name, asType)
  {
    var e := EntryOf(lines, mod);
    var types, values := Unique(e.typeNames), Unique(e.valueNames);
    SpecifierMembers(types, name);
    NamesOfMembers(lines, mod, true, name);
    NamesOfMembers(lines, mod, false, name);
    NamesOfMembers(lines, mod, false, "type " + name);
    assert types == [] ==> name !in types;
    assert values == [] ==> name !in values && "type " + name !in values;
    assert LineBinds(ImportLine(mod, e), name, asType) <==>
             if asType then name in types || "type " + name in values else name in values && !("type " <= name);
  }

  lemma FilledImport(lines: seq<Line>, s: Slot)
    requires Fill(lines, s).Some? && Fill(lines, s).value.Import?
    ensures var l := Fill(lines, s).value; l.mod in Mods(lines) && l == ImportLine(l.mod, EntryOf(lines, l.mod))
  {
  }

  lemma MergedImport(lines: seq<Line>, l: Line)
    requires Merge(lines).Some? && l in Merge(lines).value && l.Import?
    ensures l.mod in Mods(lines) && l == ImportLine(l.mod, EntryOf(lines, l.mod))
  {
    FillAllPointwise(lines, Skeleton(lines));
    var k :| 0 <= k < |Merge(lines).value| && Merge(lines).value[k] == l;
    FilledImport(lines, Skeleton(lines)[k]);
  }

  // Placeholder or not, the imports of the merged file are one module's merged line each.
  lemma MergedImports(lines: seq<Line>)
    requires Merge(lines).Some?
    ensures forall l :: l in Merge(lines).value && l.Import? ==>
              l.mod in Mods(lines) && l == ImportLine(l.mod, EntryOf(lines, l.mod))
    ensures forall mod :: mod in Mods(lines) ==> ImportLine(mod, EntryOf(lines, mod)) in Merge(lines).value
  {
    forall l | l in Merge(lines).value && l.Import?
      ensures l.mod in Mods(lines) && l == ImportLine(l.mod, EntryOf(lines, l.mod))
    {
      MergedImport(lines, l);
    }
    SkeletonFirsts(lines);
    forall mod | mod in Mods(lines) ensures ImportLine(mod, EntryOf(lines, mod)) in Merge(lines).value {
      var k := MergedAt(lines, First(mod));
      FillFirst(lines, mod);
    }
  }

  // The merged file imports exactly what the file imported: the same names from the same modules, as
  // types or as values.
  lemma MergeKeepsBindings(lines: seq<Line>, mod: string, name: string, asType: bool)
    requires Merge(lines).Some?
    ensures Binds(Merge(lines).value, mod, name, asType) <==> Binds(lines, mod, name, asType)
  {
    MergedImports(lines);
    ImportLineBinds(lines, mod, name, asType);
    if Binds(lines, mod, name, asType) {
      assert mod in Mods(lines);
      assert Merge(lines).value != [];
    }
  }

  // ----- Merging again -----

  // In some module a name is imported as a type and also written `type name` in a value import.
  ghost predicate Clash(lines: seq<Line>, mod: string) {
    exists t :: t in NamesOf(lines, mod, true) && "type " + t in NamesOf(lines, mod, false)
  }

  lemma {:induction false} LoneImport(out: seq<Line>, k: nat)
    requires k < |out| && out[k].Import?
    requires forall i :: 0 <= i < |out| && i != k && out[i].Import? ==> out[i].mod != out[k].mod
    ensures forall t :: NamesOf(out, out[k].mod, t) == if out[k].typeOnly == t then out[k].names else []
    decreases |out|
  {
    var n := |out| - 1;
    if k < n {
      LoneImport(out[..n], k);
    } else {
      forall t ensures NamesOf(out[..n], out[k].mod, t) == [] {
        assert out[k].mod !in Mods(out[..n]);
        AbsentNames(out[..n], out[k].mod);
        assert EntryOf(out[..n], out[k].mod) == Entry([], []);
      }
    }
  }

  lemma MergedLineStable(lines: seq<Line>, mod: string)
    ensures var l := ImportLine(mod, EntryOf(lines, mod));
            var e := if l.typeOnly then Entry(l.names, []) else Entry([], l.names);
            ImportLine(mod, e) == l <==> !Clash(lines, mod)
  {
    var e := EntryOf(lines, mod);
    var types, values := Unique(e.typeNames), Unique(e.valueNames);
    var specs := TypeSpecifiers(types);
    forall t ensures "type " + t in specs <==> t in types {
      SpecifierMembers(types, t);
    }
    var l := ImportLine(mod, e);
    if |values| > 0 && |types| > 0 {
      assert l.names == values + specs;
      MixedNamesDistinct(values, types);
      assert Unique(l.names) == l.names <==> NoDuplicates(l.names);
      assert l.names != [] && Unique(l.names) != [] by { assert l.names[0] in Unique(l.names); }
    } else {
      assert NoDuplicates(l.names);
      assert types == [] || values == [];
      assert !Clash(lines, mod) by {
        assert types == [] ==> forall t :: t !in types;
        assert values == [] ==> forall t :: t !in values;
      }
    }
  }

  lemma MixedNamesDistinct(values: seq<string>, types: seq<string>)
    requires NoDuplicates(values) && NoDuplicates(types)
    ensures NoDuplicates(values + TypeSpecifiers(types)) <==> !exists t :: t in types && "type " + t in values
  {
    var specs := TypeSpecifiers(types);
    var all := values + specs;
    forall i, j | 0 <= i < j < |specs| ensures specs[i] != specs[j] {
      assert specs[i][5..] == types[i] && specs[j][5..] == types[j];
    }
    if exists t :: t in types && "type " + t in values {
      var t :| t in types && "type " + t in values;
      var i :| 0 <= i < |values| && values[i] == "type " + t;
      var j :| 0 <= j < |types| && types[j] == t;
      assert all[i] == all[|values| + j];
    } else {
      forall i, j | 0 <= i < j < |all| ensures all[i] != all[j] {
        if i < |values| <= j {
          assert all[j] == "type " + types[j - |values|];
        }
      }
    }
  }

  // An import of the merged file is the only one of its module.
  lemma MergedEntry(lines: seq<Line>, k: nat)
    requires Clean(lines) && k < |Skeleton(lines)| && Skeleton(lines)[k].First?
    ensures Merge(lines).Some? && k < |Merge(lines).value| && Merge(lines).value[k].Import?
    ensures var out := Merge(lines).value;
            EntryOf(out, Skeleton(lines)[k].mod) ==
              if out[k].typeOnly then Entry(out[k].names, []) else Entry([], out[k].names)
  {
    MergeShape(lines);
    SkeletonFirsts(lines);
    var out, slots := Merge(lines).value, Skeleton(lines);
    forall i | 0 <= i < |out| && i != k && out[i].Import? ensures out[i].mod != out[k].mod {
      assert slots[i].First? && slots[i] != slots[k];
    }
    LoneImport(out, k);
  }

  ghost predicate SameAgain(lines: seq<Line>, k: nat) {
    && Merge(lines).Some? && Merge(Merge(lines).value).Some?
    && k < |Merge(lines).value| && k < |Merge(Merge(lines).value).value|
    && Merge(Merge(lines).value).value[k] == Merge(lines).value[k]
  }

  ghost predicate ClashAt(lines: seq<Line>, k: nat) {
    k < |Skeleton(lines)| && Skeleton(lines)[k].First? && Clash(lines, Skeleton(lines)[k].mod)
  }

  lemma MergedLineAgain(lines: seq<Line>, k: nat)
    requires Clean(lines) && k < |Skeleton(lines)|
    ensures SameAgain(lines, k) <==> !ClashAt(lines, k)
  {
    MergeShape(lines);
    MergeKeepsSkeleton(lines);
    MergeKeepsClean(lines);
    MergeShape(Merge(lines).value);
    if Skeleton(lines)[k].First? {
      MergedEntry(lines, k);
      MergedLineStable(lines, Skeleton(lines)[k].mod);
    }
  }

  lemma SameAgainEverywhere(lines: seq<Line>)
    requires Clean(lines) && Merge(lines).Some?
    ensures Merge(Merge(lines).value) == Merge(lines) <==>
              forall k :: 0 <= k < |Skeleton(lines)| ==> SameAgain(lines, k)
  {
    MergeKeepsSkeleton(lines);
    MergeKeepsClean(lines);
    var out := Merge(lines).value;
    MergeKeepsSkeleton(out);
    var again := Merge(out).value;
    if forall k :: 0 <= k < |Skeleton(lines)| ==> SameAgain(lines, k) {
      forall k | 0 <= k < |out| ensures again[k] == out[k] {
        assert SameAgain(lines, k);
      }
      assert again == out;
    }
  }

  lemma NoClashEverywhere(lines: seq<Line>)
    ensures (exists mod :: mod in Mods(lines) && Clash(lines, mod)) <==> exists k: nat :: ClashAt(lines, k)
  {
    SkeletonFirsts(lines);
    var slots := Skeleton(lines);
    if mod :| mod in Mods(lines) && Clash(lines, mod) {
      assert First(mod) in slots;
      var k :| 0 <= k < |slots| && slots[k] == First(mod);
      assert ClashAt(lines, k);
    }
    if k: nat :| ClashAt(lines, k) {
      assert First(slots[k].mod) in slots;
    }
  }

  lemma CleanMergeIdempotentIff(lines: seq<Line>)
    requires Clean(lines) && Merge(lines).Some?
    ensures Merge(Merge(lines).value) == Merge(lines) <==> forall mod :: mod in Mods(lines) ==> !Clash(lines, mod)
  {
    SameAgainEverywhere(lines);
    NoClashEverywhere(lines);
    forall k | 0 <= k < |Skeleton(lines)| ensures SameAgain(lines, k) <==> !ClashAt(lines, k) {
      MergedLineAgain(lines, k);
    }
  }

  // Merging the merged file changes nothing, exactly when no text line looks like a placeholder and no
  // module has a clash.
  lemma MergeIdempotentIff(lines: seq<Line>)
    requires Merge(lines).Some?
    ensures Merge(Merge(lines).value) == Merge(lines) <==>
              Clean(lines) && forall mod :: mod in Mods(lines) ==> !Clash(lines, mod)
  {
    if Clean(lines) {
      CleanMergeIdempotentIff(lines);
    } else {
      ImposterRepeats(lines);
      FillAllPointwise(Merge(lines).value, Skeleton(Merge(lines).value));
    }
  }

  // A file with one import, hence without a clash, that changes its shape when it is merged and changes
  // again when it is merged again.
  lemma ImposterIsNotIdempotent()
    ensures var lines := [Import(false, ["A"], "m"), Other(PLACEHOLDER + "m")];
            && Merge(lines).Some? && (forall mod :: !Clash(lines, mod))
            && Skeleton(Merge(lines).value) != Skeleton(lines)
            && Merge(Merge(lines).value) != Merge(lines)
  {
    var lines := [Import(false, ["A"], "m"), Other(PLACEHOLDER + "m")];
    assert lines[0] in lines && lines[1] in lines;
    assert lines[1].text[|PLACEHOLDER|..] == "m" && "m" in Mods(lines);
    MergeThrowsIff(lines);
    forall mod, t ensures t !in NamesOf(lines, mod, true) {
      NamesOfMembers(lines, mod, true, t);
    }
    SkeletonKeptIff(lines);
    MergeIdempotentIff(lines);
  }
}
