/**
 * `safeToString` of the forked extension host: console arguments are stringified with one list of
 * objects seen so far, shared by the whole walk. On an object graph this is a depth-first search.
 */
module SafeToString {
  import opened Common

  type Ref = nat

  // Primitives carry their JSON text. `Absent` stands for undefined, functions and symbols, `BigInt`
  // for values the serializer throws on. Dates and regular expressions are not tracked by the walk and
  // serialize to a fixed text.
  datatype Val = Prim(text: string) | Absent | BigInt | Obj(ref: Ref)

  datatype Node = Object(fields: seq<(string, Val)>) | Array(elems: seq<Val>)

  type Heap = map<Ref, Node>

  datatype Json =
    | JText(text: string)
    | JCircular
    | JObject(keys: seq<string>, values: seq<Json>)
    | JArray(values: seq<Json>)

  // ----- The graph -----

  // The property values of a node, in order; `JSON.stringify` skips absent fields of an object.
  function Slots(n: Node): seq<Val> {
    match n
    case Array(elems) => elems
    case Object(fields) => Values(Present(fields))
  }

  function Present(fields: seq<(string, Val)>): seq<(string, Val)> {
    if fields == [] then []
    else
      var last := fields[|fields| - 1];
      Present(fields[..|fields| - 1]) + if last.1.Absent? then [] else [last]
  }

  function Values(fields: seq<(string, Val)>): seq<Val> {
    seq(|fields|, i requires 0 <= i < |fields| => fields[i].1)
  }

  function Keys(n: Node): seq<string> {
    match n
    case Array(_) => []
    case Object(fields) =>
      var p := Present(fields);
      seq(|p|, i requires 0 <= i < |p| => p[i].0)
  }

  // ----- What the slots are, on the nodes themselves -----

  // A field or an element.
  ghost predicate HasVal(n: Node, v: Val) {
    match n
    case Array(elems) => exists i :: 0 <= i < |elems| && elems[i] == v
    case Object(fields) => exists i :: 0 <= i < |fields| && fields[i].1 == v
  }

  predicate Increasing(ix: seq<nat>, size: nat) {
    && (forall k :: 0 <= k < |ix| ==> ix[k] < size)
    && (forall j, k :: 0 <= j < k < |ix| ==> ix[j] < ix[k])
  }

  function PresentAt(fields: seq<(string, Val)>): seq<nat> {
    if fields == [] then []
    else
      var n := |fields| - 1;
      PresentAt(fields[..n]) + if fields[n].1.Absent? then [] else [n]
  }

  lemma {:induction false} PresentAtPicks(fields: seq<(string, Val)>)
    ensures var ix := PresentAt(fields);
            && Increasing(ix, |fields|) && |Present(fields)| == |ix|
            && forall k :: 0 <= k < |ix| ==> Present(fields)[k] == fields[ix[k]]
  {
    if fields != [] {
      PresentAtPicks(fields[..|fields| - 1]);
    }
  }

  lemma {:induction false} PresentAtMembers(fields: seq<(string, Val)>, i: nat)
    ensures i in PresentAt(fields) <==> i < |fields| && !fields[i].1.Absent?
  {
    if fields != [] {
      PresentAtMembers(fields[..|fields| - 1], i);
    }
  }

  // The slots of an array are its elements. Those of an object are the values of exactly the fields that
  // are not absent, in order, each under the name of its field.
  lemma SlotsMean(n: Node)
    ensures n.Array? ==> Slots(n) == n.elems
    ensures n.Object? ==> exists ix: seq<nat> ::
              && Increasing(ix, |n.fields|) && |Slots(n)| == |Keys(n)| == |ix|
              && (forall i: nat :: i in ix <==> i < |n.fields| && !n.fields[i].1.Absent?)
              && forall k :: 0 <= k < |ix| ==> (Keys(n)[k], Slots(n)[k]) == n.fields[ix[k]]
  {
    if n.Object? {
      PresentAtPicks(n.fields);
      forall i: nat ensures i in PresentAt(n.fields) <==> i < |n.fields| && !n.fields[i].1.Absent? {
        PresentAtMembers(n.fields, i);
      }
    }
  }

  lemma SlotsHave(n: Node, v: Val)
    requires !v.Absent?
    ensures v in Slots(n) <==> HasVal(n, v)
  {
    if n.Object? {
      var ix := PresentAt(n.fields);
      PresentAtPicks(n.fields);
      if HasVal(n, v) {
        var i :| 0 <= i < |n.fields| && n.fields[i].1 == v;
        PresentAtMembers(n.fields, i);
        var k :| 0 <= k < |ix| && ix[k] == i;
        assert Slots(n)[k] == v;
      }
      if v in Slots(n) {
        var k :| 0 <= k < |Slots(n)| && Slots(n)[k] == v;
        assert n.fields[ix[k]].1 == v;
      }
    }
  }

  ghost predicate Closed(h: Heap) {
    forall r, v :: r in h && v in Slots(h[r]) && v.Obj? ==> v.ref in h
  }

  ghost predicate Edge(h: Heap, a: Ref, b: Ref) {
    a in h && Obj(b) in Slots(h[a])
  }

  ghost predicate Path(h: Heap, p: seq<Ref>) {
    forall i :: 0 <= i < |p| - 1 ==> Edge(h, p[i], p[i + 1])
  }

  ghost predicate Connects(h: Heap, a: Ref, p: seq<Ref>, b: Ref) {
    p != [] && p[0] == a && p[|p| - 1] == b && Path(h, p)
  }

  ghost predicate Reachable(h: Heap, a: Ref, b: Ref) {
    exists p :: Connects(h, a, p, b)
  }

  // The graph is that of the fields and elements.
  lemma GraphMeans(h: Heap)
    ensures forall a, b :: Edge(h, a, b) <==> a in h && HasVal(h[a], Obj(b))
    ensures Closed(h) <==> forall a, b :: a in h && HasVal(h[a], Obj(b)) ==> b in h
  {
    forall a, b ensures Edge(h, a, b) <==> a in h && HasVal(h[a], Obj(b)) {
      if a in h { SlotsHave(h[a], Obj(b)); }
    }
    if forall a, b :: a in h && HasVal(h[a], Obj(b)) ==> b in h {
      forall r, v | r in h && v in Slots(h[r]) && v.Obj? ensures v.ref in h { SlotsHave(h[r], v); }
    }
    if Closed(h) {
      forall a, b | a in h && HasVal(h[a], Obj(b)) ensures b in h { SlotsHave(h[a], Obj(b)); }
    }
  }

  // ----- The walk -----

  datatype Walked<T> = Threw | Walked(out: T, seen: seq<Ref>)

  ghost function Unseen(h: Heap, seen: seq<Ref>): set<Ref> {
    set r | r in h && r !in seen
  }

  lemma SubsetSize<T>(a: set<T>, b: set<T>)
    requires a <= b
    ensures |a| <= |b|
  {
    if a != {} {
      var x :| x in a;
      SubsetSize(a - {x}, b - {x});
    }
  }

  lemma MoreSeen(h: Heap, seen: seq<Ref>, seen': seq<Ref>)
    requires seen <= seen'
    ensures |Unseen(h, seen')| <= |Unseen(h, seen)|
    ensures forall r :: r in h && r !in seen && r in seen' ==> |Unseen(h, seen')| < |Unseen(h, seen)|
  {
    SubsetSize(Unseen(h, seen'), Unseen(h, seen));
    forall r | r in h && r !in seen && r in seen' ensures |Unseen(h, seen')| < |Unseen(h, seen)| {
      SubsetSize(Unseen(h, seen'), Unseen(h, seen) - {r});
    }
  }

  // The replacer, then the serializer on what it returned.
  ghost function Visit(h: Heap, v: Val, seen: seq<Ref>): (w: Walked<Json>)
    requires Closed(h) && (v.Obj? ==> v.ref in h)
    ensures w.Walked? ==> seen <= w.seen
    decreases |Unseen(h, seen)|, 0, 0
  {
    match v
    case Prim(text) => Walked(JText(text), seen)
    case Absent => Walked(JText("null"), seen)
    case BigInt => Threw
    case Obj(r) =>
      if r in seen then Walked(JCircular, seen)
      else
        MoreSeen(h, seen, seen + [r]);
        match VisitAll(h, Slots(h[r]), seen + [r])
        case Threw => Threw
        case Walked(outs, seen') => Walked(if h[r].Array? then JArray(outs) else JObject(Keys(h[r]), outs), seen')
  }

  ghost function VisitAll(h: Heap, vs: seq<Val>, seen: seq<Ref>): (w: Walked<seq<Json>>)
    requires Closed(h) && forall v :: v in vs && v.Obj? ==> v.ref in h
    ensures w.Walked? ==> seen <= w.seen && |w.out| == |vs|
    decreases |Unseen(h, seen)|, 1, |vs|
  {
    if vs == [] then Walked([], seen)
    else match Visit(h, vs[0], seen)
      case Threw => Threw
      case Walked(out, seen') =>
        MoreSeen(h, seen, seen');
        match VisitAll(h, vs[1..], seen')
        case Threw => Threw
        case Walked(outs, seen'') => Walked([out] + outs, seen'')
  }

  ghost function Resume(outs: seq<Json>, w: Walked<seq<Json>>): Walked<seq<Json>> {
    if w.Threw? then Threw else w.(out := outs + w.out)
  }

  lemma ResumeResume(outs: seq<Json>, out: Json, w: Walked<seq<Json>>)
    ensures Resume(outs, Resume([out], w)) == Resume(outs + [out], w)
  {
    if w.Walked? {
      assert outs + ([out] + w.out) == outs + [out] + w.out;
    }
  }

  lemma ResumeNil(w: Walked<seq<Json>>)
    ensures Resume([], w) == w
  {
    if w.Walked? {
      assert [] + w.out == w.out;
    }
  }

  // ----- The code -----

  class Stringifier {
    const heap: Heap
    var seen: seq<Ref>

    constructor (heap: Heap)
      ensures this.heap == heap && seen == []
    {
      this.heap, seen := heap, [];
    }

    method Serialize(v: Val) returns (out: Option<Json>)
      requires Closed(heap) && (v.Obj? ==> v.ref in heap)
      modifies this
      ensures Visit(heap, v, old(seen)) == if out.Some? then Walked(out.value, seen) else Threw
      decreases |Unseen(heap, seen)|, 0
    {
      match v
      case Prim(text) => out := Some(JText(text));
      case Absent => out := Some(JText("null"));
      case BigInt => out := None;
      case Obj(r) =>
        if r in seen {
          return Some(JCircular);
        }
        ghost var before := seen;
        seen := seen + [r];
        MoreSeen(heap, before, seen);
        var node := heap[r];
        var slots := Slots(node);
        var outs: seq<Json> := [];
        var i := 0;
        ghost var start := seen;
        assert slots[0..] == slots;
        ResumeNil(VisitAll(heap, slots, seen));
        while i < |slots|
          invariant 0 <= i <= |slots|
          invariant before + [r] == start <= seen
          invariant VisitAll(heap, slots, start) == Resume(outs, VisitAll(heap, slots[i..], seen))
        {
          MoreSeen(heap, start, seen);
          assert slots[i..][1..] == slots[i + 1..];
          var o := Serialize(slots[i]);
          if o.None? {
            return None;
          }
          ResumeResume(outs, o.value, VisitAll(heap, slots[i + 1..], seen));
          outs, i := outs + [o.value], i + 1;
        }
        assert outs + [] == outs;
        out := Some(if node.Array? then JArray(outs) else JObject(Keys(node), outs));
    }
  }

  // ----- Soundness: only what the root reaches is expanded -----

  ghost predicate AllReachable(h: Heap, root: Ref, rs: seq<Ref>) {
    forall r :: r in rs ==> Reachable(h, root, r)
  }

  ghost predicate SlotsReachable(h: Heap, root: Ref, vs: seq<Val>) {
    forall v :: v in vs && v.Obj? ==> Reachable(h, root, v.ref)
  }

  lemma ReachableSlots(h: Heap, root: Ref, r: Ref)
    requires Reachable(h, root, r) && r in h
    ensures SlotsReachable(h, root, Slots(h[r]))
  {
    var p :| Connects(h, root, p, r);
    forall v | v in Slots(h[r]) && v.Obj? ensures Reachable(h, root, v.ref) {
      var q := p + [v.ref];
      assert Edge(h, r, v.ref);
      assert Path(h, q) by {
        forall i | 0 <= i < |q| - 1 ensures Edge(h, q[i], q[i + 1]) {
          if i < |p| - 1 { assert Edge(h, p[i], p[i + 1]); }
        }
      }
      assert Connects(h, root, q, v.ref);
    }
  }

  ghost predicate ReachesBigInt(h: Heap, root: Ref) {
    exists r :: r in h && Reachable(h, root, r) && BigInt in Slots(h[r])
  }

  lemma ReachesBigIntMeans(h: Heap, root: Ref)
    ensures ReachesBigInt(h, root) <==> exists r :: r in h && Reachable(h, root, r) && HasVal(h[r], BigInt)
  {
    forall r | r in h ensures BigInt in Slots(h[r]) <==> HasVal(h[r], BigInt) {
      SlotsHave(h[r], BigInt);
    }
  }

  lemma {:induction false} VisitSound(h: Heap, root: Ref, v: Val, seen: seq<Ref>)
    requires Closed(h) && (v.Obj? ==> v.ref in h && Reachable(h, root, v.ref)) && AllReachable(h, root, seen)
    ensures var w := Visit(h, v, seen);
            if w.Walked? then AllReachable(h, root, w.seen) else v == BigInt || ReachesBigInt(h, root)
    decreases |Unseen(h, seen)|, 0, 0
  {
    if v.Obj? && v.ref !in seen {
      MoreSeen(h, seen, seen + [v.ref]);
      ReachableSlots(h, root, v.ref);
      VisitAllSound(h, root, Slots(h[v.ref]), seen + [v.ref]);
    }
  }

  lemma {:induction false} VisitAllSound(h: Heap, root: Ref, vs: seq<Val>, seen: seq<Ref>)
    requires Closed(h) && forall v :: v in vs && v.Obj? ==> v.ref in h
    requires SlotsReachable(h, root, vs) && AllReachable(h, root, seen)
    ensures var w := VisitAll(h, vs, seen);
            if w.Walked? then AllReachable(h, root, w.seen) else BigInt in vs || ReachesBigInt(h, root)
    decreases |Unseen(h, seen)|, 1, |vs|
  {
    if vs != [] {
      VisitSound(h, root, vs[0], seen);
      var w := Visit(h, vs[0], seen);
      if w.Walked? {
        MoreSeen(h, seen, w.seen);
        VisitAllSound(h, root, vs[1..], w.seen);
      }
    }
  }

  // ----- Completeness: everything the root reaches is expanded, once -----

  // Every slot of r is serializable and leads into s.
  ghost predicate Covered(h: Heap, r: Ref, s: seq<Ref>) {
    r in h && forall v :: v in Slots(h[r]) ==> v != BigInt && (v.Obj? ==> v.ref in s)
  }

  ghost predicate NewCovered(h: Heap, seen: seq<Ref>, seen': seq<Ref>) {
    forall r :: r in seen' && r !in seen ==> Covered(h, r, seen')
  }

  lemma {:induction false} VisitComplete(h: Heap, v: Val, seen: seq<Ref>)
    requires Closed(h) && (v.Obj? ==> v.ref in h) && Visit(h, v, seen).Walked?
    ensures v != BigInt && (v.Obj? ==> v.ref in Visit(h, v, seen).seen)
    ensures NewCovered(h, seen, Visit(h, v, seen).seen)
    ensures NoDuplicates(seen) ==> NoDuplicates(Visit(h, v, seen).seen)
    decreases |Unseen(h, seen)|, 0, 0
  {
    if v.Obj? && v.ref !in seen {
      MoreSeen(h, seen, seen + [v.ref]);
      VisitAllComplete(h, Slots(h[v.ref]), seen + [v.ref]);
      var seen' := Visit(h, v, seen).seen;
      assert seen'[|seen|] == v.ref;
      forall r | r in seen' && r !in seen ensures Covered(h, r, seen') {
        if r != v.ref { assert r !in seen + [v.ref]; }
      }
    }
  }

  lemma {:induction false} VisitAllComplete(h: Heap, vs: seq<Val>, seen: seq<Ref>)
    requires Closed(h) && forall v :: v in vs && v.Obj? ==> v.ref in h
    requires VisitAll(h, vs, seen).Walked?
    ensures forall v :: v in vs ==> v != BigInt && (v.Obj? ==> v.ref in VisitAll(h, vs, seen).seen)
    ensures NewCovered(h, seen, VisitAll(h, vs, seen).seen)
    ensures NoDuplicates(seen) ==> NoDuplicates(VisitAll(h, vs, seen).seen)
    decreases |Unseen(h, seen)|, 1, |vs|
  {
    if vs != [] {
      var seen' := Visit(h, vs[0], seen).seen;
      VisitComplete(h, vs[0], seen);
      MoreSeen(h, seen, seen');
      VisitAllComplete(h, vs[1..], seen');
      var seen'' := VisitAll(h, vs[1..], seen').seen;
      forall r | r in seen'' && r !in seen ensures Covered(h, r, seen'') {
        if r in seen' { assert Covered(h, r, seen'); }
      }
    }
  }

  lemma {:induction false} CoveredPath(h: Heap, s: seq<Ref>, p: seq<Ref>)
    requires p != [] && p[0] in s && Path(h, p) && NewCovered(h, [], s)
    ensures p[|p| - 1] in s
    decreases |p|
  {
    if |p| > 1 {
      assert Edge(h, p[0], p[1]) && Covered(h, p[0], s);
      assert Path(h, p[1..]) by {
        forall i | 0 <= i < |p[1..]| - 1 ensures Edge(h, p[1..][i], p[1..][i + 1]) {
          assert Edge(h, p[i + 1], p[i + 2]);
        }
      }
      CoveredPath(h, s, p[1..]);
    }
  }

  // On any finite heap, shared or cyclic, the walk ends; it throws exactly when the root reaches a
  // value the serializer throws on, and otherwise expands exactly the reachable nodes, each once.
  lemma WalkIsSearch(h: Heap, root: Ref)
    requires Closed(h) && root in h
    ensures var w := Visit(h, Obj(root), []);
            && (w.Threw? <==> ReachesBigInt(h, root))
            && (w.Walked? ==> NoDuplicates(w.seen) && forall r :: r in w.seen <==> Reachable(h, root, r))
  {
    var w := Visit(h, Obj(root), []);
    assert Connects(h, root, [root], root);
    VisitSound(h, root, Obj(root), []);
    if w.Walked? {
      VisitComplete(h, Obj(root), []);
      forall r | Reachable(h, root, r) ensures r in w.seen {
        var p :| Connects(h, root, p, r);
        CoveredPath(h, w.seen, p);
      }
      forall r | r in w.seen ensures r in h && BigInt !in Slots(h[r]) {
        assert Covered(h, r, w.seen);
      }
    }
  }

  // ----- The output -----

  // The output agrees with the graph wherever it does not say '[Circular]'.
  ghost predicate Denotes(h: Heap, v: Val, out: Json)
    decreases out
  {
    match out
    case JText(text) => (v.Prim? && text == v.text) || (v.Absent? && text == "null")
    case JCircular => v.Obj?
    case JArray(outs) => v.Obj? && v.ref in h && h[v.ref].Array? && DenotesAll(h, Slots(h[v.ref]), outs)
    case JObject(keys, outs) =>
      v.Obj? && v.ref in h && h[v.ref].Object? && keys == Keys(h[v.ref]) && DenotesAll(h, Slots(h[v.ref]), outs)
  }

  ghost predicate DenotesAll(h: Heap, vs: seq<Val>, outs: seq<Json>)
    decreases outs
  {
    |outs| == |vs| && forall i :: 0 <= i < |outs| ==> Denotes(h, vs[i], outs[i])
  }

  lemma {:induction false} VisitDenotes(h: Heap, v: Val, seen: seq<Ref>)
    requires Closed(h) && (v.Obj? ==> v.ref in h) && Visit(h, v, seen).Walked?
    ensures Denotes(h, v, Visit(h, v, seen).out)
    decreases |Unseen(h, seen)|, 0, 0
  {
    if v.Obj? && v.ref !in seen {
      MoreSeen(h, seen, seen + [v.ref]);
      VisitAllDenotes(h, Slots(h[v.ref]), seen + [v.ref]);
    }
  }

  lemma {:induction false} VisitAllDenotes(h: Heap, vs: seq<Val>, seen: seq<Ref>)
    requires Closed(h) && forall v :: v in vs && v.Obj? ==> v.ref in h
    requires VisitAll(h, vs, seen).Walked?
    ensures DenotesAll(h, vs, VisitAll(h, vs, seen).out)
    decreases |Unseen(h, seen)|, 1, |vs|
  {
    if vs != [] {
      var w := Visit(h, vs[0], seen);
      VisitDenotes(h, vs[0], seen);
      MoreSeen(h, seen, w.seen);
      VisitAllDenotes(h, vs[1..], w.seen);
    }
  }

  function Marks(j: Json): nat
    decreases j, 0
  {
    match j
    case JText(_) => 0
    case JCircular => 1
    case JArray(outs) => MarksAll(outs)
    case JObject(_, outs) => MarksAll(outs)
  }

  function MarksAll(js: seq<Json>): nat
    decreases js, 1
  {
    if js == [] then 0 else Marks(js[0]) + MarksAll(js[1..])
  }

  // References among the slots of one node, and of several.
  function RefCount(vs: seq<Val>): nat {
    if vs == [] then 0 else (if vs[0].Obj? then 1 else 0) + RefCount(vs[1..])
  }

  function RefsFrom(h: Heap, rs: seq<Ref>): nat {
    if rs == [] then 0
    else (if rs[0] in h then RefCount(Slots(h[rs[0]])) else 0) + RefsFrom(h, rs[1..])
  }

  lemma {:induction false} RefsFromAppend(h: Heap, a: seq<Ref>, b: seq<Ref>)
    ensures RefsFrom(h, a + b) == RefsFrom(h, a) + RefsFrom(h, b)
  {
    if a == [] {
      assert a + b == b;
    } else {
      assert (a + b)[1..] == a[1..] + b;
      RefsFromAppend(h, a[1..], b);
    }
  }

  // Every reference the walk meets is either expanded or marked.
  lemma {:induction false} VisitCounts(h: Heap, v: Val, seen: seq<Ref>)
    requires Closed(h) && (v.Obj? ==> v.ref in h) && Visit(h, v, seen).Walked?
    ensures var w := Visit(h, v, seen);
            Marks(w.out) + |w.seen| + RefsFrom(h, seen) == (if v.Obj? then 1 else 0) + |seen| + RefsFrom(h, w.seen)
    decreases |Unseen(h, seen)|, 0, 0
  {
    if v.Obj? && v.ref !in seen {
      MoreSeen(h, seen, seen + [v.ref]);
      VisitAllCounts(h, Slots(h[v.ref]), seen + [v.ref]);
      RefsFromAppend(h, seen, [v.ref]);
    }
  }

  lemma {:induction false} VisitAllCounts(h: Heap, vs: seq<Val>, seen: seq<Ref>)
    requires Closed(h) && forall v :: v in vs && v.Obj? ==> v.ref in h
    requires VisitAll(h, vs, seen).Walked?
    ensures var w := VisitAll(h, vs, seen);
            MarksAll(w.out) + |w.seen| + RefsFrom(h, seen) == RefCount(vs) + |seen| + RefsFrom(h, w.seen)
    decreases |Unseen(h, seen)|, 1, |vs|
  {
    if vs != [] {
      var w := Visit(h, vs[0], seen);
      VisitCounts(h, vs[0], seen);
      MoreSeen(h, seen, w.seen);
      VisitAllCounts(h, vs[1..], w.seen);
    }
  }

  // The output says '[Circular]' once for every reference the walk meets beyond those it expands.
  lemma MarksCountExtraReferences(h: Heap, root: Ref)
    requires Closed(h) && root in h && Visit(h, Obj(root), []).Walked?
    ensures var w := Visit(h, Obj(root), []);
            Denotes(h, Obj(root), w.out) && Marks(w.out) + |w.seen| == 1 + RefsFrom(h, w.seen)
  {
    VisitDenotes(h, Obj(root), []);
    VisitCounts(h, Obj(root), []);
  }

  // ----- When the output has no mark -----

  // The i-th slot of a refers to r.
  predicate Holds(h: Heap, a: Ref, i: nat, r: Ref) {
    a in h && i < |Slots(h[a])| && Slots(h[a])[i] == Obj(r)
  }

  // Some node the root reaches refers back to the root.
  ghost predicate RefersBack(h: Heap, root: Ref) {
    exists a, i: nat :: Reachable(h, root, a) && Holds(h, a, i, root)
  }

  // Two slots of nodes the root reaches refer to the same node.
  ghost predicate Shares(h: Heap, root: Ref) {
    exists a, i: nat, b, j: nat, r ::
      Reachable(h, root, a) && Reachable(h, root, b) && Holds(h, a, i, r) && Holds(h, b, j, r) && (a != b || i != j)
  }

  // The references among the slots, in order.
  function NodeRefs(vs: seq<Val>): (rs: seq<Ref>)
    ensures |rs| == RefCount(vs)
  {
    if vs == [] then [] else (if vs[0].Obj? then [vs[0].ref] else []) + NodeRefs(vs[1..])
  }

  function AllRefs(h: Heap, rs: seq<Ref>): (all: seq<Ref>)
    ensures |all| == RefsFrom(h, rs)
  {
    if rs == [] then [] else (if rs[0] in h then NodeRefs(Slots(h[rs[0]])) else []) + AllRefs(h, rs[1..])
  }

  ghost predicate Distinct(vs: seq<Val>) {
    forall i, j :: 0 <= i < j < |vs| && vs[i].Obj? ==> vs[i] != vs[j]
  }

  lemma {:induction false} NodeRefsMembers(vs: seq<Val>, r: Ref)
    ensures r in NodeRefs(vs) <==> Obj(r) in vs
  {
    if vs != [] {
      NodeRefsMembers(vs[1..], r);
      assert vs == [vs[0]] + vs[1..];
    }
  }

  lemma {:induction false} AllRefsMembers(h: Heap, rs: seq<Ref>, r: Ref)
    ensures r in AllRefs(h, rs) <==> exists a :: a in rs && a in h && Obj(r) in Slots(h[a])
  {
    if rs != [] {
      var rest := rs[1..];
      AllRefsMembers(h, rest, r);
      if rs[0] in h { NodeRefsMembers(Slots(h[rs[0]]), r); }
      assert rs == [rs[0]] + rest;
      if r in AllRefs(h, rest) {
        var a :| a in rest && a in h && Obj(r) in Slots(h[a]);
        assert a in rs;
      }
    }
  }

  lemma NoDuplicatesConcat<T>(a: seq<T>, b: seq<T>)
    ensures NoDuplicates(a + b) <==> NoDuplicates(a) && NoDuplicates(b) && forall x :: x in a ==> x !in b
  {
    var c := a + b;
    if NoDuplicates(c) {
      forall i, j | 0 <= i < j < |a| ensures a[i] != a[j] {
        assert a[i] == c[i] && a[j] == c[j];
      }
      forall i, j | 0 <= i < j < |b| ensures b[i] != b[j] {
        assert b[i] == c[|a| + i] && b[j] == c[|a| + j];
      }
      forall i, j | 0 <= i < |a| && 0 <= j < |b| ensures a[i] != b[j] {
        assert a[i] == c[i] && b[j] == c[|a| + j];
      }
    } else {
      var i, j :| 0 <= i < j < |c| && c[i] == c[j];
      if i < |a| <= j {
        assert c[i] in a && c[j] in b;
      } else if |a| <= i {
        assert b[i - |a|] == b[j - |a|];
      }
    }
  }

  lemma DistinctStep(v: Val, rest: seq<Val>)
    ensures Distinct([v] + rest) <==> Distinct(rest) && (v.Obj? ==> v !in rest)
  {
    var vs := [v] + rest;
    if Distinct(vs) {
      forall i, j | 0 <= i < j < |rest| && rest[i].Obj? ensures rest[i] != rest[j] {
        assert vs[i + 1] == rest[i] && vs[j + 1] == rest[j];
      }
      forall j | 0 <= j < |rest| && v.Obj? ensures rest[j] != v {
        assert vs[0] == v && vs[j + 1] == rest[j];
      }
    }
  }

  lemma {:induction false} NodeRefsDistinct(vs: seq<Val>)
    ensures NoDuplicates(NodeRefs(vs)) <==> Distinct(vs)
  {
    if vs != [] {
      var rest := vs[1..];
      NodeRefsDistinct(rest);
      DistinctStep(vs[0], rest);
      assert vs == [vs[0]] + rest;
      if vs[0].Obj? {
        NodeRefsMembers(rest, vs[0].ref);
        NoDuplicatesConcat([vs[0].ref], NodeRefs(rest));
      } else {
        assert NodeRefs(vs) == NodeRefs(rest);
      }
    }
  }

  // No two slots of the nodes in rs refer to the same node.
  ghost predicate AllDistinct(h: Heap, rs: seq<Ref>) {
    forall a, i: nat, b, j: nat, r ::
      a in rs && b in rs && Holds(h, a, i, r) && Holds(h, b, j, r) ==> a == b && i == j
  }

  ghost predicate Apart(h: Heap, a: Ref, b: Ref) {
    forall i: nat, j: nat, r :: Holds(h, a, i, r) ==> !Holds(h, b, j, r)
  }

  lemma HoldsMembers(h: Heap, a: Ref, r: Ref)
    requires a in h
    ensures Obj(r) in Slots(h[a]) <==> exists i: nat :: Holds(h, a, i, r)
  {
    if Obj(r) in Slots(h[a]) {
      var i :| 0 <= i < |Slots(h[a])| && Slots(h[a])[i] == Obj(r);
      assert Holds(h, a, i, r);
    }
  }

  lemma ApartFromRest(h: Heap, a: Ref, rs: seq<Ref>)
    requires a in h && forall b :: b in rs ==> b in h
    ensures (forall r :: r in NodeRefs(Slots(h[a])) ==> r !in AllRefs(h, rs)) <==>
              forall b :: b in rs ==> Apart(h, a, b)
  {
    forall r ensures r in NodeRefs(Slots(h[a])) <==> exists i: nat :: Holds(h, a, i, r) {
      NodeRefsMembers(Slots(h[a]), r);
      HoldsMembers(h, a, r);
    }
    forall r ensures r in AllRefs(h, rs) <==> exists b, j: nat :: b in rs && Holds(h, b, j, r) {
      AllRefsMembers(h, rs, r);
      forall b | b in rs ensures Obj(r) in Slots(h[b]) <==> exists j: nat :: Holds(h, b, j, r) {
        HoldsMembers(h, b, r);
      }
    }
    var mine, theirs := NodeRefs(Slots(h[a])), AllRefs(h, rs);
    if forall r :: r in mine ==> r !in theirs {
      forall b | b in rs ensures Apart(h, a, b) {
        forall i: nat, j: nat, r | Holds(h, a, i, r) ensures !Holds(h, b, j, r) {
          assert r in mine;
        }
      }
    }
    if r :| r in mine && r in theirs {
      var i: nat :| Holds(h, a, i, r);
      var b, j: nat :| b in rs && Holds(h, b, j, r);
      assert !Apart(h, a, b);
    }
  }

  lemma {:induction false} AllRefsDistinct(h: Heap, rs: seq<Ref>)
    requires NoDuplicates(rs) && forall a :: a in rs ==> a in h
    ensures NoDuplicates(AllRefs(h, rs)) <==> AllDistinct(h, rs)
  {
    if rs != [] {
      var a, rest := rs[0], rs[1..];
      assert a !in rest;
      AllRefsDistinct(h, rest);
      NodeRefsDistinct(Slots(h[a]));
      NoDuplicatesConcat(NodeRefs(Slots(h[a])), AllRefs(h, rest));
      ApartFromRest(h, a, rest);
      AllDistinctStep(h, a, rest);
      assert rs == [a] + rest;
    }
  }

  lemma AllDistinctStep(h: Heap, a: Ref, rest: seq<Ref>)
    requires a in h && a !in rest
    ensures AllDistinct(h, [a] + rest) <==>
              Distinct(Slots(h[a])) && AllDistinct(h, rest) && forall b :: b in rest ==> Apart(h, a, b)
  {
    var vs := Slots(h[a]);
    if AllDistinct(h, [a] + rest) {
      forall i, j | 0 <= i < j < |vs| && vs[i].Obj? ensures vs[i] != vs[j] {
        assert Holds(h, a, i, vs[i].ref);
        assert vs[i] == vs[j] ==> Holds(h, a, j, vs[i].ref);
      }
    }
  }

  lemma {:induction false} DistinctCount<T>(s: seq<T>, all: set<T>)
    requires forall x :: x in s <==> x in all
    ensures |s| == |all| <==> NoDuplicates(s)
    ensures |s| >= |all|
    decreases |s|
  {
    if s != [] {
      var x, rest := s[0], s[1..];
      assert s == [x] + rest;
      NoDuplicatesConcat([x], rest);
      DistinctCount(rest, if x in rest then all else all - {x});
    }
  }

  lemma ReachableIsReferred(h: Heap, root: Ref, r: Ref)
    requires Reachable(h, root, r) && r != root
    ensures exists a :: a in h && Reachable(h, root, a) && Obj(r) in Slots(h[a])
  {
    var p :| Connects(h, root, p, r);
    var n := |p| - 1;
    assert n > 0 && Edge(h, p[n - 1], p[n - 1 + 1]);
    assert Path(h, p[..n]) by {
      forall i | 0 <= i < n - 1 ensures Edge(h, p[..n][i], p[..n][i + 1]) {
        assert Edge(h, p[i], p[i + 1]);
      }
    }
    assert Connects(h, root, p[..n], p[n - 1]);
  }

  // The references of the expanded nodes, and the root, are the expanded nodes.
  lemma RefsAreSeen(h: Heap, root: Ref, seen: seq<Ref>, r: Ref)
    requires Closed(h) && root in h && (forall x :: x in seen <==> Reachable(h, root, x))
    ensures r in [root] + AllRefs(h, seen) <==> r in seen
  {
    assert Connects(h, root, [root], root);
    AllRefsMembers(h, seen, r);
    if r != root && r in seen {
      ReachableIsReferred(h, root, r);
    }
    if a :| a in seen && a in h && Obj(r) in Slots(h[a]) {
      ReachableSlots(h, root, a);
    }
  }

  lemma RootReferred(h: Heap, root: Ref, seen: seq<Ref>)
    requires forall x :: x in seen <==> Reachable(h, root, x)
    ensures root in AllRefs(h, seen) <==> RefersBack(h, root)
  {
    AllRefsMembers(h, seen, root);
    forall a | a in h ensures Obj(root) in Slots(h[a]) <==> exists i: nat :: Holds(h, a, i, root) {
      HoldsMembers(h, a, root);
    }
  }

  // The output has no mark exactly if the objects form a tree: no slot of a node the root reaches refers
  // back to the root, and no two of those slots refer to the same node. Sharing is enough for a mark, a
  // cycle is not needed.
  lemma UnmarkedIff(h: Heap, root: Ref)
    requires Closed(h) && root in h && Visit(h, Obj(root), []).Walked?
    ensures Marks(Visit(h, Obj(root), []).out) == 0 <==> !RefersBack(h, root) && !Shares(h, root)
  {
    var w := Visit(h, Obj(root), []);
    WalkIsSearch(h, root);
    MarksCountExtraReferences(h, root);
    var refs := AllRefs(h, w.seen);
    forall r ensures r in [root] + refs <==> r in w.seen {
      RefsAreSeen(h, root, w.seen, r);
    }
    var all := set r | r in w.seen;
    DistinctCount(w.seen, all);
    DistinctCount([root] + refs, all);
    assert Marks(w.out) == 0 <==> NoDuplicates([root] + refs);
    NoDuplicatesConcat([root], refs);
    VisitComplete(h, Obj(root), []);
    assert forall a :: a in w.seen ==> Covered(h, a, w.seen);
    AllRefsDistinct(h, w.seen);
    RootReferred(h, root, w.seen);
    assert AllDistinct(h, w.seen) <==> !Shares(h, root);
  }

  // The guard is meant against circles, but an object that is merely passed twice is marked too.
  lemma SharedIsMarkedWithoutACycle()
    ensures var h: Heap := map[0 := Array([Obj(1), Obj(1)]), 1 := Array([])];
            && Closed(h) && !Edge(h, 1, 0) && !Edge(h, 1, 1) && !Edge(h, 0, 0)
            && Visit(h, Obj(0), []) == Walked(JArray([JArray([]), JCircular]), [0, 1])
  {
    var h: Heap := map[0 := Array([Obj(1), Obj(1)]), 1 := Array([])];
    var args := [Obj(1), Obj(1)];
    assert Slots(h[0]) == args && Slots(h[1]) == [];
    assert [] + [0] + [1] == [0, 1];
    assert Visit(h, Obj(1), [0]) == Walked(JArray([]), [0, 1]);
    assert Visit(h, Obj(1), [0, 1]) == Walked(JCircular, [0, 1]);
    assert args[1..] == [Obj(1)] && args[1..][1..] == [];
    var none: seq<Json> := [];
    assert [JCircular] + none == [JCircular] && [JArray([])] + [JCircular] == [JArray([]), JCircular];
    assert VisitAll(h, args[1..], [0, 1]) == Walked([JCircular], [0, 1]);
    assert VisitAll(h, args, [0]) == Walked([JArray([]), JCircular], [0, 1]);
    assert [] + [0] == [0];
  }

  // ----- The whole call -----

  // Errors come with the JSON text of their stack, if it is not empty, and of themselves.
  datatype Arg = Undefined | Error(stack: Option<string>, text: string) | Plain(v: Val)

  function Massage(a: Arg): Val {
    match a
    case Undefined => Prim("\"undefined\"")
    case Error(stack, text) => Prim(if stack.Some? then stack.value else text)
    case Plain(v) => v
  }

  const MAX_LENGTH: nat := 100000

  datatype Report = Sent(text: string) | TooLarge | Uninspectable

  // Keys carry their quotes.
  function Render(j: Json): string
    decreases j, 0
  {
    match j
    case JText(text) => text
    case JCircular => "\"[Circular]\""
    case JArray(outs) => "[" + RenderAll([], outs) + "]"
    case JObject(keys, outs) => "{" + RenderAll(keys, outs) + "}"
  }

  function RenderAll(keys: seq<string>, outs: seq<Json>): string
    decreases outs, 1
  {
    if outs == [] then ""
    else
      (if keys == [] then "" else keys[0] + ":") + Render(outs[0]) + (if |outs| == 1 then "" else ",")
      + RenderAll(if keys == [] then [] else keys[1..], outs[1..])
  }

  // ----- What is written -----

  function Join(parts: seq<string>): string {
    if parts == [] then "" else if |parts| == 1 then parts[0] else parts[0] + "," + Join(parts[1..])
  }

  function Rendered(outs: seq<Json>): seq<string> {
    seq(|outs|, i requires 0 <= i < |outs| => Render(outs[i]))
  }

  function Members(keys: seq<string>, outs: seq<Json>): seq<string>
    requires |keys| == |outs|
  {
    seq(|outs|, i requires 0 <= i < |outs| => keys[i] + ":" + Render(outs[i]))
  }

  lemma {:induction false} RenderAllElements(outs: seq<Json>)
    ensures RenderAll([], outs) == Join(Rendered(outs))
  {
    if outs != [] {
      RenderAllElements(outs[1..]);
      assert Rendered(outs)[1..] == Rendered(outs[1..]);
      assert "" + Render(outs[0]) == Render(outs[0]);
      if |outs| == 1 {
        assert Render(outs[0]) + "" + "" == Render(outs[0]);
      }
    }
  }

  lemma {:induction false} RenderAllMembers(keys: seq<string>, outs: seq<Json>)
    requires |keys| == |outs|
    ensures RenderAll(keys, outs) == Join(Members(keys, outs))
  {
    if outs != [] {
      RenderAllMembers(keys[1..], outs[1..]);
      assert Members(keys, outs)[1..] == Members(keys[1..], outs[1..]);
      var first := keys[0] + ":" + Render(outs[0]);
      assert Members(keys, outs)[0] == first;
      if |outs| == 1 {
        assert RenderAll(keys, outs) == first + "" + RenderAll(keys[1..], outs[1..]) == first;
      } else {
        assert RenderAll(keys, outs) == first + "," + RenderAll(keys[1..], outs[1..]);
      }
    }
  }

  // Arrays are written as their elements between brackets, objects as their members between braces,
  // separated by commas.
  lemma RenderMeans(keys: seq<string>, outs: seq<Json>)
    requires |keys| == |outs|
    ensures Render(JArray(outs)) == "[" + Join(Rendered(outs)) + "]"
    ensures Render(JObject(keys, outs)) == "{" + Join(Members(keys, outs)) + "}"
  {
    RenderAllElements(outs);
    RenderAllMembers(keys, outs);
    assert Render(JObject(keys, outs)) == "{" + RenderAll(keys, outs) + "}";
  }

  ghost function MassageAll(args: seq<Arg>): seq<Val> {
    seq(|args|, i requires 0 <= i < |args| => Massage(args[i]))
  }

  ghost function WithArgs(h: Heap, root: Ref, args: seq<Arg>): Heap {
    h[root := Array(MassageAll(args))]
  }

  function Texts(vs: seq<Val>): seq<Json>
    requires forall v :: v in vs ==> v.Prim?
  {
    seq(|vs|, i requires 0 <= i < |vs| => assert vs[i] in vs; JText(vs[i].text))
  }

  lemma {:induction false} VisitPrims(h: Heap, vs: seq<Val>, seen: seq<Ref>)
    requires Closed(h) && forall v :: v in vs ==> v.Prim?
    ensures VisitAll(h, vs, seen) == Walked(Texts(vs), seen)
  {
    if vs != [] {
      assert vs[0] in vs;
      VisitPrims(h, vs[1..], seen);
      assert Texts(vs) == [JText(vs[0].text)] + Texts(vs[1..]);
    }
  }

  lemma JoinFour(a: string, b: string, c: string, d: string)
    ensures "[" + Join([a, b, c, d]) + "]" == "[" + a + "," + b + "," + c + "," + d + "]"
  {
    assert [a, b, c, d][1..] == [b, c, d] && [b, c, d][1..] == [c, d] && [c, d][1..] == [d];
    assert Join([c, d]) == c + "," + d;
    assert Join([b, c, d]) == b + "," + (c + "," + d);
    assert Join([a, b, c, d]) == a + "," + (b + "," + (c + "," + d));
    assert "[" + (a + "," + (b + "," + (c + "," + d))) + "]" == "[" + a + "," + b + "," + c + "," + d + "]";
  }

  function FourArgs(stack: string, error: string, text: string): seq<Arg> {
    [Undefined, Error(Some(stack), error), Error(None, error), Plain(Prim(text))]
  }

  lemma FourArgsWalk(root: Ref, stack: string, error: string, text: string)
    ensures var h := WithArgs(map[], root, FourArgs(stack, error, text));
            && Closed(h)
            && Visit(h, Obj(root), []) ==
                 Walked(JArray([JText("\"undefined\""), JText(stack), JText(error), JText(text)]), [root])
  {
    var args := FourArgs(stack, error, text);
    var h := WithArgs(map[], root, args);
    var vs := [Prim("\"undefined\""), Prim(stack), Prim(error), Prim(text)];
    assert MassageAll(args) == vs && h[root] == Array(vs) && Slots(h[root]) == vs;
    assert [] + [root] == [root];
    VisitPrims(h, vs, [root]);
    assert VisitAll(h, vs, [root]).out == [JText("\"undefined\""), JText(stack), JText(error), JText(text)];
  }

  // The text for an undefined argument, an error with a stack, one without, and a primitive value.
  lemma ArgumentsText(root: Ref, stack: string, error: string, text: string)
    ensures var h := WithArgs(map[], root, FourArgs(stack, error, text));
            && Closed(h) && Visit(h, Obj(root), []).Walked?
            && Render(Visit(h, Obj(root), []).out) ==
                 "[" + "\"undefined\"" + "," + stack + "," + error + "," + text + "]"
  {
    FourArgsWalk(root, stack, error, text);
    var outs := [JText("\"undefined\""), JText(stack), JText(error), JText(text)];
    RenderAllElements(outs);
    assert Rendered(outs) == ["\"undefined\"", stack, error, text];
    JoinFour("\"undefined\"", stack, error, text);
  }

  // root is the array the arguments are collected in, a fresh object.
  method SafeToString(heap: Heap, root: Ref, args: seq<Arg>) returns (r: Report)
    requires Closed(heap) && root !in heap && forall a :: a in args && a.Plain? && a.v.Obj? ==> a.v.ref in heap
    ensures var h := WithArgs(heap, root, args);
            && Closed(h)
            && (r.Uninspectable? <==> ReachesBigInt(h, root))
            && (!r.Uninspectable? ==>
                  && Visit(h, Obj(root), []).Walked?
                  && var text := Render(Visit(h, Obj(root), []).out);
                  r == if |text| > MAX_LENGTH then TooLarge else Sent(text))
  {
    var argsArray: seq<Val> := [];
    for i := 0 to |args|
      invariant |argsArray| == i && forall j :: 0 <= j < i ==> argsArray[j] == Massage(args[j])
    {
      argsArray := argsArray + [Massage(args[i])];
    }
    var h := heap[root := Array(argsArray)];
    assert argsArray == MassageAll(args);
    forall i | 0 <= i < |argsArray| && argsArray[i].Obj? ensures argsArray[i].ref in heap {
      assert args[i] in args;
    }
    var s := new Stringifier(h);
    WalkIsSearch(h, root);
    var out := s.Serialize(Obj(root));
    if out.None? {
      return Uninspectable;
    }
    var res := Render(out.value);
    if |res| > MAX_LENGTH {
      return TooLarge;
    }
    return Sent(res);
  }
}
