/**
 * The MessagePack wire format: a parser over a byte prefix that may stop anywhere, and the encoder
 * whose output it reads back. Every message of the RPC layer and the singleton's lock file are
 * MessagePack values.
 */
module MessagePack {
  import opened Common

  type Bytes = seq<byte>

  // A map is kept flat: key, value, key, value, ...
  datatype Value =
    | Nil
    | Bool(b: bool)
    | Int(n: int)
    | Float(bits: Bytes)
    | Str(text: Bytes)
    | Bin(data: Bytes)
    | Ext(tag: byte, body: Bytes)
    | Arr(items: seq<Value>)
    | Dict(flat: seq<Value>)

  datatype Kind = UInt | SInt | Real | Text | Blob | Extension

  // What a marker byte announces.
  datatype Shape =
    | Reserved
    | Whole(v: Value)
    | Fixed(kind: Kind, width: nat)       // width bytes of payload
    | Sized(kind: Kind, width: nat)       // a length of width bytes, then that much payload
    | Many(dict: bool, count: nat)        // count elements, or entries
    | SizedMany(dict: bool, width: nat)

  function Classify(m: byte): Shape {
    if m < 0x80 then Whole(Int(m))
    else if m < 0x90 then Many(true, m - 0x80)
    else if m < 0xa0 then Many(false, m - 0x90)
    else if m < 0xc0 then Fixed(Text, m - 0xa0)
    else if m == 0xc0 then Whole(Nil)
    else if m == 0xc1 then Reserved
    else if m == 0xc2 then Whole(Bool(false))
    else if m == 0xc3 then Whole(Bool(true))
    else if m < 0xc7 then Sized(Blob, Width(m - 0xc4))
    else if m < 0xca then Sized(Extension, Width(m - 0xc7))
    else if m < 0xcc then Fixed(Real, Width(m - 0xca + 2))
    else if m < 0xd0 then Fixed(UInt, Width(m - 0xcc))
    else if m < 0xd4 then Fixed(SInt, Width(m - 0xd0))
    else if m == 0xd8 then Fixed(Extension, 17)
    else if m < 0xd8 then Fixed(Extension, 1 + Width(m - 0xd4))
    else if m < 0xdc then Sized(Text, Width(m - 0xd9))
    else if m < 0xde then SizedMany(false, Width(m - 0xdc + 1))
    else if m < 0xe0 then SizedMany(true, Width(m - 0xde + 1))
    else Whole(Int(m - 0x100))
  }

  function Width(e: nat): nat {
    if e == 0 then 1 else if e == 1 then 2 else if e == 2 then 4 else 8
  }

  function Pow256(w: nat): nat {
    if w == 0 then 1 else 256 * Pow256(w - 1)
  }

  lemma Pow256Values()
    ensures Pow256(1) == 0x100 && Pow256(2) == 0x1_0000 && Pow256(4) == 0x1_0000_0000
    ensures Pow256(8) == 0x1_0000_0000_0000_0000
  {
    assert Pow256(3) == 0x100_0000 && Pow256(4) == 0x1_0000_0000;
    assert Pow256(5) == 0x100_0000_0000 && Pow256(6) == 0x1_0000_0000_0000;
    assert Pow256(7) == 0x100_0000_0000_0000;
  }

  // Big-endian numbers.
  function FromBE(b: Bytes): (n: nat)
    ensures n < Pow256(|b|)
  {
    if b == [] then 0 else 256 * FromBE(b[..|b| - 1]) + b[|b| - 1]
  }

  function ToBE(n: nat, w: nat): (b: Bytes)
    requires n < Pow256(w)
    ensures |b| == w
  {
    if w == 0 then [] else ToBE(n / 256, w - 1) + [n % 256]
  }

  lemma {:induction false} FromToBE(n: nat, w: nat)
    requires n < Pow256(w)
    ensures FromBE(ToBE(n, w)) == n
  {
    if w > 0 {
      FromToBE(n / 256, w - 1);
      assert ToBE(n, w)[..w - 1] == ToBE(n / 256, w - 1);
    }
  }

  function Build(kind: Kind, p: Bytes): Value {
    match kind
    case UInt => Int(FromBE(p))
    case SInt => Int(if 2 * FromBE(p) < Pow256(|p|) then FromBE(p) else FromBE(p) - Pow256(|p|))
    case Real => Float(p)
    case Text => Str(p)
    case Blob => Bin(p)
    case Extension => if p == [] then Nil else Ext(p[0], p[1..])
  }

  // An extension's tag byte is not counted in its length.
  function Payload(kind: Kind, n: nat): nat {
    if kind == Extension then n + 1 else n
  }

  function Elements(dict: bool, count: nat): nat {
    if dict then 2 * count else count
  }

  // `More`: the bytes end before the value does.
  datatype Parsed<T> = More | Bad | Done(value: T, len: nat)

  function Wrap(dict: bool, head: nat, p: Parsed<seq<Value>>): Parsed<Value> {
    match p
    case More => More
    case Bad => Bad
    case Done(vs, n) => Done(if dict then Dict(vs) else Arr(vs), head + n)
  }

  function Parse(b: Bytes): (p: Parsed<Value>)
    ensures p.Done? ==> 1 <= p.len <= |b|
    decreases |b|, 0
  {
    if b == [] then More
    else match Classify(b[0])
      case Reserved => Bad
      case Whole(v) => Done(v, 1)
      case Fixed(kind, w) => if |b| < 1 + w then More else Done(Build(kind, b[1..1 + w]), 1 + w)
      case Sized(kind, w) =>
        if |b| < 1 + w then More
        else
          var end := 1 + w + Payload(kind, FromBE(b[1..1 + w]));
          if |b| < end then More else Done(Build(kind, b[1 + w..end]), end)
      case Many(dict, n) => Wrap(dict, 1, ParseMany(b[1..], Elements(dict, n)))
      case SizedMany(dict, w) =>
        if |b| < 1 + w then More
        else Wrap(dict, 1 + w, ParseMany(b[1 + w..], Elements(dict, FromBE(b[1..1 + w]))))
  }

  function ParseMany(b: Bytes, n: nat): (p: Parsed<seq<Value>>)
    ensures p.Done? ==> p.len <= |b|
    decreases |b|, 1, n
  {
    if n == 0 then Done([], 0)
    else match Parse(b)
      case More => More
      case Bad => Bad
      case Done(v, len) =>
        match ParseMany(b[len..], n - 1)
        case More => More
        case Bad => Bad
        case Done(vs, rest) => Done([v] + vs, len + rest)
  }

  // ----- Prefix stability -----

  // Bytes that arrive later change no verdict: neither a value nor an error.
  lemma {:induction false} ParseExtend(b: Bytes, x: Bytes)
    requires Parse(b) != More
    ensures Parse(b + x) == Parse(b)
    decreases |b|, 0
  {
    match Classify(b[0])
    case Many(dict, n) =>
      SliceOfAppend(b, x, 1, 1);
      ParseManyExtend(b[1..], x, Elements(dict, n));
    case SizedMany(dict, w) =>
      SliceOfAppend(b, x, 1, 1 + w);
      SliceOfAppend(b, x, 1 + w, 1 + w);
      ParseManyExtend(b[1 + w..], x, Elements(dict, FromBE(b[1..1 + w])));
    case _ => LeafExtend(b, x);
  }

  lemma LeafExtend(b: Bytes, x: Bytes)
    requires Parse(b) != More && !Classify(b[0]).Many? && !Classify(b[0]).SizedMany?
    ensures Parse(b + x) == Parse(b)
  {
    match Classify(b[0])
    case Fixed(_, w) => SliceOfAppend(b, x, 1, 1 + w);
    case Sized(kind, w) =>
      SliceOfAppend(b, x, 1, 1 + w);
      SliceOfAppend(b, x, 1 + w, 1 + w + Payload(kind, FromBE(b[1..1 + w])));
    case _ =>
  }

  lemma {:induction false} ParseManyExtend(b: Bytes, x: Bytes, n: nat)
    requires ParseMany(b, n) != More
    ensures ParseMany(b + x, n) == ParseMany(b, n)
    decreases |b|, 1, n
  {
    if n > 0 {
      ParseExtend(b, x);
      if Parse(b).Done? {
        var len := Parse(b).len;
        SliceOfAppend(b, x, len, len);
        ParseManyExtend(b[len..], x, n - 1);
      }
    }
  }

  // A value is read from exactly its own bytes.
  lemma {:induction false} ParseTrim(b: Bytes)
    requires Parse(b).Done?
    ensures Parse(b[..Parse(b).len]) == Parse(b)
    decreases |b|, 0
  {
    match Classify(b[0])
    case Many(dict, n) => ElementsTrim(b, 1, Elements(dict, n));
    case SizedMany(dict, w) => ElementsTrim(b, 1 + w, Elements(dict, FromBE(b[1..1 + w])));
    case _ => LeafTrim(b);
  }

  lemma LeafTrim(b: Bytes)
    requires Parse(b).Done? && !Classify(b[0]).Many? && !Classify(b[0]).SizedMany?
    ensures Parse(b[..Parse(b).len]) == Parse(b)
  {
    var len := Parse(b).len;
    SplitAt(b, len);
    match Classify(b[0])
    case Whole(_) =>
    case Fixed(_, w) => SliceOfAppend(b[..len], b[len..], 1, 1 + w);
    case Sized(kind, w) => SizedTrim(b, kind, w);
  }

  lemma SliceOfTake(b: Bytes, n: nat, i: nat, j: nat)
    requires i <= j <= n <= |b|
    ensures b[..n][i..j] == b[i..j]
  {
  }

  lemma SizedTrim(b: Bytes, kind: Kind, w: nat)
    requires Parse(b).Done? && Classify(b[0]) == Sized(kind, w)
    ensures Parse(b[..Parse(b).len]) == Parse(b)
  {
    var len := Parse(b).len;
    assert len == 1 + w + Payload(kind, FromBE(b[1..1 + w]));
    SliceOfTake(b, len, 1, 1 + w);
    SliceOfTake(b, len, 1 + w, len);
  }

  lemma {:induction false} ElementsTrim(b: Bytes, head: nat, n: nat)
    requires 1 <= head <= |b| && ParseMany(b[head..], n).Done?
    ensures var end := head + ParseMany(b[head..], n).len;
            end <= |b| && b[..end][1..head] == b[1..head]
            && ParseMany(b[..end][head..], n) == ParseMany(b[head..], n)
    decreases |b|, 0, 0
  {
    var len := ParseMany(b[head..], n).len;
    ParseManyTrim(b[head..], n);
    assert b[..head + len][head..] == b[head..][..len];
  }

  lemma CutAt(b: Bytes, i: nat, j: nat)
    requires i <= j <= |b|
    ensures b[..j] == b[..i] + b[i..j] && b[..j][i..] == b[i..][..j - i]
  {
  }

  lemma {:induction false} ParseManyTrim(b: Bytes, n: nat)
    requires ParseMany(b, n).Done?
    ensures ParseMany(b[..ParseMany(b, n).len], n) == ParseMany(b, n)
    decreases |b|, 1, n
  {
    if n > 0 {
      var len, all := Parse(b).len, ParseMany(b, n).len;
      ParseTrim(b);
      CutAt(b, len, all);
      ParseExtend(b[..len], b[len..all]);
      ParseManyTrim(b[len..], n - 1);
    }
  }

  lemma ShortAsksForMore(a: Bytes, x: Bytes)
    requires Parse(a + x).Done? && |a| < Parse(a + x).len
    ensures Parse(a) == More
  {
    if Parse(a) != More { ParseExtend(a, x); }
  }

  lemma LongIsDone(b: Bytes, k: nat)
    requires Parse(b).Done? && Parse(b).len <= k <= |b|
    ensures Parse(b[..k]) == Parse(b)
  {
    var len := Parse(b).len;
    ParseTrim(b);
    CutAt(b, len, k);
    ParseExtend(b[..len], b[len..k]);
  }

  // Exactly the prefixes that are too short ask for more.
  lemma ParsePrefix(b: Bytes, k: nat)
    requires Parse(b).Done? && k <= |b|
    ensures Parse(b[..k]) == if k < Parse(b).len then More else Parse(b)
  {
    if k < Parse(b).len {
      SplitAt(b, k);
      ShortAsksForMore(b[..k], b[k..]);
    } else {
      LongIsDone(b, k);
    }
  }

  // ----- Encoding -----

  // The values the serializer writes: integers of 64 bits, lengths of 32 bits, no extensions.
  ghost predicate Encodable(v: Value) {
    match v
    case Int(n) => -0x8000_0000_0000_0000 <= n < 0x1_0000_0000_0000_0000
    case Float(bits) => |bits| == 4 || |bits| == 8
    case Str(s) => |s| < 0x1_0000_0000
    case Bin(s) => |s| < 0x1_0000_0000
    case Ext(_, _) => false
    case Arr(vs) => |vs| < 0x1_0000_0000 && forall e :: e in vs ==> Encodable(e)
    case Dict(vs) => |vs| % 2 == 0 && |vs| / 2 < 0x1_0000_0000 && forall e :: e in vs ==> Encodable(e)
    case _ => true
  }

  function Num(marker: byte, n: nat, w: nat): Bytes
    requires n < Pow256(w)
  {
    [marker] + ToBE(n, w)
  }

  // The shortest format for each value.
  function EncodeInt(n: int): Bytes
    requires -0x8000_0000_0000_0000 <= n < 0x1_0000_0000_0000_0000
  {
    Pow256Values();
    if 0 <= n then
      if n < 0x80 then [n] else if n < Pow256(1) then Num(0xcc, n, 1) else if n < Pow256(2) then Num(0xcd, n, 2)
      else if n < Pow256(4) then Num(0xce, n, 4) else Num(0xcf, n, 8)
    else
      if -32 <= n then [n + 0x100] else if -0x80 <= n then Num(0xd0, n + Pow256(1), 1)
      else if -0x8000 <= n then Num(0xd1, n + Pow256(2), 2)
      else if -0x8000_0000 <= n then Num(0xd2, n + Pow256(4), 4) else Num(0xd3, n + Pow256(8), 8)
  }

  function EncodeLen(n: nat, short: nat, shortMarker: nat, m1: Option<byte>, m2: byte, m4: byte): Bytes
    requires n < 0x1_0000_0000 && short + shortMarker <= 0x100
  {
    Pow256Values();
    if n < short then [shortMarker + n]
    else if m1.Some? && n < 0x100 then Num(m1.value, n, 1)
    else if n < 0x1_0000 then Num(m2, n, 2)
    else Num(m4, n, 4)
  }

  function CountHead(dict: bool, n: nat): Bytes
    requires n < 0x1_0000_0000
  {
    if dict then EncodeLen(n, 16, 0x80, None, 0xde, 0xdf) else EncodeLen(n, 16, 0x90, None, 0xdc, 0xdd)
  }

  function Encode(v: Value): Bytes
    requires Encodable(v)
    decreases v, 0
  {
    match v
    case Nil => [0xc0]
    case Bool(b) => if b then [0xc3] else [0xc2]
    case Int(n) => EncodeInt(n)
    case Float(bits) => [if |bits| == 4 then 0xca else 0xcb] + bits
    case Str(s) => EncodeLen(|s|, 32, 0xa0, Some(0xd9), 0xda, 0xdb) + s
    case Bin(s) => EncodeLen(|s|, 0, 0, Some(0xc4), 0xc5, 0xc6) + s
    case Arr(vs) => CountHead(false, |vs|) + EncodeAll(vs)
    case Dict(vs) => CountHead(true, |vs| / 2) + EncodeAll(vs)
  }

  function EncodeAll(vs: seq<Value>): Bytes
    requires forall e :: e in vs ==> Encodable(e)
    decreases vs, 1
  {
    if vs == [] then [] else Encode(vs[0]) + EncodeAll(vs[1..])
  }

  // ----- Decoding what was encoded -----

  lemma ParseFixed(marker: byte, kind: Kind, p: Bytes, rest: Bytes)
    requires Classify(marker) == Fixed(kind, |p|)
    ensures Parse([marker] + p + rest) == Done(Build(kind, p), 1 + |p|)
  {
    assert ([marker] + p + rest)[1..1 + |p|] == p;
  }

  lemma MarkedSlices(marker: byte, size: Bytes, p: Bytes, rest: Bytes)
    ensures var b, w := [marker] + size + p + rest, |size|;
            |b| >= 1 + w + |p| && b[0] == marker && b[1..1 + w] == size && b[1 + w..1 + w + |p|] == p
  {
  }

  lemma ParseSizedBytes(b: Bytes, kind: Kind, w: nat, n: nat)
    requires b != [] && Classify(b[0]) == Sized(kind, w) && kind != Extension
    requires 1 + w + n <= |b| && FromBE(b[1..1 + w]) == n
    ensures Parse(b) == Done(Build(kind, b[1 + w..1 + w + n]), 1 + w + n)
  {
    assert Payload(kind, n) == n;
  }

  lemma ParseSized(marker: byte, kind: Kind, w: nat, p: Bytes, rest: Bytes)
    requires Classify(marker) == Sized(kind, w) && kind != Extension && |p| < Pow256(w)
    ensures Parse(Num(marker, |p|, w) + p + rest) == Done(Build(kind, p), 1 + w + |p|)
  {
    MarkedSlices(marker, ToBE(|p|, w), p, rest);
    FromToBE(|p|, w);
    ParseSizedBytes(Num(marker, |p|, w) + p + rest, kind, w, |p|);
  }

  lemma ParseCounted(marker: byte, dict: bool, n: nat, body: Bytes)
    requires Classify(marker) == Many(dict, n)
    ensures Parse([marker] + body) == Wrap(dict, 1, ParseMany(body, Elements(dict, n)))
  {
    assert ([marker] + body)[1..] == body;
  }

  lemma ParseSizedMany(marker: byte, dict: bool, w: nat, n: nat, body: Bytes)
    requires Classify(marker) == SizedMany(dict, w) && n < Pow256(w)
    ensures Parse(Num(marker, n, w) + body) == Wrap(dict, 1 + w, ParseMany(body, Elements(dict, n)))
  {
    var b := Num(marker, n, w) + body;
    assert b[1..1 + w] == ToBE(n, w);
    FromToBE(n, w);
    assert b[1 + w..] == body;
  }

  lemma UIntRoundTrip(n: int, rest: Bytes)
    requires 0x80 <= n < 0x1_0000_0000_0000_0000
    ensures Parse(EncodeInt(n) + rest) == Done(Int(n), |EncodeInt(n)|)
  {
    Pow256Values();
    var w := if n < Pow256(1) then 1 else if n < Pow256(2) then 2 else if n < Pow256(4) then 4 else 8;
    var m: byte := if w == 1 then 0xcc else if w == 2 then 0xcd else if w == 4 then 0xce else 0xcf;
    assert EncodeInt(n) == [m] + ToBE(n, w);
    ParseFixed(m, UInt, ToBE(n, w), rest);
    FromToBE(n, w);
  }

  // A negative number in the two's complement of w bytes.
  lemma TwosComplement(m: byte, w: nat, n: int, rest: Bytes)
    requires Classify(m) == Fixed(SInt, w) && n < 0 <= n + Pow256(w) && Pow256(w) <= 2 * (n + Pow256(w))
    ensures Parse(Num(m, n + Pow256(w), w) + rest) == Done(Int(n), 1 + w)
  {
    ParseFixed(m, SInt, ToBE(n + Pow256(w), w), rest);
    FromToBE(n + Pow256(w), w);
  }

  lemma EncodesNegative(n: int) returns (m: byte, w: nat)
    requires -0x8000_0000_0000_0000 <= n < -32
    ensures Classify(m) == Fixed(SInt, w) && n < 0 <= n + Pow256(w) && Pow256(w) <= 2 * (n + Pow256(w))
    ensures EncodeInt(n) == Num(m, n + Pow256(w), w)
  {
    Pow256Values();
    if -0x80 <= n {
      m, w := 0xd0, 1;
    } else if -0x8000 <= n {
      m, w := 0xd1, 2;
    } else if -0x8000_0000 <= n {
      m, w := 0xd2, 4;
    } else {
      m, w := 0xd3, 8;
    }
  }

  lemma SIntRoundTrip(n: int, rest: Bytes)
    requires -0x8000_0000_0000_0000 <= n < -32
    ensures Parse(EncodeInt(n) + rest) == Done(Int(n), |EncodeInt(n)|)
  {
    var m, w := EncodesNegative(n);
    TwosComplement(m, w, n, rest);
  }

  lemma IntRoundTrip(n: int, rest: Bytes)
    requires -0x8000_0000_0000_0000 <= n < 0x1_0000_0000_0000_0000
    ensures Parse(EncodeInt(n) + rest) == Done(Int(n), |EncodeInt(n)|)
  {
    if 0x80 <= n {
      UIntRoundTrip(n, rest);
    } else if n < -32 {
      SIntRoundTrip(n, rest);
    }
  }

  lemma TextRoundTrip(s: Bytes, rest: Bytes)
    requires |s| < 0x1_0000_0000
    ensures var head := EncodeLen(|s|, 32, 0xa0, Some(0xd9), 0xda, 0xdb);
            Parse(head + s + rest) == Done(Str(s), |head| + |s|)
  {
    Pow256Values();
    if |s| < 32 { ParseFixed(0xa0 + |s|, Text, s, rest); }
    else if |s| < 0x100 { ParseSized(0xd9, Text, 1, s, rest); }
    else if |s| < 0x1_0000 { ParseSized(0xda, Text, 2, s, rest); }
    else { ParseSized(0xdb, Text, 4, s, rest); }
  }

  lemma BlobRoundTrip(s: Bytes, rest: Bytes)
    requires |s| < 0x1_0000_0000
    ensures var head := EncodeLen(|s|, 0, 0, Some(0xc4), 0xc5, 0xc6);
            Parse(head + s + rest) == Done(Bin(s), |head| + |s|)
  {
    Pow256Values();
    if |s| < 0x100 { ParseSized(0xc4, Blob, 1, s, rest); }
    else if |s| < 0x1_0000 { ParseSized(0xc5, Blob, 2, s, rest); }
    else { ParseSized(0xc6, Blob, 4, s, rest); }
  }

  lemma CountRoundTrip(dict: bool, n: nat, body: Bytes)
    requires n < 0x1_0000_0000
    ensures Parse(CountHead(dict, n) + body) == Wrap(dict, |CountHead(dict, n)|, ParseMany(body, Elements(dict, n)))
  {
    Pow256Values();
    if n < 16 { ParseCounted((if dict then 0x80 else 0x90) + n, dict, n, body); }
    else if n < 0x1_0000 { ParseSizedMany(if dict then 0xde else 0xdc, dict, 2, n, body); }
    else { ParseSizedMany(if dict then 0xdf else 0xdd, dict, 4, n, body); }
  }

  lemma DecodeEncodeLeaf(v: Value, rest: Bytes)
    requires Encodable(v) && !v.Arr? && !v.Dict?
    ensures Parse(Encode(v) + rest) == Done(v, |Encode(v)|)
  {
    match v
    case Nil =>
    case Bool(_) =>
    case Int(n) => IntRoundTrip(n, rest);
    case Float(bits) => ParseFixed(if |bits| == 4 then 0xca else 0xcb, Real, bits, rest);
    case Str(s) => TextRoundTrip(s, rest);
    case Bin(s) => BlobRoundTrip(s, rest);
  }

  lemma ManyRoundTrip(dict: bool, n: nat, vs: seq<Value>, body: Bytes, rest: Bytes)
    requires n < 0x1_0000_0000 && |vs| == Elements(dict, n)
    requires ParseMany(body + rest, |vs|) == Done(vs, |body|)
    ensures Parse(CountHead(dict, n) + body + rest) ==
              Done(if dict then Dict(vs) else Arr(vs), |CountHead(dict, n) + body|)
  {
    CountRoundTrip(dict, n, body + rest);
    Regroup(CountHead(dict, n), body, rest);
  }

  // Whatever follows it, an encoded value is read back, from exactly its own bytes.
  lemma {:induction false} DecodeEncode(v: Value, rest: Bytes)
    requires Encodable(v)
    ensures Parse(Encode(v) + rest) == Done(v, |Encode(v)|)
    decreases v, 0
  {
    match v
    case Arr(vs) =>
      DecodeEncodeAll(vs, rest);
      ManyRoundTrip(false, |vs|, vs, EncodeAll(vs), rest);
    case Dict(vs) =>
      DecodeEncodeAll(vs, rest);
      ManyRoundTrip(true, |vs| / 2, vs, EncodeAll(vs), rest);
    case _ => DecodeEncodeLeaf(v, rest);
  }

  lemma {:induction false} DecodeEncodeAll(vs: seq<Value>, rest: Bytes)
    requires forall e :: e in vs ==> Encodable(e)
    ensures ParseMany(EncodeAll(vs) + rest, |vs|) == Done(vs, |EncodeAll(vs)|)
    decreases vs, 1
  {
    if vs != [] {
      var first, tail := Encode(vs[0]), EncodeAll(vs[1..]) + rest;
      assert EncodeAll(vs) + rest == first + tail;
      DecodeEncode(vs[0], tail);
      DecodeEncodeAll(vs[1..], rest);
      ParseManyCons(vs[0], first, vs[1..], tail);
      assert vs == [vs[0]] + vs[1..];
    }
  }

  lemma ParseManyCons(v: Value, first: Bytes, vs: seq<Value>, tail: Bytes)
    requires Parse(first + tail) == Done(v, |first|) && ParseMany(tail, |vs|).Done?
    requires ParseMany(tail, |vs|).value == vs
    ensures ParseMany(first + tail, 1 + |vs|) == Done([v] + vs, |first| + ParseMany(tail, |vs|).len)
  {
    assert (first + tail)[|first|..] == tail;
  }

  // ----- Formats the encoder does not choose -----

  // The first byte of a number is the most significant.
  lemma {:induction false} FirstByteCountsMost(first: byte, b: Bytes)
    ensures FromBE([first] + b) == first * Pow256(|b|) + FromBE(b)
  {
    if b == [] {
      assert ([first] + b)[..0] == [];
    } else {
      var init, last := b[..|b| - 1], b[|b| - 1];
      FirstByteCountsMost(first, init);
      assert ([first] + b)[..|b|] == [first] + init;
      assert 256 * (first * Pow256(|init|)) == first * Pow256(|b|);
    }
  }

  // Numbers of every width, however small.
  lemma NumbersRead(n: int, w: nat, u: byte, s: byte, rest: Bytes)
    requires (w, u, s) in {(1, 0xcc, 0xd0), (2, 0xcd, 0xd1), (4, 0xce, 0xd2), (8, 0xcf, 0xd3)}
    ensures 0 <= n < Pow256(w) ==> Parse(Num(u, n, w) + rest) == Done(Int(n), 1 + w)
    ensures 0 <= 2 * n < Pow256(w) ==> Parse(Num(s, n, w) + rest) == Done(Int(n), 1 + w)
    ensures n < 0 <= 2 * n + Pow256(w) ==> Parse(Num(s, n + Pow256(w), w) + rest) == Done(Int(n), 1 + w)
  {
    Pow256Values();
    if 0 <= n < Pow256(w) {
      FromToBE(n, w);
      ParseFixed(u, UInt, ToBE(n, w), rest);
      ParseFixed(s, SInt, ToBE(n, w), rest);
    } else if n < 0 <= 2 * n + Pow256(w) {
      TwosComplement(s, w, n, rest);
    }
  }

  // Texts and blobs with a length of every width.
  lemma SizesRead(p: Bytes, w: nat, text: byte, blob: byte, rest: Bytes)
    requires (w, text, blob) in {(1, 0xd9, 0xc4), (2, 0xda, 0xc5), (4, 0xdb, 0xc6)} && |p| < Pow256(w)
    ensures Parse(Num(text, |p|, w) + p + rest) == Done(Str(p), 1 + w + |p|)
    ensures Parse(Num(blob, |p|, w) + p + rest) == Done(Bin(p), 1 + w + |p|)
  {
    ParseSized(text, Text, w, p, rest);
    ParseSized(blob, Blob, w, p, rest);
  }

  // Extensions of a fixed size, and with a length of every width.
  lemma FixedExtensionsRead(m: byte, tag: byte, body: Bytes, rest: Bytes)
    requires (|body|, m) in {(1, 0xd4), (2, 0xd5), (4, 0xd6), (8, 0xd7), (16, 0xd8)}
    ensures Parse([m] + ([tag] + body) + rest) == Done(Ext(tag, body), 2 + |body|)
  {
    ParseFixed(m, Extension, [tag] + body, rest);
    assert ([tag] + body)[1..] == body;
  }

  lemma SizedExtensionsRead(m: byte, w: nat, tag: byte, body: Bytes, rest: Bytes)
    requires (w, m) in {(1, 0xc7), (2, 0xc8), (4, 0xc9)} && |body| < Pow256(w)
    ensures Parse(Num(m, |body|, w) + ([tag] + body) + rest) == Done(Ext(tag, body), 2 + w + |body|)
  {
    var p := [tag] + body;
    MarkedSlices(m, ToBE(|body|, w), p, rest);
    FromToBE(|body|, w);
    assert p[1..] == body;
  }

  // The one byte that starts no value.
  lemma ReservedByte(b: byte, rest: Bytes)
    ensures Classify(b) == Reserved <==> b == 0xc1
    ensures Parse([0xc1] + rest) == Bad
  {
  }
}
