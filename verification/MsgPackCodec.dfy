/**
 * `MsgPackCodec` and the receive loop around it: frames are cut from a growing buffer as soon as
 * they are complete.
 */
module MsgPackCodec {
  import opened Common
  import opened MessagePack

  datatype Frame<T> = Frame(obj: T, vec: Bytes)

  // How T is deserialized: from a value, which may be refused; and a reader that has seen enough of an
  // incomplete value may refuse it then and there.
  datatype Reader<!T> = Reader(convert: Value -> Option<T>, refuses: Bytes -> bool)

  datatype Failure = InvalidData

  // ----- What the codec does -----

  function DecodeSpec<T>(rd: Reader<T>, b: Bytes): (Result<Option<Frame<T>>, Failure>, Bytes) {
    match Parse(b)
    case More => if rd.refuses(b) then (Err(InvalidData), b) else (Ok(None), b)
    case Bad => (Err(InvalidData), b)
    case Done(v, len) =>
      match rd.convert(v)
      case None => (Err(InvalidData), b)
      case Some(obj) => (Ok(Some(Frame(obj, b[..len]))), b[len..])
  }

  datatype Drained<T> = Drained(frames: seq<Frame<T>>, rest: Bytes, failed: bool)

  function Prepend<T>(frames: seq<Frame<T>>, d: Drained<T>): Drained<T> {
    d.(frames := frames + d.frames)
  }

  function Drain<T>(rd: Reader<T>, b: Bytes): Drained<T>
    decreases |b|
  {
    match DecodeSpec(rd, b)
    case (Err(_), rest) => Drained([], rest, true)
    case (Ok(None), rest) => Drained([], rest, false)
    case (Ok(Some(frame)), rest) => Prepend([frame], Drain(rd, rest))
  }

  // A connection: chunks are received until one fails.
  function Feed<T>(rd: Reader<T>, buf: Bytes, chunks: seq<Bytes>): Drained<T>
    decreases |chunks|
  {
    if chunks == [] then Drained([], buf, false)
    else
      var d := Drain(rd, buf + chunks[0]);
      if d.failed then d else Prepend(d.frames, Feed(rd, d.rest, chunks[1..]))
  }

  // ----- The code -----

  class Buffer {
    var data: Bytes

    constructor ()
      ensures data == []
    {
      data := [];
    }
  }

  class Codec<T> {
    const rd: Reader<T>

    constructor (rd: Reader<T>)
      ensures this.rd == rd
    {
      this.rd := rd;
    }

    // A complete value leaves the buffer; anything else leaves the buffer as it was.
    method Decode(src: Buffer) returns (r: Result<Option<Frame<T>>, Failure>)
      modifies src
      ensures (r, src.data) == DecodeSpec(rd, old(src.data))
      ensures r.Ok? && r.value.Some? ==> old(src.data) == r.value.value.vec + src.data && r.value.value.vec != []
    {
      match Parse(src.data)
      case More => r := if rd.refuses(src.data) then Err(InvalidData) else Ok(None);
      case Bad => r := Err(InvalidData);
      case Done(v, len) =>
        match rd.convert(v) {
          case None => r := Err(InvalidData);
          case Some(obj) =>
            var vec := src.data[..len];
            src.data := src.data[len..];
            r := Ok(Some(Frame(obj, vec)));
        }
    }

    // One turn of the receive loop: a read appends a chunk, then frames are taken until none is
    // complete or the data is invalid.
    method Receive(src: Buffer, chunk: Bytes) returns (frames: seq<Frame<T>>, failed: bool)
      modifies src
      ensures Drained(frames, src.data, failed) == Drain(rd, old(src.data) + chunk)
    {
      src.data := src.data + chunk;
      ghost var start := src.data;
      frames, failed := [], false;
      while true
        invariant Drain(rd, start) == Prepend(frames, Drain(rd, src.data))
        decreases |src.data|
      {
        var r := Decode(src);
        if r.Err? {
          failed := true;
          return;
        }
        if r.value.None? {
          return;
        }
        frames := frames + [r.value.value];
      }
    }
  }

  // ----- Chunking does not matter -----

  ghost predicate StartsWithFrame<T>(rd: Reader<T>, b: Bytes) {
    Parse(b).Done? && rd.convert(Parse(b).value).Some?
  }

  lemma PrependPrepend<T>(f: seq<Frame<T>>, g: seq<Frame<T>>, d: Drained<T>)
    ensures Prepend(f, Prepend(g, d)) == Prepend(f + g, d)
  {
    assert f + (g + d.frames) == f + g + d.frames;
  }

  // More bytes do not turn a refused beginning into something that is not refused.
  ghost predicate StaysRefused<T>(rd: Reader<T>, b: Bytes, x: Bytes) {
    Parse(b) == More && rd.refuses(b) ==> DecodeSpec(rd, b + x).0.Err?
  }

  // A reader that works from left to right never takes a refusal back, and refuses nothing unseen.
  ghost predicate Settled<T>(rd: Reader<T>) {
    !rd.refuses([]) && forall b, x :: StaysRefused(rd, b, x)
  }

  // Bytes that arrive later only continue what a drain has done.
  lemma {:induction false} DrainExtend<T>(rd: Reader<T>, b: Bytes, x: Bytes)
    requires Settled(rd)
    ensures var d := Drain(rd, b);
            if d.failed then Drain(rd, b + x).frames == d.frames && Drain(rd, b + x).failed
            else Drain(rd, b + x) == Prepend(d.frames, Drain(rd, d.rest + x))
    decreases |b|
  {
    if Parse(b) != More {
      ParseExtend(b, x);
    } else {
      assert StaysRefused(rd, b, x);
    }
    if StartsWithFrame(rd, b) {
      var len := Parse(b).len;
      var frame := [Frame(rd.convert(Parse(b).value).value, b[..len])];
      assert (b + x)[..len] == b[..len] && (b + x)[len..] == b[len..] + x;
      DrainExtend(rd, b[len..], x);
      var d := Drain(rd, b[len..]);
      PrependPrepend(frame, d.frames, Drain(rd, d.rest + x));
    } else {
      assert Prepend([], Drain(rd, b + x)) == Drain(rd, b + x);
    }
  }

  // What a drain leaves behind holds no complete frame.
  lemma {:induction false} DrainIsExhaustive<T>(rd: Reader<T>, b: Bytes)
    ensures var d := Drain(rd, b);
            d.failed ||
            (Drain(rd, d.rest) == Drained([], d.rest, false) && Parse(d.rest) == More && !rd.refuses(d.rest))
    decreases |b|
  {
    if StartsWithFrame(rd, b) {
      DrainIsExhaustive(rd, b[Parse(b).len..]);
    }
  }

  // What is left of a failed stream depends on the chunk it failed in; nothing else does.
  ghost predicate SameOutcome<T>(f: Drained<T>, d: Drained<T>) {
    f.frames == d.frames && f.failed == d.failed && (!d.failed ==> f.rest == d.rest)
  }

  lemma {:induction false} FeedIsDrain<T>(rd: Reader<T>, buf: Bytes, chunks: seq<Bytes>)
    requires Settled(rd) && Drain(rd, buf) == Drained([], buf, false)
    ensures SameOutcome(Feed(rd, buf, chunks), Drain(rd, buf + Flatten(chunks)))
    decreases |chunks|
  {
    if chunks == [] {
      assert buf + Flatten(chunks) == buf;
    } else {
      var now, later := buf + chunks[0], Flatten(chunks[1..]);
      assert buf + Flatten(chunks) == now + later;
      DrainExtend(rd, now, later);
      var d := Drain(rd, now);
      if !d.failed {
        DrainIsExhaustive(rd, now);
        FeedIsDrain(rd, d.rest, chunks[1..]);
      }
    }
  }

  // However a byte stream is cut into reads, the same frames come out, and the same error.
  lemma ChunkingIrrelevant<T>(rd: Reader<T>, chunks: seq<Bytes>)
    requires Settled(rd)
    ensures SameOutcome(Feed(rd, [], chunks), Drain(rd, Flatten(chunks)))
  {
    FeedIsDrain(rd, [], chunks);
    assert [] + Flatten(chunks) == Flatten(chunks);
  }

  lemma FeedTwo<T>(rd: Reader<T>, b: Bytes, x: Bytes)
    requires Parse(b) == More && rd.refuses(b)
    ensures Flatten([b, x]) == b + x && Feed(rd, [], [b, x]) == Drained([], b, true)
  {
    assert [b, x][1..] == [x] && [x][1..] == [] && [] + b == b;
    assert Flatten([x]) == x && Flatten([b, x]) == b + x;
  }

  lemma RefusedFailsAtOnce<T>(rd: Reader<T>, b: Bytes)
    requires Drain(rd, b).frames == [] && Drain(rd, b).failed
    ensures DecodeSpec(rd, b).0.Err?
  {
  }

  lemma RefusalStays<T>(rd: Reader<T>, b: Bytes, x: Bytes)
    requires SameOutcome(Feed(rd, [], [b, x]), Drain(rd, Flatten([b, x])))
    ensures StaysRefused(rd, b, x)
  {
    if Parse(b) == More && rd.refuses(b) {
      FeedTwo(rd, b, x);
      RefusedFailsAtOnce(rd, b + x);
    }
  }

  ghost predicate ChunksDoNotMatter<T>(rd: Reader<T>) {
    forall chunks :: SameOutcome(Feed(rd, [], chunks), Drain(rd, Flatten(chunks)))
  }

  // No cut of any stream matters exactly if the reader never takes a refusal back.
  lemma ChunkingIrrelevantIff<T>(rd: Reader<T>)
    ensures ChunksDoNotMatter(rd) <==> Settled(rd)
  {
    if Settled(rd) {
      forall chunks ensures SameOutcome(Feed(rd, [], chunks), Drain(rd, Flatten(chunks))) {
        ChunkingIrrelevant(rd, chunks);
      }
    }
    if ChunksDoNotMatter(rd) {
      forall b, x ensures StaysRefused(rd, b, x) {
        RefusalStays(rd, b, x);
      }
      assert SameOutcome(Feed(rd, [], []), Drain(rd, Flatten([])));
    }
  }

  function Vecs<T>(frames: seq<Frame<T>>): seq<Bytes> {
    seq(|frames|, i requires 0 <= i < |frames| => frames[i].vec)
  }

  // A frame is one value: it decodes from its own bytes and no fewer.
  ghost predicate WellCut<T>(rd: Reader<T>, f: Frame<T>) {
    Parse(f.vec).Done? && Parse(f.vec).len == |f.vec| && rd.convert(Parse(f.vec).value) == Some(f.obj)
  }

  lemma VecsCons<T>(f: Frame<T>, frames: seq<Frame<T>>)
    ensures Flatten(Vecs([f] + frames)) == f.vec + Flatten(Vecs(frames))
  {
    assert Vecs([f] + frames)[1..] == Vecs(frames);
  }

  // Frames and leftover are the input.
  lemma {:induction false} DrainConserves<T>(rd: Reader<T>, b: Bytes)
    ensures var d := Drain(rd, b);
            Flatten(Vecs(d.frames)) + d.rest == b && forall i :: 0 <= i < |d.frames| ==> WellCut(rd, d.frames[i])
    decreases |b|
  {
    if StartsWithFrame(rd, b) {
      var len := Parse(b).len;
      ParseTrim(b);
      DrainConserves(rd, b[len..]);
      var d := Drain(rd, b[len..]);
      var frame := Frame(rd.convert(Parse(b).value).value, b[..len]);
      assert Drain(rd, b) == Prepend([frame], d);
      VecsCons(frame, d.frames);
      SplitAt(b, len);
      assert b[..len] + Flatten(Vecs(d.frames)) + d.rest == b[..len] + (Flatten(Vecs(d.frames)) + d.rest);
    }
  }

  // ----- End to end -----

  ghost predicate AllEncodable<T>(rd: Reader<T>, vs: seq<Value>) {
    forall v :: v in vs ==> Encodable(v) && rd.convert(v).Some?
  }

  lemma {:induction false} DrainEncoded<T>(rd: Reader<T>, vs: seq<Value>, partial: Bytes)
    requires AllEncodable(rd, vs) && Parse(partial) == More && !rd.refuses(partial)
    ensures var d := Drain(rd, EncodeAll(vs) + partial);
            && d.rest == partial && !d.failed && |d.frames| == |vs|
            && forall i :: 0 <= i < |vs| ==> d.frames[i] == Frame(rd.convert(vs[i]).value, Encode(vs[i]))
    decreases |vs|
  {
    var b := EncodeAll(vs) + partial;
    if vs == [] {
      assert b == partial;
    } else {
      var tail := EncodeAll(vs[1..]) + partial;
      assert b == Encode(vs[0]) + tail;
      DecodeEncode(vs[0], tail);
      assert b[..|Encode(vs[0])|] == Encode(vs[0]) && b[|Encode(vs[0])|..] == tail;
      DrainEncoded(rd, vs[1..], partial);
      var d := Drain(rd, tail);
      assert Drain(rd, b) == Prepend([Frame(rd.convert(vs[0]).value, Encode(vs[0]))], d);
    }
  }

  // Messages sent one after the other arrive as they were sent, each with exactly its bytes, however
  // the stream is cut and even when the last message is still incomplete.
  lemma MessagesArrive<T>(rd: Reader<T>, vs: seq<Value>, partial: Bytes, chunks: seq<Bytes>)
    requires Settled(rd) && AllEncodable(rd, vs)
    requires Parse(partial) == More && !rd.refuses(partial) && Flatten(chunks) == EncodeAll(vs) + partial
    ensures var f := Feed(rd, [], chunks);
            && f.rest == partial && !f.failed && |f.frames| == |vs|
            && forall i :: 0 <= i < |vs| ==> f.frames[i] == Frame(rd.convert(vs[i]).value, Encode(vs[i]))
  {
    DrainEncoded(rd, vs, partial);
    ChunkingIrrelevant(rd, chunks);
  }
}
