/**
 * The stream wrapper of the forked extension host: what is written to stdout or stderr is collected and
 * logged by complete lines, or wholesale once the buffer grows too large.
 */
module LineBuffer {
  import opened Common

  const MAX_STREAM_BUFFER_LENGTH: nat := 1024 * 1024

  // One console call: its text, and whether a newline was consumed behind it.
  datatype Piece = Piece(text: string, newline: bool)

  function Consumed(p: Piece): string {
    if p.newline then p.text + "\n" else p.text
  }

  function ConsumedAll(ps: seq<Piece>): string {
    if ps == [] then "" else ConsumedAll(ps[..|ps| - 1]) + Consumed(ps[|ps| - 1])
  }

  // One past the last newline; 0 if there is none.
  function LineEnd(s: string): (n: nat)
    ensures n <= |s| && '\n' !in s[n..] && (n > 0 ==> s[n - 1] == '\n')
  {
    if s == "" then 0
    else if s[|s| - 1] == '\n' then |s|
    else
      var n := LineEnd(s[..|s| - 1]);
      assert s[n..] == s[..|s| - 1][n..] + [s[|s| - 1]];
      n
  }

  lemma {:induction false} LineEndOfAppend(c: string, rest: string)
    requires '\n' !in rest && (c == "" || c[|c| - 1] == '\n')
    ensures LineEnd(c + rest) == |c|
    decreases |rest|
  {
    if rest == "" {
      assert c + rest == c;
    } else {
      var init := rest[..|rest| - 1];
      assert rest[|rest| - 1] in rest;
      assert (c + rest)[..|c + rest| - 1] == c + init;
      LineEndOfAppend(c, init);
    }
  }

  class Wrapper {
    var buf: string
    ghost var input: string         // everything written
    ghost var pieces: seq<Piece>    // everything logged

    // Nothing is lost or repeated, and the buffer is an unfinished line of bounded length.
    ghost predicate Valid()
      reads this
    {
      && ConsumedAll(pieces) + buf == input
      && '\n' !in buf && |buf| <= MAX_STREAM_BUFFER_LENGTH
    }

    constructor ()
      ensures Valid() && input == "" && pieces == []
    {
      buf, input, pieces := "", "", [];
    }

    method Write(chunk: string) returns (logged: Option<string>)
      requires Valid()
      modifies this
      ensures Valid() && input == old(input) + chunk
      ensures logged.None? ==> pieces == old(pieces)
      ensures logged.Some? ==>
                exists newline :: pieces == old(pieces) + [Piece(logged.value, newline)]
                                  && (!newline <==> |old(buf) + chunk| > MAX_STREAM_BUFFER_LENGTH)
      ensures logged.None? ==> '\n' !in chunk
      ensures |old(buf) + chunk| > MAX_STREAM_BUFFER_LENGTH ==> logged == Some(old(buf) + chunk) && buf == ""
    {
      Regroup(ConsumedAll(pieces), buf, chunk);
      buf := buf + chunk;
      input := input + chunk;
      var eol: int := if |buf| > MAX_STREAM_BUFFER_LENGTH then |buf| else LineEnd(buf) - 1;
      if eol == -1 {
        return None;
      }
      var text := buf[..eol];
      assert eol == |buf| ==> text == buf;
      Cut(pieces, buf, eol);
      pieces := pieces + [Piece(text, eol < |buf|)];
      buf := if eol < |buf| then buf[eol + 1..] else "";
      logged := Some(text);
    }

    lemma Cut(ps: seq<Piece>, all: string, eol: nat)
      requires eol <= |all| && (eol < |all| ==> all[eol] == '\n')
      ensures var piece := Piece(all[..eol], eol < |all|);
              ConsumedAll(ps + [piece]) + (if eol < |all| then all[eol + 1..] else "") == ConsumedAll(ps) + all
    {
      var piece := Piece(all[..eol], eol < |all|);
      var rest := if eol < |all| then all[eol + 1..] else "";
      assert (ps + [piece])[..|ps|] == ps;
      assert all == Consumed(piece) + rest;
      Regroup(ConsumedAll(ps), Consumed(piece), rest);
    }

    // However the output was cut into writes, exactly the complete lines have been logged, if and only if
    // nothing has been logged or what has been logged ends with a line: an overflow may break a line up,
    // and the next newline makes that good.
    lemma LoggedCompleteLines()
      requires Valid()
      ensures var c := ConsumedAll(pieces);
              LineEnd(input) <= |input| && (c == input[..LineEnd(input)] <==> c == "" || c[|c| - 1] == '\n')
    {
      var c := ConsumedAll(pieces);
      assert input == c + buf;
      var n := LineEnd(input);
      assert n > 0 ==> input[..n][n - 1] == '\n';
      if c == "" || c[|c| - 1] == '\n' {
        LineEndOfAppend(c, buf);
      }
    }
  }

}
