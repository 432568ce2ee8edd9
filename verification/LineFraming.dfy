/** shared_memory/channel.py: newline-terminated lines from a stream that arrives in arbitrary chunks. */
module LineFraming {
  import opened Common
  import opened Sockets

  const NEWLINE: byte := 10

  predicate OneLine(b: Bytes) {
    NEWLINE !in b
  }

  /** The first newline, or -1. */
  function Find(b: Bytes): (n: int)
    ensures -1 <= n < |b|
    ensures n == -1 <==> OneLine(b)
    ensures n >= 0 ==> b[n] == NEWLINE && OneLine(b[..n])
  {
    IndexOf(b, NEWLINE)
  }

  lemma FindFirst(head: Bytes, rest: Bytes)
    requires OneLine(head)
    ensures Find(head + [NEWLINE] + rest) == |head|
  {
    IndexOfFirst(head, NEWLINE, rest);
  }

  /** What stands before each newline of `b`. */
  function Pieces(b: Bytes): seq<Bytes> {
    var n := Find(b);
    if n == -1 then [] else [b[..n]] + Pieces(b[n + 1..])
  }

  /** What stands after the last newline of `b`. */
  function Tail(b: Bytes): Bytes {
    var n := Find(b);
    if n == -1 then b else Tail(b[n + 1..])
  }

  function Unlines(pieces: seq<Bytes>): Bytes {
    if pieces == [] then [] else pieces[0] + [NEWLINE] + Unlines(pieces[1..])
  }

  function NonEmpty(pieces: seq<Bytes>): seq<Bytes> {
    if pieces == [] then [] else (if pieces[0] == [] then [] else [pieces[0]]) + NonEmpty(pieces[1..])
  }

  /** The lines handed to the parser: blank ones are skipped. */
  function Lines(b: Bytes): seq<Bytes> {
    NonEmpty(Pieces(b))
  }

  /** The first line of a stream is split off it. */
  lemma OneLineThen(head: Bytes, rest: Bytes)
    requires OneLine(head)
    ensures Pieces(head + [NEWLINE] + rest) == [head] + Pieces(rest)
    ensures Tail(head + [NEWLINE] + rest) == Tail(rest)
  {
    var b := head + [NEWLINE] + rest;
    FindFirst(head, rest);
    hide OneLine, Find;
    assert b[..|head|] == head && b[|head| + 1..] == rest;
  }

  /** The pieces and the tail are a decomposition of the bytes, none of them containing a newline. */
  lemma {:induction false} PiecesAreTheBytes(b: Bytes)
    ensures Unlines(Pieces(b)) + Tail(b) == b
    ensures OneLine(Tail(b)) && forall i :: 0 <= i < |Pieces(b)| ==> OneLine(Pieces(b)[i])
    decreases |b|
  {
    hide OneLine, Find, Pieces, Tail, Unlines;
    var n := Find(b);
    if n == -1 {
      NoLines(b);
    } else {
      var head, rest := b[..n], b[n + 1..];
      PiecesAreTheBytes(rest);
      assert b == head + [NEWLINE] + rest;
      OneLineThen(head, rest);
      UnlinesStep(head, Pieces(rest));
      assert head + [NEWLINE] + Unlines(Pieces(rest)) + Tail(rest) == head + [NEWLINE] + (Unlines(Pieces(rest)) + Tail(rest));
    }
  }

  lemma NoLines(b: Bytes)
    requires Find(b) == -1
    ensures Pieces(b) == [] && Tail(b) == b && Unlines(Pieces(b)) == []
  {
    hide OneLine, Find;
  }

  lemma UnlinesStep(head: Bytes, pieces: seq<Bytes>)
    ensures Unlines([head] + pieces) == head + [NEWLINE] + Unlines(pieces)
  {
    assert ([head] + pieces)[1..] == pieces;
  }

  /** Whole lines in front of a stream are split off it and do not affect the rest. */
  lemma {:induction false} LinesThen(pieces: seq<Bytes>, rest: Bytes)
    requires forall i :: 0 <= i < |pieces| ==> OneLine(pieces[i])
    ensures Pieces(Unlines(pieces) + rest) == pieces + Pieces(rest)
    ensures Tail(Unlines(pieces) + rest) == Tail(rest)
  {
    hide OneLine, Find, Pieces, Tail;
    if pieces == [] {
      assert Unlines(pieces) + rest == rest;
    } else {
      var after := Unlines(pieces[1..]) + rest;
      assert Unlines(pieces) + rest == pieces[0] + [NEWLINE] + after;
      OneLineThen(pieces[0], after);
      LinesThen(pieces[1..], rest);
      assert pieces == [pieces[0]] + pieces[1..];
    }
  }

  /** They are the only such decomposition: lines written one after the other, and an unfinished one,
      are found again. */
  lemma DecompositionIsUnique(pieces: seq<Bytes>, tail: Bytes)
    requires OneLine(tail) && forall i :: 0 <= i < |pieces| ==> OneLine(pieces[i])
    ensures Pieces(Unlines(pieces) + tail) == pieces && Tail(Unlines(pieces) + tail) == tail
  {
    LinesThen(pieces, tail);
  }

  lemma {:induction false} NonEmptyAppend(p: seq<Bytes>, q: seq<Bytes>)
    ensures NonEmpty(p + q) == NonEmpty(p) + NonEmpty(q)
  {
    if p == [] {
      assert p + q == q;
    } else {
      assert (p + q)[1..] == p[1..] + q;
      NonEmptyAppend(p[1..], q);
    }
  }

  /** A line is handed on iff it is one of the pieces and not blank. */
  lemma {:induction false} NonEmptyKeeps(p: seq<Bytes>, line: Bytes)
    ensures line in NonEmpty(p) <==> line in p && line != []
  {
    if p != [] {
      assert p == [p[0]] + p[1..];
      NonEmptyKeeps(p[1..], line);
    }
  }

  /** After some bytes only the unfinished line matters. */
  lemma OnlyTheTailMatters(before: Bytes, chunk: Bytes)
    ensures Lines(before + chunk) == Lines(before) + Lines(Tail(before) + chunk)
    ensures Tail(before + chunk) == Tail(Tail(before) + chunk)
  {
    PiecesAreTheBytes(before);
    hide OneLine, Find, Pieces, Tail, NonEmpty;
    assert before + chunk == Unlines(Pieces(before)) + (Tail(before) + chunk);
    LinesThen(Pieces(before), Tail(before) + chunk);
    NonEmptyAppend(Pieces(before), Pieces(Tail(before) + chunk));
  }

  function Concat(chunks: seq<Bytes>): Bytes {
    if chunks == [] then [] else Concat(chunks[..|chunks| - 1]) + chunks[|chunks| - 1]
  }

  /** The lines handed on, and the buffer left, when a stream arrives chunk by chunk. */
  function Received(chunks: seq<Bytes>): (seq<Bytes>, Bytes) {
    if chunks == [] then ([], [])
    else
      var (lines, buffer) := Received(chunks[..|chunks| - 1]);
      var all := buffer + chunks[|chunks| - 1];
      (lines + Lines(all), Tail(all))
  }

  /** However a stream is cut into chunks, the same lines are handed on, and between any two chunks the
      buffer holds the unfinished line. */
  lemma {:induction false} ChunkingIsIrrelevant(chunks: seq<Bytes>)
    ensures Received(chunks) == (Lines(Concat(chunks)), Tail(Concat(chunks)))
  {
    if chunks != [] {
      ChunkingIsIrrelevant(chunks[..|chunks| - 1]);
      OnlyTheTailMatters(Concat(chunks[..|chunks| - 1]), chunks[|chunks| - 1]);
    }
  }

  class LineReceiver {
    var buffer: Bytes

    constructor ()
      ensures buffer == []
    {
      buffer := [];
    }

    /** One chunk: the inner loop. */
    method Feed(chunk: Bytes) returns (lines: seq<Bytes>)
      modifies this
      ensures lines == Lines(old(buffer) + chunk)
      ensures buffer == Tail(old(buffer) + chunk)
    {
      hide OneLine, Find;
      lines := [];
      buffer := buffer + chunk;
      ghost var all := buffer;
      while true
        invariant lines + Lines(buffer) == Lines(all) && Tail(buffer) == Tail(all)
        decreases |buffer|
      {
        var newline := Find(buffer);
        if newline == -1 {
          break;
        }
        var line := buffer[..newline];
        buffer := buffer[newline + 1..];
        if line == [] {
          continue;
        }
        lines := lines + [line];
      }
    }

    /** The receive loop, which ends when the peer has closed or the receiver is stopped: what was read
        from the socket, in chunks of any size, determines the lines and the buffer. */
    method Run(sock: Socket) returns (lines: seq<Bytes>, stopped: bool, ghost read: Bytes)
      requires buffer == []
      modifies this, sock`inbox
      ensures read + sock.inbox == old(sock.inbox) && (!stopped ==> sock.inbox == [])
      ensures lines == Lines(read) && buffer == Tail(read)
    {
      hide OneLine, Find;
      lines, read, stopped := [], [], *;
      while !stopped
        invariant read + sock.inbox == old(sock.inbox)
        invariant lines == Lines(read) && buffer == Tail(read)
        decreases |sock.inbox|, !stopped
      {
        var chunk := sock.Recv(65536);
        if chunk == [] {
          break;
        }
        var more := Feed(chunk);
        OnlyTheTailMatters(read, chunk);
        lines, read, stopped := lines + more, read + chunk, *;
      }
    }
  }
}
