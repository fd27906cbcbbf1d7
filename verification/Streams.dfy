/** The two ends of a connection, as the decoders see them. */
module Streams {
  import opened Bytes

  /** How many bytes `read_line` takes. */
  function LineEnd(b: seq<byte>): (n: nat)
    ensures n <= |b|
    ensures LF !in b[..n] ==> n == |b|
    ensures LF in b[..n] ==> b[n - 1] == LF && LF !in b[..n - 1]
  {
    if b == [] then 0
    else if b[0] == LF then 1
    else
      var n := LineEnd(b[1..]);
      assert b[..n + 1] == [b[0]] + b[1..][..n];
      assert n > 0 ==> b[..n] == [b[0]] + b[1..][..n - 1];
      n + 1
  }

  /** A byte stream whose reads may come back short at any point.
      `rest` is everything it will still deliver; after that it reports end of file, or,
      when `broken`, an I/O error (a reset, a stall past the timeout, a cancelled transfer). */
  class Source {
    var rest: seq<byte>
    const broken: bool

    constructor (data: seq<byte>, broken: bool)
      ensures rest == data && this.broken == broken
    {
      this.rest := data;
      this.broken := broken;
    }

    /** One `read` into a buffer of `max` bytes: some non-empty part of what is left. */
    method Read(max: nat) returns (got: seq<byte>, failed: bool)
      requires max > 0
      modifies this
      ensures old(rest) == got + rest && |got| <= max
      ensures got == [] <==> old(rest) == []
      ensures failed <==> old(rest) == [] && broken
    {
      got, failed := [], false;
      if rest == [] {
        failed := broken;
      } else {
        var n :| 1 <= n <= max && n <= |rest|;
        got, rest := rest[..n], rest[n..];
      }
    }

    /** One `read` into `buffer[from..]`. */
    method ReadInto(buffer: array<byte>, from: nat) returns (n: nat, failed: bool)
      requires from < buffer.Length
      modifies this, buffer
      ensures n <= |old(rest)| && n <= buffer.Length - from
      ensures rest == old(rest)[n..]
      ensures n == 0 <==> old(rest) == []
      ensures failed <==> old(rest) == [] && broken
      ensures buffer[..] == old(buffer[..from]) + old(rest)[..n] + old(buffer[from + n..])
    {
      var got;
      got, failed := Read(buffer.Length - from);
      n := |got|;
      forall i | 0 <= i < n {
        buffer[from + i] := got[i];
      }
      assert got == old(rest)[..n];
    }

    /** `take(n)` read to its end: `n` bytes, or fewer when the stream ends first. */
    method Take(n: nat) returns (got: seq<byte>, failed: bool)
      modifies this
      ensures got == old(rest)[..Min(n, |old(rest)|)]
      ensures rest == old(rest)[|got|..]
      ensures failed <==> |got| < n && broken
    {
      got, failed := [], false;
      while |got| < n
        invariant |got| <= n && !failed
        invariant old(rest) == got + rest
        decreases n - |got|
      {
        var part;
        part, failed := Read(n - |got|);
        if part == [] {
          assert old(rest) == got;
          return;
        }
        got := got + part;
      }
    }

    /** `BufRead::read_line`: through the next line feed, or to the end of the stream. */
    method ReadLine() returns (line: seq<byte>, failed: bool)
      modifies this
      ensures line == old(rest)[..LineEnd(old(rest))] && rest == old(rest)[LineEnd(old(rest))..]
      ensures failed <==> broken && LF !in line
    {
      line := rest[..LineEnd(rest)];
      rest := rest[LineEnd(rest)..];
      failed := broken && LF !in line;
    }
  }

  /** What reads that returned these pieces have delivered. */
  function Joined(pieces: seq<seq<byte>>): seq<byte> {
    if pieces == [] then [] else Joined(pieces[..|pieces| - 1]) + pieces[|pieces| - 1]
  }

  /** Pieces that reads of at most `max` bytes can return. */
  ghost predicate Readable(pieces: seq<seq<byte>>, max: nat) {
    forall i :: 0 <= i < |pieces| ==> 0 < |pieces[i]| <= max
  }

  function Singles(b: seq<byte>): (pieces: seq<seq<byte>>)
    ensures |pieces| == |b|
  {
    seq(|b|, i requires 0 <= i < |b| => [b[i]])
  }

  lemma {:induction false} JoinedSingles(b: seq<byte>)
    ensures Joined(Singles(b)) == b
  {
    if b != [] {
      var front := b[..|b| - 1];
      JoinedSingles(front);
      assert Singles(b)[..|b| - 1] == Singles(front);
      assert b == front + [b[|b| - 1]];
    }
  }

  lemma JoinedSnoc(pieces: seq<seq<byte>>, last: seq<byte>)
    ensures Joined(pieces + [last]) == Joined(pieces) + last
  {
    assert (pieces + [last])[..|pieces|] == pieces;
  }

  /** Where decoded bytes go: a file, or the socket a request is written to. */
  class Sink {
    var data: seq<byte>

    constructor ()
      ensures data == []
    {
      data := [];
    }

    method WriteAll(b: seq<byte>)
      modifies this
      ensures data == old(data) + b
    {
      data := data + b;
    }
  }
}
