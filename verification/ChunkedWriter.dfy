/** The upload side: a `Write` adapter that frames what it buffers as HTTP chunks. */
module ChunkedWriting {
  import opened Bytes
  import opened Radix
  import opened Streams

  const CHUNK_TARGET: nat := 64 * 1024
  /** `0\r\n\r\n` */
  const TERMINATOR: seq<byte> := [48, 13, 10, 13, 10]

  /** What has been framed so far, and what still waits in the buffer. */
  datatype Writer = Writer(chunks: seq<seq<byte>>, buf: seq<byte>)

  datatype WriterOp = Write(data: seq<byte>) | Flush

  function Frame(chunk: seq<byte>): seq<byte> {
    Format(|chunk|, 16) + CRLF + chunk + CRLF
  }

  function Frames(chunks: seq<seq<byte>>): seq<byte> {
    if chunks == [] then [] else Frame(chunks[0]) + Frames(chunks[1..])
  }

  function Concat(chunks: seq<seq<byte>>): seq<byte> {
    if chunks == [] then [] else chunks[0] + Concat(chunks[1..])
  }

  function Flushed(w: Writer): Writer {
    if w.buf == [] then w else Writer(w.chunks + [w.buf], [])
  }

  function Step(w: Writer, op: WriterOp): Writer {
    match op
    case Write(data) =>
      var grown := w.(buf := w.buf + data);
      if |grown.buf| >= CHUNK_TARGET then Flushed(grown) else grown
    case Flush => Flushed(w)
  }

  function Run(ops: seq<WriterOp>): Writer {
    if ops == [] then Writer([], []) else Step(Run(ops[..|ops| - 1]), ops[|ops| - 1])
  }

  /** The bytes of the whole body once it is finished. */
  function Wire(ops: seq<WriterOp>): seq<byte> {
    Frames(Flushed(Run(ops)).chunks) + TERMINATOR
  }

  /** The concatenation of the writes. */
  function Payload(ops: seq<WriterOp>): seq<byte> {
    if ops == [] then []
    else
      var last := ops[|ops| - 1];
      Payload(ops[..|ops| - 1]) + (if last.Write? then last.data else [])
  }

  /** No chunk is empty, which would end the body early, and every size fits a `usize`. */
  ghost predicate Proper(chunks: seq<seq<byte>>) {
    forall i :: 0 <= i < |chunks| ==> 0 < |chunks[i]| < U64_LIMIT
  }

  lemma {:induction false} FramesAppend(chunks: seq<seq<byte>>, c: seq<byte>)
    ensures Frames(chunks + [c]) == Frames(chunks) + Frame(c)
  {
    if chunks == [] {
      assert [c][1..] == [];
    } else {
      assert (chunks + [c])[1..] == chunks[1..] + [c];
      FramesAppend(chunks[1..], c);
    }
  }

  lemma {:induction false} ConcatAppend(chunks: seq<seq<byte>>, c: seq<byte>)
    ensures Concat(chunks + [c]) == Concat(chunks) + c
  {
    if chunks == [] {
      assert [c][1..] == [];
    } else {
      assert (chunks + [c])[1..] == chunks[1..] + [c];
      ConcatAppend(chunks[1..], c);
    }
  }

  lemma FlushedKeeps(w: Writer)
    ensures Concat(Flushed(w).chunks) + Flushed(w).buf == Concat(w.chunks) + w.buf
    ensures Flushed(w).buf == []
    ensures Proper(w.chunks) && |w.buf| < U64_LIMIT ==> Proper(Flushed(w).chunks)
  {
    ConcatAppend(w.chunks, w.buf);
  }

  /** Whatever the pattern of writes and flushes, nothing is lost, reordered or framed empty. */
  lemma {:induction false} RunKeepsPayload(ops: seq<WriterOp>)
    requires |Payload(ops)| < U64_LIMIT
    ensures Concat(Run(ops).chunks) + Run(ops).buf == Payload(ops)
    ensures Proper(Run(ops).chunks)
  {
    if ops != [] {
      var front, last := ops[..|ops| - 1], ops[|ops| - 1];
      RunKeepsPayload(front);
      var w := Run(front);
      FlushedKeeps(w);
      if last.Write? {
        var grown := w.(buf := w.buf + last.data);
        FlushedKeeps(grown);
        assert Concat(w.chunks) + (w.buf + last.data) == (Concat(w.chunks) + w.buf) + last.data;
      }
    }
  }

  /** A chunk is framed once 64 KiB are there, and before that only by a flush, which leaves nothing back. */
  lemma {:induction false} FramedAtTarget(ops: seq<WriterOp>)
    ensures |Run(ops).buf| < 65536
    ensures (forall i :: 0 <= i < |ops| ==> ops[i].Write?) ==>
              forall i :: 0 <= i < |Run(ops).chunks| ==> |Run(ops).chunks[i]| >= 65536
    ensures ops != [] && ops[|ops| - 1].Flush? ==> Run(ops).buf == []
  {
    if ops != [] {
      FramedAtTarget(ops[..|ops| - 1]);
    }
  }

  lemma WrittenInParts(before: seq<byte>, frames: seq<byte>, digits: seq<byte>, end: seq<byte>, c: seq<byte>)
    ensures (before + frames) + (digits + end) + c + end == before + (frames + (digits + end + c + end))
  {
  }

  class ChunkedWriter {
    const inner: Sink
    var buf: seq<byte>
    /** The chunks framed onto `inner`, after what it held at the start. */
    ghost var chunks: seq<seq<byte>>
    ghost const before: seq<byte>

    ghost predicate Valid()
      reads this, inner
    {
      inner.data == before + Frames(chunks)
    }

    ghost function State(): Writer
      reads this
    {
      Writer(chunks, buf)
    }

    constructor (inner: Sink)
      ensures Valid() && State() == Writer([], []) && this.inner == inner && before == inner.data
    {
      this.inner := inner;
      buf, chunks, before := [], [], inner.data;
    }

    method FlushBuf()
      requires Valid()
      modifies this, inner
      ensures Valid() && State() == Flushed(old(State()))
    {
      if buf == [] {
        return;
      }
      var sizeLine := Format(|buf|, 16) + CRLF;
      inner.WriteAll(sizeLine);
      inner.WriteAll(buf);
      inner.WriteAll(CRLF);
      WrittenInParts(before, Frames(chunks), Format(|buf|, 16), CRLF, buf);
      FramesAppend(chunks, buf);
      chunks := chunks + [buf];
      buf := [];
    }

    method Write(data: seq<byte>) returns (n: nat)
      requires Valid()
      modifies this, inner
      ensures Valid() && State() == Step(old(State()), WriterOp.Write(data)) && n == |data|
    {
      buf := buf + data;
      if |buf| >= CHUNK_TARGET {
        FlushBuf();
      }
      n := |data|;
    }

    method Flush()
      requires Valid()
      modifies this, inner
      ensures Valid() && State() == Step(old(State()), WriterOp.Flush)
    {
      FlushBuf();
    }

    /** Ends the body; what the sink got is then `Wire` of the operations that led here. */
    method Finish()
      requires Valid()
      modifies this, inner
      ensures inner.data == before + Frames(Flushed(old(State())).chunks) + TERMINATOR
    {
      FlushBuf();
      inner.WriteAll(TERMINATOR);
    }
  }
}
