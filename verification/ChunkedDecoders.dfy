/** The cloud client's decoders: the streaming ones that feed a file, and the buffered one. */
module HttpsBody {
  import opened Bytes
  import opened Streams
  import opened ChunkedWire

  /** One `read_more` asks for at most this much. */
  const READ_SIZE: nat := 16 * 1024

  datatype StreamEnd = Complete(written: nat) | BadSize | Closed | ReadFailed

  /** The pure decode left to do in a given loop state of `StreamChunked`. */
  function Resume(remaining: nat, expectCrlf: bool, b: seq<byte>): Outcome {
    if remaining > 0 then DecodeData(false, remaining, b)
    else if expectCrlf then DecodeEnd(false, b)
    else Decode(false, b)
  }

  /** Part of a chunk may be copied at any time. */
  lemma DataInParts(n: nat, b: seq<byte>, take: nat)
    requires 0 < n && take <= n && take <= |b|
    ensures DecodeData(false, n, b) == Prepend(b[..take], Resume(n - take, true, b[take..]))
  {
    if |b| < n {
      TakeInParts(b, take, |b|);
    } else {
      TakeInParts(b, take, n);
      if take < n {
        PrependPrepend(b[..take], b[take..][..n - take], DecodeEnd(false, b[n..]));
      }
    }
  }

  lemma CopyStep(whole: Outcome, delivered: seq<byte>, n: nat, buf: seq<byte>, unread: seq<byte>, take: nat)
    requires 0 < n && take <= n && take <= |buf|
    requires whole == Prepend(delivered, DecodeData(false, n, buf + unread))
    ensures whole == Prepend(delivered + buf[..take], Resume(n - take, true, buf[take..] + unread))
  {
    DataInParts(n, buf + unread, take);
    assert (buf + unread)[..take] == buf[..take];
    assert (buf + unread)[take..] == buf[take..] + unread;
    PrependPrepend(delivered, buf[..take], Resume(n - take, true, buf[take..] + unread));
  }

  /** What the buffer says about the next chunk: its size and how many bytes that line took. */
  datatype SizeLine = NoLine | BadLine | Sized(size: nat, used: nat)

  function NextSize(buf: seq<byte>): (l: SizeLine)
    ensures l.Sized? ==> 0 < l.used <= |buf|
  {
    match FindCrlf(buf)
    case None => NoLine
    case Some(nl) =>
      match ChunkSize(buf[..nl])
      case None => BadLine
      case Some(size) => Sized(size, nl + 2)
  }

  /** The first CRLF in the buffer is the first one in the whole stream, so its line decides. */
  lemma LineComesFirst(buf: seq<byte>, unread: seq<byte>) returns (nl: nat)
    requires FindCrlf(buf).Some?
    ensures FindCrlf(buf) == FindCrlf(buf + unread) == Some(nl)
    ensures (buf + unread)[..nl] == buf[..nl] && (buf + unread)[nl + 2..] == buf[nl + 2..] + unread
  {
    nl := FindCrlf(buf).value;
    FindCrlfExtends(buf, unread);
  }

  lemma DecodeAtLine(b: seq<byte>) returns (ahead: Outcome)
    ensures ahead == Decode(false, b)
    ensures var line := NextSize(b);
            ahead == if line.NoLine? then Cut([])
                     else if line.BadLine? then Malformed([])
                     else if line.size == 0 then Done([])
                     else DecodeData(false, line.size, b[line.used..])
  {
    ahead := Decode(false, b);
  }

  lemma LineStep(whole: Outcome, delivered: seq<byte>, buf: seq<byte>, unread: seq<byte>)
    requires whole == Prepend(delivered, Resume(0, false, buf + unread))
    ensures match NextSize(buf)
            case NoLine => true
            case BadLine => whole == Malformed(delivered)
            case Sized(size, used) =>
              if size == 0 then whole == Done(delivered)
              else whole == Prepend(delivered, Resume(size, false, buf[used..] + unread))
  {
    if FindCrlf(buf).Some? {
      var nl := LineComesFirst(buf, unread);
      var ahead := DecodeAtLine(buf + unread);
      assert NextSize(buf + unread) == NextSize(buf);
      PrependToEmpty(delivered);
    }
  }

  lemma EndStep(buf: seq<byte>, unread: seq<byte>)
    requires |buf| >= 2
    ensures Resume(0, true, buf + unread) == Resume(0, false, buf[2..] + unread)
  {
    assert (buf + unread)[2..] == buf[2..] + unread;
  }

  /** A pass that could do nothing with the buffer, on a stream that has ended. */
  lemma IdleStep(whole: Outcome, delivered: seq<byte>, remaining: nat, expectCrlf: bool, buf: seq<byte>)
    requires whole == Prepend(delivered, Resume(remaining, expectCrlf, buf + []))
    requires remaining > 0 ==> buf == []
    requires remaining == 0 && expectCrlf ==> |buf| < 2
    requires remaining == 0 && !expectCrlf ==> FindCrlf(buf).None?
    ensures whole == Cut(delivered)
  {
    PrependToEmpty(delivered);
    assert buf + [] == buf;
  }

  /** What of the current chunk is in the buffer goes to the sink. */
  method CopyData(sink: Sink, remaining: nat, buf: seq<byte>, ghost start: seq<byte>, ghost delivered: seq<byte>)
    returns (take: nat)
    requires sink.data == start + delivered
    modifies sink
    ensures take == Min(remaining, |buf|) && sink.data == start + (delivered + buf[..take])
  {
    take := Min(remaining, |buf|);
    sink.WriteAll(buf[..take]);
    Regroup(start, delivered, buf[..take]);
  }

  /** What the buffer has of the current chunk, and of the CRLF behind it. */
  method TakeChunk(sink: Sink, buf0: seq<byte>, remaining0: nat, expectCrlf0: bool, ghost start: seq<byte>,
                   ghost whole: Outcome, ghost delivered0: seq<byte>, ghost unread: seq<byte>)
    returns (buf: seq<byte>, remaining: nat, expectCrlf: bool, take: nat, progressed: bool,
             ghost delivered: seq<byte>)
    requires sink.data == start + delivered0 && (expectCrlf0 ==> remaining0 == 0)
    requires whole == Prepend(delivered0, Resume(remaining0, expectCrlf0, buf0 + unread))
    modifies sink
    ensures sink.data == start + delivered && |delivered| == |delivered0| + take
    ensures whole == Prepend(delivered, Resume(remaining, expectCrlf, buf + unread))
    ensures expectCrlf ==> remaining == 0 && |buf| < 2
    ensures remaining > 0 ==> buf == []
    ensures |buf| <= |buf0| && (progressed <==> |buf| < |buf0|)
  {
    buf, remaining, expectCrlf, take, progressed := buf0, remaining0, expectCrlf0, 0, false;
    delivered := delivered0;
    if remaining > 0 && buf != [] {
      take := CopyData(sink, remaining, buf, start, delivered);
      CopyStep(whole, delivered, remaining, buf, unread, take);
      delivered := delivered + buf[..take];
      buf := buf[take..];
      remaining := remaining - take;
      if remaining == 0 {
        expectCrlf := true;
      }
      progressed := true;
    }
    if remaining == 0 && expectCrlf && |buf| >= 2 {
      EndStep(buf, unread);
      buf := buf[2..];
      expectCrlf := false;
      progressed := true;
    }
  }

  /** The size line at the front of the buffer, and what is ahead behind it. */
  method TakeLine(buf: seq<byte>, ghost whole: Outcome, ghost delivered: seq<byte>, ghost unread: seq<byte>)
    returns (line: SizeLine)
    requires whole == Prepend(delivered, Resume(0, false, buf + unread))
    ensures line.NoLine? <==> FindCrlf(buf).None?
    ensures line.BadLine? ==> whole == Malformed(delivered)
    ensures line.Sized? ==> 0 < line.used <= |buf|
    ensures line.Sized? && line.size == 0 ==> whole == Done(delivered)
    ensures line.Sized? && line.size > 0 ==>
              whole == Prepend(delivered, Resume(line.size, false, buf[line.used..] + unread))
  {
    line := NextSize(buf);
    LineStep(whole, delivered, buf, unread);
  }

  /** A pass that could do nothing with the buffer reads on. */
  method ReadMore(src: Source, buf: seq<byte>, ghost whole: Outcome, ghost delivered: seq<byte>,
                  ghost remaining: nat, ghost expectCrlf: bool)
    returns (more: seq<byte>, failed: bool)
    requires whole == Prepend(delivered, Resume(remaining, expectCrlf, buf + src.rest))
    requires remaining > 0 ==> buf == []
    requires remaining == 0 && expectCrlf ==> |buf| < 2
    requires remaining == 0 && !expectCrlf ==> FindCrlf(buf).None?
    modifies src
    ensures whole == Prepend(delivered, Resume(remaining, expectCrlf, (buf + more) + src.rest))
    ensures more != [] ==> |src.rest| < |old(src.rest)|
    ensures more == [] ==> whole == Cut(delivered) && failed == src.broken
  {
    more, failed := src.Read(READ_SIZE);
    Regroup(buf, more, src.rest);
    if more == [] {
      IdleStep(whole, delivered, remaining, expectCrlf, buf);
    }
  }

  /** The loop of `StreamChunked`; `whole` names the pure decode of everything. */
  method StreamLoop(src: Source, prefix: seq<byte>, sink: Sink, ghost whole: Outcome) returns (r: StreamEnd)
    requires whole == Resume(0, false, prefix + src.rest)
    modifies src, sink
    ensures sink.data == old(sink.data) + whole.out
    ensures r.Complete? <==> whole.Done?
    ensures r.Complete? ==> r.written == |whole.out|
    ensures r.BadSize? <==> whole.Malformed?
    ensures r.ReadFailed? ==> src.broken
    ensures r.Closed? ==> !src.broken
  {
    var buf := prefix;
    var written := 0;
    var remaining := 0;
    // Whether a chunk's closing CRLF is still to be dropped.
    var expectCrlf := false;
    ghost var delivered: seq<byte> := [];
    PrependNothing(whole);
    while true
      invariant whole == Prepend(delivered, Resume(remaining, expectCrlf, buf + src.rest))
      invariant sink.data == old(sink.data) + delivered && written == |delivered|
      invariant expectCrlf ==> remaining == 0
      decreases |src.rest|, |buf|
    {
      var progressed, take: nat;
      ghost var unread := src.rest;
      buf, remaining, expectCrlf, take, progressed, delivered :=
        TakeChunk(sink, buf, remaining, expectCrlf, old(sink.data), whole, delivered, unread);
      written := written + take;

      if remaining == 0 && !expectCrlf {
        var line := TakeLine(buf, whole, delivered, unread);
        if line.BadLine? {
          return BadSize;
        }
        if line.Sized? {
          if line.size == 0 {
            return Complete(written);
          }
          buf := buf[line.used..];
          remaining := line.size;
          progressed := true;
        }
      }

      if !progressed {
        var more, failed := ReadMore(src, buf, whole, delivered, remaining, expectCrlf);
        if more == [] {
          return if failed then ReadFailed else Closed;
        }
        buf := buf + more;
      }
    }
  }

  /** Whatever bytes come, and however the prefix and the reads cut them, the sink gets what the
      pure decode of the whole stream delivers, and success or failure is the decode's. */
  method StreamChunked(src: Source, prefix: seq<byte>, sink: Sink) returns (r: StreamEnd)
    modifies src, sink
    ensures sink.data == old(sink.data) + Decode(false, prefix + old(src.rest)).out
    ensures r.Complete? <==> Decode(false, prefix + old(src.rest)).Done?
    ensures r.Complete? ==> r.written == |Decode(false, prefix + old(src.rest)).out|
    ensures r.BadSize? <==> Decode(false, prefix + old(src.rest)).Malformed?
    ensures r.ReadFailed? ==> src.broken
    ensures r.Closed? ==> !src.broken
  {
    r := StreamLoop(src, prefix, sink, Decode(false, prefix + src.rest));
  }

  datatype IdentityEnd = Copied(written: nat) | Truncated | IdentityReadFailed

  /** How much of what is pending belongs to the body. */
  function Wanted(length: Option<nat>, written: nat, pending: seq<byte>): (n: nat)
    requires length.Some? ==> written <= length.value
    ensures n <= |pending|
  {
    if length.Some? then Min(|pending|, length.value - written) else |pending|
  }

  lemma IdentityStep(whole: seq<byte>, written: nat, pending: seq<byte>, unread: seq<byte>, take: nat)
    requires written <= |whole| && whole[written..] == pending + unread && take <= |pending|
    ensures written + take <= |whole| && whole[..written] + pending[..take] == whole[..written + take]
    ensures whole[written + take..] == pending[take..] + unread
  {
    assert pending[..take] == whole[written..][..take];
    assert whole[written + take..] == whole[written..][take..];
  }

  method IdentityLoop(src: Source, prefix: seq<byte>, length: Option<nat>, sink: Sink, ghost whole: seq<byte>)
    returns (r: IdentityEnd)
    requires whole == prefix + src.rest
    modifies src, sink
    ensures sink.data == old(sink.data) + (if length.Some? then whole[..Min(length.value, |whole|)] else whole)
    ensures r.Copied? <==> if length.Some? then |whole| >= length.value else !src.broken
    ensures r.Copied? ==> |sink.data| == |old(sink.data)| + r.written
    ensures r.IdentityReadFailed? ==> src.broken
  {
    var written := 0;
    var pending := prefix;
    while true
      invariant written <= |whole| && whole[written..] == pending + src.rest
      invariant sink.data == old(sink.data) + whole[..written]
      invariant length.Some? ==> written <= length.value
      decreases |src.rest|, |pending|
    {
      if pending != [] {
        var take := Wanted(length, written, pending);
        sink.WriteAll(pending[..take]);
        IdentityStep(whole, written, pending, src.rest, take);
        Regroup(old(sink.data), whole[..written], pending[..take]);
        written := written + take;
        if length == Some(written) {
          return Copied(written);
        }
        pending := [];
      } else if length == Some(written) {
        return Copied(written);
      }
      var more, failed := src.Read(READ_SIZE);
      if more == [] {
        assert whole[written..] == [];
        assert whole[..written] == whole;
        if failed {
          return IdentityReadFailed;
        }
        return if length.Some? then Truncated else Copied(written);
      }
      pending := more;
    }
  }

  /** A body without chunking: to the announced length, ignoring what follows it, or to the end of
      the stream; a shorter body than announced is never passed off as complete. */
  method StreamIdentity(src: Source, prefix: seq<byte>, length: Option<nat>, sink: Sink) returns (r: IdentityEnd)
    modifies src, sink
    ensures var whole := prefix + old(src.rest);
            sink.data == old(sink.data) + (if length.Some? then whole[..Min(length.value, |whole|)] else whole)
    ensures r.Copied? <==> if length.Some? then |prefix + old(src.rest)| >= length.value else !src.broken
    ensures r.Copied? ==> |sink.data| == |old(sink.data)| + r.written
    ensures r.IdentityReadFailed? ==> src.broken
  {
    r := IdentityLoop(src, prefix, length, sink, prefix + src.rest);
  }

  /** What a chunk at the front of the buffered form adds, and where the next line starts. */
  lemma DechunkData(whole: Outcome, out: seq<byte>, data: seq<byte>, size: nat)
    requires whole == Prepend(out, DecodeData(false, size, data))
    ensures if |data| < size then whole == Cut(out + data)
            else whole == Prepend(out + data[..size], Decode(false, data[Min(size + 2, |data|)..]))
  {
    if size <= |data| {
      var tail := data[size..];
      PrependPrepend(out, data[..size], DecodeEnd(false, tail));
      if |tail| < 2 {
        assert data[Min(size + 2, |data|)..] == [];
      } else {
        assert data[size + 2..] == tail[2..];
      }
    }
  }

  /** What a size line makes of a decode, and what becomes of the chunk behind it. */
  ghost predicate LineLeads(whole: Outcome, out: seq<byte>, b: seq<byte>, line: SizeLine)
    requires line.Sized? ==> line.used <= |b|
  {
    if line.NoLine? then whole == Cut(out)
    else if line.BadLine? then whole == Malformed(out)
    else if line.size == 0 then whole == Done(out)
    else
      var data := b[line.used..];
      if |data| < line.size then whole == Cut(out + data)
      else whole == Prepend(out + data[..line.size], Decode(false, data[Min(line.size + 2, |data|)..]))
  }

  lemma DechunkStep(b: seq<byte>, whole: Outcome, out: seq<byte>, line: SizeLine)
    requires whole == Prepend(out, Decode(false, b)) && line == NextSize(b)
    ensures LineLeads(whole, out, b, line)
  {
    var ahead := DecodeAtLine(b);
    PrependToEmpty(out);
    if line.Sized? && line.size > 0 {
      DechunkData(whole, out, b[line.used..], line.size);
    }
  }

  /** The size line at the front of the buffered form. */
  method DechunkLine(b: seq<byte>, ghost whole: Outcome, ghost out: seq<byte>) returns (line: SizeLine)
    requires whole == Prepend(out, Decode(false, b))
    ensures line.Sized? ==> 0 < line.used <= |b|
    ensures LineLeads(whole, out, b, line)
  {
    line := NextSize(b);
    DechunkStep(b, whole, out, line);
  }

  method DechunkLoop(body: seq<byte>, ghost whole: Outcome) returns (r: Option<seq<byte>>)
    requires whole == Decode(false, body)
    ensures r == Buffered(whole)
  {
    var data := body;
    var out: seq<byte> := [];
    PrependNothing(whole);
    while true
      invariant whole == Prepend(out, Decode(false, data))
      decreases |data|
    {
      var line := DechunkLine(data, whole, out);
      if line.NoLine? {
        return Some(out);
      }
      if line.BadLine? {
        return None;
      }
      data := data[line.used..];
      if line.size == 0 {
        return Some(out);
      }
      if |data| < line.size {
        return Some(out + data);
      }
      out := out + data[..line.size];
      data := data[Min(line.size + 2, |data|)..];
    }
  }

  /** The buffered form agrees with the streaming one on every byte string. */
  method Dechunk(body: seq<byte>) returns (r: Option<seq<byte>>)
    ensures r == Buffered(Decode(false, body))
  {
    r := DechunkLoop(body, Decode(false, body));
  }
}

/** The phone file client's decoders: the reader the tar extractor pulls from, and the buffered one. */
module MdfsBody {
  import opened Bytes
  import opened Streams
  import opened ChunkedWire
  import opened Utf8

  datatype ReadResult = Got(data: seq<byte>) | ReadError

  lemma LinesDataShort(n: nat, data: seq<byte>, rest: seq<byte>, broken: bool)
    requires 0 < |data| < n && |data + rest| < n
    ensures DecodeLinesData(n, data + rest, broken) == Prepend(data, DecodeLinesData(n - |data|, rest, broken))
  {
  }

  lemma LinesDataLong(n: nat, data: seq<byte>, rest: seq<byte>, broken: bool) returns (behind: Outcome)
    requires 0 < |data| <= n <= |data + rest|
    ensures behind == DecodeLinesEnd((data + rest)[n..], broken)
    ensures (data + rest)[n..] == rest[n - |data|..] && (data + rest)[..n] == data + rest[..n - |data|]
    ensures DecodeLinesData(n, data + rest, broken) == Prepend(data, Prepend(rest[..n - |data|], behind))
  {
    behind := DecodeLinesEnd((data + rest)[n..], broken);
    TakeInParts(data + rest, |data|, n);
    PrependPrepend(data, rest[..n - |data|], behind);
  }

  /** A piece of the data a chunk owes, and the decode behind it. */
  lemma LinesDataInParts(n: nat, data: seq<byte>, rest: seq<byte>, broken: bool) returns (later: Outcome)
    requires 0 < |data| <= n
    ensures later == if |data| < n then DecodeLinesData(n - |data|, rest, broken) else DecodeLinesEnd(rest, broken)
    ensures DecodeLinesData(n, data + rest, broken) == Prepend(data, later)
  {
    later := if |data| < n then DecodeLinesData(n - |data|, rest, broken) else DecodeLinesEnd(rest, broken);
    if |data + rest| < n {
      LinesDataShort(n, data, rest, broken);
    } else {
      var behind := LinesDataLong(n, data, rest, broken);
      if |data| == n {
        PrependNothing(behind);
        assert rest[..0] == [] && rest[0..] == rest;
      }
    }
  }

  class ChunkedReader {
    const inner: Source
    var left: nat
    var trailingCrlf: bool
    var done: bool

    ghost predicate Valid()
      reads this
    {
      trailingCrlf ==> left == 0
    }

    /** The pure decode still ahead. */
    ghost function Ahead(): Outcome
      requires Valid()
      reads this, inner
    {
      if done then Done([])
      else if left > 0 then DecodeLinesData(left, inner.rest, inner.broken)
      else if trailingCrlf then DecodeLinesEnd(inner.rest, inner.broken)
      else DecodeLines(inner.rest, inner.broken)
    }

    constructor (inner: Source)
      ensures Valid() && this.inner == inner && fresh(this)
      ensures Ahead() == DecodeLines(inner.rest, inner.broken)
    {
      this.inner := inner;
      left, trailingCrlf, done := 0, false, false;
    }

    /** The lines between two chunks: the rest of the last one's line, then the next size. */
    method NextChunk() returns (ok: bool)
      requires Valid() && !done && left == 0
      modifies this, inner
      ensures Valid() && |inner.rest| <= |old(inner.rest)|
      ensures ok ==> Ahead() == old(Ahead()) && (done || left > 0)
      ensures !ok ==> !old(Ahead()).Done? && old(Ahead()).out == []
    {
      if trailingCrlf {
        var skipped, failed := inner.ReadLine();
        if failed || !ValidUtf8(skipped) {
          return false;
        }
        trailingCrlf := false;
      }
      ghost var b := inner.rest;
      assert DecodeLines(b, inner.broken) == old(Ahead());
      var line, failed := inner.ReadLine();
      if failed || line == [] || !ValidUtf8(line) {
        return false;
      }
      var size := ChunkSize(line);
      if size.None? {
        return false;
      }
      assert b[|line|..] == inner.rest;
      left := size.value;
      done := left == 0;
      ok := true;
    }

    /** One `read` into a buffer of `max` bytes: it hands over the next piece of the pure decode,
        reports the end only where the decode is done, and an error only where it fails. */
    method Read(max: nat) returns (r: ReadResult)
      requires Valid()
      modifies this, inner
      ensures Valid()
      ensures r.Got? ==> old(Ahead()) == Prepend(r.data, Ahead()) && |r.data| <= max
      ensures r.Got? && max > 0 && r.data == [] ==> old(Ahead()) == Done([])
      ensures r.Got? && r.data != [] ==> |inner.rest| < |old(inner.rest)|
      ensures r.ReadError? ==> !old(Ahead()).Done? && old(Ahead()).out == []
    {
      PrependNothing(Ahead());
      if done || max == 0 {
        return Got([]);
      }
      if left == 0 {
        var ok := NextChunk();
        if !ok {
          return ReadError;
        }
        if done {
          return Got([]);
        }
      }
      r := ReadOwed(max);
    }

    /** Some of what the current chunk still owes. */
    method ReadOwed(max: nat) returns (r: ReadResult)
      requires Valid() && !done && left > 0 && max > 0
      modifies this, inner
      ensures Valid()
      ensures r.Got? ==> old(Ahead()) == Prepend(r.data, Ahead()) && 0 < |r.data| <= max
      ensures r.Got? ==> |inner.rest| < |old(inner.rest)|
      ensures r.ReadError? ==> old(Ahead()) == Cut([])
    {
      ghost var owed, b := left, inner.rest;
      ghost var before := Ahead();
      assert before == DecodeLinesData(owed, b, inner.broken);
      r := ReadData(max);
      if r.Got? {
        ghost var later := LinesDataInParts(owed, r.data, inner.rest, inner.broken);
        assert Ahead() == later;
      }
    }

    /** A piece of the current chunk's data. */
    method ReadData(max: nat) returns (r: ReadResult)
      requires Valid() && !done && left > 0 && max > 0
      modifies this, inner
      ensures Valid() && done == old(done)
      ensures r.ReadError? ==> old(inner.rest) == []
      ensures r.Got? ==> 0 < |r.data| <= max && |r.data| <= old(left) && old(inner.rest) == r.data + inner.rest
      ensures r.Got? ==> left == old(left) - |r.data| && trailingCrlf == (left == 0)
    {
      var got, failed := inner.Read(Min(max, left));
      if got == [] {
        return ReadError;
      }
      left := left - |got|;
      if left == 0 {
        trailingCrlf := true;
      }
      return Got(got);
    }

    /** `read_to_end`, with whatever buffer sizes the caller picks. */
    method ReadToEnd() returns (out: seq<byte>, ok: bool)
      requires Valid() && !done
      modifies this, inner
      ensures out == old(Ahead()).out && (ok <==> old(Ahead()).Done?)
    {
      out := [];
      PrependNothing(Ahead());
      while true
        invariant Valid() && old(Ahead()) == Prepend(out, Ahead())
        decreases |inner.rest|
      {
        var max: nat :| max > 0;
        ghost var before := Ahead();
        var r := Read(max);
        if r.ReadError? {
          return out, false;
        }
        if r.data == [] {
          return out, true;
        }
        PrependPrepend(out, r.data, Ahead());
        out := out + r.data;
      }
    }
  }

  /** What a size line and its chunk add, and where the next line starts. */
  lemma LenientDataStep(out: seq<byte>, size: nat, data: seq<byte>)
    requires size > 0
    ensures var take := Min(size, |data|);
            out + LenientData(size, data) == (out + data[..take]) + Lenient(SkipCrlf(data[take..]))
  {
    if |data| < size {
      assert data[..|data|] == data && data[|data|..] == [];
      assert FindCrlf([]).None? && Lenient([]) == [];
      Regroup(out + data, [], []);
    } else {
      Regroup(out, data[..size], Lenient(SkipCrlf(data[size..])));
    }
  }

  lemma LenientLine(b: seq<byte>, nl: nat, size: nat)
    requires FindCrlf(b) == Some(nl) && SizeOn(true, b[..nl]) == Some(size) && size > 0
    ensures Lenient(b) == LenientData(size, b[nl + 2..])
  {
  }

  lemma LenientStep(out: seq<byte>, b: seq<byte>, nl: nat, size: nat)
    requires FindCrlf(b) == Some(nl) && SizeOn(true, b[..nl]) == Some(size) && size > 0
    ensures var data := b[nl + 2..];
            var take := Min(size, |data|);
            out + Lenient(b) == (out + data[..take]) + Lenient(SkipCrlf(data[take..]))
  {
    LenientLine(b, nl, size);
    LenientDataStep(out, size, b[nl + 2..]);
  }

  lemma LenientStop(out: seq<byte>, b: seq<byte>)
    requires match FindCrlf(b)
             case None => true
             case Some(nl) => SizeOn(true, b[..nl]) == None || SizeOn(true, b[..nl]) == Some(0)
    ensures out + Lenient(b) == out
  {
    assert out + [] == out;
  }

  method DechunkLoop(body: seq<byte>, ghost whole: seq<byte>) returns (out: seq<byte>)
    requires whole == Lenient(body)
    ensures out == whole
  {
    var b := body;
    out := [];
    assert [] + whole == whole;
    while true
      invariant whole == out + Lenient(b)
      decreases |b|
    {
      var eol := FindCrlf(b);
      if eol.None? {
        LenientStop(out, b);
        return;
      }
      var parsed := SizeOn(true, b[..eol.value]);
      var size := if parsed.Some? then parsed.value else 0;
      if size == 0 {
        LenientStop(out, b);
        return;
      }
      LenientStep(out, b, eol.value, size);
      b := b[eol.value + 2..];
      var take := Min(size, |b|);
      out := out + b[..take];
      ghost var tail := b[take..];
      b := b[take..];
      if CRLF <= b {
        b := b[2..];
      }
      assert b == SkipCrlf(tail);
    }
  }

  method Dechunk(body: seq<byte>) returns (out: seq<byte>)
    ensures out == Lenient(body)
  {
    out := DechunkLoop(body, Lenient(body));
  }
}

/** The share client's decoder: line, data and CRLF are pulled one by one through a buffered socket. */
module ShareBody {
  import opened Bytes
  import opened Streams
  import opened ChunkedWire

  const FILL_SIZE: nat := 64 * 1024

  lemma CopyPart(start: seq<byte>, whole: seq<byte>, at: nat, buf: seq<byte>, unread: seq<byte>, take: nat)
    requires at <= |whole| && buf + unread == whole[at..] && take <= |buf|
    ensures (start + whole[..at]) + buf[..take] == start + whole[..at + take]
    ensures buf[take..] + unread == whole[at + take..]
  {
    assert buf[..take] == whole[at..][..take];
    assert buf[take..] + unread == (buf + unread)[take..];
  }

  class BufSock {
    const s: Source
    var buf: seq<byte>

    /** Everything still to come: the buffer, then the socket. */
    ghost function Pending(): seq<byte>
      reads this, s
    {
      buf + s.rest
    }

    constructor (s: Source, buf: seq<byte>)
      ensures this.s == s && this.buf == buf && fresh(this)
    {
      this.s, this.buf := s, buf;
    }

    method Fill() returns (n: nat, failed: bool)
      modifies this, s
      ensures Pending() == old(Pending()) && |buf| == |old(buf)| + n && |s.rest| == |old(s.rest)| - n
      ensures n == 0 <==> old(s.rest) == []
    {
      ghost var unread := s.rest;
      var got;
      got, failed := s.Read(FILL_SIZE);
      assert buf + unread == (buf + got) + s.rest;
      buf := buf + got;
      n := |got|;
    }

    method ReadLine() returns (line: Option<seq<byte>>)
      modifies this, s
      ensures var nl := FindCrlf(old(Pending()));
              if nl.None? then line.None?
              else line == Some(old(Pending())[..nl.value]) && Pending() == old(Pending())[nl.value + 2..]
    {
      while true
        invariant Pending() == old(Pending())
        decreases |s.rest|
      {
        var pos := FindCrlf(buf);
        if pos.Some? {
          FindCrlfExtends(buf, s.rest);
          line := Some(buf[..pos.value]);
          assert Pending()[..pos.value] == buf[..pos.value];
          assert Pending()[pos.value + 2..] == buf[pos.value + 2..] + s.rest;
          buf := buf[pos.value + 2..];
          return;
        }
        var n, failed := Fill();
        if n == 0 {
          assert Pending() == buf;
          return None;
        }
      }
    }

    method Consume(n: nat) returns (ok: bool)
      modifies this, s
      ensures ok <==> |old(Pending())| >= n
      ensures ok ==> Pending() == old(Pending())[n..]
    {
      while |buf| < n
        invariant Pending() == old(Pending())
        decreases |s.rest|
      {
        var got, failed := Fill();
        if got == 0 {
          return false;
        }
      }
      assert Pending()[n..] == buf[n..] + s.rest;
      buf := buf[n..];
      ok := true;
    }

    method CopyExact(n: nat, w: Sink) returns (ok: bool)
      requires w as object != this && w as object != s
      modifies this, s, w
      ensures w.data == old(w.data) + old(Pending())[..Min(n, |old(Pending())|)]
      ensures ok <==> |old(Pending())| >= n
      ensures ok ==> Pending() == old(Pending())[n..]
    {
      var left := n;
      ghost var whole := buf + s.rest;
      ghost var start := w.data;
      while left > 0
        invariant 0 <= left <= n && n - left <= |whole|
        invariant w.data == start + whole[..n - left]
        invariant buf + s.rest == whole[n - left..]
        decreases left
      {
        if buf == [] {
          var got, failed := Fill();
          if got == 0 {
            assert whole[n - left..] == [];
            assert whole[..n - left] == whole;
            return false;
          }
        }
        var take := Min(left, |buf|);
        CopyPart(start, whole, n - left, buf, s.rest, take);
        w.WriteAll(buf[..take]);
        buf := buf[take..];
        left := left - take;
      }
      ok := true;
    }
  }

  /** One chunk's data and its closing CRLF. */
  method DownloadChunk(sock: BufSock, size: nat, file: Sink, ghost start: seq<byte>, ghost delivered: seq<byte>,
                       ghost whole: Outcome)
    returns (ok: bool, ghost moved: seq<byte>)
    requires size > 0 && whole == Prepend(delivered, DecodeData(true, size, sock.Pending()))
    requires file.data == start + delivered
    modifies sock, sock.s, file
    ensures file.data == start + (delivered + moved)
    ensures !ok ==> whole == Cut(delivered + moved)
    ensures ok ==> |moved| == size && whole == Prepend(delivered + moved, Decode(true, sock.Pending()))
    ensures ok ==> |sock.Pending()| < |old(sock.Pending())|
  {
    ghost var data := sock.Pending();
    moved := data[..Min(size, |data|)];
    ok := sock.CopyExact(size, file);
    Regroup(start, delivered, moved);
    if !ok {
      assert moved == data;
      return;
    }
    ghost var tail := sock.Pending();
    PrependPrepend(delivered, moved, DecodeEnd(true, tail));
    PrependToEmpty(delivered + moved);
    ok := sock.Consume(2);
  }

  datatype DownloadEnd = Saved(total: nat) | BadChunkSize | EndedInside

  /** What a line says about the decode that starts with it. */
  lemma LineDecides(delivered: seq<byte>, b: seq<byte>, whole: Outcome)
    requires whole == Prepend(delivered, Decode(true, b))
    ensures match FindCrlf(b)
            case None => whole == Cut(delivered)
            case Some(nl) =>
              match SizeOn(true, b[..nl])
              case None => whole == Malformed(delivered)
              case Some(size) =>
                whole == if size == 0 then Done(delivered) else Prepend(delivered, DecodeData(true, size, b[nl + 2..]))
  {
    PrependToEmpty(delivered);
    var decoded := Decode(true, b);
    match FindCrlf(b)
    case None => assert decoded == Cut([]);
    case Some(nl) =>
      match SizeOn(true, b[..nl])
      case None => assert decoded == Malformed([]);
      case Some(size) => assert decoded == if size == 0 then Done([]) else DecodeData(true, size, b[nl + 2..]);
  }

  method DownloadLoop(sock: BufSock, file: Sink, ghost whole: Outcome) returns (r: DownloadEnd)
    requires whole == Decode(true, sock.Pending())
    modifies sock, sock.s, file
    ensures file.data == old(file.data) + whole.out
    ensures match r
            case Saved(total) => whole.Done? && total == |whole.out|
            case BadChunkSize => whole.Malformed?
            case EndedInside => whole.Cut?
  {
    var total := 0;
    ghost var delivered: seq<byte> := [];
    PrependNothing(whole);
    while true
      invariant whole == Prepend(delivered, Decode(true, sock.Pending()))
      invariant file.data == old(file.data) + delivered && total == |delivered|
      decreases |sock.Pending()|
    {
      LineDecides(delivered, sock.Pending(), whole);
      var line := sock.ReadLine();
      if line.None? {
        return EndedInside;
      }
      var size := SizeOn(true, line.value);
      if size.None? {
        return BadChunkSize;
      }
      if size.value == 0 {
        return Saved(total);
      }
      var ok, moved := DownloadChunk(sock, size.value, file, old(file.data), delivered, whole);
      delivered := delivered + moved;
      if !ok {
        return EndedInside;
      }
      total := total + size.value;
    }
  }

  /** The chunk loop of the download: another segmentation-free copy of the strict pure decode. */
  method DownloadChunks(sock: BufSock, file: Sink) returns (r: DownloadEnd)
    modifies sock, sock.s, file
    ensures file.data == old(file.data) + Decode(true, old(sock.Pending())).out
    ensures r.Saved? <==> Decode(true, old(sock.Pending())).Done?
    ensures r.Saved? ==> r.total == |Decode(true, old(sock.Pending())).out|
    ensures r.BadChunkSize? <==> Decode(true, old(sock.Pending())).Malformed?
  {
    r := DownloadLoop(sock, file, Decode(true, sock.Pending()));
  }
}
