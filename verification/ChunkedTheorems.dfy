/** The writer and the five decoders together: inversion, and what a cut stream can look like. */
module ChunkedTheorems {
  import opened Bytes
  import opened Radix
  import opened Streams
  import opened Utf8
  import opened ChunkedWire
  import opened ChunkedWriting

  // ---------- one size line ----------

  lemma {:induction false} TrimTail(s: seq<byte>, n: nat)
    requires 0 < n <= |s| && !IsSpace(s[n - 1]) && s[n - 1] < 0x80
    requires forall i :: n <= i < |s| ==> IsSpace(s[i])
    ensures TrimEnd(s) == s[..n]
  {
    if n < |s| {
      TrimTail(s[..|s| - 1], n);
      assert s[..|s| - 1][..n] == s[..n];
    }
  }

  lemma {:induction false} DigitsSurviveTrim(s: seq<byte>, n: nat)
    requires 0 < n <= |s| && AllDigits(s[..n])
    requires forall i :: n <= i < |s| ==> IsSpace(s[i])
    ensures TrimEnd(TrimStart(UpTo(s, 59))) == s[..n]
  {
    assert s[0] == s[..n][0] && s[n - 1] == s[..n][n - 1];
    UpToNothing(s, 59);
    assert SpaceAtStart(s) == 0;
    TrimTail(s, n);
  }

  lemma DigitsAlone(line: seq<byte>, digits: seq<byte>, n: nat)
    requires digits != [] && AllDigits(digits) && DigitsValue(digits, 16) == Some(n) && n < U64_LIMIT
    requires |digits| <= |line| && line[..|digits|] == digits
    requires forall i :: |digits| <= i < |line| ==> IsSpace(line[i])
    ensures ChunkSize(line) == Some(n)
  {
    DigitsSurviveTrim(line, |digits|);
  }

  /** A line of digits has their value for every decoder, with or without line-end bytes behind it. */
  lemma LineOfDigits(digits: seq<byte>, ending: seq<byte>, n: nat)
    requires digits != [] && AllDigits(digits) && ending <= CRLF
    requires DigitsValue(digits, 16) == Some(n) && n < U64_LIMIT
    ensures SizeOn(true, digits + ending) == SizeOn(false, digits + ending) == Some(n)
  {
    var line := digits + ending;
    assert forall i :: |digits| <= i < |line| ==> IsSpace(line[i]);
    assert line[..|digits|] == digits;
    AsciiIsUtf8(line);
    DigitsAlone(line, digits, n);
  }

  lemma SizeReadsBack(n: nat, ending: seq<byte>, strict: bool)
    requires n < U64_LIMIT && ending <= CRLF
    ensures SizeOn(strict, Format(n, 16) + ending) == Some(n)
  {
    FormatIsDigits(n, 16);
    FormatParses(n, 16);
    LineOfDigits(Format(n, 16), ending, n);
  }

  lemma {:induction false} CrlfBehind(text: seq<byte>, tail: seq<byte>)
    requires CR !in text
    ensures FindCrlf(text + CRLF + tail) == Some(|text|)
  {
    var b := text + CRLF + tail;
    if text != [] {
      CrlfBehind(text[1..], tail);
      assert b[1..] == text[1..] + CRLF + tail;
    }
  }

  lemma {:induction false} LineWithCrlf(text: seq<byte>, tail: seq<byte>)
    requires LF !in text
    ensures LineEnd(text + CRLF + tail) == |text| + 2
  {
    var b := text + CRLF + tail;
    if text == [] {
      assert b[1..][0] == LF;
    } else {
      LineWithCrlf(text[1..], tail);
      assert b[1..] == text[1..] + CRLF + tail;
    }
  }

  // ---------- one step of each decoder ----------

  lemma DecodeSizeLine(strict: bool, text: seq<byte>, rest: seq<byte>, size: nat)
    requires CR !in text && SizeOn(strict, text) == Some(size)
    ensures Decode(strict, text + CRLF + rest)
         == if size == 0 then Done([]) else DecodeData(strict, size, rest)
  {
    CrlfBehind(text, rest);
    var b := text + CRLF + rest;
    assert b[..|text|] == text && b[|text| + 2..] == rest;
  }

  /** Whatever two bytes stand behind the data, they are taken for its line end. */
  lemma DecodeWholeData(strict: bool, c: seq<byte>, end: seq<byte>, tail: seq<byte>)
    requires |end| == 2
    ensures DecodeData(strict, |c|, c + end + tail) == Prepend(c, Decode(strict, tail))
  {
    var b := c + end + tail;
    assert b[..|c|] == c && b[|c|..] == end + tail && (end + tail)[2..] == tail;
  }

  lemma LinesSizeLine(text: seq<byte>, rest: seq<byte>, size: nat, broken: bool)
    requires LF !in text && SizeOn(true, text + CRLF) == Some(size)
    ensures DecodeLines(text + CRLF + rest, broken)
         == if size == 0 then Done([]) else DecodeLinesData(size, rest, broken)
  {
    var b := text + CRLF + rest;
    LineWithCrlf(text, rest);
    var line := b[..LineEnd(b)];
    assert line == text + CRLF && line[|text| + 1] == LF;
    assert b[|line|..] == rest;
  }

  lemma {:induction false} LineEndsAtLf(text: seq<byte>, tail: seq<byte>)
    requires LF !in text
    ensures LineEnd(text + ([LF] + tail)) == |text| + 1
  {
    var b := text + ([LF] + tail);
    if text != [] {
      LineEndsAtLf(text[1..], tail);
      assert b[1..] == text[1..] + ([LF] + tail);
    }
  }

  lemma LinesEndThen(junk: seq<byte>, tail: seq<byte>, broken: bool)
    requires LF !in junk && ValidUtf8(junk + [LF])
    ensures DecodeLinesEnd(junk + ([LF] + tail), broken) == DecodeLines(tail, broken)
  {
    var end := junk + ([LF] + tail);
    LineEndsAtLf(junk, tail);
    var close := end[..LineEnd(end)];
    assert close == junk + [LF] && close[|junk|] == LF;
    assert end[|close|..] == tail;
  }

  /** So is the rest of the line behind the data, up to its LF. */
  lemma LinesDataThenLine(c: seq<byte>, junk: seq<byte>, tail: seq<byte>, broken: bool)
    requires c != [] && LF !in junk && ValidUtf8(junk + [LF])
    ensures DecodeLinesData(|c|, c + (junk + ([LF] + tail)), broken) == Prepend(c, DecodeLines(tail, broken))
  {
    var end := junk + ([LF] + tail);
    LinesEndThen(junk, tail, broken);
    assert (c + end)[..|c|] == c && (c + end)[|c|..] == end;
  }

  lemma LinesWholeData(c: seq<byte>, tail: seq<byte>, broken: bool)
    requires c != []
    ensures DecodeLinesData(|c|, c + CRLF + tail, broken) == Prepend(c, DecodeLines(tail, broken))
  {
    AsciiIsUtf8([CR] + [LF]);
    LinesDataThenLine(c, [CR], tail, broken);
    assert c + CRLF + tail == c + ([CR] + ([LF] + tail));
  }

  lemma LenientSizeLine(text: seq<byte>, rest: seq<byte>, size: nat)
    requires CR !in text && SizeOn(true, text) == Some(size)
    ensures Lenient(text + CRLF + rest) == if size == 0 then [] else LenientData(size, rest)
  {
    CrlfBehind(text, rest);
    var b := text + CRLF + rest;
    assert b[..|text|] == text && b[|text| + 2..] == rest;
  }

  lemma LenientWholeData(c: seq<byte>, tail: seq<byte>)
    ensures LenientData(|c|, c + CRLF + tail) == c + Lenient(tail)
  {
    var b := c + CRLF + tail;
    assert b[..|c|] == c && b[|c|..] == CRLF + tail && SkipCrlf(CRLF + tail) == tail;
  }

  /** The phone client's buffered decoder does without a line end behind the data. */
  lemma LenientWithoutEnd(c: seq<byte>, tail: seq<byte>)
    requires !([13, 10] <= tail)
    ensures LenientData(|c|, c + tail) == c + Lenient(tail)
  {
    assert (c + tail)[..|c|] == c && (c + tail)[|c|..] == tail;
  }

  // ---------- one chunk ----------

  lemma Assoc(digits: seq<byte>, end: seq<byte>, c: seq<byte>, tail: seq<byte>)
    ensures (digits + end + c + end) + tail == digits + end + (c + end + tail)
  {
  }

  lemma FrameParts(c: seq<byte>, tail: seq<byte>)
    ensures Frame(c) + tail == Format(|c|, 16) + CRLF + (c + CRLF + tail)
  {
    Assoc(Format(|c|, 16), CRLF, c, tail);
  }

  lemma DecodeFrame(strict: bool, c: seq<byte>, tail: seq<byte>)
    requires 0 < |c| < U64_LIMIT
    ensures Decode(strict, Frame(c) + tail) == Prepend(c, Decode(strict, tail))
  {
    FrameParts(c, tail);
    FormatIsDigits(|c|, 16);
    SizeReadsBack(|c|, [], strict);
    assert Format(|c|, 16) + [] == Format(|c|, 16);
    DecodeSizeLine(strict, Format(|c|, 16), c + CRLF + tail, |c|);
    DecodeWholeData(strict, c, CRLF, tail);
  }

  lemma LenientFrame(c: seq<byte>, tail: seq<byte>)
    requires 0 < |c| < U64_LIMIT
    ensures Lenient(Frame(c) + tail) == c + Lenient(tail)
  {
    FrameParts(c, tail);
    FormatIsDigits(|c|, 16);
    SizeReadsBack(|c|, [], true);
    assert Format(|c|, 16) + [] == Format(|c|, 16);
    LenientSizeLine(Format(|c|, 16), c + CRLF + tail, |c|);
    LenientWholeData(c, tail);
  }

  lemma LinesFrame(c: seq<byte>, tail: seq<byte>, broken: bool)
    requires 0 < |c| < U64_LIMIT
    ensures DecodeLines(Frame(c) + tail, broken) == Prepend(c, DecodeLines(tail, broken))
  {
    FrameParts(c, tail);
    FormatIsDigits(|c|, 16);
    SizeReadsBack(|c|, CRLF, true);
    LinesSizeLine(Format(|c|, 16), c + CRLF + tail, |c|, broken);
    LinesWholeData(c, tail, broken);
  }

  // ---------- inversion ----------

  lemma ZeroChunk(rest: seq<byte>, broken: bool, strict: bool)
    ensures Decode(strict, [48] + CRLF + rest) == Done([])
    ensures DecodeLines([48] + CRLF + rest, broken) == Done([])
    ensures Lenient([48] + CRLF + rest) == []
  {
    assert Format(0, 16) == [48] && [48] + [] == [48];
    SizeReadsBack(0, [], strict);
    SizeReadsBack(0, [], true);
    SizeReadsBack(0, CRLF, true);
    DecodeSizeLine(strict, [48], rest, 0);
    LinesSizeLine([48], rest, 0, broken);
    LenientSizeLine([48], rest, 0);
  }

  lemma Assoc3(a: seq<byte>, b: seq<byte>, end: seq<byte>, tail: seq<byte>)
    ensures (a + b) + end + tail == a + (b + end + tail)
  {
  }

  lemma EmptyBody(tail: seq<byte>)
    ensures Frames([]) + TERMINATOR + tail == [48] + CRLF + (CRLF + tail)
  {
  }

  /** A body with a chunk in front. */
  lemma FramesCons(chunks: seq<seq<byte>>, tail: seq<byte>) returns (later: seq<byte>)
    requires chunks != []
    ensures later == Frames(chunks[1..]) + TERMINATOR + tail
    ensures Frames(chunks) + TERMINATOR + tail == Frame(chunks[0]) + later
  {
    later := Frames(chunks[1..]) + TERMINATOR + tail;
    Assoc3(Frame(chunks[0]), Frames(chunks[1..]), TERMINATOR, tail);
  }

  lemma {:induction false} DecodeFrames(strict: bool, chunks: seq<seq<byte>>, tail: seq<byte>)
    requires Proper(chunks)
    ensures Decode(strict, Frames(chunks) + TERMINATOR + tail) == Done(Concat(chunks))
  {
    if chunks == [] {
      ZeroChunk(CRLF + tail, false, strict);
      EmptyBody(tail);
    } else {
      var later := FramesCons(chunks, tail);
      DecodeFrames(strict, chunks[1..], tail);
      DecodeFrame(strict, chunks[0], later);
    }
  }

  lemma {:induction false} LinesFrames(chunks: seq<seq<byte>>, tail: seq<byte>, broken: bool)
    requires Proper(chunks)
    ensures DecodeLines(Frames(chunks) + TERMINATOR + tail, broken) == Done(Concat(chunks))
  {
    if chunks == [] {
      ZeroChunk(CRLF + tail, broken, false);
      EmptyBody(tail);
    } else {
      var later := FramesCons(chunks, tail);
      LinesFrames(chunks[1..], tail, broken);
      LinesFrame(chunks[0], later, broken);
    }
  }

  lemma {:induction false} LenientFrames(chunks: seq<seq<byte>>, tail: seq<byte>)
    requires Proper(chunks)
    ensures Lenient(Frames(chunks) + TERMINATOR + tail) == Concat(chunks)
  {
    if chunks == [] {
      ZeroChunk(CRLF + tail, false, false);
      EmptyBody(tail);
    } else {
      var later := FramesCons(chunks, tail);
      LenientFrames(chunks[1..], tail);
      LenientFrame(chunks[0], later);
    }
  }

  /** The chunks behind a finished body. */
  lemma WireChunks(ops: seq<WriterOp>) returns (chunks: seq<seq<byte>>)
    requires |Payload(ops)| < U64_LIMIT
    ensures Proper(chunks) && Concat(chunks) == Payload(ops) && Wire(ops) == Frames(chunks) + TERMINATOR
  {
    RunKeepsPayload(ops);
    FlushedKeeps(Run(ops));
    chunks := Flushed(Run(ops)).chunks;
    assert Concat(chunks) + [] == Concat(chunks);
  }

  /** Every pattern of writes and flushes, once finished, is decoded to the concatenation of the
      writes by all five decoders, whatever follows the body on the connection. */
  lemma DecodersInvertWriter(ops: seq<WriterOp>, tail: seq<byte>, broken: bool)
    requires |Payload(ops)| < U64_LIMIT
    ensures Decode(false, Wire(ops) + tail) == Done(Payload(ops))
    ensures Decode(true, Wire(ops) + tail) == Done(Payload(ops))
    ensures DecodeLines(Wire(ops) + tail, broken) == Done(Payload(ops))
    ensures Buffered(Decode(false, Wire(ops) + tail)) == Some(Payload(ops))
    ensures Lenient(Wire(ops) + tail) == Payload(ops)
  {
    var chunks := WireChunks(ops);
    DecodeFrames(true, chunks, tail);
    DecodeFrames(false, chunks, tail);
    LinesFrames(chunks, tail, broken);
    LenientFrames(chunks, tail);
  }

  // ---------- truncation ----------

  /** Where a cut inside a frame falls: in the size line, or in the data and its CRLF. */
  lemma CutFrame(c: seq<byte>, k: nat)
    requires k < |Frame(c)|
    ensures var digits := Format(|c|, 16);
            if k < |digits| + 2 then Frame(c)[..k] == (digits + CRLF)[..k]
            else Frame(c)[..k] == digits + CRLF + (c + CRLF)[..k - |digits| - 2]
  {
  }

  lemma InsideFrame(c: seq<byte>, k: nat, strict: bool)
    requires 0 < |c| < U64_LIMIT && k < |Frame(c)|
    ensures Decode(strict, Frame(c)[..k]).Cut?
  {
    var digits := Format(|c|, 16);
    FormatIsDigits(|c|, 16);
    CutFrame(c, k);
    if k < |digits| + 2 {
      assert FindCrlf(Frame(c)[..k]).None?;
    } else {
      var data := (c + CRLF)[..k - |digits| - 2];
      SizeReadsBack(|c|, [], strict);
      assert digits + [] == digits;
      DecodeSizeLine(strict, digits, data, |c|);
      if |data| >= |c| {
        assert |data[|c|..]| < 2;
        assert DecodeEnd(strict, data[|c|..]) == Cut([]);
      }
    }
  }

  /** Decoding reaches the end exactly when it has seen `0\r\n`. */
  lemma {:induction false} FramesWithoutEnd(chunks: seq<seq<byte>>, k: nat, strict: bool)
    requires Proper(chunks) && k <= |Frames(chunks) + TERMINATOR|
    ensures Decode(strict, (Frames(chunks) + TERMINATOR)[..k]).Done? <==> k >= |Frames(chunks) + TERMINATOR| - 2
  {
    var wire := Frames(chunks) + TERMINATOR;
    if chunks == [] {
      assert wire[..k] == TERMINATOR[..k];
      if k >= 3 {
        assert TERMINATOR[..k] == [48] + CRLF + TERMINATOR[3..k];
        ZeroChunk(TERMINATOR[3..k], false, strict);
      } else {
        assert FindCrlf(TERMINATOR[..k]).None?;
      }
    } else {
      var c, later := chunks[0], Frames(chunks[1..]) + TERMINATOR;
      assert wire == Frame(c) + later;
      if k >= |Frame(c)| {
        var j := k - |Frame(c)|;
        assert wire[..k] == Frame(c) + later[..j];
        DecodeFrame(strict, c, later[..j]);
        FramesWithoutEnd(chunks[1..], j, strict);
      } else {
        assert wire[..k] == Frame(c)[..k];
        InsideFrame(c, k, strict);
      }
    }
  }

  /** A cut upload is a cut decode: exactly when the zero chunk's size line is whole does a
      CRLF decoder report success, and then it has the whole payload. */
  lemma CutBodyCrlf(ops: seq<WriterOp>, k: nat, strict: bool)
    requires |Payload(ops)| < U64_LIMIT && k <= |Wire(ops)|
    ensures var o := Decode(strict, Wire(ops)[..k]);
            if k >= |Wire(ops)| - 2 then o == Done(Payload(ops)) else o.Cut? && o.out <= Payload(ops)
    ensures var r := Buffered(Decode(strict, Wire(ops)[..k]));
            r.Some? && r.value <= Payload(ops)
    ensures Lenient(Wire(ops)[..k]) <= Payload(ops)
  {
    var wire := Wire(ops);
    var part, later := wire[..k], wire[k..];
    assert part + later == wire == wire + [];
    DecodersInvertWriter(ops, [], false);
    DecodeGrows(strict, part, later);
    LenientGrows(part, later);
    var chunks := WireChunks(ops);
    FramesWithoutEnd(chunks, k, strict);
  }

  /** How many bytes before its end a body already reads as complete: the line reader takes a last line
      without its line end where the stream ends cleanly, but not where it breaks off with an error. */
  function Slack(broken: bool): nat {
    if broken then 2 else 4
  }

  /** A stream that ends inside a size line still yields that line, unless it ends with an error. */
  lemma LinesLastLine(line: seq<byte>, size: nat, broken: bool)
    requires line != [] && LF !in line && SizeOn(true, line) == Some(size)
    ensures DecodeLines(line, broken) == if !broken && size == 0 then Done([]) else Cut([])
  {
    assert LineEnd(line) == |line| && line[..|line|] == line && line[|line|..] == [];
    if size > 0 {
      assert DecodeLinesData(size, [], broken) == Cut([]);
    }
  }

  lemma ZeroLineCut(k: nat, broken: bool)
    requires k <= 5
    ensures DecodeLines(TERMINATOR[..k], broken) == if k >= 5 - Slack(broken) then Done([]) else Cut([])
  {
    assert Format(0, 16) == [48];
    if k >= 3 {
      assert TERMINATOR[..k] == [48] + CRLF + TERMINATOR[3..k];
      ZeroChunk(TERMINATOR[3..k], broken, false);
    } else if k > 0 {
      var line := TERMINATOR[..k];
      assert line == [48] + CRLF[..k - 1];
      SizeReadsBack(0, CRLF[..k - 1], true);
      LinesLastLine(line, 0, broken);
    }
  }

  /** A decode that reports the cut and has delivered only bytes of `c`. */
  ghost predicate CutShort(o: Outcome, c: seq<byte>) {
    o.Cut? && o.out <= c
  }

  /** Cut inside the size line: inside the digits a smaller, still positive size is read. */
  lemma InsideSizeLine(n: nat, k: nat, broken: bool)
    requires 0 < n < U64_LIMIT && k < |Format(n, 16)| + 2
    ensures DecodeLines((Format(n, 16) + CRLF)[..k], broken) == Cut([])
  {
    var digits := Format(n, 16);
    FormatIsDigits(n, 16);
    if 0 < k <= |digits| {
      var m := FormatPrefix(n, 16, k);
      FormatIsDigits(m, 16);
      assert (digits + CRLF)[..k] == Format(m, 16) + [] == Format(m, 16);
      SizeReadsBack(m, [], true);
      LinesLastLine(Format(m, 16), m, broken);
    } else if k > 0 {
      assert (digits + CRLF)[..k] == digits + [CR];
      SizeReadsBack(n, [CR], true);
      LinesLastLine(digits + [CR], n, broken);
    }
  }

  lemma DataCutInside(c: seq<byte>, k: nat, broken: bool)
    requires k < |c|
    ensures DecodeLinesData(|c|, c[..k], broken) == Cut(c[..k])
  {
  }

  lemma EndCutShort(end: seq<byte>, broken: bool)
    requires end < CRLF
    ensures DecodeLinesEnd(end, broken) == Cut([])
  {
    assert LF !in end;
    assert LineEnd(end) == |end| && end[..|end|] == end && end[|end|..] == [];
    AsciiIsUtf8(end);
    assert DecodeLines([], broken) == Cut([]);
  }

  lemma DataCutAfter(c: seq<byte>, end: seq<byte>, broken: bool)
    requires c != [] && end < CRLF
    ensures DecodeLinesData(|c|, c + end, broken) == Cut(c)
  {
    assert (c + end)[..|c|] == c && (c + end)[|c|..] == end;
    EndCutShort(end, broken);
    PrependToEmpty(c);
  }

  lemma DataWithoutEnd(c: seq<byte>, k: nat, broken: bool)
    requires c != [] && k < |c| + 2
    ensures CutShort(DecodeLinesData(|c|, (c + CRLF)[..k], broken), c)
  {
    if k < |c| {
      assert (c + CRLF)[..k] == c[..k];
      DataCutInside(c, k, broken);
    } else {
      assert (c + CRLF)[..k] == c + CRLF[..k - |c|];
      DataCutAfter(c, CRLF[..k - |c|], broken);
    }
  }

  lemma InsideData(c: seq<byte>, k: nat, broken: bool)
    requires 0 < |c| < U64_LIMIT && k < |c| + 2
    ensures CutShort(DecodeLines(Format(|c|, 16) + CRLF + (c + CRLF)[..k], broken), c)
  {
    FormatIsDigits(|c|, 16);
    SizeReadsBack(|c|, CRLF, true);
    LinesSizeLine(Format(|c|, 16), (c + CRLF)[..k], |c|, broken);
    DataWithoutEnd(c, k, broken);
  }

  lemma InsideParts(c: seq<byte>, cut: seq<byte>, k: nat, broken: bool)
    requires 0 < |c| < U64_LIMIT && k < |Format(|c|, 16)| + 2 + |c| + 2
    requires cut == if k < |Format(|c|, 16)| + 2 then (Format(|c|, 16) + CRLF)[..k]
                    else Format(|c|, 16) + CRLF + (c + CRLF)[..k - |Format(|c|, 16)| - 2]
    ensures CutShort(DecodeLines(cut, broken), c)
  {
    if k < |Format(|c|, 16)| + 2 {
      InsideSizeLine(|c|, k, broken);
    } else {
      InsideData(c, k - |Format(|c|, 16)| - 2, broken);
    }
  }

  /** Cut inside a frame: in the size line, or before the chunk and its line end are all there. */
  lemma InsideFrameLines(c: seq<byte>, k: nat, broken: bool)
    requires 0 < |c| < U64_LIMIT && k < |Frame(c)|
    ensures CutShort(DecodeLines(Frame(c)[..k], broken), c)
  {
    CutFrame(c, k);
    InsideParts(c, Frame(c)[..k], k, broken);
  }

  /** The line reader can finish before the last bytes; on this writer's output it never finishes
      short. */
  lemma {:induction false} CutBodyLines(chunks: seq<seq<byte>>, k: nat, broken: bool)
    requires Proper(chunks) && k <= |Frames(chunks) + TERMINATOR|
    ensures var o := DecodeLines((Frames(chunks) + TERMINATOR)[..k], broken);
            if k >= |Frames(chunks) + TERMINATOR| - Slack(broken) then o == Done(Concat(chunks))
            else o.Cut? && o.out <= Concat(chunks)
  {
    var wire := Frames(chunks) + TERMINATOR;
    if chunks == [] {
      assert wire[..k] == TERMINATOR[..k];
      ZeroLineCut(k, broken);
    } else {
      var c, later := chunks[0], Frames(chunks[1..]) + TERMINATOR;
      assert wire == Frame(c) + later;
      if k >= |Frame(c)| {
        var j := k - |Frame(c)|;
        assert wire[..k] == Frame(c) + later[..j];
        CutBodyLines(chunks[1..], j, broken);
        LinesFrame(c, later[..j], broken);
      } else {
        assert wire[..k] == Frame(c)[..k];
        InsideFrameLines(c, k, broken);
        assert c <= Concat(chunks);
      }
    }
  }

  /** A body cut at any byte, read through the line reader, whether the stream then ends cleanly or with
      an error: complete exactly from the zero chunk's line on, otherwise cut, with a prefix. */
  lemma CutBodyReader(ops: seq<WriterOp>, k: nat, broken: bool)
    requires |Payload(ops)| < U64_LIMIT && k <= |Wire(ops)|
    ensures var o := DecodeLines(Wire(ops)[..k], broken);
            if k >= |Wire(ops)| - Slack(broken) then o == Done(Payload(ops)) else o.Cut? && o.out <= Payload(ops)
  {
    var chunks := WireChunks(ops);
    CutBodyLines(chunks, k, broken);
  }

  lemma PaddedParts(zero: seq<byte>, digits: seq<byte>, end: seq<byte>, c: seq<byte>, last: seq<byte>)
    ensures zero + (digits + end + c + end) + last == (zero + digits) + end + (c + end + last)
  {
  }

  lemma PaddedValue(n: nat)
    ensures DigitsValue([48] + Format(n, 16), 16) == Some(n)
  {
    FormatParses(n, 16);
    LeadingZeros(1, Format(n, 16), 16);
    assert [48] == seq(1, i => 48);
  }

  lemma PaddedSize(n: nat)
    requires n < U64_LIMIT
    ensures SizeOn(true, [48] + Format(n, 16) + CRLF) == Some(n)
  {
    var digits := [48] + Format(n, 16);
    FormatIsDigits(n, 16);
    PaddedValue(n);
    LineOfDigits(digits, CRLF, n);
  }

  lemma PaddedBodyDecodes(c: seq<byte>)
    requires 0 < |c| < U64_LIMIT
    ensures DecodeLines([48] + Frame(c) + TERMINATOR, false) == Done(c)
  {
    var digits := [48] + Format(|c|, 16);
    FormatIsDigits(|c|, 16);
    PaddedSize(|c|);
    PaddedParts([48], Format(|c|, 16), CRLF, c, TERMINATOR);
    LinesSizeLine(digits, c + CRLF + TERMINATOR, |c|, false);
    LinesWholeData(c, TERMINATOR, false);
    assert TERMINATOR == TERMINATOR[..5];
    ZeroLineCut(5, false);
    PrependToEmpty(c);
  }

  /** That depends on the writer: a peer that pads its sizes with zeros, which the coding allows,
      can be cut inside a size line and read as a complete, shorter body. */
  lemma PaddedSizeCutReadsComplete(c: seq<byte>)
    requires 0 < |c| < U64_LIMIT
    ensures var body := [48] + Frame(c) + TERMINATOR;
            DecodeLines(body, false) == Done(c) && DecodeLines(body[..1], false) == Done([])
            && Decode(true, body[..1]) == Cut([])
  {
    PaddedBodyDecodes(c);
    var body := [48] + Frame(c) + TERMINATOR;
    assert body[..1] == TERMINATOR[..1];
    ZeroLineCut(1, false);
    assert FindCrlf(body[..1]).None?;
  }
}
