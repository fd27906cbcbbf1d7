/** Cut bodies from any sender: exactly when the line reader notices every cut. */
module ChunkedSenders {
  import opened Bytes
  import opened Radix
  import opened Streams
  import opened Utf8
  import opened ChunkedWire
  import opened ChunkedWriting
  import opened ChunkedTheorems

  /** A chunk as some sender wrote it: the text of its size line, extension and all, and its data. */
  datatype Chunk = Chunk(text: seq<byte>, data: seq<byte>)

  /** The line reader takes the line as the size of the data. */
  ghost predicate Sound(c: Chunk) {
    c.data != [] && LF !in c.text && SizeOn(true, c.text + CRLF) == Some(|c.data|)
  }

  ghost predicate AllSound(chunks: seq<Chunk>) {
    forall i :: 0 <= i < |chunks| ==> Sound(chunks[i])
  }

  /** The text of a zero chunk's size line. */
  ghost predicate ZeroLine(last: seq<byte>) {
    LF !in last && SizeOn(true, last + CRLF) == Some(0)
  }

  function FrameOf(c: Chunk): seq<byte> {
    (c.text + CRLF) + (c.data + CRLF)
  }

  /** A whole body: the chunks, the zero chunk's line, and whatever trailer follows. */
  function Body(chunks: seq<Chunk>, last: seq<byte>, trailer: seq<byte>): seq<byte> {
    if chunks == [] then last + CRLF + trailer else FrameOf(chunks[0]) + Body(chunks[1..], last, trailer)
  }

  function PayloadOf(chunks: seq<Chunk>): seq<byte> {
    if chunks == [] then [] else chunks[0].data + PayloadOf(chunks[1..])
  }

  /** Success means the whole payload. */
  ghost predicate Honest(o: Outcome, payload: seq<byte>) {
    o.Done? ==> o.out == payload
  }

  ghost predicate NoticesEveryCut(chunks: seq<Chunk>, last: seq<byte>, trailer: seq<byte>, broken: bool) {
    forall k :: 0 <= k <= |Body(chunks, last, trailer)| ==>
      Honest(DecodeLines(Body(chunks, last, trailer)[..k], broken), PayloadOf(chunks))
  }

  /** A part of the text, cut off from its end, never reads as a zero size. */
  ghost predicate NoZeroPrefix(text: seq<byte>) {
    forall k :: 0 < k <= |text| ==> SizeOn(true, text[..k]) != Some(0)
  }

  ghost predicate NoZeroPrefixes(chunks: seq<Chunk>) {
    forall i :: 0 <= i < |chunks| ==> NoZeroPrefix(chunks[i].text)
  }

  // ---------- a size line, whole and cut ----------

  /** A stream that ends inside a size line: success exactly when what came reads as zero and the stream
      ended cleanly. */
  lemma PartOfLine(line: seq<byte>, broken: bool)
    requires LF !in line
    ensures DecodeLines(line, broken)
         == if line == [] || broken then Cut([])
            else match SizeOn(true, line)
                 case None => Malformed([])
                 case Some(size) => if size == 0 then Done([]) else Cut([])
  {
    assert LineEnd(line) == |line| && line[..|line|] == line && line[|line|..] == [];
    if line != [] && SizeOn(true, line).Some? {
      LinesLastLine(line, SizeOn(true, line).value, broken);
    }
  }

  lemma {:induction false} TrimStartSpace(s: seq<byte>, c: byte)
    requires IsSpace(c)
    ensures TrimStart(s + [c]) == if TrimStart(s) == [] then [] else TrimStart(s) + [c]
  {
    if s == [] {
      assert s + [c] == [c] && [c][1..] == [];
    } else if SpaceAtStart(s) > 0 {
      var n := SpaceAtStart(s);
      TrimStartSpace(s[n..], c);
      assert (s + [c])[n..] == s[n..] + [c];
    }
  }

  lemma {:induction false} UpToSpace(s: seq<byte>, c: byte)
    requires IsSpace(c)
    ensures UpTo(s + [c], 59) == UpTo(s, 59) || UpTo(s + [c], 59) == UpTo(s, 59) + [c]
  {
    if s == [] {
      assert s + [c] == [c] && [c][1..] == [];
    } else if s[0] != 59 {
      UpToSpace(s[1..], c);
      assert (s + [c])[1..] == s[1..] + [c];
    }
  }

  lemma TrimEndSpace(s: seq<byte>, c: byte)
    requires IsSpace(c)
    ensures TrimEnd(s + [c]) == TrimEnd(s)
  {
    assert (s + [c])[..|s|] == s;
  }

  /** White space behind a size changes nothing. */
  lemma SpaceBehindSize(s: seq<byte>, c: byte)
    requires IsSpace(c)
    ensures ChunkSize(s + [c]) == ChunkSize(s)
  {
    UpToSpace(s, c);
    var t := UpTo(s, 59);
    TrimStartSpace(t, c);
    TrimEndSpace(TrimStart(t), c);
  }

  /** A line cut between its CR and its LF still has the whole size, if any. */
  lemma CutInsideCrlf(c: Chunk)
    requires Sound(c)
    ensures SizeOn(true, c.text + [CR]) != Some(0)
  {
    assert c.text + CRLF == (c.text + [CR]) + [LF];
    SpaceBehindSize(c.text + [CR], LF);
  }

  // ---------- one chunk ----------

  lemma FrameThen(c: Chunk, tail: seq<byte>, broken: bool)
    requires Sound(c)
    ensures DecodeLines(FrameOf(c) + tail, broken) == Prepend(c.data, DecodeLines(tail, broken))
  {
    var rest := c.data + CRLF + tail;
    assert FrameOf(c) + tail == (c.text + CRLF) + rest;
    LinesSizeLine(c.text, rest, |c.data|, broken);
    LinesWholeData(c.data, tail, broken);
  }

  lemma CutTextParts(c: Chunk, k: nat)
    requires k <= |c.text| + 1
    ensures FrameOf(c)[..k] == (c.text + [CR])[..k]
  {
  }

  lemma CutDataParts(c: Chunk, k: nat) returns (j: nat, front: seq<byte>, data: seq<byte>)
    requires |c.text| + 2 <= k < |FrameOf(c)|
    ensures j == k - |c.text| - 2 && j < |c.data| + 2 && data == (c.data + CRLF)[..j]
    ensures front == FrameOf(c)[..k] == (c.text + CRLF) + data
  {
    j := k - |c.text| - 2;
    front, data := FrameOf(c)[..k], (c.data + CRLF)[..j];
  }

  lemma CutInsideData(c: Chunk, j: nat, data: seq<byte>, broken: bool) returns (o: Outcome)
    requires Sound(c) && j < |c.data| + 2 && data == (c.data + CRLF)[..j]
    ensures o == DecodeLines((c.text + CRLF) + data, broken) && o.Cut? && o.out <= c.data
  {
    LinesSizeLine(c.text, data, |c.data|, broken);
    DataWithoutEnd(c.data, j, broken);
    o := DecodeLinesData(|c.data|, data, broken);
  }

  lemma CutInsideText(c: Chunk, k: nat, broken: bool) returns (o: Outcome)
    requires Sound(c) && k <= |c.text| + 1
    ensures o == DecodeLines((c.text + [CR])[..k], broken)
    ensures o.Done? <==> !broken && 0 < k <= |c.text| && SizeOn(true, c.text[..k]) == Some(0)
    ensures o.out == []
  {
    o := DecodeLines((c.text + [CR])[..k], broken);
    assert (c.text + [CR])[..k] == if k <= |c.text| then c.text[..k] else c.text + [CR];
    CutInsideCrlf(c);
    PartOfLine((c.text + [CR])[..k], broken);
  }

  lemma CutTextOfFrame(c: Chunk, k: nat, broken: bool) returns (o: Outcome)
    requires Sound(c) && k <= |c.text| + 1
    ensures k < |FrameOf(c)| && o == DecodeLines(FrameOf(c)[..k], broken)
    ensures o.Done? <==> !broken && 0 < k <= |c.text| && SizeOn(true, c.text[..k]) == Some(0)
    ensures o.out == []
  {
    CutTextParts(c, k);
    o := CutInsideText(c, k, broken);
  }

  lemma CutDataOfFrame(c: Chunk, k: nat, broken: bool) returns (o: Outcome)
    requires Sound(c) && |c.text| + 2 <= k < |FrameOf(c)|
    ensures o == DecodeLines(FrameOf(c)[..k], broken) && o.Cut? && o.out <= c.data
  {
    var j, front, data := CutDataParts(c, k);
    o := CutInsideData(c, j, data, broken);
  }

  /** Cut inside a frame: success exactly inside the size text, where what came reads as zero. */
  lemma CutInsideFrame(c: Chunk, k: nat, broken: bool) returns (o: Outcome)
    requires Sound(c) && k < |FrameOf(c)|
    ensures o == DecodeLines(FrameOf(c)[..k], broken)
    ensures o.Done? <==> !broken && 0 < k <= |c.text| && SizeOn(true, c.text[..k]) == Some(0)
    ensures o.out <= c.data && (o.Done? ==> o.out == [])
  {
    if k <= |c.text| + 1 {
      o := CutTextOfFrame(c, k, broken);
    } else {
      o := CutDataOfFrame(c, k, broken);
    }
  }

  // ---------- the whole body ----------

  lemma CutLast(last: seq<byte>, trailer: seq<byte>, k: nat, broken: bool) returns (o: Outcome)
    requires ZeroLine(last) && k <= |last + CRLF + trailer|
    ensures o == DecodeLines((last + CRLF + trailer)[..k], broken) && o.out == []
  {
    var b := last + CRLF + trailer;
    o := DecodeLines(b[..k], broken);
    if k >= |last| + 2 {
      assert b[..k] == (last + CRLF) + b[|last| + 2..k];
      LinesSizeLine(last, b[|last| + 2..k], 0, broken);
    } else {
      assert b[..k] == if k <= |last| then last[..k] else last + [CR];
      PartOfLine(b[..k], broken);
    }
  }

  lemma CutInFirst(c: Chunk, rest: seq<byte>, k: nat, broken: bool) returns (o: Outcome)
    requires Sound(c) && k < |FrameOf(c)|
    ensures o == DecodeLines((FrameOf(c) + rest)[..k], broken)
    ensures o.Done? <==> !broken && 0 < k <= |c.text| && SizeOn(true, c.text[..k]) == Some(0)
    ensures o.out <= c.data && (o.Done? ==> o.out == [])
  {
    assert (FrameOf(c) + rest)[..k] == FrameOf(c)[..k];
    o := CutInsideFrame(c, k, broken);
  }

  /** The cut of a body behind its first frame. */
  lemma CutParts(c: Chunk, rest: seq<byte>, k: nat) returns (j: nat, front: seq<byte>, tail: seq<byte>)
    requires |FrameOf(c)| <= k <= |FrameOf(c) + rest|
    ensures j == k - |FrameOf(c)| && j <= |rest| && tail == rest[..j]
    ensures front == (FrameOf(c) + rest)[..k] == FrameOf(c) + tail
  {
    j := k - |FrameOf(c)|;
    front, tail := (FrameOf(c) + rest)[..k], rest[..j];
  }

  /** A chunk that starts at offset `m` of the payload has a size text some front of which reads as
      zero. */
  ghost predicate ZeroFrontAt(chunks: seq<Chunk>, m: nat) {
    chunks != [] &&
    if m == 0 then !NoZeroPrefix(chunks[0].text)
    else m >= |chunks[0].data| > 0 && ZeroFrontAt(chunks[1..], m - |chunks[0].data|)
  }

  /** A front of the payload, and complete only when it is all of it, or ends where such a chunk starts. */
  ghost predicate FrontOf(o: Outcome, chunks: seq<Chunk>, broken: bool) {
    && o.out <= PayloadOf(chunks)
    && (o.Done? ==> o.out == PayloadOf(chunks) || (!broken && ZeroFrontAt(chunks, |o.out|)))
  }

  lemma FrontBehind(chunks: seq<Chunk>, later: Outcome, broken: bool) returns (o: Outcome)
    requires chunks != [] && chunks[0].data != [] && FrontOf(later, chunks[1..], broken)
    ensures o == Prepend(chunks[0].data, later) && FrontOf(o, chunks, broken)
  {
    var data := chunks[0].data;
    o := Prepend(data, later);
    assert o.out == data + later.out;
    assert data + later.out <= data + PayloadOf(chunks[1..]);
  }

  lemma FrontInside(chunks: seq<Chunk>, o: Outcome, broken: bool)
    requires chunks != [] && o.out <= chunks[0].data
    requires o.Done? ==> o.out == [] && !broken && !NoZeroPrefix(chunks[0].text)
    ensures FrontOf(o, chunks, broken)
  {
  }

  /** For every sender and every cut: a front of the payload is delivered, and success is the whole of it,
      but for a cleanly ended cut in front of a chunk whose size text has a front that reads as zero. */
  lemma {:induction false} CutDecodes(chunks: seq<Chunk>, last: seq<byte>, trailer: seq<byte>, k: nat, broken: bool)
    returns (o: Outcome)
    requires AllSound(chunks) && ZeroLine(last) && k <= |Body(chunks, last, trailer)|
    ensures o == DecodeLines(Body(chunks, last, trailer)[..k], broken) && FrontOf(o, chunks, broken)
  {
    if chunks == [] {
      o := CutLast(last, trailer, k, broken);
    } else {
      var c, rest := chunks[0], Body(chunks[1..], last, trailer);
      if k < |FrameOf(c)| {
        o := CutInFirst(c, rest, k, broken);
        FrontInside(chunks, o, broken);
      } else {
        var j, front, tail := CutParts(c, rest, k);
        var later := CutDecodes(chunks[1..], last, trailer, j, broken);
        FrameThen(c, tail, broken);
        o := FrontBehind(chunks, later, broken);
      }
    }
  }

  lemma MissedInFirst(c: Chunk, rest: seq<byte>, payload: seq<byte>) returns (j: nat, all: seq<byte>, o: Outcome)
    requires Sound(c) && !NoZeroPrefix(c.text)
    ensures j <= |FrameOf(c) + rest| && DecodeLines((FrameOf(c) + rest)[..j], false) == o
    ensures all == c.data + payload && all != [] && o == Done(all[..0])
  {
    j :| 0 < j <= |c.text| && SizeOn(true, c.text[..j]) == Some(0);
    o := CutInFirst(c, rest, j, false);
    all := c.data + payload;
  }

  lemma CutBehind(c: Chunk, rest: seq<byte>, k: nat, o: Outcome) returns (m: nat, later: Outcome)
    requires Sound(c) && k <= |rest| && DecodeLines(rest[..k], false) == o
    ensures m <= |FrameOf(c) + rest| && DecodeLines((FrameOf(c) + rest)[..m], false) == later
    ensures later == Prepend(c.data, o)
  {
    m := |FrameOf(c)| + k;
    var _, _, tail := CutParts(c, rest, m);
    FrameThen(c, tail, false);
    later := Prepend(c.data, o);
  }

  lemma MissedBehind(c: Chunk, rest: seq<byte>, payload: seq<byte>, m: nat, n: nat, k: nat, o: Outcome)
    returns (at: nat, all: seq<byte>, later: Outcome)
    requires Sound(c) && m == |c.data| + n && n < |payload| && o == Done(payload[..n])
    requires k <= |rest| && DecodeLines(rest[..k], false) == o
    ensures at <= |FrameOf(c) + rest| && DecodeLines((FrameOf(c) + rest)[..at], false) == later
    ensures all == c.data + payload && later == Done(all[..m])
  {
    at, later := CutBehind(c, rest, k, o);
    all := c.data + payload;
    assert all[..m] == c.data + payload[..n];
  }

  /** Each such chunk does give a cut that reads as a complete body of the chunks before. */
  lemma {:induction false} ZeroFrontIsMissed(chunks: seq<Chunk>, last: seq<byte>, trailer: seq<byte>, m: nat)
    returns (k: nat, payload: seq<byte>, o: Outcome)
    requires AllSound(chunks) && ZeroFrontAt(chunks, m)
    ensures k <= |Body(chunks, last, trailer)| && DecodeLines(Body(chunks, last, trailer)[..k], false) == o
    ensures payload == PayloadOf(chunks) && m < |payload| && o == Done(payload[..m])
  {
    var c, rest := chunks[0], Body(chunks[1..], last, trailer);
    if m == 0 {
      k, payload, o := MissedInFirst(c, rest, PayloadOf(chunks[1..]));
    } else {
      var n := m - |c.data|;
      k, payload, o := ZeroFrontIsMissed(chunks[1..], last, trailer, n);
      k, payload, o := MissedBehind(c, rest, payload, m, n, k, o);
    }
  }

  lemma ZeroFrontHere(chunks: seq<Chunk>)
    requires chunks != [] && !NoZeroPrefix(chunks[0].text)
    ensures ZeroFrontAt(chunks, 0)
  {
  }

  lemma ZeroFrontBehind(chunks: seq<Chunk>, later: seq<Chunk>, n: nat) returns (m: nat)
    requires AllSound(chunks) && chunks != [] && later == chunks[1..] && ZeroFrontAt(later, n)
    ensures m == |chunks[0].data| + n && ZeroFrontAt(chunks, m)
  {
    assert Sound(chunks[0]);
    m := |chunks[0].data| + n;
  }

  lemma Behind(chunks: seq<Chunk>, i: nat) returns (later: seq<Chunk>)
    requires AllSound(chunks) && 0 < i < |chunks|
    ensures later == chunks[1..] && later[i - 1] == chunks[i] && AllSound(later)
  {
    later := chunks[1..];
  }

  /** Where such a chunk starts. */
  lemma {:induction false} ZeroFrontOf(chunks: seq<Chunk>, i: nat) returns (m: nat)
    requires AllSound(chunks) && i < |chunks| && !NoZeroPrefix(chunks[i].text)
    ensures ZeroFrontAt(chunks, m)
    decreases i
  {
    if i == 0 {
      ZeroFrontHere(chunks);
      m := 0;
    } else {
      var later := Behind(chunks, i);
      var n := ZeroFrontOf(later, i - 1);
      m := ZeroFrontBehind(chunks, later, n);
    }
  }

  lemma {:induction false} NoZeroFront(chunks: seq<Chunk>, m: nat)
    requires NoZeroPrefixes(chunks)
    ensures !ZeroFrontAt(chunks, m)
  {
    if chunks != [] && m > 0 && m >= |chunks[0].data| {
      NoZeroFront(chunks[1..], m - |chunks[0].data|);
    }
  }

  /** For every sender, the line reader notices every cut of a cleanly ended stream if and only if no
      front of a chunk's size text reads as zero; on one that ends with an error it always does. */
  lemma NoticesExactly(chunks: seq<Chunk>, last: seq<byte>, trailer: seq<byte>, broken: bool)
    requires AllSound(chunks) && ZeroLine(last)
    ensures NoticesEveryCut(chunks, last, trailer, broken) <==> broken || NoZeroPrefixes(chunks)
  {
    if broken || NoZeroPrefixes(chunks) {
      forall k | 0 <= k <= |Body(chunks, last, trailer)|
        ensures Honest(DecodeLines(Body(chunks, last, trailer)[..k], broken), PayloadOf(chunks))
      {
        var o := CutDecodes(chunks, last, trailer, k, broken);
        if !broken {
          NoZeroFront(chunks, |o.out|);
        }
      }
    } else {
      var i :| 0 <= i < |chunks| && !NoZeroPrefix(chunks[i].text);
      var m := ZeroFrontOf(chunks, i);
      var k, _, o := ZeroFrontIsMissed(chunks, last, trailer, m);
      assert !Honest(DecodeLines(Body(chunks, last, trailer)[..k], false), PayloadOf(chunks));
    }
  }

  // ---------- plain hexadecimal sizes ----------

  ghost predicate AllHex(s: seq<byte>) {
    forall i :: 0 <= i < |s| ==> DigitValue(s[i], 16).Some?
  }

  lemma {:induction false} HexValue(s: seq<byte>) returns (n: nat)
    requires AllHex(s)
    ensures DigitsValue(s, 16) == Some(n)
    ensures s != [] && s[0] != 48 ==> n > 0
  {
    if s == [] {
      n := 0;
    } else {
      var front := s[..|s| - 1];
      var high := HexValue(front);
      n := high * 16 + DigitValue(s[|s| - 1], 16).value;
    }
  }

  lemma {:induction false} HexIsAscii(s: seq<byte>)
    requires AllHex(s)
    ensures 59 !in s && (forall i :: 0 <= i < |s| ==> s[i] < 0x80 && !IsSpace(s[i]))
  {
    forall i | 0 <= i < |s|
      ensures s[i] != 59 && s[i] < 0x80 && !IsSpace(s[i])
    {
      assert DigitValue(s[i], 16).Some?;
    }
  }

  lemma HexIsPlain(s: seq<byte>)
    requires AllHex(s)
    ensures UpTo(s, 59) == s && TrimStart(s) == s && TrimEnd(s) == s && ValidUtf8(s)
  {
    HexIsAscii(s);
    UpToNothing(s, 59);
    AsciiIsUtf8(s);
  }

  /** For digits alone the condition is about the first one. */
  lemma HexNoZeroPrefix(text: seq<byte>)
    requires text != [] && AllHex(text)
    ensures NoZeroPrefix(text) <==> text[0] != 48
  {
    if text[0] == 48 {
      var one := text[..1];
      assert one == [48] && one[..0] == [];
      HexIsPlain(one);
      assert DigitsValue(one[..0], 16) == Some(0) && DigitValue(one[0], 16) == Some(0);
      assert SizeOn(true, text[..1]) == Some(0);
    } else {
      forall k | 0 < k <= |text|
        ensures SizeOn(true, text[..k]) != Some(0)
      {
        HexIsPlain(text[..k]);
        var n := HexValue(text[..k]);
      }
    }
  }

  /** Hence, for a sender that writes bare hexadecimal sizes: every cut is noticed if and only if no size
      has a leading zero. */
  lemma NoticesExactlyWithoutLeadingZeros(chunks: seq<Chunk>, last: seq<byte>, trailer: seq<byte>)
    requires AllSound(chunks) && ZeroLine(last)
    requires forall i :: 0 <= i < |chunks| ==> chunks[i].text != [] && AllHex(chunks[i].text)
    ensures NoticesEveryCut(chunks, last, trailer, false)
       <==> forall i :: 0 <= i < |chunks| ==> chunks[i].text[0] != 48
  {
    NoticesExactly(chunks, last, trailer, false);
    forall i | 0 <= i < |chunks|
      ensures NoZeroPrefix(chunks[i].text) <==> chunks[i].text[0] != 48
    {
      HexNoZeroPrefix(chunks[i].text);
    }
  }

  // ---------- two senders ----------

  /** A chunk as this repository's writer frames it, and one with its size padded by a zero. */
  function Written(data: seq<byte>): Chunk {
    Chunk(Format(|data|, 16), data)
  }

  function ZeroPadded(data: seq<byte>): Chunk {
    Chunk([48] + Format(|data|, 16), data)
  }

  lemma DigitsHaveNoLf(digits: seq<byte>)
    requires AllDigits(digits)
    ensures LF !in digits && AllHex(digits)
  {
  }

  lemma WrittenIsSound(data: seq<byte>)
    requires 0 < |data| < U64_LIMIT
    ensures Sound(Written(data)) && NoZeroPrefix(Written(data).text)
  {
    var text := Format(|data|, 16);
    FormatIsDigits(|data|, 16);
    DigitsHaveNoLf(text);
    SizeReadsBack(|data|, CRLF, true);
    var m := FormatPrefix(|data|, 16, 1);
    FormatParses(m, 16);
    assert text[..1] == [text[0]] && [text[0]][..0] == [];
    HexNoZeroPrefix(text);
  }

  lemma PaddedIsSound(data: seq<byte>)
    requires 0 < |data| < U64_LIMIT
    ensures Sound(ZeroPadded(data)) && !NoZeroPrefix(ZeroPadded(data).text)
  {
    var text := [48] + Format(|data|, 16);
    FormatIsDigits(|data|, 16);
    DigitsHaveNoLf(text);
    PaddedSize(|data|);
    HexNoZeroPrefix(text);
  }

  function AllWritten(chunks: seq<seq<byte>>): (sent: seq<Chunk>)
    ensures |sent| == |chunks|
  {
    if chunks == [] then [] else [Written(chunks[0])] + AllWritten(chunks[1..])
  }

  lemma WrittenFrame(data: seq<byte>, rest: seq<byte>)
    ensures FrameOf(Written(data)) + (rest + TERMINATOR) == (Frame(data) + rest) + TERMINATOR
  {
    assert FrameOf(Written(data)) == Frame(data);
    Regroup(Frame(data), rest, TERMINATOR);
  }

  lemma OneMoreWritten(data: seq<byte>, later: seq<Chunk>, rest: seq<byte>) returns (sent: seq<Chunk>)
    requires 0 < |data| < U64_LIMIT && AllSound(later) && NoZeroPrefixes(later)
    ensures sent == [Written(data)] + later && AllSound(sent) && NoZeroPrefixes(sent)
    ensures FrameOf(Written(data)) + (rest + TERMINATOR) == (Frame(data) + rest) + TERMINATOR
    ensures PayloadOf(sent) == data + PayloadOf(later)
  {
    WrittenIsSound(data);
    WrittenFrame(data, rest);
    sent := [Written(data)] + later;
    assert sent[1..] == later;
  }

  lemma {:induction false} WrittenBody(chunks: seq<seq<byte>>)
    requires Proper(chunks)
    ensures Body(AllWritten(chunks), [48], CRLF) == Frames(chunks) + TERMINATOR
    ensures PayloadOf(AllWritten(chunks)) == Concat(chunks)
    ensures AllSound(AllWritten(chunks)) && NoZeroPrefixes(AllWritten(chunks))
  {
    if chunks == [] {
      assert [48] + CRLF + CRLF == TERMINATOR == [] + TERMINATOR;
    } else {
      WrittenBody(chunks[1..]);
      var later := AllWritten(chunks[1..]);
      var sent := OneMoreWritten(chunks[0], later, Frames(chunks[1..]));
      assert sent[1..] == later;
    }
  }

  /** This repository's writer is such a sender, and no size text of its has such a front. */
  lemma WriterIsSender(ops: seq<WriterOp>) returns (chunks: seq<Chunk>)
    requires |Payload(ops)| < U64_LIMIT
    ensures AllSound(chunks) && NoZeroPrefixes(chunks) && ZeroLine([48])
    ensures Body(chunks, [48], CRLF) == Wire(ops) && PayloadOf(chunks) == Payload(ops)
  {
    var written := WireChunks(ops);
    chunks := AllWritten(written);
    WrittenBody(written);
    assert Format(0, 16) == [48];
    SizeReadsBack(0, CRLF, true);
  }
}
