/** What a size line may hold besides its digits: either case, white space around them, an extension. */
module ChunkedExtensions {
  import opened Bytes
  import opened Radix
  import opened Streams
  import opened Utf8
  import opened ChunkedWire
  import opened ChunkedTheorems
  import opened ChunkedSenders

  // ---------- the line ----------

  /** White space, a text, white space. */
  ghost predicate Surrounds(s: seq<byte>, before: seq<nat>, text: seq<byte>, after: seq<nat>) {
    Blank(before) && Blank(after) && s == EncodeAll(before) + text + EncodeAll(after)
  }

  lemma DigitIsPlain(c: byte, d: nat)
    requires SpellsDigit(c, d)
    ensures c < 0x80 && c != 59 && c != 43 && !IsSpace(c)
  {
    DigitExactly(c, d);
  }

  lemma NumberEnds(text: seq<byte>, n: nat)
    requires FromStrRadix(text, 16) == Some(n)
    ensures text != [] && text[0] < 0x80 && !IsSpace(text[0])
    ensures text[|text| - 1] < 0x80 && !IsSpace(text[|text| - 1])
  {
    var digits := if text[0] == 43 then text[1..] else text;
    var d := ValueIsSpelled(digits, n);
    DigitIsPlain(digits[0], d[0]);
    DigitIsPlain(digits[|d| - 1], d[|d| - 1]);
  }

  lemma TrimSurrounding(s: seq<byte>, before: seq<nat>, text: seq<byte>, after: seq<nat>)
    requires Surrounds(s, before, text, after) && text != []
    requires text[0] < 0x80 && !IsSpace(text[0]) && text[|text| - 1] < 0x80 && !IsSpace(text[|text| - 1])
    ensures TrimEnd(TrimStart(s)) == text
  {
    var rest := text + EncodeAll(after);
    Regroup(EncodeAll(before), text, EncodeAll(after));
    assert rest[0] == text[0];
    TrimStartBlank(before, rest);
    TrimEndBlank(text, after);
  }

  lemma TrimmedSurrounds(s: seq<byte>) returns (before: seq<nat>, text: seq<byte>, after: seq<nat>)
    ensures text == TrimEnd(TrimStart(s)) && Surrounds(s, before, text, after)
  {
    var rest;
    before, rest := TrimStartParts(s);
    text, after := TrimEndParts(rest);
    Regroup(EncodeAll(before), text, EncodeAll(after));
  }

  /** The text is a number, and nothing but white space stands around it. */
  ghost predicate NumberIn(s: seq<byte>, n: nat) {
    exists before, text, after :: Surrounds(s, before, text, after) && Number(text, n)
  }

  lemma NumberIsFound(s: seq<byte>, n: nat)
    requires NumberIn(s, n)
    ensures FromStrRadix(TrimEnd(TrimStart(s)), 16) == Some(n)
  {
    var before, text, after :| Surrounds(s, before, text, after) && Number(text, n);
    NumberExactly(text, n);
    NumberEnds(text, n);
    TrimSurrounding(s, before, text, after);
  }

  /** The size on a line is the number before its first `;`, with any white space around it. */
  lemma ChunkSizeExactly(line: seq<byte>, n: nat)
    ensures ChunkSize(line) == Some(n) <==> NumberIn(UpTo(line, 59), n)
  {
    var s := UpTo(line, 59);
    if ChunkSize(line) == Some(n) {
      var before, text, after := TrimmedSurrounds(s);
      NumberExactly(text, n);
    }
    if NumberIn(s, n) {
      NumberIsFound(s, n);
    }
  }

  /** A size line as a sender may write it: white space, digits, white space, and after a `;` anything. */
  datatype SizeText = SizeText(before: seq<nat>, digits: seq<byte>, after: seq<nat>, extension: Option<seq<byte>>)

  /** It says `n`. */
  ghost predicate Means(t: SizeText, n: nat) {
    Blank(t.before) && Blank(t.after) && t.digits != [] && Spelled(t.digits, n) && n < U64_LIMIT
  }

  function Extension(t: SizeText): seq<byte> {
    if t.extension.Some? then [59] + t.extension.value else []
  }

  function TextOf(t: SizeText): seq<byte>
    requires Scalars(t.before) && Scalars(t.after)
  {
    EncodeAll(t.before) + t.digits + EncodeAll(t.after) + Extension(t)
  }

  lemma {:induction false} BlankHasNo(text: seq<nat>, stop: byte)
    requires Blank(text) && stop < 0x80 && !WhiteSpace(stop)
    ensures stop !in EncodeAll(text)
  {
    if text != [] {
      WhiteBytes(text[0]);
      BlankHasNo(text[1..], stop);
    }
  }

  lemma DigitsArePlain(text: seq<byte>, n: nat)
    requires Spelled(text, n)
    ensures forall i :: 0 <= i < |text| ==> text[i] != 59 && text[i] < 0x80
  {
    var d :| Spells(text, d) && ValueOf(d) == n;
    forall i | 0 <= i < |text|
      ensures text[i] != 59 && text[i] < 0x80
    {
      DigitIsPlain(text[i], d[i]);
    }
  }

  /** The line ends are white space too. */
  lemma EndingIsBlank(after: seq<nat>, ending: seq<byte>) returns (both: seq<nat>)
    requires Blank(after) && ending <= CRLF
    ensures Blank(both) && EncodeAll(both) == EncodeAll(after) + ending
  {
    both := after;
    if ending != [] {
      both := SnocEncoded(both, 13);
    }
    if |ending| == 2 {
      both := SnocEncoded(both, 10);
    }
  }

  lemma NoSemicolon(t: SizeText, n: nat, after: seq<nat>)
    requires Means(t, n) && Blank(after)
    ensures 59 !in EncodeAll(t.before) + t.digits + EncodeAll(after)
  {
    BlankHasNo(t.before, 59);
    BlankHasNo(after, 59);
    DigitsArePlain(t.digits, n);
  }

  lemma FrontBeforeExtension(t: SizeText, n: nat, ending: seq<byte>)
    requires Means(t, n) && t.extension.Some?
    ensures UpTo(TextOf(t) + ending, 59) == EncodeAll(t.before) + t.digits + EncodeAll(t.after)
  {
    NoSemicolon(t, n, t.after);
    var front := EncodeAll(t.before) + t.digits + EncodeAll(t.after);
    var tail := Extension(t) + ending;
    assert TextOf(t) + ending == front + tail && tail[0] == 59;
    UpToEnd(front, tail, 59);
  }

  lemma FrontOfLine(t: SizeText, n: nat, ending: seq<byte>) returns (after: seq<nat>)
    requires Means(t, n) && ending <= CRLF
    ensures Blank(after) && UpTo(TextOf(t) + ending, 59) == EncodeAll(t.before) + t.digits + EncodeAll(after)
  {
    if t.extension.Some? {
      after := t.after;
      FrontBeforeExtension(t, n, ending);
    } else {
      after := EndingIsBlank(t.after, ending);
      NoSemicolon(t, n, after);
      var front := EncodeAll(t.before) + t.digits + EncodeAll(after);
      assert TextOf(t) + ending == front;
      UpToNothing(front, 59);
    }
  }

  /** Whatever the extension says and whatever white space stands around the digits, the line has the
      size they say, with its line end or without. */
  lemma LossySize(t: SizeText, n: nat, ending: seq<byte>)
    requires Means(t, n) && ending <= CRLF
    ensures SizeOn(false, TextOf(t) + ending) == Some(n)
  {
    var after := FrontOfLine(t, n, ending);
    assert Surrounds(UpTo(TextOf(t) + ending, 59), t.before, t.digits, after);
    assert Number(t.digits, n);
    ChunkSizeExactly(TextOf(t) + ending, n);
  }

  lemma TextIsUtf8(t: SizeText, n: nat, ending: seq<byte>)
    requires Means(t, n) && ending <= CRLF && (t.extension.Some? ==> ValidUtf8(t.extension.value))
    ensures ValidUtf8(TextOf(t) + ending)
  {
    EncodedIsValid(t.before);
    EncodedIsValid(t.after);
    DigitsArePlain(t.digits, n);
    AsciiIsUtf8(t.digits);
    AsciiIsUtf8(ending);
    if t.extension.Some? {
      AsciiIsUtf8([59]);
      ValidBoth([59], t.extension.value);
    }
    ValidBoth(EncodeAll(t.before), t.digits);
    ValidBoth(EncodeAll(t.before) + t.digits, EncodeAll(t.after));
    ValidBoth(EncodeAll(t.before) + t.digits + EncodeAll(t.after), Extension(t));
    ValidBoth(TextOf(t), ending);
  }

  /** The readers that want UTF-8 take it as well where the extension is UTF-8, as ASCII is. */
  lemma StrictSize(t: SizeText, n: nat, ending: seq<byte>)
    requires Means(t, n) && ending <= CRLF && (t.extension.Some? ==> ValidUtf8(t.extension.value))
    ensures SizeOn(true, TextOf(t) + ending) == Some(n)
  {
    TextIsUtf8(t, n, ending);
    LossySize(t, n, ending);
  }

  // ---------- whole bodies, for every sender ----------

  /** The text reads as the size of the data where lines end at CRLF, and as a line with its CRLF. */
  ghost predicate Readable(c: Chunk) {
    && Sound(c) && CR !in c.text
    && SizeOn(true, c.text) == SizeOn(false, c.text) == Some(|c.data|)
  }

  ghost predicate AllReadable(chunks: seq<Chunk>) {
    forall i :: 0 <= i < |chunks| ==> Readable(chunks[i])
  }

  ghost predicate ReadableZero(last: seq<byte>) {
    ZeroLine(last) && CR !in last && SizeOn(true, last) == SizeOn(false, last) == Some(0)
  }

  lemma FrameTail(c: Chunk, tail: seq<byte>)
    ensures FrameOf(c) + tail == c.text + CRLF + (c.data + CRLF + tail)
  {
  }

  lemma {:induction false} DecodeBody(strict: bool, chunks: seq<Chunk>, last: seq<byte>, trailer: seq<byte>)
    requires AllReadable(chunks) && ReadableZero(last)
    ensures Decode(strict, Body(chunks, last, trailer)) == Done(PayloadOf(chunks))
  {
    if chunks == [] {
      DecodeSizeLine(strict, last, trailer, 0);
    } else {
      var c, rest := chunks[0], Body(chunks[1..], last, trailer);
      DecodeBody(strict, chunks[1..], last, trailer);
      FrameTail(c, rest);
      DecodeSizeLine(strict, c.text, c.data + CRLF + rest, |c.data|);
      DecodeWholeData(strict, c.data, CRLF, rest);
    }
  }

  lemma {:induction false} LinesBody(chunks: seq<Chunk>, last: seq<byte>, trailer: seq<byte>, broken: bool)
    requires AllSound(chunks) && ZeroLine(last)
    ensures DecodeLines(Body(chunks, last, trailer), broken) == Done(PayloadOf(chunks))
  {
    if chunks == [] {
      LinesSizeLine(last, trailer, 0, broken);
    } else {
      LinesBody(chunks[1..], last, trailer, broken);
      FrameThen(chunks[0], Body(chunks[1..], last, trailer), broken);
    }
  }

  lemma {:induction false} LenientBody(chunks: seq<Chunk>, last: seq<byte>, trailer: seq<byte>)
    requires AllReadable(chunks) && ReadableZero(last)
    ensures Lenient(Body(chunks, last, trailer)) == PayloadOf(chunks)
  {
    if chunks == [] {
      LenientSizeLine(last, trailer, 0);
    } else {
      var c, rest := chunks[0], Body(chunks[1..], last, trailer);
      LenientBody(chunks[1..], last, trailer);
      FrameTail(c, rest);
      LenientSizeLine(c.text, c.data + CRLF + rest, |c.data|);
      LenientWholeData(c.data, rest);
    }
  }

  lemma NoSize(line: seq<byte>)
    requires !exists n :: NumberIn(UpTo(line, 59), n)
    ensures ChunkSize(line) == None && ChunkSize(line + CRLF) == None
  {
    if ChunkSize(line).Some? {
      ChunkSizeExactly(line, ChunkSize(line).value);
    }
    SpaceBehindSize(line, 13);
    SpaceBehindSize(line + [13], 10);
    assert line + CRLF == (line + [13]) + [10];
  }

  lemma {:induction false} DecodeBad(strict: bool, chunks: seq<Chunk>, line: seq<byte>, trailer: seq<byte>)
    requires AllReadable(chunks) && CR !in line && SizeOn(strict, line) == None
    ensures Decode(strict, Body(chunks, line, trailer)) == Malformed(PayloadOf(chunks))
  {
    if chunks == [] {
      var b := line + CRLF + trailer;
      CrlfBehind(line, trailer);
      assert b[..|line|] == line;
    } else {
      var c, rest := chunks[0], Body(chunks[1..], line, trailer);
      DecodeBad(strict, chunks[1..], line, trailer);
      FrameTail(c, rest);
      DecodeSizeLine(strict, c.text, c.data + CRLF + rest, |c.data|);
      DecodeWholeData(strict, c.data, CRLF, rest);
    }
  }

  lemma {:induction false} LinesBad(chunks: seq<Chunk>, line: seq<byte>, trailer: seq<byte>, broken: bool)
    requires AllSound(chunks) && LF !in line && SizeOn(true, line + CRLF) == None
    ensures DecodeLines(Body(chunks, line, trailer), broken) == Malformed(PayloadOf(chunks))
  {
    if chunks == [] {
      var b := line + CRLF + trailer;
      LineWithCrlf(line, trailer);
      var first := b[..LineEnd(b)];
      assert first == line + CRLF && first[|line| + 1] == LF;
    } else {
      LinesBad(chunks[1..], line, trailer, broken);
      FrameThen(chunks[0], Body(chunks[1..], line, trailer), broken);
    }
  }

  lemma {:induction false} LenientBad(chunks: seq<Chunk>, line: seq<byte>, trailer: seq<byte>)
    requires AllReadable(chunks) && CR !in line && SizeOn(true, line) == None
    ensures Lenient(Body(chunks, line, trailer)) == PayloadOf(chunks)
  {
    if chunks == [] {
      var b := line + CRLF + trailer;
      CrlfBehind(line, trailer);
      assert b[..|line|] == line;
    } else {
      var c, rest := chunks[0], Body(chunks[1..], line, trailer);
      LenientBad(chunks[1..], line, trailer);
      FrameTail(c, rest);
      LenientSizeLine(c.text, c.data + CRLF + rest, |c.data|);
      LenientWholeData(c.data, rest);
    }
  }

  /** A line without a number where a size is due: both streaming readers and the cloud client's buffered
      one refuse the body behind the chunks before; the phone client's takes it for the end. */
  lemma BadLineEnds(chunks: seq<Chunk>, line: seq<byte>, trailer: seq<byte>, broken: bool)
    requires AllReadable(chunks) && CR !in line && LF !in line && !exists n :: NumberIn(UpTo(line, 59), n)
    ensures Decode(false, Body(chunks, line, trailer)) == Malformed(PayloadOf(chunks))
    ensures Decode(true, Body(chunks, line, trailer)) == Malformed(PayloadOf(chunks))
    ensures DecodeLines(Body(chunks, line, trailer), broken) == Malformed(PayloadOf(chunks))
    ensures Buffered(Decode(false, Body(chunks, line, trailer))) == None
    ensures Lenient(Body(chunks, line, trailer)) == PayloadOf(chunks)
  {
    NoSize(line);
    DecodeBad(false, chunks, line, trailer);
    DecodeBad(true, chunks, line, trailer);
    LinesBad(chunks, line, trailer, broken);
    LenientBad(chunks, line, trailer);
  }

  /** What each reader takes for the end of a chunk: any two bytes, the rest of the line, or nothing at
      all where no CRLF stands. */
  lemma ChunkEnds(c: Chunk, two: seq<byte>, junk: seq<byte>, tail: seq<byte>, strict: bool, broken: bool)
    requires Readable(c) && |two| == 2 && LF !in junk && ValidUtf8(junk + [LF])
    ensures Decode(strict, c.text + CRLF + (c.data + two + tail)) == Prepend(c.data, Decode(strict, tail))
    ensures DecodeLines(c.text + CRLF + (c.data + (junk + ([LF] + tail))), broken)
         == Prepend(c.data, DecodeLines(tail, broken))
    ensures !([13, 10] <= tail) ==> Lenient(c.text + CRLF + (c.data + tail)) == c.data + Lenient(tail)
  {
    DecodeSizeLine(strict, c.text, c.data + two + tail, |c.data|);
    DecodeWholeData(strict, c.data, two, tail);
    LinesSizeLine(c.text, c.data + (junk + ([LF] + tail)), |c.data|, broken);
    LinesDataThenLine(c.data, junk, tail, broken);
    LenientSizeLine(c.text, c.data + tail, |c.data|);
    if !([13, 10] <= tail) {
      LenientWithoutEnd(c.data, tail);
    }
  }

  // ---------- chunks with such size lines ----------

  datatype Extended = Extended(size: SizeText, data: seq<byte>)

  /** A size line that says `n`, on one line, with an extension in UTF-8 if it has one. */
  ghost predicate SizeLine(t: SizeText, n: nat) {
    Means(t, n) && CR !in TextOf(t) && LF !in TextOf(t) && (t.extension.Some? ==> ValidUtf8(t.extension.value))
  }

  ghost predicate AllFramed(chunks: seq<Extended>) {
    forall i :: 0 <= i < |chunks| ==> chunks[i].data != [] && SizeLine(chunks[i].size, |chunks[i].data|)
  }

  function ExtendedBody(chunks: seq<Extended>, zero: SizeText, trailer: seq<byte>): seq<byte>
    requires AllFramed(chunks) && SizeLine(zero, 0)
  {
    if chunks == [] then TextOf(zero) + CRLF + trailer
    else (TextOf(chunks[0].size) + CRLF) + (chunks[0].data + CRLF) + ExtendedBody(chunks[1..], zero, trailer)
  }

  function DataOf(chunks: seq<Extended>): seq<byte> {
    if chunks == [] then [] else chunks[0].data + DataOf(chunks[1..])
  }

  lemma SizeLineReads(t: SizeText, n: nat)
    requires SizeLine(t, n)
    ensures SizeOn(true, TextOf(t)) == SizeOn(false, TextOf(t)) == Some(n)
    ensures SizeOn(true, TextOf(t) + CRLF) == Some(n)
  {
    StrictSize(t, n, []);
    LossySize(t, n, []);
    StrictSize(t, n, CRLF);
    assert TextOf(t) + [] == TextOf(t);
  }

  lemma {:induction false} AsChunks(chunks: seq<Extended>, zero: SizeText, trailer: seq<byte>)
    returns (plain: seq<Chunk>, body: seq<byte>)
    requires AllFramed(chunks) && SizeLine(zero, 0)
    ensures AllReadable(plain) && body == ExtendedBody(chunks, zero, trailer) == Body(plain, TextOf(zero), trailer)
    ensures PayloadOf(plain) == DataOf(chunks)
  {
    if chunks == [] {
      plain, body := [], ExtendedBody(chunks, zero, trailer);
    } else {
      var c := Chunk(TextOf(chunks[0].size), chunks[0].data);
      SizeLineReads(chunks[0].size, |c.data|);
      var later, rest := AsChunks(chunks[1..], zero, trailer);
      plain, body := [c] + later, FrameOf(c) + rest;
      assert plain[1..] == later;
    }
  }

  /** Every body framed with such size lines, extensions and all, decodes to its data in all five decoders,
      whatever follows it on the connection. */
  lemma DecodersTakeExtensions(chunks: seq<Extended>, zero: SizeText, trailer: seq<byte>, broken: bool)
    requires AllFramed(chunks) && SizeLine(zero, 0)
    ensures Decode(false, ExtendedBody(chunks, zero, trailer)) == Done(DataOf(chunks))
    ensures Decode(true, ExtendedBody(chunks, zero, trailer)) == Done(DataOf(chunks))
    ensures DecodeLines(ExtendedBody(chunks, zero, trailer), broken) == Done(DataOf(chunks))
    ensures Buffered(Decode(false, ExtendedBody(chunks, zero, trailer))) == Some(DataOf(chunks))
    ensures Lenient(ExtendedBody(chunks, zero, trailer)) == DataOf(chunks)
  {
    SizeLineReads(zero, 0);
    var plain, body := AsChunks(chunks, zero, trailer);
    DecodeBody(false, plain, TextOf(zero), trailer);
    DecodeBody(true, plain, TextOf(zero), trailer);
    LinesBody(plain, TextOf(zero), trailer, broken);
    LenientBody(plain, TextOf(zero), trailer);
  }
}
