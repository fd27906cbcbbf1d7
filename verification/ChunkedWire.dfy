/** The chunked transfer coding (section 7.1 of RFC 9112) as pure functions on whole byte strings:
    what each of the five hand-written decoders makes of a stream it can see all of.
    No read size appears here; the streaming decoders are proved equal to these functions. */
module ChunkedWire {
  import opened Bytes
  import opened Radix
  import opened Streams
  import opened Utf8

  // ---------- the text of a chunk-size line ----------

  /** The text before a `;`: a chunk extension is dropped, and so is the white space around the size. */
  function ChunkSize(line: seq<byte>): (n: Option<nat>)
    ensures n.Some? ==> n.value < U64_LIMIT
  {
    FromStrRadix(TrimEnd(TrimStart(UpTo(line, 59))), 16)
  }

  /** The size on a line that must be UTF-8, as `from_utf8` and `read_line` insist; the lossy
      decoder of the cloud client skips that test. */
  function SizeOn(strict: bool, line: seq<byte>): (n: Option<nat>)
    ensures n.Some? ==> n.value < U64_LIMIT
  {
    if strict && !ValidUtf8(line) then None else ChunkSize(line)
  }

  /** `windows(2).position(|w| w == b"\r\n")`. */
  function FindCrlf(b: seq<byte>): (at: Option<nat>)
    ensures at.Some? ==> at.value + 2 <= |b| && b[at.value] == CR && b[at.value + 1] == LF
    ensures at.Some? ==> forall j :: 0 <= j < at.value ==> !(b[j] == CR && b[j + 1] == LF)
    ensures at.None? ==> forall j :: 0 <= j < |b| - 1 ==> !(b[j] == CR && b[j + 1] == LF)
  {
    if |b| < 2 then None
    else if b[0] == CR && b[1] == LF then Some(0)
    else
      match FindCrlf(b[1..])
      case Some(k) => Some(k + 1)
      case None => None
  }

  lemma FindCrlfExtends(a: seq<byte>, b: seq<byte>)
    requires FindCrlf(a).Some?
    ensures FindCrlf(a + b) == FindCrlf(a)
  {
    var k := FindCrlf(a).value;
    assert (a + b)[k] == CR && (a + b)[k + 1] == LF;
    assert (a + b)[..k + 2] == a[..k + 2];
  }

  // ---------- the streaming decoders ----------

  /** How a decode ends, with the bytes delivered by then: at the zero chunk, at the end of the
      stream, or at something that is not a chunk-size line. */
  datatype Outcome = Done(out: seq<byte>) | Cut(out: seq<byte>) | Malformed(out: seq<byte>)

  function Prepend(p: seq<byte>, o: Outcome): Outcome {
    match o
    case Done(out) => Done(p + out)
    case Cut(out) => Cut(p + out)
    case Malformed(out) => Malformed(p + out)
  }

  lemma PrependPrepend(p: seq<byte>, q: seq<byte>, o: Outcome)
    ensures Prepend(p, Prepend(q, o)) == Prepend(p + q, o)
  {
    assert p + (q + o.out) == (p + q) + o.out;
  }

  lemma PrependToEmpty(p: seq<byte>)
    ensures Prepend(p, Done([])) == Done(p) && Prepend(p, Cut([])) == Cut(p)
    ensures Prepend(p, Malformed([])) == Malformed(p)
  {
    assert p + [] == p;
  }

  lemma PrependNothing(o: Outcome)
    ensures Prepend([], o) == o
  {
    assert [] + o.out == o.out;
  }

  /** Decode from a chunk-size line on. */
  function Decode(strict: bool, b: seq<byte>): Outcome
    decreases |b|
  {
    match FindCrlf(b)
    case None => Cut([])
    case Some(nl) =>
      match SizeOn(strict, b[..nl])
      case None => Malformed([])
      case Some(size) => if size == 0 then Done([]) else DecodeData(strict, size, b[nl + 2..])
  }

  /** Decode with a chunk's closing CRLF still to be dropped: any two bytes, never looked at. */
  function DecodeEnd(strict: bool, b: seq<byte>): Outcome
    decreases |b|, 0
  {
    if |b| < 2 then Cut([]) else Decode(strict, b[2..])
  }

  /** Decode with `n` bytes of the current chunk still owed. */
  function DecodeData(strict: bool, n: nat, b: seq<byte>): Outcome
    decreases |b|
  {
    if |b| < n then Cut(b) else Prepend(b[..n], DecodeEnd(strict, b[n..]))
  }

  // ---------- the reader that takes LF-ended lines ----------

  /** Decode from a chunk-size line on, when lines end at LF or at the end of the stream. */
  function DecodeLines(b: seq<byte>, broken: bool): Outcome
    decreases |b|, 0
  {
    var line := b[..LineEnd(b)];
    if broken && LF !in line then Cut([])
    else if line == [] then Cut([])
    else
      match SizeOn(true, line)
      case None => Malformed([])
      case Some(size) => if size == 0 then Done([]) else DecodeLinesData(size, b[|line|..], broken)
  }

  /** The rest of the line after a chunk is dropped, whatever it says. */
  function DecodeLinesEnd(b: seq<byte>, broken: bool): Outcome
    decreases |b|, 1
  {
    var line := b[..LineEnd(b)];
    if broken && LF !in line then Cut([])
    else if !ValidUtf8(line) then Malformed([])
    else DecodeLines(b[|line|..], broken)
  }

  function DecodeLinesData(n: nat, b: seq<byte>, broken: bool): Outcome
    requires n > 0
    decreases |b|, 2
  {
    if |b| < n then Cut(b) else Prepend(b[..n], DecodeLinesEnd(b[n..], broken))
  }

  // ---------- the two buffered decoders ----------

  /** The cloud client's buffered form: a cut body is kept, a malformed one is an error. */
  function Buffered(o: Outcome): Option<seq<byte>> {
    match o
    case Done(out) => Some(out)
    case Cut(out) => Some(out)
    case Malformed(_) => None
  }

  function SkipCrlf(b: seq<byte>): (r: seq<byte>)
    ensures |r| <= |b|
  {
    if CRLF <= b then b[2..] else b
  }

  /** The phone client's buffered form: everything that is not a size line ends the body, and a
      chunk's CRLF is skipped only where it stands. */
  function Lenient(b: seq<byte>): seq<byte>
    decreases |b|, 0
  {
    match FindCrlf(b)
    case None => []
    case Some(nl) =>
      var data := b[nl + 2..];
      match SizeOn(true, b[..nl])
      case None => []
      case Some(size) =>
        if size == 0 then [] else LenientData(size, data)
  }

  function LenientData(n: nat, b: seq<byte>): seq<byte>
    decreases |b|, 1
  {
    if |b| < n then b else b[..n] + Lenient(SkipCrlf(b[n..]))
  }

  // ---------- what more bytes can change ----------

  /** `later` is what `earlier` turns into when more of the stream arrives: a finished or malformed
      decode stays as it was, a cut one only delivers more. */
  ghost predicate Grows(earlier: Outcome, later: Outcome) {
    match earlier
    case Done(_) => later == earlier
    case Malformed(_) => later == earlier
    case Cut(out) => out <= later.out
  }

  lemma GrowsPrepend(p: seq<byte>, a: Outcome, b: Outcome)
    requires Grows(a, b)
    ensures Grows(Prepend(p, a), Prepend(p, b))
  {
  }

  /** For arbitrary bytes: a decode never takes anything back when the stream goes on. */
  lemma {:induction false} DecodeGrows(strict: bool, a: seq<byte>, b: seq<byte>)
    ensures Grows(Decode(strict, a), Decode(strict, a + b))
    decreases |a|
  {
    match FindCrlf(a)
    case None =>
    case Some(nl) =>
      FindCrlfExtends(a, b);
      assert (a + b)[..nl] == a[..nl];
      assert (a + b)[nl + 2..] == a[nl + 2..] + b;
      match SizeOn(strict, a[..nl])
      case None =>
      case Some(size) =>
        if size > 0 {
          DecodeDataGrows(strict, size, a[nl + 2..], b);
        }
  }

  lemma {:induction false} DecodeDataGrows(strict: bool, n: nat, a: seq<byte>, b: seq<byte>)
    ensures Grows(DecodeData(strict, n, a), DecodeData(strict, n, a + b))
    decreases |a|
  {
    if |a| < n {
      if |a + b| >= n {
        assert a <= (a + b)[..n];
      }
    } else {
      assert (a + b)[..n] == a[..n];
      assert (a + b)[n..] == a[n..] + b;
      if |a[n..]| >= 2 {
        assert (a[n..] + b)[2..] == a[n..][2..] + b;
        DecodeGrows(strict, a[n..][2..], b);
      }
      GrowsPrepend(a[..n], DecodeEnd(strict, a[n..]), DecodeEnd(strict, a[n..] + b));
    }
  }

  lemma {:induction false} LenientGrows(a: seq<byte>, b: seq<byte>)
    ensures Lenient(a) <= Lenient(a + b)
    decreases |a|, 0
  {
    match FindCrlf(a)
    case None =>
    case Some(nl) =>
      FindCrlfExtends(a, b);
      assert (a + b)[..nl] == a[..nl];
      var data := a[nl + 2..];
      assert (a + b)[nl + 2..] == data + b;
      match SizeOn(true, a[..nl])
      case None =>
      case Some(size) =>
        if size > 0 {
          LenientDataGrows(size, data, b);
        }
  }

  lemma {:induction false} LenientSkipGrows(a: seq<byte>, b: seq<byte>)
    ensures Lenient(SkipCrlf(a)) <= Lenient(SkipCrlf(a + b))
    decreases |a|, 1
  {
    if |a| < 2 {
      assert FindCrlf(SkipCrlf(a)).None?;
    } else {
      assert (a + b)[..2] == a[..2];
      assert SkipCrlf(a + b) == SkipCrlf(a) + b by {
        assert (a + b)[2..] == a[2..] + b;
      }
      LenientGrows(SkipCrlf(a), b);
    }
  }

  lemma {:induction false} LenientDataGrows(n: nat, a: seq<byte>, b: seq<byte>)
    ensures LenientData(n, a) <= LenientData(n, a + b)
    decreases |a|, 2
  {
    if |a| < n {
      if |a + b| >= n {
        assert a <= (a + b)[..n];
      }
    } else {
      assert (a + b)[..n] == a[..n];
      assert (a + b)[n..] == a[n..] + b;
      LenientSkipGrows(a[n..], b);
    }
  }

  /** How two decodes of the same bytes compare when only one of them may refuse a line. */
  ghost predicate AgreesOrRefuses(strict: Outcome, lossy: Outcome) {
    strict.Malformed? || strict == lossy
  }

  lemma EndAgrees(size: nat, data: seq<byte>)
    requires size <= |data|
    requires |data[size..]| >= 2 ==> AgreesOrRefuses(Decode(true, data[size..][2..]), Decode(false, data[size..][2..]))
    ensures AgreesOrRefuses(DecodeData(true, size, data), DecodeData(false, size, data))
  {
    assert AgreesOrRefuses(DecodeEnd(true, data[size..]), DecodeEnd(false, data[size..]));
  }

  /** The strict and the lossy reading of size lines differ only where the strict one refuses. */
  lemma {:induction false} StrictAgreesOrRefuses(b: seq<byte>)
    ensures Decode(true, b).Malformed? || Decode(true, b) == Decode(false, b)
    decreases |b|
  {
    match FindCrlf(b)
    case None =>
    case Some(nl) =>
      match SizeOn(true, b[..nl])
      case None =>
      case Some(size) =>
        assert SizeOn(false, b[..nl]) == Some(size);
        var data := b[nl + 2..];
        if 0 < size <= |data| {
          if |data[size..]| >= 2 {
            StrictAgreesOrRefuses(data[size..][2..]);
          }
          EndAgrees(size, data);
        }
  }
}
