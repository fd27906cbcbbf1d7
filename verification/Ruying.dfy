/** The super-clipboard frame, its parser, and the loop that cuts a stream into frames. */
module Ruying {
  import opened Bytes
  import opened Streams

  const PREFIX_LEN: nat := 8
  const INNER_LEN: nat := 30
  const HEADER_LEN: nat := 38
  const VERSION: byte := 1
  /** One read of the 8904 loop asks for at most this much. */
  const READ_SIZE: nat := 65536
  /** `fieldA` and `fieldB` are six bytes, `fieldE` eleven: arrays in the source. */
  datatype Frame = Frame(version: byte, fieldA: seq<byte>, fieldB: seq<byte>, byteC: byte, byteD: byte,
                         fieldE: seq<byte>, cipher: seq<byte>)
  {
    predicate Valid() {
      |fieldA| == 6 && |fieldB| == 6 && |fieldE| == 11 && |cipher| < VEC_LIMIT
    }
  }

  /** `Panics` is the slice of a 30-byte inner header that is not all there. It takes a length prefix
      so large that adding the prefix's own eight bytes wraps around. */
  datatype Parsed = Whole(frame: Frame, used: nat) | NeedMore(total: nat) | Invalid | Panics

  /** The 26 bytes between the two lengths. */
  function Middle(f: Frame): (m: seq<byte>)
    requires f.Valid()
    ensures |m| == 26 && m[0] == f.version
  {
    [f.version] + f.fieldA + f.fieldB + [f.byteC, f.byteD] + f.fieldE
  }

  function Image(f: Frame): (b: seq<byte>)
    requires f.Valid()
    ensures |b| == HEADER_LEN + |f.cipher|
  {
    BigEndian(8, INNER_LEN + |f.cipher|) + Middle(f) + BigEndian(4, |f.cipher|) + f.cipher
  }

  /** The frame in the first `need` bytes, `rest` of them announced by the prefix. */
  function ParseInner(b: seq<byte>, rest: nat, need: nat): (p: Parsed)
    requires |b| >= HEADER_LEN && |b| >= need && rest >= INNER_LEN
    requires rest < U32_LIMIT + INNER_LEN ==> need == PREFIX_LEN + rest
    ensures p.Whole? || p == Invalid
    ensures p.Whole? ==> p.used == need == PREFIX_LEN + rest <= |b| && p.frame.cipher == b[HEADER_LEN..need]
  {
    FromBigEndianBound(b[34..38]);
    Spans();
    if b[8] != VERSION then Invalid
    else if FromBigEndian(b[34..38]) != rest - INNER_LEN then Invalid
    else Whole(Frame(b[8], b[9..15], b[15..21], b[21], b[22], b[23..34], b[HEADER_LEN..need]), need)
  }

  function Parse(b: seq<byte>): (p: Parsed)
    ensures p.Whole? ==> HEADER_LEN <= p.used <= |b|
  {
    if |b| < PREFIX_LEN then NeedMore(PREFIX_LEN)
    else
      var rest := FromBigEndian(b[..PREFIX_LEN]);
      var need := (PREFIX_LEN + rest) % 0x1_0000_0000_0000_0000;
      if rest < INNER_LEN then Invalid
      else if |b| < need then NeedMore(need)
      else if |b| < HEADER_LEN then Panics
      else ParseInner(b, rest, need)
  }

  // ---------- parser and builder ----------

  lemma ImageFields(f: Frame, tail: seq<byte>)
    requires f.Valid()
    ensures var b := Image(f) + tail;
            && b[..PREFIX_LEN] == BigEndian(8, INNER_LEN + |f.cipher|)
            && b[8..34] == Middle(f) && b[34..38] == BigEndian(4, |f.cipher|)
            && b[HEADER_LEN..HEADER_LEN + |f.cipher|] == f.cipher
  {
  }

  lemma MiddleFields(f: Frame, b: seq<byte>)
    requires f.Valid() && |b| >= HEADER_LEN && b[8..34] == Middle(f)
    ensures b[8] == f.version && b[9..15] == f.fieldA && b[15..21] == f.fieldB
    ensures b[21] == f.byteC && b[22] == f.byteD && b[23..34] == f.fieldE
  {
    var m := Middle(f);
    assert b[8] == b[8..34][0] && b[21] == b[8..34][13] && b[22] == b[8..34][14];
    assert b[9..15] == m[1..7] && b[15..21] == m[7..13] && b[23..34] == m[15..26];
  }

  /** The verdict on a buffer whose fields are those of `f`, its cipher length kept to 32 bits. */
  lemma ParseFields(f: Frame, b: seq<byte>)
    requires f.Valid() && |b| >= HEADER_LEN + |f.cipher|
    requires FromBigEndian(b[..PREFIX_LEN]) == INNER_LEN + |f.cipher| && b[8..34] == Middle(f)
    requires FromBigEndian(b[34..38]) == |f.cipher| % 0x1_0000_0000
    requires b[HEADER_LEN..HEADER_LEN + |f.cipher|] == f.cipher
    ensures Parse(b)
         == if f.version == VERSION && |f.cipher| < U32_LIMIT then Whole(f, HEADER_LEN + |f.cipher|) else Invalid
  {
    MiddleFields(f, b);
  }

  /** Parsing a built frame gives it back, whatever follows, exactly when its version is the one the
      protocol has and its cipher text fits the 32-bit length; otherwise the frame is refused. */
  lemma ParseImage(f: Frame, tail: seq<byte>)
    requires f.Valid()
    ensures Parse(Image(f) + tail)
         == if f.version == VERSION && |f.cipher| < U32_LIMIT then Whole(f, |Image(f)|) else Invalid
  {
    ImageFields(f, tail);
    Spans();
    BigEndianFits(8, INNER_LEN + |f.cipher|);
    BigEndianRoundTrip(4, |f.cipher|);
    ParseFields(f, Image(f) + tail);
  }

  /** What is built parses back to the frame, unless its version or its length is one the parser refuses. */
  method Build(f: Frame) returns (out: seq<byte>)
    requires f.Valid()
    ensures out == Image(f)
    ensures Parse(out) == if f.version == VERSION && |f.cipher| < U32_LIMIT then Whole(f, |out|) else Invalid
  {
    out := BigEndian(8, INNER_LEN + |f.cipher|);
    out := out + [f.version];
    out := out + f.fieldA;
    out := out + f.fieldB;
    out := out + [f.byteC];
    out := out + [f.byteD];
    out := out + f.fieldE;
    assert out == BigEndian(8, INNER_LEN + |f.cipher|) + Middle(f);
    out := out + BigEndian(4, |f.cipher|);
    out := out + f.cipher;
    ParseImage(f, []);
    assert out + [] == out;
  }

  lemma MiddleOf(f: Frame, b: seq<byte>)
    requires |b| >= HEADER_LEN && f.Valid()
    requires f.version == b[8] && f.fieldA == b[9..15] && f.fieldB == b[15..21] && f.byteC == b[21] && f.byteD == b[22]
    requires f.fieldE == b[23..34]
    ensures Middle(f) == b[8..34]
  {
  }

  lemma InFourParts(b: seq<byte>, used: nat)
    requires HEADER_LEN <= used <= |b|
    ensures b[..used] == b[..8] + b[8..34] + b[34..38] + b[HEADER_LEN..used]
  {
  }

  /** Building a parsed frame gives back the bytes it was parsed from. */
  lemma ImageOfParsed(b: seq<byte>)
    requires Parse(b).Whole?
    ensures var p := Parse(b);
            p.frame.Valid() && p.frame.version == VERSION && |p.frame.cipher| < U32_LIMIT
            && Image(p.frame) == b[..p.used]
  {
    var p := Parse(b);
    FromBigEndianBound(b[34..38]);
    Spans();
    BigEndianOfRead(b[..8]);
    BigEndianOfRead(b[34..38]);
    MiddleOf(p.frame, b);
    InFourParts(b, p.used);
  }

  /** The parser panics exactly on a length prefix that wraps around with the prefix's own eight bytes, while
      the header is not all there. */
  lemma PanicsExactly(b: seq<byte>)
    ensures Parse(b).Panics? <==> 8 <= |b| < 38 && FromBigEndian(b[..8]) >= 0xFFFF_FFFF_FFFF_FFF8
  {
    if |b| >= 8 {
      FromBigEndianBound(b[..8]);
      Spans();
    }
  }

  /** A wait is for more than there is, and nothing changes the verdict until it is over. */
  lemma NeedMoreIsReal(b: seq<byte>, more: seq<byte>)
    requires Parse(b).NeedMore?
    ensures var k := Parse(b).total;
            && k > |b|
            && (|b + more| < k ==> Parse(b + more).NeedMore? && Parse(b + more).total == k)
            && (|b| >= PREFIX_LEN && |b + more| >= k ==> !Parse(b + more).NeedMore?)
  {
    if |b| >= PREFIX_LEN {
      assert (b + more)[..PREFIX_LEN] == b[..PREFIX_LEN];
    }
  }

  lemma InnerIsStable(b: seq<byte>, more: seq<byte>)
    requires |b| >= HEADER_LEN
    ensures forall i, j :: 0 <= i <= j <= |b| ==> (b + more)[i..j] == b[i..j]
  {
  }

  /** A parsed frame, and a refusal, stand whatever arrives later. */
  lemma ParseIsStable(b: seq<byte>, more: seq<byte>)
    requires Parse(b).Whole? || Parse(b).Invalid?
    ensures Parse(b + more) == Parse(b)
  {
    assert (b + more)[..PREFIX_LEN] == b[..PREFIX_LEN];
    if |b| >= HEADER_LEN {
      InnerIsStable(b, more);
    }
  }

  // ---------- the reading loop ----------

  /** What a stretch of buffered bytes amounts to: the frames at its front, then what stops them. */
  datatype Drained = Drained(frames: seq<Frame>, rest: seq<byte>, panicked: bool)

  /** The inner loop: frame after frame off the front. A refused frame empties the buffer. */
  function Drain(b: seq<byte>): Drained
    decreases |b|
  {
    match Parse(b)
    case Whole(f, used) =>
      var d := Drain(b[used..]);
      d.(frames := [f] + d.frames)
    case NeedMore(_) => Drained([], b, false)
    case Invalid => Drained([], [], false)
    case Panics => Drained([], b, true)
  }

  function Prefixed(frames: seq<Frame>, d: Drained): Drained {
    d.(frames := frames + d.frames)
  }

  /** Where the whole loop stands after reads that returned these pieces. */
  function After(pieces: seq<seq<byte>>): Drained {
    if pieces == [] then Drained([], [], false)
    else
      var before := After(pieces[..|pieces| - 1]);
      if before.panicked then before
      else Prefixed(before.frames, Drain(before.rest + pieces[|pieces| - 1]))
  }

  /** The frames at the front of the buffer end with a refused one. */
  predicate Refuses(b: seq<byte>)
    decreases |b|
  {
    match Parse(b)
    case Whole(_, used) => Refuses(b[used..])
    case NeedMore(_) => false
    case Invalid => true
    case Panics => false
  }

  /** No frame in the stream is refused; it may end inside one. */
  predicate Clean(b: seq<byte>) {
    !Refuses(b) && !Drain(b).panicked
  }

  lemma PrefixedTwice(a: seq<Frame>, b: seq<Frame>, d: Drained)
    ensures Prefixed(a, Prefixed(b, d)) == Prefixed(a + b, d)
    ensures Prefixed([], d) == d
  {
    assert a + (b + d.frames) == (a + b) + d.frames;
    assert [] + d.frames == d.frames;
  }

  lemma DrainFrame(b: seq<byte>, f: Frame, used: nat)
    requires Parse(b) == Whole(f, used)
    ensures Drain(b) == Prefixed([f], Drain(b[used..])) && Refuses(b) == Refuses(b[used..])
  {
  }

  lemma DrainFrameAhead(b: seq<byte>, more: seq<byte>, f: Frame, used: nat)
    requires Parse(b) == Whole(f, used)
    ensures Drain(b + more) == Prefixed([f], Drain(b[used..] + more)) && Refuses(b + more) == Refuses(b[used..] + more)
  {
    ParseIsStable(b, more);
    assert (b + more)[used..] == b[used..] + more;
    DrainFrame(b + more, f, used);
  }

  /** Where nothing was refused, draining early and going on with the rest is the same as draining
      late. */
  lemma {:induction false} DrainInPieces(b: seq<byte>, more: seq<byte>)
    requires Clean(b)
    ensures var d := Drain(b);
            Drain(b + more) == Prefixed(d.frames, Drain(d.rest + more)) && Refuses(b + more) == Refuses(d.rest + more)
    decreases |b|
  {
    match Parse(b)
    case Whole(f, used) =>
      DrainFrame(b, f, used);
      DrainFrameAhead(b, more, f, used);
      DrainInPieces(b[used..], more);
      var d := Drain(b[used..]);
      PrefixedTwice([f], d.frames, Drain(d.rest + more));
    case NeedMore(_) =>
      PrefixedTwice([], [], Drain(b + more));
    case Invalid =>
    case Panics =>
  }

  lemma PanicIsNotClean(b: seq<byte>, more: seq<byte>)
    requires Parse(b).Panics?
    ensures !Parse(b + more).Whole? && !Parse(b + more).NeedMore?
  {
    assert (b + more)[..PREFIX_LEN] == b[..PREFIX_LEN];
    var rest := FromBigEndian(b[..PREFIX_LEN]);
    assert rest >= HEADER_LEN;
    assert rest >= U64_LIMIT - PREFIX_LEN;
    if |b + more| >= HEADER_LEN {
      FromBigEndianBound((b + more)[34..38]);
      Spans();
    }
  }

  /** After a refusal, and after a panic, no more frames come from what follows. */
  lemma {:induction false} DrainIsFinal(b: seq<byte>, more: seq<byte>)
    requires !Clean(b)
    ensures Drain(b + more).frames == Drain(b).frames && !Clean(b + more)
    ensures Refuses(b) ==> Refuses(b + more) && Drain(b).rest == [] && !Drain(b).panicked
    decreases |b|
  {
    match Parse(b)
    case Whole(f, used) =>
      DrainFrame(b, f, used);
      DrainFrameAhead(b, more, f, used);
      DrainIsFinal(b[used..], more);
    case NeedMore(_) =>
    case Invalid => ParseIsStable(b, more);
    case Panics => PanicIsNotClean(b, more);
  }

  lemma CleanPrefix(b: seq<byte>, more: seq<byte>)
    requires Clean(b + more)
    ensures Clean(b)
  {
    if !Clean(b) {
      DrainIsFinal(b, more);
    }
  }

  /** Without a refused frame the loop always ends in the state one read of everything gives. */
  lemma {:induction false} AfterAll(pieces: seq<seq<byte>>)
    requires Clean(Joined(pieces))
    ensures After(pieces) == Drain(Joined(pieces))
  {
    if pieces != [] {
      var front, last := pieces[..|pieces| - 1], pieces[|pieces| - 1];
      CleanPrefix(Joined(front), last);
      AfterAll(front);
      DrainInPieces(Joined(front), last);
    }
  }

  function Images(frames: seq<Frame>): seq<byte>
    requires forall f :: f in frames ==> f.Valid()
  {
    if frames == [] then [] else Image(frames[0]) + Images(frames[1..])
  }

  /** A stream of whole frames is clean, and draining it gives the frames. */
  lemma {:induction false} DrainImages(frames: seq<Frame>)
    requires forall f :: f in frames ==> f.Valid() && f.version == VERSION && |f.cipher| < U32_LIMIT
    ensures Clean(Images(frames)) && Drain(Images(frames)) == Drained(frames, [], false)
  {
    if frames != [] {
      var f := frames[0];
      assert f in frames;
      ParseImage(f, Images(frames[1..]));
      var b := Image(f) + Images(frames[1..]);
      assert b[|Image(f)|..] == Images(frames[1..]);
      DrainImages(frames[1..]);
    }
  }

  /** Sender to receiver: the frames sent are the frames handled, whatever the reads. */
  lemma SentIsDelivered(frames: seq<Frame>, pieces: seq<seq<byte>>)
    requires forall f :: f in frames ==> f.Valid() && f.version == VERSION && |f.cipher| < U32_LIMIT
    requires Joined(pieces) == Images(frames)
    ensures After(pieces) == Drained(frames, [], false)
  {
    DrainImages(frames);
    AfterAll(pieces);
  }

  lemma PanicInPieces(pieces: seq<seq<byte>>, later: seq<byte>)
    requires After(pieces).panicked
    ensures !Clean(Joined(pieces) + later)
  {
    var b := Joined(pieces);
    if Clean(b) {
      AfterAll(pieces);
    }
    DrainIsFinal(b, later);
  }

  /** The inner loop: every whole frame at the front of the buffer is handed over. */
  method DrainBuffer(held: seq<byte>) returns (buf: seq<byte>, handled: seq<Frame>, panicked: bool)
    ensures Drain(held) == Drained(handled, buf, panicked)
  {
    buf, handled, panicked := held, [], false;
    PrefixedTwice([], [], Drain(held));
    while true
      invariant Drain(held) == Prefixed(handled, Drain(buf))
      decreases |buf|
    {
      match Parse(buf) {
        case Whole(frame, used) =>
          DrainFrame(buf, frame, used);
          PrefixedTwice(handled, [frame], Drain(buf[used..]));
          buf, handled := buf[used..], handled + [frame];
        case NeedMore(_) =>
          break;
        case Invalid =>
          buf := [];
          break;
        case Panics =>
          panicked := true;
          break;
      }
    }
  }

  /** The loop on a connection: `handled` is what it passed to `on_frame`, in order, and `pieces` are
      the pieces the connection happened to deliver. */
  method ReadLoop(src: Source) returns (handled: seq<Frame>, ok: bool, ghost pieces: seq<seq<byte>>)
    modifies src
    ensures handled == After(pieces).frames
    ensures Joined(pieces) <= old(src.rest) && Readable(pieces, READ_SIZE)
    ensures Clean(old(src.rest)) ==> handled == Drain(old(src.rest)).frames && ok == !src.broken
  {
    var buf: seq<byte> := [];
    handled, pieces := [], [];
    ghost var all := src.rest;
    while true
      invariant Joined(pieces) + src.rest == all && Readable(pieces, READ_SIZE)
      invariant After(pieces) == Drained(handled, buf, false)
      decreases |src.rest|
    {
      var got, failed := src.Read(READ_SIZE);
      if got == [] {
        assert Joined(pieces) + [] == Joined(pieces);
        if Clean(all) {
          AfterAll(pieces);
        }
        ok := !failed;
        return;
      }
      ghost var before := pieces;
      assert Joined(before) + (got + src.rest) == (Joined(before) + got) + src.rest;
      pieces := pieces + [got];
      assert pieces[..|pieces| - 1] == before;
      var frames, panicked;
      buf, frames, panicked := DrainBuffer(buf + got);
      handled := handled + frames;
      if panicked {
        PanicInPieces(pieces, src.rest);
        ok := false;
        return;
      }
    }
  }
}
