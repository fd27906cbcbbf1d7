/** The `PAY_LOAD_1` frame, and the bounded loop that waits for the first one. */
module Payload1 {
  import opened Bytes
  import opened Streams

  /** `PAY_LOAD_1` */
  const MAGIC: seq<byte> := [80, 65, 89, 95, 76, 79, 65, 68, 95, 49]
  const HEADER_LEN: nat := 14

  datatype Decoded = Whole(body: seq<byte>, used: nat) | More | BadMagic

  function Image(body: seq<byte>): (b: seq<byte>)
    ensures |b| == HEADER_LEN + |body|
  {
    MAGIC + BigEndian(4, |body|) + body
  }

  function DecodeStrict(b: seq<byte>): (d: Decoded)
    ensures d.Whole? ==> d.used == HEADER_LEN + |d.body| <= |b|
  {
    if |b| < HEADER_LEN then More
    else if b[..10] != MAGIC then BadMagic
    else
      var total := HEADER_LEN + FromBigEndian(b[10..14]);
      if |b| < total then More else Whole(b[HEADER_LEN..total], total)
  }

  lemma FieldsOf(magic: seq<byte>, len: seq<byte>, body: seq<byte>, tail: seq<byte>)
    requires |magic| == 10 && |len| == 4
    ensures var b := magic + len + body + tail;
            b[..10] == magic && b[10..14] == len && b[HEADER_LEN..] == body + tail
  {
  }

  lemma ImageFields(body: seq<byte>, tail: seq<byte>)
    ensures var b := Image(body) + tail;
            b[..10] == MAGIC && b[10..14] == BigEndian(4, |body|) && b[HEADER_LEN..] == body + tail
  {
    FieldsOf(MAGIC, BigEndian(4, |body|), body, tail);
  }

  /** A decoded frame is the body's first bytes, as many as the 32-bit length can say: all of them
      exactly when there are fewer than 2^32. */
  lemma DecodeImage(body: seq<byte>, tail: seq<byte>)
    ensures var kept := |body| % 0x1_0000_0000;
            DecodeStrict(Image(body) + tail) == Whole(body[..kept], HEADER_LEN + kept)
    ensures |body| < U32_LIMIT <==> DecodeStrict(Image(body) + tail) == Whole(body, |Image(body)|)
  {
    var kept := |body| % 0x1_0000_0000;
    ImageFields(body, tail);
    Spans();
    BigEndianRoundTrip(4, |body|);
    var b := Image(body) + tail;
    assert b[HEADER_LEN..HEADER_LEN + kept] == b[HEADER_LEN..][..kept] == body[..kept];
    assert kept == |body| ==> body[..kept] == body;
  }

  /** What is encoded decodes to its body, and to nothing but it, exactly when 32 bits can say its
      length. */
  method Encode(body: seq<byte>) returns (out: seq<byte>)
    ensures out == Image(body)
    ensures DecodeStrict(out) == Whole(body, |out|) <==> |body| < U32_LIMIT
  {
    out := [];
    out := out + MAGIC;
    out := out + BigEndian(4, |body|);
    out := out + body;
    DecodeImage(body, []);
    assert out + [] == out;
  }

  /** Encoding what was decoded gives the bytes taken. */
  lemma ImageOfDecoded(b: seq<byte>)
    requires DecodeStrict(b).Whole?
    ensures |DecodeStrict(b).body| < U32_LIMIT && Image(DecodeStrict(b).body) == b[..DecodeStrict(b).used]
  {
    var d := DecodeStrict(b);
    FromBigEndianBound(b[10..14]);
    Spans();
    BigEndianOfRead(b[10..14]);
    assert b[..d.used] == b[..10] + b[10..14] + b[14..d.used];
  }

  lemma FrontOfImage(b: seq<byte>) returns (body: seq<byte>)
    requires |b| >= HEADER_LEN && b[..10] == MAGIC
    ensures |body| < U32_LIMIT && (b <= Image(body) || Image(body) <= b)
  {
    if DecodeStrict(b).Whole? {
      body := DecodeStrict(b).body;
      ImageOfDecoded(b);
    } else {
      var n := FromBigEndian(b[10..14]);
      FromBigEndianBound(b[10..14]);
      Spans();
      BigEndianOfRead(b[10..14]);
      body := b[14..] + Zeros(n - (|b| - 14));
      assert b == b[..10] + b[10..14] + b[14..];
      assert b <= Image(body);
    }
  }

  lemma SameFront(b: seq<byte>, c: seq<byte>)
    requires |b| >= 10 && |c| >= 10
    ensures b <= c || c <= b ==> b[..10] == c[..10]
  {
  }

  /** The magic is refused exactly where a whole header is there and no frame starts, or could start, with
      these bytes. */
  lemma WrongMagicExactly(b: seq<byte>)
    ensures DecodeStrict(b) == BadMagic
       <==> |b| >= 14 && forall body :: |body| < U32_LIMIT ==> !(b <= Image(body)) && !(Image(body) <= b)
  {
    if |b| >= HEADER_LEN {
      if b[..10] == MAGIC {
        var body := FrontOfImage(b);
      } else {
        forall body | |body| < U32_LIMIT
          ensures !(b <= Image(body)) && !(Image(body) <= b)
        {
          ImageFields(body, []);
          assert Image(body) + [] == Image(body);
          SameFront(b, Image(body));
        }
      }
    }
  }

  // ---------- the first frame of a connection ----------

  const MAX_FRAME_BUF: nat := 0x10_0000
  const READ_SIZE: nat := 8192

  /** Where the loop stands: holding bytes that are no whole frame yet, or finished. */
  datatype Waiting = Holding(held: seq<byte>) | Accepted(body: seq<byte>) | WrongMagic | TooLong

  /** The checks between two reads. */
  function Check(held: seq<byte>): Waiting {
    match DecodeStrict(held)
    case Whole(body, _) => Accepted(body)
    case BadMagic => WrongMagic
    case More => if |held| > MAX_FRAME_BUF then TooLong else Holding(held)
  }

  function After(pieces: seq<seq<byte>>): Waiting {
    if pieces == [] then Check([])
    else
      match After(pieces[..|pieces| - 1])
      case Holding(held) => Check(held + pieces[|pieces| - 1])
      case done => done
  }

  /** A frame stays undecided until it is all there. */
  lemma CutImageIsMore(body: seq<byte>, k: nat)
    requires |body| < U32_LIMIT && k < |Image(body)|
    ensures DecodeStrict(Image(body)[..k]) == More
  {
    var b := Image(body);
    ImageFields(body, []);
    assert b + [] == b;
    if k >= HEADER_LEN {
      assert b[..k][..10] == b[..10] && b[..k][10..14] == b[10..14];
      Spans();
      BigEndianFits(4, |body|);
    }
  }

  /** While the frame is incomplete and short enough, the loop holds exactly what came; then it
      accepts. */
  lemma {:induction false} ShortFrameRun(body: seq<byte>, tail: seq<byte>, pieces: seq<seq<byte>>)
    requires |Image(body)| <= MAX_FRAME_BUF + 1 && Joined(pieces) <= Image(body) + tail
    ensures After(pieces) == if |Joined(pieces)| < |Image(body)| then Holding(Joined(pieces)) else Accepted(body)
  {
    var b := Image(body) + tail;
    if pieces == [] {
      CutImageIsMore(body, 0);
      assert Image(body)[..0] == [];
    } else {
      var front := Joined(pieces[..|pieces| - 1]);
      var held := Joined(pieces);
      assert b[..|front|] == held[..|front|] == front;
      ShortFrameRun(body, tail, pieces[..|pieces| - 1]);
      if |held| < |Image(body)| {
        assert held == b[..|held|] == Image(body)[..|held|];
        CutImageIsMore(body, |held|);
      } else {
        assert held == Image(body) + held[|Image(body)|..];
        DecodeImage(body, held[|Image(body)|..]);
      }
    }
  }

  /** Byte by byte, a frame longer than the bound is given up one byte past it. */
  lemma {:induction false} LongFrameBytewise(body: seq<byte>, k: nat)
    requires |body| < U32_LIMIT && MAX_FRAME_BUF + 1 < |Image(body)| && k <= |Image(body)|
    ensures After(Singles(Image(body)[..k])) == if k <= MAX_FRAME_BUF then Holding(Image(body)[..k]) else TooLong
  {
    var b := Image(body);
    if k == 0 {
      CutImageIsMore(body, 0);
    } else {
      LongFrameBytewise(body, k - 1);
      assert Singles(b[..k])[..k - 1] == Singles(b[..k - 1]);
      assert b[..k - 1] + [b[k - 1]] == b[..k];
      if k <= MAX_FRAME_BUF + 1 {
        CutImageIsMore(body, k);
      }
    }
  }

  /** Past the bound plus one read no segmentation gets a frame through. */
  lemma {:induction false} HeldIsBounded(pieces: seq<seq<byte>>)
    requires Readable(pieces, READ_SIZE)
    ensures var w := After(pieces);
            && (w.Holding? ==> |w.held| <= MAX_FRAME_BUF)
            && (w.Accepted? ==> HEADER_LEN + |w.body| <= MAX_FRAME_BUF + READ_SIZE)
  {
    if pieces != [] {
      HeldIsBounded(pieces[..|pieces| - 1]);
    }
  }

  ghost predicate AcceptsHowever(body: seq<byte>) {
    forall pieces :: Readable(pieces, READ_SIZE) && Joined(pieces) == Image(body) ==> After(pieces) == Accepted(body)
  }

  /** A frame gets through every segmentation exactly when its total length is at most one past the
      bound. */
  lemma AcceptedHoweverCut(body: seq<byte>)
    requires |body| < U32_LIMIT
    ensures AcceptsHowever(body) <==> |Image(body)| <= MAX_FRAME_BUF + 1
  {
    var b := Image(body);
    assert b + [] == b && b[..|b|] == b;
    if |b| <= MAX_FRAME_BUF + 1 {
      forall pieces | Readable(pieces, READ_SIZE) && Joined(pieces) == b
        ensures After(pieces) == Accepted(body)
      {
        ShortFrameRun(body, [], pieces);
      }
    } else {
      JoinedSingles(b);
      LongFrameBytewise(body, |b|);
      assert After(Singles(b)) != Accepted(body);
    }
  }

  lemma SinglesAreReads(b: seq<byte>)
    ensures Readable(Singles(b), READ_SIZE)
  {
  }

  lemma AfterSnoc(pieces: seq<seq<byte>>, held: seq<byte>, last: seq<byte>)
    requires After(pieces) == Holding(held)
    ensures After(pieces + [last]) == Check(held + last)
  {
    assert (pieces + [last])[..|pieces|] == pieces;
  }

  lemma CheckImage(body: seq<byte>)
    requires |body| < U32_LIMIT
    ensures Check(Image(body)) == Accepted(body)
  {
    DecodeImage(body, []);
    assert Image(body) + [] == Image(body);
  }

  lemma OneMoreRead(body: seq<byte>, k: nat) returns (pieces: seq<seq<byte>>)
    requires |body| < U32_LIMIT && k < |Image(body)| && |Image(body)| - k <= READ_SIZE
    requires After(Singles(Image(body)[..k])) == Holding(Image(body)[..k])
    ensures Readable(pieces, READ_SIZE) && Joined(pieces) == Image(body) && After(pieces) == Accepted(body)
  {
    var front, last := Image(body)[..k], Image(body)[k..];
    assert front + last == Image(body);
    SinglesAreReads(front);
    JoinedSingles(front);
    pieces := Singles(front) + [last];
    JoinedSnoc(Singles(front), last);
    AfterSnoc(Singles(front), front, last);
    CheckImage(body);
  }

  ghost predicate AcceptsSomehow(body: seq<byte>) {
    exists pieces :: Readable(pieces, READ_SIZE) && Joined(pieces) == Image(body) && After(pieces) == Accepted(body)
  }

  /** A frame gets through some segmentation exactly when its total length is at most one read past the
      bound: the bound byte by byte, then the rest at once. */
  lemma AcceptedSomehowCut(body: seq<byte>)
    requires |body| < U32_LIMIT
    ensures AcceptsSomehow(body) <==> |Image(body)| <= MAX_FRAME_BUF + READ_SIZE
  {
    var b := Image(body);
    if |b| <= MAX_FRAME_BUF + 1 {
      AcceptedHoweverCut(body);
      JoinedSingles(b);
      SinglesAreReads(b);
      assert After(Singles(b)) == Accepted(body);
    } else if |b| <= MAX_FRAME_BUF + READ_SIZE {
      LongFrameBytewise(body, MAX_FRAME_BUF);
      var pieces := OneMoreRead(body, MAX_FRAME_BUF);
    } else {
      forall pieces | Readable(pieces, READ_SIZE)
        ensures After(pieces) != Accepted(body)
      {
        HeldIsBounded(pieces);
      }
    }
  }

  /** A run that ends early, or has read everything, has the frame. */
  lemma ShortFrameEnds(body: seq<byte>, tail: seq<byte>, pieces: seq<seq<byte>>)
    requires |Image(body)| <= MAX_FRAME_BUF + 1 && Joined(pieces) <= Image(body) + tail
    requires After(pieces).Holding? ==> Joined(pieces) == Image(body) + tail
    ensures After(pieces) == Accepted(body)
  {
    ShortFrameRun(body, tail, pieces);
  }

  /** The loop. `held` is everything it has read, and `pieces` how that came in. */
  method ReadFirstFrame(sock: Source) returns (r: Waiting, ghost held: seq<byte>, ghost pieces: seq<seq<byte>>)
    modifies sock
    ensures held == Joined(pieces) && Readable(pieces, READ_SIZE) && old(sock.rest) == held + sock.rest
    ensures r == After(pieces) && (r.Holding? ==> sock.rest == [])
    ensures |held| <= MAX_FRAME_BUF + READ_SIZE
    ensures forall body, tail | old(sock.rest) == Image(body) + tail && |Image(body)| <= MAX_FRAME_BUF + 1 ::
              r == Accepted(body)
  {
    var buf: seq<byte> := [];
    pieces := [];
    ghost var all := sock.rest;
    while true
      invariant buf == Joined(pieces) && Readable(pieces, READ_SIZE) && all == buf + sock.rest
      invariant After(pieces) == Check(buf)
      invariant |buf| <= MAX_FRAME_BUF + READ_SIZE
      decreases |sock.rest|
    {
      held := buf;
      r := Check(buf);
      if !r.Holding? {
        break;
      }
      var got, failed := sock.Read(READ_SIZE);
      if got == [] {
        break;
      }
      ghost var before := pieces;
      pieces := pieces + [got];
      assert pieces[..|pieces| - 1] == before;
      assert all == (buf + got) + sock.rest;
      buf := buf + got;
    }
    forall body, tail | all == Image(body) + tail && |Image(body)| <= MAX_FRAME_BUF + 1
      ensures r == Accepted(body)
    {
      ShortFrameEnds(body, tail, pieces);
    }
  }
}
