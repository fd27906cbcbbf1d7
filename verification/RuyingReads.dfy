/** When the cut of a stream into reads matters to the clipboard loop: behind a refused frame, which
    empties the buffer together with whatever the same read brought. */
module RuyingReads {
  import opened Bytes
  import opened Streams
  import opened Ruying

  // ---------- where the buffer can restart ----------

  /** From a buffer that starts at `s`, a read that ends at `q` can bring the refusal: the read before
      it ended at `a`, with nothing refused and no panic so far. */
  ghost predicate StepTo(b: seq<byte>, s: nat, a: nat, q: nat) {
    s <= a < q <= |b| && q - a <= READ_SIZE && Clean(b[s..a]) && Refuses(b[s..q])
  }

  /** A place in the stream where the emptied buffer can start again. */
  ghost predicate Restart(b: seq<byte>, q: nat)
    decreases q
  {
    exists s, a :: StepTo(b, s, a, q) && (s == 0 || Restart(b, s))
  }

  /** A whole frame stands at a place where the emptied buffer can start again. */
  ghost predicate LateFrame(b: seq<byte>) {
    exists q :: 0 <= q <= |b| && Restart(b, q) && Parse(b[q..]).Whole?
  }

  /** However the reads fall, exactly the frames in front of the first refused one are handled. */
  ghost predicate OnlyFrontHoweverCut(b: seq<byte>) {
    forall pieces :: Readable(pieces, READ_SIZE) && Joined(pieces) == b ==> After(pieces).frames == Drain(b).frames
  }

  lemma Stretch(b: seq<byte>, q: nat, mid: nat, end: nat)
    requires q <= mid <= end <= |b|
    ensures b[q..mid] + b[mid..end] == b[q..end] && b[q..] == b[q..end] + b[end..] && b[end..end] == []
    ensures b[0..end] == b[..end]
  {
  }

  // ---------- no late frame: nothing comes through ----------

  /** The buffer was emptied, and holds what has come since. */
  ghost predicate Restarted(b: seq<byte>, held: seq<byte>, end: nat)
    requires end <= |b|
  {
    exists q :: 0 <= q <= end && Restart(b, q) && held == b[q..end] && Clean(held)
  }

  /** Where the loop can be after the reads so far: nothing refused yet; or refused, with the buffer
      restarted; or stopped. */
  ghost predicate Reached(b: seq<byte>, a: Drained, end: nat)
    requires end <= |b|
  {
    if Clean(b[..end]) then a == Drain(b[..end])
    else a.frames == Drain(b).frames && (a.panicked || Restarted(b, a.rest, end))
  }

  lemma JustStopped(b: seq<byte>, mid: nat, end: nat)
    requires mid < end <= |b| && end - mid <= READ_SIZE && Clean(b[..mid]) && !Clean(b[..end])
    ensures var d := Drain(b[..end]);
            d.frames == Drain(b).frames && (d.panicked || Restarted(b, d.rest, end))
  {
    Stretch(b, 0, end, |b|);
    Stretch(b, 0, mid, end);
    DrainIsFinal(b[..end], b[end..]);
    if Refuses(b[..end]) {
      assert b[0..mid] == b[..mid] && StepTo(b, 0, mid, end);
      assert Restart(b, end);
    }
  }

  /** One more read while nothing has been refused. */
  lemma FirstRefusal(b: seq<byte>, mid: nat, end: nat)
    requires mid < end <= |b| && end - mid <= READ_SIZE && Clean(b[..mid])
    ensures var d := Drain(b[..mid]);
            Reached(b, Prefixed(d.frames, Drain(d.rest + b[mid..end])), end)
  {
    Stretch(b, 0, mid, end);
    DrainInPieces(b[..mid], b[mid..end]);
    if !Clean(b[..end]) {
      JustStopped(b, mid, end);
    }
  }

  /** Without a late frame a restarted buffer yields none: it waits, is refused, or panics. */
  lemma NothingWhole(b: seq<byte>, q: nat, end: nat)
    requires q <= end <= |b| && Restart(b, q) && !LateFrame(b)
    ensures var p, d := Parse(b[q..end]), Drain(b[q..end]);
            && d.frames == [] && (d.panicked <==> p.Panics?) && (Refuses(b[q..end]) <==> p.Invalid?)
            && (!d.panicked ==> d.rest == if p.Invalid? then [] else b[q..end])
  {
    Stretch(b, q, end, end);
    if Parse(b[q..end]).Whole? {
      ParseIsStable(b[q..end], b[end..]);
    }
  }

  /** One more read after a refusal: with no late frame, nothing comes of it. */
  lemma RestartedRead(b: seq<byte>, a: Drained, mid: nat, end: nat)
    requires mid < end <= |b| && end - mid <= READ_SIZE && !Clean(b[..end]) && !LateFrame(b)
    requires a.frames == Drain(b).frames && Restarted(b, a.rest, mid)
    ensures Reached(b, Prefixed(a.frames, Drain(a.rest + b[mid..end])), end)
  {
    var q :| 0 <= q <= mid && Restart(b, q) && a.rest == b[q..mid] && Clean(a.rest);
    Stretch(b, q, mid, end);
    NothingWhole(b, q, end);
    PrefixedTwice(a.frames, [], Drain(b[q..end]));
    if Parse(b[q..end]).Invalid? {
      assert StepTo(b, q, mid, end);
      assert Restart(b, end);
    }
  }

  lemma {:induction false} LoopReaches(b: seq<byte>, pieces: seq<seq<byte>>)
    requires Readable(pieces, READ_SIZE) && Joined(pieces) <= b && !LateFrame(b)
    ensures Reached(b, After(pieces), |Joined(pieces)|)
  {
    if pieces == [] {
      assert b[..0] == [];
    } else {
      var front, last := pieces[..|pieces| - 1], pieces[|pieces| - 1];
      var mid, end := |Joined(front)|, |Joined(pieces)|;
      assert b[..end] == Joined(pieces) && b[..mid] == Joined(front);
      assert last == Joined(pieces)[mid..] == b[mid..end];
      Stretch(b, 0, mid, end);
      LoopReaches(b, front);
      if Clean(b[..mid]) {
        FirstRefusal(b, mid, end);
      } else {
        DrainIsFinal(b[..mid], last);
        if !After(front).panicked {
          RestartedRead(b, After(front), mid, end);
        }
      }
    }
  }

  lemma NoLateFrameShows(b: seq<byte>)
    requires !LateFrame(b)
    ensures OnlyFrontHoweverCut(b)
  {
    forall pieces | Readable(pieces, READ_SIZE) && Joined(pieces) == b
      ensures After(pieces).frames == Drain(b).frames
    {
      assert b[..|b|] == b;
      LoopReaches(b, pieces);
    }
  }

  // ---------- a late frame: reads that bring it through ----------

  lemma AfterSnoc(pieces: seq<seq<byte>>, last: seq<byte>)
    ensures After(pieces + [last])
         == if After(pieces).panicked then After(pieces)
            else Prefixed(After(pieces).frames, Drain(After(pieces).rest + last))
  {
    assert (pieces + [last])[..|pieces|] == pieces;
  }

  /** One more read of a clean stretch, when the reads so far were those of its front. */
  lemma FeedOne(fed: seq<seq<byte>>, frames: seq<Frame>, front: seq<byte>, last: seq<byte>)
    requires Clean(front) && After(fed) == Prefixed(frames, Drain(front))
    ensures After(fed + [last]) == Prefixed(frames, Drain(front + last))
  {
    var d := Drain(front);
    AfterSnoc(fed, last);
    DrainInPieces(front, last);
    PrefixedTwice(frames, d.frames, Drain(d.rest + last));
  }

  lemma SinglesSnoc(pieces: seq<seq<byte>>, c: seq<byte>)
    requires c != []
    ensures pieces + Singles(c) == (pieces + Singles(c[..|c| - 1])) + [c[|c| - 1..]]
  {
    var last := c[|c| - 1..];
    assert last == [c[|c| - 1]];
    assert Singles(c) == Singles(c[..|c| - 1]) + [last];
    Regroup(pieces, Singles(c[..|c| - 1]), [last]);
  }

  /** Byte by byte a clean stretch is drained as a whole, from an empty buffer. */
  lemma {:induction false} FeedSingles(pieces: seq<seq<byte>>, frames: seq<Frame>, c: seq<byte>)
    requires After(pieces) == Drained(frames, [], false) && Clean(c)
    ensures After(pieces + Singles(c)) == Prefixed(frames, Drain(c))
    ensures Joined(pieces + Singles(c)) == Joined(pieces) + c
  {
    if c == [] {
      assert pieces + Singles(c) == pieces;
      PrefixedTwice(frames, [], Drain([]));
    } else {
      var front, last := c[..|c| - 1], c[|c| - 1..];
      assert c == front + last;
      CleanPrefix(front, last);
      FeedSingles(pieces, frames, front);
      SinglesSnoc(pieces, c);
      var fed := pieces + Singles(front);
      JoinedSnoc(fed, last);
      Regroup(Joined(pieces), front, last);
      FeedOne(fed, frames, front, last);
    }
  }

  /** Byte by byte up to the refusal, then one read that brings it. */
  lemma FeedRead(pieces: seq<seq<byte>>, frames: seq<Frame>, c: seq<byte>, last: seq<byte>)
    returns (all: seq<seq<byte>>)
    requires Readable(pieces, READ_SIZE) && After(pieces) == Drained(frames, [], false)
    requires Clean(c) && Refuses(c + last) && 0 < |last| <= READ_SIZE
    ensures Readable(all, READ_SIZE) && Joined(all) == Joined(pieces) + (c + last)
    ensures After(all) == Drained(frames + Drain(c + last).frames, [], false)
  {
    FeedSingles(pieces, frames, c);
    var mid := pieces + Singles(c);
    all := mid + [last];
    AfterSnoc(mid, last);
    JoinedSnoc(mid, last);
    Regroup(Joined(pieces), c, last);
    DrainInPieces(c, last);
    DrainIsFinal(c + last, []);
    PrefixedTwice(frames, Drain(c).frames, Drain(Drain(c).rest + last));
  }

  /** Reads that refuse at `q`, on the stream itself. */
  lemma FeedRefusal(pieces: seq<seq<byte>>, frames: seq<Frame>, b: seq<byte>, s: nat, a: nat, q: nat)
    returns (all: seq<seq<byte>>)
    requires StepTo(b, s, a, q)
    requires Readable(pieces, READ_SIZE) && Joined(pieces) == b[..s] && After(pieces) == Drained(frames, [], false)
    ensures Readable(all, READ_SIZE) && Joined(all) == b[..q]
    ensures After(all) == Drained(frames + Drain(b[s..q]).frames, [], false)
  {
    Stretch(b, s, a, q);
    assert b[..s] + b[s..q] == b[..q];
    all := FeedRead(pieces, frames, b[s..a], b[a..q]);
  }

  /** Every restart is one some reads bring about, with the frames in front of the refusal handled. */
  lemma {:induction false} RestartIsReached(b: seq<byte>, q: nat) returns (pieces: seq<seq<byte>>)
    requires q <= |b| && Restart(b, q)
    ensures Readable(pieces, READ_SIZE) && Joined(pieces) == b[..q]
    ensures After(pieces).rest == [] && !After(pieces).panicked && |After(pieces).frames| >= |Drain(b).frames|
    decreases q
  {
    var s, a :| StepTo(b, s, a, q) && (s == 0 || Restart(b, s));
    if s == 0 {
      assert b[..0] == [];
      pieces := FeedRefusal([], [], b, 0, a, q);
      Stretch(b, 0, q, |b|);
      DrainIsFinal(b[..q], b[q..]);
      assert b == b[..q] + b[q..];
    } else {
      pieces := RestartIsReached(b, s);
      var frames := After(pieces).frames;
      pieces := FeedRefusal(pieces, frames, b, s, a, q);
    }
  }

  /** What follows never takes a handled frame back. */
  lemma {:induction false} FramesGrow(pieces: seq<seq<byte>>, more: seq<byte>)
    ensures |After(pieces + Singles(more)).frames| >= |After(pieces).frames|
    ensures Joined(pieces + Singles(more)) == Joined(pieces) + more
  {
    if more == [] {
      assert pieces + Singles(more) == pieces;
    } else {
      var front, last := more[..|more| - 1], more[|more| - 1..];
      FramesGrow(pieces, front);
      SinglesSnoc(pieces, more);
      AfterSnoc(pieces + Singles(front), last);
      JoinedSnoc(pieces + Singles(front), last);
      assert front + last == more;
    }
  }

  /** The bytes a frame was parsed from are that frame alone. */
  lemma JustTheFrame(late: seq<byte>)
    requires Parse(late).Whole?
    ensures var p := Parse(late);
            Clean(late[..p.used]) && Drain(late[..p.used]) == Drained([p.frame], [], false)
  {
    var p := Parse(late);
    ImageOfParsed(late);
    assert Images([p.frame]) == Image(p.frame) + [] == Image(p.frame);
    DrainImages([p.frame]);
  }

  lemma ThreeParts(b: seq<byte>, q: nat, used: nat)
    requires q <= q + used <= |b|
    ensures (b[..q] + b[q..][..used]) + b[q..][used..] == b
  {
  }

  /** A frame at the front of what comes next is handled. */
  lemma FeedFrame(pieces: seq<seq<byte>>, frames: seq<Frame>, late: seq<byte>) returns (all: seq<seq<byte>>)
    requires After(pieces) == Drained(frames, [], false) && Parse(late).Whole? && Readable(pieces, READ_SIZE)
    ensures Readable(all, READ_SIZE) && Joined(all) == Joined(pieces) + late[..Parse(late).used]
    ensures After(all).frames == frames + [Parse(late).frame]
  {
    var own := late[..Parse(late).used];
    JustTheFrame(late);
    FeedSingles(pieces, frames, own);
    all := pieces + Singles(own);
  }

  lemma LateFrameShows(b: seq<byte>, q: nat) returns (pieces: seq<seq<byte>>)
    requires q <= |b| && Restart(b, q) && Parse(b[q..]).Whole?
    ensures Readable(pieces, READ_SIZE) && Joined(pieces) == b && |After(pieces).frames| > |Drain(b).frames|
  {
    var used := Parse(b[q..]).used;
    var early := RestartIsReached(b, q);
    var mid := FeedFrame(early, After(early).frames, b[q..]);
    FramesGrow(mid, b[q..][used..]);
    ThreeParts(b, q, used);
    pieces := mid + Singles(b[q..][used..]);
  }

  /** However the reads fall, exactly the frames in front of the first refused one are handled, if and
      only if no whole frame stands where the emptied buffer can start again. */
  lemma OnlyFrontExactlyWithoutLateFrame(b: seq<byte>)
    ensures OnlyFrontHoweverCut(b) <==> !LateFrame(b)
  {
    if LateFrame(b) {
      var q :| 0 <= q <= |b| && Restart(b, q) && Parse(b[q..]).Whole?;
      var pieces := LateFrameShows(b, q);
      assert After(pieces).frames != Drain(b).frames;
    } else {
      NoLateFrameShows(b);
    }
  }

  // ---------- the shortest such stream ----------

  lemma AfterOne(a: seq<byte>)
    ensures Joined([a]) == a && After([a]) == Drain(a)
  {
    assert [a][..0] == [] && [] + a == a && [] + Drain(a).frames == Drain(a).frames;
  }

  lemma AfterTwo(a: seq<byte>, b: seq<byte>)
    ensures Joined([a, b]) == a + b
    ensures !Drain(a).panicked ==> After([a, b]) == Prefixed(Drain(a).frames, Drain(Drain(a).rest + b))
  {
    AfterOne(a);
    assert [a, b][..1] == [a];
  }

  /** After a refused frame the cut does matter: the same bytes, in one read or in two, give no frame or
      the one behind. */
  lemma RefusalDependsOnReads(f: Frame, junk: seq<byte>)
    requires f.Valid() && f.version == VERSION && |f.cipher| < U32_LIMIT
    requires |junk| >= PREFIX_LEN && FromBigEndian(junk[..PREFIX_LEN]) < INNER_LEN
    requires |junk + Image(f)| <= READ_SIZE
    ensures var one, two := [junk + Image(f)], [junk, Image(f)];
            && Readable(one, READ_SIZE) && Readable(two, READ_SIZE) && Joined(one) == Joined(two)
            && After(one).frames == [] && After(two).frames == [f]
  {
    var image := Image(f);
    AfterOne(junk);
    AfterOne(junk + image);
    AfterTwo(junk, image);
    assert (junk + image)[..PREFIX_LEN] == junk[..PREFIX_LEN];
    assert Drain(junk) == Drained([], [], false);
    assert Drain(junk + image) == Drained([], [], false);
    assert [f][1..] == [];
    DrainImages([f]);
    assert Images([f]) == image;
    assert [] + image == image && [] + [f] == [f];
  }
}
