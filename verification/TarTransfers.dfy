/** Archives sent in the chunked coding: cut anywhere, read by the line reader, and extracted. */
module TarTransfers {
  import opened Bytes
  import opened Radix
  import opened TarHeader
  import opened FileTree
  import opened TarParse
  import opened TarLayout
  import opened TarExtract
  import opened TarArchive
  import opened TarTheorems
  import opened TarCuts
  import opened ChunkedWire
  import opened ChunkedSenders

  lemma NotWholeFails(tree: Tree, out: Path, b: seq<byte>, broken: bool)
    requires !ParseTar(None, b, broken).intact
    ensures Extract(tree, out, b, broken).result == Failed
  {
  }

  lemma SameParse(tree: Tree, out: Path, b: seq<byte>, broken: bool, c: seq<byte>, broken': bool)
    requires ParseTar(None, b, broken) == ParseTar(None, c, broken')
    ensures Extract(tree, out, b, broken) == Extract(tree, out, c, broken')
  {
  }

  /** The first `m` bytes of the archive read as a shorter one, which extracts successfully. */
  ghost predicate PassesShort(entries: seq<Entry>, m: nat)
    requires forall e :: e in entries ==> WellFormed(e)
  {
    && m < |ArchiveBytes(entries)| - BLOCK && CleanCut(entries, m, false)
    && ItemsBy(entries, m) != [] && ItemsBy(entries, m) != AllItems(entries) && Consistent(ItemsBy(entries, m))
  }

  /** The chunks carry this archive, and whatever follows its end marker. */
  ghost predicate Carry(chunks: seq<Chunk>, entries: seq<Entry>, tail: seq<byte>)
  {
    && AllSound(chunks) && (forall e :: e in entries ==> WellFormed(e))
    && PayloadOf(chunks) == ArchiveBytes(entries) + tail
  }

  /** The extractor on the line reader: it gets what the reader delivers, and an error behind that unless
      the body was complete. */
  ghost function Received(tree: Tree, out: Path, o: ChunkedWire.Outcome): TarExtract.Outcome {
    Extract(tree, out, o.out, !o.Done?)
  }

  /** What the extractor parses of a cut body. */
  lemma ReceivedParse(chunks: seq<Chunk>, last: seq<byte>, trailer: seq<byte>, entries: seq<Entry>,
                      tail: seq<byte>, k: nat, broken: bool)
    returns (o: ChunkedWire.Outcome, p: Archive)
    requires Carry(chunks, entries, tail) && ZeroLine(last) && k <= |Body(chunks, last, trailer)|
    ensures o == DecodeLines(Body(chunks, last, trailer)[..k], broken) && FrontOf(o, chunks, broken)
    ensures p == ParseTar(None, o.out, !o.Done?)
    ensures if |o.out| >= |ArchiveBytes(entries)| - BLOCK then p == Archive(AllItems(entries), true)
            else if o.Done? then
              && !broken && ZeroFrontAt(chunks, |o.out|)
              && (p.intact <==> CleanCut(entries, |o.out|, false))
              && (p.intact ==> p.items == ItemsBy(entries, |o.out|))
            else !p.intact
  {
    o := CutDecodes(chunks, last, trailer, k, broken);
    if o.Done? {
      p := CleanFront(entries, ArchiveBytes(entries), tail, o.out);
    } else {
      p := CutFront(entries, ArchiveBytes(entries), tail, o.out);
    }
  }

  lemma SameAsArchive(tree: Tree, out: Path, b: seq<byte>, broken: bool, entries: seq<Entry>)
    requires forall e :: e in entries ==> WellFormed(e)
    requires ParseTar(None, b, broken) == Archive(AllItems(entries), true)
    ensures Extract(tree, out, b, broken) == Extract(tree, out, ArchiveBytes(entries), false)
  {
    ParseArchive(entries, [], false);
    Regroup(ArchiveBytes(entries), [], []);
    SameParse(tree, out, b, broken, ArchiveBytes(entries), false);
  }

  /** An archive from any sender in the chunked coding, cut at any byte of the body, the stream then ending
      or breaking. The extraction is that of the whole archive when its end marker was decoded; that of the
      entries that came whole when the cut fell cleanly between entries and in front of a chunk whose size
      text has a front that reads as zero; and a failure otherwise. */
  lemma CutTransfer(tree: Tree, out: Path, chunks: seq<Chunk>, last: seq<byte>, trailer: seq<byte>,
                    entries: seq<Entry>, tail: seq<byte>, k: nat, broken: bool)
    requires Carry(chunks, entries, tail) && ZeroLine(last) && k <= |Body(chunks, last, trailer)|
    ensures var o := DecodeLines(Body(chunks, last, trailer)[..k], broken);
            var m, r := |o.out|, Received(tree, out, o);
            if m >= |ArchiveBytes(entries)| - BLOCK then r == Extract(tree, out, ArchiveBytes(entries), false)
            else if o.Done? && CleanCut(entries, m, false) then
              && !broken && ZeroFrontAt(chunks, m)
              && r == Extract(tree, out, ArchiveBytes(entries[..WholeEntries(entries, m)]), false)
            else r.result == Failed
  {
    var o, p := ReceivedParse(chunks, last, trailer, entries, tail, k, broken);
    var m := |o.out|;
    if m >= |ArchiveBytes(entries)| - BLOCK {
      SameAsArchive(tree, out, o.out, !o.Done?, entries);
    } else if o.Done? && CleanCut(entries, m, false) {
      SameAsArchive(tree, out, o.out, false, entries[..WholeEntries(entries, m)]);
    } else {
      NotWholeFails(tree, out, o.out, !o.Done?);
    }
  }

  /** Success means the whole archive. */
  ghost predicate WholeOrFailed(tree: Tree, out: Path, o: ChunkedWire.Outcome, entries: seq<Entry>) {
    Received(tree, out, o).result.Extracted? ==> ParseTar(None, o.out, !o.Done?) == Archive(AllItems(entries), true)
  }

  ghost predicate NoCutPasses(tree: Tree, out: Path, chunks: seq<Chunk>, last: seq<byte>, trailer: seq<byte>,
                              entries: seq<Entry>, broken: bool) {
    forall k :: 0 <= k <= |Body(chunks, last, trailer)| ==>
      WholeOrFailed(tree, out, DecodeLines(Body(chunks, last, trailer)[..k], broken), entries)
  }

  ghost predicate NoShortcut(chunks: seq<Chunk>, entries: seq<Entry>)
    requires forall e :: e in entries ==> WellFormed(e)
  {
    forall m :: ZeroFrontAt(chunks, m) ==> !PassesShort(entries, m)
  }

  lemma CutIsWholeOrFailed(tree: Tree, out: Path, chunks: seq<Chunk>, last: seq<byte>, trailer: seq<byte>,
                           entries: seq<Entry>, tail: seq<byte>, k: nat, broken: bool)
    requires Closed(tree) && Carry(chunks, entries, tail) && ZeroLine(last) && k <= |Body(chunks, last, trailer)|
    requires broken || NoShortcut(chunks, entries)
    ensures WholeOrFailed(tree, out, DecodeLines(Body(chunks, last, trailer)[..k], broken), entries)
  {
    var o, p := ReceivedParse(chunks, last, trailer, entries, tail, k, broken);
    ExtractionResult(tree, out, o.out, !o.Done?);
  }

  lemma ShortcutPasses(tree: Tree, out: Path, chunks: seq<Chunk>, last: seq<byte>, trailer: seq<byte>,
                       entries: seq<Entry>, tail: seq<byte>, m: nat)
    returns (k: nat, o: ChunkedWire.Outcome)
    requires Closed(tree) && !Blocked(tree, out) && Carry(chunks, entries, tail)
    requires ZeroFrontAt(chunks, m) && PassesShort(entries, m)
    ensures k <= |Body(chunks, last, trailer)| && o == DecodeLines(Body(chunks, last, trailer)[..k], false)
    ensures o == Done(ArchiveBytes(entries)[..m]) && Received(tree, out, o).result.Extracted?
    ensures !WholeOrFailed(tree, out, o, entries)
  {
    var payload;
    k, payload, o := ZeroFrontIsMissed(chunks, last, trailer, m);
    TakeInside(ArchiveBytes(entries), tail, m);
    var p := CleanFront(entries, ArchiveBytes(entries), tail, o.out);
    ExtractionResult(tree, out, o.out, false);
  }

  /** For every sender: no cut of the body extracts successfully as anything but the whole archive, if and
      only if the stream breaks (or nothing can be extracted at all), or no chunk whose size text has a
      front that reads as zero starts where the archive so far passes for a shorter one. */
  lemma NoCutPassesExactly(tree: Tree, out: Path, chunks: seq<Chunk>, last: seq<byte>, trailer: seq<byte>,
                           entries: seq<Entry>, tail: seq<byte>, broken: bool)
    requires Closed(tree) && Carry(chunks, entries, tail) && ZeroLine(last)
    ensures NoCutPasses(tree, out, chunks, last, trailer, entries, broken)
       <==> Blocked(tree, out) || broken || NoShortcut(chunks, entries)
  {
    if Blocked(tree, out) {
    } else if broken || NoShortcut(chunks, entries) {
      forall k | 0 <= k <= |Body(chunks, last, trailer)|
        ensures WholeOrFailed(tree, out, DecodeLines(Body(chunks, last, trailer)[..k], broken), entries)
      {
        CutIsWholeOrFailed(tree, out, chunks, last, trailer, entries, tail, k, broken);
      }
    } else {
      var m :| ZeroFrontAt(chunks, m) && PassesShort(entries, m);
      var k, o := ShortcutPasses(tree, out, chunks, last, trailer, entries, tail, m);
      assert !WholeOrFailed(tree, out, DecodeLines(Body(chunks, last, trailer)[..k], false), entries);
    }
  }

  /** An archive from a sender without such size texts, this repository's writer among them: no cut passes
      for a shorter archive. */
  lemma NoZeroFrontNoShortcut(chunks: seq<Chunk>, entries: seq<Entry>)
    requires NoZeroPrefixes(chunks) && forall e :: e in entries ==> WellFormed(e)
    ensures NoShortcut(chunks, entries)
  {
    forall m: nat
      ensures !ZeroFrontAt(chunks, m)
    {
      NoZeroFront(chunks, m);
    }
  }

  // ---------- a cut that passes ----------

  lemma OneItemIsConsistent(e: Entry)
    ensures Consistent(EntryItems(e))
  {
  }

  lemma NoneWhole(entries: seq<Entry>)
    requires forall e :: e in entries ==> WellFormed(e)
    ensures WholeEntries(entries, 0) == 0 && CleanCut(entries, 0, false)
  {
    if entries != [] {
      AtLeastEnd(entries);
    }
  }

  lemma FirstAndLater(e: Entry, later: seq<Entry>)
    requires WellFormed(e) && (forall x :: x in later ==> WellFormed(x))
    ensures forall x :: x in [e] + later ==> WellFormed(x)
    ensures ArchiveBytes([e] + later) == EntryBytes(e) + ArchiveBytes(later)
    ensures AllItems([e] + later) == EntryItems(e) + AllItems(later)
  {
    assert ([e] + later)[0] == e && ([e] + later)[1..] == later;
  }

  lemma FirstComesWhole(e: Entry, later: seq<Entry>)
    requires WellFormed(e) && (forall x :: x in later ==> WellFormed(x))
    requires forall x :: x in [e] + later ==> WellFormed(x)
    ensures var n := |EntryBytes(e)|;
            WholeEntries([e] + later, n) == 1 && CleanCut([e] + later, n, false)
  {
    assert ([e] + later)[0] == e && ([e] + later)[1..] == later;
    NoneWhole(later);
  }

  lemma ItemsOfOne(e: Entry, later: seq<Entry>)
    ensures AllItems(([e] + later)[..1]) == EntryItems(e)
  {
    assert ([e] + later)[..1] == [e] && [e][1..] == [];
    Regroup(EntryItems(e), [], []);
  }

  lemma BehindFirstEntry(e: Entry, later: seq<Entry>)
    requires WellFormed(e) && (forall x :: x in later ==> WellFormed(x))
    requires EntryItems(e) != [] && AllItems(later) != []
    ensures forall x :: x in [e] + later ==> WellFormed(x)
    ensures ArchiveBytes([e] + later) == EntryBytes(e) + ArchiveBytes(later)
    ensures PassesShort([e] + later, |EntryBytes(e)|)
  {
    FirstAndLater(e, later);
    FirstComesWhole(e, later);
    ItemsOfOne(e, later);
    AtLeastEnd(later);
    OneItemIsConsistent(e);
    assert |EntryItems(e) + AllItems(later)| > |EntryItems(e)|;
  }

  /** Two chunks, the second with a padded size. */
  lemma SecondPadded(a: seq<byte>, b: seq<byte>) returns (chunks: seq<Chunk>)
    requires 0 < |a| < U64_LIMIT && 0 < |b| < U64_LIMIT
    ensures chunks == [Written(a), ZeroPadded(b)] && AllSound(chunks)
    ensures PayloadOf(chunks) == a + b && ZeroFrontAt(chunks, |a|)
  {
    chunks := [Written(a), ZeroPadded(b)];
    WrittenIsSound(a);
    PaddedIsSound(b);
    var second := [ZeroPadded(b)];
    assert chunks[1..] == second && second[1..] == [];
    Regroup(b, [], []);
    assert ZeroFrontAt(second, 0);
    assert PayloadOf(second) == b;
  }

  lemma ZeroChunkLine()
    ensures ZeroLine([48])
  {
    assert Format(0, 16) == [48];
    ChunkedTheorems.SizeReadsBack(0, CRLF, true);
  }

  lemma FrontIsFirst(a: seq<byte>, b: seq<byte>)
    ensures (a + b)[..|a|] == a && (a + b) + [] == a + b
  {
  }

  /** A sender that pads its sizes with zeros and sends an entry in its first chunk, the rest in its second:
      cut behind the padding of the second size, the entry alone extracts as if it were the archive. */
  lemma PaddedSizeExtractsShorter(tree: Tree, out: Path, e: Entry, later: seq<Entry>) returns (k: nat)
    requires Closed(tree) && !Blocked(tree, out)
    requires WellFormed(e) && (forall x :: x in later ==> WellFormed(x))
    requires EntryItems(e) != [] && AllItems(later) != []
    requires |EntryBytes(e)| < U64_LIMIT && |ArchiveBytes(later)| < U64_LIMIT
    ensures var a, b := EntryBytes(e), ArchiveBytes(later);
            var body := Body([Written(a), ZeroPadded(b)], [48], CRLF);
            && PayloadOf([Written(a), ZeroPadded(b)]) == a + b && k <= |body|
            && DecodeLines(body[..k], false) == Done(a) && Received(tree, out, Done(a)).result.Extracted?
  {
    BehindFirstEntry(e, later);
    AtLeastEnd(later);
    var a, b := EntryBytes(e), ArchiveBytes(later);
    var chunks := SecondPadded(a, b);
    ZeroChunkLine();
    FrontIsFirst(a, b);
    var o;
    k, o := ShortcutPasses(tree, out, chunks, [48], CRLF, [e] + later, [], |a|);
  }
}
