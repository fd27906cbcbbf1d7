/** What extraction guarantees for every byte stream, and what it yields for well-formed archives. */
module TarTheorems {
  import opened Bytes
  import opened TarHeader
  import opened FileTree
  import opened TarParse
  import opened TarPlace
  import opened TarLayout
  import opened TarRoots
  import opened TarExtract
  import opened TarArchive

  // ---------- every stream ----------

  lemma OutReady(tree: Tree, out: Path)
    requires Closed(tree) && !Blocked(tree, out)
    ensures Ready(WithDirs(tree, out), out)
  {
    WithDirsClosed(tree, out);
    assert out[..|out|] == out;
  }

  /** Whatever the bytes, and wherever the stream breaks off: no existing file changes, everything
      new lies below the output directory (or is that directory or one above it), and the roots
      reported on success are distinct, were absent at the start and exist at the end. */
  lemma ExtractionIsConfined(tree: Tree, out: Path, b: seq<byte>, broken: bool)
    requires Closed(tree)
    ensures var r := Extract(tree, out, b, broken);
            && (forall p :: p in tree ==> p in r.tree && r.tree[p] == tree[p])
            && (forall p :: p in r.tree && p !in tree ==> (p <= out && r.tree[p] == Dir) || Below(out, p))
            && (r.result.Extracted? ==>
                  && (forall root :: root in r.result.created ==> root in r.tree && FreshRoot(tree, out, root))
                  && (forall i, j :: 0 <= i < j < |r.result.created| ==> r.result.created[i] != r.result.created[j]))
  {
    if !Blocked(tree, out) {
      var before := WithDirs(tree, out);
      OutReady(tree, out);
      var st := State(before, map[], []);
      StartConfined(before, out);
      var items := ParseTar(None, b, broken).items;
      PlaceAllConfined(before, out, st, items);
    }
  }

  lemma NewSinceTheStart(tree: Tree, out: Path, t: Tree, items: seq<Item>)
    requires TreeConfined(WithDirs(tree, out), out, t) && AllDelivered(WithDirs(tree, out), out, t, items)
    ensures AllDelivered(tree, out, t, items)
  {
    var before := WithDirs(tree, out);
    assert forall p :: p in before && p !in tree ==> before[p] == Dir;
    assert forall p :: p in t && p !in tree && t[p].File? ==> p !in before;
  }

  lemma PlacedIsDelivered(tree: Tree, out: Path, items: seq<Item>) returns (t: Tree)
    requires Closed(tree) && !Blocked(tree, out) && Placeable(items)
    ensures t == PlaceAll(out, State(WithDirs(tree, out), map[], []), items).state.tree
    ensures AllDelivered(tree, out, t, items)
  {
    var before := WithDirs(tree, out);
    OutReady(tree, out);
    StartConfined(before, out);
    PlaceAllConfined(before, out, State(before, map[], []), items);
    var all;
    t, all := PlaceAllDelivers(before, out, State(before, map[], []), [], items);
    assert all == items;
    NewSinceTheStart(tree, out, t, items);
  }

  /** Whatever the bytes, and wherever the stream breaks off: every file that is new holds all the data of
      an entry of that stream, and lies below its root where that entry's name says. */
  lemma ExtractionDelivers(tree: Tree, out: Path, b: seq<byte>, broken: bool)
    requires Closed(tree)
    ensures AllDelivered(tree, out, Extract(tree, out, b, broken).tree, ParseTar(None, b, broken).items)
  {
    if !Blocked(tree, out) {
      var t := PlacedIsDelivered(tree, out, ParseTar(None, b, broken).items);
    }
  }

  /** An archive broken off behind these items, or one that goes on behind them. */
  predicate GoesOn(a: Archive, own: seq<Item>, rest: Archive) {
    a == Archive(own, false) || a == rest.(items := own + rest.items)
  }

  predicate MetaWhole(size: nat, b: seq<byte>, broken: bool) {
    var taken := Min(size, |b|);
    size < VEC_LIMIT && (taken < size ==> !broken) && taken + Padding(size) <= |b|
  }

  lemma MetaIsWhole(long: Option<seq<byte>>, typeflag: byte, size: nat, b: seq<byte>, broken: bool)
    requires MetaWhole(size, b, broken)
    ensures var taken := Min(size, |b|);
            ParseMeta(long, typeflag, size, b, broken)
            == ParseTar(MetaName(typeflag, b[..taken], long), b[taken + Padding(size)..], broken)
  {
  }

  lemma MetaIsBroken(long: Option<seq<byte>>, typeflag: byte, size: nat, b: seq<byte>, broken: bool)
    requires !MetaWhole(size, b, broken)
    ensures ParseMeta(long, typeflag, size, b, broken) == BROKEN_OFF
  {
  }

  lemma PrependNoItems(a: Archive)
    ensures a.(items := [] + a.items) == a
  {
    assert [] + a.items == a.items;
  }

  lemma MetaEnds(long: Option<seq<byte>>, typeflag: byte, size: nat, b: seq<byte>, broken: bool)
    returns (own: seq<Item>, k: nat, name: Option<seq<byte>>)
    requires size < U64_LIMIT
    ensures k <= |b| && (k % 512 == 0 || k == |b|) && own == []
    ensures var a := ParseMeta(long, typeflag, size, b, broken);
            GoesOn(a, own, ParseTar(name, b[k..], broken))
  {
    own, k, name := [], 0, None;
    if MetaWhole(size, b, broken) {
      var taken := Min(size, |b|);
      MetaIsWhole(long, typeflag, size, b, broken);
      PaddingIsExact(size);
      k, name := taken + Padding(size), MetaName(typeflag, b[..taken], long);
      PrependNoItems(ParseTar(name, b[k..], broken));
    } else {
      MetaIsBroken(long, typeflag, size, b, broken);
    }
  }

  lemma SkipEnds(size: nat, b: seq<byte>, broken: bool) returns (own: seq<Item>, k: nat, name: Option<seq<byte>>)
    requires size < U64_LIMIT
    ensures k <= |b| && (k % 512 == 0 || k == |b|) && own == []
    ensures var a := if |b| < Padded(size) then BROKEN_OFF else ParseTar(None, b[Padded(size)..], broken);
            GoesOn(a, own, ParseTar(name, b[k..], broken))
  {
    own, k, name := [], if |b| < Padded(size) then 0 else Padded(size), None;
    PrependNoItems(ParseTar(None, b[k..], broken));
    PaddedIsBlocks(size);
  }

  lemma FileEnds(parts: seq<Name>, size: nat, b: seq<byte>, broken: bool)
    returns (own: seq<Item>, k: nat, name: Option<seq<byte>>)
    requires SafeParts(parts) && size < U64_LIMIT
    ensures k <= |b| && (k % 512 == 0 || k == |b|) && |own| == 1
    ensures var a := ParseFile(parts, size, b, broken);
            GoesOn(a, own, ParseTar(name, b[k..], broken))
  {
    PaddingIsExact(size);
    own, k, name := [PutFile(parts, b[..Min(size, |b|)], |b| >= size)], 0, None;
    if |b| < size {
      assert b[..|b|] == b;
    } else if |b| - size >= Padding(size) {
      k := size + Padding(size);
    }
  }

  /** Where one entry's share of the stream ends: a whole number of blocks behind its header, or the
      end of the stream, whatever its size field says; the parse goes on from there. */
  lemma EntryEndsOnBlock(long: Option<seq<byte>>, h: seq<byte>, b: seq<byte>, broken: bool)
    returns (own: seq<Item>, k: nat, name: Option<seq<byte>>)
    requires IsHeader(h)
    ensures k <= |b| && (k % 512 == 0 || k == |b|) && |own| <= 1
    ensures var a := ParseEntry(long, h, b, broken);
            GoesOn(a, own, ParseTar(name, b[k..], broken))
  {
    var typeflag, size := h[TYPE_OFFSET], TarSize(SizeField(h));
    PaddingIsExact(size);
    if IsMeta(typeflag) {
      own, k, name := MetaEnds(long, typeflag, size, b, broken);
    } else if typeflag != TYPE_DIR && !IsFile(typeflag) {
      own, k, name := SkipEnds(size, b, broken);
    } else if EntryParts(h, long) == [] {
      own, k, name := [], 0, None;
      if typeflag != TYPE_DIR {
        own, k, name := SkipEnds(size, b, broken);
      } else {
        assert b[0..] == b;
        PrependNoItems(ParseTar(None, b, broken));
      }
    } else if typeflag == TYPE_DIR {
      own, k, name := [MakeDir(EntryParts(h, long))], 0, None;
      assert b[0..] == b;
    } else {
      own, k, name := FileEnds(EntryParts(h, long), size, b, broken);
    }
  }

  lemma {:induction false} CreatedGrows(out: Path, st: State, items: seq<Item>)
    requires Placeable(items) && (items != [] || st.created != []) && PlaceAll(out, st, items).ok
    requires st.top != map[] ==> st.created != []
    ensures PlaceAll(out, st, items).state.created != []
    decreases |items|
  {
    if items != [] {
      var first := PlaceItem(out, st, items[0]);
      assert first.state.created != [];
      CreatedGrows(out, first.state, items[1..]);
    }
  }

  /** The tree is the one before plus exactly these items, each top-level name under the root that is next
      for it when it first comes; the roots reported are those. */
  ghost predicate Leaves(before: Tree, out: Path, items: seq<Item>, tree: Tree, created: seq<Path>) {
    && Placeable(items)
    && var top := RootsOf(before, out, map[], items);
       && HeadsIn(top, items) && Layout(before, top, items, tree)
       && RootsConfined(before, out, State(tree, top, created))
  }

  lemma PlacedLeaves(before: Tree, out: Path, items: seq<Item>)
    requires Ready(before, out) && Placeable(items) && PlaceAll(out, State(before, map[], []), items).ok
    ensures var st := PlaceAll(out, State(before, map[], []), items).state;
            Leaves(before, out, items, st.tree, st.created)
  {
    var start := State(before, map[], []);
    var st := PlaceAll(out, start, items).state;
    StartConfined(before, out);
    RootsAreChosen(before, out, [], start, items);
    PlaceAllLayout(out, start, items);
    PlaceAllConfined(before, out, start, items);
    assert st == State(st.tree, st.top, st.created);
  }

  /** Success, exactly: the output directory can be made, the stream ended between two entries, and
      its items are at least one, all complete, with no path both a file and a directory. */
  lemma ExtractionResult(tree: Tree, out: Path, b: seq<byte>, broken: bool)
    requires Closed(tree)
    ensures var a := ParseTar(None, b, broken);
            Extract(tree, out, b, broken).result.Extracted?
            <==> !Blocked(tree, out) && a.intact && a.items != [] && Consistent(a.items)
    ensures var r := Extract(tree, out, b, broken);
            r.result.Extracted? ==>
              Leaves(WithDirs(tree, out), out, ParseTar(None, b, broken).items, r.tree, r.result.created)
  {
    if !Blocked(tree, out) {
      var before := WithDirs(tree, out);
      var a := ParseTar(None, b, broken);
      var st := State(before, map[], []);
      OutReady(tree, out);
      SucceedsIffConsistent(before, out, a.items);
      if PlaceAll(out, st, a.items).ok {
        if a.items != [] {
          CreatedGrows(out, st, a.items);
        }
        PlacedLeaves(before, out, a.items);
      }
    }
  }

  // ---------- well-formed archives ----------

  lemma ParseAtHeader(long: Option<seq<byte>>, h: seq<byte>, tail: seq<byte>, broken: bool)
    requires IsHeader(h) && !AllZero(h)
    ensures ParseTar(long, h + tail, broken) == ParseEntry(long, h, tail, broken)
  {
    assert (h + tail)[..BLOCK] == h && (h + tail)[BLOCK..] == tail;
  }

  lemma BlocksSplit(data: seq<byte>, tail: seq<byte>)
    requires |data| < VEC_LIMIT
    ensures var b := Blocks(data) + tail;
            && |b| >= Padded(|data|) == |data| + Padding(|data|)
            && b[..|data|] == data && b[|data| + Padding(|data|)..] == tail
  {
    BlocksAligned(data);
  }

  lemma MetaHeaderReads(name: seq<byte>, size: nat, typeflag: byte) returns (h: seq<byte>)
    requires |name| <= 100 && 0 !in name && size < U64_LIMIT && (typeflag == 76 || typeflag == 120)
    ensures h == Header(name, size, typeflag, Posix([])) && IsHeader(h) && !AllZero(h)
    ensures h[TYPE_OFFSET] == typeflag && IsMeta(h[TYPE_OFFSET])
    ensures SizeField(h) == EncodeSize(size) && TarSize(SizeField(h)) == size
  {
    h := Header(name, size, typeflag, Posix([]));
    HeaderReadsBack(name, size, typeflag, Posix([]));
    SizeReadsBack(size);
  }

  lemma ExtensionReads(x: Extension) returns (h: seq<byte>)
    requires ProperExtension(x)
    ensures h == ExtensionHeader(x) && IsHeader(h) && !AllZero(h) && IsMeta(h[TYPE_OFFSET])
    ensures SizeField(h) == EncodeSize(|MetaData(x)|) && TarSize(SizeField(h)) == |MetaData(x)|
    ensures h[TYPE_OFFSET] == if x.LongLink? then 76 else 120
  {
    if x.LongLink? {
      h := MetaHeaderReads(LONG_LINK, |MetaData(x)|, 76);
    } else {
      h := MetaHeaderReads(PAX_HEADER, |MetaData(x)|, 120);
    }
  }

  lemma AnnouncedIsRead(x: Extension, typeflag: byte, long: Option<seq<byte>>)
    requires ProperExtension(x) && typeflag == if x.LongLink? then 76 else 120
    ensures MetaName(typeflag, MetaData(x), long) == Announced(x, long)
  {
    match x
    case LongLink(name, rest) =>
      if rest == [] {
        UpToNothing(name, 0);
        assert name + rest == name;
      } else {
        UpToEnd(name, rest, 0);
      }
    case PaxHeader(fields) => PaxReadsBack(fields);
  }

  lemma MetaAtHeader(long: Option<seq<byte>>, h: seq<byte>, meta: seq<byte>, tail: seq<byte>, broken: bool)
    requires IsHeader(h) && IsMeta(h[TYPE_OFFSET]) && |meta| < VEC_LIMIT && TarSize(SizeField(h)) == |meta|
    ensures ParseEntry(long, h, Blocks(meta) + tail, broken)
         == ParseTar(MetaName(h[TYPE_OFFSET], meta, long), tail, broken)
  {
    BlocksSplit(meta, tail);
    MetaIsWhole(long, h[TYPE_OFFSET], |meta|, Blocks(meta) + tail, broken);
  }

  /** An extension entry hands the name it announces on to what follows. */
  lemma ParseExtension(long: Option<seq<byte>>, x: Extension, tail: seq<byte>, broken: bool)
    requires ProperExtension(x)
    ensures ParseTar(long, ExtensionBytes(x) + tail, broken) == ParseTar(Announced(x, long), tail, broken)
  {
    var h := ExtensionReads(x);
    var b := Blocks(MetaData(x)) + tail;
    Regroup(h, Blocks(MetaData(x)), tail);
    ParseAtHeader(long, h, b, broken);
    MetaAtHeader(long, h, MetaData(x), tail, broken);
    AnnouncedIsRead(x, h[TYPE_OFFSET], long);
  }

  lemma FirstExtension(exts: seq<Extension>, tail: seq<byte>) returns (front: seq<byte>, rest: seq<byte>)
    requires AllProper(exts) && exts != []
    ensures front == NameEntries(exts) + tail && rest == NameEntries(exts[1..]) + tail
    ensures front == ExtensionBytes(exts[0]) + rest
  {
    front, rest := NameEntries(exts) + tail, NameEntries(exts[1..]) + tail;
    Regroup(ExtensionBytes(exts[0]), NameEntries(exts[1..]), tail);
  }

  lemma {:induction false} ParseNames(long: Option<seq<byte>>, exts: seq<Extension>, tail: seq<byte>, broken: bool)
    returns (front: seq<byte>, name: Option<seq<byte>>)
    requires AllProper(exts)
    ensures front == NameEntries(exts) + tail && name == LongName(exts, long)
    ensures ParseTar(long, front, broken) == ParseTar(name, tail, broken)
    decreases |exts|
  {
    if exts == [] {
      front, name := tail, long;
      Regroup([], [], tail);
    } else {
      var rest;
      front, rest := FirstExtension(exts, tail);
      ParseExtension(long, exts[0], rest, broken);
      rest, name := ParseNames(Announced(exts[0], long), exts[1..], tail, broken);
    }
  }

  /** What the header says, with the long name of the entry pending, if it has one. */
  lemma OwnHeaderReads(e: Entry) returns (h: seq<byte>, size: nat, typeflag: byte)
    requires WellFormed(e)
    ensures h == OwnHeader(e) && IsHeader(h) && !AllZero(h) && h[TYPE_OFFSET] == typeflag == TypeOf(e)
    ensures size < U64_LIMIT && SizeField(h) == EncodeSize(size) && TarSize(SizeField(h)) == size
    ensures size == AnnouncedSize(e)
    ensures PlainName(h) == e.short && UstarName(h) == NameUnder(e.style, e.short)
  {
    size, typeflag := AnnouncedSize(e), TypeOf(e);
    h := OwnHeader(e);
    HeaderReadsBack(e.short, size, typeflag, e.style);
    SizeReadsBack(size);
  }

  lemma FolderAtHeader(long: Option<seq<byte>>, h: seq<byte>, tail: seq<byte>, broken: bool)
    requires IsHeader(h) && h[TYPE_OFFSET] == 53
    ensures var parts, rest := EntryParts(h, long), ParseTar(None, tail, broken);
            ParseEntry(long, h, Blocks([]) + tail, broken)
            == if parts == [] then rest else Cons(MakeDir(parts), rest)
  {
    NoBlocks();
    Regroup([], [], tail);
  }

  lemma FileAtHeader(long: Option<seq<byte>>, h: seq<byte>, data: seq<byte>, tail: seq<byte>, broken: bool)
    requires |data| < VEC_LIMIT && IsHeader(h) && TarSize(SizeField(h)) == |data|
    requires h[TYPE_OFFSET] == 48 || h[TYPE_OFFSET] == 0 || h[TYPE_OFFSET] == 55
    ensures var parts, rest := EntryParts(h, long), ParseTar(None, tail, broken);
            ParseEntry(long, h, Blocks(data) + tail, broken)
            == if parts == [] then rest else Cons(PutFile(parts, data, true), rest)
  {
    BlocksSplit(data, tail);
  }

  lemma SkippedAtHeader(long: Option<seq<byte>>, h: seq<byte>, body: seq<byte>, tail: seq<byte>, broken: bool)
    requires |body| < VEC_LIMIT && IsHeader(h) && TarSize(SizeField(h)) == |body|
    requires !IsMeta(h[TYPE_OFFSET]) && !IsFile(h[TYPE_OFFSET]) && h[TYPE_OFFSET] != TYPE_DIR
    ensures ParseEntry(long, h, Blocks(body) + tail, broken) == ParseTar(None, tail, broken)
  {
    BlocksSplit(body, tail);
  }

  /** One entry's own header and data. */
  lemma ParseOneEntry(e: Entry, h: seq<byte>, size: nat, tail: seq<byte>, broken: bool)
    requires WellFormed(e) && IsHeader(h) && h[TYPE_OFFSET] == TypeOf(e) && TarSize(SizeField(h)) == size
    requires size == AnnouncedSize(e)
    requires EntryParts(h, LongName(e.exts, None)) == Parts(FullName(e))
    ensures var rest := ParseTar(None, tail, broken);
            ParseEntry(LongName(e.exts, None), h, Blocks(Contents(e)) + tail, broken)
            == rest.(items := EntryItems(e) + rest.items)
  {
    var long := LongName(e.exts, None);
    PrependNoItems(ParseTar(None, tail, broken));
    match e.kind
    case Folder(_) => FolderAtHeader(long, h, tail, broken);
    case Regular(_, data) => FileAtHeader(long, h, data, tail, broken);
    case Skipped(_, body) => SkippedAtHeader(long, h, body, tail, broken);
  }

  lemma ParseOwn(e: Entry, tail: seq<byte>, broken: bool)
    requires WellFormed(e)
    ensures var rest := ParseTar(None, tail, broken);
            ParseTar(LongName(e.exts, None), OwnBytes(e) + tail, broken) == rest.(items := EntryItems(e) + rest.items)
  {
    var h, size, _ := OwnHeaderReads(e);
    Regroup(h, Blocks(Contents(e)), tail);
    ParseAtHeader(LongName(e.exts, None), h, Blocks(Contents(e)) + tail, broken);
    ParseOneEntry(e, h, size, tail, broken);
  }

  lemma ParseNamedEntry(e: Entry, tail: seq<byte>, broken: bool)
    requires WellFormed(e)
    ensures var rest := ParseTar(None, tail, broken);
            ParseTar(None, EntryBytes(e) + tail, broken) == rest.(items := EntryItems(e) + rest.items)
  {
    Regroup(NameEntries(e.exts), OwnBytes(e), tail);
    var front, name := ParseNames(None, e.exts, OwnBytes(e) + tail, broken);
    ParseOwn(e, tail, broken);
  }

  lemma EndOfArchive(tail: seq<byte>, broken: bool)
    ensures ParseTar(None, Zeros(2 * BLOCK) + tail, broken) == ENDED
  {
    var b := Zeros(2 * BLOCK) + tail;
    assert AllZero(b[..BLOCK]);
  }

  lemma FirstEntry(entries: seq<Entry>, tail: seq<byte>) returns (rest: seq<byte>)
    requires entries != [] && forall e :: e in entries ==> WellFormed(e)
    ensures WellFormed(entries[0]) && rest == ArchiveBytes(entries[1..]) + tail
    ensures ArchiveBytes(entries) + tail == EntryBytes(entries[0]) + rest
  {
    assert entries[0] in entries;
    rest := ArchiveBytes(entries[1..]) + tail;
    Regroup(EntryBytes(entries[0]), ArchiveBytes(entries[1..]), tail);
  }

  /** Parsing an archive gives back its entries, each under its full name: the last long name announced
      for it, or prefix and name of a POSIX header, or the name alone; also behind a directory header that
      announces data it does not have. */
  lemma {:induction false} ParseArchive(entries: seq<Entry>, tail: seq<byte>, broken: bool)
    requires forall e :: e in entries ==> WellFormed(e)
    ensures ParseTar(None, ArchiveBytes(entries) + tail, broken) == Archive(AllItems(entries), true)
  {
    if entries == [] {
      EndOfArchive(tail, broken);
    } else {
      var rest := FirstEntry(entries, tail);
      ParseArchive(entries[1..], tail, broken);
      ParseNamedEntry(entries[0], rest, broken);
    }
  }

  /** The round trip: extracting what was archived succeeds just when the entries are consistent with
      one another, and leaves exactly them under the roots their names get, whatever follows the end
      marker. */
  lemma ExtractArchive(tree: Tree, out: Path, entries: seq<Entry>, tail: seq<byte>, broken: bool)
    requires Closed(tree) && !Blocked(tree, out)
    requires forall e :: e in entries ==> WellFormed(e)
    ensures Placeable(AllItems(entries))
    ensures var r := Extract(tree, out, ArchiveBytes(entries) + tail, broken);
            && (r.result.Extracted? <==> AllItems(entries) != [] && Consistent(AllItems(entries)))
            && (r.result.Extracted? ==>
                  Leaves(WithDirs(tree, out), out, AllItems(entries), r.tree, r.result.created))
  {
    ParseArchive(entries, tail, broken);
    ExtractionResult(tree, out, ArchiveBytes(entries) + tail, broken);
  }
}
