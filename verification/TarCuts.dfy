/** Archives cut short: which cuts still read as whole archives, and with which entries. */
module TarCuts {
  import opened Bytes
  import opened TarHeader
  import opened FileTree
  import opened TarParse
  import opened TarArchive
  import opened TarTheorems

  // ---------- every stream that breaks ----------

  lemma SkipIsFinal(n: nat, b: seq<byte>, more: seq<byte>)
    requires n <= |b|
    ensures (b + more)[n..] == b[n..] + more && (b + more)[..n] == b[..n]
  {
  }

  lemma FileIsWhole(parts: seq<Name>, size: nat, b: seq<byte>, broken: bool)
    requires SafeParts(parts)
    ensures ParseFile(parts, size, b, broken).intact ==> |b| >= size + Padding(size)
    ensures |b| >= size + Padding(size) ==>
              ParseFile(parts, size, b, broken)
              == Cons(PutFile(parts, b[..size], true), ParseTar(None, b[size + Padding(size)..], broken))
  {
  }

  lemma FileIsFinal(parts: seq<Name>, size: nat, b: seq<byte>, more: seq<byte>, broken: bool)
    returns (item: Item, rest: seq<byte>)
    requires SafeParts(parts) && ParseFile(parts, size, b, true).intact
    ensures |rest| <= |b| && ParseFile(parts, size, b, true) == Cons(item, ParseTar(None, rest, true))
    ensures ParseFile(parts, size, b + more, broken) == Cons(item, ParseTar(None, rest + more, broken))
  {
    var used := size + Padding(size);
    FileIsWhole(parts, size, b, true);
    SkipIsFinal(size, b, more);
    SkipIsFinal(used, b, more);
    FileIsWhole(parts, size, b + more, broken);
    item, rest := PutFile(parts, b[..size], true), b[used..];
  }

  lemma MetaIsFinal(long: Option<seq<byte>>, typeflag: byte, size: nat, b: seq<byte>, more: seq<byte>, broken: bool)
    returns (name: Option<seq<byte>>, rest: seq<byte>)
    requires ParseMeta(long, typeflag, size, b, true).intact
    ensures |rest| <= |b| && ParseMeta(long, typeflag, size, b, true) == ParseTar(name, rest, true)
    ensures ParseMeta(long, typeflag, size, b + more, broken) == ParseTar(name, rest + more, broken)
  {
    if !MetaWhole(size, b, true) {
      MetaIsBroken(long, typeflag, size, b, true);
    }
    MetaIsWhole(long, typeflag, size, b, true);
    MetaIsWhole(long, typeflag, size, b + more, broken);
    var used := size + Padding(size);
    SkipIsFinal(size, b, more);
    SkipIsFinal(used, b, more);
    name, rest := MetaName(typeflag, b[..size], long), b[used..];
  }

  /** A stream that breaks, or is taken to break, behind `b` reads as whole only when its end marker came:
      no more bytes would change what was read. */
  lemma {:induction false} WholeIsFinal(long: Option<seq<byte>>, b: seq<byte>, more: seq<byte>, broken: bool)
    requires ParseTar(long, b, true).intact
    ensures ParseTar(long, b + more, broken) == ParseTar(long, b, true)
    decreases |b|
  {
    assert |b| >= BLOCK;
    var h, rest := b[..BLOCK], b[BLOCK..];
    assert (b + more)[..BLOCK] == h && (b + more)[BLOCK..] == rest + more;
    if !AllZero(h) {
      EntryIsFinal(long, h, rest, more, broken);
    }
  }

  lemma {:induction false} EntryIsFinal(long: Option<seq<byte>>, h: seq<byte>, b: seq<byte>, more: seq<byte>,
                                        broken: bool)
    requires IsHeader(h) && ParseEntry(long, h, b, true).intact
    ensures ParseEntry(long, h, b + more, broken) == ParseEntry(long, h, b, true)
    decreases |b| + 1
  {
    var typeflag, size := h[TYPE_OFFSET], TarSize(SizeField(h));
    if IsMeta(typeflag) {
      var name, rest := MetaIsFinal(long, typeflag, size, b, more, broken);
      WholeIsFinal(name, rest, more, broken);
    } else if typeflag == TYPE_DIR {
      WholeIsFinal(None, b, more, broken);
    } else if IsFile(typeflag) && EntryParts(h, long) != [] {
      var item, rest := FileIsFinal(EntryParts(h, long), size, b, more, broken);
      WholeIsFinal(None, rest, more, broken);
    } else {
      SkipIsFinal(Padded(size), b, more);
      WholeIsFinal(None, b[Padded(size)..], more, broken);
    }
  }

  // ---------- archives cut anywhere ----------

  /** Where a stream that ends cleanly among the extension entries of an entry still reads as whole: in
      front of one of them, behind the last, and, when its data fills its blocks, anywhere behind a header. */
  ghost predicate CleanName(exts: seq<Extension>, k: nat)
    requires AllProper(exts)
  {
    if exts == [] then k == 0
    else
      var n := |ExtensionBytes(exts[0])|;
      if k < n then k == 0 || (|MetaData(exts[0])| % 512 == 0 && k >= BLOCK) else CleanName(exts[1..], k - n)
  }

  /** In an entry's own header and data there is no such place. */
  ghost predicate CleanIn(e: Entry, k: nat, broken: bool)
    requires WellFormed(e)
  {
    !broken && CleanName(e.exts, k)
  }

  ghost predicate CleanCut(entries: seq<Entry>, k: nat, broken: bool)
    requires forall e :: e in entries ==> WellFormed(e)
  {
    if entries == [] then k >= BLOCK || (k == 0 && !broken)
    else
      var n := |EntryBytes(entries[0])|;
      if k < n then CleanIn(entries[0], k, broken) else CleanCut(entries[1..], k - n, broken)
  }

  /** How many entries come whole. */
  ghost function WholeEntries(entries: seq<Entry>, k: nat): (i: nat)
    requires forall e :: e in entries ==> WellFormed(e)
    ensures i <= |entries|
  {
    if entries == [] || k < |EntryBytes(entries[0])| then 0
    else 1 + WholeEntries(entries[1..], k - |EntryBytes(entries[0])|)
  }

  lemma TakeInside(a: seq<byte>, b: seq<byte>, k: nat)
    requires k <= |a|
    ensures (a + b)[..k] == a[..k]
  {
  }

  lemma TakeBeyond(a: seq<byte>, b: seq<byte>, k: nat)
    requires |a| <= k <= |a + b|
    ensures (a + b)[..k] == a + b[..k - |a|]
  {
  }

  lemma NoPaddingExactly(size: nat)
    requires size < VEC_LIMIT
    ensures Padding(size) == 0 <==> size % 512 == 0
  {
    PaddingIsExact(size);
  }

  lemma MetaCut(long: Option<seq<byte>>, typeflag: byte, size: nat, b: seq<byte>, broken: bool)
    requires |b| < size + Padding(size) && size < VEC_LIMIT
    ensures ParseMeta(long, typeflag, size, b, broken) == Archive([], !broken && size % 512 == 0)
  {
    NoPaddingExactly(size);
    if MetaWhole(size, b, broken) {
      MetaIsWhole(long, typeflag, size, b, broken);
      assert b[|b|..] == [];
    } else {
      MetaIsBroken(long, typeflag, size, b, broken);
    }
  }
  lemma CutInMeta(x: Extension, k: nat) returns (h: seq<byte>, b: seq<byte>)
    requires ProperExtension(x) && BLOCK <= k < |ExtensionBytes(x)|
    ensures h == ExtensionHeader(x) && ExtensionBytes(x)[..k] == h + b
    ensures |b| < |MetaData(x)| + Padding(|MetaData(x)|)
  {
    h, b := ExtensionHeader(x), Blocks(MetaData(x))[..k - BLOCK];
    TakeBeyond(h, Blocks(MetaData(x)), k);
    BlocksAligned(MetaData(x));
  }

  /** Inside one extension entry. */
  lemma CutInExtension(long: Option<seq<byte>>, x: Extension, k: nat, broken: bool)
    requires ProperExtension(x) && k < |ExtensionBytes(x)|
    ensures ParseTar(long, ExtensionBytes(x)[..k], broken)
         == Archive([], !broken && (k == 0 || (|MetaData(x)| % 512 == 0 && k >= BLOCK)))
  {
    if k >= BLOCK {
      var h, b := CutInMeta(x, k);
      h := ExtensionReads(x);
      ParseAtHeader(long, h, b, broken);
      MetaCut(long, h[TYPE_OFFSET], |MetaData(x)|, b, broken);
    }
  }

  lemma CutFirstExtension(exts: seq<Extension>, k: nat) returns (front: seq<byte>)
    requires AllProper(exts) && exts != [] && k < |ExtensionBytes(exts[0])|
    ensures k <= |NameEntries(exts)| && front == NameEntries(exts)[..k] == ExtensionBytes(exts[0])[..k]
  {
    TakeInside(ExtensionBytes(exts[0]), NameEntries(exts[1..]), k);
    front := NameEntries(exts)[..k];
  }

  lemma CutLaterExtension(exts: seq<Extension>, k: nat) returns (j: nat, front: seq<byte>, tail: seq<byte>)
    requires AllProper(exts) && exts != [] && |ExtensionBytes(exts[0])| <= k <= |NameEntries(exts)|
    ensures j == k - |ExtensionBytes(exts[0])| && j <= |NameEntries(exts[1..])|
    ensures tail == NameEntries(exts[1..])[..j]
    ensures front == NameEntries(exts)[..k] == ExtensionBytes(exts[0]) + tail
  {
    j := k - |ExtensionBytes(exts[0])|;
    TakeBeyond(ExtensionBytes(exts[0]), NameEntries(exts[1..]), k);
    front, tail := NameEntries(exts)[..k], NameEntries(exts[1..])[..j];
  }

  /** Among the extension entries of an entry. */
  lemma {:induction false} CutInNames(long: Option<seq<byte>>, exts: seq<Extension>, k: nat, broken: bool)
    returns (front: seq<byte>)
    requires AllProper(exts) && k < |NameEntries(exts)|
    ensures front == NameEntries(exts)[..k]
    ensures ParseTar(long, front, broken) == Archive([], !broken && CleanName(exts, k))
    decreases |exts|
  {
    if k < |ExtensionBytes(exts[0])| {
      front := CutFirstExtension(exts, k);
      CutInExtension(long, exts[0], k, broken);
    } else {
      var j, tail;
      j, front, tail := CutLaterExtension(exts, k);
      ParseExtension(long, exts[0], tail, broken);
      tail := CutInNames(Announced(exts[0], long), exts[1..], j, broken);
    }
  }

  lemma NamesLength(exts: seq<Extension>)
    requires AllProper(exts) && exts != []
    ensures |NameEntries(exts)| == |ExtensionBytes(exts[0])| + |NameEntries(exts[1..])|
  {
  }

  lemma CleanBehindFirst(exts: seq<Extension>, k: nat, n: nat)
    requires AllProper(exts) && exts != [] && n == |ExtensionBytes(exts[0])| <= k
    ensures CleanName(exts, k) == CleanName(exts[1..], k - n)
  {
  }

  lemma {:induction false} CleanBehindNames(exts: seq<Extension>, k: nat) returns (n: nat)
    requires AllProper(exts) && k >= |NameEntries(exts)|
    ensures n == |NameEntries(exts)| && (CleanName(exts, k) <==> k == n)
    decreases |exts|
  {
    if exts == [] {
      n := 0;
    } else {
      NamesLength(exts);
      var first := |ExtensionBytes(exts[0])|;
      CleanBehindFirst(exts, k, first);
      var rest := CleanBehindNames(exts[1..], k - first);
      n := first + rest;
    }
  }

  lemma CutAtHeader(long: Option<seq<byte>>, h: seq<byte>, data: seq<byte>, b: seq<byte>, broken: bool)
    requires |data| < VEC_LIMIT && IsHeader(h) && TarSize(SizeField(h)) == |data| && |b| < |Blocks(data)|
    requires !IsMeta(h[TYPE_OFFSET]) && h[TYPE_OFFSET] != TYPE_DIR
    ensures !ParseEntry(long, h, b, broken).intact
  {
    BlocksAligned(data);
  }

  lemma CutBehindHeader(e: Entry, k: nat) returns (h: seq<byte>, b: seq<byte>)
    requires WellFormed(e) && BLOCK <= k < |OwnBytes(e)|
    ensures h == OwnHeader(e) && OwnBytes(e)[..k] == h + b && |b| < |Blocks(Contents(e))|
    ensures !e.kind.Folder?
  {
    h, b := OwnHeader(e), Blocks(Contents(e))[..k - BLOCK];
    NoBlocks();
    TakeBeyond(h, Blocks(Contents(e)), k);
  }

  /** Inside an entry's own header and data, the name already read. */
  lemma CutInOwn(e: Entry, k: nat, broken: bool)
    requires WellFormed(e) && k < |OwnBytes(e)|
    ensures k == 0 ==> ParseTar(LongName(e.exts, None), OwnBytes(e)[..k], broken) == Archive([], !broken)
    ensures k > 0 ==> !ParseTar(LongName(e.exts, None), OwnBytes(e)[..k], broken).intact
  {
    if k >= BLOCK {
      var h, b := CutBehindHeader(e, k);
      var _, _, typeflag := OwnHeaderReads(e);
      ParseAtHeader(LongName(e.exts, None), h, b, broken);
      CutAtHeader(LongName(e.exts, None), h, Contents(e), b, broken);
    }
  }

  /** From an entry's own header on, its name pending. */
  lemma CutBehindName(e: Entry, k: nat, front: seq<byte>, own: seq<byte>, broken: bool) returns (a: Archive)
    requires WellFormed(e) && k < |OwnBytes(e)| && own == OwnBytes(e)[..k] && front == NameEntries(e.exts) + own
    ensures a == ParseTar(None, front, broken)
    ensures a.intact <==> k == 0 && !broken
    ensures a.intact ==> a.items == []
  {
    CutInOwn(e, k, broken);
    var _, long := ParseNames(None, e.exts, own, broken);
    a := ParseTar(long, own, broken);
  }

  lemma FrontOfEntry(e: Entry, k: nat) returns (j: nat, front: seq<byte>, own: seq<byte>)
    requires WellFormed(e) && |NameEntries(e.exts)| <= k < |EntryBytes(e)|
    ensures j == k - |NameEntries(e.exts)| && j < |OwnBytes(e)|
    ensures front == EntryBytes(e)[..k] && own == OwnBytes(e)[..j] && front == NameEntries(e.exts) + own
  {
    j := k - |NameEntries(e.exts)|;
    TakeBeyond(NameEntries(e.exts), OwnBytes(e), k);
    front, own := EntryBytes(e)[..k], OwnBytes(e)[..j];
  }

  lemma CutBeforeOwn(e: Entry, k: nat, broken: bool) returns (a: Archive)
    requires WellFormed(e) && k < |NameEntries(e.exts)|
    ensures a == ParseTar(None, EntryBytes(e)[..k], broken)
    ensures a == Archive([], CleanIn(e, k, broken))
  {
    TakeInside(NameEntries(e.exts), OwnBytes(e), k);
    var front := CutInNames(None, e.exts, k, broken);
    a := ParseTar(None, front, broken);
  }

  lemma CutBehindOwn(e: Entry, k: nat, broken: bool) returns (a: Archive)
    requires WellFormed(e) && |NameEntries(e.exts)| <= k < |EntryBytes(e)|
    ensures a == ParseTar(None, EntryBytes(e)[..k], broken)
    ensures a.intact <==> k == |NameEntries(e.exts)| && !broken
    ensures a.intact ==> a.items == []
  {
    var j, front, own := FrontOfEntry(e, k);
    a := CutBehindName(e, j, front, own, broken);
  }

  lemma CutInEntry(e: Entry, k: nat, broken: bool) returns (a: Archive)
    requires WellFormed(e) && k < |EntryBytes(e)|
    ensures a == ParseTar(None, EntryBytes(e)[..k], broken)
    ensures a.intact <==> CleanIn(e, k, broken)
    ensures a.intact ==> a.items == []
  {
    if k < |NameEntries(e.exts)| {
      a := CutBeforeOwn(e, k, broken);
    } else {
      a := CutBehindOwn(e, k, broken);
      var n := CleanBehindNames(e.exts, k);
    }
  }

  lemma CutAtEnd(k: nat, broken: bool)
    requires k <= 2 * BLOCK
    ensures ParseTar(None, Zeros(2 * BLOCK)[..k], broken) == Archive([], k >= BLOCK || (k == 0 && !broken))
  {
    var b := Zeros(2 * BLOCK)[..k];
    if k >= BLOCK {
      assert AllZero(b[..BLOCK]);
    }
  }

  lemma CutInFirst(entries: seq<Entry>, k: nat, broken: bool) returns (a: Archive)
    requires entries != [] && (forall e :: e in entries ==> WellFormed(e)) && k < |EntryBytes(entries[0])|
    ensures k <= |ArchiveBytes(entries)| && a == ParseTar(None, ArchiveBytes(entries)[..k], broken)
    ensures a.intact <==> CleanIn(entries[0], k, broken)
    ensures a.intact ==> a.items == []
  {
    TakeInside(EntryBytes(entries[0]), ArchiveBytes(entries[1..]), k);
    a := CutInEntry(entries[0], k, broken);
  }

  lemma CutBeyond(e: Entry, front: seq<byte>, tail: seq<byte>, broken: bool, later: Archive) returns (a: Archive)
    requires WellFormed(e) && front == EntryBytes(e) + tail && later == ParseTar(None, tail, broken)
    ensures a == ParseTar(None, front, broken) && a == later.(items := EntryItems(e) + later.items)
  {
    ParseNamedEntry(e, tail, broken);
    a := later.(items := EntryItems(e) + later.items);
  }

  lemma ItemsOfFront(entries: seq<Entry>, before: nat, i: nat) returns (items: seq<Item>)
    requires entries != [] && i == before + 1 <= |entries|
    ensures items == AllItems(entries[..i]) == EntryItems(entries[0]) + AllItems(entries[1..][..before])
  {
    items := AllItems(entries[..i]);
    assert entries[..i][1..] == entries[1..][..before];
  }

  lemma OneMoreWhole(entries: seq<Entry>, k: nat, j: nat) returns (i: nat)
    requires entries != [] && forall e :: e in entries ==> WellFormed(e)
    requires k == |EntryBytes(entries[0])| + j
    ensures i == WholeEntries(entries, k) == WholeEntries(entries[1..], j) + 1
  {
    i := WholeEntries(entries, k);
  }

  /** The cut of an archive behind its first entry. */
  lemma FrontOfArchive(entries: seq<Entry>, k: nat) returns (j: nat, front: seq<byte>, tail: seq<byte>)
    requires entries != [] && (forall e :: e in entries ==> WellFormed(e))
    requires |EntryBytes(entries[0])| <= k <= |ArchiveBytes(entries)|
    ensures j == k - |EntryBytes(entries[0])| && j <= |ArchiveBytes(entries[1..])|
    ensures front == ArchiveBytes(entries)[..k] && tail == ArchiveBytes(entries[1..])[..j]
    ensures front == EntryBytes(entries[0]) + tail
  {
    j := k - |EntryBytes(entries[0])|;
    TakeBeyond(EntryBytes(entries[0]), ArchiveBytes(entries[1..]), k);
    front, tail := ArchiveBytes(entries)[..k], ArchiveBytes(entries[1..])[..j];
  }

  /** An archive cut anywhere, the stream then ending or breaking: it reads as whole exactly at the clean
      cuts, and then with the entries that came whole. */
  lemma {:induction false} CutArchive(entries: seq<Entry>, k: nat, broken: bool) returns (a: Archive, i: nat)
    requires (forall e :: e in entries ==> WellFormed(e)) && k <= |ArchiveBytes(entries)|
    ensures a == ParseTar(None, ArchiveBytes(entries)[..k], broken) && i == WholeEntries(entries, k)
    ensures a.intact <==> CleanCut(entries, k, broken)
    ensures a.intact ==> a.items == AllItems(entries[..i])
  {
    if entries == [] {
      CutAtEnd(k, broken);
      a, i := Archive([], k >= BLOCK || (k == 0 && !broken)), 0;
    } else if k < |EntryBytes(entries[0])| {
      a := CutInFirst(entries, k, broken);
      i := 0;
    } else {
      var j, front, tail := FrontOfArchive(entries, k);
      var later, before := CutArchive(entries[1..], j, broken);
      a := CutBeyond(entries[0], front, tail, broken, later);
      i := OneMoreWhole(entries, k, j);
      var items := ItemsOfFront(entries, before, i);
      assert a.intact ==> a.items == items;
    }
  }

  lemma AtLeastEnd(entries: seq<Entry>)
    requires forall e :: e in entries ==> WellFormed(e)
    ensures |ArchiveBytes(entries)| >= 2 * BLOCK
    ensures entries != [] ==> |ArchiveBytes(entries)| >= |EntryBytes(entries[0])| + 2 * BLOCK
  {
    if entries != [] {
      AtLeastEnd(entries[1..]);
    }
  }

  /** On a stream that breaks only the end marker makes an archive whole, and then all of it is there. */
  lemma {:induction false} BrokenCut(entries: seq<Entry>, k: nat)
    requires (forall e :: e in entries ==> WellFormed(e)) && k <= |ArchiveBytes(entries)|
    ensures CleanCut(entries, k, true) <==> k >= |ArchiveBytes(entries)| - BLOCK
    ensures CleanCut(entries, k, true) ==> WholeEntries(entries, k) == |entries|
  {
    if entries != [] && k >= |EntryBytes(entries[0])| {
      BrokenCut(entries[1..], k - |EntryBytes(entries[0])|);
    } else {
      AtLeastEnd(entries);
    }
  }

  /** A front of an archive, on a stream that then breaks. */
  lemma CutInside(entries: seq<Entry>, k: nat) returns (p: Archive)
    requires (forall e :: e in entries ==> WellFormed(e)) && k <= |ArchiveBytes(entries)|
    ensures p == ParseTar(None, ArchiveBytes(entries)[..k], true)
    ensures if k >= |ArchiveBytes(entries)| - BLOCK then p == Archive(AllItems(entries), true) else !p.intact
  {
    var i;
    p, i := CutArchive(entries, k, true);
    BrokenCut(entries, k);
    assert entries[..|entries|] == entries;
  }

  /** The same with more bytes behind the archive, and for either end of the stream. */
  lemma CutFront(entries: seq<Entry>, a: seq<byte>, tail: seq<byte>, b: seq<byte>) returns (p: Archive)
    requires (forall e :: e in entries ==> WellFormed(e)) && a == ArchiveBytes(entries) && b <= a + tail
    ensures p == ParseTar(None, b, true)
    ensures if |b| >= |a| - BLOCK then p == Archive(AllItems(entries), true) else !p.intact
  {
    if |b| >= |a| {
      TakeBeyond(a, tail, |b|);
      assert b == a + tail[..|b| - |a|];
      ParseArchive(entries, tail[..|b| - |a|], true);
      p := Archive(AllItems(entries), true);
    } else {
      TakeInside(a, tail, |b|);
      assert b == a[..|b|];
      p := CutInside(entries, |b|);
    }
  }

  /** The items of the entries that came whole in the first `k` bytes. */
  ghost function ItemsBy(entries: seq<Entry>, k: nat): seq<Item>
    requires forall e :: e in entries ==> WellFormed(e)
  {
    AllItems(entries[..WholeEntries(entries, k)])
  }

  lemma CleanFront(entries: seq<Entry>, a: seq<byte>, tail: seq<byte>, b: seq<byte>) returns (p: Archive)
    requires (forall e :: e in entries ==> WellFormed(e)) && a == ArchiveBytes(entries) && b <= a + tail
    ensures p == ParseTar(None, b, false)
    ensures if |b| >= |a| - BLOCK then p == Archive(AllItems(entries), true)
            else (p.intact <==> CleanCut(entries, |b|, false)) && (p.intact ==> p.items == ItemsBy(entries, |b|))
  {
    if |b| >= |a| - BLOCK {
      p := CutFront(entries, a, tail, b);
      WholeIsFinal(None, b, [], false);
      Regroup(b, [], []);
    } else {
      TakeInside(a, tail, |b|);
      assert b == a[..|b|];
      var i;
      p, i := CutArchive(entries, |b|, false);
    }
  }
}
