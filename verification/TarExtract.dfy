/** The streaming extractor itself: reads of any size, a file system changed as it goes. */
module TarExtract {
  import opened Bytes
  import opened Streams
  import opened TarHeader
  import opened FileTree
  import opened TarParse
  import opened TarPlace

  datatype Result = Extracted(created: seq<Path>) | Failed

  // ---------- the whole run as a function ----------

  datatype Outcome = Outcome(tree: Tree, result: Result)

  /** The items placed from a given state, and the verdict: an archive that made nothing is an error. */
  function Finish(out: Path, st: State, a: Archive): Outcome
    requires Placeable(a.items)
  {
    var r := PlaceAll(out, st, a.items);
    Outcome(r.state.tree,
            if r.ok && a.intact && r.state.created != [] then Extracted(r.state.created) else Failed)
  }

  function Extract(tree: Tree, out: Path, b: seq<byte>, broken: bool): Outcome {
    if Blocked(tree, out) then Outcome(tree, Failed)
    else Finish(out, State(WithDirs(tree, out), map[], []), ParseTar(None, b, broken))
  }

  lemma FinishNothing(out: Path, st: State, intact: bool)
    ensures Finish(out, st, Archive([], intact))
         == Outcome(st.tree, if intact && st.created != [] then Extracted(st.created) else Failed)
  {
  }

  lemma FinishCons(out: Path, st: State, item: Item, a: Archive)
    requires SafeParts(item.parts) && Placeable(a.items)
    ensures Placeable(Cons(item, a).items)
    ensures var first := PlaceItem(out, st, item);
            Finish(out, st, Cons(item, a))
            == if first.ok then Finish(out, first.state, a) else Outcome(first.state.tree, Failed)
  {
    var items := [item] + a.items;
    assert items[0] == item && items[1..] == a.items;
  }

  /** The last item of a stream that breaks off behind it, or inside it. */
  lemma FinishLast(out: Path, st: State, item: Item)
    requires SafeParts(item.parts)
    ensures Finish(out, st, Archive([item], false)) == Outcome(PlaceItem(out, st, item).state.tree, Failed)
  {
    FinishCons(out, st, item, BROKEN_OFF);
    assert [item] + [] == [item];
    if PlaceItem(out, st, item).ok {
      FinishNothing(out, PlaceItem(out, st, item).state, false);
    }
  }

  // ---------- reading ----------

  /** What was taken is whole blocks, or all there was. */
  predicate OnBlock(before: seq<byte>, after: seq<byte>) {
    (|before| - |after|) % 512 == 0 || after == []
  }

  /** Data of a known size and its padding. */
  lemma PaddedOnBlock(b: seq<byte>, size: nat, rest: seq<byte>)
    requires size < U64_LIMIT && |b| >= size && |b[size..]| >= Padding(size) && rest == b[size..][Padding(size)..]
    ensures rest == b[size + Padding(size)..] && OnBlock(b, rest) && |rest| <= |b|
  {
    PaddingIsExact(size);
  }

  lemma OnBlockThen(a: seq<byte>, b: seq<byte>, c: seq<byte>)
    requires OnBlock(a, b) && OnBlock(b, c) && (b == [] ==> c == [])
    ensures OnBlock(a, c)
  {
  }

  datatype BlockRead = Full | EndOfFile | ReadError

  /** Fill one block, however short the reads come back. */
  method ReadBlock(src: Source, block: array<byte>) returns (r: BlockRead)
    requires block.Length == BLOCK
    modifies src, block
    ensures r.Full? <==> |old(src.rest)| >= BLOCK
    ensures r.Full? ==> block[..] == old(src.rest)[..BLOCK] && src.rest == old(src.rest)[BLOCK..]
    ensures r.EndOfFile? <==> old(src.rest) == [] && !src.broken
  {
    var got := 0;
    while got < block.Length
      invariant got <= block.Length && got <= |old(src.rest)|
      invariant block[..got] == old(src.rest)[..got]
      invariant src.rest == old(src.rest)[got..]
      decreases block.Length - got
    {
      var n, failed := src.ReadInto(block, got);
      if failed {
        return ReadError;
      }
      if n == 0 {
        return if got == 0 then EndOfFile else ReadError;
      }
      got := got + n;
    }
    assert block[..] == block[..got];
    r := Full;
  }

  method Skip(src: Source, n: nat) returns (ok: bool)
    modifies src
    ensures ok <==> |old(src.rest)| >= n
    ensures ok ==> src.rest == old(src.rest)[n..]
  {
    var skipped, failed := src.Take(n);
    ok := !failed && |skipped| == n;
  }

  /** The data of an entry that is passed over, with its padding. */
  method SkipBlocks(src: Source, size: nat) returns (ok: bool)
    modifies src
    ensures ok <==> |old(src.rest)| >= Padded(size)
    ensures ok ==> src.rest == old(src.rest)[Padded(size)..]
    ensures ok ==> |src.rest| <= |old(src.rest)| && OnBlock(old(src.rest), src.rest)
  {
    PaddedIsBlocks(size);
    ok := Skip(src, Padded(size));
  }

  lemma Overwritten(t: Tree, dest: Path, data: seq<byte>)
    ensures t[dest := File([])][dest := File(data)] == t[dest := File(data)]
  {
  }

  /** Write one file entry; a file whose data did not all arrive is taken away again. */
  method WriteEntry(src: Source, disk: Disk, dest: Path, size: nat, ghost st: State) returns (ok: bool)
    requires dest != [] && st.tree == disk.tree
    modifies src, disk
    ensures var b := old(src.rest);
            var r := PlaceFile(st, dest, b[..Min(size, |b|)], |b| >= size);
            ok == r.ok && disk.tree == r.state.tree && (ok ==> src.rest == b[size..])
  {
    var parent := dest[..|dest| - 1];
    ok := disk.CreateDirAll(parent);
    if !ok {
      return;
    }
    ghost var t := disk.tree;
    ok := disk.CreateFile(dest);
    if !ok {
      return;
    }
    var data, failed := src.Take(size);
    disk.WriteFile(dest, data);
    Overwritten(t, dest, data);
    ok := !failed && |data| == size;
    if !ok {
      disk.RemoveFile(dest);
    }
  }

  // ---------- what the parse says next, branch by branch ----------

  lemma ParseHeader(long: Option<seq<byte>>, b: seq<byte>, broken: bool)
    ensures b == [] ==> ParseTar(long, b, broken) == Archive([], !broken)
    ensures 0 < |b| < BLOCK ==> ParseTar(long, b, broken) == BROKEN_OFF
    ensures |b| >= BLOCK && AllZero(b[..BLOCK]) ==> ParseTar(long, b, broken) == ENDED
    ensures |b| >= BLOCK && !AllZero(b[..BLOCK]) ==>
              ParseTar(long, b, broken) == ParseEntry(long, b[..BLOCK], b[BLOCK..], broken)
  {
  }

  /** An extension entry's data and padding. */
  method TakeMeta(src: Source, size: nat) returns (ok: bool, meta: seq<byte>)
    modifies src
    ensures var b := old(src.rest);
            var taken := Min(size, |b|);
            && (ok <==> size < VEC_LIMIT && (taken < size ==> !src.broken) && |b| - taken >= Padding(size))
            && (ok ==> meta == b[..taken] && src.rest == b[taken + Padding(size)..])
  {
    meta := [];
    if size >= VEC_LIMIT {
      return false, [];
    }
    ghost var b := src.rest;
    var failed;
    meta, failed := src.Take(size);
    if failed {
      return false, [];
    }
    var padding := Padding(size);
    ok := Skip(src, padding);
    assert ok ==> src.rest == b[|meta| + padding..];
  }

  /** An extension entry: its bytes become the pending name. */
  method ReadMeta(src: Source, typeflag: byte, size: nat, long: Option<seq<byte>>)
    returns (ok: bool, name: Option<seq<byte>>)
    requires size < U64_LIMIT
    modifies src
    ensures var a := ParseMeta(long, typeflag, size, old(src.rest), src.broken);
            if ok then a == ParseTar(name, src.rest, src.broken) else a == BROKEN_OFF
    ensures ok ==> |src.rest| <= |old(src.rest)| && OnBlock(old(src.rest), src.rest)
  {
    PaddingIsExact(size);
    var meta;
    ok, meta := TakeMeta(src, size);
    name := if ok then MetaName(typeflag, meta, long) else None;
  }

  lemma FinishFile(out: Path, st: State, parts: seq<Name>, size: nat, b: seq<byte>, broken: bool)
    requires SafeParts(parts)
    ensures var first := PlaceItem(out, st, PutFile(parts, b[..Min(size, |b|)], |b| >= size));
            Finish(out, st, ParseFile(parts, size, b, broken))
            == if first.ok && |b| - size >= Padding(size)
               then Finish(out, first.state, ParseTar(None, b[size + Padding(size)..], broken))
               else Outcome(first.state.tree, Failed)
  {
    var item := PutFile(parts, b[..Min(size, |b|)], |b| >= size);
    if |b| < size {
      assert b[..|b|] == b;
      FinishLast(out, st, item);
    } else if |b| - size < Padding(size) {
      FinishLast(out, st, item);
    } else {
      FinishCons(out, st, item, ParseTar(None, b[size + Padding(size)..], broken));
    }
  }

  /** A file entry from its data on: the item, then its padding. */
  method ExtractFile(src: Source, disk: Disk, out: Path, parts: seq<Name>, size: nat, dest: Path,
                     ghost st: State, ghost whole: Outcome)
    returns (ok: bool)
    requires SafeParts(parts) && size < U64_LIMIT
    requires disk.tree == st.tree && dest == Dest(WithRoot(out, st, parts[0]).top, parts) && dest != []
    requires whole == Finish(out, st, ParseFile(parts, size, src.rest, src.broken))
    modifies src, disk
    ensures !ok ==> whole == Outcome(disk.tree, Failed)
    ensures ok ==> |src.rest| <= |old(src.rest)| && OnBlock(old(src.rest), src.rest)
    ensures ok ==> var st1 := WithRoot(out, st, parts[0]);
                   whole == Finish(out, State(disk.tree, st1.top, st1.created), ParseTar(None, src.rest, src.broken))
  {
    ghost var b := src.rest;
    ghost var st1 := WithRoot(out, st, parts[0]);
    FinishFile(out, st, parts, size, b, src.broken);
    ghost var first := PlaceFile(st1, dest, b[..Min(size, |b|)], |b| >= size);
    assert PlaceItem(out, st, PutFile(parts, b[..Min(size, |b|)], |b| >= size)) == first;
    PlaceFileKeeps(st1, dest, b[..Min(size, |b|)], |b| >= size);
    ok := WriteEntry(src, disk, dest, size, st1);
    if ok {
      assert first.state == State(disk.tree, st1.top, st1.created);
      ok := Skip(src, Padding(size));
      if ok {
        PaddedOnBlock(b, size, src.rest);
      }
    }
  }

  /** What a file or directory entry asks for, before it is done. */
  function EntryArchive(parts: seq<Name>, isDir: bool, size: nat, b: seq<byte>, broken: bool): (a: Archive)
    requires SafeParts(parts)
    ensures Placeable(a.items)
  {
    if isDir then Cons(MakeDir(parts), ParseTar(None, b, broken)) else ParseFile(parts, size, b, broken)
  }

  /** A file or directory entry: its root, then the entry itself. */
  method PlaceEntry(src: Source, disk: Disk, out: Path, parts: seq<Name>, isDir: bool, size: nat,
                    top0: map<Name, Path>, created0: seq<Path>, ghost whole: Outcome)
    returns (ok: bool, top: map<Name, Path>, created: seq<Path>)
    requires SafeParts(parts) && size < U64_LIMIT && forall a :: a in top0 ==> top0[a] != []
    requires whole == Finish(out, State(disk.tree, top0, created0),
                             EntryArchive(parts, isDir, size, src.rest, src.broken))
    modifies src, disk
    ensures ok ==> |src.rest| <= |old(src.rest)| && OnBlock(old(src.rest), src.rest)
    ensures forall a :: a in top ==> top[a] != []
    ensures if ok then whole == Finish(out, State(disk.tree, top, created), ParseTar(None, src.rest, src.broken))
            else whole == Outcome(disk.tree, Failed)
  {
    ghost var st := State(disk.tree, top0, created0);
    top, created := top0, created0;
    if parts[0] !in top {
      var root := out + [UniqueName(disk.tree, out, parts[0])];
      top, created := top[parts[0] := root], created + [root];
    }
    assert WithRoot(out, st, parts[0]) == State(disk.tree, top, created);
    var dest := Dest(top, parts);
    if isDir {
      // No data follows a directory header, whatever its size field says.
      FinishCons(out, st, MakeDir(parts), ParseTar(None, src.rest, src.broken));
      ok := disk.CreateDirAll(dest);
    } else {
      ok := ExtractFile(src, disk, out, parts, size, dest, st, whole);
    }
  }

  /** What one header asks for, with everything that follows it up to the next header. */
  method ExtractEntry(src: Source, disk: Disk, out: Path, h: seq<byte>, top0: map<Name, Path>,
                      created0: seq<Path>, long: Option<seq<byte>>, ghost whole: Outcome)
    returns (ok: bool, top: map<Name, Path>, created: seq<Path>, name: Option<seq<byte>>)
    requires IsHeader(h) && forall a :: a in top0 ==> top0[a] != []
    requires whole == Finish(out, State(disk.tree, top0, created0), ParseEntry(long, h, src.rest, src.broken))
    modifies src, disk
    ensures ok ==> |src.rest| <= |old(src.rest)| && OnBlock(old(src.rest), src.rest)
    ensures forall a :: a in top ==> top[a] != []
    ensures if ok then whole == Finish(out, State(disk.tree, top, created), ParseTar(name, src.rest, src.broken))
            else whole == Outcome(disk.tree, Failed)
  {
    ghost var st := State(disk.tree, top0, created0);
    FinishNothing(out, st, false);
    top, created, name := top0, created0, None;
    var size := TarSize(SizeField(h));
    var typeflag := h[TYPE_OFFSET];
    if IsMeta(typeflag) {
      ok, name := ReadMeta(src, typeflag, size, long);
      return;
    }
    if typeflag != TYPE_DIR && !IsFile(typeflag) {
      ok := SkipBlocks(src, size);
      return;
    }
    var parts := EntryParts(h, long);
    var isDir := typeflag == TYPE_DIR;
    if parts == [] {
      ok := true;
      if !isDir {
        ok := SkipBlocks(src, size);
      }
      return;
    }
    ok, top, created := PlaceEntry(src, disk, out, parts, isDir, size, top0, created0, whole);
  }

  method ExtractEntries(src: Source, disk: Disk, out: Path, ghost whole: Outcome) returns (r: Result)
    requires whole == Finish(out, State(disk.tree, map[], []), ParseTar(None, src.rest, src.broken))
    modifies src, disk
    ensures whole == Outcome(disk.tree, r)
  {
    var top: map<Name, Path> := map[];
    var created: seq<Path> := [];
    var long: Option<seq<byte>> := None;
    var hdr := new byte[BLOCK];
    ghost var b := src.rest;
    while true
      invariant fresh(hdr) && hdr.Length == BLOCK
      invariant forall a :: a in top ==> top[a] != []
      invariant whole == Finish(out, State(disk.tree, top, created), ParseTar(long, src.rest, src.broken))
      invariant OnBlock(b, src.rest) && |src.rest| <= |b|
      decreases |src.rest|
    {
      ghost var from := src.rest;
      FinishNothing(out, State(disk.tree, top, created), true);
      FinishNothing(out, State(disk.tree, top, created), false);
      ParseHeader(long, src.rest, src.broken);
      var block := ReadBlock(src, hdr);
      if block.ReadError? {
        return Failed;
      }
      if block.EndOfFile? || AllZero(hdr[..]) {
        break;
      }
      ghost var h := src.rest;
      var ok;
      ok, top, created, long := ExtractEntry(src, disk, out, hdr[..], top, created, long, whole);
      if !ok {
        return Failed;
      }
      OnBlockThen(from, h, src.rest);
      OnBlockThen(b, from, src.rest);
    }
    r := if created == [] then Failed else Extracted(created);
  }

  /** Entry by entry: read a header, act on it, until the end marker, the end of the stream or the
      first failure. Whatever the read sizes, the tree and the result are those of `Extract`. */
  method ExtractTarToDir(src: Source, disk: Disk, out: Path) returns (r: Result)
    modifies src, disk
    ensures Outcome(disk.tree, r) == Extract(old(disk.tree), out, old(src.rest), src.broken)
  {
    var made := disk.CreateDirAll(out);
    if !made {
      return Failed;
    }
    r := ExtractEntries(src, disk, out, Extract(old(disk.tree), out, src.rest, src.broken));
  }
}
