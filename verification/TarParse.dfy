/** A tar stream as a list of things to write, read off the bytes alone: no file system, no reads. */
module TarParse {
  import opened Bytes
  import opened TarHeader
  import opened FileTree

  /** `whole` is false when the stream ended inside the file's data. */
  datatype Item = MakeDir(parts: seq<Name>) | PutFile(parts: seq<Name>, data: seq<byte>, whole: bool)

  /** `intact` is false when the stream ended, or failed, anywhere but between two entries. */
  datatype Archive = Archive(items: seq<Item>, intact: bool)

  /** A destination has at least one component, and every component is safe to join. */
  ghost predicate SafeParts(parts: seq<Name>) {
    parts != [] && forall i :: 0 <= i < |parts| ==> Safe(parts[i])
  }

  ghost predicate Placeable(items: seq<Item>) {
    forall i :: 0 <= i < |items| ==> SafeParts(items[i].parts)
  }

  const BROKEN_OFF := Archive([], false)
  const ENDED := Archive([], true)

  /** Empty, `.` and `..` components are dropped. */
  function KeepSafe(parts: seq<Name>): (r: seq<Name>)
    requires forall i :: 0 <= i < |parts| ==> SLASH !in parts[i]
    ensures forall i :: 0 <= i < |r| ==> Safe(r[i])
  {
    if parts == [] then []
    else (if Safe(parts[0]) then [parts[0]] else []) + KeepSafe(parts[1..])
  }

  function Parts(name: seq<byte>): (r: seq<Name>)
    ensures forall i :: 0 <= i < |r| ==> Safe(r[i])
  {
    KeepSafe(Split(name, SLASH))
  }

  function WithoutParents(parts: seq<Name>): seq<Name> {
    if parts == [] then []
    else (if parts[0] == [46, 46] then [] else [parts[0]]) + WithoutParents(parts[1..])
  }

  lemma {:induction false} KeptIsWalked(dir: Path, parts: seq<Name>)
    requires forall i :: 0 <= i < |parts| ==> SLASH !in parts[i]
    ensures Walk(dir, WithoutParents(parts)) == dir + KeepSafe(parts)
    decreases |parts|
  {
    if parts == [] {
      assert dir + [] == dir;
    } else {
      var c, later := parts[0], parts[1..];
      if c == [46, 46] {
        assert [] + WithoutParents(later) == WithoutParents(later);
        assert [] + KeepSafe(later) == KeepSafe(later);
        KeptIsWalked(dir, later);
      } else {
        var rest := WithoutParents(later);
        assert ([c] + rest)[1..] == rest;
        if Safe(c) {
          KeptIsWalked(dir + [c], later);
          Regroup(dir, [c], KeepSafe(later));
        } else {
          KeptIsWalked(dir, later);
          assert [] + KeepSafe(later) == KeepSafe(later);
        }
      }
    }
  }

  /** Where a name leads: to what a file system finds walking it with every `..` left out. */
  lemma PartsAreWalked(dir: Path, name: seq<byte>)
    ensures Walk(dir, WithoutParents(Split(name, 47))) == dir + Parts(name)
  {
    KeptIsWalked(dir, Split(name, 47));
  }

  function Cons(item: Item, a: Archive): Archive {
    a.(items := [item] + a.items)
  }

  predicate IsMeta(typeflag: byte) {
    typeflag == TYPE_LONG_NAME || typeflag == TYPE_PAX
  }

  predicate IsFile(typeflag: byte) {
    typeflag == TYPE_FILE || typeflag == 0 || typeflag == TYPE_CONTIGUOUS
  }

  /** The long name after an `L` or `x` entry. */
  function MetaName(typeflag: byte, meta: seq<byte>, long: Option<seq<byte>>): Option<seq<byte>> {
    if typeflag == TYPE_LONG_NAME then Some(UpTo(meta, 0))
    else if PaxPath(meta).Some? then PaxPath(meta) else long
  }

  function EntryParts(h: seq<byte>, long: Option<seq<byte>>): (r: seq<Name>)
    requires IsHeader(h)
    ensures forall i :: 0 <= i < |r| ==> Safe(r[i])
  {
    Parts(if long.Some? then long.value else UstarName(h))
  }

  function ParseFile(parts: seq<Name>, size: nat, b: seq<byte>, broken: bool): (a: Archive)
    requires SafeParts(parts)
    ensures Placeable(a.items)
    decreases |b|, 1
  {
    if |b| < size then Archive([PutFile(parts, b, false)], false)
    else if |b| - size < Padding(size) then Archive([PutFile(parts, b[..size], true)], false)
    else Cons(PutFile(parts, b[..size], true), ParseTar(None, b[size + Padding(size)..], broken))
  }

  function ParseEntry(long: Option<seq<byte>>, h: seq<byte>, b: seq<byte>, broken: bool): (a: Archive)
    requires IsHeader(h)
    ensures Placeable(a.items)
    decreases |b|, 2
  {
    var typeflag := h[TYPE_OFFSET];
    var size := TarSize(SizeField(h));
    if IsMeta(typeflag) then ParseMeta(long, typeflag, size, b, broken)
    else if typeflag != TYPE_DIR && !IsFile(typeflag) then
      // Links, global headers and the like: their data is skipped, and a pending name with it.
      if |b| < Padded(size) then BROKEN_OFF else ParseTar(None, b[Padded(size)..], broken)
    else
      var parts := EntryParts(h, long);
      if typeflag == TYPE_DIR then
        // A directory has no data, whatever its size field says.
        if parts == [] then ParseTar(None, b, broken) else Cons(MakeDir(parts), ParseTar(None, b, broken))
      else if parts == [] then
        if |b| < Padded(size) then BROKEN_OFF else ParseTar(None, b[Padded(size)..], broken)
      else ParseFile(parts, size, b, broken)
  }

  /** Parse from an entry boundary on; `long` is the name an extension entry announced. */
  function ParseTar(long: Option<seq<byte>>, b: seq<byte>, broken: bool): (a: Archive)
    ensures Placeable(a.items)
    decreases |b|, 0
  {
    if b == [] then Archive([], !broken)
    else if |b| < BLOCK then BROKEN_OFF
    else if AllZero(b[..BLOCK]) then ENDED
    else ParseEntry(long, b[..BLOCK], b[BLOCK..], broken)
  }

  /** An extension entry cut short is still taken, when no padding is missing and no error hit. */
  function ParseMeta(long: Option<seq<byte>>, typeflag: byte, size: nat, b: seq<byte>, broken: bool): (a: Archive)
    ensures Placeable(a.items)
    decreases |b|, 1
  {
    var taken := Min(size, |b|);
    if size >= VEC_LIMIT || (taken < size && broken) || |b| - taken < Padding(size) then BROKEN_OFF
    else ParseTar(MetaName(typeflag, b[..taken], long), b[taken + Padding(size)..], broken)
  }
}
