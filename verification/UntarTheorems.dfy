/** Images through the buffered extractors: what they read back, and exactly which entries they do. */
module UntarTheorems {
  import opened Bytes
  import opened Radix
  import opened TarHeader
  import opened TarParse
  import opened TarArchive
  import opened TarTheorems
  import opened Untar

  // ---------- images an archiver writes ----------

  /** Eleven octal digits: 8 GiB. */
  const OCTAL_LIMIT: nat := 0x2_0000_0000

  /** What of an entry these extractors only skip or read as a name is below the octal limit. */
  ghost predicate Sized(e: Entry): (sized: bool)
    ensures sized ==> WellFormed(e)
  {
    && WellFormed(e)
    && (forall i :: 0 <= i < |e.exts| ==> |MetaData(e.exts[i])| < OCTAL_LIMIT)
    && (e.kind.Skipped? || (e.kind.Regular? && e.kind.typeflag == 55) ==> |Contents(e)| < OCTAL_LIMIT)
  }

  /** The long name pending behind extension entries for extractors that skip pax headers. */
  function Kept(exts: seq<Extension>, long: Option<seq<byte>>): Option<seq<byte>> {
    if exts == [] then long
    else Kept(exts[1..], if exts[0].LongLink? then Some(exts[0].name) else long)
  }

  /** The name they use: they know no pax path and no prefix. */
  function KeptName(e: Entry): seq<byte> {
    if Kept(e.exts, None).Some? then Kept(e.exts, None).value else e.short
  }

  /** A directory size these extractors take for none: none, or one written in base 256. */
  predicate SeenEmpty(junk: nat) {
    junk == 0 || junk >= OCTAL_LIMIT
  }

  /** What the buffered extractors read right: files that are not of type `7`, below the octal limit and
      with no other name than they know, no directory header that announces octal data, and long names
      on files only. */
  ghost predicate Plain(e: Entry): (plain: bool)
    ensures plain ==> WellFormed(e)
  {
    Sized(e) &&
    match e.kind
    case Folder(junk) => SeenEmpty(junk) && Kept(e.exts, None) == None
    case Regular(typeflag, data) => typeflag != 55 && |data| < OCTAL_LIMIT && KeptName(e) == FullName(e)
    case Skipped(_, _) => Kept(e.exts, None) == None
  }

  ghost predicate AllPlain(entries: seq<Entry>): (plain: bool)
    ensures plain ==> forall e :: e in entries ==> WellFormed(e)
  {
    forall e :: e in entries ==> Plain(e)
  }

  /** The regular files among the entries, under their full names. */
  function RegularFiles(entries: seq<Entry>): seq<(seq<byte>, seq<byte>)> {
    if entries == [] then []
    else (if entries[0].kind.Regular? then [(FullName(entries[0]), entries[0].kind.data)] else [])
         + RegularFiles(entries[1..])
  }

  lemma OctalLimit()
    ensures Power(8, 11) == OCTAL_LIMIT
  {
    assert Power(8, 0) == 1;
    assert Power(8, 1) == 8;
    assert Power(8, 2) == 64;
    assert Power(8, 3) == 512;
    assert Power(8, 4) == 4096;
    assert Power(8, 5) == 32768;
    assert Power(8, 6) == 262144;
    assert Power(8, 7) == 2097152;
    assert Power(8, 8) == 16777216;
    assert Power(8, 9) == 134217728;
    assert Power(8, 10) == 1073741824;
  }

  lemma BlocksOfIsPadded(size: nat)
    requires size < VEC_LIMIT
    ensures BlocksOf(size) == size + Padding(size)
  {
    PaddingIsExact(size);
  }

  lemma TurnOnBlocks(long: Option<seq<byte>>, h: seq<byte>, data: seq<byte>, blocks: seq<byte>, tail: seq<byte>)
    requires IsHeader(h) && !AllZero(h) && TarOctal(SizeField(h)) == |data|
    requires |blocks| == BlocksOf(|data|) >= |data| && blocks[..|data|] == data
    ensures var b := h + (blocks + tail);
            TurnOf(long, b) == EntryTurn(long, h, |data|, data) && Drop(b, BLOCK + BlocksOf(|data|)) == tail
  {
    var b := h + (blocks + tail);
    assert b[..BLOCK] == h && b[BLOCK..] == blocks + tail;
    assert Take(b[BLOCK..], |data|) == data;
  }

  lemma RecordsAfter(long: Option<seq<byte>>, b: seq<byte>, t: Turn, tail: seq<byte>)
    requires TurnOf(long, b) == t && t.Next? && Drop(b, t.used) == tail
    ensures Records(long, b) == AsSeq(t.record) + Records(t.long, tail)
  {
    RecordsUnfold(long, b, t);
  }

  lemma BlocksFit(data: seq<byte>)
    requires |data| < OCTAL_LIMIT
    ensures |Blocks(data)| == BlocksOf(|data|) >= |data| && Blocks(data)[..|data|] == data
  {
    BlocksAligned(data);
    BlocksOfIsPadded(|data|);
  }

  /** One header with its data. */
  lemma TurnAtHeader(long: Option<seq<byte>>, h: seq<byte>, data: seq<byte>, tail: seq<byte>)
    requires IsHeader(h) && !AllZero(h) && |data| < OCTAL_LIMIT && TarOctal(SizeField(h)) == |data|
    ensures var t := EntryTurn(long, h, |data|, data);
            Records(long, h + (Blocks(data) + tail)) == AsSeq(t.record) + Records(t.long, tail)
  {
    BlocksFit(data);
    TurnOnBlocks(long, h, data, Blocks(data), tail);
    RecordsAfter(long, h + (Blocks(data) + tail), EntryTurn(long, h, |data|, data), tail);
  }

  /** A header with a size in octal, its data, and what follows. */
  lemma RecordsOfHeader(long: Option<seq<byte>>, h: seq<byte>, data: seq<byte>, tail: seq<byte>)
    requires IsHeader(h) && !AllZero(h) && |data| < OCTAL_LIMIT && SizeField(h) == EncodeSize(|data|)
    ensures var own := Record(if long.Some? then long.value else PlainName(h), |data|, data);
            Records(long, h + Blocks(data) + tail)
            == if h[TYPE_OFFSET] == 76 then Records(Some(UpTo(data, 0)), tail)
               else if h[TYPE_OFFSET] == 48 || h[TYPE_OFFSET] == 0 then [own] + Records(None, tail)
               else Records(long, tail)
  {
    OctalLimit();
    OctalReadsBack(|data|);
    TurnAtHeader(long, h, data, tail);
    Regroup(h, Blocks(data), tail);
  }

  lemma LongNameReads(x: Extension)
    requires ProperExtension(x) && x.LongLink?
    ensures UpTo(MetaData(x), 0) == x.name
  {
    AnnouncedIsRead(x, 76, None);
  }

  lemma RecordsOfExtension(long: Option<seq<byte>>, x: Extension, tail: seq<byte>)
    requires ProperExtension(x) && |MetaData(x)| < OCTAL_LIMIT
    ensures Records(long, ExtensionBytes(x) + tail) == Records(if x.LongLink? then Some(x.name) else long, tail)
  {
    var h := ExtensionReads(x);
    RecordsOfHeader(long, h, MetaData(x), tail);
    if x.LongLink? {
      LongNameReads(x);
    }
  }

  lemma {:induction false} RecordsOfNames(long: Option<seq<byte>>, exts: seq<Extension>, tail: seq<byte>)
    returns (front: seq<byte>, name: Option<seq<byte>>)
    requires AllProper(exts) && forall i :: 0 <= i < |exts| ==> |MetaData(exts[i])| < OCTAL_LIMIT
    ensures front == NameEntries(exts) + tail && name == Kept(exts, long)
    ensures Records(long, front) == Records(name, tail)
    decreases |exts|
  {
    if exts == [] {
      front, name := tail, long;
      Regroup([], [], tail);
    } else {
      var rest;
      front, rest := FirstExtension(exts, tail);
      RecordsOfExtension(long, exts[0], rest);
      rest, name := RecordsOfNames(if exts[0].LongLink? then Some(exts[0].name) else long, exts[1..], tail);
    }
  }

  lemma {:induction false} LeadingZero(width: nat, n: nat)
    requires width > 0 && n < Span(width - 1)
    ensures BigEndian(width, n)[0] == 0
  {
    if width > 1 {
      LeadingZero(width - 1, n / 256);
    }
  }

  lemma FirstByteOnly()
    ensures UpTo([128], 32) == [128] && Trim([128]) == [128] && OctalOrZero([128]) == 0
  {
    var s: seq<byte> := [128];
    assert s[1..] == [] && s[..0] == [];
    assert DigitsValue(s, 8) == None;
  }

  /** A size in base 256 reads as none: the octal parser sees one byte that is no digit. */
  lemma Base256ReadsAsZero(n: nat)
    requires OCTAL_LIMIT <= n < U64_LIMIT
    ensures TarOctal(EncodeSize(n)) == 0
  {
    OctalLimit();
    Spans();
    assert Span(10) == 256 * Span(9) && Span(9) == 256 * Span(8);
    LeadingZero(11, n);
    var low := BigEndian(11, n);
    assert EncodeSize(n) == [128] + low;
    UpToEnd([128], low, 0);
    FirstByteOnly();
  }

  lemma SeenEmptyReadsAsZero(junk: nat)
    requires junk < U64_LIMIT && SeenEmpty(junk)
    ensures TarOctal(EncodeSize(junk)) == 0
  {
    if junk == 0 {
      OctalLimit();
      OctalReadsBack(0);
    } else {
      Base256ReadsAsZero(junk);
    }
  }

  lemma RecordsOfEmptyDir(long: Option<seq<byte>>, h: seq<byte>, tail: seq<byte>)
    requires IsHeader(h) && !AllZero(h) && h[TYPE_OFFSET] == TYPE_DIR && TarOctal(SizeField(h)) == 0
    ensures Records(long, h + tail) == Records(long, tail)
  {
    NoBlocks();
    TurnAtHeader(long, h, [], tail);
    Regroup([], [], tail);
    Regroup([], [], Records(long, tail));
  }

  /** A directory header with no data for these extractors leaves a pending long name pending. */
  lemma RecordsOfDir(long: Option<seq<byte>>, e: Entry, tail: seq<byte>)
    requires WellFormed(e) && e.kind.Folder? && SeenEmpty(e.kind.junk)
    ensures Records(long, OwnBytes(e) + tail) == Records(long, tail)
  {
    var h, junk, _ := OwnHeaderReads(e);
    SeenEmptyReadsAsZero(junk);
    RecordsOfEmptyDir(long, h, tail);
    NoBlocks();
    Regroup(h, [], []);
  }

  lemma RecordsOfContents(long: Option<seq<byte>>, e: Entry, tail: seq<byte>)
    requires WellFormed(e) && !e.kind.Folder? && |Contents(e)| < OCTAL_LIMIT
    ensures var own := Record(if long.Some? then long.value else e.short, |Contents(e)|, Contents(e));
            Records(long, OwnBytes(e) + tail)
            == if e.kind.Regular? && e.kind.typeflag != 55 then [own] + Records(None, tail) else Records(long, tail)
  {
    var h, _, _ := OwnHeaderReads(e);
    RecordsOfHeader(long, h, Contents(e), tail);
  }

  function OwnRecord(e: Entry): Option<Record> {
    if e.kind.Regular? then Some(Record(FullName(e), |e.kind.data|, e.kind.data)) else None
  }

  lemma RecordsOfOwn(e: Entry, tail: seq<byte>)
    requires Plain(e)
    ensures Records(Kept(e.exts, None), OwnBytes(e) + tail) == AsSeq(OwnRecord(e)) + Records(None, tail)
  {
    Regroup([], [], Records(None, tail));
    if e.kind.Folder? {
      RecordsOfDir(None, e, tail);
    } else {
      RecordsOfContents(Kept(e.exts, None), e, tail);
    }
  }

  /** The walk from an entry's own header, its long name pending. */
  lemma WalkOwn(e: Entry, rest: seq<byte>)
    requires Sized(e)
    ensures Records(None, NameEntries(e.exts) + (OwnBytes(e) + rest)) == Records(Kept(e.exts, None), OwnBytes(e) + rest)
  {
    var front, name := RecordsOfNames(None, e.exts, OwnBytes(e) + rest);
  }

  lemma RecordsOfEntry(e: Entry, tail: seq<byte>)
    requires Plain(e)
    ensures Records(None, EntryBytes(e) + tail) == AsSeq(OwnRecord(e)) + Records(None, tail)
  {
    Regroup(NameEntries(e.exts), OwnBytes(e), tail);
    WalkOwn(e, tail);
    RecordsOfOwn(e, tail);
  }

  /** Reading an image back gives its regular files, whatever follows the end marker. */
  lemma {:induction false} FilesOfArchive(entries: seq<Entry>, tail: seq<byte>)
    requires AllPlain(entries)
    ensures Files(Records(None, ArchiveBytes(entries) + tail)) == RegularFiles(entries)
  {
    if entries == [] {
      var b := Zeros(2 * BLOCK) + tail;
      assert AllZero(b[..BLOCK]);
    } else {
      var e := entries[0];
      assert e in entries;
      var later := ArchiveBytes(entries[1..]) + tail;
      FilesOfArchive(entries[1..], tail);
      assert ArchiveBytes(entries) + tail == EntryBytes(e) + later;
      RecordsOfEntry(e, later);
      FilesAppend(AsSeq(OwnRecord(e)), Records(None, later));
    }
  }

  // ---------- the test encoder ----------

  /** `make_tar`: one regular file each, the second under a GNU long name when one is given. Its magic is
      the POSIX one, with no prefix. */
  function TarEntries(files: seq<(seq<byte>, seq<byte>)>, long: Option<seq<byte>>): (entries: seq<Entry>)
    ensures |entries| == |files|
  {
    seq(|files|, i requires 0 <= i < |files| =>
      Entry(Posix([]), files[i].0, if i == 1 && long.Some? then [LongLink(long.value, [])] else [],
            Regular(48, files[i].1)))
  }

  ghost predicate Encodable(files: seq<(seq<byte>, seq<byte>)>, long: Option<seq<byte>>) {
    && (forall i :: 0 <= i < |files| ==> |files[i].0| <= 100 && 0 !in files[i].0 && |files[i].1| < OCTAL_LIMIT)
    && (long.Some? ==> 0 !in long.value && |long.value| < OCTAL_LIMIT)
  }

  lemma {:induction false} RegularFilesOf(entries: seq<Entry>)
    requires forall e :: e in entries ==> e.kind.Regular?
    ensures |RegularFiles(entries)| == |entries|
    ensures forall i :: 0 <= i < |entries| ==>
              RegularFiles(entries)[i] == (FullName(entries[i]), entries[i].kind.data)
  {
    if entries != [] {
      assert entries[0] in entries;
      RegularFilesOf(entries[1..]);
    }
  }

  lemma OneLongLink(name: seq<byte>)
    ensures var exts := [LongLink(name, [])];
            LongName(exts, None) == Kept(exts, None) == Some(name) && MetaData(exts[0]) == name
  {
    assert [LongLink(name, [])][1..] == [];
    assert name + [] == name;
  }

  lemma TarEntryIsPlain(file: (seq<byte>, seq<byte>), long: Option<seq<byte>>) returns (e: Entry)
    requires |file.0| <= 100 && 0 !in file.0 && |file.1| < OCTAL_LIMIT
    requires long.Some? ==> 0 !in long.value && |long.value| < OCTAL_LIMIT
    ensures e == Entry(Posix([]), file.0, if long.Some? then [LongLink(long.value, [])] else [], Regular(48, file.1))
    ensures Plain(e) && FullName(e) == if long.Some? then long.value else file.0
  {
    e := Entry(Posix([]), file.0, if long.Some? then [LongLink(long.value, [])] else [], Regular(48, file.1));
    if long.Some? {
      OneLongLink(long.value);
    }
  }

  lemma TarEntriesArePlain(files: seq<(seq<byte>, seq<byte>)>, long: Option<seq<byte>>)
    requires Encodable(files, long)
    ensures AllPlain(TarEntries(files, long))
    ensures forall e :: e in TarEntries(files, long) ==> e.kind.Regular?
  {
    forall i | 0 <= i < |files|
      ensures Plain(TarEntries(files, long)[i])
    {
      var e := TarEntryIsPlain(files[i], if i == 1 then long else None);
    }
  }

  lemma RegularFilesOfTar(files: seq<(seq<byte>, seq<byte>)>, long: Option<seq<byte>>)
    ensures RegularFiles(TarEntries(files, long))
         == if |files| > 1 && long.Some? then files[1 := (long.value, files[1].1)] else files
  {
    var entries := TarEntries(files, long);
    RegularFilesOf(entries);
    if long.Some? {
      OneLongLink(long.value);
    }
    assert forall i :: 0 <= i < |files| ==>
             FullName(entries[i]) == if i == 1 && long.Some? then long.value else files[i].0;
  }

  /** The round trip through `make_tar`. */
  lemma UntarMakeTar(files: seq<(seq<byte>, seq<byte>)>, long: Option<seq<byte>>, tail: seq<byte>)
    requires Encodable(files, long)
    ensures AllPlain(TarEntries(files, long))
    ensures var expected := if |files| > 1 && long.Some? then files[1 := (long.value, files[1].1)] else files;
            Files(Records(None, ArchiveBytes(TarEntries(files, long)) + tail)) == expected
  {
    TarEntriesArePlain(files, long);
    FilesOfArchive(TarEntries(files, long), tail);
    RegularFilesOfTar(files, long);
  }

  // ---------- exactly which entries are read right ----------

  /** In front of any entries read right, and before any bytes, this entry leaves the result right. */
  ghost predicate RightInFront(e: Entry)
    requires WellFormed(e)
  {
    forall later, tail :: AllPlain(later) ==>
      Files(Records(None, ArchiveBytes([e] + later) + tail)) == RegularFiles([e] + later)
  }

  lemma FourParts(a: seq<byte>, b: seq<byte>, c: seq<byte>, d: seq<byte>)
    ensures (a + b) + c + d == a + (b + (c + d))
  {
  }

  lemma OneMore(e: Entry, later: seq<Entry>, tail: seq<byte>) returns (rest: seq<byte>)
    requires WellFormed(e) && AllPlain(later)
    ensures forall x :: x in [e] + later ==> WellFormed(x)
    ensures rest == ArchiveBytes(later) + tail
    ensures ArchiveBytes([e] + later) + tail == NameEntries(e.exts) + (OwnBytes(e) + rest)
    ensures RegularFiles([e] + later)
         == (if e.kind.Regular? then [(FullName(e), e.kind.data)] else []) + RegularFiles(later)
  {
    assert ([e] + later)[0] == e && ([e] + later)[1..] == later;
    rest := ArchiveBytes(later) + tail;
    FourParts(NameEntries(e.exts), OwnBytes(e), ArchiveBytes(later), tail);
  }

  /** A plain file, to stand behind another entry. */
  lemma Witness(name: seq<byte>) returns (e: Entry)
    requires |name| <= 100 && 0 !in name
    ensures e == Entry(Posix([]), name, [], Regular(48, [])) && Plain(e) && AllPlain([e])
    ensures RegularFiles([e]) == [(name, [])]
  {
    e := Entry(Posix([]), name, [], Regular(48, []));
    assert [e][1..] == [];
  }

  lemma ZerosHaveNoRecords(long: Option<seq<byte>>, rest: seq<byte>)
    requires AllZero(rest)
    ensures Records(long, rest) == []
  {
  }

  lemma JumpFrom(long: Option<seq<byte>>, h: seq<byte>, junk: nat, hidden: seq<byte>)
    requires IsHeader(h) && !AllZero(h) && h[TYPE_OFFSET] == TYPE_DIR && TarOctal(SizeField(h)) == junk
    requires |hidden| <= BlocksOf(junk)
    ensures Records(long, h + (hidden + Zeros(2 * BLOCK))) == []
  {
    var b := h + (hidden + Zeros(2 * BLOCK));
    assert b[..BLOCK] == h;
    var t := TurnOf(long, b);
    assert t == Next(None, long, BLOCK + BlocksOf(junk));
    var rest := Drop(b, t.used);
    assert AllZero(rest);
    RecordsUnfold(long, b, t);
    ZerosHaveNoRecords(long, rest);
    Regroup<Record>([], [], []);
  }

  /** A header that announces octal data jumps over everything that fits into it. */
  lemma JumpOver(long: Option<seq<byte>>, e: Entry, hidden: seq<byte>)
    requires WellFormed(e) && e.kind.Folder? && 0 < e.kind.junk < OCTAL_LIMIT && |hidden| <= BlocksOf(e.kind.junk)
    ensures Records(long, OwnBytes(e) + (hidden + Zeros(2 * BLOCK))) == []
  {
    var h, junk, _ := OwnHeaderReads(e);
    OctalLimit();
    OctalReadsBack(junk);
    JumpFrom(long, h, junk, hidden);
    NoBlocks();
    Regroup(h, [], []);
  }

  lemma {:induction false} EndsInZeros(entries: seq<Entry>) returns (front: seq<byte>)
    requires forall e :: e in entries ==> WellFormed(e)
    ensures ArchiveBytes(entries) == front + Zeros(2 * BLOCK)
  {
    if entries == [] {
      front := [];
      Regroup([], [], Zeros(2 * BLOCK));
    } else {
      var later := EndsInZeros(entries[1..]);
      front := EntryBytes(entries[0]) + later;
      Regroup(EntryBytes(entries[0]), later, Zeros(2 * BLOCK));
    }
  }

  lemma BehindJunk(dir: Entry, later: seq<Entry>)
    requires Sized(dir) && dir.kind.Folder? && 0 < dir.kind.junk < OCTAL_LIMIT
    requires AllPlain(later) && |ArchiveBytes(later)| <= BlocksOf(dir.kind.junk) + 2 * BLOCK
    ensures forall x :: x in [dir] + later ==> WellFormed(x)
    ensures Records(None, ArchiveBytes([dir] + later) + []) == []
  {
    var rest := OneMore(dir, later, []);
    WalkOwn(dir, rest);
    var hidden := EndsInZeros(later);
    Regroup(ArchiveBytes(later), [], []);
    JumpOver(Kept(dir.exts, None), dir, hidden);
  }

  /** A directory header that announces data it does not have, any octal size: the streaming parse goes
      on with the entries behind it, the buffered walk loses those the announced data covers. */
  lemma JunkHidesEntries(dir: Entry, later: seq<Entry>)
    requires Sized(dir) && dir.kind.Folder? && 0 < dir.kind.junk < OCTAL_LIMIT
    requires AllPlain(later) && |ArchiveBytes(later)| <= BlocksOf(dir.kind.junk) + 2 * BLOCK
    ensures forall x :: x in [dir] + later ==> WellFormed(x)
    ensures ParseTar(None, ArchiveBytes([dir] + later), false) == Archive(AllItems([dir] + later), true)
    ensures Files(Records(None, ArchiveBytes([dir] + later))) == []
  {
    Regroup(ArchiveBytes([dir] + later), [], []);
    ParseArchive([dir] + later, [], false);
    BehindJunk(dir, later);
  }

  lemma DifferentHeads<T>(a: T, b: T, x: seq<T>, y: seq<T>)
    requires a != b
    ensures [a] + x != [b] + y
  {
    assert ([a] + x)[0] == a && ([b] + y)[0] == b;
  }

  lemma NotRight(e: Entry, later: seq<Entry>, files: seq<(seq<byte>, seq<byte>)>)
    requires WellFormed(e) && AllPlain(later)
    requires Files(Records(None, ArchiveBytes([e] + later) + [])) == files != RegularFiles([e] + later)
    ensures !RightInFront(e)
  {
  }

  lemma WitnessBytes(file: Entry)
    requires Plain(file) && file.exts == [] && file.kind == Regular(48, [])
    ensures ArchiveBytes([file]) == EntryBytes(file) + Zeros(2 * BLOCK)
    ensures EntryBytes(file) == OwnBytes(file) && |OwnBytes(file)| == BLOCK
  {
    assert [file][1..] == [];
    NoBlocks();
    Regroup([], [], OwnBytes(file));
  }

  /** A directory with announced octal data is not read right: an empty file behind it is lost. */
  lemma JunkIsWrong(e: Entry)
    requires Sized(e) && e.kind.Folder? && !SeenEmpty(e.kind.junk)
    ensures !RightInFront(e)
  {
    var file := Witness([97]);
    WitnessBytes(file);
    BehindJunk(e, [file]);
    var rest := OneMore(e, [file], []);
    NotRight(e, [file], []);
  }

  /** An entry that is no file and has no data for these extractors but what they skip. */
  ghost predicate NoFile(e: Entry): (none: bool)
    ensures none ==> WellFormed(e)
  {
    Sized(e) && (e.kind.Skipped? || (e.kind.Folder? && SeenEmpty(e.kind.junk)))
  }

  /** A long name announced for an entry that is no file stays pending. */
  lemma NameStaysPending(e: Entry, rest: seq<byte>)
    requires NoFile(e)
    ensures Records(None, NameEntries(e.exts) + (OwnBytes(e) + rest)) == Records(Kept(e.exts, None), rest)
  {
    WalkOwn(e, rest);
    if e.kind.Folder? {
      RecordsOfDir(Kept(e.exts, None), e, rest);
    } else {
      RecordsOfContents(Kept(e.exts, None), e, rest);
    }
  }

  lemma RecordsOfRenamed(file: Entry, long: Option<seq<byte>>, rest: seq<byte>)
    requires Plain(file) && file.kind.Regular? && long.Some?
    requires |rest| >= BLOCK && AllZero(rest[..BLOCK])
    ensures Files(Records(long, OwnBytes(file) + rest)) == [(long.value, file.kind.data)]
  {
    RecordsOfContents(long, file, rest);
    assert Records(None, rest) == [];
  }

  /** It ends up on the next regular file, whatever that file's own name. */
  lemma NameSticks(e: Entry, file: Entry)
    requires NoFile(e) && Kept(e.exts, None).Some?
    requires Plain(file) && file.kind.Regular? && file.exts == []
    ensures forall x :: x in [e] + [file] ==> WellFormed(x)
    ensures Files(Records(None, ArchiveBytes([e] + [file]))) == [(Kept(e.exts, None).value, file.kind.data)]
  {
    assert AllPlain([file]);
    var rest := OneMore(e, [file], []);
    Regroup(ArchiveBytes([e] + [file]), [], []);
    NameStaysPending(e, rest);
    assert [file][1..] == [];
    Regroup(ArchiveBytes([file]), [], []);
    Regroup([], [], OwnBytes(file));
    RecordsOfRenamed(file, Kept(e.exts, None), Zeros(2 * BLOCK));
  }

  lemma StickingNameIsWrong(e: Entry)
    requires NoFile(e) && Kept(e.exts, None).Some?
    ensures !RightInFront(e)
  {
    var kept := Kept(e.exts, None).value;
    var name: seq<byte> := if kept == [97] then [98] else [97];
    var file := Witness(name);
    var rest := OneMore(e, [file], []);
    NameSticks(e, file);
    Regroup(ArchiveBytes([e] + [file]), [], []);
    DifferentHeads((kept, file.kind.data), (name, file.kind.data), [], []);
    NotRight(e, [file], [(kept, file.kind.data)] + []);
  }

  lemma FilesOfFirst(r: Record, after: seq<Record>)
    ensures Files([r] + after) == [NameAndData(r)] + Files(after)
  {
    assert ([r] + after)[1..] == after;
  }

  lemma HugeReadsEmpty(e: Entry, long: Option<seq<byte>>, rest: seq<byte>) returns (read: Record, after: seq<Record>)
    requires WellFormed(e) && e.kind.Regular? && e.kind.typeflag != 55 && |e.kind.data| >= OCTAL_LIMIT
    ensures Records(long, OwnBytes(e) + rest) == [read] + after && read.data == []
  {
    var h, size, _ := OwnHeaderReads(e);
    Base256ReadsAsZero(size);
    Regroup(h, Blocks(e.kind.data), rest);
    var tail := Blocks(e.kind.data) + rest;
    NoBlocks();
    TurnAtHeader(long, h, [], tail);
    Regroup([], [], tail);
    read, after := EntryTurn(long, h, 0, []).record.value, Records(None, tail);
  }

  /** What a wrong first record makes of the result. */
  lemma FirstIsWrong(e: Entry, read: Record, after: seq<Record>, rest: seq<byte>)
    requires Sized(e) && e.kind.Regular? && NameAndData(read) != (FullName(e), e.kind.data)
    requires rest == ArchiveBytes([]) + [] && Records(Kept(e.exts, None), OwnBytes(e) + rest) == [read] + after
    ensures !RightInFront(e)
  {
    var rest' := OneMore(e, [], []);
    WalkOwn(e, rest);
    FilesOfFirst(read, after);
    DifferentHeads(NameAndData(read), (FullName(e), e.kind.data), Files(after), RegularFiles([]));
    NotRight(e, [], [NameAndData(read)] + Files(after));
  }

  /** A file from the octal limit on is read as empty. */
  lemma HugeIsWrong(e: Entry)
    requires Sized(e) && e.kind.Regular? && e.kind.typeflag != 55 && |e.kind.data| >= OCTAL_LIMIT
    ensures !RightInFront(e)
  {
    var rest := ArchiveBytes([]) + [];
    var read, after := HugeReadsEmpty(e, Kept(e.exts, None), rest);
    FirstIsWrong(e, read, after, rest);
  }

  /** A file that is named by a pax header or a prefix is read under another name. */
  lemma OtherNameIsWrong(e: Entry)
    requires Sized(e) && e.kind.Regular? && e.kind.typeflag != 55 && |e.kind.data| < OCTAL_LIMIT
    requires KeptName(e) != FullName(e)
    ensures !RightInFront(e)
  {
    var rest := ArchiveBytes([]) + [];
    RecordsOfContents(Kept(e.exts, None), e, rest);
    FirstIsWrong(e, Record(KeptName(e), |e.kind.data|, e.kind.data), Records(None, rest), rest);
  }

  /** A contiguous file, type `7`, is skipped. */
  lemma ContiguousIsWrong(e: Entry)
    requires Sized(e) && e.kind.Regular? && e.kind.typeflag == 55
    ensures !RightInFront(e)
  {
    var rest := OneMore(e, [], []);
    WalkOwn(e, rest);
    RecordsOfContents(Kept(e.exts, None), e, rest);
    ZerosHaveNoRecords(Kept(e.exts, None), rest);
    NotRight(e, [], []);
  }

  lemma {:induction false} SameLongName(exts: seq<Extension>, long: Option<seq<byte>>)
    requires forall i :: 0 <= i < |exts| ==> exts[i].LongLink? || PathOf(exts[i].fields) == None
    ensures LongName(exts, long) == Kept(exts, long)
    decreases |exts|
  {
    if exts != [] {
      SameLongName(exts[1..], Announced(exts[0], long));
    }
  }

  /** Without pax paths, a name is known to them unless it is a POSIX one with a prefix and no long name. */
  lemma KnownNameExactly(e: Entry)
    requires forall i :: 0 <= i < |e.exts| ==> e.exts[i].LongLink? || PathOf(e.exts[i].fields) == None
    ensures KeptName(e) == FullName(e) <==> e.style.Gnu? || e.style.prefix == [] || Kept(e.exts, None).Some?
  {
    SameLongName(e.exts, None);
    assert |NameUnder(e.style, e.short)| > |e.short| <==> e.style.Posix? && e.style.prefix != [];
  }

  /** Exactly the plain entries are read right in front of every archive of plain entries. */
  lemma RightExactlyWhenPlain(e: Entry)
    requires Sized(e)
    ensures RightInFront(e) <==> Plain(e)
  {
    if Plain(e) {
      forall later, tail | AllPlain(later)
        ensures Files(Records(None, ArchiveBytes([e] + later) + tail)) == RegularFiles([e] + later)
      {
        FilesOfArchive([e] + later, tail);
      }
    } else if e.kind.Regular? {
      if e.kind.typeflag == 55 {
        ContiguousIsWrong(e);
      } else if |e.kind.data| >= OCTAL_LIMIT {
        HugeIsWrong(e);
      } else {
        OtherNameIsWrong(e);
      }
    } else if e.kind.Folder? && !SeenEmpty(e.kind.junk) {
      JunkIsWrong(e);
    } else {
      StickingNameIsWrong(e);
    }
  }
}
