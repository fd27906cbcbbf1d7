/** Archives as archivers write them: entries, their extension entries, and the bytes they become. */
module TarArchive {
  import opened Bytes
  import opened TarHeader
  import opened TarParse

  // ---------- pax records ----------

  /** One record, `<length> <key>=<value>` and a line end. */
  datatype PaxField = PaxField(length: seq<byte>, key: seq<byte>, value: seq<byte>, ending: seq<byte>)

  /** The line ends at LF or CRLF, and nowhere before; a CR in front of a bare LF belongs to the line end. */
  ghost predicate ProperField(f: PaxField) {
    && LF !in f.length && 32 !in f.length && LF !in f.key && 61 !in f.key && LF !in f.value
    && (f.ending == CRLF || (f.ending == [LF] && (f.value != [] ==> f.value[|f.value| - 1] != CR)))
  }

  function PaxLine(f: PaxField): seq<byte> {
    f.length + ([32] + (f.key + ([61] + f.value)))
  }

  function PaxData(fields: seq<PaxField>): seq<byte> {
    if fields == [] then [] else PaxLine(fields[0]) + fields[0].ending + PaxData(fields[1..])
  }

  /** `path` */
  const PATH: seq<byte> := [112, 97, 116, 104]

  /** The path the records announce: the first one counts. */
  function PathOf(fields: seq<PaxField>): Option<seq<byte>> {
    if fields == [] then None
    else if fields[0].key == PATH then Some(fields[0].value)
    else PathOf(fields[1..])
  }

  lemma KeyMatches(key: seq<byte>, value: seq<byte>)
    requires 61 !in key
    ensures var pair := key + ([61] + value);
            (PATH_KEY <= pair <==> key == PATH) && (key == PATH ==> pair[|PATH_KEY|..] == value)
  {
    var pair := key + ([61] + value);
    if PATH_KEY <= pair {
      assert pair[|key|] == 61;
      assert pair[0] == 112 && pair[1] == 97 && pair[2] == 116 && pair[3] == 104 && pair[4] == 61;
      assert |key| == 4;
      assert key == pair[..4] == PATH;
    }
    if key == PATH {
      assert pair == PATH_KEY + value;
    }
  }

  lemma RecordReads(f: PaxField)
    requires 32 !in f.length && 61 !in f.key
    ensures PaxRecordPath(PaxLine(f)) == if f.key == PATH then Some(f.value) else None
  {
    var pair := f.key + ([61] + f.value);
    UpToEnd(f.length, [32] + pair, 32);
    assert PaxLine(f)[|f.length| + 1..] == pair;
    KeyMatches(f.key, f.value);
  }

  /** The line and its CR, if it has one, in front of the LF. */
  lemma LineParts(f: PaxField, rest: seq<byte>) returns (line: seq<byte>)
    requires ProperField(f)
    ensures LF !in line && PaxLine(f) + f.ending + rest == line + ([LF] + rest) && DropCr(line) == PaxLine(f)
  {
    if f.ending == CRLF {
      line := PaxLine(f) + [CR];
    } else {
      line := PaxLine(f);
      assert line[|line| - 1] == if f.value == [] then 61 else f.value[|f.value| - 1];
    }
  }

  lemma FirstRecord(f: PaxField, rest: seq<byte>)
    requires ProperField(f)
    ensures PaxPath(PaxLine(f) + f.ending + rest) == if f.key == PATH then Some(f.value) else PaxPath(rest)
  {
    var line := LineParts(f, rest);
    var meta := line + ([LF] + rest);
    UpToEnd(line, [LF] + rest, LF);
    assert meta[|line| + 1..] == rest;
    RecordReads(f);
  }

  /** The records of a pax header name the next entry by their first `path`. */
  lemma {:induction false} PaxReadsBack(fields: seq<PaxField>)
    requires forall i :: 0 <= i < |fields| ==> ProperField(fields[i])
    ensures PaxPath(PaxData(fields)) == PathOf(fields)
  {
    if fields != [] {
      PaxReadsBack(fields[1..]);
      FirstRecord(fields[0], PaxData(fields[1..]));
    }
  }

  lemma FrontOfLine(f: PaxField) returns (front: seq<byte>)
    ensures front == f.length + [32] + f.key + [61] && PaxLine(f) == front + f.value
  {
    front := f.length + [32] + f.key + [61];
  }

  lemma CutAtLf(front: seq<byte>, a: seq<byte>, b: seq<byte>)
    ensures (front + (a + [LF] + b)) + [LF] == (front + a) + [LF] + (b + [LF])
  {
  }

  /** POSIX counts a record's bytes, so a path may hold a line feed; here it is cut there. */
  lemma NewlineCutsPath(length: seq<byte>, a: seq<byte>, b: seq<byte>)
    requires ProperField(PaxField(length, PATH, a, [LF]))
    ensures PaxPath(PaxLine(PaxField(length, PATH, a + [LF] + b, [LF])) + [LF]) == Some(a)
  {
    var f := PaxField(length, PATH, a, [LF]);
    var front := FrontOfLine(f);
    front := FrontOfLine(PaxField(length, PATH, a + [LF] + b, [LF]));
    CutAtLf(front, a, b);
    FirstRecord(f, b + [LF]);
  }

  /** A last record without its line end is read too, with a CR at its end if it has one. */
  lemma OpenRecord(length: seq<byte>, path: seq<byte>)
    requires LF !in length && 32 !in length && LF !in path
    ensures PaxPath(PaxLine(PaxField(length, PATH, path, []))) == Some(path)
  {
    var f := PaxField(length, PATH, path, []);
    UpToNothing(PaxLine(f), LF);
    RecordReads(f);
  }

  // ---------- entries ----------

  /** An entry that says something about the next one. `rest` is what may follow the NUL of a long name. */
  datatype Extension = LongLink(name: seq<byte>, rest: seq<byte>) | PaxHeader(fields: seq<PaxField>)

  function MetaData(x: Extension): seq<byte> {
    match x
    case LongLink(name, rest) => name + rest
    case PaxHeader(fields) => PaxData(fields)
  }

  /** `VEC_LIMIT` bounds what a byte vector can hold. */
  ghost predicate ProperExtension(x: Extension) {
    && |MetaData(x)| < VEC_LIMIT
    && match x
       case LongLink(name, rest) => 0 !in name && (rest == [] || rest[0] == 0)
       case PaxHeader(fields) => forall i :: 0 <= i < |fields| ==> ProperField(fields[i])
  }

  /** The long name that is pending behind it. */
  function Announced(x: Extension, long: Option<seq<byte>>): Option<seq<byte>> {
    match x
    case LongLink(name, _) => Some(name)
    case PaxHeader(fields) => if PathOf(fields).Some? then PathOf(fields) else long
  }

  function LongName(exts: seq<Extension>, long: Option<seq<byte>>): Option<seq<byte>> {
    if exts == [] then long else LongName(exts[1..], Announced(exts[0], long))
  }

  /** `junk` is the size a directory header may carry with no data behind it; `Skipped` stands for links,
      global headers and the like. */
  datatype Kind =
    | Folder(junk: nat)
    | Regular(typeflag: byte, data: seq<byte>)
    | Skipped(typeflag: byte, body: seq<byte>)

  /** An entry as an archiver writes it: `short` fills its header's name field, and the extension entries
      `exts` travel before it. */
  datatype Entry = Entry(style: Style, short: seq<byte>, exts: seq<Extension>, kind: Kind)

  /** The long name announced for it, or else what its header says. */
  function FullName(e: Entry): seq<byte> {
    if LongName(e.exts, None).Some? then LongName(e.exts, None).value else NameUnder(e.style, e.short)
  }

  ghost predicate AllProper(exts: seq<Extension>) {
    forall i :: 0 <= i < |exts| ==> ProperExtension(exts[i])
  }

  /** Regular files have the type `0`, NUL or `7`, directories `5`, extension entries `L` or `x`. */
  ghost predicate WellFormed(e: Entry) {
    && |e.short| <= 100 && 0 !in e.short && ProperStyle(e.style) && AllProper(e.exts)
    && match e.kind
       case Folder(junk) => junk < U64_LIMIT
       case Regular(typeflag, data) => (typeflag == 48 || typeflag == 0 || typeflag == 55) && |data| < VEC_LIMIT
       case Skipped(typeflag, body) =>
         && typeflag != 48 && typeflag != 0 && typeflag != 55 && typeflag != 53 && typeflag != 76 && typeflag != 120
         && |body| < VEC_LIMIT
  }

  // ---------- their bytes ----------

  /** Data padded to whole blocks. */
  function Blocks(data: seq<byte>): seq<byte>
    requires |data| < VEC_LIMIT
  {
    data + Zeros(Padding(|data|))
  }

  /** `././@LongLink` and `PaxHeader` */
  const LONG_LINK: seq<byte> := [46, 47, 46, 47, 64, 76, 111, 110, 103, 76, 105, 110, 107]
  const PAX_HEADER: seq<byte> := [80, 97, 120, 72, 101, 97, 100, 101, 114]

  function ExtensionHeader(x: Extension): (h: seq<byte>)
    requires ProperExtension(x)
    ensures IsHeader(h)
  {
    match x
    case LongLink(_, _) => Header(LONG_LINK, |MetaData(x)|, 76, Posix([]))
    case PaxHeader(_) => Header(PAX_HEADER, |MetaData(x)|, 120, Posix([]))
  }

  function ExtensionBytes(x: Extension): seq<byte>
    requires ProperExtension(x)
  {
    ExtensionHeader(x) + Blocks(MetaData(x))
  }

  function NameEntries(exts: seq<Extension>): seq<byte>
    requires AllProper(exts)
  {
    if exts == [] then [] else ExtensionBytes(exts[0]) + NameEntries(exts[1..])
  }

  /** What stands behind the header. */
  function Contents(e: Entry): seq<byte> {
    match e.kind
    case Folder(_) => []
    case Regular(_, data) => data
    case Skipped(_, body) => body
  }

  function TypeOf(e: Entry): byte {
    match e.kind
    case Folder(_) => 53
    case Regular(typeflag, _) => typeflag
    case Skipped(typeflag, _) => typeflag
  }

  /** What its header announces: only a directory's may be false. */
  function AnnouncedSize(e: Entry): nat {
    if e.kind.Folder? then e.kind.junk else |Contents(e)|
  }

  function OwnHeader(e: Entry): (h: seq<byte>)
    requires WellFormed(e)
    ensures IsHeader(h)
  {
    Header(e.short, AnnouncedSize(e), TypeOf(e), e.style)
  }

  function OwnBytes(e: Entry): seq<byte>
    requires WellFormed(e)
  {
    OwnHeader(e) + Blocks(Contents(e))
  }

  function EntryBytes(e: Entry): seq<byte>
    requires WellFormed(e)
  {
    NameEntries(e.exts) + OwnBytes(e)
  }

  function ArchiveBytes(entries: seq<Entry>): seq<byte>
    requires forall e :: e in entries ==> WellFormed(e)
  {
    if entries == [] then Zeros(2 * BLOCK)
    else EntryBytes(entries[0]) + ArchiveBytes(entries[1..])
  }

  /** What an entry asks for: nothing when its name has no usable component. */
  function EntryItems(e: Entry): seq<Item> {
    var parts := Parts(FullName(e));
    if parts == [] then []
    else
      match e.kind
      case Folder(_) => [MakeDir(parts)]
      case Regular(_, data) => [PutFile(parts, data, true)]
      case Skipped(_, _) => []
  }

  function AllItems(entries: seq<Entry>): seq<Item> {
    if entries == [] then [] else EntryItems(entries[0]) + AllItems(entries[1..])
  }

  lemma BlocksAligned(data: seq<byte>)
    requires |data| < VEC_LIMIT
    ensures |Blocks(data)| == Padded(|data|) == |data| + Padding(|data|)
  {
    PaddingIsExact(|data|);
  }

  lemma NoBlocks()
    ensures Blocks([]) == []
  {
    PaddingIsExact(0);
  }
}
