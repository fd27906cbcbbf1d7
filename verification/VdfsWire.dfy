/** The file plane's wire format: requests, frames, attributes and directory listings. */
module VdfsWire {
  import opened Bytes

  // ---------- requests ----------

  const LIST: byte := 2
  const STAT: byte := 3
  const READ: byte := 6

  /** `0123456789abcdef` */
  const CONST16: seq<byte> := [48, 49, 50, 51, 52, 53, 54, 55, 56, 57, 97, 98, 99, 100, 101, 102]

  datatype Request = Request(cmd: byte, size: nat, offset: nat, name: seq<byte>)

  function NameField(name: seq<byte>): seq<byte> {
    BigEndian(4, |name|) + name
  }

  /** What follows the command byte. */
  function Body(r: Request): seq<byte> {
    if r.cmd == READ then BigEndian(8, r.size) + BigEndian(8, r.offset) + NameField(r.name) else NameField(r.name)
  }

  function Plaintext(s: byte, r: Request): (pt: seq<byte>)
    ensures |pt| == 22 + |Body(r)|
  {
    [5, 0, 0, 0] + [s] + CONST16 + [r.cmd] + Body(r)
  }

  /** A request the client makes: attributes, a listing, or a range of 64-bit size and offset. */
  predicate Makeable(r: Request) {
    || ((r.cmd == LIST || r.cmd == STAT) && r.size == 0 && r.offset == 0)
    || (r.cmd == READ && r.size < U64_LIMIT && r.offset < U64_LIMIT)
  }

  /** `b.get(at..at + n)` */
  function Get(b: seq<byte>, at: nat, n: nat): (r: Option<seq<byte>>)
    ensures r.Some? <==> at + n <= |b|
    ensures r.Some? ==> |r.value| == n
  {
    if at + n <= |b| then Some(b[at..at + n]) else None
  }

  /** A length-prefixed name at offset `at`; bytes after it do not matter. */
  function ParseName(body: seq<byte>, at: nat): (name: Option<seq<byte>>)
    ensures name.Some? ==> |body| >= at + 4 + |name.value|
  {
    match Get(body, at, 4)
    case Some(n) => Get(body, at + 4, FromBigEndian(n))
    case None => None
  }

  function ParseRequest(pt: seq<byte>): Option<Request> {
    if |pt| < 22 then None
    else
      var cmd, body := pt[21], pt[22..];
      if cmd == LIST || cmd == STAT then
        match ParseName(body, 0)
        case Some(name) => Some(Request(cmd, 0, 0, name))
        case None => None
      else if cmd == READ then
        match (Get(body, 0, 8), Get(body, 8, 8), ParseName(body, 16))
        case (Some(size), Some(offset), Some(name)) =>
          Some(Request(cmd, FromBigEndian(size), FromBigEndian(offset), name))
        case _ => None
      else None
  }

  /** The length field keeps 32 bits of the name's length, so that many bytes of it come back. */
  lemma NameReadsBack(front: seq<byte>, name: seq<byte>, tail: seq<byte>)
    ensures ParseName(front + (NameField(name) + tail), |front|) == Some(name[..|name| % 0x1_0000_0000])
  {
    var b := front + (NameField(name) + tail);
    var n := BigEndian(4, |name|);
    assert b[|front|..|front| + 4] == n;
    BigEndianRoundTrip(4, |name|);
    Spans();
    var kept := |name| % 0x1_0000_0000;
    assert b[|front| + 4..|front| + 4 + kept] == name[..kept];
  }

  lemma ReadReadsBack(pt: seq<byte>, r: Request, tail: seq<byte>)
    requires r.cmd == READ && r.size < U64_LIMIT && r.offset < U64_LIMIT
    requires |pt| >= 22 && pt[21] == READ && pt[22..] == Body(r) + tail
    ensures ParseRequest(pt) == Some(r.(name := r.name[..|r.name| % 0x1_0000_0000]))
  {
    var size, offset := BigEndian(8, r.size), BigEndian(8, r.offset);
    var body := (size + offset) + (NameField(r.name) + tail);
    assert pt[22..] == body;
    assert body[..8] == size && body[8..16] == offset;
    Spans();
    BigEndianFits(8, r.size);
    BigEndianFits(8, r.offset);
    NameReadsBack(size + offset, r.name, tail);
  }

  lemma NameRequestReadsBack(pt: seq<byte>, r: Request, tail: seq<byte>)
    requires (r.cmd == LIST || r.cmd == STAT) && r.size == 0 && r.offset == 0
    requires |pt| >= 22 && pt[21] == r.cmd && pt[22..] == Body(r) + tail
    ensures ParseRequest(pt) == Some(r.(name := r.name[..|r.name| % 0x1_0000_0000]))
  {
    assert pt[22..] == [] + (NameField(r.name) + tail);
    NameReadsBack([], r.name, tail);
  }

  lemma PlaintextFields(s: byte, cmd: byte, body: seq<byte>, tail: seq<byte>)
    ensures var pt := [5, 0, 0, 0] + [s] + CONST16 + [cmd] + body + tail;
            |pt| >= 22 && pt[21] == cmd && pt[22..] == body + tail
  {
  }

  /** The bytes in front of what a request says. */
  lemma RequestLayout(s: byte, r: Request)
    ensures var pt := Plaintext(s, r);
            && pt[0] == 5 && pt[1] == pt[2] == pt[3] == 0 && pt[4] == s && pt[21] == r.cmd
            && forall i :: 0 <= i < 16 ==> pt[5 + i] == "0123456789abcdef"[i] as int
  {
  }

  /** Parsing a request gives it back, with its name cut to what the 32-bit length says of it:
      the whole name exactly when it is shorter than 4 GiB. */
  lemma RequestReadsBack(s: byte, r: Request, tail: seq<byte>)
    requires Makeable(r)
    ensures ParseRequest(Plaintext(s, r) + tail) == Some(r.(name := r.name[..|r.name| % 0x1_0000_0000]))
    ensures |r.name| < U32_LIMIT <==> ParseRequest(Plaintext(s, r) + tail) == Some(r)
  {
    var pt := Plaintext(s, r) + tail;
    PlaintextFields(s, r.cmd, Body(r), tail);
    if r.cmd == READ {
      ReadReadsBack(pt, r, tail);
    } else {
      NameRequestReadsBack(pt, r, tail);
    }
    assert |r.name| < U32_LIMIT ==> r.name[..|r.name|] == r.name;
  }

  /** What is built parses back to the request exactly when 32 bits can say the name's length. */
  method BuildPlaintext(s: byte, r: Request) returns (pt: seq<byte>)
    ensures pt == Plaintext(s, r)
    ensures Makeable(r) ==> (ParseRequest(pt) == Some(r) <==> |r.name| < U32_LIMIT)
  {
    var body: seq<byte> := [];
    if r.cmd == READ {
      body := body + BigEndian(8, r.size);
      body := body + BigEndian(8, r.offset);
    }
    body := body + BigEndian(4, |r.name|);
    body := body + r.name;
    assert body == Body(r);
    pt := [5, 0, 0, 0];
    pt := pt + [s];
    pt := pt + CONST16;
    pt := pt + [r.cmd];
    pt := pt + body;
    if Makeable(r) {
      RequestReadsBack(s, r, []);
      assert pt + [] == pt;
    }
  }

  lemma NameBytes(body: seq<byte>, at: nat)
    requires ParseName(body, at).Some?
    ensures var name := ParseName(body, at).value;
            body[at..at + 4 + |name|] == NameField(name)
  {
    var name := ParseName(body, at).value;
    BigEndianOfRead(body[at..at + 4]);
    assert body[at..at + 4 + |name|] == body[at..at + 4] + body[at + 4..at + 4 + |name|];
  }

  /** What parses was written that way: the bytes read are the ones the request is made of. */
  lemma ParsedRequestIsItsBytes(pt: seq<byte>)
    requires ParseRequest(pt).Some?
    ensures var r := ParseRequest(pt).value;
            && Makeable(r) && |pt| >= 22 + |Body(r)| && pt[21] == r.cmd && pt[22..22 + |Body(r)|] == Body(r)
            && (r.cmd == 2 || r.cmd == 3 || r.cmd == 6)
  {
    var r, body := ParseRequest(pt).value, pt[22..];
    Spans();
    if r.cmd == READ {
      FromBigEndianBound(body[..8]);
      FromBigEndianBound(body[8..16]);
      BigEndianOfRead(body[..8]);
      BigEndianOfRead(body[8..16]);
      NameBytes(body, 16);
      assert body[..16] == body[..8] + body[8..16];
      assert Body(r) == body[..16] + NameField(r.name);
      assert body[..20 + |r.name|] == body[..16] + body[16..20 + |r.name|];
      assert pt[22..22 + |Body(r)|] == body[..|Body(r)|];
    } else {
      NameBytes(body, 0);
      assert pt[22..22 + |Body(r)|] == body[..|Body(r)|];
    }
  }

  // ---------- frames ----------

  const REQUEST_CT_OFFSET: nat := 24
  const RESPONSE_CT_OFFSET: nat := 22

  function RequestFrame(tag: seq<byte>, ct: seq<byte>): (frame: seq<byte>)
    requires |tag| == 16
    ensures |frame| == REQUEST_CT_OFFSET + |ct|
  {
    BigEndian(8, 24 + |ct|) + tag + ct
  }

  function ResponseFrame(tag: seq<byte>, ct: seq<byte>): (frame: seq<byte>)
    requires |tag| == 16
    ensures |frame| == RESPONSE_CT_OFFSET + |ct|
  {
    [3] + BigEndian(4, |ct| + 17) + [0] + tag + ct
  }

  /** `frame.get(at..)` */
  function Ciphertext(frame: seq<byte>, at: nat): Option<seq<byte>> {
    if at <= |frame| then Some(frame[at..]) else None
  }

  /** The prefix of a request frame is its length, and the cipher text starts where it is looked for. */
  lemma RequestFrameReadsBack(tag: seq<byte>, ct: seq<byte>)
    requires |tag| == 16 && |ct| < VEC_LIMIT
    ensures var frame := RequestFrame(tag, ct);
            FromBigEndian(frame[..8]) == |frame| && Ciphertext(frame, REQUEST_CT_OFFSET) == Some(ct)
  {
    Spans();
    BigEndianFits(8, 24 + |ct|);
    assert RequestFrame(tag, ct)[..8] == BigEndian(8, 24 + |ct|);
  }

  /** The length a response header announces is the frame's own exactly while 32 bits can say it. */
  lemma ResponseFrameReadsBack(tag: seq<byte>, ct: seq<byte>)
    requires |tag| == 16
    ensures var frame := ResponseFrame(tag, ct);
            && frame[0] == 3 && Ciphertext(frame, RESPONSE_CT_OFFSET) == Some(ct)
            && (5 + FromBigEndian(frame[1..5]) == |frame| <==> |ct| + 17 < U32_LIMIT)
  {
    Spans();
    BigEndianRoundTrip(4, |ct| + 17);
    assert ResponseFrame(tag, ct)[1..5] == BigEndian(4, |ct| + 17);
  }

  /** Where the tag stands, and the bytes around the length. */
  lemma FrameLayout(tag: seq<byte>, ct: seq<byte>)
    requires |tag| == 16
    ensures RequestFrame(tag, ct)[8..24] == tag && ResponseFrame(tag, ct)[6..22] == tag
    ensures ResponseFrame(tag, ct)[0] == 3 && ResponseFrame(tag, ct)[5] == 0
  {
  }

  // ---------- attributes ----------

  const STAT_LEN: nat := 74
  const MODE_OFFSET: nat := 12
  const SIZE_OFFSET: nat := 30
  const MTIME_OFFSET: nat := 58

  datatype Stat = Stat(mode: nat, size: nat, mtime: nat)

  function ParseStat(pt: seq<byte>): Option<Stat> {
    if |pt| < STAT_LEN then None
    else Some(Stat(FromBigEndian(pt[MODE_OFFSET..MODE_OFFSET + 4]), FromBigEndian(pt[SIZE_OFFSET..SIZE_OFFSET + 8]),
                   FromBigEndian(pt[MTIME_OFFSET..MTIME_OFFSET + 8])))
  }

  // ---------- directory listings ----------

  datatype DirEntry = DirEntry(name: seq<byte>, dType: byte)

  const ENTRY_HEADER: nat := 15

  function EntryImage(e: DirEntry): (b: seq<byte>)
    ensures |b| == ENTRY_HEADER + |e.name| + 1
  {
    BigEndian(4, 0) + BigEndian(8, 0) + BigEndian(2, |e.name|) + [e.dType] + e.name + [0]
  }

  function ListImage(entries: seq<DirEntry>): seq<byte> {
    if entries == [] then [] else EntryImage(entries[0]) + ListImage(entries[1..])
  }

  /** The names a listing drops: empty, `.` and `..`. */
  predicate Dropped(name: seq<byte>) {
    name == [] || name == [46] || name == [46, 46]
  }

  function KeptOne(e: DirEntry): seq<DirEntry> {
    if Dropped(e.name) then [] else [e]
  }

  function Kept(entries: seq<DirEntry>): seq<DirEntry> {
    if entries == [] then [] else KeptOne(entries[0]) + Kept(entries[1..])
  }

  /** One entry among others: dropped when it has no name, or names the directory itself or the one above. */
  lemma {:induction false} KeptAmong(before: seq<DirEntry>, e: DirEntry, after: seq<DirEntry>)
    ensures Kept(before + ([e] + after))
         == Kept(before) + ((if e.name == [] || e.name == [46] || e.name == [46, 46] then [] else [e]) + Kept(after))
  {
    var all := before + ([e] + after);
    if before == [] {
      assert all == [e] + after && ([e] + after)[1..] == after;
    } else {
      KeptAmong(before[1..], e, after);
      assert all[0] == before[0] && all[1..] == before[1..] + ([e] + after);
      Regroup(KeptOne(before[0]), Kept(before[1..]), Kept([e] + after));
    }
  }

  /** The first entry of a listing and how far it reaches, or nothing when it is cut short. The NUL
      after the last name may be missing. */
  function FirstEntry(b: seq<byte>): (r: Option<DirEntry>)
    ensures r.Some? ==> |b| >= ENTRY_HEADER + |r.value.name|
  {
    if |b| < ENTRY_HEADER then None
    else
      var n := FromBigEndian(b[12..14]);
      if |b| < ENTRY_HEADER + n then None else Some(DirEntry(b[ENTRY_HEADER..ENTRY_HEADER + n], b[14]))
  }

  function AfterEntry(b: seq<byte>, e: DirEntry): (rest: seq<byte>)
    requires |b| >= ENTRY_HEADER + |e.name|
    ensures |rest| < |b|
  {
    b[Min(ENTRY_HEADER + |e.name| + 1, |b|)..]
  }

  function ParseList(b: seq<byte>): seq<DirEntry>
    decreases |b|
  {
    match FirstEntry(b)
    case Some(e) => KeptOne(e) + ParseList(AfterEntry(b, e))
    case None => []
  }

  ghost predicate ShortNames(entries: seq<DirEntry>) {
    forall i :: 0 <= i < |entries| ==> |entries[i].name| < U16_LIMIT
  }

  lemma EntryFields(zeros: seq<byte>, len: seq<byte>, dType: byte, name: seq<byte>, tail: seq<byte>)
    requires |zeros| == 12 && |len| == 2
    ensures var b := zeros + len + [dType] + name + [0] + tail;
            && |b| == 16 + |name| + |tail| && b[12..14] == len && b[14] == dType && b[15..15 + |name|] == name
            && b[16 + |name|..] == tail
  {
  }

  lemma FirstEntryOfImage(e: DirEntry, tail: seq<byte>)
    requires |e.name| < U16_LIMIT
    ensures FirstEntry(EntryImage(e) + tail) == Some(e) && AfterEntry(EntryImage(e) + tail, e) == tail
  {
    EntryFields(BigEndian(4, 0) + BigEndian(8, 0), BigEndian(2, |e.name|), e.dType, e.name, tail);
    Spans();
    BigEndianFits(2, |e.name|);
  }

  lemma {:induction false} ParseListImage(entries: seq<DirEntry>)
    requires ShortNames(entries)
    ensures ParseList(ListImage(entries)) == Kept(entries)
  {
    if entries != [] {
      ParseListImage(entries[1..]);
      FirstEntryOfImage(entries[0], ListImage(entries[1..]));
    }
  }

  lemma {:induction false} ParsedNamesAreShort(b: seq<byte>)
    ensures ShortNames(ParseList(b))
    decreases |b|
  {
    match FirstEntry(b)
    case Some(e) =>
      FromBigEndianBound(b[12..14]);
      Spans();
      ParsedNamesAreShort(AfterEntry(b, e));
    case None =>
  }

  lemma ShortBoth(a: seq<DirEntry>, b: seq<DirEntry>)
    requires ShortNames(a + b)
    ensures ShortNames(a) && ShortNames(b)
  {
    assert forall i :: 0 <= i < |a| ==> a[i] == (a + b)[i];
    assert forall i :: 0 <= i < |b| ==> b[i] == (a + b)[|a| + i];
  }

  /** A name too long is never one of those dropped. */
  lemma {:induction false} KeptLongName(entries: seq<DirEntry>, i: nat)
    requires i < |entries| && |entries[i].name| >= U16_LIMIT
    ensures !ShortNames(Kept(entries))
  {
    var first, rest := KeptOne(entries[0]), Kept(entries[1..]);
    if i == 0 {
      assert (first + rest)[0] == entries[0];
    } else {
      KeptLongName(entries[1..], i - 1);
      if ShortNames(first + rest) {
        ShortBoth(first, rest);
      }
    }
  }

  /** A listing reads back, without the names it drops, exactly when every name fits its 16-bit
      length. */
  lemma ListReadsBack(entries: seq<DirEntry>)
    ensures ParseList(ListImage(entries)) == Kept(entries) <==> ShortNames(entries)
  {
    if ShortNames(entries) {
      ParseListImage(entries);
    } else {
      var i :| 0 <= i < |entries| && |entries[i].name| >= U16_LIMIT;
      KeptLongName(entries, i);
      ParsedNamesAreShort(ListImage(entries));
    }
  }

  lemma FirstEntryStays(b: seq<byte>, k: nat)
    requires k <= |b| && FirstEntry(b[..k]).Some?
    ensures FirstEntry(b) == FirstEntry(b[..k])
  {
    var n := FromBigEndian(b[12..14]);
    assert b[..k][12..14] == b[12..14];
    assert b[..k][ENTRY_HEADER..ENTRY_HEADER + n] == b[ENTRY_HEADER..ENTRY_HEADER + n];
  }

  /** Any listing cut anywhere parses to a prefix of what the whole parses to. */
  lemma {:induction false} CutListIsPrefix(b: seq<byte>, k: nat)
    requires k <= |b|
    ensures ParseList(b[..k]) <= ParseList(b)
    decreases |b|
  {
    match FirstEntry(b[..k])
    case None =>
    case Some(e) =>
      FirstEntryStays(b, k);
      var used := ENTRY_HEADER + |e.name| + 1;
      if used < k {
        assert AfterEntry(b[..k], e) == AfterEntry(b, e)[..k - used];
        CutListIsPrefix(AfterEntry(b, e), k - used);
      } else {
        assert AfterEntry(b[..k], e) == [];
      }
  }

  lemma ListImageStep(entries: seq<DirEntry>, k: nat, out: seq<byte>)
    requires k < |entries|
    ensures out + ListImage(entries[k..]) == (out + EntryImage(entries[k])) + ListImage(entries[k + 1..])
  {
    assert entries[k..][1..] == entries[k + 1..];
    var image, later := EntryImage(entries[k]), ListImage(entries[k + 1..]);
    assert out + (image + later) == (out + image) + later;
  }

  method SerializeList(entries: seq<DirEntry>) returns (out: seq<byte>)
    ensures out == ListImage(entries)
  {
    out := [];
    assert entries[0..] == entries && [] + ListImage(entries) == ListImage(entries);
    for k := 0 to |entries|
      invariant out + ListImage(entries[k..]) == ListImage(entries)
    {
      var e := entries[k];
      var image := BigEndian(4, 0);
      image := image + BigEndian(8, 0);
      image := image + BigEndian(2, |e.name|);
      image := image + [e.dType];
      image := image + e.name;
      image := image + [0];
      ListImageStep(entries, k, out);
      out := out + image;
    }
    assert out + [] == out;
  }

  function From(pt: seq<byte>, i: nat): seq<byte> {
    pt[Min(i, |pt|)..]
  }

  lemma ParseListStep(pt: seq<byte>, i: nat, e: DirEntry) returns (next: nat, later: seq<DirEntry>)
    requires i + ENTRY_HEADER + |e.name| <= |pt|
    requires |e.name| == FromBigEndian(pt[i + 12..i + 14]) && e.dType == pt[i + 14]
    requires e.name == pt[i + ENTRY_HEADER..i + ENTRY_HEADER + |e.name|]
    ensures next == i + ENTRY_HEADER + |e.name| + 1 && later == ParseList(From(pt, next))
    ensures ParseList(From(pt, i)) == KeptOne(e) + later
  {
    next := i + ENTRY_HEADER + |e.name| + 1;
    later := ParseList(From(pt, next));
    var b := From(pt, i);
    assert b[12..14] == pt[i + 12..i + 14];
    assert b[ENTRY_HEADER..ENTRY_HEADER + |e.name|] == e.name;
    assert FirstEntry(b) == Some(e);
    assert AfterEntry(b, e) == From(pt, next);
  }

  lemma ParseListEnd(pt: seq<byte>, i: nat)
    requires i + ENTRY_HEADER <= |pt| ==> i + ENTRY_HEADER + FromBigEndian(pt[i + 12..i + 14]) > |pt|
    ensures ParseList(From(pt, i)) == []
  {
    if i + ENTRY_HEADER <= |pt| {
      assert From(pt, i)[12..14] == pt[i + 12..i + 14];
    }
  }

  method ParseListLoop(pt: seq<byte>) returns (out: seq<DirEntry>)
    ensures out == ParseList(pt)
  {
    out := [];
    var i := 0;
    assert From(pt, 0) == pt;
    ghost var ahead := ParseList(From(pt, i));
    ghost var whole := ahead;
    while i + ENTRY_HEADER <= |pt|
      invariant ahead == ParseList(From(pt, i)) && out + ahead == whole
      decreases |pt| + ENTRY_HEADER - i
    {
      var nameLen := FromBigEndian(pt[i + 12..i + 14]);
      var dType := pt[i + 14];
      var start := i + ENTRY_HEADER;
      var end := start + nameLen;
      if end > |pt| {
        break;
      }
      var e := DirEntry(pt[start..end], dType);
      ghost var next, later := ParseListStep(pt, i, e);
      i := end + 1;
      assert i == next;
      ahead := later;
      Regroup(out, KeptOne(e), ahead);
      if Dropped(e.name) {
        continue;
      }
      out := out + [e];
    }
    ParseListEnd(pt, i);
    Regroup(out, [], []);
  }
}
