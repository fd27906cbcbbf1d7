/** The two ends of the file plane: the client's fetch and the server it talks to. */
module VdfsPlane {
  import opened Bytes
  import opened Streams
  import opened VdfsWire

  // ---------- paths ----------

  const SLASH: byte := 47
  const BACKSLASH: byte := 92

  function StripPrefix(name: seq<byte>, prefix: seq<byte>): seq<byte> {
    if prefix <= name then name[|prefix|..] else name
  }

  function Flip(name: seq<byte>): (r: seq<byte>)
    ensures |r| == |name|
  {
    seq(|name|, i requires 0 <= i < |name| => if name[i] == BACKSLASH then SLASH else name[i])
  }

  predicate PairFirst(p: seq<byte>) {
    |p| >= 2 && p[0] == SLASH && p[1] == SLASH
  }

  /** `p.contains("//")` */
  predicate HasPair(p: seq<byte>) {
    p != [] && (PairFirst(p) || HasPair(p[1..]))
  }

  /** `p.replace("//", "/")`: one pass from the left, pairs not overlapping. */
  function ReplacePairs(p: seq<byte>): (r: seq<byte>)
    ensures |r| <= |p| && (HasPair(p) ==> |r| < |p|) && (!HasPair(p) ==> r == p)
  {
    if p == [] then []
    else if PairFirst(p) then [SLASH] + ReplacePairs(p[2..])
    else [p[0]] + ReplacePairs(p[1..])
  }

  /** Every run of slashes as a single one. */
  function Collapse(p: seq<byte>): seq<byte> {
    if p == [] then [] else if PairFirst(p) then Collapse(p[1..]) else [p[0]] + Collapse(p[1..])
  }

  lemma SlashThenSlash(q: seq<byte>)
    ensures Collapse([SLASH] + ([SLASH] + q)) == Collapse([SLASH] + q)
  {
    assert ([SLASH] + ([SLASH] + q))[1..] == [SLASH] + q;
  }

  lemma OtherThen(c: byte, q: seq<byte>)
    requires c != SLASH
    ensures Collapse([c] + q) == [c] + Collapse(q)
  {
    assert ([c] + q)[1..] == q;
  }

  lemma SlashThenOther(c: byte, q: seq<byte>)
    requires c != SLASH
    ensures Collapse([SLASH] + ([c] + q)) == [SLASH] + Collapse([c] + q)
  {
    assert ([SLASH] + ([c] + q))[1..] == [c] + q;
  }

  /** One pass keeps the collapsed form, on its own and behind a slash. */
  lemma {:induction false} ReplaceKeepsCollapse(p: seq<byte>)
    ensures Collapse(ReplacePairs(p)) == Collapse(p)
    ensures Collapse([SLASH] + ReplacePairs(p)) == Collapse([SLASH] + p)
    decreases |p|
  {
    if p == [] {
    } else if PairFirst(p) {
      var q := p[2..];
      ReplaceKeepsCollapse(q);
      assert p == [SLASH] + ([SLASH] + q);
      SlashThenSlash(q);
      SlashThenSlash(ReplacePairs(q));
      SlashThenSlash([SLASH] + q);
    } else {
      var q := p[1..];
      ReplaceKeepsCollapse(q);
      assert p == [p[0]] + q;
      if p[0] == SLASH {
        SlashThenSlash(q);
        SlashThenSlash(ReplacePairs(q));
      } else {
        OtherThen(p[0], q);
        OtherThen(p[0], ReplacePairs(q));
        SlashThenOther(p[0], q);
        SlashThenOther(p[0], ReplacePairs(q));
      }
    }
  }

  /** The collapsed form has no pair left, and a path without one is its own. */
  lemma {:induction false} CollapseIsNormal(p: seq<byte>)
    ensures !HasPair(Collapse(p))
    ensures !HasPair(p) ==> Collapse(p) == p
    ensures Collapse(p) != [] <==> p != []
    ensures p != [] ==> Collapse(p)[0] == p[0]
  {
    if p != [] {
      CollapseIsNormal(p[1..]);
      var c, rest := Collapse(p), Collapse(p[1..]);
      if !PairFirst(p) {
        assert c[1..] == rest;
      }
    }
  }

  /** Back to a local path: the id prefix off, backslashes turned, slash runs collapsed. */
  method NameToPath(name: seq<byte>, pcId: seq<byte>) returns (p: seq<byte>)
    ensures p == Collapse(Flip(StripPrefix(name, pcId)))
  {
    p := Flip(StripPrefix(name, pcId));
    while HasPair(p)
      invariant Collapse(p) == Collapse(Flip(StripPrefix(name, pcId)))
      decreases |p|
    {
      ReplaceKeepsCollapse(p);
      p := ReplacePairs(p);
    }
    CollapseIsNormal(p);
  }

  predicate NormalPath(path: seq<byte>) {
    BACKSLASH !in path && !HasPair(path)
  }

  lemma NormalPathStays(pcId: seq<byte>, path: seq<byte>)
    requires NormalPath(path)
    ensures Collapse(Flip(StripPrefix(pcId + path, pcId))) == path
  {
    assert (pcId + path)[|pcId|..] == path;
    assert Flip(path) == path;
    CollapseIsNormal(path);
  }

  /** A path with its separators written as Windows does. */
  function Windows(path: seq<byte>): (r: seq<byte>)
    ensures |r| == |path|
  {
    seq(|path|, i requires 0 <= i < |path| => if path[i] == 47 then 92 else path[i])
  }

  /** Such a name comes back as the path it stands for. */
  lemma WindowsPathComesBack(pcId: seq<byte>, path: seq<byte>)
    requires NormalPath(path)
    ensures Collapse(Flip(StripPrefix(pcId + Windows(path), pcId))) == path
  {
    assert (pcId + Windows(path))[|pcId|..] == Windows(path);
    assert Flip(Windows(path)) == path;
    CollapseIsNormal(path);
  }

  // ---------- local files ----------

  /** What the host's file system holds at a path. `mtime` is missing before 1970. */
  datatype Node =
    | File(data: seq<byte>, mtime: Option<nat>)
    | Folder(entries: seq<DirEntry>, size: nat, mtime: Option<nat>)

  type Files = map<seq<byte>, Node>

  function SizeOf(n: Node): nat {
    match n
    case File(data, _) => |data|
    case Folder(_, size, _) => size
  }

  const MODE_DIR: nat := 0x41ED
  const MODE_FILE: nat := 0x81A4

  function ModeOf(n: Node): nat {
    if n.Folder? then MODE_DIR else MODE_FILE
  }

  /** The type of the node in the high bits, as `S_IFMT` has it, and `rwxr-xr-x` or `rw-r--r--` in the low. */
  lemma ModeSays(n: Node)
    ensures ModeOf(n) / 4096 == if n.Folder? then 4 else 8
    ensures ModeOf(n) % 4096 == if n.Folder? then 64 * 7 + 8 * 5 + 5 else 64 * 6 + 8 * 4 + 4
  {
  }

  const STAT_TEMPLATE: seq<byte> := [
    0x00, 0x00, 0x00, 0x00, 0x00, 0x00, 0x00, 0x00, 0x00, 0x00, 0x00, 0x00,
    0x00, 0x00, 0x81, 0x80, 0x00, 0x00, 0x00, 0x00, 0x01, 0xf5, 0x00, 0x00,
    0x00, 0x14, 0x00, 0x00, 0x00, 0x00, 0x00, 0x00, 0x00, 0x00, 0x00, 0x0e,
    0x12, 0xae, 0x00, 0x00, 0x00, 0x00, 0x00, 0x00, 0x00, 0x00, 0x00, 0x00,
    0x00, 0x00, 0x00, 0x00, 0x00, 0x00, 0x6a, 0x2f, 0xd6, 0xa6, 0x00, 0x00,
    0x00, 0x00, 0x6a, 0x2f, 0xd6, 0xa4, 0x00, 0x00, 0x00, 0x00, 0x00, 0x00,
    0x00, 0x00
  ]

  /** `st[at..at + |b|].copy_from_slice(b)` */
  function Overwrite(st: seq<byte>, at: nat, b: seq<byte>): (r: seq<byte>)
    requires at + |b| <= |st|
    ensures |r| == |st|
  {
    st[..at] + b + st[at + |b|..]
  }

  method CopyInto(st: array<byte>, at: nat, b: seq<byte>)
    requires at + |b| <= st.Length
    modifies st
    ensures st[..] == Overwrite(old(st[..]), at, b)
  {
    forall i | 0 <= i < |b| {
      st[at + i] := b[i];
    }
  }

  function StatImage(node: Option<Node>): (st: seq<byte>)
    ensures |st| == STAT_LEN
  {
    if node.None? then STAT_TEMPLATE
    else
      var sized := Overwrite(STAT_TEMPLATE, SIZE_OFFSET, BigEndian(8, SizeOf(node.value)));
      var moded := Overwrite(sized, MODE_OFFSET, BigEndian(4, ModeOf(node.value)));
      if node.value.mtime.Some? then Overwrite(moded, MTIME_OFFSET, BigEndian(8, node.value.mtime.value)) else moded
  }

  method BuildStatResponse(node: Option<Node>) returns (st: array<byte>)
    ensures st[..] == StatImage(node)
  {
    st := new byte[STAT_LEN](i requires 0 <= i < STAT_LEN => STAT_TEMPLATE[i]);
    assert st[..] == STAT_TEMPLATE;
    if node.Some? {
      CopyInto(st, SIZE_OFFSET, BigEndian(8, SizeOf(node.value)));
      CopyInto(st, MODE_OFFSET, BigEndian(4, ModeOf(node.value)));
      if node.value.mtime.Some? {
        CopyInto(st, MTIME_OFFSET, BigEndian(8, node.value.mtime.value));
      }
    }
  }

  lemma OverwriteLow(st: seq<byte>, mode: seq<byte>)
    requires |st| == STAT_LEN && |mode| == 4
    ensures var r := Overwrite(st, MODE_OFFSET, mode);
            r[12..16] == mode && r[30..38] == st[30..38] && r[58..66] == st[58..66]
  {
  }

  lemma StatFields(size: seq<byte>, mode: seq<byte>)
    requires |size| == 8 && |mode| == 4
    ensures var st := Overwrite(Overwrite(STAT_TEMPLATE, SIZE_OFFSET, size), MODE_OFFSET, mode);
            st[12..16] == mode && st[30..38] == size && st[58..66] == STAT_TEMPLATE[58..66]
  {
    var sized := Overwrite(STAT_TEMPLATE, SIZE_OFFSET, size);
    assert sized[30..38] == size && sized[58..66] == STAT_TEMPLATE[58..66];
    OverwriteLow(sized, mode);
  }

  lemma TimeField(st: seq<byte>, mtime: seq<byte>)
    requires |st| == STAT_LEN && |mtime| == 8
    ensures var r := Overwrite(st, MTIME_OFFSET, mtime);
            r[12..16] == st[12..16] && r[30..38] == st[30..38] && r[58..66] == mtime
  {
  }

  lemma {:induction false} ZerosAhead(z: seq<byte>, b: seq<byte>)
    requires forall i :: 0 <= i < |z| ==> z[i] == 0
    ensures FromBigEndian(z + b) == FromBigEndian(b)
  {
    if b != [] {
      ZerosAhead(z, b[..|b| - 1]);
      assert (z + b)[..|z + b| - 1] == z + b[..|b| - 1];
    } else if z != [] {
      ZerosAhead(z[..|z| - 1], b);
      assert (z + b)[..|z + b| - 1] == z[..|z| - 1] + b;
    }
  }

  /** An eight-byte field whose top half is zero. */
  lemma LowHalf(t: seq<byte>)
    requires |t| == 8 && t[0] == 0 && t[1] == 0 && t[2] == 0 && t[3] == 0
    ensures FromBigEndian(t) == FromBigEndian(t[4..])
  {
    ZerosAhead(t[..4], t[4..]);
    assert t[..4] + t[4..] == t;
  }

  lemma FourBytes(a: byte, b: byte, c: byte, d: byte)
    ensures FromBigEndian([a, b, c, d]) == ((a as int * 256 + b as int) * 256 + c as int) * 256 + d as int
  {
    assert [a, b, c, d][..3] == [a, b, c] && [a, b, c][..2] == [a, b] && [a, b][..1] == [a] && [a][..0] == [];
    assert FromBigEndian([a]) == a as int;
    assert FromBigEndian([a, b]) == a as int * 256 + b as int;
    assert FromBigEndian([a, b, c]) == (a as int * 256 + b as int) * 256 + c as int;
  }

  lemma FieldAt(st: seq<byte>, at: nat, a: byte, b: byte, c: byte, d: byte)
    requires at + 8 <= |st| && st[at] == 0 && st[at + 1] == 0 && st[at + 2] == 0 && st[at + 3] == 0
    requires st[at + 4] == a && st[at + 5] == b && st[at + 6] == c && st[at + 7] == d
    ensures FromBigEndian(st[at..at + 8]) == ((a as int * 256 + b as int) * 256 + c as int) * 256 + d as int
  {
    var t := st[at..at + 8];
    LowHalf(t);
    assert t[4..] == [a, b, c, d];
    FourBytes(a, b, c, d);
  }

  lemma TemplateTime()
    ensures FromBigEndian(STAT_TEMPLATE[58..66]) == 0x6a2f_d6a4
  {
    FieldAt(STAT_TEMPLATE, 58, 0x6a, 0x2f, 0xd6, 0xa4);
  }

  /** The three fields do not overlap: each reads back, and a missing time reads as the template's. */
  lemma StatReadsBack(node: Node)
    requires SizeOf(node) < U64_LIMIT && (node.mtime.Some? ==> node.mtime.value < U64_LIMIT)
    ensures ParseStat(StatImage(Some(node)))
         == Some(Stat(ModeOf(node), SizeOf(node), if node.mtime.Some? then node.mtime.value else 0x6a2f_d6a4))
  {
    var mode, size := BigEndian(4, ModeOf(node)), BigEndian(8, SizeOf(node));
    Spans();
    BigEndianFits(4, ModeOf(node));
    BigEndianFits(8, SizeOf(node));
    var sized := Overwrite(STAT_TEMPLATE, SIZE_OFFSET, size);
    var moded := Overwrite(sized, MODE_OFFSET, mode);
    StatFields(size, mode);
    if node.mtime.Some? {
      var mtime := BigEndian(8, node.mtime.value);
      BigEndianFits(8, node.mtime.value);
      TimeField(moded, mtime);
    } else {
      TemplateTime();
    }
  }

  lemma TemplateSize()
    ensures FromBigEndian(STAT_TEMPLATE[30..38]) == 0xe_12ae
  {
    FieldAt(STAT_TEMPLATE, 30, 0, 0x0e, 0x12, 0xae);
  }

  // ---------- reading a range ----------

  /** `Panics` is the allocation of a buffer no vector can be. */
  datatype RangeRead = Data(data: seq<byte>) | Failed | Panics

  function Range(data: seq<byte>, offset: nat, size: nat): seq<byte> {
    var from := Min(offset, |data|);
    data[from..from + Min(size, |data| - from)]
  }

  /** Ranges read one after the other join up, and a range over the whole file is the file. */
  lemma RangesJoin(data: seq<byte>, offset: nat, n: nat, m: nat)
    ensures Range(data, offset, n) + Range(data, offset + n, m) == Range(data, offset, n + m)
    ensures |Range(data, offset, n)| == Min(n, |data| - Min(offset, |data|))
    ensures Range(data, 0, |data|) == data
  {
  }

  /** Filling the buffer from reads of any size. `file` is the open file past the offset. */
  method ReadFileRange(file: Source, size: nat) returns (r: RangeRead)
    modifies file
    ensures r == if size >= VEC_LIMIT then Panics
                 else if |old(file.rest)| < size && file.broken then Failed
                 else Data(Range(old(file.rest), 0, size))
  {
    if size >= VEC_LIMIT {
      return Panics;
    }
    var buf := new byte[size];
    var filled := 0;
    ghost var all := file.rest;
    while filled < buf.Length
      invariant 0 <= filled <= buf.Length && filled <= |all|
      invariant fresh(buf)
      invariant file.rest == all[filled..] && buf[..filled] == all[..filled]
      decreases buf.Length - filled
    {
      ghost var before := buf[..filled];
      var n, failed := file.ReadInto(buf, filled);
      if failed {
        return Failed;
      }
      if n == 0 {
        break;
      }
      assert buf[..][..filled + n] == before + all[filled..][..n];
      filled := filled + n;
    }
    r := Data(buf[..filled]);
  }

  // ---------- the server ----------

  /** AES-GCM under the session's key and nonce, opened without looking at the tag. It is a stream
      cipher: opening the front of what was sealed gives the front of the plain text. The tag is a
      16-byte array in the source. */
  datatype Cipher = Cipher(seal: seq<byte> -> (seq<byte>, seq<byte>), open: seq<byte> -> Option<seq<byte>>)
  {
    ghost predicate Tagged() {
      forall pt :: |seal(pt).1| == 16
    }

    ghost predicate OpensFront(pt: seq<byte>, k: nat)
      requires k <= |pt|
    {
      |seal(pt).0| == |pt| && open(seal(pt).0[..k]) == Some(pt[..k])
    }

    ghost predicate Lawful() {
      Tagged() && forall pt, k: nat | k <= |pt| :: OpensFront(pt, k)
    }
  }

  const MAX_REQUEST: nat := 0x400_0000

  function Lookup(files: Files, path: seq<byte>): Option<Node> {
    if path in files then Some(files[path]) else None
  }

  function Entries(node: Option<Node>): seq<DirEntry> {
    if node.Some? && node.value.Folder? then node.value.entries else []
  }

  /** The plain text of the answer; none at all when the read asks for a buffer no vector can be. A
      missing file, a directory and an offset past the end (or past what a seek accepts) read as
      nothing. */
  function Answer(node: Option<Node>, r: Request): Option<seq<byte>> {
    if r.cmd == STAT then Some(StatImage(node))
    else if r.cmd == LIST then Some(ListImage(Entries(node)))
    else if node.None? || r.offset >= VEC_LIMIT then Some([])
    else if r.size >= VEC_LIMIT then None
    else if node.value.File? then Some(Range(node.value.data, r.offset, r.size))
    else Some([])
  }

  /** Command 3 asks for attributes, 2 for a listing, 6 for a range of a file. */
  lemma CommandsMean(node: Option<Node>, r: Request)
    ensures r.cmd == 3 ==> Answer(node, r) == Some(StatImage(node))
    ensures var entries := if node.Some? && node.value.Folder? then node.value.entries else [];
            r.cmd == 2 ==> Answer(node, r) == Some(ListImage(entries))
    ensures r.cmd == 6 && r.size < VEC_LIMIT && node.Some? && node.value.File? && r.offset + r.size <= |node.value.data|
            && |node.value.data| < VEC_LIMIT ==>
              Answer(node, r) == Some(node.value.data[r.offset..r.offset + r.size])
  {
  }

  function LocalPath(name: seq<byte>, pcId: seq<byte>): seq<byte> {
    Collapse(Flip(StripPrefix(name, pcId)))
  }

  function SealedResponse(c: Cipher, pt: seq<byte>): seq<byte>
    requires c.Tagged()
  {
    ResponseFrame(c.seal(pt).1, c.seal(pt).0)
  }

  function SealedRequest(c: Cipher, s: byte, r: Request): seq<byte>
    requires c.Tagged()
  {
    RequestFrame(c.seal(Plaintext(s, r)).1, c.seal(Plaintext(s, r)).0)
  }

  function ReplyTo(c: Cipher, files: Files, pcId: seq<byte>, request: Option<Request>): Option<seq<byte>>
    requires c.Tagged()
  {
    match request
    case None => None
    case Some(r) =>
      match Answer(Lookup(files, LocalPath(r.name, pcId)), r)
      case None => None
      case Some(pt) => Some(SealedResponse(c, pt))
  }

  /** What the server sends back for the bytes of one connection; none when it hangs up. */
  function Reply(c: Cipher, files: Files, pcId: seq<byte>, b: seq<byte>): Option<seq<byte>>
    requires c.Tagged()
  {
    if |b| < 8 then None
    else
      var total := FromBigEndian(b[..8]);
      if total < REQUEST_CT_OFFSET || total > MAX_REQUEST || |b| < total then None
      else
        match c.open(b[REQUEST_CT_OFFSET..total])
        case None => None
        case Some(pt) => ReplyTo(c, files, pcId, ParseRequest(pt))
  }

  function BytesOf(reply: Option<seq<byte>>): seq<byte> {
    if reply.Some? then reply.value else []
  }

  /** A range of a file; nothing where there is none to read. */
  method AnswerRead(node: Option<Node>, r: Request) returns (pt: Option<seq<byte>>)
    requires r.cmd != STAT && r.cmd != LIST
    ensures pt == Answer(node, r)
  {
    if node.None? || r.offset >= VEC_LIMIT {
      return Some([]);
    }
    if r.size >= VEC_LIMIT {
      return None;
    }
    if node.value.Folder? {
      return Some([]);
    }
    var data := node.value.data;
    var file := new Source(data[Min(r.offset, |data|)..], false);
    var got := ReadFileRange(file, r.size);
    pt := Some(got.data);
    assert got.data == Range(data, r.offset, r.size);
  }

  method AnswerRequest(back: Sink, c: Cipher, files: Files, pcId: seq<byte>, request: Option<Request>)
    returns (ok: bool)
    requires c.Tagged()
    modifies back
    ensures ok == ReplyTo(c, files, pcId, request).Some?
    ensures back.data == old(back.data) + BytesOf(ReplyTo(c, files, pcId, request))
  {
    assert back.data + [] == back.data;
    if request.None? {
      return false;
    }
    var r := request.value;
    var path := NameToPath(r.name, pcId);
    var node := Lookup(files, path);
    var pt: seq<byte> := [];
    if r.cmd == STAT {
      var st := BuildStatResponse(node);
      pt := st[..];
    } else if r.cmd == LIST {
      pt := SerializeList(Entries(node));
    } else {
      var data := AnswerRead(node, r);
      if data.None? {
        return false;
      }
      pt := data.value;
    }
    var sealed := c.seal(pt);
    back.WriteAll(ResponseFrame(sealed.1, sealed.0));
    ok := true;
  }

  method ServeConn(stream: Source, back: Sink, c: Cipher, files: Files, pcId: seq<byte>) returns (ok: bool)
    requires c.Tagged()
    modifies stream, back
    ensures ok == Reply(c, files, pcId, old(stream.rest)).Some?
    ensures back.data == old(back.data) + BytesOf(Reply(c, files, pcId, old(stream.rest)))
  {
    ghost var b := stream.rest;
    assert back.data + [] == back.data;
    var head, failed := stream.Take(8);
    if |head| < 8 {
      return false;
    }
    var total := FromBigEndian(head);
    if total < REQUEST_CT_OFFSET || total > MAX_REQUEST {
      return false;
    }
    var body;
    body, failed := stream.Take(total - 8);
    if |body| < total - 8 {
      return false;
    }
    var frame := head + body;
    assert frame == b[..total];
    assert b[..total][REQUEST_CT_OFFSET..] == b[REQUEST_CT_OFFSET..total];
    var pt := c.open(frame[REQUEST_CT_OFFSET..]);
    if pt.None? {
      return false;
    }
    ok := AnswerRequest(back, c, files, pcId, ParseRequest(pt.value));
  }

  // ---------- the client ----------

  /** Read until the expected length has arrived, or the stream ends or stalls; what came in is what
      is used. A stream that stalls is one whose bytes end there. */
  method RoundTrip(conn: Source, minResp: nat) returns (r: Option<seq<byte>>)
    modifies conn
    ensures r.None? <==> |old(conn.rest)| < minResp && conn.broken
    ensures r.Some? ==> r.value <= old(conn.rest) && (|r.value| >= minResp || r.value == old(conn.rest))
  {
    var buf: seq<byte> := [];
    while |buf| < minResp
      invariant buf + conn.rest == old(conn.rest)
      decreases |conn.rest|
    {
      var got, failed := conn.Read(262144);
      if failed {
        return None;
      }
      if got == [] {
        break;
      }
      buf := buf + got;
    }
    r := Some(buf);
  }

  /** The length a response announces, once its header is there. */
  function Announced(b: seq<byte>): Option<nat> {
    if |b| >= 5 && b[0] == 3 then Some(5 + FromBigEndian(b[1..5])) else None
  }

  /** The same for a response that says how long it is. */
  method RoundTripFramed(conn: Source) returns (r: Option<seq<byte>>)
    modifies conn
    ensures r.Some? ==> r.value <= old(conn.rest)
    ensures r.Some? ==> || r.value == old(conn.rest)
                        || (Announced(old(conn.rest)).Some? && |r.value| >= Announced(old(conn.rest)).value)
    ensures r.None? <==> conn.broken && (Announced(old(conn.rest)).None?
                                         || |old(conn.rest)| < Announced(old(conn.rest)).value)
  {
    var buf: seq<byte> := [];
    var total: Option<nat> := None;
    ghost var all := conn.rest;
    while total.None? || |buf| < total.value
      invariant buf + conn.rest == all
      invariant total == Announced(buf)
      invariant total.Some? ==> Announced(all) == total
      decreases |conn.rest|
    {
      var got, failed := conn.Read(65536);
      if failed {
        return None;
      }
      if got == [] {
        return Some(buf);
      }
      ghost var before := buf;
      buf := buf + got;
      assert |before| >= 5 ==> buf[1..5] == before[1..5];
      assert |buf| >= 5 ==> all[1..5] == buf[1..5];
      if total.None? && |buf| >= 5 && buf[0] == 3 {
        total := Some(5 + FromBigEndian(buf[1..5]));
      }
    }
    r := Some(buf);
  }

  function OpenResponse(c: Cipher, resp: seq<byte>): Option<seq<byte>> {
    match Ciphertext(resp, RESPONSE_CT_OFFSET)
    case Some(ct) => c.open(ct)
    case None => None
  }

  /** The first `n` bytes, or all when there are fewer. */
  function Front(b: seq<byte>, n: nat): (r: seq<byte>)
    ensures |r| == Min(n, |b|) && r <= b && (|b| <= n ==> r == b)
  {
    b[..Min(n, |b|)]
  }

  /** The server reads the frame off its end of the connection; the client reads the rest. */
  method AnswerFrame(c: Cipher, files: Files, pcId: seq<byte>, frame: seq<byte>, cut: nat, reset: bool)
    returns (conn: Source)
    requires c.Tagged()
    ensures fresh(conn) && conn.broken == reset
    ensures conn.rest == Front(BytesOf(Reply(c, files, pcId, frame)), cut)
  {
    var stream := new Source(frame, false);
    var back := new Sink();
    ghost var reply := Reply(c, files, pcId, frame);
    var ok := ServeConn(stream, back, c, files, pcId);
    assert [] + BytesOf(reply) == BytesOf(reply);
    conn := new Source(Front(back.data, cut), reset);
  }

  /** One request over a fresh connection, and the server's side of it. Of the reply the first `cut`
      bytes arrive; then the connection ends, or breaks when `reset`. */
  method Exchange(c: Cipher, files: Files, pcId: seq<byte>, s: byte, r: Request, cut: nat, reset: bool)
    returns (conn: Source)
    requires c.Tagged()
    ensures fresh(conn) && conn.broken == reset
    ensures conn.rest == Front(BytesOf(Reply(c, files, pcId, SealedRequest(c, s, r))), cut)
  {
    var pt := BuildPlaintext(s, r);
    var sealed := c.seal(pt);
    var frame := RequestFrame(sealed.1, sealed.0);
    conn := AnswerFrame(c, files, pcId, frame, cut, reset);
  }

  /** How long a request's frame is. */
  function RequestLength(r: Request): nat {
    REQUEST_CT_OFFSET + 22 + |Body(r)|
  }

  /** A request is answered from the path its name stands for exactly while it fits the server's limit;
      a longer one is hung up on. */
  lemma RequestIsAnswered(c: Cipher, files: Files, pcId: seq<byte>, s: byte, r: Request)
    requires c.Lawful() && Makeable(r) && |r.name| + 66 < VEC_LIMIT
    ensures Reply(c, files, pcId, SealedRequest(c, s, r))
         == if RequestLength(r) <= 0x400_0000 then ReplyTo(c, files, pcId, Some(r)) else None
  {
    var pt := Plaintext(s, r);
    var ct, tag := c.seal(pt).0, c.seal(pt).1;
    assert c.OpensFront(pt, |pt|);
    assert ct[..|pt|] == ct && pt[..|pt|] == pt;
    RequestFrameReadsBack(tag, ct);
    var b := RequestFrame(tag, ct);
    assert b[REQUEST_CT_OFFSET..|b|] == b[REQUEST_CT_OFFSET..];
    if RequestLength(r) <= MAX_REQUEST {
      RequestReadsBack(s, r, []);
      assert pt + [] == pt;
    }
  }

  /** The front of a sealed response opens to the front of its plain text. */
  lemma ResponseOpens(c: Cipher, pt: seq<byte>, k: nat)
    requires c.Lawful()
    ensures |SealedResponse(c, pt)| == RESPONSE_CT_OFFSET + |pt|
    ensures OpenResponse(c, Front(SealedResponse(c, pt), k))
         == if k < RESPONSE_CT_OFFSET then None else Some(Front(pt, k - RESPONSE_CT_OFFSET))
  {
    assert c.OpensFront(pt, |pt|);
    var tag, ct := c.seal(pt).1, c.seal(pt).0;
    if k >= RESPONSE_CT_OFFSET {
      var n := Min(k - RESPONSE_CT_OFFSET, |pt|);
      assert c.OpensFront(pt, n);
      assert Front(ResponseFrame(tag, ct), k)[RESPONSE_CT_OFFSET..] == ct[..n];
    }
  }

  /** What the host file system can hold. */
  predicate Hostable(node: Option<Node>) {
    node.Some? ==> SizeOf(node.value) < VEC_LIMIT && (node.value.mtime.Some? ==> node.value.mtime.value < U64_LIMIT)
  }

  /** The size the client learns. */
  lemma StatTellsSize(node: Option<Node>)
    requires Hostable(node)
    ensures var st := ParseStat(StatImage(node));
            st.Some? && st.value.size == if node.Some? then SizeOf(node.value) else 0xe_12ae
  {
    if node.Some? {
      StatReadsBack(node.value);
    } else {
      TemplateSize();
    }
  }

  // ---------- fetching ----------

  function WholeRead(node: Option<Node>, size: nat): (data: seq<byte>)
    ensures |data| <= size
  {
    if node.Some? && node.value.File? then Range(node.value.data, 0, size) else []
  }

  /** What a client waiting for `size` bytes makes of a reply with `data` of which `cut` bytes come. */
  function Arrived(data: seq<byte>, size: nat, cut: nat, reset: bool): Option<seq<byte>>
    requires |data| <= size
  {
    var came := Min(cut, RESPONSE_CT_OFFSET + |data|);
    if cut < RESPONSE_CT_OFFSET || (reset && came < RESPONSE_CT_OFFSET + size) then None
    else Some(Front(data, cut - RESPONSE_CT_OFFSET))
  }

  function ToldSize(node: Option<Node>): nat {
    if node.Some? then SizeOf(node.value) else 0xe_12ae
  }

  /** What a fetch comes to when `statCut` and `readCut` bytes of the two replies arrive. A missing path
      is answered with the template's attributes, and like a directory it reads as nothing. */
  function Fetched(node: Option<Node>, statCut: nat, readCut: nat, readReset: bool): Option<seq<byte>> {
    if statCut < RESPONSE_CT_OFFSET + STAT_LEN || ToldSize(node) == 0 then None
    else Arrived(WholeRead(node, ToldSize(node)), ToldSize(node), readCut, readReset)
  }

  /** A fetch gives the whole file exactly when both replies arrive whole. Otherwise it is an error, but
      for one case: a reply to the read that is cut behind its header without a reset is a shorter file,
      and nothing tells the caller. */
  lemma FetchedExactly(node: Node, statCut: nat, readCut: nat, readReset: bool)
    requires node.File? && node.data != []
    ensures var r, statCame := Fetched(Some(node), statCut, readCut, readReset), statCut >= 96;
            && (r == Some(node.data) <==> statCame && readCut >= 22 + |node.data|)
            && (r.Some? && r.value != node.data <==> statCame && 22 <= readCut < 22 + |node.data| && !readReset)
            && (r.Some? && r.value != node.data ==> r.value == node.data[..readCut - 22])
  {
    assert Range(node.data, 0, |node.data|) == node.data;
  }

  /** No cut makes a fetch of an empty file, a directory or a missing path give any bytes. */
  lemma FetchedNothing(node: Option<Node>, statCut: nat, readCut: nat, readReset: bool)
    requires node.Some? && node.value.File? ==> node.value.data == []
    ensures var r := Fetched(node, statCut, readCut, readReset);
            && (r.Some? ==> r.value == [])
            && (r.Some? <==> statCut >= 96 && readCut >= 22 && ToldSize(node) > 0 && !readReset)
  {
  }

  function ReadStat(c: Cipher, came: seq<byte>): Option<Stat> {
    var plain := OpenResponse(c, came);
    if plain.Some? then ParseStat(plain.value) else None
  }

  /** What opens of a cut reply, or of none. */
  lemma CutComesBack(c: Cipher, pt: seq<byte>, answered: bool, cut: nat, came: seq<byte>)
    requires c.Lawful() && came == Front(if answered then SealedResponse(c, pt) else [], cut)
    ensures |came| == if answered then Min(cut, RESPONSE_CT_OFFSET + |pt|) else 0
    ensures OpenResponse(c, came)
         == if answered && cut >= RESPONSE_CT_OFFSET then Some(Front(pt, cut - RESPONSE_CT_OFFSET)) else None
  {
    ResponseOpens(c, pt, cut);
  }

  lemma StatComesBack(c: Cipher, node: Option<Node>, answered: bool, cut: nat, came: seq<byte>)
    returns (st: Option<Stat>)
    requires c.Lawful() && Hostable(node)
    requires came == Front(if answered then SealedResponse(c, StatImage(node)) else [], cut)
    ensures |came| <= RESPONSE_CT_OFFSET + STAT_LEN && st == ReadStat(c, came)
    ensures st.Some? <==> |came| == RESPONSE_CT_OFFSET + STAT_LEN
    ensures st.Some? <==> answered && cut >= RESPONSE_CT_OFFSET + STAT_LEN
    ensures st.Some? ==> st.value.size == ToldSize(node) < VEC_LIMIT
  {
    st := ReadStat(c, came);
    var pt := StatImage(node);
    CutComesBack(c, pt, answered, cut, came);
    StatTellsSize(node);
    assert pt[..STAT_LEN] == pt;
  }

  /** The bytes that come back for a request whose plain answer is known. */
  lemma AnswerComesBack(c: Cipher, files: Files, id: seq<byte>, s: byte, r: Request, node: Option<Node>, pt: seq<byte>)
    requires c.Lawful() && Makeable(r) && |r.name| + 66 < VEC_LIMIT
    requires node == Lookup(files, LocalPath(r.name, id)) && Answer(node, r) == Some(pt)
    ensures BytesOf(Reply(c, files, id, SealedRequest(c, s, r)))
         == if RequestLength(r) <= MAX_REQUEST then SealedResponse(c, pt) else []
  {
    RequestIsAnswered(c, files, id, s, r);
  }

  method StatName(c: Cipher, files: Files, id: seq<byte>, name: seq<byte>, ghost node: Option<Node>,
                  cut: nat, reset: bool)
    returns (st: Option<Stat>)
    requires c.Lawful() && |name| + 66 < VEC_LIMIT
    requires node == Lookup(files, LocalPath(name, id)) && Hostable(node)
    ensures st.Some? <==> 50 + |name| <= MAX_REQUEST && cut >= RESPONSE_CT_OFFSET + STAT_LEN
    ensures st.Some? ==> st.value.size == ToldSize(node) < VEC_LIMIT
  {
    var request := Request(STAT, 0, 0, name);
    AnswerComesBack(c, files, id, 0x41, request, node, StatImage(node));
    var conn := Exchange(c, files, id, 0x41, request, cut, reset);
    ghost var all := conn.rest;
    ghost var came := StatComesBack(c, node, 50 + |name| <= MAX_REQUEST, cut, all);
    var resp := RoundTrip(conn, RESPONSE_CT_OFFSET + STAT_LEN);
    if resp.None? {
      return None;
    }
    assert resp.value == all;
    st := ReadStat(c, resp.value);
    assert st == came;
  }

  function Truncated(b: seq<byte>, size: nat): (r: seq<byte>)
    ensures |b| <= size ==> r == b
  {
    b[..Min(size, |b|)]
  }

  lemma AnswerOfRead(node: Option<Node>, r: Request)
    requires r.cmd == READ && r.size < VEC_LIMIT && r.offset == 0
    ensures Answer(node, r) == Some(WholeRead(node, r.size)) && RequestLength(r) == 66 + |r.name|
  {
  }

  method ReadName(c: Cipher, files: Files, id: seq<byte>, name: seq<byte>, size: nat, ghost node: Option<Node>,
                  cut: nat, reset: bool)
    returns (r: Option<seq<byte>>)
    requires c.Lawful() && |name| + 66 < VEC_LIMIT && size < VEC_LIMIT
    requires node == Lookup(files, LocalPath(name, id))
    ensures r == if 66 + |name| <= MAX_REQUEST then Arrived(WholeRead(node, size), size, cut, reset) else None
  {
    var request := Request(READ, size, 0, name);
    ghost var pt := WholeRead(node, size);
    AnswerOfRead(node, request);
    AnswerComesBack(c, files, id, 0x42, request, node, pt);
    var conn := Exchange(c, files, id, 0x42, request, cut, reset);
    ghost var all := conn.rest;
    CutComesBack(c, pt, 66 + |name| <= MAX_REQUEST, cut, all);
    var resp := RoundTrip(conn, RESPONSE_CT_OFFSET + size);
    if resp.None? {
      return None;
    }
    assert resp.value == all;
    var plain := OpenResponse(c, resp.value);
    r := if plain.Some? then Some(Truncated(plain.value, size)) else None;
  }

  /** Fetching from the server is reading the local file: for every path the client names, every cut of
      the two replies, every read size on both sides, and every cipher that opens what it seals. A name
      too long for the server's limit is an error. */
  method Fetch(c: Cipher, files: Files, id: seq<byte>, path: seq<byte>,
               statCut: nat, statReset: bool, readCut: nat, readReset: bool) returns (r: Option<seq<byte>>)
    requires c.Lawful() && |id| + |path| + 66 < VEC_LIMIT
    requires Hostable(Lookup(files, Collapse(Flip(path))))
    ensures var local := if NormalPath(path) then path else Collapse(Flip(path));
            var node := if local in files then Some(files[local]) else None;
            r == if 66 + |id| + |path| <= 0x400_0000 then Fetched(node, statCut, readCut, readReset) else None
  {
    var name := id + path;
    ghost var node := Lookup(files, Collapse(Flip(path)));
    assert StripPrefix(name, id) == path;
    if NormalPath(path) {
      NormalPathStays(id, path);
    }
    var st := StatName(c, files, id, name, node, statCut, statReset);
    if st.None? {
      return None;
    }
    var size := st.value.size;
    if size == 0 {
      return None;
    }
    r := ReadName(c, files, id, name, size, node, readCut, readReset);
  }

  // ---------- listing ----------

  /** What a client that reads by the announced length makes of a listing of which `cut` bytes come. */
  function Listed(pt: seq<byte>, cut: nat, reset: bool): Option<seq<DirEntry>> {
    if cut < RESPONSE_CT_OFFSET || (reset && cut < RESPONSE_CT_OFFSET + |pt|) then None
    else Some(ParseList(Front(pt, cut - RESPONSE_CT_OFFSET)))
  }

  lemma FrontOfList(pt: seq<byte>, k: nat)
    ensures ParseList(Front(pt, k)) <= ParseList(pt)
  {
    CutListIsPrefix(pt, Min(k, |pt|));
  }

  lemma ListedIsFront(pt: seq<byte>, cut: nat, reset: bool)
    ensures var r := Listed(pt, cut, reset);
            && (r.Some? ==> r.value <= ParseList(pt))
            && (cut >= 22 + |pt| ==> r == Some(ParseList(pt)))
  {
    if cut >= 22 {
      FrontOfList(pt, cut - 22);
    }
  }

  /** A listing that arrives whole is the local one without the names a listing drops exactly when every
      name fits its 16-bit length; one that is cut is the front of it. */
  lemma ListedExactly(entries: seq<DirEntry>, cut: nat, reset: bool)
    ensures var r := Listed(ListImage(entries), cut, reset);
            && (cut >= 22 + |ListImage(entries)| ==> (r == Some(Kept(entries)) <==> ShortNames(entries)))
            && (r.Some? && ShortNames(entries) ==> r.value <= Kept(entries))
            && (r.None? <==> cut < 22 || (reset && cut < 22 + |ListImage(entries)|))
  {
    ListReadsBack(entries);
    ListedIsFront(ListImage(entries), cut, reset);
  }

  function ReadListing(c: Cipher, came: seq<byte>): Option<seq<DirEntry>> {
    var plain := OpenResponse(c, came);
    if plain.Some? then Some(ParseList(plain.value)) else None
  }

  /** A front of the reply reads as the front of the listing. */
  lemma FrontIsRead(c: Cipher, pt: seq<byte>, k: nat)
    requires c.Lawful()
    ensures ReadListing(c, Front(SealedResponse(c, pt), k)) == Listed(pt, k, false)
    ensures Listed(pt, k, false).Some? ==> Listed(pt, k, false).value <= ParseList(pt)
  {
    ResponseOpens(c, pt, k);
    ListedIsFront(pt, k, false);
  }

  /** The announced length, once it is there, is the frame's own within 32 bits. */
  lemma FramedLength(c: Cipher, pt: seq<byte>, came: seq<byte>)
    requires c.Lawful() && came <= SealedResponse(c, pt) && |pt| + 17 < U32_LIMIT
    ensures Announced(came) == if |came| >= 5 then Some(RESPONSE_CT_OFFSET + |pt|) else None
  {
    assert c.OpensFront(pt, |pt|);
    ResponseFrameReadsBack(c.seal(pt).1, c.seal(pt).0);
    if |came| >= 5 {
      assert came[1..5] == SealedResponse(c, pt)[1..5];
    }
  }

  /** What the framed round trip waits for, within 32 bits: all that comes, and it fails on a reset
      before that. */
  lemma WaitsForAll(c: Cipher, pt: seq<byte>, cut: nat, reset: bool, all: seq<byte>, resp: Option<seq<byte>>)
    requires c.Lawful() && |pt| + 17 < U32_LIMIT && all == Front(SealedResponse(c, pt), cut)
    requires resp.Some? ==> resp.value <= all
    requires resp.Some? ==> resp.value == all || (Announced(all).Some? && |resp.value| >= Announced(all).value)
    requires resp.None? <==> reset && (Announced(all).None? || |all| < Announced(all).value)
    ensures resp == if reset && cut < RESPONSE_CT_OFFSET + |pt| then None else Some(all)
  {
    ResponseOpens(c, pt, cut);
    FramedLength(c, pt, all);
    if resp.Some? {
      assert |resp.value| == |all|;
      assert resp.value == all;
    } else {
      assert |all| < RESPONSE_CT_OFFSET + |pt|;
    }
  }

  lemma ListingComesBack(c: Cipher, pt: seq<byte>, answered: bool, cut: nat, all: seq<byte>, got: seq<byte>)
    requires c.Lawful() && got <= all == Front(if answered then SealedResponse(c, pt) else [], cut)
    ensures ReadListing(c, got).Some? ==> answered && ReadListing(c, got).value <= ParseList(pt)
    ensures answered && got == all ==> ReadListing(c, got) == Listed(pt, cut, false)
  {
    if answered {
      FrontIsRead(c, pt, cut);
      FrontIsRead(c, pt, |got|);
      assert got == Front(SealedResponse(c, pt), |got|);
    }
  }

  /** Listing a remote directory: for every cut of the reply, within the 32 bits of its length field
      exactly what `Listed` says; a longer listing, cut by its own length field, is still a front of what
      the whole parses to. A name too long for the server's limit is an error. */
  method ListDir(c: Cipher, files: Files, id: seq<byte>, path: seq<byte>, cut: nat, reset: bool)
    returns (entries: Option<seq<DirEntry>>)
    requires c.Lawful() && |id| + |path| + 66 < VEC_LIMIT
    ensures var local := Collapse(Flip(path));
            var pt := ListImage(if local in files && files[local].Folder? then files[local].entries else []);
            && (50 + |id| + |path| > 0x400_0000 ==> entries == None)
            && (50 + |id| + |path| <= 0x400_0000 && |pt| + 17 < U32_LIMIT ==> entries == Listed(pt, cut, reset))
            && (entries.Some? ==> entries.value <= ParseList(pt))
  {
    var name := id + path;
    ghost var local := Entries(Lookup(files, Collapse(Flip(path))));
    assert StripPrefix(name, id) == path;
    var request := Request(LIST, 0, 0, name);
    ghost var pt := ListImage(local);
    AnswerComesBack(c, files, id, 0x43, request, Lookup(files, LocalPath(name, id)), pt);
    var conn := Exchange(c, files, id, 0x43, request, cut, reset);
    ghost var all := conn.rest;
    var resp := RoundTripFramed(conn);
    if 50 + |name| <= MAX_REQUEST && |pt| + 17 < U32_LIMIT {
      WaitsForAll(c, pt, cut, reset, all, resp);
    }
    if resp.None? {
      return None;
    }
    ListingComesBack(c, pt, 50 + |name| <= MAX_REQUEST, cut, all, resp.value);
    ghost var listing := ReadListing(c, resp.value);
    var plain := OpenResponse(c, resp.value);
    if plain.None? {
      assert listing == None;
      return None;
    }
    var parsed := ParseListLoop(plain.value);
    entries := Some(parsed);
    assert entries == listing;
  }
}
