/** The two buffered extractors, which walk a whole tar image by offset. */
module Untar {
  import opened Bytes
  import opened TarHeader

  /** A regular file as the walk sees it: `size` is what its header says, `data` what was there. */
  datatype Record = Record(name: seq<byte>, size: nat, data: seq<byte>)

  predicate IsRegular(typeflag: byte) {
    typeflag == TYPE_FILE || typeflag == 0
  }

  /** How far the data of an entry reaches, in whole blocks: `size.div_ceil(512) * 512`. */
  function BlocksOf(size: nat): nat {
    (size + 511) / 512 * 512
  }

  function Drop(b: seq<byte>, n: nat): (r: seq<byte>)
    ensures |r| <= |b|
  {
    b[Min(n, |b|)..]
  }

  function Take(b: seq<byte>, n: nat): seq<byte> {
    b[..Min(n, |b|)]
  }

  /** One turn of the walk: a record for a regular file, the long name pending after it, and how
      far the next header is. */
  datatype Turn = End | Next(record: Option<Record>, long: Option<seq<byte>>, used: nat)

  function EntryTurn(long: Option<seq<byte>>, h: seq<byte>, size: nat, contents: seq<byte>): (t: Turn)
    requires IsHeader(h)
    ensures t.Next? && t.used >= BLOCK
  {
    var used := BLOCK + BlocksOf(size);
    if h[TYPE_OFFSET] == TYPE_LONG_NAME then Next(None, Some(UpTo(contents, 0)), used)
    else if IsRegular(h[TYPE_OFFSET]) then
      Next(Some(Record(if long.Some? then long.value else PlainName(h), size, contents)), None, used)
    else Next(None, long, used)
  }

  function TurnOf(long: Option<seq<byte>>, b: seq<byte>): (t: Turn)
    ensures t.Next? ==> t.used >= BLOCK && |b| >= BLOCK
  {
    if |b| < BLOCK || AllZero(b[..BLOCK]) then End
    else
      var h := b[..BLOCK];
      var size := TarOctal(SizeField(h));
      EntryTurn(long, h, size, Take(b[BLOCK..], size))
  }

  function AsSeq(r: Option<Record>): seq<Record> {
    if r.Some? then [r.value] else []
  }

  /** Every regular file of an image, from a header on. */
  function Records(long: Option<seq<byte>>, b: seq<byte>): seq<Record>
    decreases |b|
  {
    match TurnOf(long, b)
    case End => []
    case Next(record, long', used) => AsSeq(record) + Records(long', Drop(b, used))
  }

  function NameAndData(r: Record): (seq<byte>, seq<byte>) {
    (r.name, r.data)
  }

  function Files(records: seq<Record>): seq<(seq<byte>, seq<byte>)> {
    if records == [] then [] else [NameAndData(records[0])] + Files(records[1..])
  }

  /** The first record whose header announces data. */
  function FirstSized(records: seq<Record>): Option<Record> {
    if records == [] then None
    else if records[0].size > 0 then Some(records[0])
    else FirstSized(records[1..])
  }

  /** It is one of the records, and every record before it, or every record, announces nothing. */
  lemma {:induction false} FirstSizedIsFirst(records: seq<Record>) returns (i: nat)
    ensures i <= |records| && forall j :: 0 <= j < i ==> records[j].size == 0
    ensures FirstSized(records) == if i < |records| then Some(records[i]) else None
    ensures i < |records| ==> records[i].size > 0
  {
    if records == [] || records[0].size > 0 {
      i := 0;
    } else {
      i := FirstSizedIsFirst(records[1..]);
      i := i + 1;
      assert forall j :: 1 <= j < i ==> records[j] == records[1..][j - 1];
    }
  }

  function DataOf(r: Option<Record>): Option<seq<byte>> {
    if r.Some? then Some(r.value.data) else None
  }

  ghost function FirstData(long: Option<seq<byte>>, data: seq<byte>, off: nat): Option<seq<byte>> {
    DataOf(FirstSized(Records(long, Drop(data, off))))
  }

  // ---------- the loops ----------

  lemma WalkEnds(long: Option<seq<byte>>, data: seq<byte>, off: nat)
    requires off + BLOCK <= |data| ==> AllZero(data[off..off + BLOCK])
    ensures Records(long, Drop(data, off)) == []
  {
    if off + BLOCK <= |data| {
      assert Drop(data, off)[..BLOCK] == data[off..off + BLOCK];
    }
  }

  lemma RecordsUnfold(long: Option<seq<byte>>, b: seq<byte>, t: Turn)
    requires t == TurnOf(long, b) && t.Next?
    ensures Records(long, b) == AsSeq(t.record) + Records(t.long, Drop(b, t.used))
  {
  }

  lemma RecordsAt(long: Option<seq<byte>>, data: seq<byte>, off: nat, t: Turn)
    returns (next: nat, later: seq<Record>)
    requires t == TurnOf(long, Drop(data, off)) && t.Next?
    ensures next == off + t.used && later == Records(t.long, Drop(data, next))
    ensures Records(long, Drop(data, off)) == AsSeq(t.record) + later
  {
    next := off + t.used;
    RecordsUnfold(long, Drop(data, off), t);
    assert Drop(Drop(data, off), t.used) == Drop(data, next);
    later := Records(t.long, Drop(data, next));
  }

  lemma TurnAt(long: Option<seq<byte>>, data: seq<byte>, off: nat, h: seq<byte>, size: nat, contents: seq<byte>)
    requires off + BLOCK <= |data| && h == data[off..off + BLOCK] && !AllZero(h)
    requires size == TarOctal(SizeField(h)) && contents == data[off + BLOCK..Min(off + BLOCK + size, |data|)]
    ensures TurnOf(long, Drop(data, off)) == EntryTurn(long, h, size, contents)
  {
    var b := Drop(data, off);
    assert b[..BLOCK] == h;
    assert Take(b[BLOCK..], size) == contents;
  }

  /** One turn at offset `off`, from the header and the contents the loop has in hand. */
  lemma WalkStep(long: Option<seq<byte>>, data: seq<byte>, off: nat, h: seq<byte>, size: nat, contents: seq<byte>)
    returns (t: Turn, next: nat, later: seq<Record>)
    requires off + BLOCK <= |data| && h == data[off..off + BLOCK] && !AllZero(h)
    requires size == TarOctal(SizeField(h)) && contents == data[off + BLOCK..Min(off + BLOCK + size, |data|)]
    ensures t == EntryTurn(long, h, size, contents)
    ensures next == off + BLOCK + BlocksOf(size)
    ensures later == Records(t.long, Drop(data, next))
    ensures Records(long, Drop(data, off)) == AsSeq(t.record) + later
  {
    TurnAt(long, data, off, h, size, contents);
    t := TurnOf(long, Drop(data, off));
    next, later := RecordsAt(long, data, off, t);
  }

  lemma FilesAppend(a: seq<Record>, b: seq<Record>)
    requires |a| <= 1
    ensures Files(a + b) == Files(a) + Files(b)
  {
    if a == [] {
      assert a + b == b;
    } else {
      assert (a + b)[1..] == b && a[1..] == [];
    }
  }

  method UntarAll(data: seq<byte>) returns (r: Option<seq<(seq<byte>, seq<byte>)>>)
    ensures var files := Files(Records(None, data));
            r == if files == [] then None else Some(files)
  {
    var out: seq<(seq<byte>, seq<byte>)> := [];
    var off := 0;
    var long: Option<seq<byte>> := None;
    assert Drop(data, 0) == data;
    ghost var ahead := Records(long, Drop(data, off));
    ghost var whole := Files(ahead);
    assert [] + whole == whole;
    while off + BLOCK <= |data|
      invariant ahead == Records(long, Drop(data, off))
      invariant whole == out + Files(ahead)
      decreases |data| - off
    {
      var hdr := data[off..off + BLOCK];
      if AllZero(hdr) {
        break;
      }
      var size := TarOctal(SizeField(hdr));
      var typeflag := hdr[TYPE_OFFSET];
      var contents := data[off + BLOCK..Min(off + BLOCK + size, |data|)];
      ghost var t, next, later := WalkStep(long, data, off, hdr, size, contents);
      FilesAppend(AsSeq(t.record), later);
      Regroup(out, Files(AsSeq(t.record)), Files(later));
      if typeflag == TYPE_LONG_NAME {
        long := Some(UpTo(contents, 0));
      } else if IsRegular(typeflag) {
        var name := if long.Some? then long.value else PlainName(hdr);
        long := None;
        assert Files(AsSeq(t.record)) == [(name, contents)];
        out := out + [(name, contents)];
      }
      off := off + BLOCK + BlocksOf(size);
      assert off == next && long == t.long;
      ahead := later;
    }
    WalkEnds(long, data, off);
    Regroup(out, [], []);
    r := if out == [] then None else Some(out);
  }

  lemma FirstSizedAppend(a: Option<Record>, b: seq<Record>)
    ensures FirstSized(AsSeq(a) + b) == if a.Some? && a.value.size > 0 then a else FirstSized(b)
  {
    var all := AsSeq(a) + b;
    if a == None {
      assert all == b;
    } else {
      assert all[0] == a.value && all[1..] == b;
    }
  }

  /** One turn for the caller that wants only the first file with data. */
  lemma FirstStep(long: Option<seq<byte>>, data: seq<byte>, off: nat, h: seq<byte>, size: nat, contents: seq<byte>)
    returns (long': Option<seq<byte>>, next: nat, later: Option<seq<byte>>)
    requires off + BLOCK <= |data| && h == data[off..off + BLOCK] && !AllZero(h)
    requires size == TarOctal(SizeField(h)) && contents == data[off + BLOCK..Min(off + BLOCK + size, |data|)]
    ensures next == off + BLOCK + BlocksOf(size)
    ensures later == FirstData(long', data, next)
    ensures FirstData(long, data, off) == if IsRegular(h[TYPE_OFFSET]) && size > 0 then Some(contents) else later
  {
    var t, next', rest := WalkStep(long, data, off, h, size, contents);
    next := next';
    FirstSizedAppend(t.record, rest);
    long' := t.long;
    later := DataOf(FirstSized(rest));
  }

  method UntarFirst(data: seq<byte>) returns (r: Option<seq<byte>>)
    ensures r == DataOf(FirstSized(Records(None, data)))
  {
    var off := 0;
    ghost var long: Option<seq<byte>> := None;
    assert Drop(data, 0) == data;
    ghost var ahead := FirstData(long, data, off);
    while off + BLOCK <= |data|
      invariant ahead == FirstData(None, data, 0)
      invariant ahead == FirstData(long, data, off)
      decreases |data| - off
    {
      var hdr := data[off..off + BLOCK];
      if AllZero(hdr) {
        break;
      }
      var size := TarOctal(SizeField(hdr));
      var typeflag := hdr[TYPE_OFFSET];
      ghost var from := off;
      off := off + BLOCK;
      var contents := data[off..Min(off + size, |data|)];
      ghost var next;
      long, next, ahead := FirstStep(long, data, from, hdr, size, contents);
      if IsRegular(typeflag) && size > 0 {
        return Some(contents);
      }
      off := off + BlocksOf(size);
      assert off == next;
    }
    WalkEnds(long, data, off);
    r := None;
  }
}
