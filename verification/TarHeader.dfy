/** The 512-byte tar header: numeric fields, names, and the image the encoder writes. */
module TarHeader {
  import opened Bytes
  import opened Radix

  const BLOCK: nat := 512

  function SkipSpaces(s: seq<byte>): seq<byte> {
    if s != [] && s[0] == 32 then SkipSpaces(s[1..]) else s
  }

  function UpToNulOrSpace(s: seq<byte>): seq<byte> {
    UpTo(UpTo(s, 0), 32)
  }

  function OctalOrZero(s: seq<byte>): (n: nat)
    ensures n < U64_LIMIT
  {
    match FromStrRadix(s, 8)
    case Some(n) => n
    case None => 0
  }

  /** A numeric field of the streaming extractor: octal text after leading blanks, or base 256 kept
      to 64 bits when the first byte has its high bit set. */
  function TarSize(field: seq<byte>): (n: nat)
    ensures n < U64_LIMIT
  {
    if field != [] && field[0] >= 128 then FromBigEndian(field[1..]) % 0x1_0000_0000_0000_0000
    else OctalOrZero(UpToNulOrSpace(SkipSpaces(field)))
  }

  /** White space among the first 256 code points. */
  predicate IsBlank(c: byte) {
    9 <= c <= 13 || c == 32 || c == 0x85 || c == 0xA0
  }

  function Trim(s: seq<byte>): seq<byte> {
    if s != [] && IsBlank(s[0]) then Trim(s[1..])
    else if s != [] && IsBlank(s[|s| - 1]) then Trim(s[..|s| - 1])
    else s
  }

  /** A numeric field of the buffered extractors: octal text only, ended by the first NUL or space. */
  function TarOctal(field: seq<byte>): (n: nat)
    ensures n < U64_LIMIT
  {
    OctalOrZero(Trim(UpToNulOrSpace(field)))
  }

  /** `size.div_ceil(512) * 512` in wrapping 64-bit arithmetic. */
  function Padded(size: nat): (n: nat)
    ensures n < U64_LIMIT
  {
    (size + 511) / 512 * 512 % 0x1_0000_0000_0000_0000
  }

  /** `padded - size`, wrapping. */
  function Padding(size: nat): (n: nat)
  {
    (Padded(size) - size) % 0x1_0000_0000_0000_0000
  }

  /** Even where the padded size wraps, the padding after a file's data comes out right. */
  lemma PaddingIsExact(size: nat)
    requires size < U64_LIMIT
    ensures Padding(size) < BLOCK && (size + Padding(size)) % 512 == 0
    ensures size <= U64_LIMIT - BLOCK ==> Padded(size) == size + Padding(size)
  {
    var full := (size + 511) / 512 * 512;
    assert size <= full < size + BLOCK && full % 512 == 0;
    if full == U64_LIMIT {
      assert Padded(size) == 0;
      assert Padding(size) == U64_LIMIT - size;
    } else {
      assert full < U64_LIMIT;
    }
  }

  lemma PaddedIsBlocks(size: nat)
    ensures Padded(size) % 512 == 0
  {
  }

  predicate IsHeader(h: seq<byte>) {
    |h| == BLOCK
  }

  predicate AllZero(h: seq<byte>) {
    forall i :: 0 <= i < |h| ==> h[i] == 0
  }

  const TYPE_OFFSET: nat := 156
  const TYPE_FILE: byte := 48
  const TYPE_CONTIGUOUS: byte := 55
  const TYPE_DIR: byte := 53
  const TYPE_LONG_NAME: byte := 76
  const TYPE_PAX: byte := 120
  /** `ustar` without and with the NUL that only POSIX headers carry. */
  const USTAR: seq<byte> := [117, 115, 116, 97, 114]

  function SizeField(h: seq<byte>): seq<byte>
    requires IsHeader(h)
  {
    h[124..136]
  }

  /** The name field alone. */
  function PlainName(h: seq<byte>): seq<byte>
    requires IsHeader(h)
  {
    UpTo(h[..100], 0)
  }

  /** The name, under its prefix in a POSIX header. */
  function UstarName(h: seq<byte>): seq<byte>
    requires IsHeader(h)
  {
    var prefix := UpTo(h[345..500], 0);
    if h[257..263] == USTAR + [0] && prefix != [] then prefix + [47] + PlainName(h) else PlainName(h)
  }

  /** The lines of a pax record block, `lines()`: at LF, a CR before it dropped. */
  function FirstLine(s: seq<byte>): (line: seq<byte>)
    ensures line <= s
  {
    UpTo(s, LF)
  }

  function DropCr(line: seq<byte>): seq<byte> {
    if line != [] && line[|line| - 1] == CR then line[..|line| - 1] else line
  }

  /** `path=` */
  const PATH_KEY: seq<byte> := [112, 97, 116, 104, 61]

  /** The `path=` value of one `"<len> path=<value>"` record. */
  function PaxRecordPath(record: seq<byte>): Option<seq<byte>> {
    var length := UpTo(record, 32);
    if length == record then None
    else
      var pair := record[|length| + 1..];
      if PATH_KEY <= pair then Some(pair[|PATH_KEY|..]) else None
  }

  function PaxPath(meta: seq<byte>): Option<seq<byte>>
    decreases |meta|
  {
    if meta == [] then None
    else
      var line := FirstLine(meta);
      // A last line without its LF keeps a trailing CR.
      var record := if line == meta then line else DropCr(line);
      match PaxRecordPath(record)
      case Some(path) => Some(path)
      case None => if line == meta then None else PaxPath(meta[|line| + 1..])
  }

  // ---------- the encoder ----------

  /** Eleven octal digits and a NUL, or base 256 from 8 GiB on, as GNU tar writes them. */
  function EncodeSize(n: nat): (field: seq<byte>)
    requires n < U64_LIMIT
    ensures |field| == 12
  {
    if n < Power(8, 11) then
      FormatWidth(n, 8, 11);
      seq(11 - |Format(n, 8)|, i => 48) + Format(n, 8) + [0]
    else [128] + BigEndian(11, n)
  }

  lemma OctalText(digits: seq<byte>, n: nat)
    requires digits != [] && AllDigits(digits) && DigitsValue(digits, 8) == Some(n) && n < U64_LIMIT
    ensures UpToNulOrSpace(digits + [0]) == Trim(digits) == digits
    ensures OctalOrZero(digits) == n
    ensures SkipSpaces(digits + [0]) == digits + [0]
  {
    UpToEnd(digits, [0], 0);
    UpToNothing(digits, 32);
    assert digits[0] != 43;
  }

  lemma OctalReadsBack(n: nat)
    requires n < Power(8, 11) && n < U64_LIMIT
    ensures TarOctal(EncodeSize(n)) == n && TarSize(EncodeSize(n)) == n
  {
    FormatWidth(n, 8, 11);
    var zeros: seq<byte> := seq(11 - |Format(n, 8)|, i => 48);
    var digits := zeros + Format(n, 8);
    assert EncodeSize(n) == digits + [0];
    FormatIsDigits(n, 8);
    FormatParses(n, 8);
    LeadingZeros(|zeros|, Format(n, 8), 8);
    OctalText(digits, n);
    assert (digits + [0])[0] == digits[0];
  }

  /** The size field reads back for every 64-bit size, octal and base 256. */
  lemma SizeReadsBack(n: nat)
    requires n < U64_LIMIT
    ensures TarSize(EncodeSize(n)) == n
  {
    if n < Power(8, 11) {
      OctalReadsBack(n);
    } else {
      var field := EncodeSize(n);
      assert field[1..] == BigEndian(11, n);
      BigEndianRoundTrip(11, n);
      Spans();
      assert Span(11) == 256 * Span(10) && Span(10) == 256 * Span(9) && Span(9) == 256 * Span(8);
      assert n % Span(11) == n;
    }
  }

  // ---------- how others write numbers ----------

  /** The number ends at a NUL, at a space, or with the field. */
  ghost predicate Ends(tail: seq<byte>) {
    tail == [] || tail[0] == 0 || tail[0] == 32
  }

  lemma UpToEnds(text: seq<byte>, tail: seq<byte>)
    requires 0 !in text && 32 !in text && Ends(tail)
    ensures UpToNulOrSpace(text + tail) == text
  {
    UpToNothing(text, 32);
    if tail == [] {
      assert text + tail == text;
      UpToNothing(text, 0);
    } else if tail[0] == 0 {
      UpToEnd(text, tail, 0);
    } else {
      var before := UpTo(text + tail, 0);
      assert |before| > |text| && (text + tail)[|text|] == 32;
      assert before == text + before[|text|..];
      UpToEnd(text, before[|text|..], 32);
    }
  }

  lemma {:induction false} SpacesSkipped(k: nat, rest: seq<byte>)
    requires rest != [] && rest[0] != 32
    ensures SkipSpaces(seq(k, i => 32) + rest) == rest
  {
    var spaces: seq<byte> := seq(k, i => 32);
    if k == 0 {
      assert spaces + rest == rest;
    } else {
      SpacesSkipped(k - 1, rest);
      assert (spaces + rest)[1..] == seq(k - 1, i => 32) + rest;
    }
  }

  /** Octal digits behind any number of spaces, ended in any of the three ways: the streaming extractor
      reads the number, the buffered ones read it as zero when there is a space in front. */
  lemma SpacedSize(k: nat, digits: seq<byte>, n: nat, tail: seq<byte>)
    requires digits != [] && AllDigits(digits) && DigitsValue(digits, 8) == Some(n) && n < U64_LIMIT && Ends(tail)
    ensures var field := seq(k, i => 32) + (digits + tail);
            TarSize(field) == n && TarOctal(field) == if k == 0 then n else 0
  {
    var spaces: seq<byte> := seq(k, i => 32);
    OctalText(digits, n);
    UpToEnds(digits, tail);
    assert (digits + tail)[0] == digits[0];
    SpacesSkipped(k, digits + tail);
    if k == 0 {
      assert spaces + (digits + tail) == digits + tail;
    } else {
      UpToEnds([], spaces + (digits + tail));
      assert [] + (spaces + (digits + tail)) == spaces + (digits + tail);
    }
  }

  /** The white space of one byte that is neither a space nor the end of the field. */
  const OTHER_BLANKS: seq<byte> := [9, 10, 11, 12, 13, 0x85, 0xA0]

  ghost predicate OtherBlanks(s: seq<byte>) {
    forall i :: 0 <= i < |s| ==> s[i] in OTHER_BLANKS
  }

  lemma {:induction false} FrontTrimmed(before: seq<byte>, rest: seq<byte>)
    requires OtherBlanks(before)
    ensures Trim(before + rest) == Trim(rest)
  {
    if before == [] {
      assert before + rest == rest;
    } else {
      FrontTrimmed(before[1..], rest);
      assert before[0] in OTHER_BLANKS;
      assert (before + rest)[1..] == before[1..] + rest;
    }
  }

  lemma {:induction false} BackTrimmed(digits: seq<byte>, after: seq<byte>)
    requires OtherBlanks(after) && digits != [] && AllDigits(digits)
    ensures Trim(digits + after) == digits
    decreases |after|
  {
    var s := digits + after;
    assert s[0] == digits[0];
    if after == [] {
      assert s == digits;
    } else {
      var k := |after| - 1;
      BackTrimmed(digits, after[..k]);
      assert after[k] in OTHER_BLANKS;
      assert s[..|s| - 1] == digits + after[..k];
    }
  }

  lemma BlanksTrimmed(before: seq<byte>, digits: seq<byte>, after: seq<byte>)
    requires OtherBlanks(before) && OtherBlanks(after) && digits != [] && AllDigits(digits)
    ensures Trim(before + digits + after) == digits
  {
    Regroup(before, digits, after);
    FrontTrimmed(before, digits + after);
    BackTrimmed(digits, after);
  }

  /** Other white space around the digits is trimmed by the buffered extractors. */
  lemma BlankSize(before: seq<byte>, digits: seq<byte>, after: seq<byte>, n: nat, tail: seq<byte>)
    requires OtherBlanks(before) && OtherBlanks(after) && Ends(tail)
    requires digits != [] && AllDigits(digits) && DigitsValue(digits, 8) == Some(n) && n < U64_LIMIT
    ensures TarOctal(before + digits + after + tail) == n
  {
    var text := before + digits + after;
    assert 0 !in text && 32 !in text;
    UpToEnds(text, tail);
    BlanksTrimmed(before, digits, after);
    OctalText(digits, n);
  }

  lemma MulParts(a: nat, s: nat, b: nat, last: nat)
    ensures 256 * (a * s + b) + last == a * (256 * s) + (256 * b + last)
  {
  }

  lemma {:induction false} FromBigEndianBoth(a: seq<byte>, b: seq<byte>)
    ensures FromBigEndian(a + b) == FromBigEndian(a) * Span(|b|) + FromBigEndian(b)
  {
    if b == [] {
      assert a + b == a;
    } else {
      var front, last := b[..|b| - 1], b[|b| - 1];
      FromBigEndianBoth(a, front);
      assert (a + b)[..|a + b| - 1] == a + front && (a + b)[|a + b| - 1] == last;
      MulParts(FromBigEndian(a), Span(|front|), FromBigEndian(front), last);
    }
  }

  lemma LowPart(high: nat, low: nat)
    requires low < 0x1_0000_0000_0000_0000
    ensures (high * 0x1_0000_0000_0000_0000 + low) % 0x1_0000_0000_0000_0000 == low
  {
  }

  /** With the high bit of its first byte set, a field is the number in its last eight bytes, whatever the
      bytes between say. */
  lemma BinarySize(field: seq<byte>)
    requires |field| == 12 && field[0] >= 128
    ensures TarSize(field) == FromBigEndian(field[4..])
  {
    var high, low := field[1..4], field[4..];
    assert field[1..] == high + low;
    FromBigEndianBoth(high, low);
    FromBigEndianBound(low);
    Spans();
    LowPart(FromBigEndian(high), FromBigEndian(low));
  }

  /** What the magic says of the 155 bytes at 345: GNU keeps times there, POSIX a prefix of the name. */
  datatype Style = Gnu(times: seq<byte>) | Posix(prefix: seq<byte>)

  ghost predicate ProperStyle(style: Style) {
    match style
    case Gnu(times) => |times| == 155
    case Posix(prefix) => |prefix| <= 155 && 0 !in prefix
  }

  function Magic(style: Style): (m: seq<byte>)
    ensures |m| == 6
  {
    USTAR + (if style.Gnu? then [32] else [0])
  }

  function Area(style: Style): (area: seq<byte>)
    requires ProperStyle(style)
    ensures |area| == 155
  {
    match style
    case Gnu(times) => times
    case Posix(prefix) => prefix + Zeros(155 - |prefix|)
  }

  /** The name a header of this style says. */
  function NameUnder(style: Style, name: seq<byte>): seq<byte> {
    if style.Posix? && style.prefix != [] then style.prefix + [47] + name else name
  }

  /** The header image: name, size, type, magic and the area behind it in their fields, zero elsewhere. */
  function Header(name: seq<byte>, size: nat, typeflag: byte, style: Style): (h: seq<byte>)
    requires |name| <= 100 && size < U64_LIMIT && ProperStyle(style)
    ensures IsHeader(h)
  {
    (name + Zeros(124 - |name|) + EncodeSize(size) + Zeros(20))
    + ([typeflag] + Zeros(100) + Magic(style) + Zeros(82) + Area(style) + Zeros(12))
  }

  lemma FrontFields(name: seq<byte>, field: seq<byte>, back: seq<byte>)
    requires |name| <= 100 && |field| == 12
    ensures var h := (name + Zeros(124 - |name|) + field + Zeros(20)) + back;
            h[..100] == name + Zeros(100 - |name|) && h[124..136] == field && h[156..] == back
  {
    var front := name + Zeros(124 - |name|) + field + Zeros(20);
    assert (front + back)[..100] == front[..100] == name + Zeros(100 - |name|);
    assert (front + back)[124..136] == front[124..136] == field;
  }

  lemma BackFields(typeflag: byte, magic: seq<byte>, area: seq<byte>)
    requires |magic| == 6 && |area| == 155
    ensures var back := [typeflag] + Zeros(100) + magic + Zeros(82) + area + Zeros(12);
            |back| == 356 && back[0] == typeflag && back[101..107] == magic && back[189..344] == area
  {
  }

  lemma SliceOfRest(h: seq<byte>, back: seq<byte>, from: nat, to: nat)
    requires |h| == 512 && h[156..] == back && 156 <= from <= to <= 512
    ensures h[from..to] == back[from - 156..to - 156] && (from < to ==> h[from] == back[from - 156])
  {
    assert h[156..][from - 156..to - 156] == h[from..to];
  }

  lemma BackOfHeader(h: seq<byte>, back: seq<byte>)
    requires |h| == 512 && h[156..] == back
    ensures h[156] == back[0] && h[257..263] == back[101..107] && h[345..500] == back[189..344]
  {
    SliceOfRest(h, back, 156, 157);
    SliceOfRest(h, back, 257, 263);
    SliceOfRest(h, back, 345, 500);
  }

  lemma HeaderFields(name: seq<byte>, size: nat, typeflag: byte, style: Style) returns (h: seq<byte>)
    requires |name| <= 100 && size < U64_LIMIT && ProperStyle(style)
    ensures h == Header(name, size, typeflag, style)
    ensures h[..100] == name + Zeros(100 - |name|) && h[124..136] == EncodeSize(size) && h[156] == typeflag
    ensures h[257..263] == Magic(style) && h[345..500] == Area(style)
  {
    h := Header(name, size, typeflag, style);
    var back := [typeflag] + Zeros(100) + Magic(style) + Zeros(82) + Area(style) + Zeros(12);
    FrontFields(name, EncodeSize(size), back);
    BackFields(typeflag, Magic(style), Area(style));
    BackOfHeader(h, back);
  }

  lemma PaddedText(text: seq<byte>, width: nat)
    requires |text| <= width && 0 !in text
    ensures UpTo(text + Zeros(width - |text|), 0) == text
  {
    if |text| < width {
      UpToEnd(text, Zeros(width - |text|), 0);
    } else {
      assert text + Zeros(0) == text;
      UpToNothing(text, 0);
    }
  }

  lemma SizeIsText(size: nat)
    requires size < U64_LIMIT
    ensures EncodeSize(size)[0] != 0
  {
    if size < Power(8, 11) {
      FormatWidth(size, 8, 11);
      FormatIsDigits(size, 8);
    }
  }

  lemma NameReadsBack(h: seq<byte>, name: seq<byte>, style: Style)
    requires IsHeader(h) && |name| <= 100 && 0 !in name && ProperStyle(style)
    requires h[..100] == name + Zeros(100 - |name|) && h[257..263] == Magic(style) && h[345..500] == Area(style)
    ensures PlainName(h) == name && UstarName(h) == NameUnder(style, name)
  {
    PaddedText(name, 100);
    if style.Posix? {
      PaddedText(style.prefix, 155);
    } else {
      assert Magic(style)[5] != (USTAR + [0])[5];
    }
  }

  /** Every field is found where it was put; the name comes back as prefix, slash and name from a POSIX
      header with a prefix, and as it is from any other. */
  lemma HeaderReadsBack(name: seq<byte>, size: nat, typeflag: byte, style: Style)
    requires |name| <= 100 && 0 !in name && size < U64_LIMIT && ProperStyle(style)
    ensures var h := Header(name, size, typeflag, style);
            !AllZero(h) && h[TYPE_OFFSET] == typeflag && SizeField(h) == EncodeSize(size)
            && PlainName(h) == name && UstarName(h) == NameUnder(style, name)
  {
    var h := HeaderFields(name, size, typeflag, style);
    SizeIsText(size);
    assert h[124] == h[124..136][0];
    NameReadsBack(h, name, style);
  }
}
