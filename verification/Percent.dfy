/** Percent encoding (sections 2.1 and 2.3 of RFC 3986) and the query string it protects. */
module Percent {
  import opened Bytes
  import opened Radix

  const PLUS: byte := 43
  const PERCENT: byte := 37
  const SPACE: byte := 32
  const SLASH: byte := 47
  const AMPERSAND: byte := 38
  const EQUALS: byte := 61

  /** Letters, digits and `- _ . ~`. */
  predicate Unreserved(c: byte) {
    48 <= c <= 57 || 65 <= c <= 90 || 97 <= c <= 122 || c == 45 || c == 95 || c == 46 || c == 126
  }

  function UpperDigit(d: nat): byte
    requires d < 16
  {
    if d < 10 then 48 + d else 55 + d
  }

  /** `%XX` */
  function Escape(c: byte): seq<byte> {
    [PERCENT, UpperDigit(c / 16), UpperDigit(c % 16)]
  }

  /** One byte encoded: `pct` escapes the slash, `query_escape` keeps it. */
  function EncodeByte(c: byte, keepSlash: bool): seq<byte> {
    if Unreserved(c) || (keepSlash && c == SLASH) then [c] else Escape(c)
  }

  function Encoded(s: seq<byte>, keepSlash: bool): seq<byte> {
    if s == [] then [] else EncodeByte(s[0], keepSlash) + Encoded(s[1..], keepSlash)
  }

  /** What the decoder makes of the front of `s`: a byte, and how many it took. A malformed escape
      stands for itself. */
  function DecodeFirst(s: seq<byte>): (r: (byte, nat))
    requires s != []
    ensures 1 <= r.1 <= |s|
  {
    if s[0] == PLUS then (SPACE, 1)
    else if s[0] == PERCENT && 2 < |s| then
      match (DigitValue(s[1], 16), DigitValue(s[2], 16))
      case (Some(hi), Some(lo)) => (hi * 16 + lo, 3)
      case _ => (PERCENT, 1)
    else (s[0], 1)
  }

  function Decoded(s: seq<byte>): seq<byte>
    decreases |s|
  {
    if s == [] then [] else [DecodeFirst(s).0] + Decoded(s[DecodeFirst(s).1..])
  }

  lemma UpperDigitReadsBack(d: nat)
    requires d < 16
    ensures DigitValue(UpperDigit(d), 16) == Some(d)
  {
  }

  lemma EncodedByteReadsBack(c: byte, keepSlash: bool, rest: seq<byte>)
    ensures DecodeFirst(EncodeByte(c, keepSlash) + rest) == (c, |EncodeByte(c, keepSlash)|)
  {
    UpperDigitReadsBack(c / 16);
    UpperDigitReadsBack(c % 16);
    var s := EncodeByte(c, keepSlash) + rest;
    assert c == c / 16 * 16 + c % 16;
  }

  lemma DecodedCons(first: seq<byte>, rest: seq<byte>, c: byte)
    requires first != [] && DecodeFirst(first + rest) == (c, |first|)
    ensures Decoded(first + rest) == [c] + Decoded(rest)
  {
    assert (first + rest)[|first|..] == rest;
  }

  /** The decoder inverts both encoders, on every byte string. */
  lemma {:induction false} DecodeEncoded(s: seq<byte>, keepSlash: bool)
    ensures Decoded(Encoded(s, keepSlash)) == s
  {
    if s != [] {
      var first, rest := EncodeByte(s[0], keepSlash), Encoded(s[1..], keepSlash);
      EncodedByteReadsBack(s[0], keepSlash, rest);
      DecodedCons(first, rest, s[0]);
      DecodeEncoded(s[1..], keepSlash);
      assert s == [s[0]] + s[1..];
    }
  }

  /** Only unreserved characters and escapes come out: nothing a query string gives a meaning to. */
  lemma {:induction false} EncodedIsPlain(s: seq<byte>, keepSlash: bool)
    ensures forall c :: c in Encoded(s, keepSlash) ==> Unreserved(c) || c == PERCENT || (keepSlash && c == SLASH)
  {
    if s != [] {
      EncodedIsPlain(s[1..], keepSlash);
      var e := EncodeByte(s[0], keepSlash);
      assert forall c :: c in e ==> Unreserved(c) || c == PERCENT || (keepSlash && c == SLASH);
    }
  }

  lemma EncodeStep(s: seq<byte>, i: nat, keepSlash: bool, out: seq<byte>)
    requires i < |s|
    ensures out + Encoded(s[i..], keepSlash) == (out + EncodeByte(s[i], keepSlash)) + Encoded(s[i + 1..], keepSlash)
  {
    assert s[i..][1..] == s[i + 1..];
    var e, rest := EncodeByte(s[i], keepSlash), Encoded(s[i + 1..], keepSlash);
    assert out + (e + rest) == (out + e) + rest;
  }

  method Encode(s: seq<byte>, keepSlash: bool) returns (out: seq<byte>)
    ensures out == Encoded(s, keepSlash)
  {
    out := [];
    assert s[0..] == s && [] + Encoded(s, keepSlash) == Encoded(s, keepSlash);
    for i := 0 to |s|
      invariant out + Encoded(s[i..], keepSlash) == Encoded(s, keepSlash)
    {
      var c := s[i];
      var piece := if Unreserved(c) || (keepSlash && c == SLASH) then [c] else Escape(c);
      EncodeStep(s, i, keepSlash, out);
      out := out + piece;
    }
    assert out + [] == out;
  }

  /** The same rule, read at an index of the whole string. */
  lemma DecodeFirstAt(b: seq<byte>, i: nat)
    requires i < |b|
    ensures DecodeFirst(b[i..])
         == if b[i] == PLUS then (SPACE, 1)
            else if b[i] == PERCENT && i + 2 < |b| then
              match (DigitValue(b[i + 1], 16), DigitValue(b[i + 2], 16))
              case (Some(hi), Some(lo)) => (hi * 16 + lo, 3)
              case _ => (PERCENT, 1)
            else (b[i], 1)
  {
    assert i + 2 < |b| ==> b[i..][1] == b[i + 1] && b[i..][2] == b[i + 2];
  }

  lemma DecodeStep(b: seq<byte>, i: nat, c: byte, n: nat) returns (later: seq<byte>)
    requires i < |b| && DecodeFirst(b[i..]) == (c, n)
    ensures i + n <= |b| && later == Decoded(b[i + n..]) && Decoded(b[i..]) == [c] + later
  {
    assert b[i..][n..] == b[i + n..];
    later := Decoded(b[i + n..]);
  }

  /** What stands at index `i`, and how many bytes it takes up. */
  method DecodeAt(b: seq<byte>, i: nat) returns (c: byte, n: nat)
    requires i < |b|
    ensures (c, n) == DecodeFirst(b[i..])
  {
    DecodeFirstAt(b, i);
    c, n := b[i], 1;
    if c == PLUS {
      c := SPACE;
    } else if c == PERCENT && i + 2 < |b| {
      var hi, lo := DigitValue(b[i + 1], 16), DigitValue(b[i + 2], 16);
      if hi.Some? && lo.Some? {
        c, n := hi.value * 16 + lo.value, 3;
      }
    }
  }

  method Decode(b: seq<byte>) returns (out: seq<byte>)
    ensures out == Decoded(b)
  {
    out := [];
    var i := 0;
    assert b[0..] == b;
    ghost var ahead := Decoded(b[i..]);
    ghost var whole := ahead;
    while i < |b|
      invariant 0 <= i <= |b| && ahead == Decoded(b[i..]) && out + ahead == whole
      decreases |b| - i
    {
      var c, n := DecodeAt(b, i);
      ahead := DecodeStep(b, i, c, n);
      Regroup(out, [c], ahead);
      out := out + [c];
      i := i + n;
    }
    Regroup(out, [], []);
  }

  // ---------- what every text decodes to ----------

  lemma UpperDigitIs(d: nat)
    requires d < 16
    ensures UpperDigit(d) == UPPER[d] as int
  {
  }

  /** What a byte is written as: itself, or its two digits in upper case. */
  lemma ByteIsWritten(c: byte, keepSlash: bool)
    ensures var plain := 'A' <= c as char <= 'Z' || 'a' <= c as char <= 'z' || '0' <= c as char <= '9'
                         || c as char in "-_.~" || (keepSlash && c as char == '/');
            if plain then EncodeByte(c, keepSlash) == [c]
            else EncodeByte(c, keepSlash) == ['%' as int, UPPER[c / 16] as int, UPPER[c % 16] as int]
  {
    UpperDigitIs(c / 16);
    UpperDigitIs(c % 16);
    assert c as char in "-_.~" <==> c == 45 || c == 95 || c == 46 || c == 126;
  }

  /** A piece of an encoded text: a character that stands for itself, a plus sign, an escape, or a percent
      sign that starts none. */
  datatype Token = Plain(c: byte) | PlusSign | Escaped(high: byte, low: byte, c: byte) | Loose

  function TextOf(t: Token): seq<byte> {
    match t
    case Plain(c) => [c]
    case PlusSign => [43]
    case Escaped(high, low, _) => [37, high, low]
    case Loose => [37]
  }

  function MeaningOf(t: Token): byte {
    match t
    case Plain(c) => c
    case PlusSign => 32
    case Escaped(_, _, c) => c
    case Loose => 37
  }

  ghost predicate HexPair(high: byte, low: byte, c: byte) {
    SpellsDigit(high, c / 16) && SpellsDigit(low, c % 16)
  }

  ghost predicate NoEscape(rest: seq<byte>) {
    |rest| >= 2 ==> forall c :: !HexPair(rest[0], rest[1], c)
  }

  /** The token may stand in front of `rest`. */
  ghost predicate Fits(t: Token, rest: seq<byte>) {
    match t
    case Plain(c) => c != 37 && c != 43
    case PlusSign => true
    case Escaped(high, low, c) => HexPair(high, low, c)
    case Loose => NoEscape(rest)
  }

  function Texts(tokens: seq<Token>): seq<byte> {
    if tokens == [] then [] else TextOf(tokens[0]) + Texts(tokens[1..])
  }

  function Meanings(tokens: seq<Token>): seq<byte> {
    if tokens == [] then [] else [MeaningOf(tokens[0])] + Meanings(tokens[1..])
  }

  ghost predicate AllFit(tokens: seq<Token>) {
    tokens != [] ==> Fits(tokens[0], Texts(tokens[1..])) && AllFit(tokens[1..])
  }

  lemma PairOf(high: byte, low: byte, x: nat, y: nat)
    requires DigitValue(high, 16) == Some(x) && DigitValue(low, 16) == Some(y)
    ensures x * 16 + y < 256 && HexPair(high, low, x * 16 + y)
  {
    DigitExactly(high, x);
    DigitExactly(low, y);
    assert (x * 16 + y) / 16 == x && (x * 16 + y) % 16 == y;
  }

  lemma FirstToken(t: Token, rest: seq<byte>)
    requires Fits(t, rest)
    ensures DecodeFirst(TextOf(t) + rest) == (MeaningOf(t), |TextOf(t)|)
  {
    var s := TextOf(t) + rest;
    match t {
      case Plain(_) =>
      case PlusSign =>
      case Escaped(high, low, c) =>
        DigitExactly(high, c / 16);
        DigitExactly(low, c % 16);
      case Loose =>
        if |s| > 2 && DigitValue(s[1], 16).Some? && DigitValue(s[2], 16).Some? {
          PairOf(rest[0], rest[1], DigitValue(s[1], 16).value, DigitValue(s[2], 16).value);
        }
    }
  }

  /** Tokens decode to what they mean. */
  lemma {:induction false} TokensDecode(tokens: seq<Token>)
    requires AllFit(tokens)
    ensures Decoded(Texts(tokens)) == Meanings(tokens)
  {
    if tokens != [] {
      FirstToken(tokens[0], Texts(tokens[1..]));
      DecodedCons(TextOf(tokens[0]), Texts(tokens[1..]), MeaningOf(tokens[0]));
      TokensDecode(tokens[1..]);
    }
  }

  /** The token at the front of a text. */
  lemma TokenInFront(s: seq<byte>) returns (t: Token, rest: seq<byte>)
    requires s != []
    ensures s == TextOf(t) + rest && Fits(t, rest)
  {
    if s[0] == 43 {
      t, rest := PlusSign, s[1..];
    } else if s[0] != 37 {
      t, rest := Plain(s[0]), s[1..];
    } else if c: byte :| |s| > 2 && HexPair(s[1], s[2], c) {
      t, rest := Escaped(s[1], s[2], c), s[3..];
    } else {
      t, rest := Loose, s[1..];
    }
  }

  /** And every text is a run of such tokens: so much for malformed escapes. */
  lemma {:induction false} EveryTextDecodes(s: seq<byte>) returns (tokens: seq<Token>)
    ensures AllFit(tokens) && s == Texts(tokens) && Decoded(s) == Meanings(tokens)
    decreases |s|
  {
    if s == [] {
      tokens := [];
    } else {
      var t, rest := TokenInFront(s);
      var later := EveryTextDecodes(rest);
      tokens := [t] + later;
      assert tokens[1..] == later;
      TokensDecode(tokens);
    }
  }

  // ---------- the query string ----------

  /** One `key=value`: cut at the first equals sign, only the value decoded. */
  function ParsePair(kv: seq<byte>): (seq<byte>, seq<byte>) {
    var key := UpTo(kv, EQUALS);
    (key, if key == kv then [] else Decoded(kv[|key| + 1..]))
  }

  /** Later pairs overwrite earlier ones. */
  function Collect(kvs: seq<seq<byte>>): map<seq<byte>, seq<byte>> {
    if kvs == [] then map[]
    else
      var before, kv := Collect(kvs[..|kvs| - 1]), kvs[|kvs| - 1];
      if kv == [] then before else before[ParsePair(kv).0 := ParsePair(kv).1]
  }

  function ParseQuery(q: seq<byte>): map<seq<byte>, seq<byte>> {
    Collect(Split(q, AMPERSAND))
  }

  function Pair(key: seq<byte>, value: seq<byte>): seq<byte> {
    key + ([EQUALS] + Encoded(value, false))
  }

  function Pairs(fields: seq<(seq<byte>, seq<byte>)>): (kvs: seq<seq<byte>>)
    ensures |kvs| == |fields|
  {
    seq(|fields|, i requires 0 <= i < |fields| => Pair(fields[i].0, fields[i].1))
  }

  function MapOf(fields: seq<(seq<byte>, seq<byte>)>): map<seq<byte>, seq<byte>> {
    if fields == [] then map[]
    else MapOf(fields[..|fields| - 1])[fields[|fields| - 1].0 := fields[|fields| - 1].1]
  }

  lemma PairSplits(key: seq<byte>, e: seq<byte>)
    requires EQUALS !in key && AMPERSAND !in key && AMPERSAND !in e
    ensures var kv := key + ([EQUALS] + e);
            UpTo(kv, EQUALS) == key && key != kv && kv[|key| + 1..] == e && AMPERSAND !in kv
  {
    UpToEnd(key, [EQUALS] + e, EQUALS);
  }

  lemma PairReadsBack(key: seq<byte>, value: seq<byte>)
    requires EQUALS !in key && AMPERSAND !in key
    ensures ParsePair(Pair(key, value)) == (key, value) && AMPERSAND !in Pair(key, value) && Pair(key, value) != []
  {
    EncodedIsPlain(value, false);
    PairSplits(key, Encoded(value, false));
    DecodeEncoded(value, false);
  }

  lemma {:induction false} CollectPairs(fields: seq<(seq<byte>, seq<byte>)>)
    requires forall i :: 0 <= i < |fields| ==> EQUALS !in fields[i].0 && AMPERSAND !in fields[i].0
    ensures Collect(Pairs(fields)) == MapOf(fields)
  {
    if fields != [] {
      var front, last := fields[..|fields| - 1], fields[|fields| - 1];
      CollectPairs(front);
      assert Pairs(fields)[..|fields| - 1] == Pairs(front);
      PairReadsBack(last.0, last.1);
    }
  }

  /** A query built from fields parses to those fields, whatever bytes the values hold; a key only
      must not hold the two separators. */
  lemma QueryReadsBack(fields: seq<(seq<byte>, seq<byte>)>)
    requires fields != []
    requires forall i :: 0 <= i < |fields| ==> EQUALS !in fields[i].0 && AMPERSAND !in fields[i].0
    ensures ParseQuery(Join(Pairs(fields), AMPERSAND)) == MapOf(fields)
  {
    forall i | 0 <= i < |fields|
      ensures AMPERSAND !in Pairs(fields)[i]
    {
      PairReadsBack(fields[i].0, fields[i].1);
    }
    SplitJoin(Pairs(fields), AMPERSAND);
    CollectPairs(fields);
  }

  /** A piece of a query: nothing between two separators, a key alone, or a key with its value. */
  datatype Piece = Gap | Bare(key: seq<byte>) | Full(key: seq<byte>, value: seq<byte>)

  ghost predicate ProperPiece(p: Piece) {
    !p.Gap? ==> EQUALS !in p.key && AMPERSAND !in p.key && (p.Bare? ==> p.key != [])
  }

  function PieceText(p: Piece): seq<byte> {
    match p
    case Gap => []
    case Bare(key) => key
    case Full(key, value) => Pair(key, value)
  }

  function PieceTexts(pieces: seq<Piece>): (kvs: seq<seq<byte>>)
    ensures |kvs| == |pieces|
  {
    seq(|pieces|, i requires 0 <= i < |pieces| => PieceText(pieces[i]))
  }

  /** Gaps say nothing, a key alone has the empty value, and a later piece wins. */
  function PieceMap(pieces: seq<Piece>): map<seq<byte>, seq<byte>> {
    if pieces == [] then map[]
    else
      var before, last := PieceMap(pieces[..|pieces| - 1]), pieces[|pieces| - 1];
      match last
      case Gap => before
      case Bare(key) => before[key := []]
      case Full(key, value) => before[key := value]
  }

  lemma PieceReadsBack(p: Piece)
    requires ProperPiece(p)
    ensures AMPERSAND !in PieceText(p) && (PieceText(p) == [] <==> p.Gap?)
    ensures !p.Gap? ==> ParsePair(PieceText(p)) == (p.key, if p.Bare? then [] else p.value)
  {
    match p
    case Gap =>
    case Bare(key) => UpToNothing(key, EQUALS);
    case Full(key, value) => PairReadsBack(key, value);
  }

  lemma {:induction false} CollectPieces(pieces: seq<Piece>)
    requires forall i :: 0 <= i < |pieces| ==> ProperPiece(pieces[i])
    ensures Collect(PieceTexts(pieces)) == PieceMap(pieces)
  {
    if pieces != [] {
      var front, last := pieces[..|pieces| - 1], pieces[|pieces| - 1];
      CollectPieces(front);
      assert PieceTexts(pieces)[..|pieces| - 1] == PieceTexts(front);
      PieceReadsBack(last);
    }
  }

  /** A query of such pieces parses to what they say. */
  lemma PiecesReadBack(pieces: seq<Piece>)
    requires pieces != [] && forall i :: 0 <= i < |pieces| ==> ProperPiece(pieces[i])
    ensures ParseQuery(Join(PieceTexts(pieces), AMPERSAND)) == PieceMap(pieces)
  {
    forall i | 0 <= i < |pieces|
      ensures AMPERSAND !in PieceTexts(pieces)[i]
    {
      PieceReadsBack(pieces[i]);
    }
    SplitJoin(PieceTexts(pieces), AMPERSAND);
    CollectPieces(pieces);
  }

  // ---------- escaped keys ----------

  ghost predicate PlainKey(key: seq<byte>) {
    forall c :: c in key ==> Unreserved(c)
  }

  ghost predicate PlainKeys(fields: seq<(seq<byte>, seq<byte>)>) {
    forall i :: 0 <= i < |fields| ==> PlainKey(fields[i].0)
  }

  /** The fields with their keys escaped as well. */
  function EscapedKeys(fields: seq<(seq<byte>, seq<byte>)>): (escaped: seq<(seq<byte>, seq<byte>)>)
    ensures |escaped| == |fields|
  {
    seq(|fields|, i requires 0 <= i < |fields| => (Encoded(fields[i].0, false), fields[i].1))
  }

  lemma {:induction false} PlainKeyStays(s: seq<byte>)
    requires PlainKey(s)
    ensures Encoded(s, false) == s
  {
    if s != [] {
      assert s[0] in s;
      PlainKeyStays(s[1..]);
    }
  }

  lemma {:induction false} OtherKeyGrows(s: seq<byte>)
    ensures |Encoded(s, false)| >= |s|
    ensures !PlainKey(s) ==> |Encoded(s, false)| > |s| && PERCENT in Encoded(s, false)
  {
    if s != [] {
      OtherKeyGrows(s[1..]);
      var e, rest := EncodeByte(s[0], false), Encoded(s[1..], false);
      if Unreserved(s[0]) {
        assert PlainKey(s[1..]) ==> PlainKey(s);
        assert PERCENT in rest ==> PERCENT in e + rest;
      } else {
        assert (e + rest)[0] == PERCENT;
      }
    }
  }

  lemma {:induction false} KeyOfMap(fields: seq<(seq<byte>, seq<byte>)>, key: seq<byte>) returns (i: nat)
    requires key in MapOf(fields)
    ensures i < |fields| && fields[i].0 == key
  {
    var last := |fields| - 1;
    i := last;
    if fields[last].0 != key {
      i := KeyOfMap(fields[..last], key);
    }
  }

  lemma {:induction false} FieldInMap(fields: seq<(seq<byte>, seq<byte>)>, i: nat)
    requires i < |fields|
    ensures fields[i].0 in MapOf(fields)
  {
    if i < |fields| - 1 {
      FieldInMap(fields[..|fields| - 1], i);
    }
  }

  lemma {:induction false} KeysAreBounded(fields: seq<(seq<byte>, seq<byte>)>) returns (bound: nat)
    ensures forall i :: 0 <= i < |fields| ==> |fields[i].0| <= bound
  {
    bound := 0;
    if fields != [] {
      var before := KeysAreBounded(fields[..|fields| - 1]);
      bound := before + |fields[|fields| - 1].0|;
    }
  }

  /** If escaping the keys left the map alone, a key that escaping changes would have a longer one of its
      kind behind it, without end. */
  lemma {:induction false} ChangedKeyShows(fields: seq<(seq<byte>, seq<byte>)>, i: nat, bound: nat)
    requires i < |fields| && !PlainKey(fields[i].0)
    requires forall j :: 0 <= j < |fields| ==> |fields[j].0| <= bound
    ensures MapOf(EscapedKeys(fields)) != MapOf(fields)
    decreases bound - |fields[i].0|
  {
    FieldInMap(EscapedKeys(fields), i);
    var longer := Encoded(fields[i].0, false);
    OtherKeyGrows(fields[i].0);
    if longer in MapOf(fields) {
      var j := KeyOfMap(fields, longer);
      assert !Unreserved(PERCENT);
      ChangedKeyShows(fields, j, bound);
    }
  }

  /** Keys are not decoded, so a query with escaped keys parses to the fields under their escaped keys:
      to the fields themselves exactly when escaping leaves every key alone. */
  lemma EscapedKeysReadBack(fields: seq<(seq<byte>, seq<byte>)>)
    requires fields != []
    ensures ParseQuery(Join(Pairs(EscapedKeys(fields)), AMPERSAND)) == MapOf(EscapedKeys(fields))
    ensures ParseQuery(Join(Pairs(EscapedKeys(fields)), AMPERSAND)) == MapOf(fields) <==> PlainKeys(fields)
  {
    var escaped := EscapedKeys(fields);
    forall i | 0 <= i < |escaped|
      ensures EQUALS !in escaped[i].0 && AMPERSAND !in escaped[i].0
    {
      EncodedIsPlain(fields[i].0, false);
    }
    QueryReadsBack(escaped);
    if PlainKeys(fields) {
      forall i | 0 <= i < |fields|
        ensures escaped[i] == fields[i]
      {
        PlainKeyStays(fields[i].0);
      }
      assert escaped == fields;
    } else {
      var i :| 0 <= i < |fields| && !PlainKey(fields[i].0);
      var bound := KeysAreBounded(fields);
      ChangedKeyShows(fields, i, bound);
    }
  }
}
