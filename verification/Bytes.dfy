/** Bytes, optional values and big-endian integers: what every wire format here is made of. */
module Bytes {
  type byte = x: int | 0 <= x < 256

  /** One past the largest value of Rust's `u64`, and of `usize` on the 64-bit hosts this runs on. */
  const U64_LIMIT: nat := 0x1_0000_0000_0000_0000
  const U32_LIMIT: nat := 0x1_0000_0000
  const U16_LIMIT: nat := 0x1_0000

  /** One more than the longest byte vector the allocator hands out; asking for more panics. */
  const VEC_LIMIT: nat := 0x8000_0000_0000_0000

  const LF: byte := 10
  const CR: byte := 13
  const CRLF: seq<byte> := [13, 10]

  datatype Option<+T> = None | Some(value: T)

  function Min(a: nat, b: nat): (m: nat)
    ensures m <= a && m <= b && (m == a || m == b)
  {
    if a <= b then a else b
  }

  lemma Regroup<T>(a: seq<T>, b: seq<T>, c: seq<T>)
    ensures a + (b + c) == (a + b) + c && a + [] == a && [] + c == c
  {
  }

  lemma TakeInParts<T>(s: seq<T>, take: nat, n: nat)
    requires take <= n <= |s|
    ensures s[..n] == s[..take] + s[take..][..n - take] && s[take..][n - take..] == s[n..]
    ensures s == s[..take] + s[take..]
  {
  }

  /** `n` zero bytes. */
  function Zeros(n: nat): (z: seq<byte>)
    ensures |z| == n && forall i :: 0 <= i < n ==> z[i] == 0
  {
    seq(n, i => 0)
  }

  /** 256 to the power `width`: how many values `width` bytes can hold. */
  function Span(width: nat): (s: nat)
    ensures s > 0
  {
    if width == 0 then 1 else 256 * Span(width - 1)
  }

  /** `to_be_bytes` of the low `width` bytes of `v`: the `as u16` / `as u32` truncation included. */
  function BigEndian(width: nat, v: nat): (s: seq<byte>)
    ensures |s| == width
  {
    if width == 0 then [] else BigEndian(width - 1, v / 256) + [v % 256]
  }

  /** `from_be_bytes`. */
  function FromBigEndian(s: seq<byte>): (v: nat)
  {
    if s == [] then 0 else 256 * FromBigEndian(s[..|s| - 1]) + s[|s| - 1]
  }

  lemma {:induction false} FromBigEndianBound(s: seq<byte>)
    ensures FromBigEndian(s) < Span(|s|)
  {
    if s != [] {
      FromBigEndianBound(s[..|s| - 1]);
    }
  }

  lemma MulMono(a: int, b: int, m: nat)
    requires a <= b
    ensures a * m <= b * m
  {
  }

  lemma ModUnique(v: int, m: nat, q: int, r: nat)
    requires m > 0 && v == q * m + r && r < m
    ensures v % m == r && v / m == q
  {
    var q', r' := v / m, v % m;
    assert (q - q') * m == r' - r;
    if q - q' >= 1 {
      MulMono(1, q - q', m);
    } else if q - q' <= -1 {
      MulMono(q - q', -1, m);
    }
  }

  lemma DivModStep(v: nat, m: nat)
    requires m > 0
    ensures v % (256 * m) == 256 * ((v / 256) % m) + v % 256
  {
    var q, r := (v / 256) / m, (v / 256) % m;
    assert v / 256 == q * m + r;
    assert v == 256 * (q * m + r) + v % 256;
    var low := 256 * r + v % 256;
    assert 256 * (q * m) == q * (256 * m);
    assert v == q * (256 * m) + low;
    assert 256 * r <= 256 * (m - 1);
    ModUnique(v, 256 * m, q, low);
  }

  /** Reading back what was written gives the value truncated to the field's width. */
  lemma {:induction false} BigEndianRoundTrip(width: nat, v: nat)
    ensures FromBigEndian(BigEndian(width, v)) == v % Span(width)
  {
    if width > 0 {
      BigEndianRoundTrip(width - 1, v / 256);
      var s := BigEndian(width, v);
      assert s[..|s| - 1] == BigEndian(width - 1, v / 256);
      DivModStep(v, Span(width - 1));
    }
  }

  /** Writing back what was read gives the same bytes. */
  lemma {:induction false} BigEndianOfRead(s: seq<byte>)
    ensures BigEndian(|s|, FromBigEndian(s)) == s
  {
    if s != [] {
      var front := s[..|s| - 1];
      BigEndianOfRead(front);
      assert FromBigEndian(s) / 256 == FromBigEndian(front);
      assert s == front + [s[|s| - 1]];
    }
  }

  lemma Spans()
    ensures Span(2) == U16_LIMIT && Span(4) == U32_LIMIT && Span(8) == U64_LIMIT
  {
    assert Span(1) == 256;
    assert Span(2) == 0x1_0000;
    assert Span(3) == 0x100_0000;
    assert Span(4) == 0x1_0000_0000;
    assert Span(5) == 0x100_0000_0000;
    assert Span(6) == 0x1_0000_0000_0000;
    assert Span(7) == 0x100_0000_0000_0000;
    assert Span(8) == 0x1_0000_0000_0000_0000;
  }

  /** The round trip for a value that fits its field. */
  lemma BigEndianFits(width: nat, v: nat)
    requires v < Span(width)
    ensures FromBigEndian(BigEndian(width, v)) == v
  {
    BigEndianRoundTrip(width, v);
  }

  // ---------- cutting at a separator ----------

  /** Bytes up to the first one that is `stop`. */
  function UpTo(s: seq<byte>, stop: byte): (r: seq<byte>)
    ensures r <= s && stop !in r
    ensures r == s || s[|r|] == stop
  {
    if s == [] || s[0] == stop then [] else [s[0]] + UpTo(s[1..], stop)
  }

  lemma {:induction false} UpToEnd(s: seq<byte>, tail: seq<byte>, stop: byte)
    requires stop !in s && tail != [] && tail[0] == stop
    ensures UpTo(s + tail, stop) == s
  {
    if s != [] {
      UpToEnd(s[1..], tail, stop);
      assert (s + tail)[1..] == s[1..] + tail;
    } else {
      assert s + tail == tail;
    }
  }

  lemma {:induction false} UpToNothing(s: seq<byte>, stop: byte)
    requires stop !in s
    ensures UpTo(s, stop) == s
  {
    if s != [] {
      UpToNothing(s[1..], stop);
    }
  }

  /** `split(sep)`. */
  function Split(s: seq<byte>, sep: byte): (parts: seq<seq<byte>>)
    ensures parts != [] && forall i :: 0 <= i < |parts| ==> sep !in parts[i]
  {
    var first := UpTo(s, sep);
    if first == s then [first] else [first] + Split(s[|first| + 1..], sep)
  }

  /** The parts with the separator between them. */
  function Join(parts: seq<seq<byte>>, sep: byte): seq<byte>
    requires parts != []
  {
    if |parts| == 1 then parts[0] else parts[0] + [sep] + Join(parts[1..], sep)
  }

  lemma SplitFirst(first: seq<byte>, rest: seq<byte>, sep: byte)
    requires sep !in first
    ensures Split(first + ([sep] + rest), sep) == [first] + Split(rest, sep)
  {
    var s := first + ([sep] + rest);
    UpToEnd(first, [sep] + rest, sep);
    assert s[|first| + 1..] == rest;
  }

  /** Splitting what was joined gives the parts back. */
  lemma {:induction false} SplitJoin(parts: seq<seq<byte>>, sep: byte)
    requires parts != [] && forall i :: 0 <= i < |parts| ==> sep !in parts[i]
    ensures Split(Join(parts, sep), sep) == parts
  {
    var first, later := parts[0], parts[1..];
    assert parts == [first] + later;
    if |parts| == 1 {
      UpToNothing(first, sep);
    } else {
      SplitJoin(later, sep);
      assert Join(parts, sep) == first + ([sep] + Join(later, sep));
      SplitFirst(first, Join(later, sep), sep);
    }
  }
}
