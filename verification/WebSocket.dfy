/** The WebSocket frame codec (sections 5.2 and 5.3 of RFC 6455). */
module WebSocket {
  import opened Bytes
  import opened Streams

  // ---------- masking ----------

  /** Exclusive or, bit by bit. */
  function XorBits(width: nat, a: nat, b: nat): nat {
    if width == 0 then 0 else 2 * XorBits(width - 1, a / 2, b / 2) + (a % 2 + b % 2) % 2
  }

  function Twos(width: nat): (n: nat)
    ensures n > 0
  {
    if width == 0 then 1 else 2 * Twos(width - 1)
  }

  lemma {:induction false} XorBound(width: nat, a: nat, b: nat)
    ensures XorBits(width, a, b) < Twos(width)
  {
    if width > 0 {
      XorBound(width - 1, a / 2, b / 2);
    }
  }

  lemma HalfOf(high: nat, low: nat)
    requires low < 2
    ensures (2 * high + low) / 2 == high && (2 * high + low) % 2 == low
  {
  }

  lemma BitTwice(a: nat, b: nat)
    requires a < 2 && b < 2
    ensures ((a + b) % 2 + b) % 2 == a
  {
  }

  lemma {:induction false} XorBitsTwice(width: nat, a: nat, b: nat)
    requires a < Twos(width)
    ensures XorBits(width, XorBits(width, a, b), b) == a
  {
    if width > 0 {
      XorBitsTwice(width - 1, a / 2, b / 2);
      var high, low := XorBits(width - 1, a / 2, b / 2), (a % 2 + b % 2) % 2;
      HalfOf(high, low);
      BitTwice(a % 2, b % 2);
      assert XorBits(width, a, b) == 2 * high + low;
    }
  }

  lemma ByteWidth()
    ensures Twos(8) == 256
  {
    assert Twos(4) == 16;
    assert Twos(6) == 64;
  }

  function Xor(a: byte, b: byte): byte {
    XorBound(8, a, b);
    ByteWidth();
    XorBits(8, a, b)
  }

  lemma XorTwice(a: byte, b: byte)
    ensures Xor(Xor(a, b), b) == a
  {
    ByteWidth();
    XorBitsTwice(8, a, b);
  }

  /** Bit `i` of a number, from the lowest. */
  predicate Bit(v: nat, i: nat) {
    if i == 0 then v % 2 == 1 else Bit(v / 2, i - 1)
  }

  lemma {:induction false} XorBitsAt(width: nat, a: nat, b: nat, i: nat)
    requires i < width
    ensures Bit(XorBits(width, a, b), i) <==> Bit(a, i) != Bit(b, i)
  {
    var high, low := XorBits(width - 1, a / 2, b / 2), (a % 2 + b % 2) % 2;
    HalfOf(high, low);
    if i > 0 {
      XorBitsAt(width - 1, a / 2, b / 2, i - 1);
    }
  }

  /** A bit of the result is set exactly when it is set in one of the two bytes and not in the other. */
  lemma XorAt(a: byte, b: byte, i: nat)
    requires i < 8
    ensures Bit(Xor(a, b), i) <==> Bit(a, i) != Bit(b, i)
  {
    XorBitsAt(8, a, b, i);
  }

  lemma {:induction false} SameBits(width: nat, a: nat, b: nat)
    requires a < Twos(width) && b < Twos(width)
    requires forall i :: 0 <= i < width ==> (Bit(a, i) <==> Bit(b, i))
    ensures a == b
  {
    if width > 0 {
      assert Bit(a, 0) <==> Bit(b, 0);
      forall i | 0 <= i < width - 1
        ensures Bit(a / 2, i) <==> Bit(b / 2, i)
      {
        assert Bit(a, i + 1) <==> Bit(b, i + 1);
      }
      SameBits(width - 1, a / 2, b / 2);
    }
  }

  lemma {:induction false} NoBits(i: nat)
    ensures !Bit(0, i)
  {
    if i > 0 {
      NoBits(i - 1);
    }
  }

  lemma XorZero(b: byte)
    ensures Xor(0, b) == b
  {
    ByteWidth();
    forall i | 0 <= i < 8
      ensures Bit(Xor(0, b), i) <==> Bit(b, i)
    {
      XorAt(0, b, i);
      NoBits(i);
    }
    SameBits(8, Xor(0, b), b);
  }

  function Masked(payload: seq<byte>, mask: seq<byte>): (m: seq<byte>)
    requires |mask| == 4
    ensures |m| == |payload|
  {
    seq(|payload|, i requires 0 <= i < |payload| => Xor(payload[i], mask[i % 4]))
  }

  /** Masking is its own inverse. */
  lemma MaskedTwice(payload: seq<byte>, mask: seq<byte>)
    requires |mask| == 4
    ensures Masked(Masked(payload, mask), mask) == payload
  {
    var once := Masked(payload, mask);
    var twice := Masked(once, mask);
    forall i | 0 <= i < |payload|
      ensures twice[i] == payload[i]
    {
      assert once[i] == Xor(payload[i], mask[i % 4]);
      XorTwice(payload[i], mask[i % 4]);
    }
  }

  /** A masked byte differs from the payload's in exactly the bits of its byte of the mask. */
  lemma MaskedAt(payload: seq<byte>, mask: seq<byte>, i: nat, j: nat)
    requires |mask| == 4 && i < |payload| && j < 8
    ensures Bit(Masked(payload, mask)[i], j) != Bit(payload[i], j) <==> Bit(mask[i % 4], j)
  {
    XorAt(payload[i], mask[i % 4], j);
  }

  /** Masking nothing but zeros writes the mask, again and again. */
  lemma MaskedZeros(k: nat, mask: seq<byte>, i: nat)
    requires |mask| == 4 && i < k
    ensures Masked(Zeros(k), mask)[i] == mask[i % 4]
  {
    XorZero(mask[i % 4]);
  }

  // ---------- the wire form ----------

  const TEXT: byte := 1
  const CLOSE: byte := 8
  const PING: byte := 9
  const PONG: byte := 10
  datatype Frame =
    | Text(text: seq<byte>)
    | Binary(data: seq<byte>)
    | Close
    | Ping(data: seq<byte>)
    | Pong(data: seq<byte>)

  /** What the receiver makes of an opcode: a continuation and anything unknown are binary. */
  function FrameOf(opcode: byte, payload: seq<byte>): Frame {
    if opcode == TEXT then Text(payload)
    else if opcode == CLOSE then Close
    else if opcode == PING then Ping(payload)
    else if opcode == PONG then Pong(payload)
    else Binary(payload)
  }

  /** The second byte with the mask bit set, and the extended length. */
  function LengthForm(n: nat): (form: seq<byte>)
    ensures form != []
  {
    if n < 126 then [128 + n]
    else if n < 65536 then [254] + BigEndian(2, n)
    else [255] + BigEndian(8, n)
  }

  function Image(opcode: byte, mask: seq<byte>, payload: seq<byte>): (b: seq<byte>)
    requires opcode < 16 && |mask| == 4
    ensures |b| == 1 + |LengthForm(|payload|)| + 4 + |payload|
  {
    [128 + opcode] + LengthForm(|payload|) + mask + Masked(payload, mask)
  }

  /** `Panics` is the allocation of a buffer no vector can be: 2^63 bytes or more. */
  datatype Reception = Got(frame: Frame, used: nat) | Short | Panics

  /** The bytes of the extended length after the second byte. */
  function Extended(second: byte): nat {
    if second % 128 == 126 then 2 else if second % 128 == 127 then 8 else 0
  }

  function PayloadLength(second: byte, extended: seq<byte>): nat
    requires |extended| == Extended(second)
  {
    if extended == [] then second % 128 else FromBigEndian(extended)
  }

  function ReceivePayload(opcode: byte, mask: Option<seq<byte>>, len: nat, from: nat, b: seq<byte>): (r: Reception)
    requires from <= |b| && (mask.Some? ==> |mask.value| == 4)
    ensures r.Got? ==> r.used == from + len <= |b|
  {
    if len >= VEC_LIMIT then Panics
    else if |b| < from + len then Short
    else
      var raw := b[from..from + len];
      Got(FrameOf(opcode, if mask.Some? then Masked(raw, mask.value) else raw), from + len)
  }

  /** `recv` on everything the stream will deliver. */
  function Receive(b: seq<byte>): (r: Reception)
    ensures r.Got? ==> 2 <= r.used <= |b|
  {
    if |b| < 2 || |b| < 2 + Extended(b[1]) then Short
    else
      var from := 2 + Extended(b[1]);
      var len := PayloadLength(b[1], b[2..from]);
      if b[1] >= 128 then
        if |b| < from + 4 then Short else ReceivePayload(b[0] % 16, Some(b[from..from + 4]), len, from + 4, b)
      else ReceivePayload(b[0] % 16, None, len, from, b)
  }

  // ---------- round trips ----------

  lemma LengthReadsBack(n: nat)
    requires n < VEC_LIMIT
    ensures var form := LengthForm(n);
            form[0] >= 128 && |form| == 1 + Extended(form[0]) && PayloadLength(form[0], form[1..]) == n
  {
    Spans();
    if 126 <= n < 65536 {
      BigEndianFits(2, n);
      assert LengthForm(n)[1..] == BigEndian(2, n);
    } else if 65536 <= n {
      BigEndianFits(8, n);
      assert LengthForm(n)[1..] == BigEndian(8, n);
    }
  }

  lemma ImageFields(opcode: byte, form: seq<byte>, mask: seq<byte>, payload: seq<byte>, tail: seq<byte>)
    requires opcode < 16 && |mask| == 4 && form != []
    ensures var b := [128 + opcode] + form + mask + payload + tail;
            var from := 1 + |form|;
            && |b| >= from + 4 + |payload| && b[0] % 16 == opcode && b[1] == form[0] && b[2..from] == form[1..]
            && b[from..from + 4] == mask && b[from + 4..from + 4 + |payload|] == payload
  {
    var b := [128 + opcode] + form + mask + payload + tail;
    assert b[1..1 + |form|] == form;
    assert (128 + opcode) % 16 == opcode;
  }

  /** Receiving a sent frame gives its payload and takes exactly its bytes, for every opcode the
      client sends and every mask. */
  lemma ReceiveImage(opcode: byte, mask: seq<byte>, payload: seq<byte>, tail: seq<byte>)
    requires opcode < 16 && |mask| == 4 && |payload| < VEC_LIMIT
    ensures Receive(Image(opcode, mask, payload) + tail)
         == Got(FrameOf(opcode, payload), |Image(opcode, mask, payload)|)
  {
    LengthReadsBack(|payload|);
    ImageFields(opcode, LengthForm(|payload|), mask, Masked(payload, mask), tail);
    MaskedTwice(payload, mask);
  }

  /** The frame on the wire: the mask stands in front of the payload, and each byte of that differs from
      the one sent in exactly the bits of its byte of the mask. */
  lemma ImageIsMasked(opcode: byte, mask: seq<byte>, payload: seq<byte>, i: nat, j: nat)
    requires opcode < 16 && |mask| == 4 && i < |payload| && j < 8
    ensures var b := Image(opcode, mask, payload);
            var from := |b| - |payload|;
            && b[from - 4..from] == mask
            && (Bit(b[from + i], j) != Bit(payload[i], j) <==> Bit(mask[i % 4], j))
  {
    ImageFields(opcode, LengthForm(|payload|), mask, Masked(payload, mask), []);
    var b := Image(opcode, mask, payload);
    assert b + [] == b;
    assert b[|b| - |payload|..][i] == Masked(payload, mask)[i];
    MaskedAt(payload, mask, i, j);
  }

  /** A frame as a server sends it: the same without a mask. */
  function PlainImage(opcode: byte, payload: seq<byte>): (b: seq<byte>)
    requires opcode < 16
  {
    var form := LengthForm(|payload|);
    [128 + opcode] + [form[0] % 128] + form[1..] + payload
  }

  /** The first two bytes: final and of this opcode, with no reserved bit set, and masked. */
  lemma ImageStarts(opcode: byte, mask: seq<byte>, payload: seq<byte>)
    requires opcode < 16 && |mask| == 4
    ensures var b := Image(opcode, mask, payload);
            |b| >= 2 && b[0] / 128 == 1 && b[0] % 128 == opcode && b[1] / 128 == 1
    ensures PlainImage(opcode, payload)[0] == Image(opcode, mask, payload)[0] && PlainImage(opcode, payload)[1] < 128
  {
    var form := LengthForm(|payload|);
    assert form[0] / 128 == 1;
    ImageFields(opcode, form, mask, Masked(payload, mask), []);
    assert Image(opcode, mask, payload) + [] == Image(opcode, mask, payload);
  }

  /** What a frame sent as text, data, close, ping or pong is received as, by the opcodes of section 5.2 of
      RFC 6455; a continuation and a reserved opcode are data. */
  lemma ReceiveKind(opcode: byte, mask: seq<byte>, payload: seq<byte>, tail: seq<byte>) returns (frame: Frame)
    requires opcode < 16 && |mask| == 4 && |payload| < VEC_LIMIT
    ensures Receive(Image(opcode, mask, payload) + tail) == Got(frame, |Image(opcode, mask, payload)|)
    ensures opcode == 1 ==> frame == Text(payload)
    ensures opcode == 0 || opcode == 2 ==> frame == Binary(payload)
    ensures opcode == 8 ==> frame == Close
    ensures opcode == 9 ==> frame == Ping(payload)
    ensures opcode == 10 ==> frame == Pong(payload)
    ensures 3 <= opcode <= 7 || opcode >= 11 ==> frame == Binary(payload)
  {
    ReceiveImage(opcode, mask, payload, tail);
    frame := FrameOf(opcode, payload);
  }

  lemma PlainFields(opcode: byte, first: byte, extended: seq<byte>, payload: seq<byte>, tail: seq<byte>)
    requires opcode < 16
    ensures var b := [128 + opcode] + [first] + extended + payload + tail;
            var from := 2 + |extended|;
            && |b| >= from + |payload| && b[0] % 16 == opcode && b[1] == first && b[2..from] == extended
            && b[from..from + |payload|] == payload
  {
    assert (128 + opcode) % 16 == opcode;
  }

  lemma WithoutMaskBit(second: byte, extended: seq<byte>)
    requires |extended| == Extended(second)
    ensures Extended(second % 128) == Extended(second) && second % 128 < 128
    ensures PayloadLength(second % 128, extended) == PayloadLength(second, extended)
  {
    assert second % 128 % 128 == second % 128;
  }

  lemma ReceiveAtFields(opcode: byte, first: byte, extended: seq<byte>, payload: seq<byte>, tail: seq<byte>)
    requires opcode < 16 && first < 128 && |extended| == Extended(first)
    requires PayloadLength(first, extended) == |payload| < VEC_LIMIT
    ensures Receive([128 + opcode] + [first] + extended + payload + tail)
         == Got(FrameOf(opcode, payload), 2 + |extended| + |payload|)
  {
    PlainFields(opcode, first, extended, payload, tail);
  }

  /** A server's frame is received as it was sent, without any mask. */
  lemma ReceivePlainImage(opcode: byte, payload: seq<byte>, tail: seq<byte>)
    requires opcode < 16 && |payload| < VEC_LIMIT
    ensures Receive(PlainImage(opcode, payload) + tail)
         == Got(FrameOf(opcode, payload), |PlainImage(opcode, payload)|)
  {
    var form := LengthForm(|payload|);
    LengthReadsBack(|payload|);
    WithoutMaskBit(form[0], form[1..]);
    ReceiveAtFields(opcode, form[0] % 128, form[1..], payload, tail);
  }

  /** A frame cut anywhere is an error, never a shorter payload. */
  lemma CutImageIsShort(opcode: byte, mask: seq<byte>, payload: seq<byte>, k: nat)
    requires opcode < 16 && |mask| == 4 && |payload| < VEC_LIMIT
    requires k < |Image(opcode, mask, payload)|
    ensures Receive(Image(opcode, mask, payload)[..k]) == Short
  {
    var b := Image(opcode, mask, payload);
    var form := LengthForm(|payload|);
    LengthReadsBack(|payload|);
    ImageFields(opcode, form, mask, Masked(payload, mask), []);
    assert b + [] == b;
    if k >= 2 {
      assert b[..k][1] == form[0];
      if k >= 1 + |form| {
        assert b[..k][2..1 + |form|] == b[2..1 + |form|];
      }
    }
  }

  /** No frame that announces as long a payload has a shorter length field. */
  lemma LengthFormIsMinimal(second: byte, extended: seq<byte>)
    requires |extended| == Extended(second)
    ensures |LengthForm(PayloadLength(second, extended))| <= 1 + |extended|
  {
    FromBigEndianBound(extended);
    Spans();
  }

  datatype Message = Message(opcode: byte, mask: seq<byte>, payload: seq<byte>)

  ghost predicate Sendable(m: Message) {
    m.opcode < 16 && |m.mask| == 4 && |m.payload| < VEC_LIMIT
  }

  function Images(messages: seq<Message>): seq<byte>
    requires forall m :: m in messages ==> Sendable(m)
  {
    if messages == [] then []
    else
      assert Sendable(messages[0]);
      Image(messages[0].opcode, messages[0].mask, messages[0].payload) + Images(messages[1..])
  }

  function Frames(messages: seq<Message>): seq<Frame> {
    if messages == [] then [] else [FrameOf(messages[0].opcode, messages[0].payload)] + Frames(messages[1..])
  }

  /** `recv` again and again until it fails. */
  function ReceiveAll(b: seq<byte>): seq<Frame>
    decreases |b|
  {
    match Receive(b)
    case Got(frame, used) => [frame] + ReceiveAll(b[used..])
    case Short => []
    case Panics => []
  }

  /** A run of sent frames decodes to the same run; one more cut short adds nothing. */
  lemma {:induction false} ReceiveAllImages(messages: seq<Message>, tail: seq<byte>)
    requires forall m :: m in messages ==> Sendable(m)
    requires Receive(tail) == Short
    ensures ReceiveAll(Images(messages) + tail) == Frames(messages)
  {
    if messages == [] {
      assert [] + tail == tail;
    } else {
      var m := messages[0];
      assert m in messages;
      var rest := Images(messages[1..]) + tail;
      assert Images(messages) + tail == Image(m.opcode, m.mask, m.payload) + rest;
      ReceiveImage(m.opcode, m.mask, m.payload, rest);
      ReceiveAllImages(messages[1..], tail);
    }
  }

  // ---------- the two methods ----------

  method SendFrame(stream: Sink, opcode: byte, mask: seq<byte>, payload: seq<byte>)
    requires opcode < 16 && |mask| == 4
    modifies stream
    ensures stream.data == old(stream.data) + Image(opcode, mask, payload)
  {
    var n := |payload|;
    var header: seq<byte> := [128 + opcode];
    if n < 126 {
      header := header + [128 + n];
    } else if n < 65536 {
      header := header + [128 + 126];
      header := header + BigEndian(2, n);
    } else {
      header := header + [128 + 127];
      header := header + BigEndian(8, n);
    }
    assert header == [128 + opcode] + LengthForm(n);
    header := header + mask;
    var masked: seq<byte> := [];
    for i := 0 to n
      invariant masked == Masked(payload, mask)[..i]
    {
      masked := masked + [Xor(payload[i], mask[i % 4])];
    }
    stream.WriteAll(header);
    stream.WriteAll(masked);
    assert old(stream.data) + header + masked == old(stream.data) + (header + masked);
  }

  /** Removing the mask in place. */
  method Unmask(payload: array<byte>, mask: seq<byte>)
    requires |mask| == 4
    modifies payload
    ensures payload[..] == Masked(old(payload[..]), mask)
  {
    for i := 0 to payload.Length
      invariant payload[..i] == Masked(old(payload[..]), mask)[..i]
      invariant payload[i..] == old(payload[..])[i..]
    {
      assert payload[i] == payload[i..][0];
      payload[i] := Xor(payload[i], mask[i % 4]);
      assert payload[i + 1..] == old(payload[..])[i..][1..];
    }
  }

  method ReadExact(stream: Source, n: nat) returns (got: seq<byte>, ok: bool)
    modifies stream
    ensures ok <==> |old(stream.rest)| >= n
    ensures ok ==> got == old(stream.rest)[..n] && stream.rest == old(stream.rest)[n..]
  {
    var failed;
    got, failed := stream.Take(n);
    ok := |got| == n;
  }

  method RecvPayload(stream: Source, opcode: byte, mask: Option<seq<byte>>, len: nat, from: nat, ghost b: seq<byte>)
    returns (r: Reception)
    requires from <= |b| && stream.rest == b[from..] && (mask.Some? ==> |mask.value| == 4)
    modifies stream
    ensures r == ReceivePayload(opcode, mask, len, from, b)
    ensures r.Got? ==> stream.rest == b[r.used..]
  {
    if len >= VEC_LIMIT {
      return Panics;
    }
    var got, ok := ReadExact(stream, len);
    if !ok {
      return Short;
    }
    assert got == b[from..from + len];
    var payload := new byte[len](i requires 0 <= i < |got| => got[i]);
    assert payload[..] == got;
    if mask.Some? {
      Unmask(payload, mask.value);
    }
    r := Got(FrameOf(opcode, payload[..]), from + len);
  }

  /** The extended length, when the second byte announces one. */
  method RecvLength(stream: Source, second: byte, ghost b: seq<byte>) returns (len: nat, from: nat, ok: bool)
    requires |b| >= 2 && b[1] == second && stream.rest == b[2..]
    modifies stream
    ensures ok <==> |b| >= 2 + Extended(second)
    ensures ok ==> from == 2 + Extended(second) && stream.rest == b[from..] && len == PayloadLength(second, b[2..from])
  {
    len, from, ok := second % 128, 2, true;
    if len == 126 {
      var e;
      e, ok := ReadExact(stream, 2);
      if ok {
        len, from := FromBigEndian(e), 4;
        assert e == b[2..4];
      }
    } else if len == 127 {
      var e;
      e, ok := ReadExact(stream, 8);
      if ok {
        len, from := FromBigEndian(e), 10;
        assert e == b[2..10];
      }
    }
  }

  method RecvMask(stream: Source, masked: bool, from0: nat, ghost b: seq<byte>)
    returns (mask: Option<seq<byte>>, from: nat, ok: bool)
    requires from0 <= |b| && stream.rest == b[from0..]
    modifies stream
    ensures ok <==> (masked ==> |b| >= from0 + 4)
    ensures ok ==> from == (if masked then from0 + 4 else from0) && stream.rest == b[from..]
    ensures ok ==> mask == if masked then Some(b[from0..from0 + 4]) else None
  {
    mask, from, ok := None, from0, true;
    if masked {
      var m;
      m, ok := ReadExact(stream, 4);
      if ok {
        assert m == b[from0..from0 + 4];
        mask, from := Some(m), from0 + 4;
      }
    }
  }

  method Recv(stream: Source) returns (r: Reception)
    modifies stream
    ensures r == Receive(old(stream.rest))
    ensures r.Got? ==> stream.rest == old(stream.rest)[r.used..]
  {
    ghost var b := stream.rest;
    var h, ok := ReadExact(stream, 2);
    if !ok {
      return Short;
    }
    var opcode: byte := h[0] % 16;
    var masked := h[1] >= 128;
    var len, from;
    len, from, ok := RecvLength(stream, h[1], b);
    if !ok {
      return Short;
    }
    var mask;
    mask, from, ok := RecvMask(stream, masked, from, b);
    if !ok {
      return Short;
    }
    r := RecvPayload(stream, opcode, mask, len, from, b);
  }
}
