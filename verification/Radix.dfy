/** Digits: `{:x}`, `{:o}` and `{}` formatting, and `from_str_radix`. */
module Radix {
  import opened Bytes

  /** The lower-case digit for `d`, as `{:x}` prints it. */
  function Digit(d: nat): byte
    requires d < 16
  {
    if d < 10 then 48 + d else 87 + d
  }

  /** `char::to_digit(base)`. */
  function DigitValue(c: byte, base: nat): (d: Option<nat>)
    ensures d.Some? ==> d.value < base
  {
    var d := if 48 <= c <= 57 then c - 48
             else if 97 <= c <= 122 then c - 87
             else if 65 <= c <= 90 then c - 55
             else base;
    if d < base then Some(d) else None
  }

  function Format(n: nat, base: nat): (s: seq<byte>)
    requires 2 <= base <= 16
    ensures s != []
  {
    if n < base then [Digit(n)] else Format(n / base, base) + [Digit(n % base)]
  }

  /** A number with one more digit behind it. */
  function Append(high: Option<nat>, low: Option<nat>, base: nat): Option<nat> {
    if high.Some? && low.Some? then Some(high.value * base + low.value) else None
  }

  /** The value of a run of digits with no upper limit. */
  function DigitsValue(s: seq<byte>, base: nat): Option<nat>
  {
    if s == [] then Some(0) else Append(DigitsValue(s[..|s| - 1], base), DigitValue(s[|s| - 1], base), base)
  }

  /** `u64::from_str_radix(..).ok()`: an optional `+`, then at least one digit, no overflow. */
  function FromStrRadix(s: seq<byte>, base: nat): (v: Option<nat>)
    ensures v.Some? ==> v.value < U64_LIMIT
  {
    var t := if s != [] && s[0] == 43 then s[1..] else s;
    if t == [] then None
    else
      match DigitsValue(t, base)
      case Some(n) => if n < U64_LIMIT then Some(n) else None
      case None => None
  }

  /** Only digits: no separator, blank or line end. */
  ghost predicate AllDigits(s: seq<byte>)
  {
    forall i :: 0 <= i < |s| ==> 48 <= s[i] <= 57 || 97 <= s[i] <= 102
  }

  lemma {:induction false} FormatIsDigits(n: nat, base: nat)
    requires 2 <= base <= 16
    ensures AllDigits(Format(n, base))
  {
    if n >= base {
      FormatIsDigits(n / base, base);
    }
  }

  lemma DivideDigit(n: nat, base: nat)
    requires 2 <= base
    ensures n == (n / base) * base + n % base && 0 <= n % base < base
    ensures n > 0 ==> n / base < n
    ensures n >= base ==> n / base > 0
  {
  }

  lemma DigitRoundTrip(d: nat, base: nat)
    requires d < base <= 16
    ensures DigitValue(Digit(d), base) == Some(d)
  {
  }

  lemma {:induction false} FormatParses(n: nat, base: nat)
    requires 2 <= base <= 16
    ensures DigitsValue(Format(n, base), base) == Some(n)
  {
    var s := Format(n, base);
    if n < base {
      assert s[..|s| - 1] == [];
    } else {
      DivideDigit(n, base);
      FormatParses(n / base, base);
      assert s[..|s| - 1] == Format(n / base, base);
      assert s[|s| - 1] == Digit(n % base);
      DigitRoundTrip(n % base, base);
    }
  }

  lemma FormatInjective(m: nat, n: nat, base: nat)
    requires 2 <= base <= 16
    requires Format(m, base) == Format(n, base)
    ensures m == n
  {
    FormatParses(m, base);
    FormatParses(n, base);
  }

  /** A number cut short is a smaller number, never zero: a formatted number has no leading zero. */
  lemma {:induction false} FormatPrefix(n: nat, base: nat, k: nat) returns (m: nat)
    requires 2 <= base <= 16 && n > 0
    requires 0 < k <= |Format(n, base)|
    ensures 0 < m <= n && Format(n, base)[..k] == Format(m, base)
  {
    var s := Format(n, base);
    if k == |s| {
      m := n;
      assert s[..k] == s;
    } else {
      DivideDigit(n, base);
      var front := Format(n / base, base);
      assert s == front + [Digit(n % base)];
      m := FormatPrefix(n / base, base, k);
      assert s[..k] == front[..k];
    }
  }

  lemma SameLastDigit(a: seq<byte>, b: seq<byte>, base: nat)
    requires a != [] && b != [] && a[|a| - 1] == b[|b| - 1]
    requires DigitsValue(a[..|a| - 1], base) == DigitsValue(b[..|b| - 1], base)
    ensures DigitsValue(a, base) == DigitsValue(b, base)
  {
    var high, low := DigitsValue(a[..|a| - 1], base), DigitValue(a[|a| - 1], base);
    assert DigitsValue(a, base) == Append(high, low, base);
    assert DigitsValue(b, base) == Append(high, low, base);
  }

  lemma {:induction false} OnlyZeros(k: nat, base: nat)
    requires 2 <= base <= 16
    ensures DigitsValue(seq(k, i => 48), base) == Some(0)
  {
    if k > 0 {
      var z: seq<byte> := seq(k, i => 48);
      OnlyZeros(k - 1, base);
      assert z[..k - 1] == seq(k - 1, i => 48);
    }
  }

  /** Leading zeros, as `{:011o}` writes them, do not change the value. */
  lemma {:induction false} LeadingZeros(k: nat, s: seq<byte>, base: nat)
    requires 2 <= base <= 16
    ensures DigitsValue(seq(k, i => 48) + s, base) == DigitsValue(s, base)
  {
    var z: seq<byte> := seq(k, i => 48);
    if s == [] {
      OnlyZeros(k, base);
      assert z + s == z;
    } else {
      LeadingZeros(k, s[..|s| - 1], base);
      assert (z + s)[..|z + s| - 1] == z + s[..|s| - 1];
      SameLastDigit(z + s, s, base);
    }
  }

  function Power(base: nat, e: nat): nat
  {
    if e == 0 then 1 else base * Power(base, e - 1)
  }

  lemma {:induction false} FormatWidth(n: nat, base: nat, width: nat)
    requires 2 <= base <= 16 && width > 0
    requires n < Power(base, width)
    ensures |Format(n, base)| <= width
  {
    assert Power(base, 1) == base * Power(base, 0) == base;
    if n >= base {
      DivideDigit(n, base);
      if n / base >= Power(base, width - 1) {
        MulMono(Power(base, width - 1), n / base, base);
        assert false;
      }
      FormatWidth(n / base, base, width - 1);
    }
  }

  // ---------- hexadecimal texts ----------

  const LOWER := "0123456789abcdef"
  const UPPER := "0123456789ABCDEF"

  ghost predicate SpellsDigit(c: byte, d: nat) {
    d < 16 && (c == LOWER[d] as int || c == UPPER[d] as int)
  }

  /** The text writes these digits, each in either case. */
  ghost predicate Spells(text: seq<byte>, digits: seq<nat>) {
    |text| == |digits| && forall i :: 0 <= i < |text| ==> SpellsDigit(text[i], digits[i])
  }

  /** The number these digits are, the highest one first. */
  function ValueOf(digits: seq<nat>): nat {
    if digits == [] then 0 else 16 * ValueOf(digits[..|digits| - 1]) + digits[|digits| - 1]
  }

  lemma DigitExactly(c: byte, d: nat)
    ensures DigitValue(c, 16) == Some(d) <==> SpellsDigit(c, d)
  {
  }

  lemma LastDigit(text: seq<byte>, high: nat, low: nat)
    requires text != [] && DigitsValue(text[..|text| - 1], 16) == Some(high)
    requires DigitValue(text[|text| - 1], 16) == Some(low)
    ensures DigitsValue(text, 16) == Some(16 * high + low)
  {
  }

  lemma {:induction false} SpelledValue(text: seq<byte>, digits: seq<nat>) returns (n: nat)
    requires Spells(text, digits)
    ensures n == ValueOf(digits) && DigitsValue(text, 16) == Some(n)
  {
    if text == [] {
      n := 0;
    } else {
      var k := |text| - 1;
      var high := SpelledValue(text[..k], digits[..k]);
      DigitExactly(text[k], digits[k]);
      LastDigit(text, high, digits[k]);
      n := 16 * high + digits[k];
    }
  }

  lemma {:induction false} ValueIsSpelled(text: seq<byte>, n: nat) returns (digits: seq<nat>)
    requires DigitsValue(text, 16) == Some(n)
    ensures Spells(text, digits) && ValueOf(digits) == n
  {
    if text == [] {
      digits := [];
    } else {
      var k := |text| - 1;
      var d := DigitValue(text[k], 16).value;
      var front := ValueIsSpelled(text[..k], DigitsValue(text[..k], 16).value);
      DigitExactly(text[k], d);
      digits := front + [d];
      assert digits[..k] == front;
    }
  }

  ghost predicate Spelled(text: seq<byte>, n: nat) {
    exists digits :: Spells(text, digits) && ValueOf(digits) == n
  }

  lemma SpelledExactly(text: seq<byte>, n: nat)
    ensures DigitsValue(text, 16) == Some(n) <==> Spelled(text, n)
  {
    if DigitsValue(text, 16) == Some(n) {
      var digits := ValueIsSpelled(text, n);
    }
    if Spelled(text, n) {
      var digits :| Spells(text, digits) && ValueOf(digits) == n;
      var _ := SpelledValue(text, digits);
    }
  }

  lemma NoPlus(digits: seq<byte>, n: nat)
    requires digits != [] && Spelled(digits, n)
    ensures digits[0] != 43
  {
    var d :| Spells(digits, d) && ValueOf(d) == n;
    DigitExactly(digits[0], d[0]);
  }

  /** One or more hexadecimal digits that 64 bits can hold, with a `+` allowed in front. */
  ghost predicate Number(text: seq<byte>, n: nat) {
    n < U64_LIMIT
    && exists digits :: digits != [] && (text == digits || text == [43] + digits) && Spelled(digits, n)
  }

  lemma NumberExactly(text: seq<byte>, n: nat)
    ensures FromStrRadix(text, 16) == Some(n) <==> Number(text, n)
  {
    if FromStrRadix(text, 16) == Some(n) {
      var digits := if text[0] == 43 then text[1..] else text;
      SpelledExactly(digits, n);
      assert text[0] == 43 ==> text == [43] + digits;
    }
    if Number(text, n) {
      var digits :| digits != [] && (text == digits || text == [43] + digits) && Spelled(digits, n);
      SpelledExactly(digits, n);
      NoPlus(digits, n);
      assert ([43] + digits)[1..] == digits;
    }
  }
}
