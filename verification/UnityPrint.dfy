/** The integer printers of the Unity test framework, and the fixture's parser of `-r NUMBER`. */
module UnityPrint {
  import opened Arithmetic
  import opened Basics
  import opened Numerals

  // ---------- decimal ----------

  lemma QuotientStep(n: nat, d: nat)
    requires d >= 1
    ensures n / d == 10 * (n / (10 * d)) + (n / d) % 10
  {
    var q, r := n / d, n % d;
    var a, b := q / 10, q % 10;
    assert n == q * d + r && q == 10 * a + b;
    ScaleTen(a, b, d);
    MulOrder(b, 10, d);
    UniqueRemainder(n, 10 * d, a, b * d + r);
  }

  lemma QuotientLarge(n: nat, d: nat)
    requires d >= 1
    ensures n / d > 9 <==> 10 * d <= n
  {
    QuotientStep(n, d);
    QuotientPositive(n, 10 * d);
  }

  /** The number without its last k digits. */
  function Leading(n: nat, k: nat): nat {
    if k == 0 then n else Leading(n, k - 1) / 10
  }

  lemma {:induction false} LeadingQuotient(n: nat, k: nat)
    ensures Leading(n, k) == n / Pow10(k)
    decreases k
  {
    if k > 0 {
      LeadingQuotient(n, k - 1);
      QuotientStep(n, Pow10(k - 1));
    }
  }

  /** The number printed is the number given, without leading zeros; no intermediate value overflows. */
  method PrintNumberUnsigned(number: uint64) returns (out: string)
    ensures IsNumeral(out) && DecValue(out) == number
  {
    var divisor: uint64 := 1;
    ghost var k: nat := 0;
    LeadingQuotient(number, k);
    while number / divisor > 9
      invariant divisor == Pow10(k) && (divisor <= number || k == 0)
      invariant number / divisor == Leading(number, k)
      decreases number - divisor
    {
      QuotientLarge(number, divisor);
      divisor := divisor * 10;
      k := k + 1;
      LeadingQuotient(number, k);
    }

    out := "";
    QuotientPositive(number, divisor);
    while true
      invariant divisor == Pow10(k) && AllDigits(out)
      invariant DecValue(out) == Leading(number, k + 1)
      invariant out == "" ==> Leading(number, k) <= 9 && (Leading(number, k) >= 1 || k == 0)
      invariant out != "" ==> out[0] != '0'
      decreases divisor
    {
      LeadingQuotient(number, k);
      var digit := Digit(number / divisor % 10);
      ghost var before := out;
      out := out + [digit];
      assert out[..|out| - 1] == before;
      divisor := divisor / 10;
      if divisor == 0 {
        break;
      }
      k := k - 1;
    }
  }

  /** Complement and increment give the magnitude of any negative value. */
  lemma Negated(number: int64)
    ensures number < 0 ==> Wrap64((0xFFFF_FFFF_FFFF_FFFF - Wrap64(number)) + 1) == 0 - number
    ensures number >= 0 ==> Wrap64(number) == number
  {
  }

  /** UnityPrintNumber: every value, the most negative one included. */
  method PrintNumber(number: int64) returns (out: string)
    ensures number >= 0 ==> IsNumeral(out) && DecValue(out) == number
    ensures number < 0 ==> |out| > 1 && out[0] == '-' && IsNumeral(out[1..]) && DecValue(out[1..]) == 0 - number
  {
    hide Wrap64, DecValue;
    Negated(number);
    var unsigned := Wrap64(number);
    out := "";
    if number < 0 {
      out := "-";
      var complement: int := 0xFFFF_FFFF_FFFF_FFFF - unsigned;
      unsigned := Wrap64(complement + 1);
    }
    var digits := PrintNumberUnsigned(unsigned);
    out := out + digits;
    assert if number < 0 then out[1..] == digits else out == digits;
  }

  // ---------- reading back ----------

  /** The digits a string starts with. */
  function DigitPrefix(s: string): (n: nat)
    ensures n <= |s| && AllDigits(s[..n]) && (n < |s| ==> !IsDigit(s[n]))
  {
    if s != "" && IsDigit(s[0]) then 1 + DigitPrefix(s[1..]) else 0
  }

  lemma {:induction false} PrefixUnique(s: string, n: nat)
    requires n <= |s| && AllDigits(s[..n]) && (n < |s| ==> !IsDigit(s[n]))
    ensures n == DigitPrefix(s)
    decreases n
  {
    if n > 0 {
      assert s[..n][0] == s[0];
      assert s[1..][..n - 1] == s[..n][1..];
      PrefixUnique(s[1..], n - 1);
    }
  }

  lemma WrapTimesTen(x: nat, d: nat)
    ensures Wrap32(Wrap32(10 * Wrap32(x)) + d) == Wrap32(10 * x + d)
  {
  }

  /**
   * The `-r` option. `argument` is the next command line argument, if there is one; the count is 2
   * unless it starts with a digit, and then it is the number its digits denote, modulo 2^32.
   */
  method RepeatOption(argument: Option<string>) returns (repeatCount: uint32, consumed: bool)
    ensures consumed <==> argument.Some? && DigitPrefix(argument.value) > 0
    ensures !consumed ==> repeatCount == 2
    ensures consumed ==> repeatCount == Wrap32(DecValue(argument.value[..DigitPrefix(argument.value)]))
  {
    repeatCount, consumed := 2, false;
    if argument.Some? {
      var s := argument.value;
      if s != "" && IsDigit(s[0]) {
        var digit := 0;
        repeatCount := 0;
        while digit < |s| && IsDigit(s[digit])
          invariant digit <= |s| && AllDigits(s[..digit])
          invariant repeatCount == Wrap32(DecValue(s[..digit]))
        {
          WrapTimesTen(DecValue(s[..digit]), DigitValue(s[digit]));
          assert s[..digit + 1][..digit] == s[..digit];
          repeatCount := Wrap32(10 * repeatCount);
          repeatCount := Wrap32(repeatCount + DigitValue(s[digit]));
          digit := digit + 1;
        }
        PrefixUnique(s, digit);
        consumed := true;
      }
    }
  }

  /** What the framework prints, its own option parser reads back: exactly, below 2^32. */
  method PrintThenRead(number: uint64) returns (repeatCount: uint32)
    ensures repeatCount == Wrap32(number)
    ensures repeatCount == number <==> number < 0x1_0000_0000
  {
    var text := PrintNumberUnsigned(number);
    assert text[..|text|] == text;
    PrefixUnique(text, |text|);
    var consumed;
    repeatCount, consumed := RepeatOption(Some(text));
  }

  // ---------- hexadecimal ----------

  const MAX_NIBBLES := 16

  /** A nibble count is a char: out of range, or negative, it becomes the maximum. */
  function Nibbles(requested: int): (k: nat)
    ensures k <= MAX_NIBBLES
  {
    if 0 <= requested <= MAX_NIBBLES then requested else MAX_NIBBLES
  }

  function HexDigit(nibble: nat): (c: char)
    requires nibble < 16
    ensures IsHexDigit(c) && HexDigitValue(c) == nibble
  {
    if nibble <= 9 then '0' + nibble as char else 'A' + (nibble - 10) as char
  }

  lemma NibbleExact(x: nat)
    ensures ToInt32(Wrap32(x)) % 16 == x % 16
  {
    var q, r := x / 0x1_0000_0000, Wrap32(x);
    var a, b := r / 16, r % 16;
    assert x == 16 * (0x1000_0000 * q + a) + b;
  }

  /** number >> (4 * k) */
  function ShiftRight(n: nat, k: nat): nat {
    if k == 0 then n else ShiftRight(n, k - 1) / 16
  }

  /** The number that the lowest k nibbles make up. */
  function LowNibbles(n: nat, k: nat): nat {
    if k == 0 then 0 else 16 * LowNibbles(n / 16, k - 1) + n % 16
  }

  lemma {:induction false} LowNibblesRemainder(n: nat, k: nat)
    ensures LowNibbles(n, k) == n % Pow16(k)
    decreases k
  {
    if k > 0 {
      LowNibblesRemainder(n / 16, k - 1);
      RemainderSplit16(n, Pow16(k - 1));
    }
  }

  /** UnityPrintNumberHex: exactly k digits, denoting the number modulo 16^k. */
  method PrintNumberHex(number: uint64, requested: int) returns (out: string)
    requires -128 <= requested < 128
    ensures |out| == (if 0 <= requested <= 16 then requested else 16) && AllHexDigits(out)
    ensures HexValue(out) == number % Pow16(|out|)
  {
    hide Wrap32, ToInt32, Pow16;
    var nibbles := Nibbles(requested);
    ghost var m: nat := 0;
    out := "";
    while nibbles > 0
      invariant |out| == m && m + nibbles == Nibbles(requested) && AllHexDigits(out)
      invariant HexValue(out) == LowNibbles(ShiftRight(number, nibbles), m)
    {
      nibbles := nibbles - 1;
      var shifted := ShiftRight(number, nibbles);
      NibbleExact(shifted);
      var nibble := ToInt32(Wrap32(shifted)) % 16;
      ghost var before := out;
      out := out + [HexDigit(nibble)];
      assert out[..|out| - 1] == before;
      m := m + 1;
    }
    LowNibblesRemainder(number, m);
  }
}
