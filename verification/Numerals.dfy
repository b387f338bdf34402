/** What strings of digits mean. */
module Numerals {
  predicate IsDigit(c: char) {
    '0' <= c <= '9'
  }

  predicate AllDigits(s: string) {
    forall i | 0 <= i < |s| :: IsDigit(s[i])
  }

  function Digit(d: nat): char
    requires d < 10
  {
    '0' + d as char
  }

  function DigitValue(c: char): nat
    requires IsDigit(c)
  {
    (c - '0') as nat
  }

  /** The number that a string of decimal digits denotes. */
  function DecValue(s: string): nat
    requires AllDigits(s)
  {
    if s == "" then 0 else 10 * DecValue(s[..|s| - 1]) + DigitValue(s[|s| - 1])
  }

  /** A decimal numeral without superfluous leading zeros. */
  predicate IsNumeral(s: string) {
    s != "" && AllDigits(s) && (s[0] == '0' ==> |s| == 1)
  }

  function Pow10(k: nat): (p: nat)
    ensures p >= 1
  {
    if k == 0 then 1 else 10 * Pow10(k - 1)
  }

  lemma {:induction false} Pow10Order(j: nat, k: nat)
    requires j <= k
    ensures Pow10(j) <= Pow10(k)
    decreases k
  {
    if j < k {
      Pow10Order(j, k - 1);
    }
  }

  lemma {:induction false} DecValueBound(s: string)
    requires AllDigits(s)
    ensures DecValue(s) < Pow10(|s|)
    ensures s != "" && s[0] != '0' ==> Pow10(|s| - 1) <= DecValue(s)
    decreases s
  {
    if |s| == 1 {
      assert s[..0] == "";
    } else if s != "" {
      DecValueBound(s[..|s| - 1]);
    }
  }

  /** A number has one numeral only. */
  lemma {:induction false} NumeralUnique(s: string, t: string)
    requires IsNumeral(s) && IsNumeral(t) && DecValue(s) == DecValue(t)
    ensures s == t
    decreases s
  {
    NumeralLength(s, t);
    NumeralLength(t, s);
    SameLengthUnique(s, t);
  }

  lemma NumeralLength(s: string, t: string)
    requires IsNumeral(s) && IsNumeral(t) && DecValue(s) == DecValue(t)
    ensures |s| >= |t|
  {
    if |s| < |t| {
      DecValueBound(s);
      DecValueBound(t);
      Pow10Order(|s|, |t| - 1);
    }
  }

  lemma {:induction false} SameLengthUnique(s: string, t: string)
    requires AllDigits(s) && AllDigits(t) && |s| == |t| && DecValue(s) == DecValue(t)
    ensures s == t
    decreases s
  {
    if s != "" {
      var k := |s| - 1;
      SameLengthUnique(s[..k], t[..k]);
      assert s == s[..k] + [s[k]] && t == t[..k] + [t[k]];
    }
  }

  /** A digit put in front counts for its place. */
  lemma {:induction false} DecValueFront(c: char, s: string)
    requires IsDigit(c) && AllDigits(s)
    ensures AllDigits([c] + s) && DecValue([c] + s) == DigitValue(c) * Pow10(|s|) + DecValue(s)
    decreases s
  {
    if s == "" {
      assert ([c] + s)[..0] == "";
    } else {
      var k := |s| - 1;
      assert ([c] + s)[..|s|] == [c] + s[..k];
      DecValueFront(c, s[..k]);
      assert DigitValue(c) * Pow10(|s|) == 10 * (DigitValue(c) * Pow10(k));
    }
  }

  // ---------- hexadecimal ----------

  predicate IsHexDigit(c: char) {
    '0' <= c <= '9' || 'A' <= c <= 'F'
  }

  predicate AllHexDigits(s: string) {
    forall i | 0 <= i < |s| :: IsHexDigit(s[i])
  }

  function HexDigitValue(c: char): nat
    requires IsHexDigit(c)
  {
    if c <= '9' then (c - '0') as nat else (c - 'A') as nat + 10
  }

  function HexValue(s: string): nat
    requires AllHexDigits(s)
  {
    if s == "" then 0 else 16 * HexValue(s[..|s| - 1]) + HexDigitValue(s[|s| - 1])
  }

  function Pow16(k: nat): (p: nat)
    ensures p >= 1
  {
    if k == 0 then 1 else 16 * Pow16(k - 1)
  }
}
