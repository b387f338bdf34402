/** A number has one text in standard form: what UnityPrintFloat prints is fixed by its contract. */
module FloatTexts {
  import opened Numerals
  import opened UnityFloat

  // ---------- the parts of a text ----------

  lemma {:induction false} IndexOfFound(s: string, c: char)
    ensures var i := IndexOf(s, c); i < |s| ==> s[i] == c
    decreases s
  {
    if s != "" && s[0] != c {
      IndexOfFound(s[1..], c);
    }
  }

  /** The digits of a significand, with one that is not 0 at either end unless it is needed for the form. */
  predicate Digits(w: string, d: nat) {
    AllDigits(w) && d < |w| && (|w| > d + 1 ==> w[0] != '0') && (d > 0 ==> w[|w| - 1] != '0')
  }

  /** A text is made up of its digits, its places and its suffix. */
  lemma Rebuilt(text: string)
    requires Standard(text)
    ensures var s := Significand(text);
            var w, d := WithoutPoint(s), Places(s);
            && Digits(w, d) && s == Pointed(w, d) && text == s + Suffix(text)
            && (Suffix(text) != "" ==> |w| == d + 1)
            && w[0] == text[0]
  {
    hide IsSuffix, IsSigned, SignedValue;
    var s := Significand(text);
    var p := IndexOf(s, '.');
    IndexOfFound(s, '.');
    if p < |s| {
      assert s == s[..p] + "." + s[p + 1..];
      assert WithoutPoint(s)[..p] == s[..p] && WithoutPoint(s)[p..] == s[p + 1..];
    } else {
      assert IntegerPart(s) == s;
    }
  }

  function Scaled(n: nat, e: int): real {
    n as real * Exp10(e)
  }

  lemma ValueOf(text: string)
    requires IsFloatText(text)
    ensures var s := Significand(text);
            && AllDigits(WithoutPoint(s))
            && TextValue(text) == Scaled(DecValue(WithoutPoint(s)), ExponentOf(text) - Places(s))
  {
    hide Exp10, DecValue, Significand, Suffix, Places, WithoutPoint, IsSigned, SignedValue, ExponentOf;
  }

  /** What a text means, in terms of these parts. */
  lemma Parts(text: string) returns (w: string, d: nat)
    requires Standard(text)
    ensures IsFloatText(text) && Digits(w, d) && text == Pointed(w, d) + Suffix(text) && w[0] == text[0]
    ensures TextValue(text) == Scaled(DecValue(w), ExponentOf(text) - d)
    ensures Suffix(text) == "" ==> ExponentOf(text) == 0
    ensures Suffix(text) != "" ==>
              && IsSuffix(Suffix(text)) && |w| == d + 1
              && ExponentOf(text) == SignedValue(Suffix(text)[1..]) != 0
  {
    hide Exp10, DecValue, Pointed, Significand, Suffix, Places, WithoutPoint, IntegerPart, SignedValue;
    hide IsFloatText, IsNumeral, AllDigits, Trimmed, TextValue, Scaled;
    Rebuilt(text);
    ValueOf(text);
    w, d := WithoutPoint(Significand(text)), Places(Significand(text));
  }

  // ---------- digits ----------

  lemma LastDigit(w: string)
    requires w != "" && AllDigits(w)
    ensures DecValue(w) % 10 == 0 <==> w[|w| - 1] == '0'
  {
    var q, v := DecValue(w[..|w| - 1]), DigitValue(w[|w| - 1]);
    assert DecValue(w) == 10 * q + v;
    hide DecValue;
  }

  /** Equal numbers with the same number of decimals have the same digits. */
  lemma SameDigits(v: string, w: string, d: nat)
    requires AllDigits(v) && AllDigits(w) && d < |v| && d < |w| && DecValue(v) == DecValue(w)
    requires (|v| > d + 1 ==> v[0] != '0') && (|w| > d + 1 ==> w[0] != '0')
    ensures v == w
  {
    hide DecValue, Pow10;
    DecValueBound(v);
    DecValueBound(w);
    if |v| < |w| {
      Pow10Order(|v|, |w| - 1);
    } else if |w| < |v| {
      Pow10Order(|w|, |v| - 1);
    }
    SameLengthUnique(v, w);
  }

  /** A number that is also written with fewer decimals ends in a zero. */
  lemma FewerDecimals(m: nat, a: int, n: nat, b: int)
    requires a > b && Scaled(m, a) == Scaled(n, b)
    ensures n % 10 == 0
  {
    hide Exp10, Pow10;
    var k: nat := a - b;
    Exp10Shift(m, b, k);
    Exp10Positive(b);
    TenTimes(m, k);
    var q := m * Pow10(k - 1);
    Cancel((10 * q) as real, n as real, Exp10(b));
  }

  lemma Exp10Positive(e: int)
    ensures Exp10(e) > 0.0
  {
  }

  lemma Cancel(x: real, y: real, z: real)
    requires z > 0.0 && x * z == y * z
    ensures x == y
  {
    assert (x - y) * z == 0.0;
  }

  lemma SameScale(m: nat, n: nat, e: int)
    requires Scaled(m, e) == Scaled(n, e)
    ensures m == n
  {
    hide Exp10;
    Exp10Positive(e);
    Cancel(m as real, n as real, Exp10(e));
  }

  // ---------- uniqueness ----------

  lemma SuffixUnique(x: string, y: string)
    requires IsSuffix(x) && IsSuffix(y) && SignedValue(x[1..]) == SignedValue(y[1..])
    ensures x == y
  {
    hide DecValue;
    assert x[1..][1..] == x[2..] && y[1..][1..] == y[2..];
    SameDigits(x[2..], y[2..], 1);
    assert x == [x[0], x[1]] + x[2..] && y == [y[0], y[1]] + y[2..];
  }

  lemma SignificandUnique(v: string, c: nat, w: string, d: nat, e: int)
    requires Digits(v, c) && Digits(w, d)
    requires Scaled(DecValue(v), e - c) == Scaled(DecValue(w), e - d)
    ensures v == w && c == d
  {
    hide Scaled, DecValue;
    if c < d {
      FewerDecimals(DecValue(v), e - c, DecValue(w), e - d);
      LastDigit(w);
    } else if d < c {
      FewerDecimals(DecValue(w), e - d, DecValue(v), e - c);
      LastDigit(v);
    } else {
      SameScale(DecValue(v), DecValue(w), e - c);
      SameDigits(v, w, d);
    }
  }

  /** In standard form a number and an exponent have one text only. */
  lemma TextUnique(t: string, u: string)
    requires Standard(t) && Standard(u) && TextValue(t) == TextValue(u) && ExponentOf(t) == ExponentOf(u)
    ensures t == u
  {
    hide Scaled, DecValue, Pointed, Suffix, SignedValue, Standard, TextValue, IsFloatText, ExponentOf, IsSuffix, Digits;
    var v, c := Parts(t);
    var w, d := Parts(u);
    SignificandUnique(v, c, w, d, ExponentOf(t));
    if ExponentOf(t) != 0 {
      SuffixUnique(Suffix(t), Suffix(u));
    }
  }

  lemma {:induction false} Exp10Order(a: int, b: int)
    requires a <= b
    ensures Exp10(a) <= Exp10(b)
    decreases b - a
  {
    if a < b {
      Exp10Order(a, b - 1);
      Exp10Step(b - 1);
      Exp10Positive(b - 1);
    }
  }

  /** With an exponent and a leading digit that is not 0, the exponent gives the magnitude. */
  lemma Magnitude(t: string)
    requires Standard(t) && Suffix(t) != "" && t[0] != '0'
    ensures var e := ExponentOf(t); Exp10(e) <= TextValue(t) < Exp10(e + 1)
  {
    hide Exp10, DecValue, Pointed, Suffix, SignedValue, Standard, TextValue, IsFloatText, ExponentOf, IsSuffix, Pow10;
    var w, d := Parts(t);
    var e := ExponentOf(t);
    DecValueBound(w);
    PowerAt(e, d, e - d);
    PowerAt(e + 1, d + 1, e - d);
    Exp10Positive(e - d);
    ScaleOrder(Pow10(d) as real, DecValue(w) as real, Pow10(d + 1) as real, Exp10(e - d));
  }

  lemma PowerAt(e: int, d: nat, z: int)
    requires z == e - d
    ensures Exp10(e) == Pow10(d) as real * Exp10(z)
  {
    hide Exp10, Pow10;
    Exp10Shift(1, z, d);
    assert 1 * Pow10(d) == Pow10(d);
  }

  lemma ScaleOrder(a: real, x: real, b: real, z: real)
    requires a <= x < b && z > 0.0
    ensures a * z <= x * z < b * z
  {
    assert (x - a) * z >= 0.0 && (b - x) * z > 0.0;
  }

  /**
   * Two texts in standard form, both with or both without an exponent, that denote the same number
   * are the same text; with an exponent the leading digit must not be 0.
   */
  lemma FloatTextUnique(t: string, u: string)
    requires Standard(t) && Standard(u) && TextValue(t) == TextValue(u)
    requires Suffix(t) == "" <==> Suffix(u) == ""
    requires Suffix(t) != "" ==> t[0] != '0' && u[0] != '0'
    ensures t == u
  {
    hide Exp10, TextValue, Standard, ExponentOf, IsFloatText;
    assert IsFloatText(t) && IsFloatText(u) by { StandardIsText(t); StandardIsText(u); }
    if Suffix(t) != "" {
      Magnitude(t);
      Magnitude(u);
      if ExponentOf(t) < ExponentOf(u) {
        Exp10Order(ExponentOf(t) + 1, ExponentOf(u));
      } else if ExponentOf(u) < ExponentOf(t) {
        Exp10Order(ExponentOf(u) + 1, ExponentOf(t));
      }
    }
    if Suffix(t) == "" {
      NoExponent(t);
      NoExponent(u);
    }
    TextUnique(t, u);
  }

  lemma StandardIsText(t: string)
    requires Standard(t)
    ensures IsFloatText(t)
  {
  }

  lemma NoExponent(t: string)
    requires IsFloatText(t) && Suffix(t) == ""
    ensures ExponentOf(t) == 0
  {
  }
}
