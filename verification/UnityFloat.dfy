/** The digit emission of UnityPrintFloat: from a scaled integer and a power of ten to text. */
module UnityFloat {
  import opened Arithmetic
  import opened Basics
  import opened Numerals

  // ---------- what a text denotes ----------

  function Exp10(e: int): real {
    if e >= 0 then Pow10(e) as real else 1.0 / Pow10(-e) as real
  }

  /** Where c first stands in s, or the length of s. */
  function IndexOf(s: string, c: char): (i: nat)
    ensures i <= |s|
  {
    if s == "" || s[0] == c then 0 else 1 + IndexOf(s[1..], c)
  }

  predicate IsSigned(s: string) {
    |s| >= 2 && (s[0] == '+' || s[0] == '-') && AllDigits(s[1..])
  }

  function SignedValue(s: string): int
    requires IsSigned(s)
  {
    if s[0] == '-' then 0 - DecValue(s[1..]) else DecValue(s[1..])
  }

  function Significand(text: string): string {
    text[..IndexOf(text, 'e')]
  }

  function Suffix(text: string): string {
    text[IndexOf(text, 'e')..]
  }

  function WithoutPoint(s: string): string {
    var p := IndexOf(s, '.');
    if p < |s| then s[..p] + s[p + 1..] else s
  }

  /** How many digits follow the decimal point. */
  function Places(s: string): nat {
    var p := IndexOf(s, '.');
    if p < |s| then |s| - p - 1 else 0
  }

  function IntegerPart(s: string): string {
    s[..IndexOf(s, '.')]
  }

  /** Digits with at most one point between them, then nothing or e, a sign and digits. */
  predicate IsFloatText(text: string) {
    var s, x := Significand(text), Suffix(text);
    && s != "" && IsDigit(s[0]) && IsDigit(s[|s| - 1]) && AllDigits(WithoutPoint(s))
    && (x == "" || IsSigned(x[1..]))
  }

  function ExponentOf(text: string): int
    requires IsFloatText(text)
  {
    if Suffix(text) == "" then 0 else SignedValue(Suffix(text)[1..])
  }

  function TextValue(text: string): real
    requires IsFloatText(text)
  {
    var s := Significand(text);
    DecValue(WithoutPoint(s)) as real * Exp10(ExponentOf(text) - Places(s))
  }

  /** No zero is left at the end of the decimals. */
  predicate Trimmed(text: string) {
    var s := Significand(text);
    Places(s) > 0 ==> s != "" && s[|s| - 1] != '0'
  }

  /** The exponent suffix: e, a sign, and two digits, or more of them without a leading zero. */
  predicate IsSuffix(x: string) {
    |x| >= 4 && x[0] == 'e' && IsSigned(x[1..]) && SignedValue(x[1..]) != 0 && (x[2] == '0' ==> |x| == 4)
  }

  /**
   * The form of the texts that are printed: no superfluous zero before or behind the point, and with
   * an exponent exactly one digit before it.
   */
  predicate Standard(text: string) {
    var whole := IntegerPart(Significand(text));
    && IsFloatText(text) && Trimmed(text) && IsNumeral(whole)
    && (Suffix(text) != "" ==> |whole| == 1 && IsSuffix(Suffix(text)))
  }

  // ---------- powers of ten ----------

  lemma Exp10Step(e: int)
    ensures Exp10(e + 1) == 10.0 * Exp10(e)
  {
    if e < 0 {
      var p := Pow10(-e - 1);
      assert Pow10(-e) == 10 * p;
      assert 10.0 * (1.0 / (10.0 * p as real)) == 1.0 / p as real;
    }
  }

  lemma Tenfold(n: real, b: real, x: real, a: real)
    requires n * b == x * a
    ensures n * (10.0 * b) == (10.0 * x) * a
  {
  }

  /** Factors of ten move between the number and the exponent. */
  lemma {:induction false} Exp10Shift(n: nat, e: int, t: nat)
    ensures n as real * Exp10(e + t) == (n * Pow10(t)) as real * Exp10(e)
    decreases t
  {
    hide Exp10;
    if t == 0 {
      assert n * Pow10(0) == n;
    } else {
      Exp10Shift(n, e, t - 1);
      Exp10Step(e + t - 1);
      var x := n * Pow10(t - 1);
      TenTimes(n, t);
      assert (10 * x) as real == 10.0 * x as real;
      hide Pow10;
      Tenfold(n as real, Exp10(e + t - 1), x as real, Exp10(e));
    }
  }

  lemma TenTimes(n: nat, t: nat)
    requires t > 0
    ensures n * Pow10(t) == 10 * (n * Pow10(t - 1))
  {
  }

  // ---------- texts ----------

  lemma {:induction false} IndexOfAbsent(s: string, rest: string, c: char)
    requires c !in s && (rest == "" || rest[0] == c)
    ensures IndexOf(s + rest, c) == |s|
    decreases s
  {
    if s == "" {
      assert s + rest == rest;
    } else {
      assert (s + rest)[1..] == s[1..] + rest;
      IndexOfAbsent(s[1..], rest, c);
    }
  }

  /** The digits w with the point put in front of the last d of them. */
  function Pointed(w: string, d: nat): string
    requires d < |w|
  {
    if d == 0 then w else w[..|w| - d] + "." + w[|w| - d..]
  }

  lemma PointPlace(w: string, d: nat)
    requires 0 < d < |w| && AllDigits(w)
    ensures IndexOf(Pointed(w, d), '.') == |w| - d
    ensures Pointed(w, d)[..|w| - d] == w[..|w| - d] && Pointed(w, d)[|w| - d + 1..] == w[|w| - d..]
  {
    var front, back := w[..|w| - d], w[|w| - d..];
    IndexOfAbsent(front, "." + back, '.');
    assert Pointed(w, d) == front + ("." + back);
  }

  lemma PointedDigits(w: string, d: nat)
    requires d < |w| && AllDigits(w)
    ensures WithoutPoint(Pointed(w, d)) == w && Places(Pointed(w, d)) == d
    ensures IntegerPart(Pointed(w, d)) == w[..|w| - d]
  {
    if d == 0 {
      IndexOfAbsent(w, "", '.');
      assert w + "" == w;
    } else {
      PointPlace(w, d);
      hide IndexOf;
      assert w[..|w| - d] + w[|w| - d..] == w;
    }
  }

  lemma PointedEnds(w: string, d: nat)
    requires d < |w| && AllDigits(w)
    ensures Pointed(w, d) != "" && Pointed(w, d)[0] == w[0] && Pointed(w, d)[|Pointed(w, d)| - 1] == w[|w| - 1]
    ensures 'e' !in Pointed(w, d)
  {
  }

  lemma TextParts(p: string, suffix: string)
    requires 'e' !in p && (suffix == "" || suffix[0] == 'e')
    ensures Significand(p + suffix) == p && Suffix(p + suffix) == suffix
  {
    IndexOfAbsent(p, suffix, 'e');
  }

  lemma TextMeans(w: string, d: nat, suffix: string)
    requires d < |w| && AllDigits(w)
    requires suffix == "" || (suffix[0] == 'e' && IsSigned(suffix[1..]))
    ensures var text := Pointed(w, d) + suffix;
            && IsFloatText(text)
            && Significand(text) == Pointed(w, d) && Suffix(text) == suffix
            && TextValue(text) ==
               DecValue(w) as real * Exp10((if suffix == "" then 0 else SignedValue(suffix[1..])) - d)
  {
    hide Pointed, WithoutPoint, Places, Exp10, DecValue, Significand, Suffix, IsSigned, SignedValue;
    PointedDigits(w, d);
    PointedEnds(w, d);
    TextParts(Pointed(w, d), suffix);
  }

  // ---------- the code ----------

  const BUFFER_SIZE := 16

  function Reversed(s: seq<char>): (r: string)
    ensures |r| == |s|
  {
    if s == [] then "" else [s[|s| - 1]] + Reversed(s[..|s| - 1])
  }

  lemma {:induction false} ReversedAt(s: seq<char>)
    ensures |Reversed(s)| == |s| && forall i | 0 <= i < |s| :: Reversed(s)[i] == s[|s| - 1 - i]
    decreases s
  {
    if s != [] {
      ReversedAt(s[..|s| - 1]);
    }
  }

  lemma ReversedAppend(s: seq<char>, c: char)
    ensures Reversed(s + [c]) == [c] + Reversed(s)
  {
    assert (s + [c])[..|s|] == s;
  }

  /** Moving the last digit of `rest` to the front of the digits so far keeps the number they make up. */
  lemma DigitMoves(rest: nat, w: string)
    requires AllDigits(w)
    ensures AllDigits([Digit(rest % 10)] + w)
    ensures rest * Pow10(|w|) + DecValue(w) == (rest / 10) * Pow10(|w| + 1) + DecValue([Digit(rest % 10)] + w)
  {
    hide DecValue;
    DecValueFront(Digit(rest % 10), w);
    ScaleTen(rest / 10, rest % 10, Pow10(|w|));
  }

  lemma FitsBuffer(rest: nat, digits: nat, n: nat)
    requires rest != 0 && rest * Pow10(digits) <= n < Pow10(BUFFER_SIZE)
    ensures digits < BUFFER_SIZE
  {
    MulOrder(1, rest, Pow10(digits));
    if digits >= BUFFER_SIZE {
      Pow10Order(BUFFER_SIZE, digits);
    }
  }

  /** Both digit loops: the digits of n, at least so many, last one first. They fit in the buffer. */
  method FillDigits(buf: array<char>, n: nat, atLeast: nat) returns (digits: nat)
    requires buf.Length == BUFFER_SIZE && n < Pow10(BUFFER_SIZE) && atLeast <= BUFFER_SIZE
    modifies buf
    ensures atLeast <= digits <= BUFFER_SIZE && (n != 0 ==> digits >= 1)
    ensures AllDigits(Reversed(buf[..digits])) && DecValue(Reversed(buf[..digits])) == n
    ensures digits > 0 ==> buf[0] == Digit(n % 10)
    ensures digits > atLeast ==> buf[digits - 1] != '0'
  {
    hide DecValue, Reversed, Pow10;
    var rest: nat := n;
    digits := 0;
    ghost var w := "";
    FillStart(n);
    while rest != 0 || digits < atLeast
      invariant digits <= BUFFER_SIZE && |w| == digits && w == Reversed(buf[..digits])
      invariant AllDigits(w) && rest * Pow10(digits) + DecValue(w) == n
      invariant digits == 0 ==> rest == n
      invariant digits > 0 ==> buf[0] == Digit(n % 10)
      invariant digits > atLeast && rest == 0 ==> buf[digits - 1] != '0'
      decreases rest, atLeast - digits
    {
      if rest != 0 {
        FitsBuffer(rest, digits, n);
      }
      DigitMoves(rest, w);
      ReversedAppend(buf[..digits], Digit(rest % 10));
      buf[digits] := Digit(rest % 10);
      digits := digits + 1;
      assert buf[..digits] == buf[..digits - 1] + [Digit(rest % 10)];
      w := [Digit(rest % 10)] + w;
      rest := rest / 10;
    }
    assert 0 * Pow10(digits) == 0;
  }

  lemma FillStart(n: nat)
    ensures n * Pow10(0) + DecValue("") == n && Reversed([]) == ""
  {
  }

  /** The first e digits of w, with the point in its place if it has been passed. */
  function Emitted(w: string, d: nat, e: nat): string
    requires d < |w| && e <= |w|
  {
    if d == 0 || e <= |w| - d then w[..e] else w[..|w| - d] + "." + w[|w| - d..e]
  }

  lemma EmitOne(w: string, d: nat, e: nat)
    requires d < |w| && e < |w|
    ensures Emitted(w, d, e + 1) == Emitted(w, d, e) + (if d > 0 && e == |w| - d then "." else "") + [w[e]]
  {
    assert w[..e + 1] == w[..e] + [w[e]];
    if d > 0 && e >= |w| - d {
      assert w[|w| - d..e + 1] == w[|w| - d..e] + [w[e]];
    }
  }

  lemma EmittedAll(w: string, d: nat)
    requires d < |w|
    ensures Emitted(w, d, |w|) == Pointed(w, d) && Emitted(w, d, 0) == ""
  {
    assert w[..|w|] == w && w[|w| - d..|w|] == w[|w| - d..];
  }

  /** The loop that empties the buffer, putting the point before the last `decimals` digits. */
  method EmitDigits(buf: array<char>, count: nat, decimals: nat) returns (out: string)
    requires count <= buf.Length && decimals < count
    ensures out == Pointed(Reversed(buf[..count]), decimals)
  {
    hide Reversed;
    ReversedAt(buf[..count]);
    ghost var w := Reversed(buf[..count]);
    EmittedAll(w, decimals);
    hide Emitted, Pointed;
    var digits := count;
    out := "";
    while digits > 0
      invariant digits <= count && out == Emitted(w, decimals, count - digits)
    {
      EmitOne(w, decimals, count - digits);
      if digits == decimals {
        out := out + ".";
      }
      digits := digits - 1;
      out := out + [buf[digits]];
    }
  }

  lemma SignMeans(sign: char, digits: string)
    requires (sign == '+' || sign == '-') && |digits| >= 1 && AllDigits(digits)
    ensures var y := [sign] + digits;
            IsSigned(y) && SignedValue(y) == if sign == '-' then 0 - DecValue(digits) else DecValue(digits)
  {
    hide DecValue, AllDigits;
    assert ([sign] + digits)[1..] == digits;
  }

  lemma SuffixMeans(sign: char, digits: string)
    requires (sign == '+' || sign == '-') && AllDigits(digits)
    requires |digits| >= 2 && (digits[0] == '0' ==> |digits| == 2) && DecValue(digits) > 0
    ensures var x := ['e', sign] + digits;
            && IsSuffix(x)
            && SignedValue(x[1..]) == if sign == '-' then 0 - DecValue(digits) else DecValue(digits)
  {
    hide DecValue, AllDigits, IsSigned, SignedValue;
    SignMeans(sign, digits);
    assert (['e', sign] + digits)[1..] == [sign] + digits;
  }

  lemma SuffixParts(x: string)
    ensures IsSuffix(x) ==> x[0] == 'e' && IsSigned(x[1..])
  {
  }

  /** The exponent suffix: nothing for 0, otherwise e, the sign, and at least two digits. */
  method EmitExponent(buf: array<char>, exponent: int) returns (out: string)
    requires buf.Length == BUFFER_SIZE && 0 - Pow10(BUFFER_SIZE) < exponent < Pow10(BUFFER_SIZE)
    modifies buf
    ensures out == "" <==> exponent == 0
    ensures out != "" ==> IsSuffix(out) && SignedValue(out[1..]) == exponent
  {
    out := "";
    if exponent != 0 {
      var sign, magnitude := '+', exponent;
      if exponent < 0 {
        sign, magnitude := '-', -exponent;
      }
      hide DecValue, Reversed, IsSuffix, Pow10;
      var digits := FillDigits(buf, magnitude, 2);
      var text := EmitDigits(buf, digits, 0);
      ReversedAt(buf[..digits]);
      SuffixMeans(sign, text);
      out := ['e', sign] + text;
    }
  }

  lemma BufferIsLarge()
    ensures Pow10(9) == 1_000_000_000 && 4_294_967_296 < Pow10(BUFFER_SIZE)
  {
    assert Pow10(3) == 1000;
    assert Pow10(6) == 1_000_000;
    assert Pow10(9) == 1_000_000_000;
    assert Pow10(10) == 10_000_000_000;
    Pow10Order(10, BUFFER_SIZE);
  }

  lemma {:induction false} Pow10Sum(a: nat, b: nat)
    ensures Pow10(a) * Pow10(b) == Pow10(a + b)
    decreases a
  {
    if a > 0 {
      Pow10Sum(a - 1, b);
      assert Pow10(a) * Pow10(b) == 10 * (Pow10(a - 1) * Pow10(b));
    } else {
      assert Pow10(0) * Pow10(b) == Pow10(b);
    }
  }

  /** With as many decimals as the number has digits but one, one digit stands before the point. */
  lemma OneDigit(w: string, decimals: nat, start: nat, scaled: nat)
    requires AllDigits(w) && decimals < |w| && decimals <= start
    requires |w| > decimals + 1 ==> w[0] != '0'
    requires DecValue(w) * Pow10(start - decimals) == scaled < Pow10(start + 1)
    ensures |w| == decimals + 1
    ensures scaled >= Pow10(start) ==> w[0] != '0'
  {
    hide Pow10, DecValue;
    Pow10Sum(decimals + 1, start - decimals);
    Pow10Sum(decimals, start - decimals);
    if |w| > decimals + 1 {
      DecValueBound(w);
      Pow10Order(decimals + 1, |w| - 1);
      MulOrder(Pow10(decimals + 1), DecValue(w), Pow10(start - decimals));
    } else if w[0] == '0' {
      LeadingZero(w);
      MulOrder(DecValue(w), Pow10(decimals), Pow10(start - decimals));
    }
  }

  lemma LeadingZero(w: string)
    requires w != "" && AllDigits(w) && w[0] == '0'
    ensures DecValue(w) < Pow10(|w| - 1)
  {
    assert w == ['0'] + w[1..];
    DecValueFront('0', w[1..]);
    DecValueBound(w[1..]);
  }

  lemma StandardForm(text: string, w: string, d: nat)
    requires AllDigits(w) && d < |w| && (d > 0 ==> w[|w| - 1] != '0') && (|w| > d + 1 ==> w[0] != '0')
    requires IsFloatText(text) && Significand(text) == Pointed(w, d)
    requires Suffix(text) != "" ==> IsSuffix(Suffix(text)) && |w| == d + 1
    ensures Standard(text)
  {
    hide DecValue, IsFloatText, Pointed, IsSuffix, Suffix, Significand, Places, WithoutPoint, IntegerPart;
    PointedDigits(w, d);
    PointedEnds(w, d);
  }

  /** The parts of the text fit together. */
  lemma Assemble(w: string, decimals: nat, start: nat, n: nat, scaled: nat, scale: int, suffix: string)
    requires AllDigits(w) && decimals < |w| && decimals <= start
    requires DecValue(w) == n && n * Pow10(start - decimals) == scaled
    requires decimals > 0 ==> w[|w| - 1] != '0'
    requires |w| > decimals + 1 ==> w[0] != '0'
    requires suffix == "" <==> scale + start == 0
    requires suffix != "" ==> IsSuffix(suffix) && SignedValue(suffix[1..]) == scale + start && |w| == decimals + 1
    ensures var text := Pointed(w, decimals) + suffix;
            && Standard(text) && TextValue(text) == scaled as real * Exp10(scale)
            && ExponentOf(text) == scale + start && Suffix(text) == suffix && text[0] == w[0]
  {
    hide Exp10, DecValue, TextValue, IsFloatText, Pointed, Pow10, IsSuffix, Standard, Trimmed, AllDigits;
    hide Suffix, Significand, Places, WithoutPoint, IsSigned, SignedValue, IntegerPart;
    SuffixParts(suffix);
    TextMeans(w, decimals, suffix);
    PointedEnds(w, decimals);
    StandardForm(Pointed(w, decimals) + suffix, w, decimals);
    Exp10Shift(n, scale, start - decimals);
  }

  /**
   * From the scaled integer n on, UnityPrintFloat prints a text in standard form that denotes exactly
   * n * 10^exponent: in fixed notation for exponents from -(digits + 3) to 0; otherwise with the
   * exponent that puts the point behind the first of sigDigits digits.
   */
  method PrintScaled(scaled: nat, scale: int32, sigDigits: nat) returns (out: string)
    requires sigDigits == 7 || sigDigits == 9
    requires 0 < scaled < Pow10(sigDigits) && scale + sigDigits < 0x8000_0000
    ensures Standard(out) && TextValue(out) == scaled as real * Exp10(scale)
    ensures Suffix(out) == "" <==> -(sigDigits + 3) <= scale <= 0
    ensures ExponentOf(out) == if -(sigDigits + 3) <= scale <= 0 then 0 else scale + sigDigits - 1
    ensures Suffix(out) != "" && scaled >= Pow10(sigDigits - 1) ==> out[0] != '0'
  {
    hide Exp10, DecValue, Reversed, TextValue, Standard, IsFloatText, Pointed, Pow10, Suffix, IsSigned, SignedValue;
    BufferIsLarge();
    Pow10Order(sigDigits, 9);
    Pow10Order(9, BUFFER_SIZE);
    var n, exponent: int := scaled, scale;
    var decimals := if exponent <= 0 && exponent >= -(sigDigits + 3) then -exponent else sigDigits - 1;
    exponent := exponent + decimals;
    ghost var start := decimals;
    n, decimals := TrimZeros(n, decimals);
    var buf := new char[BUFFER_SIZE];
    var digits := FillDigits(buf, n, decimals + 1);
    ghost var w := Reversed(buf[..digits]);
    ReversedAt(buf[..digits]);
    out := EmitDigits(buf, digits, decimals);
    if start == sigDigits - 1 {
      OneDigit(w, decimals, start, scaled);
    }
    var suffix := EmitExponent(buf, exponent);
    out := out + suffix;
    Assemble(w, decimals, start, n, scaled, scale, suffix);
  }

  /** Each zero removed at the end of the decimals is a factor of ten. */
  method TrimZeros(scaled: nat, places: nat) returns (n: nat, decimals: nat)
    requires scaled > 0
    ensures 0 < n <= scaled && decimals <= places
    ensures n * Pow10(places - decimals) == scaled
    ensures decimals > 0 ==> n % 10 != 0
  {
    n, decimals := scaled, places;
    assert n * Pow10(0) == n;
    while decimals > 0 && n % 10 == 0
      invariant 0 < n <= scaled && decimals <= places
      invariant n * Pow10(places - decimals) == scaled
    {
      ScaleTen(n / 10, 0, Pow10(places - decimals));
      n := n / 10;
      decimals := decimals - 1;
    }
  }
}
