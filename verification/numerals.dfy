/** Decimal digit strings and the way PHP reads a string as a number when
    the string takes part in arithmetic. */
module Numerals {
  import opened Options

  /** `\d` without the Unicode flag: ASCII digits only. */
  predicate IsDigit(c: char) {
    '0' <= c <= '9'
  }

  predicate AllDigits(s: string) {
    forall i :: 0 <= i < |s| ==> IsDigit(s[i])
  }

  /** The decimal value of a digit string (leading zeros allowed). */
  function DigitsValue(ds: string): nat
    requires AllDigits(ds)
  {
    if |ds| == 0 then 0
    else 10 * DigitsValue(ds[..|ds| - 1]) + (ds[|ds| - 1] as int - '0' as int)
  }

  /** The canonical decimal spelling of `n`, no leading zeros. */
  function Decimal(n: nat): (ds: string)
    ensures |ds| > 0 && AllDigits(ds)
    ensures DigitsValue(ds) == n
  {
    if n < 10 then [('0' as int + n) as char]
    else
      var front := Decimal(n / 10);
      var ds := front + [('0' as int + n % 10) as char];
      assert ds[..|ds| - 1] == front;
      ds
  }

  /** Length of the maximal run of digits starting at index `i`. */
  function DigitRun(s: string, i: nat): (k: nat)
    requires i <= |s|
    ensures i + k <= |s|
    ensures forall j :: i <= j < i + k ==> IsDigit(s[j])
    ensures i + k == |s| || !IsDigit(s[i + k])
    decreases |s| - i
  {
    if i < |s| && IsDigit(s[i]) then 1 + DigitRun(s, i + 1) else 0
  }

  /** A digit run is determined by where it starts and where the digits stop. */
  lemma DigitRunIs(s: string, i: nat, k: nat)
    requires i + k <= |s|
    requires forall j :: i <= j < i + k ==> IsDigit(s[j])
    requires i + k == |s| || !IsDigit(s[i + k])
    ensures DigitRun(s, i) == k
  {
  }

  function Pow10(e: nat): (r: nat)
    ensures r >= 1
  {
    if e == 0 then 1 else 10 * Pow10(e - 1)
  }

  /** The white space PHP allows around a numeric string: space, tab, line
      feed, carriage return, vertical tab and form feed. */
  predicate IsSpace(c: char) {
    c == ' ' || c == '\t' || c == '\n' || c == '\r' || c == '\U{0B}' || c == '\U{0C}'
  }

  /** Length of the maximal run of white space starting at index `i`. */
  function SpaceRun(s: string, i: nat): (k: nat)
    requires i <= |s|
    ensures i + k <= |s|
    ensures forall j :: i <= j < i + k ==> IsSpace(s[j])
    ensures i + k == |s| || !IsSpace(s[i + k])
    decreases |s| - i
  {
    if i < |s| && IsSpace(s[i]) then 1 + SpaceRun(s, i + 1) else 0
  }

  /** 1 when a sign character stands at index `i`, 0 otherwise. */
  function SignLength(s: string, i: nat): nat
    requires i <= |s|
  {
    if i < |s| && (s[i] == '+' || s[i] == '-') then 1 else 0
  }

  /** The scale an exponent part starting at index `e` applies: `e` or `E`,
      an optional sign, then at least one digit; anything else is no
      exponent and the scale is 1. */
  function ExponentScale(s: string, e: nat): (r: real)
    requires e <= |s|
    ensures r > 0.0
  {
    if e < |s| && (s[e] == 'e' || s[e] == 'E') then
      var t := e + 1 + SignLength(s, e + 1);
      var d := DigitRun(s, t);
      if d == 0 then 1.0
      else
        var p := Pow10(DigitsValue(s[t..t + d])) as real;
        if s[e + 1] == '-' then 1.0 / p else p
    else 1.0
  }

  /** The value of the `f` digits after a decimal point at index `i`. */
  function FractionDigits(s: string, i: nat, f: nat): real
    requires i + f <= |s| && forall j :: i <= j < i + f ==> IsDigit(s[j])
  {
    DigitsValue(s[i..i + f]) as real / Pow10(f) as real
  }

  /** The unsigned number whose digits start at index `j`: digits with an
      optional decimal point (at least one digit in all) and an optional
      exponent. */
  function UnsignedAt(s: string, j: nat): Option<real>
    requires j <= |s|
  {
    var k := DigitRun(s, j);
    var dot := j + k < |s| && s[j + k] == '.';
    var f := if dot then DigitRun(s, j + k + 1) else 0;
    if k == 0 && f == 0 then None
    else
      var whole := DigitsValue(s[j..j + k]) as real;
      var fraction := if dot then FractionDigits(s, j + k + 1, f) else 0.0;
      Some((whole + fraction) * ExponentScale(s, if dot then j + k + 1 + f else j + k))
  }

  /** The number PHP arithmetic reads from a string: leading white space,
      an optional sign, then an unsigned number. Whatever follows is
      ignored (PHP 7 raises a notice and PHP 8 a warning for such trailing
      text, and both use the leading number). `None` when no number starts
      the string. */
  function LeadingNumber(s: string): Option<real> {
    var i := SpaceRun(s, 0);
    var g := SignLength(s, i);
    match UnsignedAt(s, i + g)
    case None => None
    case Some(x) => Some(if g == 1 && s[i] == '-' then -x else x)
  }

  /** Digits at `j` that no point or exponent follows read as their value. */
  lemma UnsignedDigits(s: string, j: nat, k: nat)
    requires 0 < k && j + k <= |s|
    requires forall i :: j <= i < j + k ==> IsDigit(s[i])
    requires j + k == |s| || !(IsDigit(s[j + k]) || s[j + k] in ".eE")
    ensures UnsignedAt(s, j) == Some(DigitsValue(s[j..j + k]) as real)
  {
    DigitRunIs(s, j, k);
  }

  /** A string of digits followed by text that cannot continue a number
      reads as the value of the digits. */
  lemma {:induction false} LeadingDigits(ds: string, rest: string)
    requires |ds| > 0 && AllDigits(ds)
    requires |rest| == 0 || !(IsDigit(rest[0]) || rest[0] in ".eE")
    ensures LeadingNumber(ds + rest) == Some(DigitsValue(ds) as real)
  {
    var s := ds + rest;
    assert s[0] == ds[0];
    assert SpaceRun(s, 0) == 0 && SignLength(s, 0) == 0;
    forall i | 0 <= i < |ds|
      ensures IsDigit(s[i])
    {
      assert s[i] == ds[i];
    }
    if |rest| > 0 {
      assert s[|ds|] == rest[0];
    }
    UnsignedDigits(s, 0, |ds|);
    assert s[0..|ds|] == ds;
  }

  /** Round trip: the decimal spelling of `n` reads back as `n`. */
  lemma LeadingDecimal(n: nat)
    ensures LeadingNumber(Decimal(n)) == Some(n as real)
  {
    LeadingDigits(Decimal(n), "");
    assert Decimal(n) + "" == Decimal(n);
  }

  /** A minus sign negates the number that follows it. */
  lemma {:induction false} LeadingNegative(ds: string)
    requires |ds| > 0 && AllDigits(ds)
    ensures LeadingNumber("-" + ds) == Some(-(DigitsValue(ds) as real))
  {
    var s := "-" + ds;
    DigitsAfterSign(s, ds);
    MinusSign(s, DigitsValue(ds) as real);
  }

  lemma DigitsAfterSign(s: string, ds: string)
    requires |ds| > 0 && AllDigits(ds) && s == "-" + ds
    ensures UnsignedAt(s, 1) == Some(DigitsValue(ds) as real)
  {
    assert s[1..1 + |ds|] == ds;
    forall i | 1 <= i < 1 + |ds|
      ensures IsDigit(s[i])
    {
      assert s[i] == ds[i - 1];
    }
    UnsignedDigits(s, 1, |ds|);
  }

  lemma MinusSign(s: string, x: real)
    requires |s| > 0 && s[0] == '-' && UnsignedAt(s, 1) == Some(x)
    ensures LeadingNumber(s) == Some(-x)
  {
    assert SpaceRun(s, 0) == 0;
    assert SignLength(s, 0) == 1;
  }

  /** A decimal fraction "w.f" reads as w + f / 10^|f|. */
  lemma {:induction false} LeadingFixedPoint(w: string, f: string)
    requires |w| > 0 && AllDigits(w) && AllDigits(f)
    ensures LeadingNumber(w + "." + f)
            == Some(DigitsValue(w) as real + DigitsValue(f) as real / Pow10(|f|) as real)
  {
    var s := w + "." + f;
    assert s[0] == w[0];
    assert SpaceRun(s, 0) == 0 && SignLength(s, 0) == 0;
    forall i | 0 <= i < |w|
      ensures IsDigit(s[i])
    {
      assert s[i] == w[i];
    }
    forall i | |w| + 1 <= i < |s|
      ensures IsDigit(s[i])
    {
      assert s[i] == f[i - |w| - 1];
    }
    assert s[|w|] == '.';
    UnsignedFixedPoint(s, |w|, |f|);
    assert s[0..|w|] == w;
    assert s[|w| + 1..|w| + 1 + |f|] == f;
    assert FractionDigits(s, |w| + 1, |f|) == DigitsValue(f) as real / Pow10(|f|) as real;
    UnsignedStart(s, DigitsValue(w) as real + DigitsValue(f) as real / Pow10(|f|) as real);
  }

  /** A string that starts with neither white space nor a sign reads as
      the unsigned number at its start. */
  lemma UnsignedStart(s: string, x: real)
    requires SpaceRun(s, 0) == 0 && SignLength(s, 0) == 0 && UnsignedAt(s, 0) == Some(x)
    ensures LeadingNumber(s) == Some(x)
  {
  }

  /** Digits, a point and digits up to the end read as the whole part plus
      the fraction digits. */
  lemma {:induction false} UnsignedFixedPoint(s: string, k: nat, f: nat)
    requires 0 < k && k + 1 + f == |s|
    requires forall i :: 0 <= i < k ==> IsDigit(s[i])
    requires s[k] == '.'
    requires forall i :: k + 1 <= i < |s| ==> IsDigit(s[i])
    ensures UnsignedAt(s, 0) == Some(DigitsValue(s[0..k]) as real + FractionDigits(s, k + 1, f))
  {
    DigitRunIs(s, 0, k);
    DigitRunIs(s, k + 1, f);
    assert ExponentScale(s, |s|) == 1.0;
  }

  /** Leading white space is skipped and an exponent scales the digits:
      " 1e2" reads as 100.
      The string is a parameter fixed by `requires` so that the verifier
      works on a variable rather than unfolding the literal in every term. */
  lemma {:induction false} LeadingSpaceExponent(s: string)
    requires s == " 1e2"
    ensures LeadingNumber(s) == Some(100.0)
  {
    assert SpaceRun(s, 1) == 0;
    assert SpaceRun(s, 0) == 1;
    assert SignLength(s, 1) == 0;
    DigitRunIs(s, 1, 1);
    DigitRunIs(s, 4, 0);
    assert s[1..2] == "1" && s[3..4] == "2";
    assert DigitsValue(s[3..4]) == 2;
    assert ExponentScale(s, 2) == 100.0;
  }

  /** A sign may be followed directly by the point: "-.5" reads as -0.5.
      The string is a parameter fixed by `requires` so that the verifier
      works on a variable rather than unfolding the literal in every term. */
  lemma {:induction false} LeadingSignedFraction(s: string)
    requires s == "-.5"
    ensures LeadingNumber(s) == Some(-0.5)
  {
    assert SpaceRun(s, 0) == 0;
    assert SignLength(s, 0) == 1;
    DigitRunIs(s, 1, 0);
    DigitRunIs(s, 2, 1);
    assert s[2..3] == "5" && s[2..3][..0] == [];
    assert DigitsValue(s[2..3]) == 5 && Pow10(1) == 10;
    assert FractionDigits(s, 2, 1) == 0.5;
    assert ExponentScale(s, 3) == 1.0;
  }

  /** A string without digits has no number in it. */
  lemma NoLeadingNumber(s: string)
    requires forall i :: 0 <= i < |s| ==> !IsDigit(s[i])
    ensures LeadingNumber(s).None?
  {
  }

}
