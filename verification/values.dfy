/** The values the coordinate pipeline handles. The fraction parser yields
    a number, its input string unchanged when it finds no fraction (an
    integer or float tag value read as its decimal spelling), or the
    unspecified value of a division by zero. PHP arithmetic reads a string
    as the number it starts with; PHP 7 and PHP 8 agree on that number,
    raising at most a notice or a warning. A string that starts with no
    number reads as 0 with a warning in PHP 7 but throws a TypeError in
    PHP 8, so arithmetic on it gives the distinct, unspecified value
    `Indeterminate`. Numbers are exact rationals. */
module Values {
  import opened Options
  import opened Numerals

  datatype Value = Num(v: real) | Text(s: string) | Indeterminate

  /** The number a value stands for in arithmetic, if any. */
  function AsNumber(a: Value): Option<real> {
    match a
    case Num(v) => Some(v)
    case Text(s) => LeadingNumber(s)
    case Indeterminate => None
  }

  /** PHP `a + b`. */
  function Add(a: Value, b: Value): Value {
    match (AsNumber(a), AsNumber(b))
    case (Some(x), Some(y)) => Num(x + y)
    case _ => Indeterminate
  }

  /** PHP `a / d` for a positive constant divisor. */
  function DivBy(a: Value, d: real): (r: Value)
    requires d > 0.0
    ensures !r.Text?
    ensures r.Num? <==> AsNumber(a).Some?
    ensures r.Num? ==> r.v * d == AsNumber(a).value
  {
    match AsNumber(a)
    case Some(x) => Num(x / d)
    case None => Indeterminate
  }

  /** PHP `a *= -1`. */
  function Negate(a: Value): (r: Value)
    ensures !r.Text?
    ensures r.Num? <==> AsNumber(a).Some?
    ensures r.Num? ==> r.v + AsNumber(a).value == 0.0
  {
    match AsNumber(a)
    case Some(x) => Num(-x)
    case None => Indeterminate
  }

  /** A passed-through integer spelling takes part in arithmetic as the
      integer it spells: "30" / 60 is 0.5 and "30" * -1 is -30. */
  lemma {:induction false} DecimalTextArithmetic(n: nat, d: real)
    requires d > 0.0
    ensures DivBy(Text(Decimal(n)), d) == Num(n as real / d)
    ensures Negate(Text(Decimal(n))) == Num(-(n as real))
  {
    LeadingDecimal(n);
  }

  /** A string with no digits has no number, and arithmetic on it has no
      value. */
  lemma NonNumericText(s: string)
    requires forall i :: 0 <= i < |s| ==> !IsDigit(s[i])
    ensures Add(Text(s), Num(0.0)) == Indeterminate
    ensures Negate(Text(s)) == Indeterminate
  {
    NoLeadingNumber(s);
  }

}
