/** `eval_fraction`: a lenient reader for the "numerator/denominator" tokens
    that the EXIF reader produces for RATIONAL tags. The pattern
    `(\d+)/(\d+)` is unanchored and has no sign, so the first
    digits-slash-digits occurrence anywhere in the token is used and every
    other character is ignored. */
module Fraction {
  import opened Options
  import opened Numerals
  import opened Values

  predicate NoDigits(s: string) {
    forall i :: 0 <= i < |s| ==> !IsDigit(s[i])
  }

  /** PHP_INT_MAX on a 64-bit build. */
  const IntMax: int := 0x7FFF_FFFF_FFFF_FFFF

  /** The least decimal value that a correctly rounded conversion to an
      IEEE double turns into infinity: 2^1024 - 2^970, halfway between the
      largest finite double and 2^1024. */
  const DoubleOverflow: nat := 0xFFFF_FFFF_FFFF_FC00_0000_0000_0000_0000_0000_0000_0000_0000_0000_0000_0000_0000_0000_0000_0000_0000_0000_0000_0000_0000_0000_0000_0000_0000_0000_0000_0000_0000_0000_0000_0000_0000_0000_0000_0000_0000_0000_0000_0000_0000_0000_0000_0000_0000_0000_0000_0000_0000_0000_0000_0000_0000_0000_0000_0000_0000_0000_0000_0000_0000

  /** PHP `(int)` of a digit string. A value that fits is exact. A larger
      one is read as a double first and capped at PHP_INT_MAX, except that
      a double that overflowed to infinity casts to 0. */
  function IntCast(ds: string): int
    requires AllDigits(ds)
  {
    if DigitsValue(ds) <= IntMax then DigitsValue(ds)
    else if DigitsValue(ds) < DoubleOverflow then IntMax
    else 0
  }

  /** The pattern `(\d+)/(\d+)` matches at index `p`. Greedy `\d+` takes the
      whole digit run, and backtracking cannot help since a shorter run is
      followed by a digit rather than '/'. */
  predicate MatchAt(s: string, p: nat)
    requires p <= |s|
  {
    var k := DigitRun(s, p);
    k > 0 && p + k < |s| && s[p + k] == '/' && DigitRun(s, p + k + 1) > 0
  }

  /** The two capture groups of a match. */
  datatype Groups = Groups(num: string, den: string)

  function GroupsAt(s: string, p: nat): (g: Groups)
    requires p <= |s| && MatchAt(s, p)
    ensures |g.num| > 0 && AllDigits(g.num)
    ensures |g.den| > 0 && AllDigits(g.den)
  {
    var k := DigitRun(s, p);
    var m := DigitRun(s, p + k + 1);
    Groups(s[p..p + k], s[p + k + 1..p + k + 1 + m])
  }

  /** `preg_match` scans start positions from left to right and reports the
      first one at which the pattern matches. */
  function FirstMatch(s: string, p: nat): (r: Option<nat>)
    requires p <= |s|
    ensures r.Some? ==> p <= r.value <= |s| && MatchAt(s, r.value)
    ensures r.Some? ==> forall j :: p <= j < r.value ==> !MatchAt(s, j)
    ensures r.None? ==> forall j :: p <= j <= |s| ==> !MatchAt(s, j)
    decreases |s| - p
  {
    if p == |s| then None
    else if MatchAt(s, p) then Some(p)
    else FirstMatch(s, p + 1)
  }

  /** Lines 82-83: a denominator that compares equal to 0 yields the integer
      numerator; otherwise the quotient of the two integer casts. A
      denominator too large for a double compares unequal to 0 yet casts
      to 0, and that division by zero (a warning and an infinite or NaN
      result in PHP 7, a DivisionByZeroError in PHP 8) has no value in the
      model. */
  function Quotient(num: string, den: string): (r: Value)
    requires AllDigits(num) && AllDigits(den)
    ensures r.Indeterminate? <==> DigitsValue(den) >= DoubleOverflow
    ensures r.Num? ==> 0.0 <= r.v <= IntMax as real
    ensures !r.Text?
  {
    if DigitsValue(den) == 0 then Num(IntCast(num) as real)
    else if IntCast(den) == 0 then Indeterminate
    else
      var a, b := IntCast(num) as real, IntCast(den) as real;
      QuotientBounds(a, b);
      Num(a / b)
  }

  /** Dividing by at least 1 keeps a non-negative value between 0 and
      itself. */
  lemma QuotientBounds(a: real, b: real)
    requires 0.0 <= a && 1.0 <= b
    ensures 0.0 <= a / b <= a
  {
    var q := a / b;
    assert q * b == a;
    assert q * b == q + q * (b - 1.0);
  }

  /** Within PHP's integer range, lines 82-83 compute the quotient of the
      two digit strings' values, leading zeros included. */
  lemma QuotientOfDigits(num: string, den: string)
    requires AllDigits(num) && AllDigits(den)
    requires DigitsValue(num) <= IntMax && 0 < DigitsValue(den) <= IntMax
    ensures Quotient(num, den) == Num(DigitsValue(num) as real / DigitsValue(den) as real)
  {
  }

  function EvalFraction(token: string): (r: Value)
    ensures r.Text? ==> r.s == token
    ensures r.Num? ==> 0.0 <= r.v <= IntMax as real
  {
    match FirstMatch(token, 0)
    case None => Text(token)
    case Some(p) =>
      var g := GroupsAt(token, p);
      Quotient(g.num, g.den)
  }

  /** The input is passed through unchanged exactly when the pattern
      matches nowhere in it; a match has no value exactly when its
      denominator is too large for a double; otherwise the result is a
      number. */
  lemma PassThroughIffNoMatch(token: string)
    ensures EvalFraction(token).Text? <==> forall p :: 0 <= p <= |token| ==> !MatchAt(token, p)
    ensures EvalFraction(token).Indeterminate? <==>
              && FirstMatch(token, 0).Some?
              && DigitsValue(GroupsAt(token, FirstMatch(token, 0).value).den) >= DoubleOverflow
  {
  }

  /** The parser in terms of positions: no match starts before `p`, a digit
      run of length `k` at `p`, a '/', then a maximal digit run of length
      `m`. */
  lemma {:induction false} EvalFractionAt(s: string, p: nat, k: nat, m: nat)
    requires p + k + 1 + m <= |s|
    requires forall j :: 0 <= j < p ==> !MatchAt(s, j)
    requires k > 0 && forall j :: p <= j < p + k ==> IsDigit(s[j])
    requires s[p + k] == '/'
    requires m > 0 && forall j :: p + k + 1 <= j < p + k + 1 + m ==> IsDigit(s[j])
    requires p + k + 1 + m == |s| || !IsDigit(s[p + k + 1 + m])
    ensures EvalFraction(s) == Quotient(s[p..p + k], s[p + k + 1..p + k + 1 + m])
  {
    DigitRunIs(s, p, k);
    DigitRunIs(s, p + k + 1, m);
    assert MatchAt(s, p);
    assert FirstMatch(s, 0) == Some(p);
    GroupsAtIs(s, p, k, m);
  }

  /** The groups of a match are the two digit runs, by position. */
  lemma {:induction false} GroupsAtIs(s: string, p: nat, k: nat, m: nat)
    requires p + k + 1 + m <= |s|
    requires DigitRun(s, p) == k && DigitRun(s, p + k + 1) == m
    requires MatchAt(s, p)
    ensures GroupsAt(s, p) == Groups(s[p..p + k], s[p + k + 1..p + k + 1 + m])
  {
  }

  /** The whole grammar of the parser: whatever comes before the first
      match (a minus sign, or digits not followed by a fraction) and
      whatever follows the denominator's last digit is ignored, and the
      value is the quotient of the two digit runs. */
  lemma {:induction false} EvalFractionOf(s: string, pre: string, num: string, den: string, post: string)
    requires s == pre + num + "/" + den + post
    requires forall j :: 0 <= j < |pre| ==> !MatchAt(s, j)
    requires |num| > 0 && AllDigits(num)
    requires |den| > 0 && AllDigits(den)
    requires |post| == 0 || !IsDigit(post[0])
    ensures EvalFraction(s) == Quotient(num, den)
  {
    var p, k, m := |pre|, |num|, |den|;
    assert s[p..p + k] == num;
    assert s[p + k] == '/';
    assert s[p + k + 1..p + k + 1 + m] == den;
    assert s[p + k + 1 + m..] == post;
    forall j | p <= j < p + k
      ensures IsDigit(s[j])
    {
      assert s[j] == s[p..p + k][j - p];
    }
    forall j | p + k + 1 <= j < p + k + 1 + m
      ensures IsDigit(s[j])
    {
      assert s[j] == s[p + k + 1..p + k + 1 + m][j - (p + k + 1)];
    }
    if p + k + 1 + m < |s| {
      assert s[p + k + 1 + m] == s[p + k + 1 + m..][0];
    }
    EvalFractionAt(s, p, k, m);
  }

  /** No match can start inside a prefix without digits. */
  lemma {:induction false} NoDigitsNoMatch(s: string, pre: string)
    requires |pre| <= |s| && s[..|pre|] == pre && NoDigits(pre)
    ensures forall j :: 0 <= j < |pre| ==> !MatchAt(s, j)
  {
    forall j | 0 <= j < |pre|
      ensures !MatchAt(s, j)
    {
      assert s[j] == pre[j];
      DigitRunIs(s, j, 0);
    }
  }

  /** A mixed number "w n/d" reads as n/d: the whole part is a digit run
      that no '/' follows, so it is skipped. */
  lemma {:induction false} MixedNumber(s: string, whole: string, num: string, den: string)
    requires s == whole + " " + num + "/" + den
    requires AllDigits(whole)
    requires |num| > 0 && AllDigits(num)
    requires |den| > 0 && AllDigits(den)
    ensures EvalFraction(s) == Quotient(num, den)
  {
    var w := |whole|;
    assert s[w] == ' ';
    forall j | 0 <= j < w
      ensures IsDigit(s[j])
    {
      assert s[j] == whole[j];
    }
    forall j | 0 <= j <= w
      ensures !MatchAt(s, j)
    {
      DigitRunIs(s, j, w - j);
    }
    assert s == (whole + " ") + num + "/" + den + "";
    EvalFractionOf(s, whole + " ", num, den, "");
  }

  /** Round trip: the decimal spellings of two integers that fit PHP's
      integer range, joined by '/', read back as their exact quotient, or
      as the numerator alone for a zero denominator. */
  lemma {:induction false} FractionRoundTrip(n: nat, d: nat)
    requires n <= IntMax && d <= IntMax
    ensures EvalFraction(Decimal(n) + "/" + Decimal(d))
            == Num(if d == 0 then n as real else n as real / d as real)
  {
    var s := Decimal(n) + "/" + Decimal(d);
    EvalFractionOf(s, "", Decimal(n), Decimal(d), "");
  }

  /** Any two digit strings within PHP's integer range, joined by '/',
      read as the quotient of their values: "010/002" is 5. */
  lemma {:induction false} FractionOfDigits(num: string, den: string)
    requires |num| > 0 && AllDigits(num) && DigitsValue(num) <= IntMax
    requires |den| > 0 && AllDigits(den) && 0 < DigitsValue(den) <= IntMax
    ensures EvalFraction(num + "/" + den) == Num(DigitsValue(num) as real / DigitsValue(den) as real)
  {
    EvalFractionOf(num + "/" + den, "", num, den, "");
    QuotientOfDigits(num, den);
  }

  lemma {:induction false} ZerosValue(ds: string)
    requires forall i :: 0 <= i < |ds| ==> ds[i] == '0'
    ensures AllDigits(ds) && DigitsValue(ds) == 0
  {
    if |ds| > 0 {
      ZerosValue(ds[..|ds| - 1]);
    }
  }

  /** A denominator spelled with any number of zeros ("0", "00", ...)
      compares equal to 0, so no division happens and the value is the
      integer numerator. */
  lemma {:induction false} ZeroDenominator(num: string, den: string)
    requires |num| > 0 && AllDigits(num)
    requires |den| > 0 && forall i :: 0 <= i < |den| ==> den[i] == '0'
    ensures EvalFraction(num + "/" + den) == Num(IntCast(num) as real)
  {
    ZerosValue(den);
    var s := num + "/" + den;
    EvalFractionOf(s, "", num, den, "");
  }

  /** A denominator too large for a double compares unequal to 0 on line
      82 but casts to 0 on line 83: the division has no value. */
  lemma {:induction false} DenominatorOverflow(num: string, den: string)
    requires |num| > 0 && AllDigits(num)
    requires |den| > 0 && AllDigits(den) && DigitsValue(den) >= DoubleOverflow
    ensures EvalFraction(num + "/" + den) == Indeterminate
  {
    var s := num + "/" + den;
    EvalFractionOf(s, "", num, den, "");
  }

  /** The pattern has no sign: a leading minus is dropped, and the value is
      the same as without it. */
  lemma {:induction false} SignIgnored(num: string, den: string)
    requires |num| > 0 && AllDigits(num)
    requires |den| > 0 && AllDigits(den)
    ensures EvalFraction("-" + num + "/" + den) == EvalFraction(num + "/" + den)
    ensures EvalFraction(num + "/" + den) == Quotient(num, den)
  {
    var neg := "-" + num + "/" + den;
    var pos := num + "/" + den;
    assert neg[..1] == "-";
    NoDigitsNoMatch(neg, "-");
    EvalFractionOf(neg, "-", num, den, "");
    EvalFractionOf(pos, "", num, den, "");
  }

  /** A token with no '/' (an already-decimal "12.5", say) cannot match and
      passes through unchanged. */
  lemma NoSlashPassesThrough(token: string)
    requires '/' !in token
    ensures EvalFraction(token) == Text(token)
  {
    PassThroughIffNoMatch(token);
    forall p | 0 <= p <= |token|
      ensures !MatchAt(token, p)
    {
      var k := DigitRun(token, p);
      if p + k < |token| {
        assert token[p + k] in token;
      }
    }
  }

}
