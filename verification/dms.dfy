/** `convert_DMS`: the three RATIONAL components of an Exif GPSLatitude or
    GPSLongitude tag (degrees, minutes, seconds; section 4.6.6 of Exif 2.3)
    combined into decimal degrees with the positional weights 1, 1/60 and
    1/3600. */
module Dms {
  import opened Options
  import opened Numerals
  import opened Values
  import opened Fraction

  /** The array loop of lines 92-100: index 0 assigns, indices 1 and 2 add a
      weighted term, any later index is skipped. */
  function Step(acc: Value, i: nat, e: Value): Value {
    if i == 0 then e
    else if i == 1 then Add(acc, DivBy(e, 60.0))
    else if i == 2 then Add(acc, DivBy(e, 3600.0))
    else acc
  }

  /** The loop from index `i` on, over the components as `eval_fraction`
      reads them. */
  function Accumulate(values: seq<Value>, i: nat, acc: Value): Value
    requires i <= |values|
    decreases |values| - i
  {
    if i == |values| then acc
    else Accumulate(values, i + 1, Step(acc, i, values[i]))
  }

  /** Lines 91-103 on evaluated components: an empty array gives 0,
      otherwise the loop's result. */
  function Loop(values: seq<Value>): Value {
    if |values| == 0 then Num(0.0) else Accumulate(values, 0, Num(0.0))
  }

  /** `eval_fraction` applied to every component. The script calls it only
      for indices 0 to 2; it is pure, so reading the others changes
      nothing. */
  function Evaluated(coord: seq<string>): (values: seq<Value>)
    ensures |values| == |coord|
    ensures forall i :: 0 <= i < |coord| ==> values[i] == EvalFraction(coord[i])
  {
    seq(|coord|, i requires 0 <= i < |coord| => EvalFraction(coord[i]))
  }

  /** Lines 89-104. */
  function ConvertDms(coord: seq<string>): Value {
    Loop(Evaluated(coord))
  }

  /** The components that carry meaning all stand for numbers. */
  predicate AllNumbers(values: seq<Value>) {
    forall i :: 0 <= i < |values| && i < 3 ==> AsNumber(values[i]).Some?
  }

  /** Reference definition: degrees + minutes/60 + seconds/3600 over the
      components present among the first three. */
  function WeightedSum(values: seq<Value>): real
    requires AllNumbers(values)
  {
    (if |values| > 0 then AsNumber(values[0]).value else 0.0)
    + (if |values| > 1 then AsNumber(values[1]).value / 60.0 else 0.0)
    + (if |values| > 2 then AsNumber(values[2]).value / 3600.0 else 0.0)
  }

  /** Every component that carries meaning stands for a number: a fraction,
      or a passed-through string that starts with a number. */
  predicate Numeric(coord: seq<string>) {
    AllNumbers(Evaluated(coord))
  }

  function DmsSum(coord: seq<string>): real
    requires Numeric(coord)
  {
    WeightedSum(Evaluated(coord))
  }

  /** After the third component the loop changes nothing. */
  lemma {:induction false} AccumulateTail(values: seq<Value>, i: nat, acc: Value)
    requires 3 <= i <= |values|
    ensures Accumulate(values, i, acc) == acc
    decreases |values| - i
  {
    if i < |values| {
      AccumulateTail(values, i + 1, acc);
    }
  }

  /** The loop depends only on the first three components. */
  lemma {:induction false} AccumulatePrefix(values: seq<Value>, extra: seq<Value>, i: nat, acc: Value)
    requires i <= |values|
    requires 3 <= |values| || |extra| == 0
    ensures Accumulate(values + extra, i, acc) == Accumulate(values, i, acc)
    decreases |values| - i
  {
    var c := values + extra;
    if i == |values| {
      if |extra| > 0 {
        AccumulateTail(c, i, acc);
      } else {
        assert c == values;
      }
    } else {
      assert c[i] == values[i];
      AccumulatePrefix(values, extra, i + 1, Step(acc, i, values[i]));
    }
  }

  /** A weighted term added to a running value that stands for a number. */
  lemma AddWeighted(acc: Value, e: Value, w: real)
    requires w > 0.0 && AsNumber(acc).Some? && AsNumber(e).Some?
    ensures Add(acc, DivBy(e, w)) == Num(AsNumber(acc).value + AsNumber(e).value / w)
  {
  }

  /** The loop computes the weighted sum whenever the components stand for
      numbers. The result is a number, except that a one-element array
      returns its component as it is, a passed-through string included;
      that string still stands for the sum. */
  lemma {:induction false} LoopIsWeightedSum(values: seq<Value>)
    requires AllNumbers(values)
    ensures AsNumber(Loop(values)) == Some(WeightedSum(values))
    ensures |values| != 1 ==> Loop(values) == Num(WeightedSum(values))
  {
    if |values| == 1 {
      assert Accumulate(values, 1, values[0]) == values[0];
    } else if |values| > 1 {
      var x1 := AsNumber(values[0]).value + AsNumber(values[1]).value / 60.0;
      AddWeighted(values[0], values[1], 60.0);
      assert Accumulate(values, 0, Num(0.0)) == Accumulate(values, 2, Num(x1));
      if |values| == 2 {
        assert Accumulate(values, 2, Num(x1)) == Num(x1);
      } else {
        var x2 := x1 + AsNumber(values[2]).value / 3600.0;
        AddWeighted(Num(x1), values[2], 3600.0);
        assert Accumulate(values, 2, Num(x1)) == Accumulate(values, 3, Num(x2));
        AccumulateTail(values, 3, Num(x2));
      }
    }
  }

  /** The same for the tag's strings. */
  lemma {:induction false} ConvertDmsIsWeightedSum(coord: seq<string>)
    requires Numeric(coord)
    ensures AsNumber(ConvertDms(coord)) == Some(DmsSum(coord))
    ensures |coord| != 1 ==> ConvertDms(coord) == Num(DmsSum(coord))
  {
    LoopIsWeightedSum(Evaluated(coord));
  }

  /** Components at index 3 or above never affect the result. */
  lemma {:induction false} ConvertDmsIgnoresTail(coord: seq<string>, extra: seq<string>)
    requires |coord| >= 3
    ensures ConvertDms(coord + extra) == ConvertDms(coord)
  {
    var all, front := Evaluated(coord + extra), Evaluated(coord);
    assert all == front + Evaluated(extra);
    AccumulatePrefix(front, Evaluated(extra), 0, Num(0.0));
  }

  /** A one-element array undergoes no arithmetic: a passed-through string
      comes back as it is. */
  lemma {:induction false} ConvertDmsSingle(token: string)
    ensures ConvertDms([token]) == EvalFraction(token)
  {
    var values := Evaluated([token]);
    assert Accumulate(values, 1, values[0]) == values[0];
  }

  /** With two or more components, a component among the first three that
      stands for no number takes part in arithmetic, and the value is
      unspecified. */
  lemma {:induction false} LoopNonNumericPoisons(values: seq<Value>, i: nat)
    requires 2 <= |values| && i < |values| && i < 3
    requires AsNumber(values[i]).None?
    ensures Loop(values) == Indeterminate
  {
    var a1 := values[0];
    var a2 := Step(a1, 1, values[1]);
    assert Accumulate(values, 0, Num(0.0)) == Accumulate(values, 2, a2);
    if |values| == 2 {
      assert a2 == Indeterminate;
    } else {
      var a3 := Step(a2, 2, values[2]);
      assert a3 == Indeterminate;
      AccumulateTail(values, 3, a3);
      assert Accumulate(values, 2, a2) == Accumulate(values, 3, a3);
    }
  }

  /** The same for the tag's strings: a passed-through string that starts
      with no number, or a fraction whose division has no value, makes the
      whole coordinate unspecified. */
  lemma {:induction false} ConvertDmsNonNumericPoisons(coord: seq<string>, i: nat)
    requires 2 <= |coord| && i < |coord| && i < 3
    requires AsNumber(EvalFraction(coord[i])).None?
    ensures ConvertDms(coord) == Indeterminate
  {
    LoopNonNumericPoisons(Evaluated(coord), i);
  }

  /** How the EXIF reader spells one RATIONAL component. */
  function RationalToken(n: nat, d: nat): string {
    Decimal(n) + "/" + Decimal(d)
  }

  /** Round trip: three RATIONAL components spelled by the EXIF reader read
      back as exactly degrees + minutes/60 + seconds/3600. */
  lemma {:induction false} DmsRoundTrip(dn: nat, dd: nat, mn: nat, md: nat, sn: nat, sd: nat)
    requires dn <= IntMax && mn <= IntMax && sn <= IntMax
    requires 0 < dd <= IntMax && 0 < md <= IntMax && 0 < sd <= IntMax
    ensures ConvertDms([RationalToken(dn, dd), RationalToken(mn, md), RationalToken(sn, sd)])
            == Num(dn as real / dd as real
                   + (mn as real / md as real) / 60.0
                   + (sn as real / sd as real) / 3600.0)
  {
    FractionRoundTrip(dn, dd);
    FractionRoundTrip(mn, md);
    FractionRoundTrip(sn, sd);
    ThreeComponents(RationalToken(dn, dd), RationalToken(mn, md), RationalToken(sn, sd),
                    dn as real / dd as real, mn as real / md as real, sn as real / sd as real);
  }

  /** Three components that stand for numbers convert to their weighted
      sum. */
  lemma {:induction false} ThreeComponents(d: string, m: string, s: string, x: real, y: real, z: real)
    requires AsNumber(EvalFraction(d)) == Some(x)
    requires AsNumber(EvalFraction(m)) == Some(y)
    requires AsNumber(EvalFraction(s)) == Some(z)
    ensures ConvertDms([d, m, s]) == Num(x + y / 60.0 + z / 3600.0)
  {
    EvaluatedThree(d, m, s);
    ThreeValues(EvalFraction(d), EvalFraction(m), EvalFraction(s), x, y, z);
  }

  lemma EvaluatedThree(d: string, m: string, s: string)
    ensures Evaluated([d, m, s]) == [EvalFraction(d), EvalFraction(m), EvalFraction(s)]
  {
  }

  lemma {:induction false} ThreeValues(a: Value, b: Value, c: Value, x: real, y: real, z: real)
    requires AsNumber(a) == Some(x) && AsNumber(b) == Some(y) && AsNumber(c) == Some(z)
    ensures Loop([a, b, c]) == Num(x + y / 60.0 + z / 3600.0)
  {
    LoopIsWeightedSum([a, b, c]);
  }

  /** Whole degrees, as an EXIF reader spells them, read back exactly. */
  lemma {:induction false} WholeDegrees(n: nat)
    requires n <= IntMax
    ensures ConvertDms([RationalToken(n, 1), RationalToken(0, 1), RationalToken(0, 1)]) == Num(n as real)
  {
    DmsRoundTrip(n, 1, 0, 1, 0, 1);
  }

  /** The decimal spelling of an integer passes through the fraction parser
      and stands for the integer. */
  lemma {:induction false} IntegerPassesThrough(n: nat)
    ensures EvalFraction(Decimal(n)) == Text(Decimal(n))
    ensures AsNumber(EvalFraction(Decimal(n))) == Some(n as real)
  {
    var ds := Decimal(n);
    forall i | 0 <= i < |ds|
      ensures ds[i] != '/'
    {
      assert IsDigit(ds[i]);
    }
    NoSlashPassesThrough(ds);
    LeadingDecimal(n);
  }

  /** Integer components (an integer-format tag that the EXIF reader returns
      as integers, which the fraction parser passes through) are weighted
      like fractions: ["10", "30", "0"] converts to 10.5. */
  lemma {:induction false} IntegerComponents(d: nat, m: nat, s: nat)
    ensures ConvertDms([Decimal(d), Decimal(m), Decimal(s)])
            == Num(d as real + (m as real) / 60.0 + (s as real) / 3600.0)
  {
    IntegerPassesThrough(d);
    IntegerPassesThrough(m);
    IntegerPassesThrough(s);
    ThreeComponents(Decimal(d), Decimal(m), Decimal(s), d as real, m as real, s as real);
  }
}
