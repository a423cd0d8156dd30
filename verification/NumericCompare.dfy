/** numeric_cmp_datum: sign, then weight, then digits. */
module NumericCompare {
  import opened Numerics
  import opened Wrappers

  const FALLBACK := -2

  function Signed(neg: bool, cmp: int): int {
    if neg then -cmp else cmp
  }

  /** Sign of the digits of d from i on: 0 when all of them are zero. */
  function Tail(d: seq<int>, i: nat): int
    decreases |d| - i
  {
    if i >= |d| then 0 else if d[i] != 0 then 1 else Tail(d, i + 1)
  }

  /** Digit by digit; digits the shorter operand does not have count as zeros. */
  function CompareDigits(d1: seq<int>, d2: seq<int>, i: nat): int
    requires i <= |d1| && i <= |d2|
    decreases |d1| - i
  {
    if i == |d1| then -Tail(d2, i)
    else if i == |d2| then Tail(d1, i)
    else if d1[i] != d2[i] then if d1[i] > d2[i] then 1 else -1
    else CompareDigits(d1, d2, i + 1)
  }

  function Compare(x: Numeric, y: Numeric): int {
    if x.neg != y.neg then if x.digits == [] && y.digits == [] then 0 else if x.neg then -1 else 1
    else if x.weight != y.weight then Signed(x.neg, if x.weight > y.weight then 1 else -1)
    else Signed(x.neg, CompareDigits(x.digits, y.digits, 0))
  }

  // ---- The order of the values ----

  function SignOf(r: real): int {
    if r > 0.0 then 1 else if r < 0.0 then -1 else 0
  }

  lemma {:induction false} TailIsSign(d: seq<int>, i: nat)
    requires ProperDigits(d)
    ensures Tail(d, i) == SignOf(Frac(d, i))
    decreases |d| - i
  {
    if i < |d| {
      FracBounds(d, i + 1);
      TailIsSign(d, i + 1);
    }
  }

  lemma {:induction false} DigitsAreOrdered(d1: seq<int>, d2: seq<int>, i: nat)
    requires ProperDigits(d1) && ProperDigits(d2) && i <= |d1| && i <= |d2|
    ensures CompareDigits(d1, d2, i) == SignOf(Frac(d1, i) - Frac(d2, i))
    decreases |d1| - i
  {
    if i == |d1| {
      TailIsSign(d2, i);
    } else if i == |d2| {
      TailIsSign(d1, i);
    } else {
      FracBounds(d1, i + 1);
      FracBounds(d2, i + 1);
      DigitsAreOrdered(d1, d2, i + 1);
    }
  }

  /** x is zero and y a positive number below one: the weight test misjudges the pair. */
  predicate ZeroBelowOne(x: Numeric, y: Numeric) {
    x.digits == [] && y.digits != [] && !y.neg && y.weight < 0
  }

  lemma SameWeight(x: Numeric, y: Numeric)
    requires Canonical(x) && Canonical(y) && x.weight == y.weight && x.neg == y.neg
    ensures Compare(x, y) == SignOf(Value(x) - Value(y))
  {
    var w := x.weight;
    DigitsAreOrdered(x.digits, y.digits, 0);
    ScaleKeepsOrder(Frac(x.digits, 0), Frac(y.digits, 0), w);
    ScaleKeepsOrder(Frac(y.digits, 0), Frac(x.digits, 0), w);
  }

  lemma ZeroIsZero(x: Numeric)
    requires x.digits == []
    ensures Value(x) == 0.0
  {
    ScaleAdds(0.0, 0.0, x.weight);
  }

  lemma ValueSign(x: Numeric)
    requires Canonical(x) && x.digits != []
    ensures if x.neg then Value(x) < 0.0 else Value(x) > 0.0
  {
    MagnitudeBounds(x);
  }

  /** The comparison gives the order of the values exactly when it does not put zero beside a
      positive number below one; on numbers that are not zero it always does. */
  lemma ComparesExactlyWhen(x: Numeric, y: Numeric)
    requires Canonical(x) && Canonical(y)
    ensures Compare(x, y) == SignOf(Value(x) - Value(y)) <==> !ZeroBelowOne(x, y) && !ZeroBelowOne(y, x)
  {
    if x.digits == [] {
      ZeroIsZero(x);
    } else {
      ValueSign(x);
    }
    if y.digits == [] {
      ZeroIsZero(y);
    } else {
      ValueSign(y);
    }
    if x.neg == y.neg {
      if x.weight == y.weight {
        SameWeight(x, y);
      } else if x.digits != [] && y.digits != [] {
        if x.weight < y.weight {
          WeightDecides(x, y);
        } else {
          WeightDecides(y, x);
        }
      }
    }
  }

  /** Compare is a total order on numbers that are not zero, and equal means equal values. */
  lemma NonZeroOrder(x: Numeric, y: Numeric, z: Numeric)
    requires Canonical(x) && Canonical(y) && Canonical(z)
    requires x.digits != [] && y.digits != [] && z.digits != []
    ensures Compare(x, y) == -Compare(y, x)
    ensures Compare(x, y) == 0 <==> Value(x) == Value(y)
    ensures Compare(x, y) <= 0 && Compare(y, z) <= 0 ==> Compare(x, z) <= 0
    ensures Compare(x, y) < 0 && Compare(y, z) <= 0 ==> Compare(x, z) < 0
  {
    ComparesExactlyWhen(x, y);
    ComparesExactlyWhen(y, x);
    ComparesExactlyWhen(y, z);
    ComparesExactlyWhen(x, z);
  }

  // ---- The loops ----

  method CompareWords(d1: seq<int>, d2: seq<int>, neg: bool) returns (r: int)
    ensures r == Signed(neg, CompareDigits(d1, d2, 0))
  {
    var nmin := if |d1| < |d2| then |d1| else |d2|;
    var i := 0;
    while i < nmin
      invariant 0 <= i <= nmin
      invariant CompareDigits(d1, d2, i) == CompareDigits(d1, d2, 0)
    {
      if d1[i] != d2[i] {
        return Signed(neg, if d1[i] > d2[i] then 1 else -1);
      }
      i := i + 1;
    }
    if |d1| > |d2| {
      var nonzero := AnyNonZero(d1, nmin);
      return if nonzero then if neg then -1 else 1 else 0;
    } else if |d2| > |d1| {
      var nonzero := AnyNonZero(d2, nmin);
      return if nonzero then if neg then 1 else -1 else 0;
    }
    return 0;
  }

  method AnyNonZero(d: seq<int>, from: nat) returns (yes: bool)
    ensures Tail(d, from) == if yes then 1 else 0
  {
    var i := from;
    while i < |d|
      invariant from <= i && Tail(d, i) == Tail(d, from)
    {
      if d[i] != 0 {
        return true;
      }
      i := i + 1;
    }
    return false;
  }

  /** The comparison of two datums; FALLBACK leaves them to the server. */
  method CompareDatums(a: Stored, b: Stored) returns (r: int)
    ensures r == -2 <==> Parse(a).None? || Parse(b).None?
    ensures r != FALLBACK ==> r == Compare(Parse(a).value, Parse(b).value)
    ensures r != FALLBACK && Canonical(Parse(a).value) && Canonical(Parse(b).value) ==>
              var x, y := Parse(a).value, Parse(b).value;
              r == SignOf(Value(x) - Value(y)) <==> !ZeroBelowOne(x, y) && !ZeroBelowOne(y, x)
  {
    var pa, pb := Parse(a), Parse(b);
    if pa.None? || pb.None? {
      return FALLBACK;
    }
    var x, y := pa.value, pb.value;
    r := CompareParsed(x, y);
    CompareIsSmall(x, y);
    if Canonical(x) && Canonical(y) {
      ComparesExactlyWhen(x, y);
    }
  }

  method CompareParsed(x: Numeric, y: Numeric) returns (r: int)
    ensures r == Compare(x, y)
  {
    if x.neg != y.neg {
      if |x.digits| == 0 && |y.digits| == 0 {
        return 0;
      }
      return if x.neg then -1 else 1;
    }
    if x.weight != y.weight {
      return Signed(x.neg, if x.weight > y.weight then 1 else -1);
    }
    r := CompareWords(x.digits, y.digits, x.neg);
  }

  lemma CompareIsSmall(x: Numeric, y: Numeric)
    ensures -1 <= Compare(x, y) <= 1
  {
    DigitsAreSmall(x.digits, y.digits, 0);
  }

  lemma {:induction false} DigitsAreSmall(d1: seq<int>, d2: seq<int>, i: nat)
    requires i <= |d1| && i <= |d2|
    ensures -1 <= CompareDigits(d1, d2, i) <= 1
    decreases |d1| - i
  {
    TailIsSmall(d1, i);
    TailIsSmall(d2, i);
    if i < |d1| && i < |d2| {
      DigitsAreSmall(d1, d2, i + 1);
    }
  }

  lemma {:induction false} TailIsSmall(d: seq<int>, i: nat)
    ensures 0 <= Tail(d, i) <= 1
    decreases |d| - i
  {
    if i < |d| {
      TailIsSmall(d, i + 1);
    }
  }

  /** 0 and 0.5: the comparison calls zero the larger. */
  lemma ZeroExample()
    ensures var zero, half := Numeric(false, 0, 0, []), Numeric(false, -1, 1, [5000]);
            Canonical(zero) && Canonical(half) && Value(zero) < Value(half) && Compare(zero, half) == 1
  {
    var zero, half := Numeric(false, 0, 0, []), Numeric(false, -1, 1, [5000]);
    ZeroIsZero(zero);
    ValueSign(half);
  }
}
