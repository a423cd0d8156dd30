/** The fast transition functions on the aggregate state the server keeps. */
module NumericState {
  import opened Numerics
  import opened NumericAccum
  import opened Wrappers

  class SumAccum {
    var posDigits: array<int>
    var negDigits: array<int>
    var weight: int
    var dscale: int
    var uncarried: int

    constructor ()
      ensures Valid() && State() == EMPTY
      ensures fresh(posDigits) && fresh(negDigits)
    {
      posDigits, negDigits := new int[0], new int[0];
      weight, dscale, uncarried := 0, 0, 0;
    }

    ghost predicate Valid()
      reads this, posDigits, negDigits
    {
      posDigits != negDigits && Good(State())
    }

    ghost function State(): Accum
      reads this, posDigits, negDigits
    {
      Accum(posDigits[..], negDigits[..], weight, dscale, uncarried)
    }

    predicate Takes(w: int, count: nat)
      reads this, posDigits, negDigits
      ensures Takes(w, count) == HasRoom(State(), w, count)
    {
      uncarried < NBASE - 1 && posDigits.Length > 0 && w <= weight && weight - w + count <= posDigits.Length
    }

    /** Add digits column by column; no column leaves the int32 range. */
    method Add(neg: bool, w: int, digits: seq<int>)
      requires Valid() && Takes(w, |digits|) && ProperDigits(digits)
      modifies this`uncarried, posDigits, negDigits
      ensures Valid()
      ensures State() == AddDigits(old(State()), neg, w, digits)
    {
      ghost var before := State();
      ColumnsFit(before);
      AddKeepsGood(before, neg, w, digits);
      var row := if neg then negDigits else posDigits;
      AddRow(row, weight - w, digits);
      uncarried := uncarried + 1;
      assert row[..] == AddAt(if neg then before.neg else before.pos, weight - w, digits);
    }
  }

  method AddRow(row: array<int>, idx: nat, digits: seq<int>)
    requires idx + |digits| <= row.Length && ProperDigits(digits)
    requires forall i | 0 <= i < row.Length :: 0 <= row[i] <= MAX_COLUMN
    modifies row
    ensures row[..] == AddAt(old(row[..]), idx, digits)
  {
    ghost var was := row[..];
    var i := 0;
    while i < |digits|
      invariant 0 <= i <= |digits|
      invariant forall k | 0 <= k < row.Length ::
                  row[k] == if idx <= k < idx + i then was[k] + digits[k - idx] else was[k]
    {
      assert 0 <= row[idx + i] + digits[i] <= INT32_MAX;
      row[idx + i] := row[idx + i] + digits[i];
      i := i + 1;
    }
  }

  // ---- From an integer to its digits ----

  /** Least significant digit first. */
  function Backwards(s: seq<int>): (r: seq<int>)
    ensures |r| == |s|
    ensures forall i | 0 <= i < |s| :: r[i] == s[|s| - 1 - i]
  {
    seq(|s|, i requires 0 <= i < |s| => s[|s| - 1 - i])
  }

  lemma PeelDigit(rest: nat, done: seq<int>)
    requires rest > 0
    ensures IntDigits(rest) + Backwards(done) == IntDigits(rest / NBASE) + Backwards(done + [rest % NBASE])
  {
    assert Backwards(done + [rest % NBASE]) == [rest % NBASE] + Backwards(done);
  }

  /** Divide off the digits into a buffer, then turn them round in place. */
  method ToDigits(u: nat, buffer: array<int>) returns (n: nat)
    requires |IntDigits(u)| <= buffer.Length
    modifies buffer
    ensures n <= buffer.Length && buffer[..n] == IntDigits(u)
  {
    n := Divide(u, buffer);
    ghost var digits := buffer[..n];
    Turn(buffer, n);
    assert buffer[..n] == Backwards(digits);
    assert Backwards(Backwards(IntDigits(u))) == IntDigits(u);
  }

  method Divide(u: nat, buffer: array<int>) returns (n: nat)
    requires |IntDigits(u)| <= buffer.Length
    modifies buffer
    ensures n <= buffer.Length && buffer[..n] == Backwards(IntDigits(u))
  {
    n := 0;
    var rest: nat := u;
    while rest > 0
      invariant 0 <= n && n + |IntDigits(rest)| == |IntDigits(u)|
      invariant IntDigits(u) == IntDigits(rest) + Backwards(buffer[..n])
    {
      PeelDigit(rest, buffer[..n]);
      ghost var done := buffer[..n];
      buffer[n] := rest % NBASE;
      assert buffer[..n + 1] == done + [rest % NBASE];
      rest := rest / NBASE;
      n := n + 1;
    }
    assert IntDigits(u) == Backwards(buffer[..n]);
    assert Backwards(Backwards(buffer[..n])) == buffer[..n];
  }

  method Turn(buffer: array<int>, n: nat)
    requires n <= buffer.Length
    modifies buffer
    ensures forall k | 0 <= k < n :: buffer[k] == old(buffer[n - 1 - k])
  {
    var i := 0;
    while i < n / 2
      invariant 0 <= i <= n / 2
      invariant forall k | 0 <= k < i :: buffer[k] == old(buffer[n - 1 - k]) && buffer[n - 1 - k] == old(buffer[k])
      invariant forall k | i <= k < n - i :: buffer[k] == old(buffer[k])
    {
      buffer[i], buffer[n - 1 - i] := buffer[n - 1 - i], buffer[i];
      i := i + 1;
    }
  }

  // ---- The aggregate ----

  class AggState {
    const withSquares: bool
    const sum: SumAccum
    const squares: SumAccum
    var n: int
    var maxScale: int
    var maxScaleCount: int

    constructor (withSquares: bool)
      ensures Valid() && State() == Start(withSquares)
    {
      this.withSquares := withSquares;
      sum := new SumAccum();
      squares := new SumAccum();
      n, maxScale, maxScaleCount := 0, 0, 0;
    }

    ghost predicate Valid()
      reads this, sum, sum.posDigits, sum.negDigits, squares, squares.posDigits, squares.negDigits
    {
      && sum.Valid() && squares.Valid()
      && sum != squares
      && {sum.posDigits, sum.negDigits} !! {squares.posDigits, squares.negDigits}
    }

    ghost function State(): Aggregate
      reads this, sum, sum.posDigits, sum.negDigits, squares, squares.posDigits, squares.negDigits
    {
      Aggregate(n, sum.State(), squares.State(), withSquares, maxScale, maxScaleCount)
    }

    method CountScale(dscale: int)
      modifies this
      ensures n == old(n)
      ensures var s := NumericAccum.CountScale(old(State()), dscale);
              maxScale == s.maxScale && maxScaleCount == s.maxScaleCount
    {
      if dscale > maxScale {
        maxScale, maxScaleCount := dscale, 1;
      } else if dscale == maxScale {
        maxScaleCount := maxScaleCount + 1;
      }
    }

    /** jit_numeric_agg_trans_fast: add the input, or leave the state untouched. */
    method AddNumericFast(datum: Stored) returns (taken: bool)
      requires Valid() && (Parse(datum).Some? ==> ProperDigits(Parse(datum).value.digits))
      modifies this, sum, sum.posDigits, sum.negDigits
      ensures Valid()
      ensures taken <==> Parse(datum).Some? && TakesNumeric(old(State()), Parse(datum).value)
      ensures State() == if taken then AddNumeric(old(State()), Parse(datum).value) else old(State())
    {
      var parsed := Parse(datum);
      if parsed.None? {
        return false;
      }
      var x := parsed.value;
      if |x.digits| == 0 {
        n := n + 1;
        CountScale(x.dscale);
        return true;
      }
      if !sum.Takes(x.weight, |x.digits|) {
        return false;
      }
      sum.Add(x.neg, x.weight, x.digits);
      if x.dscale > sum.dscale {
        sum.dscale := x.dscale;
      }
      n := n + 1;
      CountScale(x.dscale);
      return true;
    }

    /** jit_int_numeric_accum_fast: add v and its square to both accumulators, or to neither. */
    method AddIntFast(v: int) returns (taken: bool)
      requires Valid() && INT64_MIN <= v <= INT64_MAX
      modifies this, sum, sum.posDigits, sum.negDigits, squares, squares.posDigits, squares.negDigits
      ensures Valid()
      ensures taken <==> TakesInt(old(State()), v)
      ensures State() == if taken then AddInt(old(State()), v) else old(State())
    {
      if v == 0 {
        CountZero();
        return true;
      }
      var digits, squareDigits := IntAndSquare(v, withSquares);
      taken := AddBothFast(v < 0, digits, squareDigits);
    }

    method CountZero()
      modifies this
      ensures n == old(n) + 1 && maxScale == old(maxScale)
      ensures maxScaleCount == old(maxScaleCount) + if maxScale == 0 then 1 else 0
    {
      n := n + 1;
      if maxScale == 0 {
        maxScaleCount := maxScaleCount + 1;
      }
    }

    method AddBothFast(neg: bool, digits: seq<int>, squareDigits: seq<int>) returns (taken: bool)
      requires Valid() && ProperDigits(digits) && ProperDigits(squareDigits)
      modifies this, sum, sum.posDigits, sum.negDigits, squares, squares.posDigits, squares.negDigits
      ensures Valid()
      ensures taken <==> TakesBoth(old(State()), digits, squareDigits)
      ensures State() == if taken then NumericAccum.AddBoth(old(State()), neg, digits, squareDigits) else old(State())
    {
      if !sum.Takes(|digits| - 1, |digits|) || (withSquares && !squares.Takes(|squareDigits| - 1, |squareDigits|)) {
        return false;
      }
      AddBoth(neg, digits, squareDigits);
      n := n + 1;
      CountScale(0);
      return true;
    }

    method AddBoth(neg: bool, digits: seq<int>, squareDigits: seq<int>)
      requires Valid() && ProperDigits(digits) && ProperDigits(squareDigits)
      requires sum.Takes(|digits| - 1, |digits|)
      requires withSquares ==> squares.Takes(|squareDigits| - 1, |squareDigits|)
      modifies sum`uncarried, sum.posDigits, sum.negDigits, squares`uncarried, squares.posDigits, squares.negDigits
      ensures Valid()
      ensures sum.State() == AddDigits(old(sum.State()), neg, |digits| - 1, digits)
      ensures squares.State() ==
              if withSquares then AddDigits(old(squares.State()), false, |squareDigits| - 1, squareDigits)
              else old(squares.State())
    {
      sum.Add(neg, |digits| - 1, digits);
      if withSquares {
        squares.Add(false, |squareDigits| - 1, squareDigits);
      }
    }
  }

  /** The digits of |v| in a buffer of five, and of v * v where squares are kept; -(v + 1)
      stays inside 64 bits even for the smallest v. */
  method IntAndSquare(v: int, withSquares: bool) returns (digits: seq<int>, squareDigits: seq<int>)
    requires INT64_MIN <= v <= INT64_MAX && v != 0
    ensures digits == IntDigits(Abs(v))
    ensures squareDigits == if withSquares then IntDigits(v * v) else []
  {
    BuffersSuffice(v);
    assert v < 0 ==> -(v + 1) <= INT64_MAX;
    var magnitude := if v < 0 then -(v + 1) + 1 else v;
    var buffer := new int[5];
    var count := ToDigits(magnitude, buffer);
    digits, squareDigits := buffer[..count], [];
    if withSquares {
      SquareBound(v, 0x8000_0000_0000_0000);
      squareDigits := WideDigits(v * v);
    }
  }

  const INT128_MAX := 0x7fff_ffff_ffff_ffff_ffff_ffff_ffff_ffff

  /** The digits of a square in a buffer of ten; the square stays inside a signed 128-bit word. */
  method WideDigits(wide: nat) returns (digits: seq<int>)
    requires wide <= INT128_MAX && |IntDigits(wide)| <= 10
    ensures digits == IntDigits(wide)
  {
    var buffer := new int[10];
    var count := ToDigits(wide, buffer);
    digits := buffer[..count];
  }
}
