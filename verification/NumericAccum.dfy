/** Accumulators that add digits column by column and leave the carrying to the server. */
module NumericAccum {
  import opened Numerics

  /** The contents of an accumulator.  The value is the difference of the two digit rows. */
  datatype Accum = Accum(pos: seq<int>, neg: seq<int>, weight: int, dscale: int, uncarried: int)

  datatype Aggregate = Aggregate(n: int, sum: Accum, squares: Accum, withSquares: bool,
                                 maxScale: int, maxScaleCount: int)

  const INT32_MAX := 0x7fff_ffff
  /** What a digit position can hold before its carry is due. */
  const MAX_COLUMN := (NBASE - 1) * NBASE

  predicate Row(row: seq<int>, uncarried: int) {
    forall i | 0 <= i < |row| :: 0 <= row[i] <= (NBASE - 1) * (uncarried + 1)
  }

  /** Every position holds at most one proper digit more than additions were made since the
      last carry, so it stays far from the int32 limit. */
  predicate Good(a: Accum) {
    && |a.pos| == |a.neg|
    && 0 <= a.uncarried < NBASE
    && Row(a.pos, a.uncarried) && Row(a.neg, a.uncarried)
  }

  function AccumValue(a: Accum): real {
    Scale(Frac(a.pos, 0) - Frac(a.neg, 0), a.weight)
  }

  lemma ColumnsFit(a: Accum)
    requires Good(a)
    ensures forall i | 0 <= i < |a.pos| :: a.pos[i] <= MAX_COLUMN < INT32_MAX
    ensures forall i | 0 <= i < |a.neg| :: a.neg[i] <= MAX_COLUMN < INT32_MAX
  {
    var most := (NBASE - 1) * (a.uncarried + 1);
    assert most <= MAX_COLUMN;
  }

  // ---- Adding one row of digits ----

  /** The guard of the fast path: no carry is due, and all digits have a position. */
  predicate HasRoom(a: Accum, weight: int, count: nat) {
    && a.uncarried < NBASE - 1
    && |a.pos| > 0
    && weight <= a.weight
    && a.weight - weight + count <= |a.pos|
  }

  function AddAt(row: seq<int>, idx: nat, digits: seq<int>): (r: seq<int>)
    requires idx + |digits| <= |row|
    ensures |r| == |row|
  {
    seq(|row|, i requires 0 <= i < |row| =>
      if idx <= i < idx + |digits| then row[i] + digits[i - idx] else row[i])
  }

  function AddDigits(a: Accum, neg: bool, weight: int, digits: seq<int>): Accum
    requires |a.pos| == |a.neg| && HasRoom(a, weight, |digits|)
  {
    var idx := a.weight - weight;
    if neg then a.(neg := AddAt(a.neg, idx, digits), uncarried := a.uncarried + 1)
    else a.(pos := AddAt(a.pos, idx, digits), uncarried := a.uncarried + 1)
  }

  lemma RowStays(row: seq<int>, uncarried: nat)
    requires Row(row, uncarried)
    ensures Row(row, uncarried + 1)
  {
    assert (NBASE - 1) * (uncarried + 1) <= (NBASE - 1) * (uncarried + 2);
  }

  lemma AddKeepsGood(a: Accum, neg: bool, weight: int, digits: seq<int>)
    requires Good(a) && HasRoom(a, weight, |digits|) && ProperDigits(digits)
    ensures Good(AddDigits(a, neg, weight, digits))
  {
    var idx := a.weight - weight;
    if neg {
      RowStays(a.pos, a.uncarried);
    } else {
      RowStays(a.neg, a.uncarried);
    }
  }

  lemma {:induction false} AddedFrac(row: seq<int>, idx: nat, digits: seq<int>, i: nat)
    requires idx + |digits| <= |row| && idx <= i
    ensures Frac(AddAt(row, idx, digits), i) == Frac(row, i) + Frac(digits, i - idx)
    decreases |row| - i
  {
    if i < |row| {
      AddedFrac(row, idx, digits, i + 1);
    }
  }

  /** In front of position idx the added digits count for a smaller and smaller part. */
  lemma {:induction false} AddedInFront(row: seq<int>, idx: nat, digits: seq<int>, i: nat)
    requires idx + |digits| <= |row| && i <= idx
    ensures Frac(AddAt(row, idx, digits), i) == Frac(row, i) + Scale(Frac(digits, 0), i - idx)
    decreases idx - i
  {
    if i == idx {
      AddedFrac(row, idx, digits, i);
    } else {
      AddedInFront(row, idx, digits, i + 1);
    }
  }

  lemma {:induction false} ScaleCombines(x: real, k: nat, w: int)
    ensures Scale(Scale(x, 0 - k), w) == Scale(x, w - k)
    decreases k
  {
    if k > 0 {
      ScaleCombines(x, k - 1, w);
      var y := Scale(x, 1 - k);
      assert Scale(x, 0 - k) == y / 10000.0;
      ScaleOfQuotient(y, w);
    }
  }

  lemma {:induction false} ScaleOfQuotient(y: real, w: int)
    ensures Scale(y / 10000.0, w) == Scale(y, w) / 10000.0
    decreases if w < 0 then -w else w
  {
    if w > 0 {
      ScaleOfQuotient(y, w - 1);
    } else if w < 0 {
      ScaleOfQuotient(y, w + 1);
    }
  }

  /** Adding digits adds their value. */
  lemma AddAddsValue(a: Accum, neg: bool, weight: int, digits: seq<int>)
    requires |a.pos| == |a.neg| && HasRoom(a, weight, |digits|)
    ensures var value := Scale(Frac(digits, 0), weight);
            AccumValue(AddDigits(a, neg, weight, digits)) == AccumValue(a) + if neg then -value else value
  {
    var idx := a.weight - weight;
    AddedInFront(if neg then a.neg else a.pos, idx, digits, 0);
    var part := Scale(Frac(digits, 0), -idx);
    ScaleCombines(Frac(digits, 0), idx, a.weight);
    ScaleAdds(Frac(a.pos, 0) - Frac(a.neg, 0), if neg then -part else part, a.weight);
    ScaleAdds(part, 0.0, a.weight);
  }

  // ---- jit_numeric_agg_trans_fast ----

  function CountScale(s: Aggregate, dscale: int): Aggregate {
    if dscale > s.maxScale then s.(maxScale := dscale, maxScaleCount := 1)
    else if dscale == s.maxScale then s.(maxScaleCount := s.maxScaleCount + 1)
    else s
  }

  predicate TakesNumeric(s: Aggregate, x: Numeric) {
    x.digits == [] || HasRoom(s.sum, x.weight, |x.digits|)
  }

  function Max(a: int, b: int): int {
    if a < b then b else a
  }

  function AddNumeric(s: Aggregate, x: Numeric): Aggregate
    requires |s.sum.pos| == |s.sum.neg| && TakesNumeric(s, x)
  {
    var counted := CountScale(s.(n := s.n + 1), x.dscale);
    if x.digits == [] then counted
    else
      var sum := AddDigits(s.sum, x.neg, x.weight, x.digits);
      counted.(sum := sum.(dscale := Max(sum.dscale, x.dscale)))
  }

  // ---- jit_int_numeric_accum_fast ----

  const INT64_MIN := -0x8000_0000_0000_0000
  const INT64_MAX := 0x7fff_ffff_ffff_ffff

  function Abs(v: int): nat {
    if v < 0 then -v else v
  }

  /** The digits of u, most significant first. */
  function IntDigits(u: nat): (ds: seq<int>)
    ensures ProperDigits(ds)
    ensures u == 0 <==> ds == []
  {
    if u == 0 then [] else IntDigits(u / NBASE) + [u % NBASE]
  }

  function Pow(k: nat): (p: nat)
    ensures p > 0
  {
    if k == 0 then 1 else NBASE * Pow(k - 1)
  }

  lemma {:induction false} FewDigits(u: nat, k: nat)
    requires u < Pow(k)
    ensures |IntDigits(u)| <= k
    decreases k
  {
    if u > 0 {
      FewDigits(u / NBASE, k - 1);
    }
  }

  /** Five digits hold every int64, ten every square of one. */
  lemma BuffersSuffice(v: int)
    requires INT64_MIN <= v <= INT64_MAX
    ensures |IntDigits(Abs(v))| <= 5 && |IntDigits(v * v)| <= 10
  {
    assert Pow(1) == NBASE && Pow(2) == NBASE * Pow(1) && Pow(3) == NBASE * Pow(2) && Pow(4) == NBASE * Pow(3);
    assert Pow(5) == NBASE * Pow(4) == 1_0000_0000_0000_0000_0000;
    FewDigits(Abs(v), 5);
    assert Pow(10) == Pow(5) * Pow(5) by {
      assert Pow(6) == NBASE * Pow(5) && Pow(7) == NBASE * Pow(6) && Pow(8) == NBASE * Pow(7);
      assert Pow(9) == NBASE * Pow(8) && Pow(10) == NBASE * Pow(9);
    }
    SquareBound(v, 0x8000_0000_0000_0000);
    FewDigits(v * v, 10);
  }

  lemma SquareBound(v: int, m: int)
    requires -m <= v <= m
    ensures 0 <= v * v <= m * m
  {
    if v >= 0 {
      assert v * v <= v * m <= m * m;
    } else {
      assert v * v == (-v) * (-v) <= (-v) * m <= m * m;
    }
  }

  lemma {:induction false} AppendFrac(ds: seq<int>, d: int, i: nat)
    requires i <= |ds|
    ensures Frac(ds + [d], i) == Frac(ds, i) + Scale(d as real, i - |ds|)
    decreases |ds| - i
  {
    if i < |ds| {
      AppendFrac(ds, d, i + 1);
    }
  }

  /** The digits of u are worth u. */
  lemma {:induction false} IntDigitsValue(u: nat)
    requires u > 0
    ensures Scale(Frac(IntDigits(u), 0), |IntDigits(u)| - 1) == u as real
  {
    var q, d := u / NBASE, u % NBASE;
    if q == 0 {
      assert IntDigits(u) == [d];
    } else {
      var ds := IntDigits(q);
      IntDigitsValue(q);
      AppendFrac(ds, d, 0);
      ScaleAdds(Frac(ds, 0), Scale(d as real, -|ds|), |ds|);
      ScaleCombines(d as real, |ds|, |ds|);
      assert u == q * NBASE + d;
    }
  }

  predicate TakesBoth(s: Aggregate, digits: seq<int>, squareDigits: seq<int>) {
    && HasRoom(s.sum, |digits| - 1, |digits|)
    && (s.withSquares ==> HasRoom(s.squares, |squareDigits| - 1, |squareDigits|))
  }

  predicate TakesInt(s: Aggregate, v: int) {
    v == 0 || TakesBoth(s, IntDigits(Abs(v)), IntDigits(v * v))
  }

  function AddBoth(s: Aggregate, neg: bool, digits: seq<int>, squareDigits: seq<int>): Aggregate
    requires |s.sum.pos| == |s.sum.neg| && |s.squares.pos| == |s.squares.neg| && TakesBoth(s, digits, squareDigits)
  {
    var sum := AddDigits(s.sum, neg, |digits| - 1, digits);
    var squares := if s.withSquares then AddDigits(s.squares, false, |squareDigits| - 1, squareDigits) else s.squares;
    CountScale(s.(n := s.n + 1, sum := sum, squares := squares), 0)
  }

  function AddInt(s: Aggregate, v: int): Aggregate
    requires |s.sum.pos| == |s.sum.neg| && |s.squares.pos| == |s.squares.neg| && TakesInt(s, v)
  {
    if v == 0 then s.(n := s.n + 1, maxScaleCount := if s.maxScale == 0 then s.maxScaleCount + 1 else s.maxScaleCount)
    else AddBoth(s, v < 0, IntDigits(Abs(v)), IntDigits(v * v))
  }

  /** The integer path adds v to the sum and v * v to the sum of squares. */
  lemma AddIntAdds(s: Aggregate, v: int)
    requires Good(s.sum) && Good(s.squares) && TakesInt(s, v)
    ensures var s' := AddInt(s, v);
            && Good(s'.sum) && Good(s'.squares)
            && AccumValue(s'.sum) == AccumValue(s.sum) + v as real
            && AccumValue(s'.squares) == AccumValue(s.squares) + if s.withSquares then (v * v) as real else 0.0
  {
    if v != 0 {
      var digits, squareDigits := IntDigits(Abs(v)), IntDigits(v * v);
      IntDigitsValue(Abs(v));
      AddKeepsGood(s.sum, v < 0, |digits| - 1, digits);
      AddAddsValue(s.sum, v < 0, |digits| - 1, digits);
      if s.withSquares {
        SquareBound(v, Abs(v));
        NoZeroSquare(v);
        IntDigitsValue(v * v);
        AddKeepsGood(s.squares, false, |squareDigits| - 1, squareDigits);
        AddAddsValue(s.squares, false, |squareDigits| - 1, squareDigits);
      }
    }
  }

  lemma NoZeroSquare(v: int)
    requires v != 0
    ensures v * v > 0
  {
  }

  /** The numeric path adds the value of its input. */
  lemma AddNumericAdds(s: Aggregate, x: Numeric)
    requires Good(s.sum) && ProperDigits(x.digits) && TakesNumeric(s, x)
    ensures var s' := AddNumeric(s, x);
            Good(s'.sum) && AccumValue(s'.sum) == AccumValue(s.sum) + Value(x)
  {
    if x.digits == [] {
      ScaleAdds(0.0, 0.0, x.weight);
    } else {
      AddKeepsGood(s.sum, x.neg, x.weight, x.digits);
      AddAddsValue(s.sum, x.neg, x.weight, x.digits);
    }
  }

  // ---- Whole runs ----

  /** What happens to an aggregate: an input taken by a fast path, an input left to the server
      (which leaves the state `after`), or a carry of either accumulator by the server. */
  datatype Event =
    | FastNumeric(x: Numeric)
    | FastInt(v: int)
    | SlowNumeric(x: Numeric, after: Aggregate)
    | SlowInt(v: int, after: Aggregate)
    | Carry(after: Aggregate)

  function InputValue(e: Event): real {
    match e
    case FastNumeric(x) => Value(x)
    case SlowNumeric(x, _) => Value(x)
    case FastInt(v) => v as real
    case SlowInt(v, _) => v as real
    case Carry(_) => 0.0
  }

  function InputSquare(e: Event): real {
    match e
    case FastInt(v) => (v * v) as real
    case SlowInt(v, _) => (v * v) as real
    case _ => 0.0
  }

  predicate IsInput(e: Event) {
    !e.Carry?
  }

  function InputScale(e: Event): int
    requires IsInput(e)
  {
    match e
    case FastNumeric(x) => x.dscale
    case SlowNumeric(x, _) => x.dscale
    case _ => 0
  }

  /** A carried row has proper digits. */
  predicate Carried(a: Accum) {
    |a.pos| == |a.neg| && a.uncarried == 0 && ProperDigits(a.pos) && ProperDigits(a.neg)
  }

  /** What the server promises of an input it takes itself. */
  predicate ServerAdds(s: Aggregate, after: Aggregate, value: real, square: real, dscale: int) {
    && Good(after.sum) && Good(after.squares)
    && after.withSquares == s.withSquares
    && AccumValue(after.sum) == AccumValue(s.sum) + value
    && AccumValue(after.squares) == AccumValue(s.squares) + (if s.withSquares then square else 0.0)
    && after.n == s.n + 1
    && after.maxScale == CountScale(s, dscale).maxScale && after.maxScaleCount == CountScale(s, dscale).maxScaleCount
    && after.sum.dscale == Max(s.sum.dscale, dscale)
  }

  /** What the server promises of a carry: the value stays, the digits are proper again. */
  predicate ServerCarries(before: Accum, after: Accum) {
    (after == before || Carried(after)) && AccumValue(after) == AccumValue(before) && after.dscale == before.dscale
  }

  /** One event; numerics go only to aggregates that keep no squares (SUM and AVG). */
  predicate Step(s: Aggregate, e: Event, s': Aggregate) {
    && |s.sum.pos| == |s.sum.neg| && |s.squares.pos| == |s.squares.neg|
    && match e
    case FastNumeric(x) =>
      !s.withSquares && ProperDigits(x.digits) && TakesNumeric(s, x) && s' == AddNumeric(s, x)
    case FastInt(v) => INT64_MIN <= v <= INT64_MAX && TakesInt(s, v) && s' == AddInt(s, v)
    case SlowNumeric(x, after) =>
      !s.withSquares && s' == after && ServerAdds(s, after, Value(x), 0.0, x.dscale)
    case SlowInt(v, after) => s' == after && ServerAdds(s, after, v as real, (v * v) as real, 0)
    case Carry(after) =>
      && s' == after
      && ServerCarries(s.sum, after.sum) && ServerCarries(s.squares, after.squares)
      && s' == s.(sum := after.sum, squares := after.squares)
  }

  const EMPTY := Accum([], [], 0, 0, 0)

  function Start(withSquares: bool): Aggregate {
    Aggregate(0, EMPTY, EMPTY, withSquares, 0, 0)
  }

  ghost predicate Run(events: seq<Event>, states: seq<Aggregate>, withSquares: bool) {
    && |states| == |events| + 1
    && states[0] == Start(withSquares)
    && forall i | 0 <= i < |events| :: Step(states[i], events[i], states[i + 1])
  }

  function Total(events: seq<Event>, k: nat): real
    requires k <= |events|
  {
    if k == 0 then 0.0 else Total(events, k - 1) + InputValue(events[k - 1])
  }

  function TotalSquares(events: seq<Event>, k: nat): real
    requires k <= |events|
  {
    if k == 0 then 0.0 else TotalSquares(events, k - 1) + InputSquare(events[k - 1])
  }

  function Inputs(events: seq<Event>, k: nat): nat
    requires k <= |events|
  {
    if k == 0 then 0 else Inputs(events, k - 1) + if IsInput(events[k - 1]) then 1 else 0
  }

  /** The largest scale of an input, 0 without any. */
  function LargestScale(events: seq<Event>, k: nat): int
    requires k <= |events|
  {
    if k == 0 then 0
    else if IsInput(events[k - 1]) then Max(LargestScale(events, k - 1), InputScale(events[k - 1]))
    else LargestScale(events, k - 1)
  }

  function WithScale(events: seq<Event>, k: nat, scale: int): nat
    requires k <= |events|
  {
    if k == 0 then 0
    else WithScale(events, k - 1, scale) + if IsInput(events[k - 1]) && InputScale(events[k - 1]) == scale then 1 else 0
  }

  /** Each event keeps the accumulators good; with Start this gives every state of a run. */
  lemma StepKeepsGood(s: Aggregate, e: Event, s': Aggregate)
    requires Good(s.sum) && Good(s.squares) && Step(s, e, s')
    ensures Good(s'.sum) && Good(s'.squares)
  {
    match e
    case FastNumeric(x) => AddNumericAdds(s, x);
    case FastInt(v) => AddIntAdds(s, v);
    case SlowNumeric(_, _) =>
    case SlowInt(_, _) =>
    case Carry(after) =>
  }

  predicate ColumnsBelow(a: Accum, most: int) {
    && (forall i | 0 <= i < |a.pos| :: a.pos[i] < most)
    && (forall i | 0 <= i < |a.neg| :: a.neg[i] < most)
  }

  lemma {:induction false} RunKeepsGood(events: seq<Event>, states: seq<Aggregate>, withSquares: bool, k: nat)
    requires Run(events, states, withSquares) && k <= |events|
    ensures Good(states[k].sum) && Good(states[k].squares)
    ensures ColumnsBelow(states[k].sum, INT32_MAX) && ColumnsBelow(states[k].squares, INT32_MAX)
  {
    if k > 0 {
      RunKeepsGood(events, states, withSquares, k - 1);
      StepKeepsGood(states[k - 1], events[k - 1], states[k]);
    }
    ColumnsFit(states[k].sum);
    ColumnsFit(states[k].squares);
  }

  lemma StepAddsValue(s: Aggregate, e: Event, s': Aggregate)
    requires Good(s.sum) && Good(s.squares) && Step(s, e, s')
    ensures AccumValue(s'.sum) == AccumValue(s.sum) + InputValue(e)
    ensures AccumValue(s'.squares) == AccumValue(s.squares) + if s.withSquares then InputSquare(e) else 0.0
    ensures s'.withSquares == s.withSquares
    ensures s'.n == s.n + if IsInput(e) then 1 else 0
  {
    match e
    case FastNumeric(x) => AddNumericAdds(s, x);
    case FastInt(v) => AddIntAdds(s, v);
    case SlowNumeric(_, _) =>
    case SlowInt(_, _) =>
    case Carry(_) =>
  }

  /** Conservation: after any run the sum is the exact sum of the inputs, the squares the exact
      sum of their squares, and every input is counted. */
  lemma RunAddsValue(events: seq<Event>, states: seq<Aggregate>, withSquares: bool, k: nat)
    requires Run(events, states, withSquares) && k < |events|
    ensures AccumValue(states[k + 1].sum) == AccumValue(states[k].sum) + InputValue(events[k])
    ensures AccumValue(states[k + 1].squares) ==
            AccumValue(states[k].squares) + if states[k].withSquares then InputSquare(events[k]) else 0.0
    ensures states[k + 1].withSquares == states[k].withSquares
    ensures states[k + 1].n == states[k].n + if IsInput(events[k]) then 1 else 0
  {
    RunKeepsGood(events, states, withSquares, k);
    StepAddsValue(states[k], events[k], states[k + 1]);
  }

  lemma {:induction false} RunConserves(events: seq<Event>, states: seq<Aggregate>, withSquares: bool, k: nat)
    requires Run(events, states, withSquares) && k <= |events|
    ensures states[k].withSquares == withSquares
    ensures AccumValue(states[k].sum) == Total(events, k)
    ensures withSquares ==> AccumValue(states[k].squares) == TotalSquares(events, k)
    ensures states[k].n == Inputs(events, k)
  {
    if k == 0 {
      ScaleAdds(0.0, 0.0, 0);
    } else {
      RunConserves(events, states, withSquares, k - 1);
      RunAddsValue(events, states, withSquares, k - 1);
    }
  }

  lemma StepTracksScale(s: Aggregate, e: Event, s': Aggregate)
    requires Step(s, e, s') && s.maxScale >= 0
    ensures !IsInput(e) || InputScale(e) < s.maxScale ==>
              s'.maxScale == s.maxScale && s'.maxScaleCount == s.maxScaleCount
    ensures IsInput(e) && InputScale(e) == s.maxScale ==>
              s'.maxScale == s.maxScale && s'.maxScaleCount == s.maxScaleCount + 1
    ensures IsInput(e) && InputScale(e) > s.maxScale ==> s'.maxScale == InputScale(e) && s'.maxScaleCount == 1
  {
  }

  lemma {:induction false} NothingAbove(events: seq<Event>, k: nat, scale: int)
    requires k <= |events| && scale > LargestScale(events, k)
    ensures WithScale(events, k, scale) == 0
  {
    if k > 0 {
      NothingAbove(events, k - 1, scale);
    }
  }

  lemma {:induction false} LargestIsNatural(events: seq<Event>, k: nat)
    requires k <= |events|
    ensures LargestScale(events, k) >= 0
  {
    if k > 0 {
      LargestIsNatural(events, k - 1);
    }
  }

  /** The largest scale and how many inputs have it are exact after any run. */
  lemma {:induction false} RunTracksScale(events: seq<Event>, states: seq<Aggregate>, withSquares: bool, k: nat)
    requires Run(events, states, withSquares) && k <= |events|
    ensures states[k].maxScale == LargestScale(events, k)
    ensures states[k].maxScaleCount == WithScale(events, k, LargestScale(events, k))
  {
    if k > 0 {
      RunTracksScale(events, states, withSquares, k - 1);
      LargestIsNatural(events, k - 1);
      StepTracksScale(states[k - 1], events[k - 1], states[k]);
      if IsInput(events[k - 1]) && InputScale(events[k - 1]) > LargestScale(events, k - 1) {
        NothingAbove(events, k - 1, InputScale(events[k - 1]));
      }
    }
  }

  /** The display scale of the sum is raised by every input except a zero on the fast path.  An
      event keeps it equal to the largest scale exactly when it is not such a zero with a new
      largest scale. */
  lemma DisplayScaleExactlyWhen(s: Aggregate, e: Event, s': Aggregate)
    requires Good(s.sum) && Good(s.squares) && Step(s, e, s')
    requires s.maxScale == s.sum.dscale >= 0
    ensures s'.sum.dscale == s'.maxScale <==>
            !(e.FastNumeric? && e.x.digits == [] && e.x.dscale > s.sum.dscale)
  {
  }

  /** The largest scale among the inputs that raise the display scale. */
  function ShownScale(events: seq<Event>, k: nat): int
    requires k <= |events|
  {
    if k == 0 then 0
    else
      var e := events[k - 1];
      if !IsInput(e) || (e.FastNumeric? && e.x.digits == []) then ShownScale(events, k - 1)
      else Max(ShownScale(events, k - 1), InputScale(e))
  }

  /** After any run the display scale is the largest scale among all inputs but the zeros taken
      by the fast path. */
  lemma {:induction false} RunShowsScale(events: seq<Event>, states: seq<Aggregate>, withSquares: bool, k: nat)
    requires Run(events, states, withSquares) && k <= |events|
    ensures states[k].sum.dscale == ShownScale(events, k) >= 0
  {
    if k > 0 {
      RunShowsScale(events, states, withSquares, k - 1);
      StepShowsScale(states[k - 1], events[k - 1], states[k]);
    }
  }

  lemma StepShowsScale(s: Aggregate, e: Event, s': Aggregate)
    requires Step(s, e, s') && s.sum.dscale >= 0
    ensures s'.sum.dscale ==
            if !IsInput(e) || (e.FastNumeric? && e.x.digits == []) then s.sum.dscale
            else Max(s.sum.dscale, InputScale(e))
  {
  }
}
