/** When a CASE over integers or floats may be searched: the detector reads every threshold from
    the second argument of the comparison, whichever argument the load writes. */
module CaseOperands {
  import opened CaseOrder
  import opened CaseSteps
  import opened CaseRangeSearch

  // ---- The ranks for which a comparison holds ----

  /** Ranks from lo up to, but not including, up. */
  datatype Interval = Interval(lo: int, up: int)

  predicate In(x: int, s: Interval) {
    s.lo <= x < s.up
  }

  lemma HoldsByRank(w: World, fn: Fn, coll: nat, v: Datum, t: Datum)
    requires fn.repr != Generic
    ensures Holds(fn.kind, OrderOf(w, fn, coll), v, t) <==> RankHolds(fn.kind, Rank(w, fn.repr, v), Rank(w, fn.repr, t))
  {
  }

  /** The values that stand in the relation to t. */
  function LoadFirst(kind: CmpKind, t: int, bottom: int, top: int): Interval {
    match kind
    case EQ => Interval(t, t + 1)
    case LT => Interval(bottom, t)
    case LE => Interval(bottom, t + 1)
    case GT => Interval(t + 1, top)
    case GE => Interval(t, top)
  }

  /** The values to which t stands in the relation. */
  function LoadSecond(kind: CmpKind, t: int, bottom: int, top: int): Interval {
    match kind
    case EQ => Interval(t, t + 1)
    case LT => Interval(t + 1, top)
    case LE => Interval(t, top)
    case GT => Interval(bottom, t)
    case GE => Interval(bottom, t + 1)
  }

  /** The values to which anything stands in the relation. */
  function LoadAny(kind: CmpKind, bottom: int, top: int): Interval {
    match kind
    case LT => Interval(bottom + 1, top)
    case GT => Interval(bottom, top - 1)
    case _ => Interval(bottom, top)
  }

  lemma IntervalsAre(kind: CmpKind, x: int, t: int, bottom: int, top: int)
    requires bottom <= x < top && bottom <= t < top
    ensures In(x, LoadFirst(kind, t, bottom, top)) <==> RankHolds(kind, x, t)
    ensures In(x, LoadSecond(kind, t, bottom, top)) <==> RankHolds(kind, t, x)
    ensures RankHolds(kind, t, x) ==> In(x, LoadAny(kind, bottom, top))
  {
  }

  /** A rank that stands in the relation to x. */
  function RankBeside(kind: CmpKind, x: int): int {
    match kind
    case LT => x - 1
    case GT => x + 1
    case _ => x
  }

  // ---- The ranks for which the arguments of a comparison let it hold ----

  /** Where the load is compared with another cell: for some value of that cell (`most`), or for
      all values of it, null among them. */
  function ArgsInterval(w: World, fn: Fn, arg0: Operand, arg1: Operand, load: Cell, most: bool): Interval {
    var bottom, top := Bottom(fn.repr), Top(w, fn.repr);
    if arg0 == At(load) then
      if arg1.At? || arg1.constant.isnull then Interval(bottom, bottom)
      else LoadFirst(fn.kind, Rank(w, fn.repr, arg1.constant.value), bottom, top)
    else if arg0.Fixed? then
      if arg0.constant.isnull then Interval(bottom, bottom)
      else LoadSecond(fn.kind, Rank(w, fn.repr, arg0.constant.value), bottom, top)
    else if most then LoadAny(fn.kind, bottom, top)
    else Interval(bottom, bottom)
  }

  /** The load is compared with another cell. */
  predicate ArgsOther(arg0: Operand, load: Cell) {
    arg0.At? && arg0 != At(load)
  }

  /** Where no other cell is compared, the comparison holds for the ranks of its interval. */
  lemma ArgsIntervalIs(w: World, fn: Fn, coll: nat, arg0: Operand, arg1: Operand, load: Cell, v: Nullable, y: Nullable,
                       most: bool)
    requires ValidWorld(w) && fn.repr != Generic && TakesLoad(arg0, arg1, load, true) && !v.isnull
    requires !ArgsOther(arg0, load)
    ensures ArgsHold(w, fn, coll, arg0, arg1, load, v, y) <==>
            In(Rank(w, fn.repr, v.value), ArgsInterval(w, fn, arg0, arg1, load, most))
  {
    var t := if arg0 == At(load) then arg1.constant.value else arg0.constant.value;
    RankInWord(w, fn.repr, v.value);
    RankInWord(w, fn.repr, t);
    HoldsByRank(w, fn, coll, v.value, t);
    HoldsByRank(w, fn, coll, t, v.value);
    IntervalsAre(fn.kind, Rank(w, fn.repr, v.value), Rank(w, fn.repr, t), Bottom(fn.repr), Top(w, fn.repr));
  }

  /** Where another cell is compared, the comparison holds only inside the larger interval. */
  lemma ArgsOtherIn(w: World, fn: Fn, coll: nat, arg0: Operand, arg1: Operand, load: Cell, v: Nullable, y: Nullable)
    requires ValidWorld(w) && fn.repr != Generic && TakesLoad(arg0, arg1, load, true) && !v.isnull
    requires ArgsOther(arg0, load) && ArgsHold(w, fn, coll, arg0, arg1, load, v, y)
    ensures In(Rank(w, fn.repr, v.value), ArgsInterval(w, fn, arg0, arg1, load, true))
  {
    RankInWord(w, fn.repr, v.value);
    RankInWord(w, fn.repr, y.value);
    HoldsByRank(w, fn, coll, y.value, v.value);
    IntervalsAre(fn.kind, Rank(w, fn.repr, v.value), Rank(w, fn.repr, y.value), Bottom(fn.repr), Top(w, fn.repr));
  }

  /** And there it holds for some value of the cell. */
  lemma ArgsOtherHold(w: World, fn: Fn, coll: nat, arg0: Operand, arg1: Operand, load: Cell, v: Nullable)
      returns (y: Nullable)
    requires ValidWorld(w) && fn.repr != Generic && TakesLoad(arg0, arg1, load, true) && !v.isnull
    requires ArgsOther(arg0, load) && In(Rank(w, fn.repr, v.value), ArgsInterval(w, fn, arg0, arg1, load, true))
    ensures ArgsHold(w, fn, coll, arg0, arg1, load, v, y)
  {
    var x := RankBeside(fn.kind, Rank(w, fn.repr, v.value));
    RankInWord(w, fn.repr, v.value);
    RankOfRanked(w, fn.repr, x);
    y := Nullable(Ranked(w, fn.repr, x), false);
    HoldsByRank(w, fn, coll, y.value, v.value);
  }

  // ---- The branches of a chain as ranges ----

  /** The ranks for which branch k really applies. */
  function RealInterval(w: World, steps: seq<Step>, i: nat, k: nat, most: bool): Interval
    requires BranchAt(steps, i) && BranchOf(steps, i, k)
  {
    var b := i + STRIDE * k;
    ArgsInterval(w, steps[i + 1].fn, steps[b + 1].arg0, steps[b + 1].arg1, steps[b].dst, most)
  }

  /** The ranks for which the search takes branch k to apply. */
  function ReadInterval(w: World, steps: seq<Step>, i: nat, k: nat): Interval
    requires BranchAt(steps, i) && BranchOf(steps, i, k)
  {
    var fn := steps[i + 1].fn;
    LoadFirst(fn.kind, Rank(w, fn.repr, Threshold(steps, i, k)), Bottom(fn.repr), Top(w, fn.repr))
  }

  predicate FullChain(steps: seq<Step>, i: nat, n: nat) {
    Chain(steps, i, n) && i + STRIDE * n < |steps| && steps[i + STRIDE * n].Const?
  }

  function RealRanges(w: World, steps: seq<Step>, i: nat, n: nat, most: bool): (r: Ranges)
    requires FullChain(steps, i, n)
    ensures ValidRanges(r) && |r.uppers| == n
  {
    Ranges(seq(n, k requires 0 <= k < n => RealInterval(w, steps, i, k, most).lo),
           seq(n, k requires 0 <= k < n => RealInterval(w, steps, i, k, most).up),
           ChainResults(steps, i, n), seq(n, k => true), steps[i + STRIDE * n].value.value)
  }

  function ReadLows(w: World, steps: seq<Step>, i: nat, n: nat): (s: seq<int>)
    requires FullChain(steps, i, n)
    ensures |s| == n
  {
    seq(n, k requires 0 <= k < n => ReadInterval(w, steps, i, k).lo)
  }

  function ReadUppers(w: World, steps: seq<Step>, i: nat, n: nat): (s: seq<int>)
    requires FullChain(steps, i, n)
    ensures |s| == n
  {
    seq(n, k requires 0 <= k < n => ReadInterval(w, steps, i, k).up)
  }

  // ---- The condition ----

  /** Taking the values of [a, b) apart by the ranges that were read, from m on, and what falls to
      each of them by the real ones. */
  predicate SplitOk(lows: seq<int>, uppers: seq<int>, r: Ranges, m: nat, a: int, b: int)
    requires ValidRanges(r) && |lows| == |uppers| == |r.uppers| && m <= |uppers|
    decreases |uppers| - m
  {
    if a >= b then true
    else if m == |uppers| then AllYield(r, 0, a, b, r.default)
    else
      && AllYield(r, 0, Upper(a, lows[m]), Lower(b, uppers[m]), r.results[m])
      && SplitOk(lows, uppers, r, m + 1, a, Lower(b, lows[m]))
      && SplitOk(lows, uppers, r, m + 1, Upper(a, uppers[m]), b)
  }

  /** Whatever branch the search takes, the branch the steps take yields the same. */
  predicate OperandsOk(w: World, steps: seq<Step>, i: nat, n: nat)
    requires FullChain(steps, i, n)
  {
    var lows, uppers, repr := ReadLows(w, steps, i, n), ReadUppers(w, steps, i, n), steps[i + 1].fn.repr;
    && SplitOk(lows, uppers, RealRanges(w, steps, i, n, true), 0, Bottom(repr), Top(w, repr))
    && SplitOk(lows, uppers, RealRanges(w, steps, i, n, false), 0, Bottom(repr), Top(w, repr))
  }

  ghost predicate SplitAgrees(lows: seq<int>, uppers: seq<int>, r: Ranges, m: nat, a: int, b: int)
    requires ValidRanges(r) && |lows| == |uppers| == |r.uppers| && m <= |uppers|
  {
    forall v | a <= v < b :: AgreesAt(lows, uppers, r, m, v)
  }

  lemma AgreeAtEnd(lows: seq<int>, uppers: seq<int>, r: Ranges, a: int, b: int)
    requires ValidRanges(r) && |lows| == |uppers| == |r.uppers|
    ensures SplitAgrees(lows, uppers, r, |uppers|, a, b) <==> AllYield(r, 0, a, b, r.default)
  {
    AllYieldIs(r, 0, a, b, r.default);
    forall v: int
      ensures AgreesAt(lows, uppers, r, |uppers|, v) <==> Yields(r, FirstRange(r.lows, r.uppers, v, 0), r.default)
    {
    }
  }

  lemma {:induction false} SplitOkIs(lows: seq<int>, uppers: seq<int>, r: Ranges, m: nat, a: int, b: int)
    requires ValidRanges(r) && |lows| == |uppers| == |r.uppers| && m <= |uppers|
    ensures SplitOk(lows, uppers, r, m, a, b) <==> SplitAgrees(lows, uppers, r, m, a, b)
    decreases |uppers| - m
  {
    if a >= b {
      assert SplitAgrees(lows, uppers, r, m, a, b);
    } else if m == |uppers| {
      AgreeAtEnd(lows, uppers, r, a, b);
    } else {
      AgreeSplits(lows, uppers, r, m, a, b);
      SplitOkIs(lows, uppers, r, m + 1, a, Lower(b, lows[m]));
      SplitOkIs(lows, uppers, r, m + 1, Upper(a, uppers[m]), b);
    }
  }

  lemma FirstOfRest(lows: seq<int>, uppers: seq<int>, v: int, m: nat)
    requires |lows| == |uppers| && m < |uppers|
    ensures FirstRange(lows, uppers, v, m) ==
            if lows[m] <= v < uppers[m] then m else FirstRange(lows, uppers, v, m + 1)
  {
  }

  /** The values inside the range m that was read, those below it and those above it. */
  lemma AgreeSplits(lows: seq<int>, uppers: seq<int>, r: Ranges, m: nat, a: int, b: int)
    requires ValidRanges(r) && |lows| == |uppers| == |r.uppers| && m < |uppers|
    ensures SplitAgrees(lows, uppers, r, m, a, b) <==>
            && AllYield(r, 0, Upper(a, lows[m]), Lower(b, uppers[m]), r.results[m])
            && SplitAgrees(lows, uppers, r, m + 1, a, Lower(b, lows[m]))
            && SplitAgrees(lows, uppers, r, m + 1, Upper(a, uppers[m]), b)
  {
    AllYieldIs(r, 0, Upper(a, lows[m]), Lower(b, uppers[m]), r.results[m]);
    if SplitAgrees(lows, uppers, r, m, a, b) {
      AgreeingSplits(lows, uppers, r, m, a, b);
    } else {
      var v :| a <= v < b && !AgreesAt(lows, uppers, r, m, v);
      FirstOfRest(lows, uppers, v, m);
      assert lows[m] <= v < uppers[m] || !AgreesAt(lows, uppers, r, m + 1, v);
    }
  }

  predicate AgreesAt(lows: seq<int>, uppers: seq<int>, r: Ranges, m: nat, v: int)
    requires ValidRanges(r) && |lows| == |uppers| == |r.uppers| && m <= |uppers|
  {
    Yields(r, FirstRange(r.lows, r.uppers, v, 0), Pick(r.results, FirstRange(lows, uppers, v, m), r.default))
  }

  lemma AgreeingSplits(lows: seq<int>, uppers: seq<int>, r: Ranges, m: nat, a: int, b: int)
    requires ValidRanges(r) && |lows| == |uppers| == |r.uppers| && m < |uppers|
    requires SplitAgrees(lows, uppers, r, m, a, b)
    ensures YieldFrom(r, 0, Upper(a, lows[m]), Lower(b, uppers[m]), r.results[m])
    ensures SplitAgrees(lows, uppers, r, m + 1, a, Lower(b, lows[m]))
    ensures SplitAgrees(lows, uppers, r, m + 1, Upper(a, uppers[m]), b)
  {
    forall v | a <= v < b && lows[m] <= v < uppers[m]
      ensures Yields(r, FirstRange(r.lows, r.uppers, v, 0), r.results[m])
    {
      FirstOfRest(lows, uppers, v, m);
      assert AgreesAt(lows, uppers, r, m, v);
    }
    var next := m + 1;
    forall v | a <= v < b && !(lows[m] <= v < uppers[m]) ensures AgreesAt(lows, uppers, r, next, v) {
      FirstOfRest(lows, uppers, v, m);
      assert AgreesAt(lows, uppers, r, m, v);
    }
  }

  // ---- What the branches and the search yield ----

  predicate NonGenericChain(steps: seq<Step>, i: nat, n: nat, res: Cell) {
    && FullChain(steps, i, n) && steps[i + 1].fn.repr != Generic
    && forall k: nat | k < n :: BranchWired(steps, i, k, res)
  }

  /** Where no other cell is compared, a branch applies for the ranks of its interval. */
  lemma BranchInterval(w: World, steps: seq<Step>, i: nat, n: nat, res: Cell, k: nat, v: Nullable, y: Nullable,
                       most: bool)
    requires ValidWorld(w) && NonGenericChain(steps, i, n, res) && k < n && !v.isnull
    ensures k > 0 || !TakesOther(steps, i) ==>
              (Applies(w, steps, i, k, v, y) <==>
               In(Rank(w, steps[i + 1].fn.repr, v.value), RealInterval(w, steps, i, k, most)))
  {
    var fn, b := steps[i + 1].fn, i + STRIDE * k;
    assert BranchOf(steps, i, k) && BranchWired(steps, i, k, res);
    if !ArgsOther(steps[b + 1].arg0, steps[b].dst) {
      ArgsIntervalIs(w, fn, BranchCollation(steps, i, k), steps[b + 1].arg0, steps[b + 1].arg1, steps[b].dst, v, y,
                     most);
    }
  }

  lemma RangeOfBranch(w: World, steps: seq<Step>, i: nat, n: nat, k: nat, most: bool)
    requires FullChain(steps, i, n) && k < n
    ensures BranchOf(steps, i, k)
    ensures var r := RealRanges(w, steps, i, n, most);
            Interval(r.lows[k], r.uppers[k]) == RealInterval(w, steps, i, k, most) &&
            r.results[k] == Result(steps, i, k)
  {
  }

  /** The branches yield the result of the first range, when branch by branch they apply for it. */
  lemma {:induction false} RangesYield(w: World, steps: seq<Step>, i: nat, n: nat, k: nat, v: Nullable, y: Nullable,
                                       most: bool)
    requires FullChain(steps, i, n) && k <= n
    requires forall m: nat | k <= m < n ::
               BranchOf(steps, i, m) &&
               (Applies(w, steps, i, m, v, y) <==>
                In(Rank(w, steps[i + 1].fn.repr, v.value), RealInterval(w, steps, i, m, most)))
    ensures var r := RealRanges(w, steps, i, n, most);
            BranchValue(w, steps, i, n, k, v, y) ==
            Pick(r.results, FirstRange(r.lows, r.uppers, Rank(w, steps[i + 1].fn.repr, v.value), k), r.default)
    decreases n - k
  {
    if k < n {
      var r := RealRanges(w, steps, i, n, most);
      RangeOfBranch(w, steps, i, n, k, most);
      FirstOfRest(r.lows, r.uppers, Rank(w, steps[i + 1].fn.repr, v.value), k);
      RangesYield(w, steps, i, n, k + 1, v, y, most);
    }
  }

  lemma ReadHolds(w: World, steps: seq<Step>, i: nat, n: nat, k: nat, v: Datum)
    requires ValidWorld(w) && FullChain(steps, i, n) && steps[i + 1].fn.repr != Generic && k < n
    ensures BranchOf(steps, i, k)
    ensures var fn := steps[i + 1].fn;
            Holds(fn.kind, OrderOf(w, fn, steps[i + 1].coll), v, Threshold(steps, i, k)) <==>
            In(Rank(w, fn.repr, v), ReadInterval(w, steps, i, k))
  {
    var fn := steps[i + 1].fn;
    var t := Threshold(steps, i, k);
    RankInWord(w, fn.repr, v);
    RankInWord(w, fn.repr, t);
    HoldsByRank(w, fn, steps[i + 1].coll, v, t);
    IntervalsAre(fn.kind, Rank(w, fn.repr, v), Rank(w, fn.repr, t), Bottom(fn.repr), Top(w, fn.repr));
  }

  lemma {:induction false} MatchIsRange(kind: CmpKind, le: Order, v: Datum, ts: seq<Datum>, lows: seq<int>,
                                        uppers: seq<int>, x: int, k: nat)
    requires |lows| == |uppers| == |ts| && k <= |ts|
    requires forall m | k <= m < |ts| :: Holds(kind, le, v, ts[m]) <==> lows[m] <= x < uppers[m]
    ensures FirstMatch(kind, le, v, ts, k) == FirstRange(lows, uppers, x, k)
    decreases |ts| - k
  {
    if k < |ts| {
      MatchIsRange(kind, le, v, ts, lows, uppers, x, k + 1);
    }
  }

  lemma SearchYields(w: World, steps: seq<Step>, i: nat, n: nat, v: Datum)
    requires ValidWorld(w) && FullChain(steps, i, n) && steps[i + 1].fn.repr != Generic
    ensures ChainValue(w, steps, i, n, 0, Nullable(v, false)) ==
            Pick(ChainResults(steps, i, n),
                 FirstRange(ReadLows(w, steps, i, n), ReadUppers(w, steps, i, n), Rank(w, steps[i + 1].fn.repr, v), 0),
                 steps[i + STRIDE * n].value.value)
  {
    var fn, ts := steps[i + 1].fn, ChainThresholds(steps, i, n);
    var le, x := OrderOf(w, fn, steps[i + 1].coll), Rank(w, fn.repr, v);
    var lows, uppers := ReadLows(w, steps, i, n), ReadUppers(w, steps, i, n);
    forall m | 0 <= m < n ensures Holds(fn.kind, le, v, ts[m]) <==> lows[m] <= x < uppers[m] {
      ReadHolds(w, steps, i, n, m, v);
    }
    MatchIsRange(fn.kind, le, v, ts, lows, uppers, x, 0);
  }

  lemma {:induction false} NullYields(w: World, steps: seq<Step>, i: nat, n: nat, res: Cell, k: nat, v: Nullable,
                                      y: Nullable)
    requires FullChain(steps, i, n) && k <= n && v.isnull
    requires forall m: nat | m < n :: BranchOf(steps, i, m) && BranchWired(steps, i, m, res)
    ensures BranchValue(w, steps, i, n, k, v, y) == ChainValue(w, steps, i, n, k, v)
    decreases n - k
  {
    if k < n {
      assert BranchOf(steps, i, k) && BranchWired(steps, i, k, res);
      NullYields(w, steps, i, n, res, k + 1, v, y);
    }
  }

  // ---- The condition is exact ----

  lemma AsRanges(w: World, steps: seq<Step>, i: nat, n: nat, res: Cell, v: Nullable, y: Nullable, most: bool)
    requires ValidWorld(w) && NonGenericChain(steps, i, n, res) && !v.isnull
    requires TakesOther(steps, i) ==>
               (Applies(w, steps, i, 0, v, y) <==>
                In(Rank(w, steps[i + 1].fn.repr, v.value), RealInterval(w, steps, i, 0, most)))
    ensures var r, x := RealRanges(w, steps, i, n, most), Rank(w, steps[i + 1].fn.repr, v.value);
            var read := FirstRange(ReadLows(w, steps, i, n), ReadUppers(w, steps, i, n), x, 0);
            BranchValue(w, steps, i, n, 0, v, y) == ChainValue(w, steps, i, n, 0, v) <==>
            Yields(r, FirstRange(r.lows, r.uppers, x, 0), Pick(r.results, read, r.default))
  {
    forall m: nat | m < n
      ensures BranchOf(steps, i, m) &&
              (Applies(w, steps, i, m, v, y) <==>
               In(Rank(w, steps[i + 1].fn.repr, v.value), RealInterval(w, steps, i, m, most)))
    {
      BranchInterval(w, steps, i, n, res, m, v, y, most);
    }
    RangesYield(w, steps, i, n, 0, v, y, most);
    SearchYields(w, steps, i, n, v.value);
  }

  lemma OkAgrees(w: World, steps: seq<Step>, i: nat, n: nat, res: Cell, v: Nullable, y: Nullable)
    requires ValidWorld(w) && NonGenericChain(steps, i, n, res) && OperandsOk(w, steps, i, n)
    ensures BranchValue(w, steps, i, n, 0, v, y) == ChainValue(w, steps, i, n, 0, v)
  {
    if v.isnull {
      NullYields(w, steps, i, n, res, 0, v, y);
    } else {
      var repr := steps[i + 1].fn.repr;
      assert BranchOf(steps, i, 0) && BranchWired(steps, i, 0, res);
      var most := TakesOther(steps, i) ==> Applies(w, steps, i, 0, v, y);
      if TakesOther(steps, i) && Applies(w, steps, i, 0, v, y) {
        ArgsOtherIn(w, steps[i + 1].fn, BranchCollation(steps, i, 0), steps[i + 1].arg0, steps[i + 1].arg1,
                    steps[i].dst, v, y);
      }
      AsRanges(w, steps, i, n, res, v, y, most);
      RankInWord(w, repr, v.value);
      var lows, uppers, r := ReadLows(w, steps, i, n), ReadUppers(w, steps, i, n), RealRanges(w, steps, i, n, most);
      SplitOkIs(lows, uppers, r, 0, Bottom(repr), Top(w, repr));
      assert AgreesAt(lows, uppers, r, 0, Rank(w, repr, v.value));
    }
  }

  lemma NotOkDiffers(w: World, steps: seq<Step>, i: nat, n: nat, res: Cell) returns (v: Nullable, y: Nullable)
    requires ValidWorld(w) && NonGenericChain(steps, i, n, res) && !OperandsOk(w, steps, i, n)
    ensures BranchValue(w, steps, i, n, 0, v, y) != ChainValue(w, steps, i, n, 0, v)
  {
    var lows, uppers, repr := ReadLows(w, steps, i, n), ReadUppers(w, steps, i, n), steps[i + 1].fn.repr;
    var most := !SplitOk(lows, uppers, RealRanges(w, steps, i, n, true), 0, Bottom(repr), Top(w, repr));
    var r := RealRanges(w, steps, i, n, most);
    SplitOkIs(lows, uppers, r, 0, Bottom(repr), Top(w, repr));
    var x :| Bottom(repr) <= x < Top(w, repr) &&
             !Yields(r, FirstRange(r.lows, r.uppers, x, 0), Pick(r.results, FirstRange(lows, uppers, x, 0), r.default));
    RankOfRanked(w, repr, x);
    v, y := Nullable(Ranked(w, repr, x), false), Nullable(0, true);
    assert BranchOf(steps, i, 0) && BranchWired(steps, i, 0, res);
    if TakesOther(steps, i) && In(x, RealInterval(w, steps, i, 0, most)) {
      y := ArgsOtherHold(w, steps[i + 1].fn, BranchCollation(steps, i, 0), steps[i + 1].arg0, steps[i + 1].arg1,
                         steps[i].dst, v);
    }
    AsRanges(w, steps, i, n, res, v, y, most);
  }

  /** For every tested value and whatever another compared cell holds: the steps yield what the
      search over the words that were read yields if and only if the condition holds. */
  lemma OperandsExactlyWhen(w: World, steps: seq<Step>, i: nat, n: nat, res: Cell)
    requires ValidWorld(w) && NonGenericChain(steps, i, n, res)
    ensures (forall v: Nullable, y: Nullable ::
               BranchValue(w, steps, i, n, 0, v, y) == ChainValue(w, steps, i, n, 0, v)) <==>
            OperandsOk(w, steps, i, n)
  {
    if OperandsOk(w, steps, i, n) {
      forall v: Nullable, y: Nullable
        ensures BranchValue(w, steps, i, n, 0, v, y) == ChainValue(w, steps, i, n, 0, v)
      {
        OkAgrees(w, steps, i, n, res, v, y);
      }
    } else {
      var v, y := NotOkDiffers(w, steps, i, n, res);
    }
  }

  /** Where every comparison takes its load first, the condition holds. */
  lemma LoadsFirstOk(w: World, steps: seq<Step>, i: nat, n: nat, res: Cell)
    requires ValidWorld(w) && NonGenericChain(steps, i, n, res) && LoadsFirst(steps, i, n)
    ensures OperandsOk(w, steps, i, n)
  {
    forall most: bool ensures RealRanges(w, steps, i, n, most).lows == ReadLows(w, steps, i, n)
    {
      RealIsRead(w, steps, i, n, most);
    }
    forall most: bool ensures RealRanges(w, steps, i, n, most).uppers == ReadUppers(w, steps, i, n)
    {
      RealIsRead(w, steps, i, n, most);
    }
    var repr, lows, uppers := steps[i + 1].fn.repr, ReadLows(w, steps, i, n), ReadUppers(w, steps, i, n);
    SplitOkIs(lows, uppers, RealRanges(w, steps, i, n, true), 0, Bottom(repr), Top(w, repr));
    SplitOkIs(lows, uppers, RealRanges(w, steps, i, n, false), 0, Bottom(repr), Top(w, repr));
  }

  lemma RealIsRead(w: World, steps: seq<Step>, i: nat, n: nat, most: bool)
    requires FullChain(steps, i, n) && LoadsFirst(steps, i, n)
    ensures RealRanges(w, steps, i, n, most).lows == ReadLows(w, steps, i, n)
    ensures RealRanges(w, steps, i, n, most).uppers == ReadUppers(w, steps, i, n)
  {
    forall k: nat | k < n ensures RealInterval(w, steps, i, k, most) == ReadInterval(w, steps, i, k) {
      assert BranchOf(steps, i, k) && BranchLoadsFirst(steps, i, k);
    }
  }
}
