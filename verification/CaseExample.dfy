/** Programs that the first detection pass reports and whose rewritten form is wrong. */
module CaseExample {
  import opened CaseOrder
  import opened CaseSteps
  import opened CaseDetect
  import opened CaseCollation
  import opened CaseOperands
  import opened CaseExact

  // ---- The programs ----

  /** Step k of: four branches over x with results 10, 11, 12, 13, and ELSE 99; `arg0` and `arg1`
      are the arguments of their comparisons, `last` is the collation of the last. */
  function ChainStep(fn: Fn, arg0: seq<Operand>, arg1: seq<Operand>, last: nat, k: nat): Step
    requires |arg0| == |arg1| == 4
  {
    if k >= 20 then Const(Nullable(99, false), 0)
    else
      var b := if k < 5 then 0 else if k < 10 then 1 else if k < 15 then 2 else 3;
      match k - 5 * b
      case 0 => Var(InnerVar, 1, 1)
      case 1 => FuncStrict(fn, arg0[b], arg1[b], if b == 3 then last else 0, 0)
      case 2 => JumpIfNotTrue(0, 5 * b + 5)
      case 3 => Const(Nullable(10 + b, false), 0)
      case _ => Jump(21)
  }

  function ChainProgram(fn: Fn, arg0: seq<Operand>, arg1: seq<Operand>, last: nat): (steps: seq<Step>)
    requires |arg0| == |arg1| == 4
    ensures |steps| == 21
  {
    seq(21, k requires 0 <= k < 21 => ChainStep(fn, arg0, arg1, last, k))
  }

  predicate GoodOperands(arg0: seq<Operand>, arg1: seq<Operand>) {
    && |arg0| == |arg1| == 4
    && forall k: nat | k < 4 :: !FrameWord(arg1[k]).isnull && OperandsAre(arg0[k], arg1[k], k == 0)
  }

  predicate OperandsAre(arg0: Operand, arg1: Operand, first: bool) {
    TakesLoad(arg0, arg1, 1, first) && arg0 != At(0)
  }

  lemma ProgramBranch(fn: Fn, arg0: seq<Operand>, arg1: seq<Operand>, last: nat, k: nat)
    requires GoodOperands(arg0, arg1) && k < 4
    ensures var steps := ChainProgram(fn, arg0, arg1, last);
            && BranchAt(steps, 0) && BranchOf(steps, 0, k) && BranchWired(steps, 0, k, 0)
            && Threshold(steps, 0, k) == FrameWord(arg1[k]).value && Result(steps, 0, k) == 10 + k
            && BranchCollation(steps, 0, k) == (if k == 3 then last else 0)
            && steps[STRIDE * k] == Var(InnerVar, 1, 1)
            && steps[STRIDE * k + 1].arg0 == arg0[k] && steps[STRIDE * k + 1].arg1 == arg1[k] && steps[1].fn == fn
  {
    assert OperandsAre(arg0[k], arg1[k], k == 0);
    assert OperandsAre(arg0[0], arg1[0], true);
  }

  lemma ProgramForward(fn: Fn, arg0: seq<Operand>, arg1: seq<Operand>, last: nat)
    requires |arg0| == |arg1| == 4
    ensures Forward(ChainProgram(fn, arg0, arg1, last))
  {
  }

  lemma ProgramChain(fn: Fn, arg0: seq<Operand>, arg1: seq<Operand>, last: nat)
    requires GoodOperands(arg0, arg1)
    ensures var steps := ChainProgram(fn, arg0, arg1, last);
            WiredCase(steps, 0, 4, 0) && CaseAt(steps, 0, 4) && steps[20] == Const(Nullable(99, false), 0)
  {
    var steps := ChainProgram(fn, arg0, arg1, last);
    ProgramForward(fn, arg0, arg1, last);
    forall k: nat | k < 4 ensures BranchAt(steps, 0) && BranchOf(steps, 0, k) && BranchWired(steps, 0, k, 0) {
      ProgramBranch(fn, arg0, arg1, last, k);
    }
    assert !BranchOf(steps, 0, 4);
    assert ChainLength(steps, 0, 4) == 4 && ChainLength(steps, 0, 3) == 4;
    assert ChainLength(steps, 0, 2) == 4 && ChainLength(steps, 0, 1) == 4;
  }

  /** All that matters about such a program. */
  ghost predicate IsProgram(steps: seq<Step>, fn: Fn, arg0: seq<Operand>, arg1: seq<Operand>, last: nat) {
    && GoodOperands(arg0, arg1)
    && WiredCase(steps, 0, 4, 0) && CaseAt(steps, 0, 4) && steps[20] == Const(Nullable(99, false), 0)
    && steps[1].fn == fn
    && forall k: nat | k < 4 :: BranchIs(steps, arg0[k], arg1[k], if k == 3 then last else 0, k)
  }

  predicate BranchIs(steps: seq<Step>, arg0: Operand, arg1: Operand, coll: nat, k: nat) {
    && BranchAt(steps, 0) && BranchOf(steps, 0, k)
    && steps[STRIDE * k].dst == 1 && steps[STRIDE * k + 1].arg0 == arg0 && steps[STRIDE * k + 1].arg1 == arg1
    && BranchCollation(steps, 0, k) == coll && Result(steps, 0, k) == 10 + k
  }

  lemma ProgramIs(fn: Fn, arg0: seq<Operand>, arg1: seq<Operand>, last: nat)
    requires GoodOperands(arg0, arg1)
    ensures IsProgram(ChainProgram(fn, arg0, arg1, last), fn, arg0, arg1, last)
  {
    var steps := ChainProgram(fn, arg0, arg1, last);
    ProgramChain(fn, arg0, arg1, last);
    forall k: nat | k < 4 ensures BranchIs(steps, arg0[k], arg1[k], if k == 3 then last else 0, k) {
      ProgramBranch(fn, arg0, arg1, last, k);
    }
    ProgramBranch(fn, arg0, arg1, last, 0);
  }

  /** The words the detector reads. */
  lemma ProgramWords(steps: seq<Step>, fn: Fn, arg0: seq<Operand>, arg1: seq<Operand>, last: nat)
    requires IsProgram(steps, fn, arg0, arg1, last)
    ensures ChainThresholds(steps, 0, 4) == [FrameWord(arg1[0]).value, FrameWord(arg1[1]).value,
                                            FrameWord(arg1[2]).value, FrameWord(arg1[3]).value]
    ensures ChainResults(steps, 0, 4) == [10, 11, 12, 13]
  {
    forall k: nat | k < 4
      ensures ChainThresholds(steps, 0, 4)[k] == FrameWord(arg1[k]).value && ChainResults(steps, 0, 4)[k] == 10 + k
    {
      assert BranchIs(steps, arg0[k], arg1[k], if k == 3 then last else 0, k);
    }
  }

  /** Which branch applies. */
  lemma ProgramApplies(w: World, steps: seq<Step>, fn: Fn, arg0: seq<Operand>, arg1: seq<Operand>, last: nat, k: nat,
                       v: Nullable, y: Nullable)
    requires IsProgram(steps, fn, arg0, arg1, last) && k < 4
    ensures BranchOf(steps, 0, k) && Result(steps, 0, k) == 10 + k
    ensures var a, t := Given(arg0[k], 1, v, y), Given(arg1[k], 1, v, y);
            Applies(w, steps, 0, k, v, y) <==>
            !a.isnull && !t.isnull && Holds(fn.kind, OrderOf(w, fn, if k == 3 then last else 0), a.value, t.value)
  {
    assert BranchIs(steps, arg0[k], arg1[k], if k == 3 then last else 0, k);
  }

  /** An order comparison that passes the check is reported. */
  lemma ProgramReported(w: World, steps: seq<Step>, fn: Fn, arg0: seq<Operand>, arg1: seq<Operand>, last: nat)
    requires IsProgram(steps, fn, arg0, arg1, last) && w.direct(fn) && fn.kind != EQ
    requires fn.repr == Generic ==> forall k | 0 <= k < 4 :: arg1[k].Fixed?
    requires AllNeighboursOk(fn, OrderOf(w, fn, 0), ChainThresholds(steps, 0, 4))
    ensures LookAt(w, steps, 0).Found?
  {
    forall k: nat | k < 4 ensures !NullWord(steps, 0, k) {
      assert BranchIs(steps, arg0[k], arg1[k], if k == 3 then last else 0, k);
    }
    assert BranchIs(steps, arg0[0], arg1[0], 0, 0);
    PassesWhen(steps, 0, 4, fn, OrderOf(w, fn, 0));
  }

  /** Collation 0 is ascending, collation 1 descending. */
  function ExampleWorld(): World {
    World((family, coll) => if coll == 0 then (a: Datum, b: Datum) => a <= b else (a: Datum, b: Datum) => b <= a,
          (a, b) => a <= b, coll => false, fn => true, family => true, (repr, d) => 0, (repr, x) => 0, repr => 1)
  }

  lemma ExampleWorldOk()
    ensures ValidWorld(ExampleWorld()) && KnownLt(ExampleWorld())
  {
  }

  /** The first branch that applies, when it is branch o. */
  lemma {:induction false} FirstToApply(w: World, steps: seq<Step>, i: nat, n: nat, k: nat, o: nat, v: Nullable,
                                        y: Nullable)
    requires FullChain(steps, i, n) && k <= o < n
    requires forall m: nat | k <= m < o :: BranchOf(steps, i, m) && !Applies(w, steps, i, m, v, y)
    requires BranchOf(steps, i, o) && Applies(w, steps, i, o, v, y)
    ensures BranchValue(w, steps, i, n, k, v, y) == Result(steps, i, o)
    decreases o - k
  {
    if k < o {
      FirstToApply(w, steps, i, n, k + 1, o, v, y);
    }
  }

  // ---- Several collations ----

  function Loads(): seq<Operand> {
    [At(1), At(1), At(1), At(1)]
  }

  function Constants(a: int, b: int, c: int, d: int): seq<Operand> {
    [Fixed(Nullable(a, false)), Fixed(Nullable(b, false)), Fixed(Nullable(c, false)), Fixed(Nullable(d, false))]
  }

  function MixedProgram(): seq<Step> {
    ChainProgram(Fn(LT, Generic, TEXT), Loads(), Constants(1, 2, 3, 4), 1)
  }

  /** The pass looks at the collation of the first branch only: four branches 'x < k + 1', the last
      under a descending collation, are reported, and for 5 the search yields the ELSE value while
      the steps yield the last branch. */
  lemma MixedCollationExample(y: Nullable)
    ensures var w, steps := ExampleWorld(), MixedProgram();
            && ValidWorld(w) && KnownLt(w) && WiredCase(steps, 0, 4, 0) && LookAt(w, steps, 0).Found?
            && ChainValue(w, steps, 0, 4, 0, Nullable(5, false)) == 99
            && BranchValue(w, steps, 0, 4, 0, Nullable(5, false), y) == 13
  {
    ExampleWorldOk();
    ProgramIs(Fn(LT, Generic, TEXT), Loads(), Constants(1, 2, 3, 4), 1);
    MixedRuns(ExampleWorld(), MixedProgram(), y);
  }

  lemma MixedRuns(w: World, steps: seq<Step>, y: Nullable)
    requires w == ExampleWorld() && IsProgram(steps, Fn(LT, Generic, TEXT), Loads(), Constants(1, 2, 3, 4), 1)
    ensures LookAt(w, steps, 0).Found?
    ensures ChainValue(w, steps, 0, 4, 0, Nullable(5, false)) == 99
    ensures BranchValue(w, steps, 0, 4, 0, Nullable(5, false), y) == 13
  {
    var fn, args, v := Fn(LT, Generic, TEXT), Constants(1, 2, 3, 4), Nullable(5, false);
    ProgramWords(steps, fn, Loads(), args, 1);
    assert AllNeighboursOk(fn, OrderOf(w, fn, 0), [1, 2, 3, 4]);
    ProgramReported(w, steps, fn, Loads(), args, 1);
    FirstMatchIs(LT, OrderOf(w, fn, 0), 5, [1, 2, 3, 4], 4);
    assert BranchIs(steps, Loads()[0], args[0], 0, 0);
    forall k: nat | k < 4
      ensures BranchOf(steps, 0, k) && Result(steps, 0, k) == 10 + k && (Applies(w, steps, 0, k, v, y) <==> k == 3)
    {
      ProgramApplies(w, steps, fn, Loads(), args, 1, k, v, y);
    }
    FirstToApply(w, steps, 0, 4, 0, 3, v, y);
  }

  // ---- The load as second argument ----

  function SwappedArgs0(): seq<Operand> {
    [At(5), At(1), At(1), At(1)]
  }

  function SwappedArgs1(): seq<Operand> {
    [At(1), Fixed(Nullable(20, false)), Fixed(Nullable(30, false)), Fixed(Nullable(40, false))]
  }

  /** 'y < x', 'x < 20', 'x < 30', 'x < 40' over int4, y in cell 5: the threshold of the first
      branch is read as 0.  For y = 0 and x = 5 the steps yield the first result, the search the
      second. */
  lemma SwappedExample() returns (env: Env, cells: Cells)
    ensures var w, steps := ExampleWorld(), ChainProgram(Fn(LT, I32, 0), SwappedArgs0(), SwappedArgs1(), 0);
            && ValidWorld(w) && WiredCase(steps, 0, 4, 0) && LookAt(w, steps, 0).Found?
            && ChainValue(w, steps, 0, 4, 0, Nullable(5, false)) == 11
            && BranchValue(w, steps, 0, 4, 0, Nullable(5, false), Nullable(0, false)) == 10
            && !SameCase(w, env, steps, 0, 4, 0, cells)
  {
    var w, steps := ExampleWorld(), ChainProgram(Fn(LT, I32, 0), SwappedArgs0(), SwappedArgs1(), 0);
    ExampleWorldOk();
    SwappedGood();
    ProgramIs(Fn(LT, I32, 0), SwappedArgs0(), SwappedArgs1(), 0);
    SwappedRuns(w, steps);
    env, cells := DifferenceShows(w, steps, 0, 4, 0, Nullable(5, false), Nullable(0, false));
  }

  lemma SwappedGood()
    ensures GoodOperands(SwappedArgs0(), SwappedArgs1())
  {
    assert forall k: nat | k < 4 :: OperandsAre(SwappedArgs0()[k], SwappedArgs1()[k], k == 0);
  }

  lemma SwappedSearch(w: World)
    ensures AllNeighboursOk(Fn(LT, I32, 0), OrderOf(w, Fn(LT, I32, 0), 0), [0, 20, 30, 40])
    ensures FirstMatch(LT, OrderOf(w, Fn(LT, I32, 0), 0), 5, [0, 20, 30, 40], 0) == 1
  {
    var fn, ts := Fn(LT, I32, 0), [0, 20, 30, 40];
    forall k | 0 < k < 4 ensures NeighboursOk(fn, OrderOf(w, fn, 0), ts[k - 1], ts[k]) {
      HoldsByRank(w, fn, 0, ts[k - 1], ts[k]);
      SmallKey(ts[k - 1]);
      SmallKey(ts[k]);
    }
    HoldsByRank(w, fn, 0, 5, 0);
    HoldsByRank(w, fn, 0, 5, 20);
    FirstMatchIs(LT, OrderOf(w, fn, 0), 5, ts, 1);
  }

  lemma SwappedRuns(w: World, steps: seq<Step>)
    requires w == ExampleWorld() && IsProgram(steps, Fn(LT, I32, 0), SwappedArgs0(), SwappedArgs1(), 0)
    ensures LookAt(w, steps, 0).Found?
    ensures ChainValue(w, steps, 0, 4, 0, Nullable(5, false)) == 11
    ensures BranchValue(w, steps, 0, 4, 0, Nullable(5, false), Nullable(0, false)) == 10
  {
    var fn, arg0, arg1, v, y := Fn(LT, I32, 0), SwappedArgs0(), SwappedArgs1(), Nullable(5, false), Nullable(0, false);
    ProgramWords(steps, fn, arg0, arg1, 0);
    SwappedSearch(w);
    ProgramReported(w, steps, fn, arg0, arg1, 0);
    assert BranchIs(steps, arg0[0], arg1[0], 0, 0);
    ProgramApplies(w, steps, fn, arg0, arg1, 0, 0, v, y);
    HoldsByRank(w, fn, 0, 0, 5);
    FirstToApply(w, steps, 0, 4, 0, 0, v, y);
  }

  function EqualArgs0(): seq<Operand> {
    [At(1), At(1), At(1), Fixed(Nullable(4, false))]
  }

  function EqualArgs1(): seq<Operand> {
    [Fixed(Nullable(1, false)), Fixed(Nullable(2, false)), Fixed(Nullable(3, false)), At(1)]
  }

  /** 'x = 1', 'x = 2', 'x = 3', '4 = x': the last threshold is read as 0, and 4 is not found. */
  lemma SwappedEqualExample(y: Nullable) returns (env: Env, cells: Cells)
    ensures var w, steps := ExampleWorld(), ChainProgram(Fn(EQ, I32, 0), EqualArgs0(), EqualArgs1(), 0);
            && ValidWorld(w) && WiredCase(steps, 0, 4, 0) && LookAt(w, steps, 0).Found?
            && ChainValue(w, steps, 0, 4, 0, Nullable(4, false)) == 99
            && BranchValue(w, steps, 0, 4, 0, Nullable(4, false), y) == 13
            && !SameCase(w, env, steps, 0, 4, 0, cells)
  {
    var w, steps := ExampleWorld(), ChainProgram(Fn(EQ, I32, 0), EqualArgs0(), EqualArgs1(), 0);
    ExampleWorldOk();
    EqualGood();
    ProgramIs(Fn(EQ, I32, 0), EqualArgs0(), EqualArgs1(), 0);
    SwappedEqualRuns(w, steps, y);
    env, cells := DifferenceShows(w, steps, 0, 4, 0, Nullable(4, false), y);
  }

  lemma EqualGood()
    ensures GoodOperands(EqualArgs0(), EqualArgs1())
  {
    assert forall k: nat | k < 4 :: OperandsAre(EqualArgs0()[k], EqualArgs1()[k], k == 0);
  }

  lemma SwappedEqualRuns(w: World, steps: seq<Step>, y: Nullable)
    requires w == ExampleWorld() && IsProgram(steps, Fn(EQ, I32, 0), EqualArgs0(), EqualArgs1(), 0)
    ensures LookAt(w, steps, 0).Found?
    ensures ChainValue(w, steps, 0, 4, 0, Nullable(4, false)) == 99
    ensures BranchValue(w, steps, 0, 4, 0, Nullable(4, false), y) == 13
  {
    var fn, arg0, arg1, v := Fn(EQ, I32, 0), EqualArgs0(), EqualArgs1(), Nullable(4, false);
    ProgramWords(steps, fn, arg0, arg1, 0);
    assert BranchIs(steps, arg0[0], arg1[0], 0, 0);
    EqualReported(w, steps, [1, 2, 3, 0]);
    FirstMatchIs(EQ, OrderOf(w, fn, 0), 4, [1, 2, 3, 0], 4);
    forall k: nat | k < 4
      ensures BranchOf(steps, 0, k) && Result(steps, 0, k) == 10 + k && (Applies(w, steps, 0, k, v, y) <==> k == 3)
    {
      ProgramApplies(w, steps, fn, arg0, arg1, 0, k, v, y);
    }
    FirstToApply(w, steps, 0, 4, 0, 3, v, y);
  }

  /** Distinct words of an integer equality are reported. */
  lemma EqualReported(w: World, steps: seq<Step>, ts: seq<Datum>)
    requires w == ExampleWorld() && CaseAt(steps, 0, 4) && Chain(steps, 0, 4) && ts == ChainThresholds(steps, 0, 4)
    requires steps[1].fn == Fn(EQ, I32, 0)
    requires forall i, j | 0 <= i < j < |ts| :: Key(I32, ts[i]) != Key(I32, ts[j])
    ensures LookAt(w, steps, 0).Found?
  {
    var le, ps := OrderOf(w, steps[1].fn, 0), Zip(ts, ChainResults(steps, 0, 4));
    OrderIsTotal(w, steps[1].fn, 0);
    SortUnlike(le, ps);
    forall k: nat | k < 4 ensures !NullWords(steps, 0, 4)[k] {
      assert !NullWord(steps, 0, k);
    }
  }
}
