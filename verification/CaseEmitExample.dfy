/** A program with a range CASE in front of a simple one: both are reported, one is replaced. */
module CaseEmitExample {
  import opened CaseOrder
  import opened CaseSteps
  import opened CaseOperands
  import opened CaseDetect
  import opened CaseEmit
  import opened CaseExact
  import CaseRange
  import CaseRangeExample

  function RangeShape(): (p: CaseRangeExample.Shape)
    ensures CaseRangeExample.ShapeOk(p)
  {
    CaseRangeExample.Shape([0, 10, 20, 30, 40], false, false, false)
  }

  /** Where the simple CASE starts. */
  const SIMPLE := 37

  /** Step o of its branch b: 'WHEN z < 10 * b + 10 THEN b'. */
  function SimpleStep(b: nat, o: nat): Step {
    match o
    case 0 => Var(InnerVar, 2, 8)
    case 1 => FuncStrict(Fn(LT, I32, 0), At(8), Fixed(Nullable(10 * b + 10, false)), 0, 7)
    case 2 => JumpIfNotTrue(7, SIMPLE + 5 * b + 5)
    case 3 => Const(Nullable(b, false), 7)
    case _ => Jump(58)
  }

  function SimpleSteps(): (steps: seq<Step>)
    ensures |steps| == 21
  {
    seq(21, k requires 0 <= k < 21 => if k == 20 then Const(Nullable(99, false), 7) else SimpleStep(k / 5, k % 5))
  }

  function Program(): (steps: seq<Step>)
    ensures |steps| == 58
  {
    CaseRangeExample.Example(RangeShape()) + SimpleSteps()
  }

  predicate SimpleBranch(steps: seq<Step>, b: nat)
    requires |steps| == 58 && b < 4
  {
    forall o: nat | o < 5 :: steps[SIMPLE + 5 * b + o] == SimpleStep(b, o)
  }

  predicate IsBoth(steps: seq<Step>) {
    && CaseRangeExample.IsExample(steps, RangeShape()) && |steps| == 58
    && (forall b: nat | b < 4 :: SimpleBranch(steps, b))
    && steps[57] == Const(Nullable(99, false), 7)
  }

  /** Where a step may go on to, when it is step k. */
  predicate GoesOn(step: Step, k: nat) {
    match step
    case JumpIfNotTrue(_, target) => target > k
    case Jump(target) => target > k
    case Qual(_, target) => target > k
    case AndFirst(_, _, target) => target > k
    case And(_, _, target) => target > k
    case Test(_, target) => target > k
    case _ => true
  }

  lemma ForwardIs(steps: seq<Step>)
    ensures Forward(steps) <==> forall k: nat | k < |steps| :: GoesOn(steps[k], k)
  {
  }

  lemma SimpleGoesOn(k: nat)
    requires k < 21
    ensures GoesOn(SimpleSteps()[k], SIMPLE + k)
  {
  }

  lemma ProgramForward()
    ensures Forward(Program())
  {
    var range := CaseRangeExample.Example(RangeShape());
    CaseRangeExample.ExampleForward(RangeShape());
    ForwardIs(range);
    forall k: nat | k < 58 ensures GoesOn(Program()[k], k) {
      if k < SIMPLE {
        assert Program()[k] == range[k];
      } else {
        SimpleGoesOn(k - SIMPLE);
      }
    }
    ForwardIs(Program());
  }

  /** What was said of the range CASE holds with more steps behind it. */
  lemma RangeStays(steps: seq<Step>, rest: seq<Step>, p: CaseRangeExample.Shape)
    requires CaseRangeExample.IsExample(steps, p) && Forward(steps + rest)
    ensures CaseRangeExample.IsExample(steps + rest, p)
  {
    forall b: nat | b < 4 ensures CaseRangeExample.ExampleBranch(steps + rest, p, b) {
      assert CaseRangeExample.ExampleBranch(steps, p, b);
    }
  }

  lemma ProgramIsBoth()
    ensures IsBoth(Program())
  {
    CaseRangeExample.ExampleIs(RangeShape());
    ProgramForward();
    RangeStays(CaseRangeExample.Example(RangeShape()), SimpleSteps(), RangeShape());
    forall b: nat | b < 4 ensures SimpleBranch(Program(), b) {
      SimpleIs(b);
    }
    assert Program()[57] == SimpleSteps()[20];
  }

  lemma SimpleIs(b: nat)
    requires b < 4
    ensures SimpleBranch(Program(), b)
  {
    forall o: nat | o < 5 ensures Program()[SIMPLE + 5 * b + o] == SimpleStep(b, o) {
      assert (5 * b + o) / 5 == b && (5 * b + o) % 5 == o;
      assert Program()[SIMPLE + 5 * b + o] == SimpleSteps()[5 * b + o];
    }
  }

  // ---- It is found ----

  lemma NotSimpleIn(steps: seq<Step>, b: nat, o: nat)
    requires IsBoth(steps) && b < 4 && o < 9
    ensures !BranchAt(steps, 9 * b + o)
  {
    assert CaseRangeExample.ExampleBranch(steps, RangeShape(), b);
  }

  /** No step of the range CASE looks like a simple branch. */
  lemma NotSimple(steps: seq<Step>, x: nat)
    requires IsBoth(steps) && x < SIMPLE
    ensures !BranchAt(steps, x)
  {
    if x < 36 {
      NotSimpleIn(steps, x / 9, x % 9);
    }
  }

  lemma {:induction false} SkipsRange(w: World, steps: seq<Step>, x: nat, max: nat)
    requires IsBoth(steps) && x <= SIMPLE && max > 0
    ensures FirstPass(w, steps, x, max) == FirstPass(w, steps, SIMPLE, max)
    decreases SIMPLE - x
  {
    if x < SIMPLE {
      NotSimple(steps, x);
      SkipsRange(w, steps, x + 1, max);
    }
  }

  lemma SimpleKind(steps: seq<Step>, b: nat)
    requires IsBoth(steps) && b < 4
    ensures BranchAt(steps, SIMPLE) && BranchOf(steps, SIMPLE, b)
    ensures Threshold(steps, SIMPLE, b) == 10 * b + 10 && steps[SIMPLE + 1].fn == Fn(LT, I32, 0)
    ensures steps[SIMPLE + 2].target == SIMPLE + 5 && steps[SIMPLE + 4].target == 58
  {
    assert SimpleBranch(steps, 0) && SimpleBranch(steps, b);
    forall o: nat | o < 5
      ensures steps[SIMPLE + 5 * b + o] == SimpleStep(b, o) && steps[SIMPLE + o] == SimpleStep(0, o)
    {
      assert steps[SIMPLE + 5 * 0 + o] == SimpleStep(0, o);
    }
    var i := SIMPLE + STRIDE * b;
    assert steps[i + 0] == SimpleStep(b, 0) && steps[i + 1] == SimpleStep(b, 1) && steps[i + 2] == SimpleStep(b, 2);
    assert steps[i + 3] == SimpleStep(b, 3) && steps[i + 4] == SimpleStep(b, 4);
    assert steps[SIMPLE + 0] == SimpleStep(0, 0) && steps[SIMPLE + 1] == SimpleStep(0, 1);
    assert steps[SIMPLE + 2] == SimpleStep(0, 2) && steps[SIMPLE + 3] == SimpleStep(0, 3);
    assert steps[SIMPLE + 4] == SimpleStep(0, 4);
  }

  lemma SimpleLength(steps: seq<Step>)
    requires IsBoth(steps) && BranchAt(steps, SIMPLE)
    ensures ChainLength(steps, SIMPLE, 1) == 4
  {
    forall b: nat | b < 4 ensures BranchOf(steps, SIMPLE, b) {
      SimpleKind(steps, b);
    }
    assert !BranchOf(steps, SIMPLE, 4);
    assert ChainLength(steps, SIMPLE, 4) == 4 && ChainLength(steps, SIMPLE, 3) == 4;
    assert ChainLength(steps, SIMPLE, 2) == 4;
  }

  lemma SimpleFound(w: World, steps: seq<Step>)
    requires IsBoth(steps) && w.direct(Fn(LT, I32, 0))
    ensures LookAt(w, steps, SIMPLE).Found? && LookAt(w, steps, SIMPLE).info.end == 58
  {
    SimpleKind(steps, 0);
    SimpleLength(steps);
    forall b: nat | b < 4 ensures BranchOf(steps, SIMPLE, b) && Threshold(steps, SIMPLE, b) == 10 * b + 10 {
      SimpleKind(steps, b);
    }
    SimplePasses(w, steps);
  }

  lemma TensInOrder(w: World, coll: nat, k: nat)
    requires 0 < k < 4
    ensures NeighboursOk(Fn(LT, I32, 0), OrderOf(w, Fn(LT, I32, 0), coll), 10 * k, 10 * k + 10)
  {
    HoldsByRank(w, Fn(LT, I32, 0), coll, 10 * k, 10 * k + 10);
    SmallKey(10 * k);
    SmallKey(10 * k + 10);
  }

  lemma SimplePasses(w: World, steps: seq<Step>)
    requires Chain(steps, SIMPLE, 4) && steps[SIMPLE + 1].fn == Fn(LT, I32, 0)
    requires forall b: nat | b < 4 :: BranchOf(steps, SIMPLE, b) && Threshold(steps, SIMPLE, b) == 10 * b + 10
    ensures var fn := steps[SIMPLE + 1].fn;
            CheckFrom(fn, OrderOf(w, fn, BranchCollation(steps, SIMPLE, 0)), ChainThresholds(steps, SIMPLE, 4),
                      NullWords(steps, SIMPLE, 4), 1).Passes?
  {
    var fn := steps[SIMPLE + 1].fn;
    var le := OrderOf(w, fn, BranchCollation(steps, SIMPLE, 0));
    PassesWhen(steps, SIMPLE, 4, fn, le);
    forall k | 0 < k < 4
      ensures NeighboursOk(fn, le, ChainThresholds(steps, SIMPLE, 4)[k - 1], ChainThresholds(steps, SIMPLE, 4)[k])
    {
      assert ChainThresholds(steps, SIMPLE, 4)[k - 1] == 10 * k && ChainThresholds(steps, SIMPLE, 4)[k] == 10 * k + 10;
      TensInOrder(w, BranchCollation(steps, SIMPLE, 0), k);
    }
  }

  lemma BothFound(w: World, steps: seq<Step>)
    requires ValidWorld(w) && IsBoth(steps) && w.direct(Fn(LT, I32, 0))
    ensures CaseRange.LookAtRange(steps, 0).Found?
    ensures FirstList(w, steps, 16) == [Site(SIMPLE, 58)]
  {
    CaseRangeExample.ExampleReported(steps, RangeShape());
    SkipsRange(w, steps, 0, 16);
    SimpleFound(w, steps);
    FoundIsDetected(w, steps, SIMPLE);
    assert FirstPass(w, steps, 58, 15) == [];
    assert FirstPass(w, steps, SIMPLE, 16) == [LookAt(w, steps, SIMPLE).info];
  }

  /** The simple CASE is first in the list, the range CASE second; the emitter is behind the range
      CASE when it waits for it. */
  lemma RangeInFrontExample(w: World)
    requires ValidWorld(w) && w.direct(Fn(LT, I32, 0))
    ensures Forward(Program()) && CaseRange.LookAtRange(Program(), 0).Found?
    ensures var sites := Sites(w, Program(), 16);
            && WellSited(sites) && |sites| > 1 && sites[0] == Site(SIMPLE, 58) && sites[1].start == 0
            && Reached(sites, 58, 0, 0) == 1
  {
    ProgramIsBoth();
    BothLost(w, Program());
  }

  lemma BothLost(w: World, steps: seq<Step>)
    requires ValidWorld(w) && IsBoth(steps) && w.direct(Fn(LT, I32, 0))
    ensures CaseRange.LookAtRange(steps, 0).Found?
    ensures var sites := Sites(w, steps, 16);
            && WellSited(sites) && |sites| > 1 && sites[0] == Site(SIMPLE, 58) && sites[1].start == 0
            && Reached(sites, 58, 0, 0) == 1
  {
    BothFound(w, steps);
    RangeInFrontIsLost(w, steps, 16);
    RangeIsSecond(steps, 15);
  }
}
