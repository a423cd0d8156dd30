/** Four programs that the second detection pass reports and whose rewritten form is wrong. */
module CaseRangeExample {
  import opened CaseOrder
  import opened CaseSteps
  import opened CaseOperands
  import opened CaseRange
  import opened CaseRangeSearch
  import opened CaseRangeRuns
  import opened CaseRangeExact
  import opened Wrappers

  // ---- The programs ----

  /** Where the ELSE constant stands. */
  function ElseOf(longer: bool): nat {
    if longer then 37 else 36
  }

  /** Where branch b ends. */
  function NextOf(longer: bool, b: nat): nat {
    if b == 3 then ElseOf(longer) else 9 * b + 9
  }

  /** Four branches 'x >= bounds[b] AND x < bounds[b + 1]' with results 10, 11, 12, 13, and ELSE 99.
      The last THEN may go on behind its constant; the first range may stand behind other
      conjuncts; the first comparison may be '5 >= x'. */
  datatype Shape = Shape(bounds: seq<int>, longer: bool, mid: bool, swapped: bool)

  predicate ShapeOk(p: Shape) {
    && |p.bounds| == 5 && (forall k | 0 <= k < 5 :: 0 <= p.bounds[k] < 100)
    && (p.swapped ==> p.bounds[0] == 0)
  }

  function ExampleStep(p: Shape, k: nat): Step
    requires ShapeOk(p)
  {
    if p.longer && k == 35 then Other(0, 0)
    else if p.longer && k == 36 then Jump(38)
    else if k >= 36 then Const(Nullable(99, false), 0)
    else
      var b := if k < 9 then 0 else if k < 18 then 1 else if k < 27 then 2 else 3;
      BranchStep(p, b, k - 9 * b)
  }

  /** Step o of branch b. */
  function BranchStep(p: Shape, b: nat, o: nat): Step
    requires ShapeOk(p) && b < 4
  {
    match o
    case 0 => Var(InnerVar, 1, 1)
    case 1 => LowerStep(p, b)
    case 2 => AndOf(p, b)
    case 3 => Var(InnerVar, 1, 1)
    case 4 => FuncStrict(Fn(LT, I32, 0), At(1), Fixed(Nullable(p.bounds[b + 1], false)), 0, 0)
    case 5 => AndLast(0, 3)
    case 6 => JumpIfNotTrue(0, NextOf(p.longer, b))
    case 7 => Const(Nullable(10 + b, false), if p.longer && b == 3 then 4 else 0)
    case _ => Jump(ElseOf(p.longer) + 1)
  }

  function LowerStep(p: Shape, b: nat): Step
    requires ShapeOk(p) && b < 4
  {
    if p.swapped && b == 0 then FuncStrict(Fn(GE, I32, 0), Fixed(Nullable(5, false)), At(1), 0, 0)
    else FuncStrict(Fn(GE, I32, 0), At(1), Fixed(Nullable(p.bounds[b], false)), 0, 0)
  }

  function AndOf(p: Shape, b: nat): Step {
    if p.mid && b == 0 then And(0, 3, 6) else AndFirst(0, 3, 9 * b + 6)
  }

  function Example(p: Shape): (steps: seq<Step>)
    requires ShapeOk(p)
    ensures |steps| == ElseOf(p.longer) + 1
  {
    seq(ElseOf(p.longer) + 1, k requires 0 <= k < ElseOf(p.longer) + 1 => ExampleStep(p, k))
  }

  /** Branch b of such a program, step by step. */
  predicate ExampleBranch(steps: seq<Step>, p: Shape, b: nat)
    requires ShapeOk(p) && b < 4
  {
    && |steps| > ElseOf(p.longer)
    && LowerSteps(steps, p, b)
    && UpperSteps(steps, p, b)
    && ThenSteps(steps, p, b)
  }

  predicate LowerSteps(steps: seq<Step>, p: Shape, b: nat)
    requires ShapeOk(p) && b < 4 && |steps| >= 37
  {
    steps[9 * b] == Var(InnerVar, 1, 1) && steps[9 * b + 1] == LowerStep(p, b) && steps[9 * b + 2] == AndOf(p, b)
  }

  predicate UpperSteps(steps: seq<Step>, p: Shape, b: nat)
    requires ShapeOk(p) && b < 4 && |steps| >= 37
  {
    && steps[9 * b + 3] == Var(InnerVar, 1, 1)
    && steps[9 * b + 4] == FuncStrict(Fn(LT, I32, 0), At(1), Fixed(Nullable(p.bounds[b + 1], false)), 0, 0)
    && steps[9 * b + 5] == AndLast(0, 3)
    && steps[9 * b + 6] == JumpIfNotTrue(0, NextOf(p.longer, b))
  }

  predicate ThenSteps(steps: seq<Step>, p: Shape, b: nat)
    requires b < 4 && |steps| > ElseOf(p.longer)
  {
    && steps[9 * b + 7] == Const(Nullable(10 + b, false), if p.longer && b == 3 then 4 else 0)
    && (p.longer && b == 3 ==> steps[9 * b + 8] == Other(0, 0))
    && steps[NextOf(p.longer, b) - 1] == Jump(ElseOf(p.longer) + 1)
  }

  /** All that matters about such a program; more steps may follow. */
  predicate IsExample(steps: seq<Step>, p: Shape) {
    && ShapeOk(p)
    && |steps| > ElseOf(p.longer)
    && (forall b: nat | b < 4 :: ExampleBranch(steps, p, b))
    && steps[ElseOf(p.longer)] == Const(Nullable(99, false), 0)
    && Forward(steps)
  }

  lemma ExampleIs(p: Shape)
    requires ShapeOk(p)
    ensures IsExample(Example(p), p)
  {
    ExampleForward(p);
    forall b: nat | b < 4 ensures ExampleBranch(Example(p), p, b) {
      ExampleIsBranch(p, b);
    }
  }

  lemma ExampleForward(p: Shape)
    requires ShapeOk(p)
    ensures Forward(Example(p))
  {
  }

  lemma ExampleIsBranch(p: Shape, b: nat)
    requires ShapeOk(p) && b < 4
    ensures ExampleBranch(Example(p), p, b)
  {
    ExampleLower(p, b);
    ExampleUpper(p, b);
    ExampleThen(p, b);
  }

  lemma BranchIndex(p: Shape, b: nat, o: nat)
    requires ShapeOk(p) && b < 4 && o < 8
    ensures ExampleStep(p, 9 * b + o) == BranchStep(p, b, o)
  {
    assert b == 0 || b == 1 || b == 2 || b == 3;
  }

  lemma ExampleStepIs(p: Shape, b: nat, o: nat)
    requires ShapeOk(p) && b < 4 && o < 8
    ensures Example(p)[9 * b + o] == BranchStep(p, b, o)
  {
    var k := 9 * b + o;
    assert k < ElseOf(p.longer) + 1;
    BranchIndex(p, b, o);
  }

  lemma ExampleLower(p: Shape, b: nat)
    requires ShapeOk(p) && b < 4
    ensures LowerSteps(Example(p), p, b)
  {
    ExampleStepIs(p, b, 0);
    ExampleStepIs(p, b, 1);
    ExampleStepIs(p, b, 2);
  }

  lemma ExampleUpper(p: Shape, b: nat)
    requires ShapeOk(p) && b < 4
    ensures UpperSteps(Example(p), p, b)
  {
    ExampleStepIs(p, b, 3);
    ExampleStepIs(p, b, 4);
    ExampleStepIs(p, b, 5);
    ExampleStepIs(p, b, 6);
  }

  lemma ExampleThen(p: Shape, b: nat)
    requires ShapeOk(p) && b < 4
    ensures ThenSteps(Example(p), p, b)
  {
    ExampleStepIs(p, b, 7);
  }

  // ---- They are reported ----

  lemma ExampleAt(steps: seq<Step>, p: Shape, b: nat)
    requires IsExample(steps, p) && b < 4
    ensures WhenAt(steps, 9 * b)
    ensures LowKey(steps, I32, 9 * b) == p.bounds[b] && HighKey(steps, I32, 9 * b) == p.bounds[b + 1]
  {
    assert ExampleBranch(steps, p, b);
    SmallKey(p.bounds[b]);
    SmallKey(p.bounds[b + 1]);
  }

  lemma ExampleWhen(steps: seq<Step>, p: Shape, b: nat)
    requires IsExample(steps, p) && b < 4
    ensures WhenAt(steps, 9 * b) && HeadAt(steps, 0) && SameWhen(steps, 0, 9 * b)
    ensures LowKey(steps, I32, 9 * b) == p.bounds[b] && HighKey(steps, I32, 9 * b) == p.bounds[b + 1]
  {
    ExampleAt(steps, p, 0);
    ExampleAt(steps, p, b);
    assert ExampleBranch(steps, p, b) && ExampleBranch(steps, p, 0);
  }

  lemma ExampleJump(steps: seq<Step>, p: Shape, b: nat, end: Option<nat>)
    requires IsExample(steps, p) && b < 4 && WhenAt(steps, 9 * b)
    requires end.None? || end.value == ElseOf(p.longer) + 1
    ensures BranchJump(steps, 9 * b, end) == Some(NextOf(p.longer, b) - 1)
  {
    assert ExampleBranch(steps, p, b);
    var e := NextOf(p.longer, b) - 1;
    var limit := ThenLimit(steps, 9 * b);
    assert FindJump(steps, e, limit, end) == e;
    assert FindJump(steps, 9 * b + 8, limit, end) == e;
  }

  /** Where branch b starts, or the ELSE. */
  function StartOf(longer: bool, b: nat): nat {
    if b == 4 then ElseOf(longer) else 9 * b
  }

  function StartsFrom(longer: bool, b: nat): seq<nat>
    requires b <= 4
    decreases 4 - b
  {
    if b == 4 then [ElseOf(longer)] else [9 * b] + StartsFrom(longer, b + 1)
  }

  /** From branch b on the further branches are found one after the other. */
  lemma {:induction false} ExampleMore(steps: seq<Step>, p: Shape, b: nat)
    requires IsExample(steps, p) && b <= 4 && HeadAt(steps, 0)
    ensures MoreStarts(steps, 0, StartOf(p.longer, b), b, ElseOf(p.longer) + 1) == StartsFrom(p.longer, b)
    decreases 4 - b
  {
    if b == 4 {
      assert !WhenAt(steps, ElseOf(p.longer));
    } else {
      ExampleNext(steps, p, b);
      ExampleMore(steps, p, b + 1);
    }
  }

  lemma ExampleNext(steps: seq<Step>, p: Shape, b: nat)
    requires IsExample(steps, p) && b < 4 && HeadAt(steps, 0)
    ensures MoreStarts(steps, 0, 9 * b, b, ElseOf(p.longer) + 1) ==
            [9 * b] + MoreStarts(steps, 0, StartOf(p.longer, b + 1), b + 1, ElseOf(p.longer) + 1)
  {
    ExampleWhen(steps, p, b);
    ExampleJump(steps, p, b, Some(ElseOf(p.longer) + 1));
  }

  lemma ExampleStarts(steps: seq<Step>, p: Shape)
    requires IsExample(steps, p) && HeadAt(steps, 0)
    ensures BranchJump(steps, 0, None) == Some(8) && steps[8] == Jump(ElseOf(p.longer) + 1)
    ensures Starts(steps, 0) == [0, 9, 18, 27, ElseOf(p.longer)]
  {
    ExampleJump(steps, p, 0, None);
    assert ExampleBranch(steps, p, 0);
    ExampleMore(steps, p, 1);
    assert StartsFrom(p.longer, 3) == [27, ElseOf(p.longer)] && StartsFrom(p.longer, 2) == [18, 27, ElseOf(p.longer)];
    assert StartsFrom(p.longer, 1) == [9, 18, 27, ElseOf(p.longer)];
  }

  function ExampleInfo(p: Shape): RangeInfo
    requires ShapeOk(p)
  {
    RangeInfo(0, [0, 9, 18, 27, ElseOf(p.longer)], ElseOf(p.longer) + 1, I32, false, p.bounds[0],
              [p.bounds[1], p.bounds[2], p.bounds[3], p.bounds[4]], [10, 11, 12, 13], 99)
  }

  lemma ExampleReported(steps: seq<Step>, p: Shape)
    requires IsExample(steps, p)
    ensures HeadAt(steps, 0) && LookAtRange(steps, 0) == Found(ExampleInfo(p))
  {
    ExampleWhen(steps, p, 0);
    ExampleStarts(steps, p);
    ExampleBuilt(steps, p);
  }

  lemma ExampleData(steps: seq<Step>, p: Shape, k: nat)
    requires IsExample(steps, p) && k < 4
    ensures var s := ExampleInfo(p).starts[k];
            && WhenAt(steps, s) && LowKey(steps, I32, s) == p.bounds[k] && HighKey(steps, I32, s) == p.bounds[k + 1]
            && steps[s + WHEN_LEN].Const? && steps[s + WHEN_LEN].value == Nullable(10 + k, false)
  {
    assert ExampleInfo(p).starts[k] == 9 * k;
    ExampleWhen(steps, p, k);
    assert ExampleBranch(steps, p, k);
  }

  lemma ExampleChecks(steps: seq<Step>, p: Shape)
    requires IsExample(steps, p) && AllWhen(steps, ExampleInfo(p).starts)
    ensures Contiguous(steps, I32, false, ExampleInfo(p).starts)
    ensures ConstThens(steps, ExampleInfo(p).starts)
  {
    var starts := ExampleInfo(p).starts;
    forall k: nat | k < 4
      ensures LowKey(steps, I32, starts[k]) == p.bounds[k] && HighKey(steps, I32, starts[k]) == p.bounds[k + 1]
      ensures steps[starts[k] + WHEN_LEN].Const? && !steps[starts[k] + WHEN_LEN].value.isnull
    {
      ExampleData(steps, p, k);
    }
  }

  /** What passes the checks is reported as it stands. */
  lemma BuildsInfo(steps: seq<Step>, starts: seq<nat>, info: RangeInfo)
    requires HeadAt(steps, info.start) && AllWhen(steps, starts) && info.starts == starts
    requires |starts| == |info.uppers| + 1 == |info.results| + 1 && |info.uppers| >= MIN_RANGES
    requires info.repr == steps[info.start + 4].fn.repr && info.inclusive == (steps[info.start + 4].fn.kind == LE)
    requires info.low == LowKey(steps, info.repr, info.start)
    requires Contiguous(steps, info.repr, info.inclusive, starts) && ConstThens(steps, starts)
    requires var j := starts[|starts| - 1];
             j < |steps| && steps[j].Const? && steps[j].value == Nullable(info.default, false)
    requires forall k | 0 <= k < |info.uppers| ::
               info.uppers[k] == UpperKey(steps, info.repr, info.inclusive, starts[k]) &&
               info.results[k] == steps[starts[k] + WHEN_LEN].value.value
    ensures BuildRange(steps, info.start, info.end, starts) == Found(info)
  {
    var built := BuildRange(steps, info.start, info.end, starts).info;
    assert built.uppers == info.uppers;
    assert built.results == info.results;
  }

  lemma ExampleBuilt(steps: seq<Step>, p: Shape)
    requires IsExample(steps, p) && HeadAt(steps, 0)
    requires AllWhen(steps, ExampleInfo(p).starts)
    ensures BuildRange(steps, 0, ElseOf(p.longer) + 1, ExampleInfo(p).starts) == Found(ExampleInfo(p))
  {
    var info := ExampleInfo(p);
    ExampleFits(steps, p);
    ExampleChecks(steps, p);
    BuildsInfo(steps, info.starts, info);
  }

  lemma ExampleFits(steps: seq<Step>, p: Shape)
    requires IsExample(steps, p) && HeadAt(steps, 0) && AllWhen(steps, ExampleInfo(p).starts)
    ensures var info := ExampleInfo(p);
            && steps[4].fn == Fn(LT, I32, 0) && LowKey(steps, I32, 0) == p.bounds[0]
            && steps[ElseOf(p.longer)] == Const(Nullable(99, false), 0)
            && forall k | 0 <= k < 4 ::
                 info.uppers[k] == UpperKey(steps, I32, false, info.starts[k]) &&
                 steps[info.starts[k] + WHEN_LEN].Const? &&
                 info.results[k] == steps[info.starts[k] + WHEN_LEN].value.value
  {
    var info := ExampleInfo(p);
    forall k | 0 <= k < 4
      ensures info.uppers[k] == UpperKey(steps, I32, false, info.starts[k])
      ensures steps[info.starts[k] + WHEN_LEN].Const? && info.results[k] == steps[info.starts[k] + WHEN_LEN].value.value
    {
      ExampleData(steps, p, k);
    }
    ExampleData(steps, p, 0);
    assert ExampleBranch(steps, p, 0);
  }

  lemma ExampleWired(steps: seq<Step>, p: Shape)
    requires IsExample(steps, p)
    ensures Pattern(steps, ExampleInfo(p)) && AllWired(steps, ExampleInfo(p), 0)
  {
    var info := ExampleInfo(p);
    ExampleReported(steps, p);
    ReportedIsPattern(steps, info);
    forall k: nat | k < 4 ensures RangeBranchWired(steps, info, k, 0) {
      ExampleBranchWired(steps, p, k);
    }
  }

  lemma ExampleBranchWired(steps: seq<Step>, p: Shape, k: nat)
    requires IsExample(steps, p) && k < 4
    ensures RangeBranchWired(steps, ExampleInfo(p), k, 0)
  {
    var info := ExampleInfo(p);
    assert info.starts[k] == 9 * k && info.starts[k + 1] == NextOf(p.longer, k);
    ExampleWhen(steps, p, k);
    assert ExampleBranch(steps, p, k);
  }

  // ---- What they do ----

  lemma SmallHolds(w: World, kind: CmpKind, a: int, t: int)
    requires 0 <= a < 100 && 0 <= t < 100
    ensures Holds(kind, OrderOf(w, Fn(kind, I32, 0), 0), a, t) <==> RankHolds(kind, a, t)
  {
    HoldsByRank(w, Fn(kind, I32, 0), 0, a, t);
  }

  lemma ExampleLowerHolds(w: World, steps: seq<Step>, p: Shape, k: nat, v: Nullable, y: Nullable)
    requires IsExample(steps, p) && k < 4 && WhenAt(steps, 9 * k) && !v.isnull && 0 <= v.value < 100
    ensures LowerHolds(w, steps, 9 * k, v, y) <==>
            if p.swapped && k == 0 then v.value <= 5 else p.bounds[k] <= v.value
  {
    assert ExampleBranch(steps, p, k);
    SmallHolds(w, GE, v.value, p.bounds[k]);
    SmallHolds(w, GE, 5, v.value);
  }

  lemma ExampleUpperHolds(w: World, steps: seq<Step>, p: Shape, k: nat, v: Nullable, y: Nullable)
    requires IsExample(steps, p) && k < 4 && WhenAt(steps, 9 * k) && !v.isnull && 0 <= v.value < 100
    ensures UpperHolds(w, steps, 9 * k, v, y) <==> v.value < p.bounds[k + 1]
  {
    assert ExampleBranch(steps, p, k);
    SmallHolds(w, LT, v.value, p.bounds[k + 1]);
  }

  /** Branch k applies to the values between its bounds. */
  lemma ExampleInside(w: World, steps: seq<Step>, p: Shape, k: nat, v: Nullable, y: Nullable, null0: bool)
    requires IsExample(steps, p) && k < 4 && Pattern(steps, ExampleInfo(p)) && !v.isnull && 0 <= v.value < 100
    ensures InsideBranch(w, steps, ExampleInfo(p), k, v, y, null0) <==>
            && (if p.swapped && k == 0 then v.value <= 5 else p.bounds[k] <= v.value)
            && v.value < p.bounds[k + 1] && !(k == 0 && null0)
  {
    assert ExampleInfo(p).starts[k] == 9 * k;
    ExampleWhen(steps, p, k);
    ExampleLowerHolds(w, steps, p, k, v, y);
    ExampleUpperHolds(w, steps, p, k, v, y);
  }

  /** The value of the steps is that of the first branch that applies, or of the ELSE. */
  lemma ExampleRuns(w: World, env: Env, steps: seq<Step>, p: Shape, cells: Cells, x: int, null0: bool, k: nat,
                    value: Nullable)
    requires IsExample(steps, p) && env.vars(InnerVar, 1) == Nullable(x, false) && 0 <= x < 100 && 0 < k <= 4
    requires null0 == (p.mid && IsTrue(Get(cells, 3)))
    requires (if p.swapped then x > 5 else x < p.bounds[0]) || x >= p.bounds[1] || null0
    requires forall m | 1 <= m < k :: !(p.bounds[m] <= x < p.bounds[m + 1])
    requires k < 4 ==> p.bounds[k] <= x < p.bounds[k + 1]
    ensures var r := Get(RunTo(w, env, steps, 0, ElseOf(p.longer) + 1, cells).1, 0);
            && (!(p.longer && k == 3) ==> r == Nullable(if k == 4 then 99 else 10 + k, false))
            && (p.longer && k == 3 && (forall id, c :: env.other(id, c) == value) ==> r == value)
  {
    var info, y := ExampleInfo(p), Nullable(0, true);
    ExampleWired(steps, p);
    assert ExampleBranch(steps, p, 0);
    ExampleTaken(w, steps, p, Nullable(x, false), y, null0, 0, k);
    ExampleOpen(steps, p, k);
    TakenRuns(w, env, steps, info, 0, 0, k, cells, y, null0, value);
  }

  lemma {:induction false} ExampleTaken(w: World, steps: seq<Step>, p: Shape, v: Nullable, y: Nullable, null0: bool,
                                        m: nat, k: nat)
    requires IsExample(steps, p) && Pattern(steps, ExampleInfo(p)) && !v.isnull && 0 <= v.value < 100
    requires m <= k <= 4 && k > 0
    requires (if p.swapped then v.value > 5 else v.value < p.bounds[0]) || v.value >= p.bounds[1] || null0
    requires forall o | 1 <= o < k :: !(p.bounds[o] <= v.value < p.bounds[o + 1])
    requires k < 4 ==> p.bounds[k] <= v.value < p.bounds[k + 1]
    ensures Taken(w, steps, ExampleInfo(p), v, y, null0, m) == k
    decreases k - m
  {
    if m < 4 {
      ExampleInside(w, steps, p, m, v, y, null0);
    }
    if m < k {
      ExampleTaken(w, steps, p, v, y, null0, m + 1, k);
    }
  }

  lemma ExampleOpen(steps: seq<Step>, p: Shape, k: nat)
    requires IsExample(steps, p) && k <= 4
    requires Pattern(steps, ExampleInfo(p)) && AllWired(steps, ExampleInfo(p), 0)
    ensures IsExact(ExampleInfo(p), k) <==> !(p.longer && k == 3)
    ensures PartOpen(steps, ExampleInfo(p), 0, k)
  {
    assert ExampleBranch(steps, p, if k < 4 then k else 0);
    PartOf(steps, ExampleInfo(p), 0, k);
  }

  /** Where an earlier conjunct was null. */
  lemma ExampleRemembers(w: World, env: Env, steps: seq<Step>, p: Shape, cells: Cells)
    requires IsExample(steps, p) && p.bounds == [0, 10, 20, 30, 40] && !p.longer && p.mid
    requires env.vars(InnerVar, 1) == Nullable(5, false) && IsTrue(Get(cells, 3))
    ensures Get(RunTo(w, env, steps, 0, 37, cells).1, 0) == Nullable(99, false)
  {
    ExampleRuns(w, env, steps, p, cells, 5, true, 4, Nullable(0, true));
  }

  /** Where control comes from an earlier conjunct that was false. */
  lemma ExampleEntry(w: World, env: Env, steps: seq<Step>, p: Shape, cells: Cells)
    requires IsExample(steps, p) && p.bounds == [0, 10, 20, 30, 40] && !p.longer
    requires env.vars(InnerVar, 1) == Nullable(5, false) && Get(cells, 0) == Bool(false)
    ensures Get(RunTo(w, env, steps, 6, 37, cells).1, 0) == Nullable(99, false)
  {
    var info, y := ExampleInfo(p), Nullable(0, true);
    ExampleWired(steps, p);
    assert ExampleBranch(steps, p, 0);
    var cells1 := EntryRuns(w, env, steps, info, 0, cells);
    ExampleTaken(w, steps, p, Nullable(5, false), y, true, 1, 4);
    ExampleOpen(steps, p, 4);
    TakenRuns(w, env, steps, info, 0, 1, 4, cells1, y, true, y);
  }

  lemma TensSearch(lows: seq<int>, uppers: seq<int>, x: int, k: nat)
    requires lows == [0, 10, 20, 30] && uppers == [10, 20, 30, 40] && k < 4 && lows[k] <= x < uppers[k]
    ensures Searched(0, uppers, x) == k
  {
    SearchFindsFirst(lows, uppers, x);
    FirstRangeIs(lows, uppers, x, k);
  }

  lemma ExampleSearch(p: Shape, x: int, k: nat)
    requires ShapeOk(p) && p.bounds == [0, 10, 20, 30, 40] && k < 4 && p.bounds[k] <= x < p.bounds[k + 1]
    ensures RewrittenValue(ExampleInfo(p), Nullable(x, false)) == 10 + k
  {
    SmallKey(x);
    TensSearch([0, 10, 20, 30], ExampleInfo(p).uppers, x, k);
  }

  lemma EmptySearch(p: Shape, x: int)
    requires ShapeOk(p) && 0 <= x < p.bounds[0]
    ensures RewrittenValue(ExampleInfo(p), Nullable(x, false)) == 99
  {
    SmallKey(x);
  }

  // ---- And what is wrong ----

  /** The pass checks that ranges are contiguous, not that they go upwards.  The first range here
      is [10, 5): the value 7 lies in [5, 20), the range of the second branch, but below 10, where
      the search starts from. */
  lemma EmptyRangeExample(w: World, env: Env, cells: Cells)
    requires env.vars(InnerVar, 1) == Nullable(7, false)
    ensures var steps := Example(Shape([10, 5, 20, 30, 40], false, false, false));
            && Forward(steps) && LookAtRange(steps, 0).Found?
            && RewrittenValue(LookAtRange(steps, 0).info, Nullable(7, false)) == 99
            && Get(RunTo(w, env, steps, 0, 37, cells).1, 0) == Nullable(11, false)
  {
    var p := Shape([10, 5, 20, 30, 40], false, false, false);
    ExampleIs(p);
    EmptyRangeRuns(w, env, Example(p), p, cells);
  }

  lemma EmptyRangeRuns(w: World, env: Env, steps: seq<Step>, p: Shape, cells: Cells)
    requires IsExample(steps, p) && p == Shape([10, 5, 20, 30, 40], false, false, false)
    requires env.vars(InnerVar, 1) == Nullable(7, false)
    ensures LookAtRange(steps, 0).Found?
    ensures RewrittenValue(LookAtRange(steps, 0).info, Nullable(7, false)) == 99
    ensures Get(RunTo(w, env, steps, 0, 37, cells).1, 0) == Nullable(11, false)
  {
    ExampleReported(steps, p);
    EmptySearch(p, 7);
    ExampleRuns(w, env, steps, p, cells, 7, false, 1, Nullable(0, true));
  }

  /** The pass looks at the first step of a THEN: for 35 the search finds the constant 13, and the
      steps go on and leave what the step behind it yields. */
  lemma LongerThenExample(w: World, env: Env, cells: Cells, value: Nullable)
    requires env.vars(InnerVar, 1) == Nullable(35, false) && forall id, c :: env.other(id, c) == value
    ensures var steps := Example(Shape([0, 10, 20, 30, 40], true, false, false));
            && Forward(steps) && LookAtRange(steps, 0).Found?
            && RewrittenValue(LookAtRange(steps, 0).info, Nullable(35, false)) == 13
            && Get(RunTo(w, env, steps, 0, 38, cells).1, 0) == value
  {
    var p := Shape([0, 10, 20, 30, 40], true, false, false);
    ExampleIs(p);
    LongerThenRuns(w, env, Example(p), p, cells, value);
  }

  lemma LongerThenRuns(w: World, env: Env, steps: seq<Step>, p: Shape, cells: Cells, value: Nullable)
    requires IsExample(steps, p) && p == Shape([0, 10, 20, 30, 40], true, false, false)
    requires env.vars(InnerVar, 1) == Nullable(35, false) && forall id, c :: env.other(id, c) == value
    ensures LookAtRange(steps, 0).Found?
    ensures RewrittenValue(LookAtRange(steps, 0).info, Nullable(35, false)) == 13
    ensures Get(RunTo(w, env, steps, 0, 38, cells).1, 0) == value
  {
    ExampleReported(steps, p);
    ExampleRuns(w, env, steps, p, cells, 35, false, 3, value);
    ExampleSearch(p, 35, 3);
  }

  /** The pass takes a range that stands behind other conjuncts, as in 'y > 3 AND x >= 0 AND
      x < 10'.  When an earlier conjunct was null, the branch fails for 5, and the search finds it;
      when one was false, control comes in at step 6, where the steps go on to 99. */
  lemma MidWhenExample(w: World, env: Env, cells: Cells)
    requires env.vars(InnerVar, 1) == Nullable(5, false)
    ensures var steps := Example(Shape([0, 10, 20, 30, 40], false, true, false));
            && Forward(steps) && LookAtRange(steps, 0).Found?
            && RewrittenValue(LookAtRange(steps, 0).info, Nullable(5, false)) == 10
            && (IsTrue(Get(cells, 3)) ==> Get(RunTo(w, env, steps, 0, 37, cells).1, 0) == Nullable(99, false))
            && (Get(cells, 0) == Bool(false) ==> Get(RunTo(w, env, steps, 6, 37, cells).1, 0) == Nullable(99, false))
  {
    var p := Shape([0, 10, 20, 30, 40], false, true, false);
    ExampleIs(p);
    MidWhenRuns(w, env, Example(p), p, cells);
  }

  lemma MidWhenRuns(w: World, env: Env, steps: seq<Step>, p: Shape, cells: Cells)
    requires IsExample(steps, p) && p == Shape([0, 10, 20, 30, 40], false, true, false)
    requires env.vars(InnerVar, 1) == Nullable(5, false)
    ensures LookAtRange(steps, 0).Found?
    ensures RewrittenValue(LookAtRange(steps, 0).info, Nullable(5, false)) == 10
    ensures IsTrue(Get(cells, 3)) ==> Get(RunTo(w, env, steps, 0, 37, cells).1, 0) == Nullable(99, false)
    ensures Get(cells, 0) == Bool(false) ==> Get(RunTo(w, env, steps, 6, 37, cells).1, 0) == Nullable(99, false)
  {
    ExampleReported(steps, p);
    ExampleSearch(p, 5, 0);
    if IsTrue(Get(cells, 3)) {
      ExampleRemembers(w, env, steps, p, cells);
    }
    if Get(cells, 0) == Bool(false) {
      ExampleEntry(w, env, steps, p, cells);
    }
  }

  /** The pass reads the second argument: '5 >= x AND x < 10' is taken for the range [0, 10).  For
      7 the search finds 10, and no branch of the steps applies. */
  lemma SwappedRangeExample(w: World, env: Env, cells: Cells)
    requires env.vars(InnerVar, 1) == Nullable(7, false)
    ensures var steps := Example(Shape([0, 10, 20, 30, 40], false, false, true));
            && Forward(steps) && LookAtRange(steps, 0).Found?
            && RewrittenValue(LookAtRange(steps, 0).info, Nullable(7, false)) == 10
            && Get(RunTo(w, env, steps, 0, 37, cells).1, 0) == Nullable(99, false)
  {
    var p := Shape([0, 10, 20, 30, 40], false, false, true);
    ExampleIs(p);
    SwappedRangeRuns(w, env, Example(p), p, cells);
  }

  lemma SwappedRangeRuns(w: World, env: Env, steps: seq<Step>, p: Shape, cells: Cells)
    requires IsExample(steps, p) && p == Shape([0, 10, 20, 30, 40], false, false, true)
    requires env.vars(InnerVar, 1) == Nullable(7, false)
    ensures LookAtRange(steps, 0).Found?
    ensures RewrittenValue(LookAtRange(steps, 0).info, Nullable(7, false)) == 10
    ensures Get(RunTo(w, env, steps, 0, 37, cells).1, 0) == Nullable(99, false)
  {
    ExampleReported(steps, p);
    ExampleSearch(p, 7, 0);
    ExampleRuns(w, env, steps, p, cells, 7, false, 4, Nullable(0, true));
  }
}
