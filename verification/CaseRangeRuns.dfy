/** Running a range CASE step by step. */
module CaseRangeRuns {
  import opened CaseOrder
  import opened CaseSteps
  import opened CaseOperands
  import opened CaseRange

  // ---- What the expression compiler emits ----

  /** A THEN or ELSE part: a constant at s, perhaps further steps up to m, and the end of the
      CASE or a jump to it. */
  predicate PartAt(steps: seq<Step>, s: nat, m: nat, end: nat, res: Cell) {
    && s < m <= |steps| && m <= end && steps[s].Const?
    && (m == s + 1 ==> steps[s].dst == res)
    && (m == end || (m < |steps| && steps[m].Jump? && steps[m].target == end))
  }

  predicate StaysIn(step: Step, m: nat) {
    match step
    case JumpIfNotTrue(_, target) => target < m
    case Jump(target) => target < m
    case Qual(_, target) => target < m
    case AndFirst(_, _, target) => target < m
    case And(_, _, target) => target < m
    case Test(_, target) => target < m
    case _ => true
  }

  /** A part that is longer than its constant ends with a step whose value is left open, and no
      step of it jumps behind that. */
  predicate OpenAt(steps: seq<Step>, s: nat, m: nat, res: Cell)
    requires s < m <= |steps|
  {
    m > s + 1 ==>
      && (forall x | s <= x < m - 1 :: StaysIn(steps[x], m))
      && steps[m - 1].Other? && steps[m - 1].dst == res
  }

  /** The steps of branch b: each comparison takes its load, both write the result cell, the AND
      steps meet at the jump, a failed branch goes on to `next`, and the THEN ends in front of it.
      The first range may stand behind other conjuncts of its WHEN. */
  predicate RangeWired(steps: seq<Step>, b: nat, next: nat, end: nat, res: Cell, first: bool)
    requires WhenAt(steps, b)
  {
    && TakesLoad(steps[b + 1].arg0, steps[b + 1].arg1, steps[b].dst, first)
    && TakesLoad(steps[b + 4].arg0, steps[b + 4].arg1, steps[b + 3].dst, false)
    && (steps[b + 2].AndFirst? || (first && steps[b + 2].And?)) && steps[b + 5].AndLast?
    && res == steps[b + 1].dst == steps[b + 2].res == steps[b + 4].dst == steps[b + 5].res == steps[b + 6].src
    && steps[b + 2].anynull == steps[b + 5].anynull
    && res !in {steps[b].dst, steps[b + 3].dst, steps[b + 2].anynull}
    && steps[b + 2].anynull !in {steps[b].dst, steps[b + 3].dst} && steps[b + 1].arg0 != At(steps[b + 2].anynull)
    && steps[b + 2].target == b + 6 && steps[b + 6].target == next
    && b + 9 <= next <= end && PartAt(steps, b + 7, next - 1, end, res)
  }

  predicate RangeBranchWired(steps: seq<Step>, info: RangeInfo, k: nat, res: Cell)
    requires k + 1 < |info.starts|
  {
    && WhenAt(steps, info.starts[k])
    && RangeWired(steps, info.starts[k], info.starts[k + 1], info.end, res, k == 0)
  }

  function ElseStart(info: RangeInfo): nat
    requires |info.starts| == |info.uppers| + 1
  {
    info.starts[|info.uppers|]
  }

  ghost predicate AllWired(steps: seq<Step>, info: RangeInfo, res: Cell)
    requires Pattern(steps, info)
  {
    && (forall k: nat | k < |info.uppers| :: RangeBranchWired(steps, info, k, res))
    && PartAt(steps, ElseStart(info), info.end, info.end, res)
  }

  /** Where the THEN of branch k starts, or the ELSE. */
  function PartStart(info: RangeInfo, k: nat): nat
    requires |info.starts| == |info.uppers| + 1 && k <= |info.uppers|
  {
    if k < |info.uppers| then info.starts[k] + WHEN_LEN else ElseStart(info)
  }

  /** Where part k ends. */
  function PartStop(info: RangeInfo, k: nat): int
    requires |info.starts| == |info.uppers| + 1 && k <= |info.uppers|
  {
    if k < |info.uppers| then info.starts[k + 1] - 1 else info.end
  }

  /** Part k is the recorded constant and no more.  The pass does not look at the step behind. */
  predicate IsExact(info: RangeInfo, k: nat)
    requires |info.starts| == |info.uppers| + 1 && k <= |info.uppers|
  {
    PartStop(info, k) == PartStart(info, k) + 1
  }

  // ---- The comparisons of a WHEN ----

  predicate LowerHolds(w: World, steps: seq<Step>, b: nat, v: Nullable, y: Nullable)
    requires WhenAt(steps, b)
  {
    var f := steps[b + 1];
    ArgsHold(w, f.fn, f.coll, f.arg0, f.arg1, steps[b].dst, v, y)
  }

  predicate UpperHolds(w: World, steps: seq<Step>, b: nat, v: Nullable, y: Nullable)
    requires WhenAt(steps, b)
  {
    var f := steps[b + 4];
    ArgsHold(w, f.fn, f.coll, f.arg0, f.arg1, steps[b + 3].dst, v, y)
  }

  /** An earlier conjunct of the same WHEN was null. */
  predicate Remembers(steps: seq<Step>, b: nat, cells: Cells)
    requires b + 2 < |steps|
  {
    steps[b + 2].And? && IsTrue(Get(cells, steps[b + 2].anynull))
  }

  predicate Inside(w: World, steps: seq<Step>, b: nat, v: Nullable, y: Nullable, null0: bool)
    requires WhenAt(steps, b)
  {
    LowerHolds(w, steps, b, v, y) && UpperHolds(w, steps, b, v, y) && !null0
  }

  /** Load and compare: when the result cell then holds true. */
  lemma Compare(w: World, env: Env, steps: seq<Step>, b: nat, stop: nat, cells: Cells, y: Nullable)
      returns (cells': Cells)
    requires Forward(steps) && b + 1 < |steps| && b + 1 < stop && steps[b].Var? && steps[b + 1].FuncStrict?
    requires TakesLoad(steps[b + 1].arg0, steps[b + 1].arg1, steps[b].dst, true)
    requires ArgsOther(steps[b + 1].arg0, steps[b].dst) ==> y == Argument(steps[b + 1].arg0, cells)
    ensures RunTo(w, env, steps, b, stop, cells) == RunTo(w, env, steps, b + 2, stop, cells')
    ensures var f := steps[b + 1];
            IsTrue(Get(cells', f.dst)) <==>
            ArgsHold(w, f.fn, f.coll, f.arg0, f.arg1, steps[b].dst, env.vars(steps[b].slot, steps[b].attnum), y)
    ensures forall c: Cell | c != steps[b].dst && c != steps[b + 1].dst :: Get(cells', c) == Get(cells, c)
  {
    var c1 := Exec(w, env, steps, b, cells).1;
    cells' := Exec(w, env, steps, b + 1, c1).1;
    assert RunTo(w, env, steps, b, stop, cells) == RunTo(w, env, steps, b + 1, stop, c1);
  }

  /** The lower comparison: false goes straight to the jump; the AND remembers a null. */
  lemma LowerHalf(w: World, env: Env, steps: seq<Step>, b: nat, next: nat, end: nat, res: Cell, first: bool,
                  cells: Cells, y: Nullable) returns (pc: nat, cells': Cells)
    requires Forward(steps) && WhenAt(steps, b) && RangeWired(steps, b, next, end, res, first)
    requires ArgsOther(steps[b + 1].arg0, steps[b].dst) ==> y == Argument(steps[b + 1].arg0, cells)
    ensures RunTo(w, env, steps, b, end, cells) == RunTo(w, env, steps, pc, end, cells') && pc in {b + 3, b + 6}
    ensures var holds := LowerHolds(w, steps, b, env.vars(steps[b].slot, steps[b].attnum), y);
            && (pc == b + 6 ==> !holds && !IsTrue(Get(cells', res)))
            && (pc == b + 3 ==> (IsTrue(Get(cells', steps[b + 2].anynull)) <==> !holds || Remembers(steps, b, cells)))
  {
    var c1 := Compare(w, env, steps, b, end, cells, y);
    pc, cells' := Exec(w, env, steps, b + 2, c1).0, Exec(w, env, steps, b + 2, c1).1;
    assert RunTo(w, env, steps, b + 2, end, c1) == RunTo(w, env, steps, pc, end, cells');
  }

  /** The upper comparison and the end of the AND. */
  lemma UpperHalf(w: World, env: Env, steps: seq<Step>, b: nat, next: nat, end: nat, res: Cell, first: bool,
                  cells: Cells, y: Nullable) returns (cells': Cells)
    requires Forward(steps) && WhenAt(steps, b) && RangeWired(steps, b, next, end, res, first)
    ensures RunTo(w, env, steps, b + 3, end, cells) == RunTo(w, env, steps, b + 6, end, cells')
    ensures IsTrue(Get(cells', res)) <==>
            && UpperHolds(w, steps, b, env.vars(steps[b + 3].slot, steps[b + 3].attnum), y)
            && !IsTrue(Get(cells, steps[b + 2].anynull))
  {
    var c4 := Compare(w, env, steps, b + 3, end, cells, y);
    cells' := Exec(w, env, steps, b + 5, c4).1;
    assert RunTo(w, env, steps, b + 5, end, c4) == RunTo(w, env, steps, b + 6, end, cells');
  }

  /** The WHEN part of a branch: on to the THEN, or to the next branch. */
  lemma WhenRuns(w: World, env: Env, steps: seq<Step>, b: nat, next: nat, end: nat, res: Cell, first: bool,
                 cells: Cells, y: Nullable) returns (cells': Cells)
    requires Forward(steps) && WhenAt(steps, b) && SameVar(steps[b], steps[b + 3])
    requires RangeWired(steps, b, next, end, res, first)
    requires ArgsOther(steps[b + 1].arg0, steps[b].dst) ==> y == Argument(steps[b + 1].arg0, cells)
    ensures var v := env.vars(steps[b].slot, steps[b].attnum);
            RunTo(w, env, steps, b, end, cells) ==
            RunTo(w, env, steps,
                  if Inside(w, steps, b, v, y, Remembers(steps, b, cells)) then b + 7 else next, end, cells')
  {
    var pc, c2 := LowerHalf(w, env, steps, b, next, end, res, first, cells, y);
    var c5 := c2;
    if pc == b + 3 {
      c5 := UpperHalf(w, env, steps, b, next, end, res, first, c2, y);
    }
    cells' := Exec(w, env, steps, b + 6, c5).1;
  }

  // ---- Which part is run ----

  /** The tested value. */
  function TestedValue(steps: seq<Step>, info: RangeInfo, env: Env): Nullable
    requires HeadAt(steps, info.start)
  {
    env.vars(steps[info.start].slot, steps[info.start].attnum)
  }

  /** Branch k applies, when another compared cell holds y and `null0` tells of an earlier null. */
  ghost predicate InsideBranch(w: World, steps: seq<Step>, info: RangeInfo, k: nat, v: Nullable, y: Nullable,
                               null0: bool)
    requires Pattern(steps, info) && k < |info.uppers|
  {
    assert BranchRecorded(steps, info, k);
    Inside(w, steps, info.starts[k], v, y, k == 0 && null0)
  }

  /** The branch the steps take, from branch k on; |uppers| is the ELSE. */
  ghost function Taken(w: World, steps: seq<Step>, info: RangeInfo, v: Nullable, y: Nullable, null0: bool, k: nat)
      : (m: nat)
    requires Pattern(steps, info) && k <= |info.uppers|
    ensures k <= m <= |info.uppers|
    decreases |info.uppers| - k
  {
    if k == |info.uppers| || InsideBranch(w, steps, info, k, v, y, null0) then k
    else Taken(w, steps, info, v, y, null0, k + 1)
  }

  lemma {:induction false} EndBehind(steps: seq<Step>, info: RangeInfo, res: Cell, k: nat)
    requires Pattern(steps, info) && AllWired(steps, info, res) && k < |info.starts|
    ensures info.starts[k] < info.end
  {
    if k < |info.uppers| {
      assert RangeBranchWired(steps, info, k, res);
    }
  }

  /** What stands in the first argument of the first comparison. */
  function Beside(steps: seq<Step>, info: RangeInfo, cells: Cells): Nullable
    requires HeadAt(steps, info.start)
  {
    Argument(steps[info.start + 1].arg0, cells)
  }

  /** y is that, when it is another cell, and null0 tells whether an earlier conjunct was null. */
  ghost predicate Starting(steps: seq<Step>, info: RangeInfo, cells: Cells, y: Nullable, null0: bool)
    requires HeadAt(steps, info.start)
  {
    && (ArgsOther(steps[info.start + 1].arg0, steps[info.start].dst) ==> y == Beside(steps, info, cells))
    && null0 == Remembers(steps, info.start, cells)
  }

  /** What is known of branch k. */
  lemma BranchIs(steps: seq<Step>, info: RangeInfo, res: Cell, k: nat)
    requires Pattern(steps, info) && AllWired(steps, info, res) && k < |info.uppers|
    ensures var b := info.starts[k];
            && WhenAt(steps, b) && SameVar(steps[b], steps[b + 3]) && SameVar(steps[info.start], steps[b])
            && RangeWired(steps, b, info.starts[k + 1], info.end, res, k == 0)
            && (ArgsOther(steps[b + 1].arg0, steps[b].dst) ==> k == 0)
            && (steps[b + 2].And? ==> k == 0)
  {
    assert RangeBranchWired(steps, info, k, res) && BranchRecorded(steps, info, k);
  }

  /** Branch k: on to its THEN, or to the next branch. */
  lemma RangeStep(w: World, env: Env, steps: seq<Step>, info: RangeInfo, res: Cell, k: nat, cells: Cells, y: Nullable,
                  null0: bool, m: nat) returns (cells': Cells)
    requires Forward(steps) && Pattern(steps, info) && AllWired(steps, info, res) && k < |info.uppers|
    requires k == 0 ==> Starting(steps, info, cells, y, null0)
    requires m == Taken(w, steps, info, TestedValue(steps, info, env), y, null0, k)
    ensures m != k ==> m == Taken(w, steps, info, TestedValue(steps, info, env), y, null0, k + 1)
    ensures RunTo(w, env, steps, info.starts[k], info.end, cells) ==
            RunTo(w, env, steps, if m == k then PartStart(info, m) else info.starts[k + 1], info.end, cells')
  {
    BranchIs(steps, info, res, k);
    cells' := WhenRuns(w, env, steps, info.starts[k], info.starts[k + 1], info.end, res, k == 0, cells, y);
  }

  /** From branch k on the steps reach the part of the branch taken. */
  lemma {:induction false} RangesRun(w: World, env: Env, steps: seq<Step>, info: RangeInfo, res: Cell, k: nat,
                                     cells: Cells, y: Nullable, null0: bool, m: nat) returns (cells': Cells)
    requires Forward(steps) && Pattern(steps, info) && AllWired(steps, info, res) && k <= |info.uppers|
    requires k == 0 ==> Starting(steps, info, cells, y, null0)
    requires m == Taken(w, steps, info, TestedValue(steps, info, env), y, null0, k)
    ensures RunTo(w, env, steps, info.starts[k], info.end, cells) ==
            RunTo(w, env, steps, PartStart(info, m), info.end, cells')
    decreases |info.uppers| - k
  {
    if k == |info.uppers| {
      return cells;
    }
    cells' := RangeStep(w, env, steps, info, res, k, cells, y, null0, m);
    if m != k {
      cells' := RangesRun(w, env, steps, info, res, k + 1, cells', y, null0, m);
    }
  }

  // ---- Running a part ----

  /** A part that is the constant alone. */
  lemma ExactPart(w: World, env: Env, steps: seq<Step>, s: nat, end: nat, res: Cell, cells: Cells)
    requires Forward(steps) && PartAt(steps, s, s + 1, end, res)
    ensures RunTo(w, env, steps, s, end, cells) == (end, cells[res := steps[s].value])
  {
    var c1 := cells[res := steps[s].value];
    assert RunTo(w, env, steps, s, end, cells) == RunTo(w, env, steps, s + 1, end, c1);
    if s + 1 != end {
      assert RunTo(w, env, steps, s + 1, end, c1) == RunTo(w, env, steps, end, end, c1);
    }
  }

  /** Steps that stay inside a part come to its last step. */
  lemma {:induction false} ReachesLast(w: World, env: Env, steps: seq<Step>, x: nat, m: nat, end: nat, cells: Cells)
      returns (cells': Cells)
    requires Forward(steps) && x < m <= |steps| && m <= end
    requires forall z | x <= z < m - 1 :: StaysIn(steps[z], m)
    ensures RunTo(w, env, steps, x, end, cells) == RunTo(w, env, steps, m - 1, end, cells')
    decreases m - x
  {
    if x == m - 1 {
      cells' := cells;
    } else {
      var next, c1 := Exec(w, env, steps, x, cells).0, Exec(w, env, steps, x, cells).1;
      assert StaysIn(steps[x], m);
      cells' := ReachesLast(w, env, steps, next, m, end, c1);
    }
  }

  /** A longer part, where every open step yields `value`. */
  lemma OpenPart(w: World, env: Env, steps: seq<Step>, s: nat, m: nat, end: nat, res: Cell, cells: Cells,
                 value: Nullable)
    requires Forward(steps) && PartAt(steps, s, m, end, res) && OpenAt(steps, s, m, res) && m > s + 1
    requires forall id, c :: env.other(id, c) == value
    ensures var r := RunTo(w, env, steps, s, end, cells);
            r.0 == end && Get(r.1, res) == value
  {
    var c1 := ReachesLast(w, env, steps, s, m, end, cells);
    var c2 := Exec(w, env, steps, m - 1, c1).1;
    assert RunTo(w, env, steps, m - 1, end, c1) == RunTo(w, env, steps, m, end, c2);
    if m != end {
      assert RunTo(w, env, steps, m, end, c2) == RunTo(w, env, steps, end, end, c2);
    }
  }

  lemma PartOf(steps: seq<Step>, info: RangeInfo, res: Cell, k: nat)
    requires Pattern(steps, info) && AllWired(steps, info, res) && k <= |info.uppers|
    ensures PartStop(info, k) > 0 && PartAt(steps, PartStart(info, k), PartStop(info, k), info.end, res)
    ensures steps[PartStart(info, k)].value == Nullable(Pick(info.results, k, info.default), false)
  {
    if k < |info.uppers| {
      assert BranchRecorded(steps, info, k) && RangeBranchWired(steps, info, k, res);
    }
  }

  /** Every longer part of the pattern is an open one. */
  ghost predicate AllOpen(steps: seq<Step>, info: RangeInfo, res: Cell)
    requires Pattern(steps, info) && AllWired(steps, info, res)
  {
    forall k: nat | k <= |info.uppers| :: PartOpen(steps, info, res, k)
  }

  ghost predicate PartOpen(steps: seq<Step>, info: RangeInfo, res: Cell, k: nat)
    requires Pattern(steps, info) && AllWired(steps, info, res) && k <= |info.uppers|
  {
    PartOf(steps, info, res, k);
    OpenAt(steps, PartStart(info, k), PartStop(info, k), res)
  }

  /** What part k leaves: its constant, or what its last step yields. */
  lemma PartRuns(w: World, env: Env, steps: seq<Step>, info: RangeInfo, res: Cell, k: nat, cells: Cells,
                 value: Nullable)
    requires Forward(steps) && Pattern(steps, info) && AllWired(steps, info, res) && k <= |info.uppers|
    ensures var r := RunTo(w, env, steps, PartStart(info, k), info.end, cells);
            && (IsExact(info, k) ==>
                  r.0 == info.end && Get(r.1, res) == Nullable(Pick(info.results, k, info.default), false))
            && (!IsExact(info, k) && PartOpen(steps, info, res, k) && (forall id, c :: env.other(id, c) == value) ==>
                  r.0 == info.end && Get(r.1, res) == value)
  {
    PartOf(steps, info, res, k);
    if IsExact(info, k) {
      ExactPart(w, env, steps, PartStart(info, k), info.end, res, cells);
    } else if PartOpen(steps, info, res, k) && forall id, c :: env.other(id, c) == value {
      OpenPart(w, env, steps, PartStart(info, k), PartStop(info, k), info.end, res, cells, value);
    }
  }

  /** The whole run from branch m on, when the part it takes is known. */
  lemma TakenRuns(w: World, env: Env, steps: seq<Step>, info: RangeInfo, res: Cell, m: nat, k: nat, cells: Cells,
                  y: Nullable, null0: bool, value: Nullable)
    requires Forward(steps) && Pattern(steps, info) && AllWired(steps, info, res) && m <= |info.uppers|
    requires m == 0 ==> Starting(steps, info, cells, y, null0)
    requires k == Taken(w, steps, info, TestedValue(steps, info, env), y, null0, m)
    ensures var r := RunTo(w, env, steps, info.starts[m], info.end, cells);
            && (IsExact(info, k) ==>
                  r.0 == info.end && Get(r.1, res) == Nullable(Pick(info.results, k, info.default), false))
            && (!IsExact(info, k) && PartOpen(steps, info, res, k) && (forall id, c :: env.other(id, c) == value) ==>
                  r.0 == info.end && Get(r.1, res) == value)
  {
    var cells' := RangesRun(w, env, steps, info, res, m, cells, y, null0, k);
    PartRuns(w, env, steps, info, res, k, cells', value);
  }
}
