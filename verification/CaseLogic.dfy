/** The steps of a WHEN compute the three-valued logic of SQL. */
module CaseLogic {
  import opened CaseOrder
  import opened CaseSteps
  import opened CaseOperands
  import opened CaseRange
  import opened CaseRangeRuns

  /** What a comparison of two values is: unknown when one of them is null. */
  function Compared(w: World, f: Step, a: Nullable, t: Nullable): Nullable
    requires f.FuncStrict?
  {
    if a.isnull || t.isnull then Nullable(0, true)
    else Bool(Holds(f.fn.kind, OrderOf(w, f.fn, f.coll), a.value, t.value))
  }

  /** AND: false when either side is, true when both are, and else unknown. */
  function Both(p: Nullable, q: Nullable): Nullable {
    if IsFalse(p) || IsFalse(q) then Bool(false) else if IsTrue(p) && IsTrue(q) then Bool(true) else Nullable(0, true)
  }

  predicate SameTruth(p: Nullable, q: Nullable) {
    (IsTrue(p) <==> IsTrue(q)) && (IsFalse(p) <==> IsFalse(q))
  }

  /** Loading and comparing leaves the comparison. */
  lemma CompareLeaves(w: World, env: Env, steps: seq<Step>, b: nat, stop: nat, cells: Cells, y: Nullable)
      returns (cells': Cells)
    requires Forward(steps) && b + 1 < |steps| && b + 1 < stop && steps[b].Var? && steps[b + 1].FuncStrict?
    requires TakesLoad(steps[b + 1].arg0, steps[b + 1].arg1, steps[b].dst, true)
    requires ArgsOther(steps[b + 1].arg0, steps[b].dst) ==> y == Argument(steps[b + 1].arg0, cells)
    ensures RunTo(w, env, steps, b, stop, cells) == RunTo(w, env, steps, b + 2, stop, cells')
    ensures var f, v := steps[b + 1], env.vars(steps[b].slot, steps[b].attnum);
            SameTruth(Get(cells', f.dst),
                      Compared(w, f, Given(f.arg0, steps[b].dst, v, y), Given(f.arg1, steps[b].dst, v, y)))
    ensures forall c: Cell | c != steps[b].dst && c != steps[b + 1].dst :: Get(cells', c) == Get(cells, c)
  {
    var c1 := Exec(w, env, steps, b, cells).1;
    cells' := Exec(w, env, steps, b + 1, c1).1;
    assert RunTo(w, env, steps, b, stop, cells) == RunTo(w, env, steps, b + 1, stop, c1);
  }

  /** The lower comparison of a WHEN and its upper one. */
  function LowerOf(w: World, steps: seq<Step>, b: nat, v: Nullable, y: Nullable): Nullable
    requires WhenAt(steps, b)
  {
    var f := steps[b + 1];
    Compared(w, f, Given(f.arg0, steps[b].dst, v, y), Given(f.arg1, steps[b].dst, v, y))
  }

  function UpperOf(w: World, steps: seq<Step>, b: nat, v: Nullable): Nullable
    requires WhenAt(steps, b)
  {
    var f := steps[b + 4];
    Compared(w, f, Given(f.arg0, steps[b + 3].dst, v, v), Given(f.arg1, steps[b + 3].dst, v, v))
  }

  lemma LowerLeaves(w: World, env: Env, steps: seq<Step>, b: nat, next: nat, end: nat, res: Cell, first: bool,
                    cells: Cells, y: Nullable) returns (pc: nat, cells': Cells)
    requires Forward(steps) && WhenAt(steps, b) && RangeWired(steps, b, next, end, res, first) && steps[b + 2].AndFirst?
    requires ArgsOther(steps[b + 1].arg0, steps[b].dst) ==> y == Argument(steps[b + 1].arg0, cells)
    ensures RunTo(w, env, steps, b, end, cells) == RunTo(w, env, steps, pc, end, cells') && pc in {b + 3, b + 6}
    ensures var lower := LowerOf(w, steps, b, env.vars(steps[b].slot, steps[b].attnum), y);
            && (pc == b + 6 <==> IsFalse(lower))
            && (pc == b + 6 ==> IsFalse(Get(cells', res)))
            && (pc == b + 3 ==> (IsTrue(Get(cells', steps[b + 2].anynull)) <==> !IsTrue(lower)))
  {
    var c1 := CompareLeaves(w, env, steps, b, end, cells, y);
    pc, cells' := Exec(w, env, steps, b + 2, c1).0, Exec(w, env, steps, b + 2, c1).1;
    assert RunTo(w, env, steps, b + 2, end, c1) == RunTo(w, env, steps, pc, end, cells');
  }

  lemma UpperLeaves(w: World, env: Env, steps: seq<Step>, b: nat, next: nat, end: nat, res: Cell, first: bool,
                    cells: Cells)
      returns (cells': Cells)
    requires Forward(steps) && WhenAt(steps, b) && RangeWired(steps, b, next, end, res, first)
    ensures RunTo(w, env, steps, b + 3, end, cells) == RunTo(w, env, steps, b + 6, end, cells')
    ensures var upper := UpperOf(w, steps, b, env.vars(steps[b + 3].slot, steps[b + 3].attnum));
            && (IsTrue(Get(cells', res)) <==> IsTrue(upper) && !IsTrue(Get(cells, steps[b + 2].anynull)))
            && (IsFalse(Get(cells', res)) <==> IsFalse(upper))
  {
    var v := env.vars(steps[b + 3].slot, steps[b + 3].attnum);
    var c4 := CompareLeaves(w, env, steps, b + 3, end, cells, v);
    cells' := Exec(w, env, steps, b + 5, c4).1;
    assert RunTo(w, env, steps, b + 5, end, c4) == RunTo(w, env, steps, b + 6, end, cells');
  }

  /** At the jump of a WHEN the result cell holds the AND of its two comparisons. */
  lemma WhenIsAnd(w: World, env: Env, steps: seq<Step>, b: nat, next: nat, end: nat, res: Cell, first: bool,
                  cells: Cells, y: Nullable) returns (cells': Cells)
    requires Forward(steps) && WhenAt(steps, b) && SameVar(steps[b], steps[b + 3])
    requires RangeWired(steps, b, next, end, res, first) && steps[b + 2].AndFirst?
    requires ArgsOther(steps[b + 1].arg0, steps[b].dst) ==> y == Argument(steps[b + 1].arg0, cells)
    ensures RunTo(w, env, steps, b, end, cells) == RunTo(w, env, steps, b + 6, end, cells')
    ensures var v := env.vars(steps[b].slot, steps[b].attnum);
            SameTruth(Get(cells', res), Both(LowerOf(w, steps, b, v, y), UpperOf(w, steps, b, v)))
  {
    var pc, c2 := LowerLeaves(w, env, steps, b, next, end, res, first, cells, y);
    cells' := c2;
    if pc == b + 3 {
      cells' := UpperLeaves(w, env, steps, b, next, end, res, first, c2);
    }
  }

  /** A jump is taken unless its condition is true; then the result is false. */
  lemma JumpUnlessTrue(w: World, env: Env, steps: seq<Step>, pc: nat, cells: Cells)
    requires Forward(steps) && pc < |steps| && steps[pc].JumpIfNotTrue?
    ensures var (pc', cells') := Exec(w, env, steps, pc, cells);
            if IsTrue(Get(cells, steps[pc].src)) then pc' == pc + 1 && cells' == cells
            else pc' == steps[pc].target && Get(cells', steps[pc].src) == Nullable(0, false)
  {
  }
}
