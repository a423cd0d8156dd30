/** The step machine that evaluates expressions, and chains of CASE branches in it. */
module CaseSteps {
  import opened CaseOrder

  type Cell = nat

  datatype Nullable = Nullable(value: Datum, isnull: bool)

  type Cells = map<Cell, Nullable>

  function Get(cells: Cells, c: Cell): Nullable {
    if c in cells then cells[c] else Nullable(0, true)
  }

  datatype VarSlot = InnerVar | OuterVar | ScanVar

  /** An argument in a call frame: a cell that a step writes, or a constant that was stored in the
      frame at compile time. */
  datatype Operand = At(cell: Cell) | Fixed(constant: Nullable)

  /** What an argument holds when the frame has just been made: a cell is zero and not null. */
  function FrameWord(o: Operand): Nullable {
    if o.Fixed? then o.constant else Nullable(0, false)
  }

  /** The steps a CASE is made of.  FuncStrict compares two arguments; Test is any further
      conditional jump, Other any further step. */
  datatype Step =
    | Var(slot: VarSlot, attnum: nat, dst: Cell)
    | CaseTestval(src: Cell, dst: Cell)
    | FuncStrict(fn: Fn, arg0: Operand, arg1: Operand, coll: nat, dst: Cell)
    | JumpIfNotTrue(src: Cell, target: nat)
    | Const(value: Nullable, dst: Cell)
    | Jump(target: nat)
    | Qual(res: Cell, target: nat)
    | AndFirst(res: Cell, anynull: Cell, target: nat)
    | And(res: Cell, anynull: Cell, target: nat)
    | AndLast(res: Cell, anynull: Cell)
    | Test(id: nat, target: nat)
    | Other(id: nat, dst: Cell)

  datatype Env = Env(vars: (VarSlot, nat) -> Nullable, other: (nat, Cells) -> Nullable, test: (nat, Cells) -> bool)

  const TRUE := 1
  const FALSE := 0

  function Bool(b: bool): Nullable {
    Nullable(if b then TRUE else FALSE, false)
  }

  predicate IsTrue(v: Nullable) {
    !v.isnull && v.value != FALSE
  }

  predicate IsFalse(v: Nullable) {
    !v.isnull && v.value == FALSE
  }

  predicate Forward(steps: seq<Step>) {
    forall i | 0 <= i < |steps| ::
      match steps[i]
      case JumpIfNotTrue(_, target) => target > i
      case Jump(target) => target > i
      case Qual(_, target) => target > i
      case AndFirst(_, _, target) => target > i
      case And(_, _, target) => target > i
      case Test(_, target) => target > i
      case _ => true
  }

  function Argument(o: Operand, cells: Cells): Nullable {
    match o
    case At(c) => Get(cells, c)
    case Fixed(x) => x
  }

  /** One step: the next step and the cells. */
  function Exec(w: World, env: Env, steps: seq<Step>, pc: nat, cells: Cells): (r: (nat, Cells))
    requires Forward(steps) && pc < |steps|
    ensures r.0 > pc
  {
    match steps[pc]
    case Var(slot, attnum, dst) => (pc + 1, cells[dst := env.vars(slot, attnum)])
    case CaseTestval(src, dst) => (pc + 1, cells[dst := Get(cells, src)])
    case FuncStrict(fn, arg0, arg1, coll, dst) =>
      var a, t := Argument(arg0, cells), Argument(arg1, cells);
      if a.isnull || t.isnull then (pc + 1, cells[dst := Nullable(Get(cells, dst).value, true)])
      else (pc + 1, cells[dst := Bool(Holds(fn.kind, OrderOf(w, fn, coll), a.value, t.value))])
    case JumpIfNotTrue(src, target) =>
      if IsTrue(Get(cells, src)) then (pc + 1, cells) else (target, cells[src := Bool(false)])
    case Const(value, dst) => (pc + 1, cells[dst := value])
    case Jump(target) => (target, cells)
    case Qual(res, target) =>
      if IsTrue(Get(cells, res)) then (pc + 1, cells) else (target, cells[res := Bool(false)])
    case AndFirst(res, anynull, target) =>
      var cells' := cells[anynull := Bool(false)];
      AndStep(res, anynull, target, pc, cells')
    case And(res, anynull, target) => AndStep(res, anynull, target, pc, cells)
    case AndLast(res, anynull) =>
      if IsTrue(Get(cells, res)) && IsTrue(Get(cells, anynull)) then (pc + 1, cells[res := Nullable(0, true)])
      else (pc + 1, cells)
    case Test(id, target) => (if env.test(id, cells) then target else pc + 1, cells)
    case Other(id, dst) => (pc + 1, cells[dst := env.other(id, cells)])
  }

  function AndStep(res: Cell, anynull: Cell, target: nat, pc: nat, cells: Cells): (nat, Cells) {
    if Get(cells, res).isnull then (pc + 1, cells[anynull := Bool(true)])
    else if IsFalse(Get(cells, res)) then (target, cells)
    else (pc + 1, cells)
  }

  /** Run until control reaches `stop` or leaves the program. */
  function RunTo(w: World, env: Env, steps: seq<Step>, pc: nat, stop: nat, cells: Cells): (nat, Cells)
    requires Forward(steps)
    decreases |steps| - pc
  {
    if pc >= stop || pc >= |steps| then (pc, cells)
    else
      var (pc', cells') := Exec(w, env, steps, pc, cells);
      RunTo(w, env, steps, pc', stop, cells')
  }

  // ---- Chains of simple branches ----

  const STRIDE := 5

  predicate IsLoad(s: Step) {
    s.Var? || s.CaseTestval?
  }

  /** The five steps of a branch that compares and yields a constant. */
  predicate BranchAt(steps: seq<Step>, b: nat) {
    && b + 4 < |steps|
    && IsLoad(steps[b])
    && steps[b + 1].FuncStrict?
    && steps[b + 2].JumpIfNotTrue?
    && steps[b + 3].Const?
    && steps[b + 4].Jump?
    && !FrameWord(steps[b + 1].arg1).isnull
    && !steps[b + 3].value.isnull
  }

  /** Branch b compares the same variable with the same function as branch i and ends at the
      same place. */
  predicate SameKind(steps: seq<Step>, i: nat, b: nat)
    requires BranchAt(steps, i) && BranchAt(steps, b)
  {
    && (if steps[i].Var? then steps[b].Var? && steps[b].slot == steps[i].slot && steps[b].attnum == steps[i].attnum
        else steps[b].CaseTestval?)
    && steps[b + 1].fn == steps[i + 1].fn
    && steps[b + 4].target == steps[i + 4].target
  }

  /** Branch k of a chain at i; it falls through to the next branch when it fails. */
  predicate BranchOf(steps: seq<Step>, i: nat, k: nat)
    requires BranchAt(steps, i)
  {
    && BranchAt(steps, i + STRIDE * k)
    && SameKind(steps, i, i + STRIDE * k)
    && steps[i + STRIDE * k + 2].target == i + STRIDE * (k + 1)
  }

  predicate Chain(steps: seq<Step>, i: nat, n: nat) {
    && n > 0
    && BranchAt(steps, i)
    && forall k: nat | k < n :: BranchOf(steps, i, k)
  }

  /** A non-null constant ELSE at j that is followed by the end of the CASE. */
  predicate ElseAt(steps: seq<Step>, j: nat, end: nat) {
    && j < |steps|
    && steps[j].Const? && !steps[j].value.isnull
    && (j + 1 == end || (j + 1 < |steps| && steps[j + 1].Jump? && steps[j + 1].target == end))
  }

  /** What the detector reads as the threshold of branch k: the word in the second argument. */
  function Threshold(steps: seq<Step>, i: nat, k: nat): Datum
    requires BranchAt(steps, i) && BranchOf(steps, i, k)
  {
    FrameWord(steps[i + STRIDE * k + 1].arg1).value
  }

  function Result(steps: seq<Step>, i: nat, k: nat): Datum
    requires BranchAt(steps, i) && BranchOf(steps, i, k)
  {
    steps[i + STRIDE * k + 3].value.value
  }

  function ChainThresholds(steps: seq<Step>, i: nat, n: nat): (ts: seq<Datum>)
    requires Chain(steps, i, n)
    ensures |ts| == n
  {
    seq(n, k requires 0 <= k < n => Threshold(steps, i, k))
  }

  function ChainResults(steps: seq<Step>, i: nat, n: nat): (rs: seq<Datum>)
    requires Chain(steps, i, n)
    ensures |rs| == n
  {
    seq(n, k requires 0 <= k < n => Result(steps, i, k))
  }

  // ---- What the expression compiler guarantees about such a chain ----

  /** The load is one argument of the comparison, either one.  The other is a constant; only in
      the first branch it may be a cell, which earlier steps of the same WHEN have written. */
  predicate TakesLoad(arg0: Operand, arg1: Operand, load: Cell, first: bool) {
    || (arg0 == At(load) && arg1.Fixed?)
    || (arg1 == At(load) && (arg0.Fixed? || (first && arg0 != At(load))))
  }

  /** In branch k the load feeds the comparison and the comparison feeds the jump, the
      constant goes to the result cell, and a simple CASE reads a cell nothing overwrites. */
  predicate BranchWired(steps: seq<Step>, i: nat, k: nat, res: Cell)
    requires BranchAt(steps, i) && BranchOf(steps, i, k)
  {
    var b := i + STRIDE * k;
    && TakesLoad(steps[b + 1].arg0, steps[b + 1].arg1, steps[b].dst, k == 0)
    && steps[b + 2].src == steps[b + 1].dst
    && steps[b + 1].dst != steps[b].dst
    && steps[b + 3].dst == res
    && (steps[i].CaseTestval? ==>
          && steps[b].src == steps[i].src && steps[b + 1].arg0 != At(steps[i].src)
          && steps[i].src != steps[b].dst && steps[i].src != steps[b + 1].dst)
  }

  predicate Wired(steps: seq<Step>, i: nat, n: nat, res: Cell)
    requires Chain(steps, i, n)
  {
    && (forall k: nat | k < n :: BranchWired(steps, i, k, res))
    && i + STRIDE * n < |steps|
    && steps[i + STRIDE * n].Const? && steps[i + STRIDE * n].dst == res
  }

  /** Every comparison of the chain uses the collation of the first. */
  predicate OneCollation(steps: seq<Step>, i: nat, n: nat)
    requires Chain(steps, i, n)
  {
    forall k: nat | k < n :: BranchCollation(steps, i, k) == steps[i + 1].coll
  }

  function BranchCollation(steps: seq<Step>, i: nat, k: nat): nat
    requires BranchAt(steps, i) && BranchOf(steps, i, k)
  {
    steps[i + STRIDE * k + 1].coll
  }

  /** The value the chain tests. */
  function Tested(steps: seq<Step>, i: nat, env: Env, cells: Cells): Nullable
    requires BranchAt(steps, i)
  {
    if steps[i].Var? then env.vars(steps[i].slot, steps[i].attnum) else Get(cells, steps[i].src)
  }

  /** What stands in the first argument of the first comparison before the chain runs. */
  function Before(steps: seq<Step>, i: nat, cells: Cells): Nullable
    requires BranchAt(steps, i)
  {
    Argument(steps[i + 1].arg0, cells)
  }

  /** An argument, when the load puts v into its cell and other cells hold y. */
  function Given(o: Operand, load: Cell, v: Nullable, y: Nullable): Nullable {
    match o
    case Fixed(x) => x
    case At(c) => if c == load then v else y
  }

  /** A comparison holds when the load is v and other cells hold y. */
  predicate ArgsHold(w: World, fn: Fn, coll: nat, arg0: Operand, arg1: Operand, load: Cell, v: Nullable, y: Nullable) {
    var a, t := Given(arg0, load, v, y), Given(arg1, load, v, y);
    !a.isnull && !t.isnull && Holds(fn.kind, OrderOf(w, fn, coll), a.value, t.value)
  }

  /** Branch k applies to the tested value. */
  predicate Applies(w: World, steps: seq<Step>, i: nat, k: nat, v: Nullable, y: Nullable)
    requires BranchAt(steps, i) && BranchOf(steps, i, k)
  {
    var b := i + STRIDE * k;
    ArgsHold(w, steps[i + 1].fn, BranchCollation(steps, i, k), steps[b + 1].arg0, steps[b + 1].arg1, steps[b].dst, v, y)
  }

  /** The first branch compares the load with a cell that earlier steps have written. */
  predicate TakesOther(steps: seq<Step>, i: nat)
    requires BranchAt(steps, i)
  {
    steps[i + 1].arg0.At? && steps[i + 1].arg0 != At(steps[i].dst)
  }

  /** Three steps of a branch: on to the result constant, or to the next branch. */
  lemma BranchTest(w: World, env: Env, steps: seq<Step>, i: nat, k: nat, res: Cell, stop: nat, cells: Cells,
                   y: Nullable)
      returns (cells': Cells)
    requires Forward(steps) && BranchAt(steps, i) && BranchOf(steps, i, k) && BranchWired(steps, i, k, res)
    requires i + STRIDE * (k + 1) < stop && (k == 0 && TakesOther(steps, i) ==> y == Before(steps, i, cells))
    ensures Tested(steps, i, env, cells') == Tested(steps, i, env, cells)
    ensures var b := i + STRIDE * k;
            RunTo(w, env, steps, b, stop, cells) ==
            RunTo(w, env, steps, if Applies(w, steps, i, k, Tested(steps, i, env, cells), y) then b + 3 else b + STRIDE,
                  stop, cells')
  {
    var b := i + STRIDE * k;
    var c1 := Exec(w, env, steps, b, cells).1;
    var c2 := Exec(w, env, steps, b + 1, c1).1;
    assert RunTo(w, env, steps, b, stop, cells) == RunTo(w, env, steps, b + 1, stop, c1);
    assert RunTo(w, env, steps, b + 1, stop, c1) == RunTo(w, env, steps, b + 2, stop, c2);
    cells' := Exec(w, env, steps, b + 2, c2).1;
  }

  /** The result constant of a branch, and the jump to the end. */
  lemma BranchResult(w: World, env: Env, steps: seq<Step>, i: nat, k: nat, res: Cell, cells: Cells)
    requires Forward(steps) && BranchAt(steps, i) && BranchOf(steps, i, k) && BranchWired(steps, i, k, res)
    requires i + STRIDE * (k + 1) < steps[i + 4].target
    ensures var b := i + STRIDE * k;
            var end := steps[i + 4].target;
            RunTo(w, env, steps, b + 3, end, cells) == (end, cells[res := Nullable(Result(steps, i, k), false)])
  {
    var b := i + STRIDE * k;
    var end := steps[i + 4].target;
    var c1 := cells[res := steps[b + 3].value];
    assert RunTo(w, env, steps, b + 3, end, cells) == RunTo(w, env, steps, b + 4, end, c1);
    assert RunTo(w, env, steps, b + 4, end, c1) == RunTo(w, env, steps, end, end, c1);
  }

  lemma ElseResult(w: World, env: Env, steps: seq<Step>, j: nat, end: nat, cells: Cells)
    requires Forward(steps) && ElseAt(steps, j, end)
    ensures RunTo(w, env, steps, j, end, cells) == (end, cells[steps[j].dst := steps[j].value])
  {
    var c1 := cells[steps[j].dst := steps[j].value];
    assert RunTo(w, env, steps, j, end, cells) == RunTo(w, env, steps, j + 1, end, c1);
    if j + 1 != end {
      assert RunTo(w, env, steps, j + 1, end, c1) == RunTo(w, env, steps, end, end, c1);
    }
  }

  /** What the steps of a chain evaluate to, from branch k on: the result of the first branch
      that applies, each under its own collation and to its own arguments, or the ELSE value. */
  function BranchValue(w: World, steps: seq<Step>, i: nat, n: nat, k: nat, v: Nullable, y: Nullable): Datum
    requires Chain(steps, i, n) && i + STRIDE * n < |steps| && steps[i + STRIDE * n].Const? && k <= n
    decreases n - k
  {
    if k == n then steps[i + STRIDE * n].value.value
    else
      assert BranchOf(steps, i, k);
      if Applies(w, steps, i, k, v, y) then Result(steps, i, k) else BranchValue(w, steps, i, n, k + 1, v, y)
  }

  /** One search over the thresholds that were read, under the collation of the first branch. */
  function ChainValue(w: World, steps: seq<Step>, i: nat, n: nat, k: nat, v: Nullable): Datum
    requires Chain(steps, i, n) && i + STRIDE * n < |steps| && steps[i + STRIDE * n].Const? && k <= n
  {
    var fn := steps[i + 1].fn;
    var default := steps[i + STRIDE * n].value.value;
    if v.isnull then default
    else Pick(ChainResults(steps, i, n),
              FirstMatch(fn.kind, OrderOf(w, fn, steps[i + 1].coll), v.value, ChainThresholds(steps, i, n), k), default)
  }

  /** Every comparison takes its load as the first argument. */
  predicate LoadsFirst(steps: seq<Step>, i: nat, n: nat)
    requires Chain(steps, i, n)
  {
    forall k: nat | k < n :: BranchLoadsFirst(steps, i, k)
  }

  predicate BranchLoadsFirst(steps: seq<Step>, i: nat, k: nat)
    requires BranchAt(steps, i) && BranchOf(steps, i, k)
  {
    var b := i + STRIDE * k;
    steps[b + 1].arg0 == At(steps[b].dst) && steps[b + 1].arg1.Fixed?
  }

  lemma {:induction false} OneCollationValue(w: World, steps: seq<Step>, i: nat, n: nat, k: nat, v: Nullable,
                                             y: Nullable)
    requires Chain(steps, i, n) && i + STRIDE * n < |steps| && steps[i + STRIDE * n].Const? && k <= n
    requires OneCollation(steps, i, n) && LoadsFirst(steps, i, n)
    ensures BranchValue(w, steps, i, n, k, v, y) == ChainValue(w, steps, i, n, k, v)
    decreases n - k
  {
    if k < n {
      assert BranchOf(steps, i, k) && BranchLoadsFirst(steps, i, k);
      assert BranchCollation(steps, i, k) == steps[i + 1].coll;
      assert ChainThresholds(steps, i, n)[k] == Threshold(steps, i, k);
      OneCollationValue(w, steps, i, n, k + 1, v, y);
    }
  }

  lemma {:induction false} ChainRuns(w: World, env: Env, steps: seq<Step>, i: nat, n: nat, res: Cell, k: nat,
                                     cells: Cells, y: Nullable)
    requires Forward(steps) && Chain(steps, i, n) && Wired(steps, i, n, res) && k <= n
    requires ElseAt(steps, i + STRIDE * n, steps[i + 4].target)
    requires k == 0 && TakesOther(steps, i) ==> y == Before(steps, i, cells)
    ensures var end := steps[i + 4].target;
            var r := RunTo(w, env, steps, i + STRIDE * k, end, cells);
            && r.0 == end
            && Get(r.1, res) == Nullable(BranchValue(w, steps, i, n, k, Tested(steps, i, env, cells), y), false)
    decreases n - k
  {
    var end := steps[i + 4].target;
    if k == n {
      ElseResult(w, env, steps, i + STRIDE * n, end, cells);
    } else {
      var v := Tested(steps, i, env, cells);
      assert BranchOf(steps, i, k) && BranchWired(steps, i, k, res);
      var cells' := BranchTest(w, env, steps, i, k, res, end, cells, y);
      if Applies(w, steps, i, k, v, y) {
        BranchResult(w, env, steps, i, k, res, cells');
      } else {
        ChainRuns(w, env, steps, i, n, res, k + 1, cells', y);
      }
    }
  }
}
