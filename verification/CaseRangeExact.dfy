/** The rewritten range CASE, and exactly when it leaves what its steps leave. */
module CaseRangeExact {
  import opened CaseOrder
  import opened CaseSteps
  import opened CaseOperands
  import opened CaseRange
  import opened CaseRangeSearch
  import opened CaseRangeRuns

  // ---- The branches as ranges ----

  /** The ranks for which the branch at b applies: for some (`most`) or for all values of another
      compared cell and of earlier conjuncts, null among them. */
  function RangeInterval(w: World, steps: seq<Step>, b: nat, most: bool): Interval
    requires WhenAt(steps, b)
  {
    var f, g := steps[b + 1], steps[b + 4];
    var lower := ArgsInterval(w, f.fn, f.arg0, f.arg1, steps[b].dst, most);
    var upper := ArgsInterval(w, g.fn, g.arg0, g.arg1, steps[b + 3].dst, most);
    if steps[b + 2].And? && !most then Interval(lower.lo, lower.lo)
    else Interval(Upper(lower.lo, upper.lo), Lower(lower.up, upper.up))
  }

  /** More than the tested value decides whether the branch at b applies. */
  predicate Varies(steps: seq<Step>, b: nat)
    requires WhenAt(steps, b)
  {
    steps[b + 2].And? || ArgsOther(steps[b + 1].arg0, steps[b].dst)
  }

  predicate BranchTyped(steps: seq<Step>, b: nat, repr: Repr)
    requires WhenAt(steps, b)
  {
    && RangeRepr(repr) && steps[b + 1].fn.repr == repr == steps[b + 4].fn.repr
    && TakesLoad(steps[b + 1].arg0, steps[b + 1].arg1, steps[b].dst, true)
    && TakesLoad(steps[b + 4].arg0, steps[b + 4].arg1, steps[b + 3].dst, false)
  }

  /** A branch applies for the ranks of its interval: of the larger or the smaller one, according
      to whether it does. */
  lemma InsideIs(w: World, steps: seq<Step>, b: nat, repr: Repr, v: Nullable, y: Nullable, null0: bool, most: bool)
    requires ValidWorld(w) && WhenAt(steps, b) && BranchTyped(steps, b, repr) && !v.isnull
    requires null0 ==> steps[b + 2].And?
    requires Varies(steps, b) ==> most == Inside(w, steps, b, v, y, null0)
    ensures Inside(w, steps, b, v, y, null0) <==> In(Rank(w, repr, v.value), RangeInterval(w, steps, b, most))
  {
    var f, g := steps[b + 1], steps[b + 4];
    ArgsIntervalIs(w, g.fn, g.coll, g.arg0, g.arg1, steps[b + 3].dst, v, y, most);
    if !ArgsOther(f.arg0, steps[b].dst) {
      ArgsIntervalIs(w, f.fn, f.coll, f.arg0, f.arg1, steps[b].dst, v, y, most);
    } else if most {
      ArgsOtherIn(w, f.fn, f.coll, f.arg0, f.arg1, steps[b].dst, v, y);
    }
  }

  /** For either interval there are such circumstances. */
  lemma SomeInside(w: World, steps: seq<Step>, b: nat, repr: Repr, v: Nullable, most: bool)
      returns (y: Nullable, null0: bool)
    requires ValidWorld(w) && WhenAt(steps, b) && BranchTyped(steps, b, repr) && !v.isnull
    ensures null0 ==> steps[b + 2].And?
    ensures Inside(w, steps, b, v, y, null0) <==> In(Rank(w, repr, v.value), RangeInterval(w, steps, b, most))
  {
    var f := steps[b + 1];
    y, null0 := Nullable(0, true), steps[b + 2].And? && !most;
    if most && ArgsOther(f.arg0, steps[b].dst) &&
       In(Rank(w, repr, v.value), ArgsInterval(w, f.fn, f.arg0, f.arg1, steps[b].dst, true)) {
      y := ArgsOtherHold(w, f.fn, f.coll, f.arg0, f.arg1, steps[b].dst, v);
    }
    SomeInsideIs(w, steps, b, repr, v, y, null0, most);
  }

  lemma SomeInsideIs(w: World, steps: seq<Step>, b: nat, repr: Repr, v: Nullable, y: Nullable, null0: bool, most: bool)
    requires ValidWorld(w) && WhenAt(steps, b) && BranchTyped(steps, b, repr) && !v.isnull
    requires null0 == (steps[b + 2].And? && !most)
    requires var f := steps[b + 1];
             var interval := ArgsInterval(w, f.fn, f.arg0, f.arg1, steps[b].dst, true);
             ArgsOther(f.arg0, steps[b].dst) ==>
               LowerHolds(w, steps, b, v, y) == (most && In(Rank(w, repr, v.value), interval))
    ensures Inside(w, steps, b, v, y, null0) <==> In(Rank(w, repr, v.value), RangeInterval(w, steps, b, most))
  {
    var f, g := steps[b + 1], steps[b + 4];
    ArgsIntervalIs(w, g.fn, g.coll, g.arg0, g.arg1, steps[b + 3].dst, v, y, most);
    if !ArgsOther(f.arg0, steps[b].dst) {
      ArgsIntervalIs(w, f.fn, f.coll, f.arg0, f.arg1, steps[b].dst, v, y, most);
    }
  }

  lemma BranchesTyped(steps: seq<Step>, info: RangeInfo, res: Cell, k: nat)
    requires Pattern(steps, info) && AllWired(steps, info, res) && k < |info.uppers|
    ensures WhenAt(steps, info.starts[k]) && BranchTyped(steps, info.starts[k], info.repr)
    ensures Varies(steps, info.starts[k]) ==> k == 0
  {
    BranchIs(steps, info, res, k);
    assert BranchRecorded(steps, info, k);
  }

  ghost function IntervalOf(w: World, steps: seq<Step>, info: RangeInfo, k: nat, most: bool): Interval
    requires Pattern(steps, info) && k < |info.uppers|
  {
    assert BranchRecorded(steps, info, k);
    RangeInterval(w, steps, info.starts[k], most)
  }

  /** The ranges of a pattern, as the steps take them. */
  ghost function RangesOf(w: World, steps: seq<Step>, info: RangeInfo, most: bool): (r: Ranges)
    requires Pattern(steps, info)
    ensures ValidRanges(r) && |r.uppers| == |info.uppers|
  {
    var n := |info.uppers|;
    Ranges(seq(n, k requires 0 <= k < n && Pattern(steps, info) => IntervalOf(w, steps, info, k, most).lo),
           seq(n, k requires 0 <= k < n && Pattern(steps, info) => IntervalOf(w, steps, info, k, most).up),
           info.results, seq(n, k requires 0 <= k < n && Pattern(steps, info) => IsExact(info, k)), info.default)
  }

  /** From branch k on the steps take the first range that holds the value. */
  lemma {:induction false} TakenIsFirst(w: World, steps: seq<Step>, info: RangeInfo, res: Cell, v: Nullable,
                                        y: Nullable, null0: bool, most: bool, k: nat)
    requires ValidWorld(w) && Pattern(steps, info) && AllWired(steps, info, res) && k <= |info.uppers| && !v.isnull
    requires k == 0 ==> (InsideBranch(w, steps, info, 0, v, y, null0) <==>
                         In(Rank(w, info.repr, v.value), IntervalOf(w, steps, info, 0, most)))
    ensures var r := RangesOf(w, steps, info, most);
            Taken(w, steps, info, v, y, null0, k) == FirstRange(r.lows, r.uppers, Rank(w, info.repr, v.value), k)
    decreases |info.uppers| - k
  {
    if k < |info.uppers| {
      if k > 0 {
        BranchesTyped(steps, info, res, k);
        InsideIs(w, steps, info.starts[k], info.repr, v, y, false, most);
      }
      TakenIsFirst(w, steps, info, res, v, y, null0, most, k + 1);
    }
  }

  lemma {:induction false} NullTaken(w: World, steps: seq<Step>, info: RangeInfo, res: Cell, v: Nullable, y: Nullable,
                                     null0: bool, k: nat)
    requires Pattern(steps, info) && AllWired(steps, info, res) && k <= |info.uppers| && v.isnull
    ensures Taken(w, steps, info, v, y, null0, k) == |info.uppers|
    decreases |info.uppers| - k
  {
    if k < |info.uppers| {
      BranchesTyped(steps, info, res, k);
      NullTaken(w, steps, info, res, v, y, null0, k + 1);
    }
  }

  // ---- The rewritten CASE ----

  /** The value the rewritten CASE stores: the ELSE constant for a null, else the result the
      search finds. */
  function RewrittenValue(info: RangeInfo, v: Nullable): Datum {
    if v.isnull then info.default
    else Pick(info.results, Searched(info.low, info.uppers, Key(info.repr, v.value)), info.default)
  }

  /** The cells behind the rewritten CASE.  The value goes to the cell of the ELSE constant. */
  function Rewritten(steps: seq<Step>, info: RangeInfo, env: Env, cells: Cells): Cells
    requires HeadAt(steps, info.start) && |info.starts| == |info.uppers| + 1
    requires ElseStart(info) < |steps| && steps[ElseStart(info)].Const?
  {
    var v := TestedValue(steps, info, env);
    cells[steps[info.start].dst := v][steps[ElseStart(info)].dst := Nullable(RewrittenValue(info, v), false)]
  }

  /** Where the ELSE is its constant, its cell is the result cell. */
  lemma RewrittenLeaves(steps: seq<Step>, info: RangeInfo, env: Env, res: Cell, cells: Cells)
    requires Pattern(steps, info) && AllWired(steps, info, res) && IsExact(info, |info.uppers|)
    ensures Get(Rewritten(steps, info, env, cells), res) ==
            Nullable(RewrittenValue(info, TestedValue(steps, info, env)), false)
  {
  }

  /** Coming from in front of the pattern. */
  ghost predicate SameResult(w: World, env: Env, steps: seq<Step>, info: RangeInfo, res: Cell, cells: Cells)
    requires Forward(steps) && Pattern(steps, info)
  {
    Get(Rewritten(steps, info, env, cells), res) == Get(RunTo(w, env, steps, info.start, info.end, cells).1, res)
  }

  /** Coming from an earlier conjunct that was false, which jumps to the end of the WHEN.  The
      label of that step stands behind the rewritten CASE, so the result stays false there. */
  ghost predicate SameEntry(w: World, env: Env, steps: seq<Step>, info: RangeInfo, res: Cell, cells: Cells)
    requires Forward(steps) && Pattern(steps, info)
  {
    steps[info.start + 2].And? && Get(cells, res) == Bool(false) ==>
      Bool(false) == Get(RunTo(w, env, steps, info.start + 6, info.end, cells).1, res)
  }

  // ---- The condition ----

  ghost predicate SearchOk(w: World, steps: seq<Step>, info: RangeInfo, most: bool)
    requires Pattern(steps, info)
  {
    RangesOk(info.low, info.uppers, RangesOf(w, steps, info, most), Bottom(info.repr), Top(w, info.repr))
  }

  /** The first range stands behind other conjuncts only where everything but its THEN is false. */
  ghost predicate EntryOk(w: World, steps: seq<Step>, info: RangeInfo)
    requires Pattern(steps, info)
  {
    steps[info.start + 2].And? ==>
      && info.default == FALSE
      && AllYield(RangesOf(w, steps, info, false), 1, Bottom(info.repr), Top(w, info.repr), FALSE)
  }

  /** The ELSE is its constant and no more; wherever a value of the type can come to in the search,
      the branch the steps take for it yields the result found there, whatever else they look at;
      and coming from an earlier conjunct makes no difference. */
  ghost predicate RangeOk(w: World, steps: seq<Step>, info: RangeInfo)
    requires Pattern(steps, info)
  {
    && IsExact(info, |info.uppers|)
    && SearchOk(w, steps, info, true) && SearchOk(w, steps, info, false)
    && EntryOk(w, steps, info)
  }

  /** Branch k, or the ELSE, is sure to leave `want`, or shows that it is not. */
  lemma YieldsIs(w: World, env: Env, steps: seq<Step>, info: RangeInfo, res: Cell, m: nat, k: nat, cells: Cells,
                 y: Nullable, null0: bool, most: bool, want: Datum)
    requires Forward(steps) && Pattern(steps, info) && AllWired(steps, info, res) && m <= |info.uppers|
    requires m == 0 ==> Starting(steps, info, cells, y, null0)
    requires k == Taken(w, steps, info, TestedValue(steps, info, env), y, null0, m) && IsExact(info, |info.uppers|)
    ensures var r := RunTo(w, env, steps, info.starts[m], info.end, cells);
            var sure := Yields(RangesOf(w, steps, info, most), k, want);
            && (sure ==> r.0 == info.end && Get(r.1, res) == Nullable(want, false))
            && (!sure && PartOpen(steps, info, res, k) && (forall id, c :: env.other(id, c) == Nullable(0, true)) ==>
                  Get(r.1, res) != Nullable(want, false))
  {
    TakenRuns(w, env, steps, info, res, m, k, cells, y, null0, Nullable(0, true));
  }

  // ---- Where the condition holds ----

  /** What the branch taken yields, said of the first range. */
  lemma SearchShows(w: World, steps: seq<Step>, info: RangeInfo, res: Cell, v: Nullable, y: Nullable, null0: bool,
                    most: bool, x: int)
    requires ValidWorld(w) && Pattern(steps, info) && AllWired(steps, info, res)
    requires !v.isnull && x == Rank(w, info.repr, v.value)
    requires InsideBranch(w, steps, info, 0, v, y, null0) <==> In(x, IntervalOf(w, steps, info, 0, most))
    ensures var r := RangesOf(w, steps, info, most);
            Yields(r, Taken(w, steps, info, v, y, null0, 0), RewrittenValue(info, v)) <==>
            Yields(r, FirstRange(r.lows, r.uppers, x, 0),
                   Pick(r.results, Searched(info.low, info.uppers, x), r.default))
  {
    TakenIsFirst(w, steps, info, res, v, y, null0, most, 0);
  }

  lemma SearchOkYields(w: World, steps: seq<Step>, info: RangeInfo, most: bool, x: int)
    requires Pattern(steps, info) && SearchOk(w, steps, info, most) && Bottom(info.repr) <= x < Top(w, info.repr)
    ensures var r := RangesOf(w, steps, info, most);
            Yields(r, FirstRange(r.lows, r.uppers, x, 0),
                   Pick(r.results, Searched(info.low, info.uppers, x), r.default))
  {
    RangesOkExactlyWhen(info.low, info.uppers, RangesOf(w, steps, info, most), Bottom(info.repr), Top(w, info.repr));
  }

  lemma StartIs(w: World, steps: seq<Step>, info: RangeInfo, res: Cell, v: Nullable, y: Nullable, null0: bool,
                most: bool)
    requires ValidWorld(w) && Pattern(steps, info) && AllWired(steps, info, res) && !v.isnull
    requires (null0 ==> steps[info.start + 2].And?) && most == InsideBranch(w, steps, info, 0, v, y, null0)
    ensures InsideBranch(w, steps, info, 0, v, y, null0) <==>
            In(Rank(w, info.repr, v.value), IntervalOf(w, steps, info, 0, most))
  {
    BranchesTyped(steps, info, res, 0);
    InsideIs(w, steps, info.start, info.repr, v, y, null0, most);
  }

  lemma ValueYields(w: World, steps: seq<Step>, info: RangeInfo, res: Cell, v: Nullable, y: Nullable, null0: bool,
                    most: bool)
    requires ValidWorld(w) && Pattern(steps, info) && AllWired(steps, info, res) && SearchOk(w, steps, info, most)
    requires !v.isnull && (null0 ==> steps[info.start + 2].And?) && most == InsideBranch(w, steps, info, 0, v, y, null0)
    ensures Yields(RangesOf(w, steps, info, most), Taken(w, steps, info, v, y, null0, 0), RewrittenValue(info, v))
  {
    StartIs(w, steps, info, res, v, y, null0, most);
    SearchShows(w, steps, info, res, v, y, null0, most, Rank(w, info.repr, v.value));
    RankInWord(w, info.repr, v.value);
    SearchOkYields(w, steps, info, most, Rank(w, info.repr, v.value));
  }

  /** The branch the steps take is sure to yield what the search finds. */
  lemma TakenYields(w: World, steps: seq<Step>, info: RangeInfo, res: Cell, v: Nullable, y: Nullable, null0: bool)
      returns (most: bool)
    requires ValidWorld(w) && Pattern(steps, info) && AllWired(steps, info, res) && RangeOk(w, steps, info)
    requires null0 ==> steps[info.start + 2].And?
    ensures Yields(RangesOf(w, steps, info, most), Taken(w, steps, info, v, y, null0, 0), RewrittenValue(info, v))
  {
    most := InsideBranch(w, steps, info, 0, v, y, null0);
    if v.isnull {
      NullTaken(w, steps, info, res, v, y, null0, 0);
    } else {
      ValueYields(w, steps, info, res, v, y, null0, most);
    }
  }

  lemma YieldsIsRight(w: World, env: Env, steps: seq<Step>, info: RangeInfo, res: Cell, cells: Cells, y: Nullable,
                      null0: bool, most: bool, k: nat)
    requires Forward(steps) && Pattern(steps, info) && AllWired(steps, info, res) && IsExact(info, |info.uppers|)
    requires Starting(steps, info, cells, y, null0)
    requires k == Taken(w, steps, info, TestedValue(steps, info, env), y, null0, 0)
    requires Yields(RangesOf(w, steps, info, most), k, RewrittenValue(info, TestedValue(steps, info, env)))
    ensures RunTo(w, env, steps, info.start, info.end, cells).0 == info.end
    ensures SameResult(w, env, steps, info, res, cells)
  {
    RewrittenLeaves(steps, info, env, res, cells);
    var want := RewrittenValue(info, TestedValue(steps, info, env));
    YieldsIs(w, env, steps, info, res, 0, k, cells, y, null0, most, want);
  }

  lemma OkIsRight(w: World, env: Env, steps: seq<Step>, info: RangeInfo, res: Cell, cells: Cells)
    requires ValidWorld(w) && Forward(steps) && Pattern(steps, info) && AllWired(steps, info, res)
    requires RangeOk(w, steps, info)
    ensures RunTo(w, env, steps, info.start, info.end, cells).0 == info.end
    ensures SameResult(w, env, steps, info, res, cells)
  {
    var y, null0 := Beside(steps, info, cells), Remembers(steps, info.start, cells);
    var v := TestedValue(steps, info, env);
    var most := TakenYields(w, steps, info, res, v, y, null0);
    YieldsIsRight(w, env, steps, info, res, cells, y, null0, most, Taken(w, steps, info, v, y, null0, 0));
  }

  /** The jump to the end of the first WHEN, and on to the second branch. */
  lemma EntryRuns(w: World, env: Env, steps: seq<Step>, info: RangeInfo, res: Cell, cells: Cells)
      returns (cells': Cells)
    requires Forward(steps) && Pattern(steps, info) && AllWired(steps, info, res) && Get(cells, res) == Bool(false)
    ensures RunTo(w, env, steps, info.start + 6, info.end, cells) ==
            RunTo(w, env, steps, info.starts[1], info.end, cells')
  {
    BranchIs(steps, info, res, 0);
    cells' := Exec(w, env, steps, info.start + 6, cells).1;
  }

  lemma EntryIsRight(w: World, env: Env, steps: seq<Step>, info: RangeInfo, res: Cell, cells: Cells)
    requires ValidWorld(w) && Forward(steps) && Pattern(steps, info) && AllWired(steps, info, res)
    requires RangeOk(w, steps, info)
    ensures SameEntry(w, env, steps, info, res, cells)
  {
    var v, y := TestedValue(steps, info, env), Nullable(0, true);
    if steps[info.start + 2].And? && Get(cells, res) == Bool(false) {
      var cells1 := EntryRuns(w, env, steps, info, res, cells);
      if v.isnull {
        NullTaken(w, steps, info, res, v, y, false, 1);
        TakenRuns(w, env, steps, info, res, 1, |info.uppers|, cells1, y, false, v);
      } else {
        TakenIsFirst(w, steps, info, res, v, y, false, false, 1);
        RankInWord(w, info.repr, v.value);
        AllYieldIs(RangesOf(w, steps, info, false), 1, Bottom(info.repr), Top(w, info.repr), FALSE);
        YieldsIs(w, env, steps, info, res, 1, Taken(w, steps, info, v, y, false, 1), cells1, y, false, false, FALSE);
      }
    }
  }

  /** One load and one search. */
  method RunRewrittenRange(w: World, env: Env, steps: seq<Step>, info: RangeInfo, cells: Cells, ghost res: Cell)
      returns (pc: nat, cells': Cells)
    requires ValidWorld(w) && Forward(steps) && Pattern(steps, info) && AllWired(steps, info, res)
    ensures cells' == Rewritten(steps, info, env, cells)
    ensures RangeOk(w, steps, info) ==>
              var r := RunTo(w, env, steps, info.start, info.end, cells);
              pc == r.0 && Get(cells', res) == Get(r.1, res)
  {
    var load := steps[info.start];
    var v := env.vars(load.slot, load.attnum);
    var r := info.default;
    if !v.isnull {
      r := SearchRange(info.low, info.uppers, info.results, info.default, Key(info.repr, v.value));
    }
    if RangeOk(w, steps, info) {
      OkIsRight(w, env, steps, info, res, cells);
    }
    return info.end, cells[load.dst := v][steps[ElseStart(info)].dst := Nullable(r, false)];
  }

  // ---- Where it does not ----

  /** A tested value, and one value for all open steps. */
  function PlainEnv(v: Nullable, other: Nullable): Env {
    Env((slot, attnum) => v, (id, cells) => other, (id, cells) => false)
  }

  /** Any circumstances the first branch can be in. */
  function StartCells(steps: seq<Step>, b: nat, y: Nullable, null0: bool): Cells
    requires WhenAt(steps, b)
  {
    var cells: Cells := if steps[b + 1].arg0.At? then map[steps[b + 1].arg0.cell := y] else map[];
    if steps[b + 2].And? then cells[steps[b + 2].anynull := Bool(null0)] else cells
  }

  lemma StartsSo(steps: seq<Step>, info: RangeInfo, res: Cell, y: Nullable, null0: bool)
    requires Pattern(steps, info) && AllWired(steps, info, res) && (null0 ==> steps[info.start + 2].And?)
    ensures Starting(steps, info, StartCells(steps, info.start, y, null0), y, null0)
  {
    BranchIs(steps, info, res, 0);
  }

  /** When the ELSE goes on behind its constant, a null shows it. */
  lemma LongElseDiffers(w: World, steps: seq<Step>, info: RangeInfo, res: Cell) returns (env: Env, cells: Cells)
    requires Forward(steps) && Pattern(steps, info) && AllWired(steps, info, res) && AllOpen(steps, info, res)
    requires !IsExact(info, |info.uppers|)
    ensures !SameResult(w, env, steps, info, res, cells)
  {
    var v := Nullable(0, true);
    cells := StartCells(steps, info.start, v, false);
    StartsSo(steps, info, res, v, false);
    var left := Get(Rewritten(steps, info, PlainEnv(v, v), cells), res);
    var other := left.(isnull := !left.isnull);
    env := PlainEnv(v, other);
    NullTaken(w, steps, info, res, v, v, false, 0);
    assert PartOpen(steps, info, res, |info.uppers|);
    TakenRuns(w, env, steps, info, res, 0, |info.uppers|, cells, v, false, other);
  }

  lemma SomeStart(w: World, steps: seq<Step>, info: RangeInfo, res: Cell, v: Nullable, most: bool)
      returns (y: Nullable, null0: bool)
    requires ValidWorld(w) && Pattern(steps, info) && AllWired(steps, info, res) && !v.isnull
    ensures null0 ==> steps[info.start + 2].And?
    ensures InsideBranch(w, steps, info, 0, v, y, null0) <==>
            In(Rank(w, info.repr, v.value), IntervalOf(w, steps, info, 0, most))
  {
    BranchesTyped(steps, info, res, 0);
    y, null0 := SomeInside(w, steps, info.start, info.repr, v, most);
  }

  /** A value and circumstances for which the branch taken is not sure to yield what the search
      finds. */
  lemma RangeValue(w: World, steps: seq<Step>, info: RangeInfo, res: Cell, most: bool)
      returns (v: Nullable, y: Nullable, null0: bool)
    requires ValidWorld(w) && Pattern(steps, info) && AllWired(steps, info, res) && !SearchOk(w, steps, info, most)
    ensures null0 ==> steps[info.start + 2].And?
    ensures !Yields(RangesOf(w, steps, info, most), Taken(w, steps, info, v, y, null0, 0), RewrittenValue(info, v))
  {
    var x := NotSearched(info.low, info.uppers, RangesOf(w, steps, info, most), Bottom(info.repr), Top(w, info.repr));
    RankOfRanked(w, info.repr, x);
    v := Nullable(Ranked(w, info.repr, x), false);
    y, null0 := SomeStart(w, steps, info, res, v, most);
    SearchShows(w, steps, info, res, v, y, null0, most, x);
  }

  lemma RangeDiffers(w: World, steps: seq<Step>, info: RangeInfo, res: Cell, most: bool)
      returns (env: Env, cells: Cells)
    requires ValidWorld(w) && Forward(steps) && Pattern(steps, info) && AllWired(steps, info, res)
    requires AllOpen(steps, info, res) && IsExact(info, |info.uppers|) && !SearchOk(w, steps, info, most)
    ensures !SameResult(w, env, steps, info, res, cells)
  {
    var v, y, null0 := RangeValue(w, steps, info, res, most);
    env, cells := PlainEnv(v, Nullable(0, true)), StartCells(steps, info.start, y, null0);
    StartsSo(steps, info, res, y, null0);
    var k := Taken(w, steps, info, v, y, null0, 0);
    assert PartOpen(steps, info, res, k);
    RewrittenLeaves(steps, info, env, res, cells);
    YieldsIs(w, env, steps, info, res, 0, k, cells, y, null0, most, RewrittenValue(info, v));
  }

  /** Coming from an earlier conjunct, a value that leads to something else than false. */
  lemma EntryDiffers(w: World, steps: seq<Step>, info: RangeInfo, res: Cell) returns (env: Env, cells: Cells)
    requires ValidWorld(w) && Forward(steps) && Pattern(steps, info) && AllWired(steps, info, res)
    requires AllOpen(steps, info, res) && IsExact(info, |info.uppers|) && !EntryOk(w, steps, info)
    ensures !SameEntry(w, env, steps, info, res, cells)
  {
    var v := EntryValue(w, steps, info, res);
    env, cells := EntryTakes(w, steps, info, res, v, Taken(w, steps, info, v, Nullable(0, true), false, 1));
  }

  lemma EntryValue(w: World, steps: seq<Step>, info: RangeInfo, res: Cell) returns (v: Nullable)
    requires ValidWorld(w) && Pattern(steps, info) && AllWired(steps, info, res) && !EntryOk(w, steps, info)
    ensures !Yields(RangesOf(w, steps, info, false), Taken(w, steps, info, v, Nullable(0, true), false, 1), FALSE)
  {
    if info.default != FALSE {
      v := Nullable(0, true);
      NullTaken(w, steps, info, res, v, v, false, 1);
    } else {
      var x := NotAllYield(RangesOf(w, steps, info, false), 1, Bottom(info.repr), Top(w, info.repr), FALSE);
      RankOfRanked(w, info.repr, x);
      v := Nullable(Ranked(w, info.repr, x), false);
      TakenIsFirst(w, steps, info, res, v, Nullable(0, true), false, false, 1);
    }
  }

  lemma EntryTakes(w: World, steps: seq<Step>, info: RangeInfo, res: Cell, v: Nullable, k: nat)
      returns (env: Env, cells: Cells)
    requires Forward(steps) && Pattern(steps, info) && AllWired(steps, info, res) && AllOpen(steps, info, res)
    requires k == Taken(w, steps, info, v, Nullable(0, true), false, 1) && IsExact(info, |info.uppers|)
    requires !Yields(RangesOf(w, steps, info, false), k, FALSE) && steps[info.start + 2].And?
    ensures !SameEntry(w, env, steps, info, res, cells)
  {
    var y := Nullable(0, true);
    env, cells := PlainEnv(v, y), map[res := Bool(false)];
    var cells1 := EntryRuns(w, env, steps, info, res, cells);
    assert PartOpen(steps, info, res, k);
    YieldsIs(w, env, steps, info, res, 1, k, cells1, y, false, false, FALSE);
  }

  /** For all cells, values and whatever open steps yield: the rewritten CASE leaves the result of
      the steps, wherever control comes from, if and only if the pattern meets the condition. */
  lemma RewrittenRangeExactlyWhen(w: World, steps: seq<Step>, info: RangeInfo, res: Cell)
    requires ValidWorld(w) && Forward(steps) && Pattern(steps, info) && AllWired(steps, info, res)
    requires AllOpen(steps, info, res)
    ensures (forall env: Env, cells: Cells ::
               SameResult(w, env, steps, info, res, cells) && SameEntry(w, env, steps, info, res, cells)) <==>
            RangeOk(w, steps, info)
  {
    if RangeOk(w, steps, info) {
      forall env: Env, cells: Cells
        ensures SameResult(w, env, steps, info, res, cells) && SameEntry(w, env, steps, info, res, cells)
      {
        OkIsRight(w, env, steps, info, res, cells);
        EntryIsRight(w, env, steps, info, res, cells);
      }
    } else {
      NotOkDiffers(w, steps, info, res);
    }
  }

  lemma NotOkDiffers(w: World, steps: seq<Step>, info: RangeInfo, res: Cell)
    requires ValidWorld(w) && Forward(steps) && Pattern(steps, info) && AllWired(steps, info, res)
    requires AllOpen(steps, info, res) && !RangeOk(w, steps, info)
    ensures exists env: Env, cells: Cells ::
              !(SameResult(w, env, steps, info, res, cells) && SameEntry(w, env, steps, info, res, cells))
  {
    if !IsExact(info, |info.uppers|) {
      var env, cells := LongElseDiffers(w, steps, info, res);
    } else if !EntryOk(w, steps, info) {
      var env, cells := EntryDiffers(w, steps, info, res);
    } else {
      var env, cells := RangeDiffers(w, steps, info, res, !SearchOk(w, steps, info, true));
    }
  }

  // ---- Ordinary ranges ----

  /** The lower bound of branch k. */
  ghost function Low(steps: seq<Step>, info: RangeInfo, k: nat): int
    requires Pattern(steps, info) && k < |info.uppers|
  {
    assert BranchRecorded(steps, info, k);
    LowKey(steps, info.repr, info.starts[k])
  }

  /** x >= lo AND x < hi, with the variable on the left and nothing in front. */
  ghost predicate PlainBranch(steps: seq<Step>, info: RangeInfo, k: nat)
    requires Pattern(steps, info) && k < |info.uppers|
  {
    assert BranchRecorded(steps, info, k);
    var b := info.starts[k];
    && steps[b + 2].AndFirst?
    && steps[b + 1].arg0 == At(steps[b].dst) && steps[b + 1].arg1.Fixed?
    && steps[b + 4].arg0 == At(steps[b + 3].dst) && steps[b + 4].arg1.Fixed?
  }

  ghost predicate AllPlain(steps: seq<Step>, info: RangeInfo)
    requires Pattern(steps, info)
  {
    forall k: nat | k < |info.uppers| :: PlainBranch(steps, info, k)
  }

  /** Such a branch applies for its recorded bounds. */
  lemma PlainInterval(w: World, steps: seq<Step>, info: RangeInfo, k: nat, most: bool)
    requires ValidWorld(w) && Pattern(steps, info) && k < |info.uppers| && PlainBranch(steps, info, k)
    ensures IntervalOf(w, steps, info, k, most) == Interval(Low(steps, info, k), info.uppers[k])
  {
    assert BranchRecorded(steps, info, k);
    var b := info.starts[k];
    RankInWord(w, info.repr, steps[b + 1].arg1.constant.value);
    RankInWord(w, info.repr, steps[b + 4].arg1.constant.value);
  }

  lemma PlainRanges(w: World, steps: seq<Step>, info: RangeInfo, most: bool)
    requires ValidWorld(w) && Pattern(steps, info) && AllPlain(steps, info)
    ensures var r := RangesOf(w, steps, info, most);
            && (forall k: nat | k < |info.uppers| :: r.lows[k] == Low(steps, info, k))
            && r.uppers == info.uppers && r.lows[0] == info.low && UpToNext(r.lows, r.uppers)
  {
    var r := RangesOf(w, steps, info, most);
    forall k: nat | k < |info.uppers| ensures r.lows[k] == Low(steps, info, k) && r.uppers[k] == info.uppers[k] {
      assert PlainBranch(steps, info, k);
      PlainInterval(w, steps, info, k, most);
    }
    forall k: nat | 0 < k < |info.uppers| ensures r.lows[k] == r.uppers[k - 1] {
      assert BranchRecorded(steps, info, k - 1);
    }
  }

  lemma PlainSearchOk(w: World, steps: seq<Step>, info: RangeInfo, most: bool)
    requires ValidWorld(w) && Pattern(steps, info) && AllPlain(steps, info)
    requires forall k: nat | k < |info.uppers| :: Low(steps, info, k) <= info.uppers[k] && IsExact(info, k)
    ensures SearchOk(w, steps, info, most)
  {
    var r := RangesOf(w, steps, info, most);
    PlainRanges(w, steps, info, most);
    assert NoneReversed(r.lows, r.uppers);
    assert forall k | 0 <= k < |r.exact| :: r.exact[k];
    OrdinaryRangesOk(r, Bottom(info.repr), Top(w, info.repr));
  }

  lemma NothingInFront(steps: seq<Step>, info: RangeInfo)
    requires Pattern(steps, info) && AllPlain(steps, info)
    ensures !steps[info.start + 2].And?
  {
    assert PlainBranch(steps, info, 0);
  }

  /** Ordinary ranges that are not turned round, with constant parts, meet the condition. */
  lemma ConstantRangesOk(w: World, steps: seq<Step>, info: RangeInfo)
    requires ValidWorld(w) && Pattern(steps, info) && AllPlain(steps, info)
    requires forall k: nat | k < |info.uppers| :: Low(steps, info, k) <= info.uppers[k] && IsExact(info, k)
    requires IsExact(info, |info.uppers|)
    ensures RangeOk(w, steps, info)
  {
    NothingInFront(steps, info);
    PlainSearchOk(w, steps, info, true);
    PlainSearchOk(w, steps, info, false);
  }

  /** For ordinary ranges, none of them empty, the condition says: every THEN and the ELSE are
      constants. */
  lemma LongThenExactlyWhen(w: World, steps: seq<Step>, info: RangeInfo)
    requires ValidWorld(w) && Pattern(steps, info) && AllPlain(steps, info)
    requires forall k: nat | k < |info.uppers| :: Low(steps, info, k) < info.uppers[k]
    ensures RangeOk(w, steps, info) <==> forall k: nat | k <= |info.uppers| :: IsExact(info, k)
  {
    if RangeOk(w, steps, info) {
      forall k: nat | k < |info.uppers| ensures IsExact(info, k) {
        OkNeedsExact(w, steps, info, k);
      }
    } else if forall k: nat | k <= |info.uppers| :: IsExact(info, k) {
      ConstantRangesOk(w, steps, info);
    }
  }

  lemma PlainPoint(w: World, steps: seq<Step>, info: RangeInfo, k: nat)
    requires ValidWorld(w) && Pattern(steps, info) && AllPlain(steps, info) && k < |info.uppers|
    requires forall m: nat | m < |info.uppers| :: Low(steps, info, m) < info.uppers[m]
    ensures var r := RangesOf(w, steps, info, true);
            && UpToNext(r.lows, r.uppers) && NoneReversed(r.lows, r.uppers)
            && r.uppers == info.uppers && r.lows[0] == info.low && r.lows[k] < r.uppers[k]
            && Bottom(info.repr) <= r.lows[k] < Top(w, info.repr) && r.exact[k] == IsExact(info, k)
  {
    PlainRanges(w, steps, info, true);
    assert BranchRecorded(steps, info, k) && PlainBranch(steps, info, k);
    RankInWord(w, info.repr, steps[info.starts[k] + 1].arg1.constant.value);
  }

  /** The lower bound of a range that is not empty leads to its THEN. */
  lemma OkNeedsExact(w: World, steps: seq<Step>, info: RangeInfo, k: nat)
    requires ValidWorld(w) && Pattern(steps, info) && AllPlain(steps, info) && SearchOk(w, steps, info, true)
    requires forall m: nat | m < |info.uppers| :: Low(steps, info, m) < info.uppers[m]
    requires k < |info.uppers|
    ensures IsExact(info, k)
  {
    PlainPoint(w, steps, info, k);
    OkIsExact(RangesOf(w, steps, info, true), Bottom(info.repr), Top(w, info.repr), k);
  }
}
