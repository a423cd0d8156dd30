/** The rewritten CASE, and exactly when it leaves what its steps leave. */
module CaseExact {
  import opened CaseOrder
  import opened CaseSteps
  import opened CaseDetect
  import opened CaseCollation
  import opened CaseOperands
  import opened CaseRewrite

  // ---- The rewritten CASE ----

  /** The cells behind the rewritten CASE: the load, and the value of the search where the ELSE
      constant goes. */
  function Rewritten(w: World, env: Env, steps: seq<Step>, i: nat, n: nat, cells: Cells): Cells
    requires FullChain(steps, i, n)
  {
    var v := Tested(steps, i, env, cells);
    cells[steps[i].dst := v][steps[i + STRIDE * n].dst := Nullable(ChainValue(w, steps, i, n, 0, v), false)]
  }

  ghost predicate SameCase(w: World, env: Env, steps: seq<Step>, i: nat, n: nat, res: Cell, cells: Cells)
    requires Forward(steps) && FullChain(steps, i, n)
  {
    Get(Rewritten(w, env, steps, i, n, cells), res) ==
    Get(RunTo(w, env, steps, i, steps[i + 4].target, cells).1, res)
  }

  /** The form and the wiring of a chain that may be reported. */
  ghost predicate WiredCase(steps: seq<Step>, i: nat, n: nat, res: Cell) {
    && Forward(steps) && Chain(steps, i, n) && Wired(steps, i, n, res)
    && ElseAt(steps, i + STRIDE * n, steps[i + 4].target)
  }

  /** What running the steps comes to. */
  lemma CaseRuns(w: World, env: Env, steps: seq<Step>, i: nat, n: nat, res: Cell, cells: Cells)
    requires WiredCase(steps, i, n, res)
    ensures var v, y := Tested(steps, i, env, cells), Before(steps, i, cells);
            && RunTo(w, env, steps, i, steps[i + 4].target, cells).0 == steps[i + 4].target
            && (SameCase(w, env, steps, i, n, res, cells) <==>
                BranchValue(w, steps, i, n, 0, v, y) == ChainValue(w, steps, i, n, 0, v))
  {
    ChainRuns(w, env, steps, i, n, res, 0, cells, Before(steps, i, cells));
    assert BranchWired(steps, i, 0, res);
  }

  /** Any tested value and any value of another compared cell stand in some cells. */
  lemma SomeCells(steps: seq<Step>, i: nat, n: nat, res: Cell, v: Nullable, y: Nullable)
      returns (env: Env, cells: Cells)
    requires WiredCase(steps, i, n, res)
    ensures Tested(steps, i, env, cells) == v
    ensures TakesOther(steps, i) ==> Before(steps, i, cells) == y
  {
    env := Env((slot, attnum) => v, (id, c) => v, (id, c) => false);
    cells := map[];
    assert BranchOf(steps, i, 0) && BranchWired(steps, i, 0, res);
    if TakesOther(steps, i) {
      cells := cells[steps[i + 1].arg0.cell := y];
    }
    if steps[i].CaseTestval? {
      cells := cells[steps[i].src := v];
    }
  }

  /** Without another compared cell it does not matter what other cells hold. */
  lemma {:induction false} OtherIsIgnored(w: World, steps: seq<Step>, i: nat, n: nat, res: Cell, k: nat, v: Nullable,
                                          y: Nullable, y': Nullable)
    requires WiredCase(steps, i, n, res) && k <= n && (TakesOther(steps, i) ==> y == y')
    ensures BranchValue(w, steps, i, n, k, v, y) == BranchValue(w, steps, i, n, k, v, y')
    decreases n - k
  {
    if k < n {
      assert BranchOf(steps, i, k) && BranchWired(steps, i, k, res);
      OtherIsIgnored(w, steps, i, n, res, k + 1, v, y, y');
    }
  }

  /** A difference in the values shows in some cells. */
  lemma DifferenceShows(w: World, steps: seq<Step>, i: nat, n: nat, res: Cell, v: Nullable, y: Nullable)
      returns (env: Env, cells: Cells)
    requires WiredCase(steps, i, n, res) && BranchValue(w, steps, i, n, 0, v, y) != ChainValue(w, steps, i, n, 0, v)
    ensures !SameCase(w, env, steps, i, n, res, cells)
  {
    env, cells := SomeCells(steps, i, n, res, v, y);
    OtherIsIgnored(w, steps, i, n, res, 0, v, y, Before(steps, i, cells));
    CaseRuns(w, env, steps, i, n, res, cells);
  }

  // ---- Integers and floats ----

  /** For all cells: the rewritten CASE leaves the result of the steps if and only if the words
      that were read as thresholds lead to it. */
  lemma RankedExactlyWhen(w: World, steps: seq<Step>, i: nat, n: nat, res: Cell)
    requires ValidWorld(w) && WiredCase(steps, i, n, res) && steps[i + 1].fn.repr != Generic
    ensures (forall env: Env, cells: Cells :: SameCase(w, env, steps, i, n, res, cells)) <==> OperandsOk(w, steps, i, n)
  {
    assert NonGenericChain(steps, i, n, res);
    if OperandsOk(w, steps, i, n) {
      forall env: Env, cells: Cells ensures SameCase(w, env, steps, i, n, res, cells) {
        CaseRuns(w, env, steps, i, n, res, cells);
        OkAgrees(w, steps, i, n, res, Tested(steps, i, env, cells), Before(steps, i, cells));
      }
    } else {
      var v, y := NotOkDiffers(w, steps, i, n, res);
      var env, cells := DifferenceShows(w, steps, i, n, res, v, y);
    }
  }

  // ---- Generic types ----

  /** The steps at i have the form of a CASE that may be reported. */
  predicate CaseAt(steps: seq<Step>, i: nat, n: nat) {
    && BranchAt(steps, i) && steps[i + 2].target == i + STRIDE
    && n == ChainLength(steps, i, 1) >= MIN_BRANCHES
    && ElseAt(steps, i + STRIDE * n, steps[i + 4].target)
  }

  function BranchesOf(steps: seq<Step>, i: nat, n: nat): (b: Branches)
    requires FullChain(steps, i, n)
    ensures ValidBranches(b) && |b.ts| == n
  {
    Branches(steps[i + 1].fn, ChainThresholds(steps, i, n),
             seq(n, k requires 0 <= k < n => BranchCollation(steps, i, k)), ChainResults(steps, i, n),
             steps[i + STRIDE * n].value.value)
  }

  lemma {:induction false} BranchesYield(w: World, steps: seq<Step>, i: nat, n: nat, k: nat, v: Nullable, y: Nullable)
    requires FullChain(steps, i, n) && LoadsFirst(steps, i, n) && k <= n
    ensures var b := BranchesOf(steps, i, n);
            BranchValue(w, steps, i, n, k, v, y) ==
            if v.isnull then b.default else Pick(b.rs, FirstOwn(w, b, v.value, k), b.default)
    decreases n - k
  {
    if k < n {
      assert BranchOf(steps, i, k) && BranchLoadsFirst(steps, i, k);
      BranchesYield(w, steps, i, n, k + 1, v, y);
    }
  }

  /** No threshold word is a null pointer. */
  predicate ReadsConstants(steps: seq<Step>, i: nat, n: nat)
    requires Chain(steps, i, n)
  {
    forall k: nat | k < n :: !NullWord(steps, i, k)
  }

  /** A chain over a generic type is reported only where every threshold is a constant. */
  lemma GenericReported(w: World, steps: seq<Step>, i: nat, n: nat)
    requires CaseAt(steps, i, n) && Chain(steps, i, n) && steps[i + 1].fn.repr == Generic && KnownLt(w)
    ensures LookAt(w, steps, i).Found? <==> ReadsConstants(steps, i, n) && Reported(w, BranchesOf(steps, i, n))
  {
    var nulls, ts, fn := NullWords(steps, i, n), ChainThresholds(steps, i, n), steps[i + 1].fn;
    var le := OrderOf(w, fn, steps[i + 1].coll);
    assert BranchOf(steps, i, 0) && BranchCollation(steps, i, 0) == steps[i + 1].coll;
    assert true in nulls <==> !ReadsConstants(steps, i, n) by {
      forall k: nat | k < n ensures nulls[k] == NullWord(steps, i, k) {
      }
    }
    if fn.kind != EQ {
      assert CheckFrom(fn, le, ts, nulls, 1).Passes? <==>
             ReadsConstants(steps, i, n) && AllNeighboursOk(fn, le, ts) by {
        PassesWhen(steps, i, n, fn, le);
      }
    }
  }

  lemma PassesWhen(steps: seq<Step>, i: nat, n: nat, fn: Fn, le: Order)
    requires Chain(steps, i, n) && n >= MIN_BRANCHES
    ensures CheckFrom(fn, le, ChainThresholds(steps, i, n), NullWords(steps, i, n), 1).Passes? <==>
            ReadsConstants(steps, i, n) && AllNeighboursOk(fn, le, ChainThresholds(steps, i, n))
  {
    var nulls, ts := NullWords(steps, i, n), ChainThresholds(steps, i, n);
    forall k: nat | k < n ensures nulls[k] == NullWord(steps, i, k) {
    }
    if forall m: nat | 1 <= m < n :: NextOk(fn, le, ts, nulls, m) {
      forall k: nat | k < n ensures !NullWord(steps, i, k) {
        assert NextOk(fn, le, ts, nulls, if k == 0 then 1 else k);
      }
      forall k | 0 < k < n ensures NeighboursOk(fn, le, ts[k - 1], ts[k]) {
        assert NextOk(fn, le, ts, nulls, k);
      }
    }
  }

  /** Then every comparison takes its load first. */
  lemma ConstantsLoadFirst(steps: seq<Step>, i: nat, n: nat, res: Cell)
    requires WiredCase(steps, i, n, res) && steps[i + 1].fn.repr == Generic && ReadsConstants(steps, i, n)
    ensures LoadsFirst(steps, i, n)
  {
    forall k: nat | k < n ensures BranchLoadsFirst(steps, i, k) {
      assert BranchWired(steps, i, k, res) && !NullWord(steps, i, k);
    }
  }

  lemma HarmlessCase(w: World, env: Env, steps: seq<Step>, i: nat, n: nat, res: Cell, cells: Cells)
    requires ValidWorld(w) && KnownLt(w) && LookAt(w, steps, i).Found?
    requires WiredCase(steps, i, n, res) && CaseAt(steps, i, n) && steps[i + 1].fn.repr == Generic
    requires Harmless(BranchesOf(steps, i, n))
    ensures SameCase(w, env, steps, i, n, res, cells)
  {
    GenericReported(w, steps, i, n);
    ConstantsLoadFirst(steps, i, n, res);
    HarmlessValue(w, steps, i, n, Tested(steps, i, env, cells), Before(steps, i, cells));
    CaseRuns(w, env, steps, i, n, res, cells);
  }

  lemma HarmlessValue(w: World, steps: seq<Step>, i: nat, n: nat, v: Nullable, y: Nullable)
    requires ValidWorld(w) && KnownLt(w) && FullChain(steps, i, n) && LoadsFirst(steps, i, n)
    requires Reported(w, BranchesOf(steps, i, n)) && Harmless(BranchesOf(steps, i, n))
    ensures BranchValue(w, steps, i, n, 0, v, y) == ChainValue(w, steps, i, n, 0, v)
  {
    BranchesYield(w, steps, i, n, 0, v, y);
    assert BranchOf(steps, i, 0) && BranchCollation(steps, i, 0) == steps[i + 1].coll;
    if !v.isnull {
      HarmlessIsRight(w, BranchesOf(steps, i, n), v.value);
    }
  }

  lemma HarmfulShows(steps: seq<Step>, i: nat, n: nat, res: Cell) returns (w: World, env: Env, cells: Cells)
    requires WiredCase(steps, i, n, res) && CaseAt(steps, i, n) && steps[i + 1].fn.repr == Generic
    requires ReadsConstants(steps, i, n) && !Harmless(BranchesOf(steps, i, n))
    ensures ValidWorld(w) && KnownLt(w) && LookAt(w, steps, i).Found?
    ensures !SameCase(w, env, steps, i, n, res, cells)
  {
    var v;
    w, v := HarmfulDiffers(BranchesOf(steps, i, n));
    GenericReported(w, steps, i, n);
    ConstantsLoadFirst(steps, i, n, res);
    BranchesYield(w, steps, i, n, 0, Nullable(v, false), Nullable(v, false));
    assert BranchOf(steps, i, 0) && BranchCollation(steps, i, 0) == steps[i + 1].coll;
    env, cells := DifferenceShows(w, steps, i, n, res, Nullable(v, false), Nullable(v, false));
  }

  /** Over all worlds that report the chain, and all cells: the rewritten CASE leaves the result of
      the steps if and only if the chain is harmless (or never reported, its thresholds not being
      constants). */
  lemma GenericExactlyWhen(steps: seq<Step>, i: nat, n: nat, res: Cell)
    requires WiredCase(steps, i, n, res) && CaseAt(steps, i, n) && steps[i + 1].fn.repr == Generic
    ensures (forall w: World, env: Env, cells: Cells | ValidWorld(w) && KnownLt(w) && LookAt(w, steps, i).Found? ::
               SameCase(w, env, steps, i, n, res, cells)) <==>
            (ReadsConstants(steps, i, n) ==> Harmless(BranchesOf(steps, i, n)))
  {
    if ReadsConstants(steps, i, n) && !Harmless(BranchesOf(steps, i, n)) {
      var w, env, cells := HarmfulShows(steps, i, n, res);
    } else {
      forall w: World, env: Env, cells: Cells | ValidWorld(w) && KnownLt(w) && LookAt(w, steps, i).Found?
        ensures SameCase(w, env, steps, i, n, res, cells)
      {
        GenericReported(w, steps, i, n);
        HarmlessCase(w, env, steps, i, n, res, cells);
      }
    }
  }

  /** With one collation every chain is harmless. */
  lemma OneCollationHarmless(steps: seq<Step>, i: nat, n: nat)
    requires FullChain(steps, i, n) && OneCollation(steps, i, n)
    ensures Harmless(BranchesOf(steps, i, n))
  {
    var b := BranchesOf(steps, i, n);
    forall k: nat | k < n ensures First(b, k) {
      assert BranchOf(steps, i, k) && BranchOf(steps, i, 0);
      assert BranchCollation(steps, i, k) == steps[i + 1].coll == BranchCollation(steps, i, 0);
    }
  }

  // ---- The emitted code ----

  /** The condition for one world. */
  predicate CaseOk(w: World, steps: seq<Step>, i: nat, n: nat)
    requires FullChain(steps, i, n)
  {
    if steps[i + 1].fn.repr == Generic then Harmless(BranchesOf(steps, i, n)) else OperandsOk(w, steps, i, n)
  }

  lemma OkIsSame(w: World, env: Env, steps: seq<Step>, i: nat, n: nat, res: Cell, cells: Cells)
    requires ValidWorld(w) && KnownLt(w) && LookAt(w, steps, i).Found?
    requires WiredCase(steps, i, n, res) && CaseAt(steps, i, n) && CaseOk(w, steps, i, n)
    ensures SameCase(w, env, steps, i, n, res, cells)
  {
    if steps[i + 1].fn.repr == Generic {
      HarmlessCase(w, env, steps, i, n, res, cells);
    } else {
      RankedExactlyWhen(w, steps, i, n, res);
    }
  }

  /** The code emitted for a reported pattern: load the value, call the helper (or take the ELSE
      value for a null), store the result where the ELSE constant goes, go to the end. */
  method RunRewritten(w: World, env: Env, steps: seq<Step>, info: CaseInfo, cells: Cells, ghost res: Cell)
      returns (pc: nat, cells': Cells)
    requires ValidWorld(w) && KnownLt(w)
    requires Detected(w, steps, info) && LookAt(w, steps, info.start) == Found(info)
    requires WiredCase(steps, info.start, |info.thresholds|, res)
    ensures cells' == Rewritten(w, env, steps, info.start, |info.thresholds|, cells)
    ensures pc == RunTo(w, env, steps, info.start, info.end, cells).0
    ensures CaseOk(w, steps, info.start, |info.thresholds|) ==>
              SameCase(w, env, steps, info.start, |info.thresholds|, res, cells)
  {
    ghost var i, n := info.start, |info.thresholds|;
    CaseRuns(w, env, steps, i, n, res, cells);
    FoundIsCase(w, steps, info);
    if CaseOk(w, steps, i, n) {
      OkIsSame(w, env, steps, i, n, res, cells);
    }
    cells' := LoadAndSearch(w, env, steps, info, cells);
    return info.end, cells';
  }

  lemma FoundIsCase(w: World, steps: seq<Step>, info: CaseInfo)
    requires Detected(w, steps, info) && LookAt(w, steps, info.start) == Found(info)
    ensures CaseAt(steps, info.start, |info.thresholds|) && info.end == steps[info.start + 4].target
  {
  }

  method LoadAndSearch(w: World, env: Env, steps: seq<Step>, info: CaseInfo, cells: Cells) returns (cells': Cells)
    requires ValidWorld(w) && Forward(steps) && Detected(w, steps, info)
    ensures cells' == Rewritten(w, env, steps, info.start, |info.thresholds|, cells)
  {
    assert BranchOf(steps, info.start, 0);
    var load := steps[info.start];
    var cells1 := Exec(w, env, steps, info.start, cells).1;
    var v := Get(cells1, load.dst);
    var r := info.default;
    if !v.isnull {
      r := RunHelper(w, steps, info, v.value);
    }
    return cells1[steps[info.elseStart].dst := Nullable(r, false)];
  }
}
