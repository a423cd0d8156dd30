/** The detection loop of the first pass and the search helpers. */
module CaseRewrite {
  import opened CaseOrder
  import opened CaseSteps
  import opened CaseDetect
  import opened Wrappers

  // ---- The detection loop ----

  method CountBranches(steps: seq<Step>, i: nat) returns (n: nat)
    requires BranchAt(steps, i)
    ensures n == ChainLength(steps, i, 1)
  {
    n := 1;
    while i + STRIDE * n + STRIDE - 1 < |steps| && BranchOf(steps, i, n)
      invariant n >= 1 && ChainLength(steps, i, n) == ChainLength(steps, i, 1)
      decreases |steps| - STRIDE * n
    {
      n := n + 1;
    }
  }

  method CheckMonotone(fn: Fn, le: Order, ts: seq<Datum>, nulls: seq<bool>) returns (r: Check)
    requires |nulls| == |ts|
    ensures r == CheckFrom(fn, le, ts, nulls, 1)
  {
    var k := 1;
    while k < |ts|
      invariant 1 <= k
      invariant CheckFrom(fn, le, ts, nulls, k) == CheckFrom(fn, le, ts, nulls, 1)
    {
      if nulls[k - 1] || nulls[k] {
        return Undefined;
      }
      if !NeighboursOk(fn, le, ts[k - 1], ts[k]) {
        return Fails;
      }
      k := k + 1;
    }
    return Passes;
  }

  method CheckDistinct(le: Order, ps: seq<Pair>) returns (ok: bool)
    ensures ok <==> DistinctInOrder(le, ps)
  {
    var k := 1;
    while k < |ps|
      invariant 1 <= k
      invariant forall m | 0 < m < k && m < |ps| :: !Same(le, ps[m - 1].threshold, ps[m].threshold)
    {
      if Same(le, ps[k - 1].threshold, ps[k].threshold) {
        return false;
      }
      k := k + 1;
    }
    return true;
  }

  method BuildInfo(w: World, steps: seq<Step>, i: nat, n: nat) returns (r: Outcome)
    requires BranchAt(steps, i) && steps[i + 2].target == i + STRIDE && n == ChainLength(steps, i, 1)
    requires ElseAt(steps, i + STRIDE * n, steps[i + 4].target)
    ensures r == Build(w, steps, i, n)
  {
    ChainOfLength(steps, i);
    var j := i + STRIDE * n;
    var fn, coll := steps[i + 1].fn, steps[i + 1].coll;
    var ts, rs := ChainThresholds(steps, i, n), ChainResults(steps, i, n);
    var info := CaseInfo(i, j, steps[i + 4].target, fn, coll, ts, rs, steps[j].value.value);
    if fn.kind != EQ {
      var monotone := CheckMonotone(fn, OrderOf(w, fn, coll), ts, NullWords(steps, i, n));
      return match monotone case Passes => Found(info) case Fails => Skip(j) case Undefined => Stuck;
    }
    if Sortable(w, fn) {
      if true in NullWords(steps, i, n) {
        return Stuck;
      }
      var le := SearchOrder(w, fn, coll);
      var sorted := Sort(le, Zip(ts, rs));
      var distinct := CheckDistinct(le, sorted);
      return if distinct then Found(info.(thresholds := Thresholds(sorted), results := Results(sorted))) else Skip(j);
    }
    return Found(info);
  }

  method LookAtStep(w: World, steps: seq<Step>, i: nat) returns (r: Outcome)
    ensures r == LookAt(w, steps, i)
  {
    if !BranchAt(steps, i) || !w.direct(steps[i + 1].fn) {
      return Skip(i + 1);
    }
    var n := CountBranches(steps, i);
    if steps[i + 2].target != i + STRIDE || !ElseAt(steps, i + STRIDE * n, steps[i + 4].target) {
      return Skip(i + 1);
    }
    if n < MIN_BRANCHES {
      return Skip(i + STRIDE * n);
    }
    r := BuildInfo(w, steps, i, n);
  }

  /** One turn of the loop: a pattern or none, and where to look next; or the end. */
  method Turn(w: World, steps: seq<Step>, i: nat, ghost max: nat) returns (found: seq<CaseInfo>, next: nat, stuck: bool)
    requires Forward(steps) && i + STRIDE < |steps| && max > 0
    ensures stuck ==> found == [] && FirstPass(w, steps, i, max) == []
    ensures !stuck ==> i < next && |found| <= 1
    ensures !stuck ==> FirstPass(w, steps, i, max) == found + FirstPass(w, steps, next, max - |found|)
  {
    var look := LookAtStep(w, steps, i);
    stuck := look.Stuck?;
    if look.Skip? {
      FirstPassSkips(w, steps, i, max);
      found, next := [], look.next;
    } else if look.Found? {
      FirstPassFinds(w, steps, i, max);
      found, next := [look.info], look.info.end;
    } else {
      found, next := [], i;
    }
  }

  /** The first pass of pg_jitter_detect_case_bsearch. */
  method DetectCases(w: World, steps: seq<Step>, max: nat) returns (out: seq<CaseInfo>)
    requires ValidWorld(w) && Forward(steps)
    ensures out == FirstPass(w, steps, 0, max)
    ensures |out| <= max && AllDetected(w, steps, 0, out) && Ordered(out)
  {
    out := DetectFrom(w, steps, max);
    FirstPassIsSound(w, steps, 0, max);
  }

  method DetectFrom(w: World, steps: seq<Step>, max: nat) returns (out: seq<CaseInfo>)
    requires Forward(steps)
    ensures out == FirstPass(w, steps, 0, max)
  {
    out := [];
    var i := 0;
    ghost var all := FirstPass(w, steps, 0, max);
    while i + STRIDE < |steps| && |out| < max
      invariant |out| <= max
      invariant all == out + FirstPass(w, steps, i, max - |out|)
      decreases |steps| - i
    {
      var found, next, stuck := Turn(w, steps, i, max - |out|);
      if stuck {
        break;
      }
      Regroup(out, found, FirstPass(w, steps, next, max - |out| - |found|));
      out := out + found;
      i := next;
    }
    assert out + [] == out;
  }

  // ---- The helpers ----

  /** The helper chosen for a detected pattern (pg_jitter_select_bsearch_helper), applied to a
      value that is not null: the result of the first branch that applies. */
  method RunHelper(w: World, steps: seq<Step>, info: CaseInfo, v: Datum) returns (r: Datum)
    requires ValidWorld(w) && Detected(w, steps, info)
    ensures r == ChainValue(w, steps, info.start, |info.thresholds|, 0, Nullable(v, false))
  {
    if info.fn.kind != EQ {
      r := SearchMonotone(w, steps, info, v);
    } else if Sortable(w, info.fn) {
      r := SearchSorted(w, steps, info, v);
    } else {
      r := ScanInOrder(OrderOf(w, info.fn, info.coll), v, info.thresholds, info.results, info.default);
    }
  }

  method SearchMonotone(w: World, steps: seq<Step>, info: CaseInfo, v: Datum) returns (r: Datum)
    requires ValidWorld(w) && Detected(w, steps, info) && info.fn.kind != EQ
    ensures r == ChainValue(w, steps, info.start, |info.thresholds|, 0, Nullable(v, false))
  {
    OrderIsTotal(w, info.fn, info.coll);
    r := SearchFirst(info.fn.kind, OrderOf(w, info.fn, info.coll), v, info.thresholds, info.results, info.default);
  }

  method SearchSorted(w: World, steps: seq<Step>, info: CaseInfo, v: Datum) returns (r: Datum)
    requires ValidWorld(w) && Detected(w, steps, info) && info.fn.kind == EQ && Sortable(w, info.fn)
    ensures r == ChainValue(w, steps, info.start, |info.thresholds|, 0, Nullable(v, false))
  {
    var order := SearchOrder(w, info.fn, info.coll);
    SearchOrderIsTotal(w, info.fn, info.coll);
    ghost var k;
    r, k := SearchEqual(order, v, info.thresholds, info.results, info.default);
    SortedAnswer(w, steps, info, v, k, r);
  }

  lemma SortedAnswer(w: World, steps: seq<Step>, info: CaseInfo, v: Datum, k: nat, r: Datum)
    requires ValidWorld(w) && Detected(w, steps, info) && info.fn.kind == EQ && Sortable(w, info.fn)
    requires var order := SearchOrder(w, info.fn, info.coll);
             if k < |info.thresholds| then Same(order, v, info.thresholds[k]) && r == info.results[k]
             else r == info.default && forall i | 0 <= i < |info.thresholds| :: !Same(order, v, info.thresholds[i])
    ensures r == ChainValue(w, steps, info.start, |info.thresholds|, 0, Nullable(v, false))
  {
    var order := SearchOrder(w, info.fn, info.coll);
    SearchOrderIsTotal(w, info.fn, info.coll);
    var n := |info.thresholds|;
    var ts, rs := ChainThresholds(steps, info.start, n), ChainResults(steps, info.start, n);
    var sorted := Zip(info.thresholds, info.results);
    assert Thresholds(sorted) == info.thresholds;
    SortedSearchIsFirstMatch(order, v, ts, rs, sorted, info.default);
    SameFirstMatch(order, OrderOf(w, info.fn, info.coll), v, ts);
    if k < n {
      assert Same(order, v, sorted[k].threshold);
    }
  }

  /** Equal orders up to equivalence find the same first equal threshold. */
  lemma SameFirstMatch(le: Order, le': Order, v: Datum, ts: seq<Datum>)
    requires forall a, b :: Same(le, a, b) <==> Same(le', a, b)
    ensures FirstMatch(EQ, le, v, ts, 0) == FirstMatch(EQ, le', v, ts, 0)
  {
    var k := FirstMatch(EQ, le', v, ts, 0);
    forall i | 0 <= i < k ensures !Holds(EQ, le, v, ts[i]) {
      assert !Holds(EQ, le', v, ts[i]);
      assert Same(le, v, ts[i]) <==> Same(le', v, ts[i]);
    }
    if k < |ts| {
      assert Same(le', v, ts[k]);
    }
    FirstMatchIs(EQ, le, v, ts, k);
  }

  method ScanInOrder(le: Order, v: Datum, ts: seq<Datum>, results: seq<Datum>, default: Datum) returns (r: Datum)
    requires |results| == |ts|
    ensures r == Pick(results, FirstMatch(EQ, le, v, ts, 0), default)
  {
    var i := 0;
    while i < |ts|
      invariant 0 <= i <= |ts|
      invariant forall k | 0 <= k < i :: !Holds(EQ, le, v, ts[k])
    {
      if Holds(EQ, le, v, ts[i]) {
        FirstMatchIs(EQ, le, v, ts, i);
        return results[i];
      }
      i := i + 1;
    }
    FirstMatchIs(EQ, le, v, ts, i);
    return default;
  }
}
