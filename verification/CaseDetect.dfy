/** First detection pass: chains of single comparisons (pg_jitter_detect_case_bsearch), and
    the code that replaces them. */
module CaseDetect {
  import opened CaseOrder
  import opened CaseSteps

  const MIN_BRANCHES := 4

  /** A detected pattern: where it stands and the data of the search. */
  datatype CaseInfo = CaseInfo(start: nat, elseStart: nat, end: nat, fn: Fn, coll: nat,
                               thresholds: seq<Datum>, results: seq<Datum>, default: Datum)

  // ---- Which order the equality search uses ----

  /** Text under a deterministic collation other than C is sorted and searched by bytes. */
  predicate UsesBytes(w: World, fn: Fn, coll: nat) {
    fn.repr == Generic && fn.family == TEXT && w.memcmp(coll)
  }

  function SearchOrder(w: World, fn: Fn, coll: nat): Order {
    if UsesBytes(w, fn, coll) then w.bytes else OrderOf(w, fn, coll)
  }

  /** Generic types without a known less-than function are scanned in source order. */
  predicate Sortable(w: World, fn: Fn) {
    fn.repr != Generic || w.hasLt(fn.family)
  }

  /** The table of less-than functions covers every type of the classification table. */
  ghost predicate KnownLt(w: World) {
    forall family :: w.hasLt(family)
  }

  lemma SearchOrderIsTotal(w: World, fn: Fn, coll: nat)
    requires ValidWorld(w)
    ensures TotalPreorder(SearchOrder(w, fn, coll))
    ensures forall a, b :: Same(SearchOrder(w, fn, coll), a, b) <==> Same(OrderOf(w, fn, coll), a, b)
  {
    OrderIsTotal(w, fn, coll);
  }

  // ---- The checks ----

  /** Integers and floats: strictly monotone.  Generic types: the operator itself holds
      between neighbours, so <= and >= admit equal neighbours. */
  predicate NeighboursOk(fn: Fn, le: Order, a: Datum, b: Datum) {
    if fn.repr == Generic then Holds(fn.kind, le, a, b)
    else if IsLess(fn.kind) then !le(b, a)
    else !le(a, b)
  }

  predicate AllNeighboursOk(fn: Fn, le: Order, ts: seq<Datum>) {
    forall k | 0 < k < |ts| :: NeighboursOk(fn, le, ts[k - 1], ts[k])
  }

  predicate NextOk(fn: Fn, le: Order, ts: seq<Datum>, nulls: seq<bool>, m: nat)
    requires 0 < m < |ts| == |nulls|
  {
    !nulls[m - 1] && !nulls[m] && NeighboursOk(fn, le, ts[m - 1], ts[m])
  }

  datatype Check = Passes | Fails | Undefined

  /** The thresholds from position k on, each beside the one before.  `nulls` marks words that are
      null pointers; what a comparison makes of these is not defined. */
  function CheckFrom(fn: Fn, le: Order, ts: seq<Datum>, nulls: seq<bool>, k: nat): (r: Check)
    requires 0 < k && |nulls| == |ts|
    ensures r.Passes? <==> forall m: nat | k <= m < |ts| :: NextOk(fn, le, ts, nulls, m)
    decreases |ts| - k
  {
    if k >= |ts| then Passes
    else if NextOk(fn, le, ts, nulls, k) then CheckFrom(fn, le, ts, nulls, k + 1)
    else if nulls[k - 1] || nulls[k] then Undefined
    else Fails
  }

  lemma CheckedIsMonotone(fn: Fn, le: Order, ts: seq<Datum>)
    requires fn.kind != EQ && TotalPreorder(le) && AllNeighboursOk(fn, le, ts)
    ensures Monotone(fn.kind, le, ts)
  {
    forall k | 0 < k < |ts| ensures InOrder(fn.kind, le, ts[k - 1], ts[k]) {
      assert NeighboursOk(fn, le, ts[k - 1], ts[k]);
    }
    forall i, j | 0 <= i < j < |ts| ensures InOrder(fn.kind, le, ts[i], ts[j]) {
      NeighboursSuffice(fn.kind, le, ts, i, j);
    }
  }

  predicate DistinctInOrder(le: Order, ps: seq<Pair>) {
    forall k | 0 < k < |ps| :: !Same(le, ps[k - 1].threshold, ps[k].threshold)
  }

  /** How many branches follow on, once k of them are known. */
  function ChainLength(steps: seq<Step>, i: nat, k: nat): (n: nat)
    requires BranchAt(steps, i) && k > 0
    ensures n >= k
    ensures forall m: nat | k <= m < n :: BranchOf(steps, i, m)
    ensures !BranchOf(steps, i, n)
    decreases |steps| - i - STRIDE * k
  {
    if BranchOf(steps, i, k) then ChainLength(steps, i, k + 1) else k
  }

  /** Stuck: the detector compares a null pointer, and nothing is said about what follows. */
  datatype Outcome = Skip(next: nat) | Found(info: CaseInfo) | Stuck

  /** What one look at step i yields. */
  function LookAt(w: World, steps: seq<Step>, i: nat): Outcome {
    if !BranchAt(steps, i) || !w.direct(steps[i + 1].fn) then Skip(i + 1)
    else
      var n := ChainLength(steps, i, 1);
      var j := i + STRIDE * n;
      var end := steps[i + 4].target;
      if steps[i + 2].target != i + STRIDE || !ElseAt(steps, j, end) then Skip(i + 1)
      else if n < MIN_BRANCHES then Skip(j)
      else Build(w, steps, i, n)
  }

  lemma ChainOfLength(steps: seq<Step>, i: nat)
    requires BranchAt(steps, i) && steps[i + 2].target == i + STRIDE
    ensures Chain(steps, i, ChainLength(steps, i, 1))
  {
    assert BranchOf(steps, i, 0);
  }

  /** Which threshold words of a by-reference type are null pointers: those of arguments that a
      step is still to write. */
  function NullWords(steps: seq<Step>, i: nat, n: nat): (nulls: seq<bool>)
    requires Chain(steps, i, n)
    ensures |nulls| == n
  {
    seq(n, k requires 0 <= k < n => NullWord(steps, i, k))
  }

  predicate NullWord(steps: seq<Step>, i: nat, k: nat)
    requires BranchAt(steps, i) && BranchOf(steps, i, k)
  {
    steps[i + 1].fn.repr == Generic && steps[i + STRIDE * k + 1].arg1.At?
  }

  function Build(w: World, steps: seq<Step>, i: nat, n: nat): Outcome
    requires BranchAt(steps, i) && steps[i + 2].target == i + STRIDE && n == ChainLength(steps, i, 1)
    requires ElseAt(steps, i + STRIDE * n, steps[i + 4].target)
  {
    ChainOfLength(steps, i);
    var j := i + STRIDE * n;
    var fn, coll := steps[i + 1].fn, steps[i + 1].coll;
    var ts, rs := ChainThresholds(steps, i, n), ChainResults(steps, i, n);
    var le := SearchOrder(w, fn, coll);
    var info := CaseInfo(i, j, steps[i + 4].target, fn, coll, ts, rs, steps[j].value.value);
    var nulls := NullWords(steps, i, n);
    if fn.kind != EQ then
      match CheckFrom(fn, OrderOf(w, fn, coll), ts, nulls, 1)
      case Passes => Found(info)
      case Fails => Skip(j)
      case Undefined => Stuck
    else if Sortable(w, fn) then
      var sorted := Sort(le, Zip(ts, rs));
      if true in nulls then Stuck
      else if DistinctInOrder(le, sorted) then
        Found(info.(thresholds := Thresholds(sorted), results := Results(sorted)))
      else Skip(j)
    else Found(info)
  }

  /** The whole pass: at most `max` patterns, each behind the end of the one before. */
  function FirstPass(w: World, steps: seq<Step>, i: nat, max: nat): seq<CaseInfo>
    requires Forward(steps)
    decreases |steps| - i
  {
    if i + STRIDE >= |steps| || max == 0 then []
    else
      match LookAt(w, steps, i)
      case Skip(next) => if next > i then FirstPass(w, steps, next, max) else []
      case Found(info) => if info.end > i then [info] + FirstPass(w, steps, info.end, max - 1) else []
      case Stuck => []
  }

  // ---- What a detected pattern is ----

  /** The fields that do not depend on the kind of comparison. */
  predicate BasicsOk(steps: seq<Step>, i: nat, info: CaseInfo)
    requires BranchAt(steps, i)
  {
    && info.start == i
    && |info.results| == |info.thresholds| >= MIN_BRANCHES
    && info.elseStart == i + STRIDE * |info.thresholds|
    && info.end == steps[i + 4].target
    && ElseAt(steps, info.elseStart, info.end)
    && info.fn == steps[i + 1].fn && info.coll == steps[i + 1].coll
    && info.default == steps[info.elseStart].value.value
  }

  ghost predicate Detected(w: World, steps: seq<Step>, info: CaseInfo) {
    var i, n := info.start, |info.thresholds|;
    && Chain(steps, i, n)
    && BasicsOk(steps, i, info)
    && if info.fn.kind != EQ then
         && info.thresholds == ChainThresholds(steps, i, n) && info.results == ChainResults(steps, i, n)
         && Monotone(info.fn.kind, OrderOf(w, info.fn, info.coll), info.thresholds)
       else if Sortable(w, info.fn) then
         && multiset(Zip(info.thresholds, info.results)) ==
            multiset(Zip(ChainThresholds(steps, i, n), ChainResults(steps, i, n)))
         && Ascending(SearchOrder(w, info.fn, info.coll), info.thresholds)
       else
         info.thresholds == ChainThresholds(steps, i, n) && info.results == ChainResults(steps, i, n)
  }

  /** A monotone chain as it stands is a detected pattern. */
  lemma MonotoneIsDetected(w: World, steps: seq<Step>, i: nat, info: CaseInfo)
    requires ValidWorld(w) && BranchAt(steps, i) && Chain(steps, i, |info.thresholds|)
    requires BasicsOk(steps, i, info) && info.fn.kind != EQ
    requires info.thresholds == ChainThresholds(steps, i, |info.thresholds|)
    requires info.results == ChainResults(steps, i, |info.thresholds|)
    requires AllNeighboursOk(info.fn, OrderOf(w, info.fn, info.coll), info.thresholds)
    ensures Detected(w, steps, info)
  {
    OrderIsTotal(w, info.fn, info.coll);
    CheckedIsMonotone(info.fn, OrderOf(w, info.fn, info.coll), info.thresholds);
  }

  /** So is an equality chain, sorted without equal neighbours. */
  lemma SortedIsDetected(w: World, steps: seq<Step>, i: nat, n: nat, info: CaseInfo)
    requires ValidWorld(w) && BranchAt(steps, i) && Chain(steps, i, n) && n == |info.thresholds|
    requires BasicsOk(steps, i, info) && info.fn.kind == EQ && Sortable(w, info.fn)
    requires var le := SearchOrder(w, info.fn, info.coll);
             var sorted := Sort(le, Zip(ChainThresholds(steps, i, n), ChainResults(steps, i, n)));
             && DistinctInOrder(le, sorted)
             && info.thresholds == Thresholds(sorted) && info.results == Results(sorted)
    ensures Detected(w, steps, info)
  {
    var le := SearchOrder(w, info.fn, info.coll);
    var pairs := Zip(ChainThresholds(steps, i, n), ChainResults(steps, i, n));
    SearchOrderIsTotal(w, info.fn, info.coll);
    SortSorts(le, pairs);
    DistinctNeighbours(le, Sort(le, pairs));
    assert Zip(info.thresholds, info.results) == Sort(le, pairs);
  }

  lemma SortKeepsLength(w: World, fn: Fn, coll: nat, ps: seq<Pair>)
    requires ValidWorld(w)
    ensures |Sort(SearchOrder(w, fn, coll), ps)| == |ps|
  {
    SearchOrderIsTotal(w, fn, coll);
    SortSorts(SearchOrder(w, fn, coll), ps);
    assert |multiset(Sort(SearchOrder(w, fn, coll), ps))| == |multiset(ps)|;
  }

  lemma FoundIsDetected(w: World, steps: seq<Step>, i: nat)
    requires ValidWorld(w) && LookAt(w, steps, i).Found?
    ensures Detected(w, steps, LookAt(w, steps, i).info)
    ensures LookAt(w, steps, i).info.start == i
  {
    var n := ChainLength(steps, i, 1);
    var info := LookAt(w, steps, i).info;
    ChainOfLength(steps, i);
    var ts, rs := ChainThresholds(steps, i, n), ChainResults(steps, i, n);
    if info.fn.kind != EQ {
      forall k | 0 < k < n ensures NeighboursOk(info.fn, OrderOf(w, info.fn, info.coll), ts[k - 1], ts[k]) {
        assert NextOk(info.fn, OrderOf(w, info.fn, info.coll), ts, NullWords(steps, i, n), k);
      }
      MonotoneIsDetected(w, steps, i, info);
    } else if Sortable(w, info.fn) {
      SortKeepsLength(w, info.fn, info.coll, Zip(ts, rs));
      SortedIsDetected(w, steps, i, n, info);
    }
  }

  lemma FirstPassSkips(w: World, steps: seq<Step>, i: nat, max: nat)
    requires Forward(steps) && i + STRIDE < |steps| && max > 0 && LookAt(w, steps, i).Skip?
    ensures i < LookAt(w, steps, i).next
    ensures FirstPass(w, steps, i, max) == [] + FirstPass(w, steps, LookAt(w, steps, i).next, max)
  {
    var next := LookAt(w, steps, i).next;
    assert [] + FirstPass(w, steps, next, max) == FirstPass(w, steps, next, max);
  }

  lemma FirstPassFinds(w: World, steps: seq<Step>, i: nat, max: nat)
    requires Forward(steps) && i + STRIDE < |steps| && max > 0 && LookAt(w, steps, i).Found?
    ensures i < LookAt(w, steps, i).info.end
    ensures var info := LookAt(w, steps, i).info;
            FirstPass(w, steps, i, max) == [info] + FirstPass(w, steps, info.end, max - 1)
  {
  }

  predicate Ordered(found: seq<CaseInfo>) {
    forall k | 0 < k < |found| :: found[k - 1].end <= found[k].start
  }

  ghost predicate AllDetected(w: World, steps: seq<Step>, i: nat, found: seq<CaseInfo>) {
    forall k | 0 <= k < |found| ::
      Detected(w, steps, found[k]) && LookAt(w, steps, found[k].start) == Found(found[k]) && i <= found[k].start
  }

  lemma InFront(w: World, steps: seq<Step>, i: nat, rest: seq<CaseInfo>)
    requires ValidWorld(w) && LookAt(w, steps, i).Found? && i <= LookAt(w, steps, i).info.end
    requires AllDetected(w, steps, LookAt(w, steps, i).info.end, rest) && Ordered(rest)
    ensures AllDetected(w, steps, i, [LookAt(w, steps, i).info] + rest)
    ensures Ordered([LookAt(w, steps, i).info] + rest)
  {
    FoundIsDetected(w, steps, i);
  }

  ghost predicate PassOk(w: World, steps: seq<Step>, i: nat, max: nat, found: seq<CaseInfo>) {
    |found| <= max && AllDetected(w, steps, i, found) && Ordered(found)
  }

  lemma SkipKeepsOk(w: World, steps: seq<Step>, i: nat, max: nat)
    requires Forward(steps) && i + STRIDE < |steps| && max > 0 && LookAt(w, steps, i).Skip?
    requires var next := LookAt(w, steps, i).next;
             i < next && PassOk(w, steps, next, max, FirstPass(w, steps, next, max))
    ensures PassOk(w, steps, i, max, FirstPass(w, steps, i, max))
  {
  }

  lemma FoundKeepsOk(w: World, steps: seq<Step>, i: nat, max: nat)
    requires ValidWorld(w) && Forward(steps) && i + STRIDE < |steps| && max > 0 && LookAt(w, steps, i).Found?
    requires var end := LookAt(w, steps, i).info.end;
             i < end && PassOk(w, steps, end, max - 1, FirstPass(w, steps, end, max - 1))
    ensures PassOk(w, steps, i, max, FirstPass(w, steps, i, max))
  {
    InFront(w, steps, i, FirstPass(w, steps, LookAt(w, steps, i).info.end, max - 1));
  }

  /** Everything the pass reports is a detected pattern; patterns do not overlap. */
  lemma {:induction false} FirstPassIsSound(w: World, steps: seq<Step>, i: nat, max: nat)
    requires ValidWorld(w) && Forward(steps)
    ensures PassOk(w, steps, i, max, FirstPass(w, steps, i, max))
    decreases |steps| - i
  {
    if i + STRIDE < |steps| && max > 0 {
      if LookAt(w, steps, i).Skip? {
        FirstPassSkips(w, steps, i, max);
        FirstPassIsSound(w, steps, LookAt(w, steps, i).next, max);
        SkipKeepsOk(w, steps, i, max);
      } else if LookAt(w, steps, i).Found? {
        FirstPassFinds(w, steps, i, max);
        FirstPassIsSound(w, steps, LookAt(w, steps, i).info.end, max - 1);
        FoundKeepsOk(w, steps, i, max);
      }
    }
  }
}
