/** Second detection pass: CASE over contiguous ranges (WHEN x >= lo AND x < hi THEN const). */
module CaseRange {
  import opened CaseOrder
  import opened CaseSteps
  import opened Wrappers

  const WHEN_LEN := 7
  const MAX_THEN := 20
  const MAX_RANGES := 128
  const MIN_RANGES := 4

  // ---- The shape of a branch ----

  /** x >= lo, AND, x < hi (or <=), AND, jump to the next branch. */
  predicate WhenAt(steps: seq<Step>, b: nat) {
    && b + WHEN_LEN < |steps|
    && steps[b].Var?
    && steps[b + 1].FuncStrict?
    && (steps[b + 2].Qual? || steps[b + 2].AndFirst? || steps[b + 2].And?)
    && steps[b + 3].Var?
    && steps[b + 4].FuncStrict?
    && (steps[b + 5].Qual? || steps[b + 5].AndLast? || steps[b + 5].And?)
    && steps[b + 6].JumpIfNotTrue?
    && !FrameWord(steps[b + 1].arg1).isnull && !FrameWord(steps[b + 4].arg1).isnull
  }

  predicate SameVar(a: Step, b: Step) {
    a.Var? && b.Var? && a.slot == b.slot && a.attnum == b.attnum
  }

  predicate HeadAt(steps: seq<Step>, i: nat) {
    && WhenAt(steps, i)
    && SameVar(steps[i], steps[i + 3])
    && steps[i + 1].fn.kind == GE
    && IsLess(steps[i + 4].fn.kind)
    && steps[i + 1].fn.repr == steps[i + 4].fn.repr
  }

  predicate SameWhen(steps: seq<Step>, i: nat, b: nat)
    requires HeadAt(steps, i) && WhenAt(steps, b)
  {
    && SameVar(steps[i], steps[b]) && SameVar(steps[i], steps[b + 3])
    && steps[b + 1].fn == steps[i + 1].fn && steps[b + 4].fn == steps[i + 4].fn
  }

  /** The first jump (to `end`, if given) in steps[s..limit], or limit. */
  function FindJump(steps: seq<Step>, s: nat, limit: nat, end: Option<nat>): (e: nat)
    requires s <= limit <= |steps|
    ensures s <= e <= limit
    ensures e < limit ==> steps[e].Jump? && (end.Some? ==> steps[e].target == end.value)
    decreases limit - s
  {
    if s == limit || (steps[s].Jump? && (end.None? || steps[s].target == end.value)) then s
    else FindJump(steps, s + 1, limit, end)
  }

  function ThenLimit(steps: seq<Step>, b: nat): (l: nat)
    requires WhenAt(steps, b)
    ensures b + WHEN_LEN < l <= |steps|
  {
    if b + WHEN_LEN + MAX_THEN < |steps| then b + WHEN_LEN + MAX_THEN else |steps|
  }

  /** The jump that ends branch b, if it is near enough. */
  function BranchJump(steps: seq<Step>, b: nat, end: Option<nat>): (r: Option<nat>)
    requires WhenAt(steps, b)
    ensures r.Some? ==> b + WHEN_LEN <= r.value < |steps| && steps[r.value].Jump?
    ensures r.Some? && end.Some? ==> steps[r.value].target == end.value
  {
    var e := FindJump(steps, b + WHEN_LEN, ThenLimit(steps, b), end);
    if e < ThenLimit(steps, b) then Some(e) else None
  }

  /** Starts of the further branches from j on, closed by the start of the ELSE. */
  function MoreStarts(steps: seq<Step>, i: nat, j: nat, count: nat, end: nat): (starts: seq<nat>)
    requires HeadAt(steps, i)
    ensures |starts| >= 1 && starts[0] == j
    decreases |steps| - j
  {
    if count < MAX_RANGES && WhenAt(steps, j) && SameWhen(steps, i, j) && BranchJump(steps, j, Some(end)).Some? then
      [j] + MoreStarts(steps, i, BranchJump(steps, j, Some(end)).value + 1, count + 1, end)
    else [j]
  }

  // ---- Bounds ----

  function LowKey(steps: seq<Step>, repr: Repr, b: nat): int
    requires WhenAt(steps, b)
  {
    Key(repr, FrameWord(steps[b + 1].arg1).value)
  }

  function HighKey(steps: seq<Step>, repr: Repr, b: nat): int
    requires WhenAt(steps, b)
  {
    Key(repr, FrameWord(steps[b + 4].arg1).value)
  }

  /** The exclusive upper bound that is stored. */
  function UpperKey(steps: seq<Step>, repr: Repr, inclusive: bool, b: nat): int
    requires WhenAt(steps, b)
  {
    HighKey(steps, repr, b) + if inclusive then 1 else 0
  }

  /** case_range_upper_sentinel_representable. */
  predicate Representable(repr: Repr, upper: int) {
    match repr
    case I16 => upper <= 0x7fff
    case I32 => upper < 0x7fff_ffff
    case I64 => upper < 0x7fff_ffff_ffff_ffff
    case _ => false
  }

  predicate RangeRepr(repr: Repr) {
    repr == I32 || repr == I64 || repr == I16
  }

  /** Where the search keeps a bound: int32 for the two narrow types, int64 otherwise. */
  predicate Storable(repr: Repr, x: int) {
    if repr == I64 then -0x8000_0000_0000_0000 <= x < 0x8000_0000_0000_0000
    else -0x8000_0000 <= x < 0x8000_0000
  }

  datatype RangeInfo = RangeInfo(start: nat, starts: seq<nat>, end: nat, repr: Repr, inclusive: bool,
                                 low: int, uppers: seq<int>, results: seq<Datum>, default: Datum)

  datatype Outcome = Skip(next: nat) | Found(info: RangeInfo)

  predicate AllWhen(steps: seq<Step>, starts: seq<nat>) {
    |starts| >= 1 && forall k | 0 <= k < |starts| - 1 :: WhenAt(steps, starts[k])
  }

  predicate LinkOk(steps: seq<Step>, repr: Repr, inclusive: bool, b: nat, next: nat)
    requires WhenAt(steps, b) && WhenAt(steps, next)
  {
    && RangeRepr(repr)
    && (inclusive ==> Representable(repr, HighKey(steps, repr, b)))
    && UpperKey(steps, repr, inclusive, b) == LowKey(steps, repr, next)
  }

  predicate Contiguous(steps: seq<Step>, repr: Repr, inclusive: bool, starts: seq<nat>)
    requires AllWhen(steps, starts)
  {
    && (forall k | 0 <= k < |starts| - 2 :: LinkOk(steps, repr, inclusive, starts[k], starts[k + 1]))
    && (inclusive ==> forall k | 0 <= k < |starts| - 1 :: Representable(repr, HighKey(steps, repr, starts[k])))
  }

  /** Only the first step of each THEN is looked at. */
  predicate ConstThens(steps: seq<Step>, starts: seq<nat>)
    requires AllWhen(steps, starts)
  {
    forall k | 0 <= k < |starts| - 1 ::
      steps[starts[k] + WHEN_LEN].Const? && !steps[starts[k] + WHEN_LEN].value.isnull
  }

  /** Branch b has the shape of branch i and ends in front of `next`. */
  predicate RangeAt(steps: seq<Step>, i: nat, b: nat, next: nat, end: nat)
    requires HeadAt(steps, i)
  {
    && WhenAt(steps, b)
    && SameWhen(steps, i, b)
    && BranchJump(steps, b, Some(end)).Some?
    && BranchJump(steps, b, Some(end)).value + 1 == next
  }

  lemma {:induction false} MoreStartsAt(steps: seq<Step>, i: nat, j: nat, count: nat, end: nat, k: nat)
    requires HeadAt(steps, i) && k + 1 < |MoreStarts(steps, i, j, count, end)|
    ensures var starts := MoreStarts(steps, i, j, count, end);
            RangeAt(steps, i, starts[k], starts[k + 1], end)
    decreases k
  {
    var next := BranchJump(steps, j, Some(end)).value + 1;
    if k > 0 {
      MoreStartsAt(steps, i, next, count + 1, end, k - 1);
    }
  }

  /** All branches of the pattern at i, closed by the start of the ELSE. */
  function Starts(steps: seq<Step>, i: nat): (starts: seq<nat>)
    requires HeadAt(steps, i) && BranchJump(steps, i, None).Some?
    ensures AllWhen(steps, starts) && starts[0] == i
  {
    var e := BranchJump(steps, i, None).value;
    var starts := [i] + MoreStarts(steps, i, e + 1, 1, steps[e].target);
    assert AllWhen(steps, starts) by {
      forall k | 0 <= k < |starts| - 1 ensures WhenAt(steps, starts[k]) {
        if k > 0 {
          MoreStartsAt(steps, i, e + 1, 1, steps[e].target, k - 1);
        }
      }
    }
    starts
  }

  /** What one look at step i yields. */
  function LookAtRange(steps: seq<Step>, i: nat): Outcome {
    if !HeadAt(steps, i) || BranchJump(steps, i, None).None? then Skip(i + 1)
    else
      var e := BranchJump(steps, i, None).value;
      var end := steps[e].target;
      BuildRange(steps, i, end, Starts(steps, i))
  }

  function BuildRange(steps: seq<Step>, i: nat, end: nat, starts: seq<nat>): Outcome
    requires HeadAt(steps, i) && AllWhen(steps, starts)
  {
    var n := |starts| - 1;
    var j := starts[n];
    var repr := steps[i + 4].fn.repr;
    var inclusive := steps[i + 4].fn.kind == LE;
    if n < MIN_RANGES || !Contiguous(steps, repr, inclusive, starts) then Skip(j)
    else if !(j < |steps| && steps[j].Const? && !steps[j].value.isnull) then Skip(j)
    else if !ConstThens(steps, starts) then Skip(end)
    else
      Found(RangeInfo(i, starts, end, repr, inclusive, LowKey(steps, repr, i),
                      seq(n, k requires 0 <= k < n => UpperKey(steps, repr, inclusive, starts[k])),
                      seq(n, k requires 0 <= k < n => steps[starts[k] + WHEN_LEN].value.value),
                      steps[j].value.value))
  }

  // ---- What is stored fits ----

  ghost predicate Reported(steps: seq<Step>, info: RangeInfo) {
    HeadAt(steps, info.start) && LookAtRange(steps, info.start) == Found(info)
  }

  /** Branch k of a pattern, with what is recorded for it. */
  predicate BranchRecorded(steps: seq<Step>, info: RangeInfo, k: nat)
    requires HeadAt(steps, info.start) && k + 1 < |info.starts| && k < |info.uppers| && k < |info.results|
  {
    var b := info.starts[k];
    && RangeAt(steps, info.start, b, info.starts[k + 1], info.end)
    && steps[b + WHEN_LEN].Const? && !steps[b + WHEN_LEN].value.isnull
    && info.results[k] == steps[b + WHEN_LEN].value.value
    && info.uppers[k] == UpperKey(steps, info.repr, info.inclusive, b)
    && Storable(info.repr, info.uppers[k])
    && (k + 1 < |info.uppers| ==>
          WhenAt(steps, info.starts[k + 1]) && info.uppers[k] == LowKey(steps, info.repr, info.starts[k + 1]))
  }

  /** What a reported pattern is: branches of one shape, contiguous bounds that start at the
      lower end, upper bounds that fit the word they are stored in, and a constant ELSE. */
  ghost predicate Pattern(steps: seq<Step>, info: RangeInfo) {
    && HeadAt(steps, info.start)
    && info.repr == steps[info.start + 4].fn.repr && RangeRepr(info.repr)
    && info.inclusive == (steps[info.start + 4].fn.kind == LE)
    && info.low == LowKey(steps, info.repr, info.start)
    && |info.starts| == |info.uppers| + 1 && |info.results| == |info.uppers| >= MIN_RANGES
    && info.starts[0] == info.start
    && (forall k: nat | k < |info.uppers| :: BranchRecorded(steps, info, k))
    && info.starts[|info.uppers|] < |steps|
    && steps[info.starts[|info.uppers|]].Const?
    && steps[info.starts[|info.uppers|]].value == Nullable(info.default, false)
  }

  lemma BranchShape(steps: seq<Step>, i: nat, k: nat)
    requires HeadAt(steps, i) && BranchJump(steps, i, None).Some? && k + 1 < |Starts(steps, i)|
    ensures var starts := Starts(steps, i);
            RangeAt(steps, i, starts[k], starts[k + 1], steps[BranchJump(steps, i, None).value].target)
  {
    var e := BranchJump(steps, i, None).value;
    if k == 0 {
      FindJumpAny(steps, i + WHEN_LEN, ThenLimit(steps, i), steps[e].target);
    } else {
      MoreStartsAt(steps, i, e + 1, 1, steps[e].target, k - 1);
    }
  }

  lemma {:induction false} FindJumpAny(steps: seq<Step>, s: nat, limit: nat, end: nat)
    requires s <= limit <= |steps|
    requires FindJump(steps, s, limit, None) < limit && steps[FindJump(steps, s, limit, None)].target == end
    ensures FindJump(steps, s, limit, Some(end)) == FindJump(steps, s, limit, None)
    decreases limit - s
  {
    if !steps[s].Jump? {
      FindJumpAny(steps, s + 1, limit, end);
    }
  }

  /** Everything that is reported is a pattern; in particular adding one to an inclusive bound
      never overflows. */
  lemma ReportedIsPattern(steps: seq<Step>, info: RangeInfo)
    requires Reported(steps, info)
    ensures Pattern(steps, info)
  {
    assert LinkOk(steps, info.repr, info.inclusive, info.starts[0], info.starts[1]);
    forall k: nat | k < |info.uppers| ensures BranchRecorded(steps, info, k) {
      ReportedBranch(steps, info, k);
    }
  }

  lemma ReportedBranch(steps: seq<Step>, info: RangeInfo, k: nat)
    requires Reported(steps, info) && k + 1 < |info.starts| && k < |info.uppers| && k < |info.results|
    ensures BranchRecorded(steps, info, k)
  {
    BranchShape(steps, info.start, k);
    ReportedUpper(steps, info, k);
  }

  /** The bound that is stored for branch k fits, and is where the next branch starts. */
  lemma ReportedUpper(steps: seq<Step>, info: RangeInfo, k: nat)
    requires Reported(steps, info) && k < |info.uppers|
    ensures k + 1 < |info.starts| && WhenAt(steps, info.starts[k])
    ensures info.uppers[k] == UpperKey(steps, info.repr, info.inclusive, info.starts[k])
    ensures Storable(info.repr, info.uppers[k])
    ensures k + 1 < |info.uppers| ==>
              WhenAt(steps, info.starts[k + 1]) && info.uppers[k] == LowKey(steps, info.repr, info.starts[k + 1])
  {
    var starts, repr, inclusive := info.starts, info.repr, info.inclusive;
    assert LinkOk(steps, repr, inclusive, starts[0], starts[1]);
    assert inclusive ==> Representable(repr, HighKey(steps, repr, starts[k]));
    assert k + 1 < |info.uppers| ==> LinkOk(steps, repr, inclusive, starts[k], starts[k + 1]);
  }
}
