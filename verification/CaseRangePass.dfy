/** The loops of the second detection pass. */
module CaseRangePass {
  import opened CaseOrder
  import opened CaseSteps
  import opened CaseRange
  import opened Wrappers

  // ---- What the pass reports ----

  /** What a look adds to the patterns found, and where the loop goes on. */
  function Grown(out: seq<RangeInfo>, look: Outcome): seq<RangeInfo> {
    if look.Skip? then out else out + [look.info]
  }

  function NextAt(look: Outcome): nat {
    if look.Skip? then look.next else look.info.end
  }

  /** At most `max` patterns among n steps, each behind the end of the one before; `look` tells
      what stands at a step.  Every look goes on (LookGoesOn), so no look ends the pass. */
  function PassOver(look: int -> Outcome, n: nat, i: nat, max: nat): (found: seq<RangeInfo>)
    ensures |found| <= max
    decreases n - i
  {
    if i + WHEN_LEN >= n || max == 0 || NextAt(look(i)) <= i then []
    else
      var first := Grown([], look(i));
      first + PassOver(look, n, NextAt(look(i)), max - |first|)
  }

  function LooksAt(steps: seq<Step>): int -> Outcome {
    j => if j < 0 then Skip(0) else LookAtRange(steps, j)
  }

  function SecondPass(steps: seq<Step>, i: nat, max: nat): (found: seq<RangeInfo>)
    ensures |found| <= max
  {
    PassOver(LooksAt(steps), |steps|, i, max)
  }

  /** Every look moves on, and a pattern is reported where it starts. */
  lemma LookGoesOn(steps: seq<Step>, i: nat)
    requires Forward(steps)
    ensures LookAtRange(steps, i).Skip? ==> LookAtRange(steps, i).next > i
    ensures LookAtRange(steps, i).Found? ==>
              LookAtRange(steps, i).info.end > i && Reported(steps, LookAtRange(steps, i).info)
  {
    if HeadAt(steps, i) && BranchJump(steps, i, None).Some? {
      StartsAscend(steps, i, |Starts(steps, i)| - 1);
    }
  }

  lemma {:induction false} StartsAscend(steps: seq<Step>, i: nat, k: nat)
    requires HeadAt(steps, i) && BranchJump(steps, i, None).Some? && k < |Starts(steps, i)|
    ensures Starts(steps, i)[k] >= i + k
    ensures |Starts(steps, i)| > 1
  {
    if k > 0 {
      StartsAscend(steps, i, k - 1);
      BranchShape(steps, i, k - 1);
    }
  }

  /** Every look goes on, and what it finds starts where it looked. */
  ghost predicate GoesOn(look: int -> Outcome) {
    forall j: nat :: j < NextAt(look(j)) && (look(j).Found? ==> look(j).info.start == j)
  }

  /** Everything found stands where it says, nothing overlaps, and nothing starts in front of i. */
  predicate Apart(look: int -> Outcome, found: seq<RangeInfo>, i: nat) {
    && (forall k | 0 <= k < |found| :: look(found[k].start) == Found(found[k]))
    && (forall k | 0 < k < |found| :: found[k - 1].end <= found[k].start)
    && (found != [] ==> i <= found[0].start)
  }

  lemma {:induction false} PassOverApart(look: int -> Outcome, n: nat, i: nat, max: nat)
    requires GoesOn(look)
    ensures Apart(look, PassOver(look, n, i, max), i)
    decreases n - i
  {
    if i + WHEN_LEN < n && max > 0 {
      var first := Grown([], look(i));
      PassOverApart(look, n, NextAt(look(i)), max - |first|);
    }
  }

  /** Everything found is a pattern, and patterns do not overlap. */
  ghost predicate Sound(steps: seq<Step>, found: seq<RangeInfo>) {
    && (forall k {:trigger Reported(steps, found[k])} | 0 <= k < |found| :: Reported(steps, found[k]))
    && (forall k | 0 < k < |found| :: found[k - 1].end <= found[k].start)
  }

  lemma SecondPassIsSound(steps: seq<Step>, i: nat, max: nat)
    requires Forward(steps)
    ensures Sound(steps, SecondPass(steps, i, max))
  {
    var look := LooksAt(steps);
    forall j: nat ensures j < NextAt(look(j)) && (look(j).Found? ==> look(j).info.start == j) {
      LookGoesOn(steps, j);
    }
    PassOverApart(look, |steps|, i, max);
    var found := SecondPass(steps, i, max);
    forall k | 0 <= k < |found| ensures Reported(steps, found[k]) {
      LookGoesOn(steps, found[k].start);
    }
  }

  /** One turn of the loop adds what the rest of the pass lacks. */
  lemma TurnGoesOn(look: int -> Outcome, n: nat, i: nat, max: nat, out: seq<RangeInfo>)
    requires i + WHEN_LEN < n && |out| < max && i < NextAt(look(i))
    ensures Grown(out, look(i)) + PassOver(look, n, NextAt(look(i)), max - |Grown(out, look(i))|) ==
            out + PassOver(look, n, i, max - |out|)
  {
    var first := Grown([], look(i));
    assert Grown(out, look(i)) == out + first;
    Regroup(out, first, PassOver(look, n, NextAt(look(i)), max - |out| - |first|));
  }

  // ---- The loops ----

  method ScanForJump(steps: seq<Step>, b: nat, end: Option<nat>) returns (r: Option<nat>)
    requires WhenAt(steps, b)
    ensures r == BranchJump(steps, b, end)
  {
    var s := b + WHEN_LEN;
    var limit := ThenLimit(steps, b);
    while s < limit
      invariant b + WHEN_LEN <= s <= limit
      invariant FindJump(steps, s, limit, end) == FindJump(steps, b + WHEN_LEN, limit, end)
    {
      if steps[s].Jump? && (end.None? || steps[s].target == end.value) {
        return Some(s);
      }
      s := s + 1;
    }
    return None;
  }

  method CollectStarts(steps: seq<Step>, i: nat) returns (starts: seq<nat>)
    requires HeadAt(steps, i) && BranchJump(steps, i, None).Some?
    ensures starts == Starts(steps, i)
  {
    var first := ScanForJump(steps, i, None);
    var end := steps[first.value].target;
    var j := first.value + 1;
    var done: seq<nat> := [i];
    ghost var all := [i] + MoreStarts(steps, i, j, 1, end);
    while j + WHEN_LEN < |steps| && |done| < MAX_RANGES && WhenAt(steps, j) && SameWhen(steps, i, j)
      invariant all == done + MoreStarts(steps, i, j, |done|, end)
      decreases |steps| - j
    {
      var jump := ScanForJump(steps, j, Some(end));
      if jump.None? {
        break;
      }
      Regroup(done, [j], MoreStarts(steps, i, jump.value + 1, |done| + 1, end));
      done := done + [j];
      j := jump.value + 1;
    }
    return done + [j];
  }

  method CheckContiguous(steps: seq<Step>, repr: Repr, inclusive: bool, starts: seq<nat>) returns (ok: bool)
    requires AllWhen(steps, starts)
    ensures ok <==> Contiguous(steps, repr, inclusive, starts)
  {
    var k := 0;
    while k + 2 < |starts|
      invariant 0 <= k
      invariant forall m | 0 <= m < k && m < |starts| - 2 :: LinkOk(steps, repr, inclusive, starts[m], starts[m + 1])
    {
      if !LinkOk(steps, repr, inclusive, starts[k], starts[k + 1]) {
        return false;
      }
      k := k + 1;
    }
    if inclusive {
      ok := CheckSentinels(steps, repr, starts);
    } else {
      ok := true;
    }
  }

  method CheckSentinels(steps: seq<Step>, repr: Repr, starts: seq<nat>) returns (ok: bool)
    requires AllWhen(steps, starts)
    ensures ok <==> forall k | 0 <= k < |starts| - 1 :: Representable(repr, HighKey(steps, repr, starts[k]))
  {
    var k := 0;
    while k + 1 < |starts|
      invariant 0 <= k
      invariant forall m | 0 <= m < k && m < |starts| - 1 :: Representable(repr, HighKey(steps, repr, starts[m]))
    {
      if !Representable(repr, HighKey(steps, repr, starts[k])) {
        return false;
      }
      k := k + 1;
    }
    return true;
  }

  method CheckThens(steps: seq<Step>, starts: seq<nat>) returns (ok: bool)
    requires AllWhen(steps, starts)
    ensures ok <==> ConstThens(steps, starts)
  {
    var k := 0;
    while k + 1 < |starts|
      invariant 0 <= k
      invariant forall m | 0 <= m < k && m < |starts| - 1 ::
                  steps[starts[m] + WHEN_LEN].Const? && !steps[starts[m] + WHEN_LEN].value.isnull
    {
      if !(steps[starts[k] + WHEN_LEN].Const? && !steps[starts[k] + WHEN_LEN].value.isnull) {
        return false;
      }
      k := k + 1;
    }
    return true;
  }

  method LookAtRangeStep(steps: seq<Step>, i: nat) returns (r: Outcome)
    ensures r == LookAtRange(steps, i)
  {
    if !HeadAt(steps, i) {
      return Skip(i + 1);
    }
    var first := ScanForJump(steps, i, None);
    if first.None? {
      return Skip(i + 1);
    }
    var starts := CollectStarts(steps, i);
    r := CheckRange(steps, i, steps[first.value].target, starts);
  }

  method CheckRange(steps: seq<Step>, i: nat, end: nat, starts: seq<nat>) returns (r: Outcome)
    requires HeadAt(steps, i) && AllWhen(steps, starts)
    ensures r == BuildRange(steps, i, end, starts)
  {
    var n := |starts| - 1;
    var j := starts[n];
    var repr := steps[i + 4].fn.repr;
    var inclusive := steps[i + 4].fn.kind == LE;
    if n < MIN_RANGES {
      return Skip(j);
    }
    var contiguous := CheckContiguous(steps, repr, inclusive, starts);
    if !contiguous || !(j < |steps| && steps[j].Const? && !steps[j].value.isnull) {
      return Skip(j);
    }
    var constant := CheckThens(steps, starts);
    r := if constant then BuildRange(steps, i, end, starts) else Skip(end);
  }

  ghost predicate Looks(steps: seq<Step>, look: int -> Outcome) {
    forall j: nat {:trigger LookAtRange(steps, j)} :: look(j) == LookAtRange(steps, j)
  }

  method Turn(steps: seq<Step>, i: nat, out0: seq<RangeInfo>, ghost look: int -> Outcome)
      returns (out: seq<RangeInfo>, next: nat)
    requires Forward(steps) && Looks(steps, look)
    ensures out == Grown(out0, look(i)) && i < next == NextAt(look(i))
  {
    var here := LookAtRangeStep(steps, i);
    LookGoesOn(steps, i);
    return Grown(out0, here), NextAt(here);
  }

  method DetectWith(steps: seq<Step>, max: nat, ghost look: int -> Outcome) returns (out: seq<RangeInfo>)
    requires Forward(steps) && Looks(steps, look)
    ensures out == PassOver(look, |steps|, 0, max)
  {
    out := [];
    var i := 0;
    ghost var all := PassOver(look, |steps|, 0, max);
    while i + WHEN_LEN < |steps| && |out| < max
      invariant |out| <= max
      invariant all == out + PassOver(look, |steps|, i, max - |out|)
      decreases |steps| - i
    {
      ghost var at, before := i, out;
      out, i := Turn(steps, i, out, look);
      TurnGoesOn(look, |steps|, at, max, before);
    }
    assert out + [] == out;
  }

  /** The second pass of pg_jitter_detect_case_bsearch. */
  method DetectRanges(steps: seq<Step>, max: nat) returns (out: seq<RangeInfo>)
    requires Forward(steps)
    ensures out == SecondPass(steps, 0, max)
    ensures |out| <= max && Sound(steps, out)
  {
    out := DetectWith(steps, max, LooksAt(steps));
    SecondPassIsSound(steps, 0, max);
  }
}
