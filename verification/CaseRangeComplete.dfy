/** Which range CASEs the second detection pass reports, and that it overlooks none. */
module CaseRangeComplete {
  import opened CaseOrder
  import opened CaseSteps
  import opened CaseRange
  import opened CaseRangePass
  import opened Wrappers

  // ---- The parts of a branch ----

  predicate JumpsTo(step: Step, end: Option<nat>) {
    step.Jump? && (end.None? || step.target == end.value)
  }

  lemma {:induction false} FirstJumpIs(steps: seq<Step>, s: nat, limit: nat, end: Option<nat>, e: nat)
    requires s <= e <= limit <= |steps|
    ensures FindJump(steps, s, limit, end) == e <==>
            (forall x | s <= x < e :: !JumpsTo(steps[x], end)) && (e < limit ==> JumpsTo(steps[e], end))
    decreases limit - s
  {
    if s < limit && !JumpsTo(steps[s], end) {
      if s < e {
        FirstJumpIs(steps, s + 1, limit, end, e);
      }
    }
  }

  /** A branch ends with the first jump (to the end, if that is known) among the twenty steps behind
      its WHEN. */
  lemma BranchEndsExactlyWhen(steps: seq<Step>, b: nat, end: Option<nat>, e: nat)
    requires WhenAt(steps, b) && b + 7 <= e < |steps|
    ensures BranchJump(steps, b, end) == Some(e) <==>
            e < b + 27 && JumpsTo(steps[e], end) && forall x | b + 7 <= x < e :: !JumpsTo(steps[x], end)
  {
    var limit := ThenLimit(steps, b);
    if e < limit {
      FirstJumpIs(steps, b + 7, limit, end, e);
    }
  }

  /** One more than an inclusive bound still fits the word in which it is stored. */
  lemma RepresentableMeans(repr: Repr, upper: int)
    requires repr == I16 ==> -32768 <= upper <= 32767
    requires repr == I32 ==> -2147483648 <= upper <= 2147483647
    requires repr == I64 ==> -9223372036854775808 <= upper <= 9223372036854775807
    ensures Representable(repr, upper) <==>
            || repr == I16
            || (repr == I32 && upper + 1 <= 2147483647)
            || (repr == I64 && upper + 1 <= 9223372036854775807)
  {
  }

  // ---- What is reported ----

  /** Another branch of the same CASE at j. */
  predicate GoesOnAt(steps: seq<Step>, i: nat, j: nat, end: nat)
    requires HeadAt(steps, i)
  {
    WhenAt(steps, j) && SameWhen(steps, i, j) && BranchJump(steps, j, Some(end)).Some?
  }

  /** The branches at `starts`, one behind the other, as far as they go but no more than 128. */
  predicate BranchesAt(steps: seq<Step>, i: nat, starts: seq<nat>, end: nat) {
    && HeadAt(steps, i) && 2 <= |starts| <= 129 && starts[0] == i
    && BranchJump(steps, i, None).Some? && steps[BranchJump(steps, i, None).value].target == end
    && (forall k: nat | k < |starts| - 1 :: RangeAt(steps, i, starts[k], starts[k + 1], end))
    && (|starts| == 129 || !GoesOnAt(steps, i, starts[|starts| - 1], end))
  }

  /** Bounds of one branch. */
  predicate MeetsNext(steps: seq<Step>, i: nat, b: nat, next: nat)
    requires HeadAt(steps, i) && WhenAt(steps, b) && WhenAt(steps, next)
  {
    var repr := steps[i + 4].fn.repr;
    LowKey(steps, repr, next) == HighKey(steps, repr, b) + if steps[i + 4].fn.kind == LE then 1 else 0
  }

  predicate ConstAt(steps: seq<Step>, j: nat) {
    j < |steps| && steps[j].Const? && !steps[j].value.isnull
  }

  /** At least four branches over an integer type, each range meeting the next, with constants that
      are not null in front of every THEN and of the ELSE. */
  predicate RangeCase(steps: seq<Step>, i: nat, starts: seq<nat>, end: nat) {
    && BranchesAt(steps, i, starts, end) && |starts| >= 5
    && steps[i + 4].fn.repr in {I16, I32, I64}
    && (forall k: nat | k < |starts| - 1 :: ConstAt(steps, starts[k] + 7) && BranchFits(steps, i, starts[k]))
    && (forall k: nat | k < |starts| - 2 :: RangesMeet(steps, i, starts[k], starts[k + 1]))
    && ConstAt(steps, starts[|starts| - 1])
  }

  predicate BranchFits(steps: seq<Step>, i: nat, b: nat) {
    HeadAt(steps, i) && WhenAt(steps, b) &&
    (steps[i + 4].fn.kind == LE ==>
       Representable(steps[i + 4].fn.repr, HighKey(steps, steps[i + 4].fn.repr, b)))
  }

  predicate RangesMeet(steps: seq<Step>, i: nat, b: nat, next: nat) {
    HeadAt(steps, i) && WhenAt(steps, b) && WhenAt(steps, next) && MeetsNext(steps, i, b, next)
  }

  lemma {:induction false} MoreAre(steps: seq<Step>, i: nat, starts: seq<nat>, end: nat, k: nat)
    requires BranchesAt(steps, i, starts, end) && 0 < k < |starts|
    ensures MoreStarts(steps, i, starts[k], k, end) == starts[k..]
    decreases |starts| - k
  {
    if k < |starts| - 1 {
      assert RangeAt(steps, i, starts[k], starts[k + 1], end);
      MoreAre(steps, i, starts, end, k + 1);
      assert starts[k..] == [starts[k]] + starts[k + 1..];
    } else {
      assert starts[k..] == [starts[k]];
    }
  }

  lemma StartsAre(steps: seq<Step>, i: nat, starts: seq<nat>, end: nat)
    requires BranchesAt(steps, i, starts, end)
    ensures Starts(steps, i) == starts
  {
    assert RangeAt(steps, i, starts[0], starts[1], end);
    FindJumpAny(steps, i + WHEN_LEN, ThenLimit(steps, i), end);
    MoreAre(steps, i, starts, end, 1);
    assert starts == [i] + starts[1..];
  }

  lemma {:induction false} FewStarts(steps: seq<Step>, i: nat, j: nat, count: nat, end: nat)
    requires HeadAt(steps, i) && count <= 128
    ensures |MoreStarts(steps, i, j, count, end)| <= 129 - count
    ensures var more := MoreStarts(steps, i, j, count, end);
            |more| == 129 - count || !GoesOnAt(steps, i, more[|more| - 1], end)
    decreases |steps| - j
  {
    if count < MAX_RANGES && GoesOnAt(steps, i, j, end) {
      FewStarts(steps, i, BranchJump(steps, j, Some(end)).value + 1, count + 1, end);
    }
  }

  /** What is collected are all branches. */
  lemma CollectedAreAll(steps: seq<Step>, i: nat)
    requires HeadAt(steps, i) && BranchJump(steps, i, None).Some?
    ensures BranchesAt(steps, i, Starts(steps, i), steps[BranchJump(steps, i, None).value].target)
  {
    var e := BranchJump(steps, i, None).value;
    FewStarts(steps, i, e + 1, 1, steps[e].target);
    forall k: nat | k < |Starts(steps, i)| - 1
      ensures RangeAt(steps, i, Starts(steps, i)[k], Starts(steps, i)[k + 1], steps[e].target)
    {
      BranchShape(steps, i, k);
    }
  }

  /** The checks on the branches that were collected. */
  lemma BuiltExactlyWhen(steps: seq<Step>, i: nat, starts: seq<nat>, end: nat)
    requires BranchesAt(steps, i, starts, end)
    ensures AllWhen(steps, starts) && (BuildRange(steps, i, end, starts).Found? <==> RangeCase(steps, i, starts, end))
  {
    forall k: nat | k < |starts| - 1 ensures WhenAt(steps, starts[k]) {
      assert RangeAt(steps, i, starts[k], starts[k + 1], end);
    }
    var repr, inclusive := steps[i + 4].fn.repr, steps[i + 4].fn.kind == LE;
    if RangeCase(steps, i, starts, end) {
      forall k | 0 <= k < |starts| - 2 ensures LinkOk(steps, repr, inclusive, starts[k], starts[k + 1]) {
        assert RangesMeet(steps, i, starts[k], starts[k + 1]) && BranchFits(steps, i, starts[k]);
      }
    }
    if BuildRange(steps, i, end, starts).Found? {
      assert LinkOk(steps, repr, inclusive, starts[0], starts[1]);
      forall k: nat | k < |starts| - 2 ensures RangesMeet(steps, i, starts[k], starts[k + 1]) {
        assert LinkOk(steps, repr, inclusive, starts[k], starts[k + 1]);
      }
    }
  }

  /** A look at step i reports a pattern exactly when a range CASE stands there. */
  lemma RangeFoundExactlyWhen(steps: seq<Step>, i: nat)
    ensures LookAtRange(steps, i).Found? <==> exists starts, end :: RangeCase(steps, i, starts, end)
  {
    if HeadAt(steps, i) && BranchJump(steps, i, None).Some? {
      var end := steps[BranchJump(steps, i, None).value].target;
      CollectedAreAll(steps, i);
      BuiltExactlyWhen(steps, i, Starts(steps, i), end);
    }
    if starts, end :| RangeCase(steps, i, starts, end) {
      StartsAre(steps, i, starts, end);
    }
  }

  // ---- Nothing is overlooked ----

  /** A look that reports nothing goes on by one step, or behind the branches it has looked at, or,
      where these are ranges and some THEN is no constant, at the end of the CASE. */
  lemma RangeSkips(steps: seq<Step>, i: nat)
    requires LookAtRange(steps, i).Skip?
    ensures var next := LookAtRange(steps, i).next;
            || next == i + 1
            || exists starts, end :: BranchesAt(steps, i, starts, end) && (next == starts[|starts| - 1] || next == end)
  {
    if HeadAt(steps, i) && BranchJump(steps, i, None).Some? {
      CollectedAreAll(steps, i);
    }
  }

  /** What became of step i. */
  ghost predicate Passed(look: int -> Outcome, i0: nat, max: nat, found: seq<RangeInfo>, i: nat) {
    || (exists k :: 0 <= k < |found| && found[k].start <= i < found[k].end)
    || (exists b: nat :: i0 <= b < i && look(b).Skip? && i < look(b).next)
    || |found| == max
  }

  lemma PassedLater(look: int -> Outcome, i0: nat, next: nat, max: nat, first: seq<RangeInfo>, rest: seq<RangeInfo>,
                    i: nat)
    requires i0 <= next && |first| <= max && Passed(look, next, max - |first|, rest, i)
    ensures Passed(look, i0, max, first + rest, i)
  {
    var all := first + rest;
    if k :| 0 <= k < |rest| && rest[k].start <= i < rest[k].end {
      assert all[|first| + k].start <= i < all[|first| + k].end;
    }
  }

  lemma {:induction false} PassOverSees(look: int -> Outcome, n: nat, i0: nat, max: nat, i: nat)
    requires GoesOn(look) && i0 <= i && i + WHEN_LEN < n && look(i).Found?
    ensures Passed(look, i0, max, PassOver(look, n, i0, max), i)
    decreases n - i0
  {
    if max > 0 {
      var first, next := Grown([], look(i0)), NextAt(look(i0));
      if next <= i {
        PassOverSees(look, n, next, max - |first|, i);
        PassedLater(look, i0, next, max, first, PassOver(look, n, next, max - |first|), i);
      } else if look(i0).Found? {
        assert PassOver(look, n, i0, max)[0] == look(i0).info;
      }
    }
  }

  /** A range CASE is reported; unless the list was full before, or it lies inside a CASE that is
      reported or behind the first of branches that were refused together. */
  lemma RangePassIsComplete(steps: seq<Step>, max: nat, i: nat, starts: seq<nat>, end: nat)
    requires Forward(steps) && RangeCase(steps, i, starts, end)
    ensures Passed(LooksAt(steps), 0, max, SecondPass(steps, 0, max), i)
  {
    var look := LooksAt(steps);
    forall j: nat ensures j < NextAt(look(j)) && (look(j).Found? ==> look(j).info.start == j) {
      LookGoesOn(steps, j);
    }
    RangeFoundExactlyWhen(steps, i);
    PassOverSees(look, |steps|, 0, max, i);
  }
}
