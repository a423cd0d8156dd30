/** The list both detection passes make together, and which of its patterns the emitter comes to. */
module CaseEmit {
  import opened CaseOrder
  import opened CaseSteps
  import CaseDetect
  import CaseRange
  import CaseRangePass
  import CaseRewrite

  /** Where a pattern starts and ends. */
  datatype Site = Site(start: nat, end: nat)

  // ---- The list ----

  function FirstSites(found: seq<CaseDetect.CaseInfo>): (sites: seq<Site>)
    ensures |sites| == |found|
  {
    seq(|found|, k requires 0 <= k < |found| => Site(found[k].start, found[k].end))
  }

  function SecondSites(found: seq<CaseRange.RangeInfo>): (sites: seq<Site>)
    ensures |sites| == |found|
  {
    seq(|found|, k requires 0 <= k < |found| => Site(found[k].start, found[k].end))
  }

  function FirstList(w: World, steps: seq<Step>, max: nat): (sites: seq<Site>)
    requires ValidWorld(w) && Forward(steps)
    ensures |sites| <= max
  {
    CaseDetect.FirstPassIsSound(w, steps, 0, max);
    FirstSites(CaseDetect.FirstPass(w, steps, 0, max))
  }

  /** What the second pass finds under the limit the first has left. */
  function SecondList(w: World, steps: seq<Step>, max: nat): seq<Site>
    requires ValidWorld(w) && Forward(steps)
  {
    SecondSites(CaseRangePass.SecondPass(steps, 0, max - |FirstList(w, steps, max)|))
  }

  /** The patterns of the first pass, then those of the second. */
  function Sites(w: World, steps: seq<Step>, max: nat): seq<Site>
    requires ValidWorld(w) && Forward(steps)
  {
    FirstList(w, steps, max) + SecondList(w, steps, max)
  }

  /** pg_jitter_detect_case_bsearch. */
  method DetectSites(w: World, steps: seq<Step>, max: nat) returns (sites: seq<Site>)
    requires ValidWorld(w) && Forward(steps)
    ensures sites == Sites(w, steps, max) && |sites| <= max
  {
    var first := CaseRewrite.DetectCases(w, steps, max);
    var second := CaseRangePass.DetectRanges(steps, max - |first|);
    return FirstSites(first) + SecondSites(second);
  }

  // ---- The emitter ----

  predicate WellSited(sites: seq<Site>) {
    forall k | 0 <= k < |sites| :: sites[k].start + 1 < sites[k].end
  }

  /** How many patterns the emitter has replaced at the end, when it stands at step `opno` of n and
      waits for pattern `next`. */
  function Reached(sites: seq<Site>, n: nat, opno: nat, next: nat): (r: nat)
    requires WellSited(sites) && next <= |sites|
    ensures next <= r <= |sites|
    decreases n - opno
  {
    if opno >= n then next
    else if next < |sites| && opno == sites[next].start + 1 then Reached(sites, n, sites[next].end, next + 1)
    else Reached(sites, n, opno + 1, next)
  }

  /** The main loop, as far as patterns go: behind the load of the next pattern its search is
      emitted, and the loop goes on at its end. */
  method EmitSites(sites: seq<Site>, n: nat) returns (next: nat)
    requires WellSited(sites)
    ensures next == Reached(sites, n, 0, 0)
  {
    next := 0;
    var opno := 0;
    while opno < n
      invariant 0 <= next <= |sites| && 0 <= opno
      invariant Reached(sites, n, opno, next) == Reached(sites, n, 0, 0)
      decreases n - opno
    {
      if next < |sites| && opno == sites[next].start + 1 {
        opno := sites[next].end;
        next := next + 1;
      } else {
        opno := opno + 1;
      }
    }
  }

  /** Pattern m stands among the n steps and not in front of the end of the one before it. */
  predicate InStepOrder(sites: seq<Site>, n: nat, m: nat)
    requires m < |sites|
  {
    sites[m].start + 1 < n && (m > 0 ==> sites[m - 1].end <= sites[m].start + 1)
  }

  lemma {:induction false} WalksTo(sites: seq<Site>, n: nat, opno: nat, next: nat)
    requires WellSited(sites) && next < |sites| && opno <= sites[next].start + 1 < n
    ensures Reached(sites, n, opno, next) == Reached(sites, n, sites[next].end, next + 1)
    decreases n - opno
  {
    if opno < sites[next].start + 1 {
      WalksTo(sites, n, opno + 1, next);
    }
  }

  lemma {:induction false} WalksPast(sites: seq<Site>, n: nat, opno: nat, next: nat)
    requires WellSited(sites) && next < |sites| && (sites[next].start + 1 < opno || n <= sites[next].start + 1)
    ensures Reached(sites, n, opno, next) == next
    decreases n - opno
  {
    if opno < n {
      WalksPast(sites, n, opno + 1, next);
    }
  }

  lemma {:induction false} ReachedFrom(sites: seq<Site>, n: nat, next: nat, k: nat)
    requires WellSited(sites) && next <= k <= |sites|
    ensures var opno := if next == 0 then 0 else sites[next - 1].end;
            k <= Reached(sites, n, opno, next) <==> forall m: nat | next <= m < k :: InStepOrder(sites, n, m)
    decreases k - next
  {
    if next < k {
      var opno := if next == 0 then 0 else sites[next - 1].end;
      if InStepOrder(sites, n, next) {
        WalksTo(sites, n, opno, next);
        ReachedFrom(sites, n, next + 1, k);
      } else {
        WalksPast(sites, n, opno, next);
      }
    }
  }

  /** The emitter comes to the first k patterns if and only if they are in step order: it replaces
      the longest part of the list that is, and nothing behind it. */
  lemma ReachedExactlyWhen(sites: seq<Site>, n: nat, k: nat)
    requires WellSited(sites) && k <= |sites|
    ensures k <= Reached(sites, n, 0, 0) <==> forall m: nat | m < k :: InStepOrder(sites, n, m)
  {
    ReachedFrom(sites, n, 0, k);
  }

  // ---- The two together ----

  ghost predicate Sited(sites: seq<Site>, n: nat) {
    WellSited(sites) && forall m: nat | m < |sites| :: InStepOrder(sites, n, m)
  }

  lemma FirstIsSited(w: World, steps: seq<Step>, max: nat)
    requires ValidWorld(w) && Forward(steps)
    ensures Sited(FirstList(w, steps, max), |steps|)
  {
    var found := CaseDetect.FirstPass(w, steps, 0, max);
    CaseDetect.FirstPassIsSound(w, steps, 0, max);
    forall k | 0 <= k < |found| ensures found[k].start + 1 < found[k].end && found[k].start + 1 < |steps| {
      assert CaseDetect.Detected(w, steps, found[k]);
    }
  }

  lemma RangeIsLong(steps: seq<Step>, info: CaseRange.RangeInfo)
    requires Forward(steps) && CaseRange.Reported(steps, info)
    ensures info.start + 1 < info.end && info.start + 1 < |steps|
  {
  }

  lemma SecondIsSited(steps: seq<Step>, max: nat)
    requires Forward(steps)
    ensures Sited(SecondSites(CaseRangePass.SecondPass(steps, 0, max)), |steps|)
  {
    var found := CaseRangePass.SecondPass(steps, 0, max);
    CaseRangePass.SecondPassIsSound(steps, 0, max);
    forall k | 0 <= k < |found| ensures found[k].start + 1 < found[k].end && found[k].start + 1 < |steps| {
      assert CaseRange.Reported(steps, found[k]);
      RangeIsLong(steps, found[k]);
    }
  }

  /** The last pattern of the first list ends in front of the second list. */
  predicate Joins(first: seq<Site>, second: seq<Site>) {
    first != [] && second != [] ==> first[|first| - 1].end <= second[0].start + 1
  }

  lemma JoinedOrder(first: seq<Site>, second: seq<Site>, n: nat)
    requires Sited(first, n) && Sited(second, n)
    ensures WellSited(first + second)
    ensures Reached(first + second, n, 0, 0) == if Joins(first, second) then |first + second| else |first|
  {
    var sites := first + second;
    forall m: nat | m < |sites| && m != |first| ensures InStepOrder(sites, n, m) {
      assert if m < |first| then InStepOrder(first, n, m) else InStepOrder(second, n, m - |first|);
    }
    if second != [] {
      assert InStepOrder(second, n, 0);
      assert InStepOrder(sites, n, |first|) <==> Joins(first, second);
    }
    ReachedExactlyWhen(sites, n, |first|);
    ReachedExactlyWhen(sites, n, |sites|);
    if second != [] {
      ReachedExactlyWhen(sites, n, |first| + 1);
    }
  }

  /** Every pattern of the first pass is replaced.  Those of the second are all replaced if the
      first of them stands behind the last pattern of the first pass; else none of them is. */
  lemma SecondReachedExactlyWhen(w: World, steps: seq<Step>, max: nat)
    requires ValidWorld(w) && Forward(steps)
    ensures var sites, first := Sites(w, steps, max), FirstList(w, steps, max);
            && WellSited(sites)
            && Reached(sites, |steps|, 0, 0) ==
               if Joins(first, SecondList(w, steps, max)) then |sites| else |first|
  {
    FirstIsSited(w, steps, max);
    SecondIsSited(steps, max - |FirstList(w, steps, max)|);
    JoinedOrder(FirstList(w, steps, max), SecondList(w, steps, max), |steps|);
  }

  /** A range CASE at the beginning is lost when the first pass finds anything and leaves room. */
  lemma RangeInFrontIsLost(w: World, steps: seq<Step>, max: nat)
    requires ValidWorld(w) && Forward(steps) && CaseRange.LookAtRange(steps, 0).Found?
    requires 0 < |FirstList(w, steps, max)| < max
    ensures WellSited(Sites(w, steps, max))
    ensures Reached(Sites(w, steps, max), |steps|, 0, 0) == |FirstList(w, steps, max)| < |Sites(w, steps, max)|
  {
    SecondReachedExactlyWhen(w, steps, max);
    FirstIsSited(w, steps, max);
    RangeIsSecond(steps, max - |FirstList(w, steps, max)|);
  }

  lemma RangeIsSecond(steps: seq<Step>, max: nat)
    requires Forward(steps) && CaseRange.LookAtRange(steps, 0).Found? && max > 0
    ensures var second := SecondSites(CaseRangePass.SecondPass(steps, 0, max));
            second != [] && second[0].start == 0
  {
    CaseRangePass.LookGoesOn(steps, 0);
  }
}
