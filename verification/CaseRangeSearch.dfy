/** The search that answers a range CASE: a check of the lower end, then a binary search over the
    upper bounds; and when it agrees with taking the ranges in source order. */
module CaseRangeSearch {
  import opened CaseOrder

  /** The ranges of a pattern; `exact` tells which branches yield their recorded result. */
  datatype Ranges = Ranges(lows: seq<int>, uppers: seq<int>, results: seq<Datum>, exact: seq<bool>, default: Datum)

  predicate ValidRanges(r: Ranges) {
    |r.lows| == |r.uppers| == |r.results| == |r.exact| > 0
  }

  /** First range that holds v, in source order. */
  function FirstRange(lows: seq<int>, uppers: seq<int>, v: int, k: nat): (r: nat)
    requires |lows| == |uppers| && k <= |uppers|
    ensures k <= r <= |uppers|
    ensures forall m | k <= m < r :: !(lows[m] <= v < uppers[m])
    ensures r < |uppers| ==> lows[r] <= v < uppers[r]
    decreases |uppers| - k
  {
    if k == |uppers| || lows[k] <= v < uppers[k] then k else FirstRange(lows, uppers, v, k + 1)
  }

  // ---- The search ----

  /** Where the binary search over [lo, hi) ends. */
  function Probe(uppers: seq<int>, v: int, lo: nat, hi: nat): (k: nat)
    requires lo <= hi <= |uppers|
    ensures lo <= k <= hi
    decreases hi - lo
  {
    if lo == hi then lo
    else
      var mid := lo + (hi - lo) / 2;
      if v < uppers[mid] then Probe(uppers, v, lo, mid) else Probe(uppers, v, mid + 1, hi)
  }

  function Searched(low: int, uppers: seq<int>, v: int): (k: nat)
    ensures k <= |uppers|
  {
    if v < low then |uppers| else Probe(uppers, v, 0, |uppers|)
  }

  /** The helper on a range pattern. */
  method SearchRange(low: int, uppers: seq<int>, results: seq<Datum>, default: Datum, v: int) returns (r: Datum)
    requires |results| == |uppers|
    ensures r == Pick(results, Searched(low, uppers, v), default)
  {
    if v < low {
      return default;
    }
    var lo, hi := 0, |uppers|;
    while lo < hi
      invariant 0 <= lo <= hi <= |uppers|
      invariant Probe(uppers, v, lo, hi) == Probe(uppers, v, 0, |uppers|)
    {
      var mid := lo + (hi - lo) / 2;
      if v < uppers[mid] {
        hi := mid;
      } else {
        lo := mid + 1;
      }
    }
    return if lo < |uppers| then results[lo] else default;
  }

  // ---- When no range is turned round ----

  predicate UpToNext(lows: seq<int>, uppers: seq<int>)
    requires |lows| == |uppers|
  {
    forall k | 0 < k < |lows| :: lows[k] == uppers[k - 1]
  }

  predicate NoneReversed(lows: seq<int>, uppers: seq<int>)
    requires |lows| == |uppers|
  {
    forall k | 0 <= k < |lows| :: lows[k] <= uppers[k]
  }

  lemma {:induction false} UppersAscend(lows: seq<int>, uppers: seq<int>, mid: nat)
    requires |lows| == |uppers| && mid < |uppers| && UpToNext(lows, uppers) && NoneReversed(lows, uppers)
    ensures forall k | 0 <= k <= mid :: uppers[k] <= uppers[mid]
  {
    if mid > 0 {
      UppersAscend(lows, uppers, mid - 1);
    }
  }

  /** The binary search ends between the bounds it has passed. */
  lemma {:induction false} ProbeFinds(lows: seq<int>, uppers: seq<int>, v: int, lo: nat, hi: nat)
    requires |lows| == |uppers| && lo <= hi <= |uppers| && UpToNext(lows, uppers) && NoneReversed(lows, uppers)
    requires forall k | 0 <= k < lo :: uppers[k] <= v
    requires hi < |uppers| ==> v < uppers[hi]
    ensures var k := Probe(uppers, v, lo, hi);
            && (forall m | 0 <= m < k :: uppers[m] <= v)
            && (k < |uppers| ==> v < uppers[k])
    decreases hi - lo
  {
    if lo < hi {
      var mid := lo + (hi - lo) / 2;
      if v < uppers[mid] {
        ProbeFinds(lows, uppers, v, lo, mid);
      } else {
        UppersAscend(lows, uppers, mid);
        ProbeFinds(lows, uppers, v, mid + 1, hi);
      }
    }
  }

  lemma FirstRangeIs(lows: seq<int>, uppers: seq<int>, v: int, k: nat)
    requires |lows| == |uppers| && k <= |uppers|
    requires forall m | 0 <= m < k :: !(lows[m] <= v < uppers[m])
    requires k < |uppers| ==> lows[k] <= v < uppers[k]
    ensures FirstRange(lows, uppers, v, 0) == k
  {
  }

  /** Contiguous ranges, none of them turned round: the search ends at the first range that
      holds the value. */
  lemma SearchFindsFirst(lows: seq<int>, uppers: seq<int>, v: int)
    requires |lows| == |uppers| > 0 && UpToNext(lows, uppers) && NoneReversed(lows, uppers)
    ensures Searched(lows[0], uppers, v) == FirstRange(lows, uppers, v, 0)
  {
    if v < lows[0] {
      forall k | 0 <= k < |lows| ensures v < lows[k] {
        if k > 0 {
          UppersAscend(lows, uppers, k - 1);
          assert uppers[0] <= uppers[k - 1];
        }
      }
      FirstRangeIs(lows, uppers, v, |uppers|);
    } else {
      ProbeFinds(lows, uppers, v, 0, |uppers|);
      FirstRangeIs(lows, uppers, v, Probe(uppers, v, 0, |uppers|));
    }
  }

  // ---- Exactly when the search is right ----

  function Lower(a: int, b: int): int {
    if a < b then a else b
  }

  function Upper(a: int, b: int): int {
    if a < b then b else a
  }

  /** Branch k, or the ELSE, is sure to yield `want`. */
  predicate Yields(r: Ranges, k: nat, want: Datum)
    requires ValidRanges(r) && k <= |r.uppers|
  {
    if k < |r.uppers| then r.exact[k] && r.results[k] == want else r.default == want
  }

  /** Taking the values of [a, b) apart by the ranges from m on: wherever some are left for a
      branch, it yields `want`. */
  predicate AllYield(r: Ranges, m: nat, a: int, b: int, want: Datum)
    requires ValidRanges(r) && m <= |r.uppers|
    decreases |r.uppers| - m
  {
    if a >= b then true
    else if m == |r.uppers| then r.default == want
    else
      && (Upper(a, r.lows[m]) < Lower(b, r.uppers[m]) ==> Yields(r, m, want))
      && AllYield(r, m + 1, a, Lower(b, r.lows[m]), want)
      && AllYield(r, m + 1, Upper(a, r.uppers[m]), b, want)
  }

  /** Down the search tree over `bounds`: [a, b) holds the values that reach this node; at a leaf
      they are taken apart by the ranges. */
  predicate TreeOk(bounds: seq<int>, r: Ranges, lo: nat, hi: nat, a: int, b: int)
    requires ValidRanges(r) && lo <= hi <= |bounds| == |r.uppers|
    decreases hi - lo
  {
    if a >= b then true
    else if lo == hi then AllYield(r, 0, a, b, Pick(r.results, lo, r.default))
    else
      var mid := lo + (hi - lo) / 2;
      && TreeOk(bounds, r, lo, mid, a, Lower(b, bounds[mid]))
      && TreeOk(bounds, r, mid + 1, hi, Upper(a, bounds[mid]), b)
  }

  /** For values in [bottom, top), and the search over `bounds` behind the check of `low`. */
  predicate RangesOk(low: int, bounds: seq<int>, r: Ranges, bottom: int, top: int)
    requires ValidRanges(r) && |bounds| == |r.uppers|
  {
    && AllYield(r, 0, bottom, Lower(top, low), r.default)
    && TreeOk(bounds, r, 0, |bounds|, Upper(bottom, low), top)
  }

  ghost predicate YieldFrom(r: Ranges, m: nat, a: int, b: int, want: Datum)
    requires ValidRanges(r) && m <= |r.uppers|
  {
    forall v | a <= v < b :: Yields(r, FirstRange(r.lows, r.uppers, v, m), want)
  }

  lemma {:induction false} AllYieldIs(r: Ranges, m: nat, a: int, b: int, want: Datum)
    requires ValidRanges(r) && m <= |r.uppers|
    ensures AllYield(r, m, a, b, want) <==> YieldFrom(r, m, a, b, want)
    decreases |r.uppers| - m
  {
    if a < b {
      if m == |r.uppers| {
        assert FirstRange(r.lows, r.uppers, a, m) == m;
      } else {
        AllYieldIs(r, m + 1, a, Lower(b, r.lows[m]), want);
        AllYieldIs(r, m + 1, Upper(a, r.uppers[m]), b, want);
        YieldSplits(r, m, a, b, want);
      }
    }
  }

  /** A value whose branch is not sure to yield `want`. */
  lemma NotAllYield(r: Ranges, m: nat, a: int, b: int, want: Datum) returns (x: int)
    requires ValidRanges(r) && m <= |r.uppers| && !AllYield(r, m, a, b, want)
    ensures a <= x < b && !Yields(r, FirstRange(r.lows, r.uppers, x, m), want)
  {
    AllYieldIs(r, m, a, b, want);
    x :| a <= x < b && !Yields(r, FirstRange(r.lows, r.uppers, x, m), want);
  }

  /** The values inside range m, those below it and those above it. */
  lemma YieldSplits(r: Ranges, m: nat, a: int, b: int, want: Datum)
    requires ValidRanges(r) && m < |r.uppers|
    ensures YieldFrom(r, m, a, b, want) <==>
            && (Upper(a, r.lows[m]) < Lower(b, r.uppers[m]) ==> Yields(r, m, want))
            && YieldFrom(r, m + 1, a, Lower(b, r.lows[m]), want)
            && YieldFrom(r, m + 1, Upper(a, r.uppers[m]), b, want)
  {
    if YieldFrom(r, m, a, b, want) {
      var next := m + 1;
      forall v | a <= v < b && !(r.lows[m] <= v < r.uppers[m])
        ensures Yields(r, FirstRange(r.lows, r.uppers, v, next), want)
      {
        assert FirstRange(r.lows, r.uppers, v, m) == FirstRange(r.lows, r.uppers, v, m + 1);
      }
      assert Upper(a, r.lows[m]) < Lower(b, r.uppers[m]) ==> FirstRange(r.lows, r.uppers, Upper(a, r.lows[m]), m) == m;
    } else {
      var v :| a <= v < b && !Yields(r, FirstRange(r.lows, r.uppers, v, m), want);
      assert FirstRange(r.lows, r.uppers, v, m) ==
             if r.lows[m] <= v < r.uppers[m] then m else FirstRange(r.lows, r.uppers, v, m + 1);
    }
  }

  ghost predicate TreeAgrees(bounds: seq<int>, r: Ranges, lo: nat, hi: nat, a: int, b: int)
    requires ValidRanges(r) && lo <= hi <= |bounds| == |r.uppers|
  {
    forall v | a <= v < b ::
      Yields(r, FirstRange(r.lows, r.uppers, v, 0), Pick(r.results, Probe(bounds, v, lo, hi), r.default))
  }

  lemma {:induction false} TreeOkIs(bounds: seq<int>, r: Ranges, lo: nat, hi: nat, a: int, b: int)
    requires ValidRanges(r) && lo <= hi <= |bounds| == |r.uppers|
    ensures TreeOk(bounds, r, lo, hi, a, b) <==> TreeAgrees(bounds, r, lo, hi, a, b)
    decreases hi - lo
  {
    if a < b {
      if lo == hi {
        AllYieldIs(r, 0, a, b, Pick(r.results, lo, r.default));
      } else {
        var mid := lo + (hi - lo) / 2;
        TreeOkIs(bounds, r, lo, mid, a, Lower(b, bounds[mid]));
        TreeOkIs(bounds, r, mid + 1, hi, Upper(a, bounds[mid]), b);
        forall v ensures Probe(bounds, v, lo, hi) ==
                         if v < bounds[mid] then Probe(bounds, v, lo, mid) else Probe(bounds, v, mid + 1, hi)
        {
        }
      }
    }
  }

  /** Every value gets from the search what the branches are sure to yield. */
  ghost predicate SearchAgrees(low: int, bounds: seq<int>, r: Ranges, bottom: int, top: int)
    requires ValidRanges(r) && |bounds| == |r.uppers|
  {
    forall v | bottom <= v < top ::
      Yields(r, FirstRange(r.lows, r.uppers, v, 0), Pick(r.results, Searched(low, bounds, v), r.default))
  }

  lemma RangesOkExactlyWhen(low: int, bounds: seq<int>, r: Ranges, bottom: int, top: int)
    requires ValidRanges(r) && |bounds| == |r.uppers|
    ensures RangesOk(low, bounds, r, bottom, top) <==> SearchAgrees(low, bounds, r, bottom, top)
  {
    AllYieldIs(r, 0, bottom, Lower(top, low), r.default);
    TreeOkIs(bounds, r, 0, |bounds|, Upper(bottom, low), top);
  }

  /** A value whose branch is not sure to yield what the search finds. */
  lemma NotSearched(low: int, bounds: seq<int>, r: Ranges, bottom: int, top: int) returns (x: int)
    requires ValidRanges(r) && |bounds| == |r.uppers| && !RangesOk(low, bounds, r, bottom, top)
    ensures bottom <= x < top
    ensures !Yields(r, FirstRange(r.lows, r.uppers, x, 0), Pick(r.results, Searched(low, bounds, x), r.default))
  {
    RangesOkExactlyWhen(low, bounds, r, bottom, top);
    x :| bottom <= x < top &&
         !Yields(r, FirstRange(r.lows, r.uppers, x, 0), Pick(r.results, Searched(low, bounds, x), r.default));
  }

  /** Contiguous ranges, none turned round, that are searched by their own bounds and yield their
      results, meet the condition. */
  lemma OrdinaryRangesOk(r: Ranges, bottom: int, top: int)
    requires ValidRanges(r) && UpToNext(r.lows, r.uppers) && NoneReversed(r.lows, r.uppers)
    requires forall k | 0 <= k < |r.exact| :: r.exact[k]
    ensures RangesOk(r.lows[0], r.uppers, r, bottom, top)
  {
    forall v | bottom <= v < top
      ensures Searched(r.lows[0], r.uppers, v) == FirstRange(r.lows, r.uppers, v, 0)
    {
      SearchFindsFirst(r.lows, r.uppers, v);
    }
    RangesOkExactlyWhen(r.lows[0], r.uppers, r, bottom, top);
  }

  /** The lower bound of a range that is not empty leads to its branch. */
  lemma OkIsExact(r: Ranges, bottom: int, top: int, k: nat)
    requires ValidRanges(r) && UpToNext(r.lows, r.uppers) && NoneReversed(r.lows, r.uppers)
    requires RangesOk(r.lows[0], r.uppers, r, bottom, top)
    requires k < |r.uppers| && bottom <= r.lows[k] < top && r.lows[k] < r.uppers[k]
    ensures r.exact[k]
  {
    if k > 0 {
      UppersAscend(r.lows, r.uppers, k - 1);
    }
    FirstRangeIs(r.lows, r.uppers, r.lows[k], k);
    RangesOkExactlyWhen(r.lows[0], r.uppers, r, bottom, top);
  }
}
