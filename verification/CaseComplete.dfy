/** Which CASEs the first detection pass reports, and that it overlooks none. */
module CaseComplete {
  import opened CaseOrder
  import opened CaseSteps
  import opened CaseDetect
  import opened CaseExact

  // ---- What is reported ----

  /** A threshold that may stand in front of another one. */
  predicate Precedes(w: World, fn: Fn, coll: nat, a: Datum, b: Datum) {
    var le := OrderOf(w, fn, coll);
    if fn.kind == LT then le(a, b) && !le(b, a)
    else if fn.kind == GT then le(b, a) && !le(a, b)
    else if fn.kind == EQ then !(le(a, b) && le(b, a))
    else if fn.repr == Generic then (if fn.kind == LE then le(a, b) else le(b, a))
    else if fn.kind == LE then le(a, b) && !le(b, a)
    else le(b, a) && !le(a, b)
  }

  predicate AllPrecede(w: World, fn: Fn, coll: nat, ts: seq<Datum>) {
    forall a, b | 0 <= a < b < |ts| :: Precedes(w, fn, coll, ts[a], ts[b])
  }

  lemma {:induction false} NeighboursReach(w: World, fn: Fn, coll: nat, ts: seq<Datum>, a: nat, b: nat)
    requires ValidWorld(w) && fn.kind != EQ && a < b < |ts|
    requires AllNeighboursOk(fn, OrderOf(w, fn, coll), ts)
    ensures Precedes(w, fn, coll, ts[a], ts[b])
    decreases b
  {
    var le := OrderOf(w, fn, coll);
    OrderIsTotal(w, fn, coll);
    assert NeighboursOk(fn, le, ts[b - 1], ts[b]);
    assert Precedes(w, fn, coll, ts[b - 1], ts[b]);
    if a < b - 1 {
      NeighboursReach(w, fn, coll, ts, a, b - 1);
      assert Precedes(w, fn, coll, ts[a], ts[b - 1]);
      assert le(ts[a], ts[b - 1]) && le(ts[b - 1], ts[b]) ==> le(ts[a], ts[b]);
    }
  }

  /** Looking at neighbours is looking at all pairs. */
  lemma PairsExactlyWhen(w: World, fn: Fn, coll: nat, ts: seq<Datum>)
    requires ValidWorld(w) && fn.kind != EQ
    ensures AllNeighboursOk(fn, OrderOf(w, fn, coll), ts) <==> AllPrecede(w, fn, coll, ts)
  {
    var le := OrderOf(w, fn, coll);
    OrderIsTotal(w, fn, coll);
    if AllNeighboursOk(fn, le, ts) {
      forall a, b | 0 <= a < b < |ts| ensures Precedes(w, fn, coll, ts[a], ts[b]) {
        NeighboursReach(w, fn, coll, ts, a, b);
      }
    }
    if AllPrecede(w, fn, coll, ts) {
      forall k | 0 < k < |ts| ensures NeighboursOk(fn, le, ts[k - 1], ts[k]) {
        assert Precedes(w, fn, coll, ts[k - 1], ts[k]);
      }
    }
  }

  /** Sorting and looking at neighbours finds equal thresholds wherever they stand. */
  lemma SortedExactlyWhen(w: World, fn: Fn, coll: nat, ts: seq<Datum>, rs: seq<Datum>)
    requires ValidWorld(w) && fn.kind == EQ && |ts| == |rs|
    ensures var le := SearchOrder(w, fn, coll);
            DistinctInOrder(le, Sort(le, Zip(ts, rs))) <==> AllPrecede(w, fn, coll, ts)
  {
    var le := SearchOrder(w, fn, coll);
    var ps := Zip(ts, rs);
    SearchOrderIsTotal(w, fn, coll);
    SortSorts(le, ps);
    SortUnlike(le, ps);
    var sorted := Sort(le, ps);
    assert DistinctInOrder(le, sorted) <==> Unlike(le, sorted) by {
      if DistinctInOrder(le, sorted) {
        DistinctAreUnlike(le, sorted);
      }
    }
    assert Unlike(le, ps) <==> AllPrecede(w, fn, coll, ts) by {
      UnlikePairs(w, fn, coll, ts, ps);
    }
  }

  lemma DistinctAreUnlike(le: Order, ps: seq<Pair>)
    requires TotalPreorder(le) && SortedPairs(le, ps) && DistinctInOrder(le, ps)
    ensures Unlike(le, ps)
  {
    DistinctNeighbours(le, ps);
    var ts := Thresholds(ps);
    forall i, j | 0 <= i < j < |ps| ensures !Same(le, ps[i].threshold, ps[j].threshold) {
      assert !le(ts[j], ts[i]);
    }
  }

  lemma UnlikePairs(w: World, fn: Fn, coll: nat, ts: seq<Datum>, ps: seq<Pair>)
    requires ValidWorld(w) && fn.kind == EQ && |ps| == |ts| && forall i | 0 <= i < |ts| :: ps[i].threshold == ts[i]
    ensures Unlike(SearchOrder(w, fn, coll), ps) <==> AllPrecede(w, fn, coll, ts)
  {
    var le := SearchOrder(w, fn, coll);
    SearchOrderIsTotal(w, fn, coll);
    forall i, j | 0 <= i < j < |ts|
      ensures Same(le, ps[i].threshold, ps[j].threshold) <==> !Precedes(w, fn, coll, ts[i], ts[j])
    {
    }
    if Unlike(le, ps) {
      forall i, j | 0 <= i < j < |ts| ensures Precedes(w, fn, coll, ts[i], ts[j]) {
        assert !Same(le, ps[i].threshold, ps[j].threshold);
      }
    }
  }

  /** A CASE of n branches at step i that no further branch follows, with its ELSE. */
  predicate CaseOf(steps: seq<Step>, i: nat, n: nat) {
    n >= 4 && Chain(steps, i, n) && !BranchOf(steps, i, n) && ElseAt(steps, i + 5 * n, steps[i + 4].target)
  }

  /** The detector can search it: the comparison is one it knows, and the thresholds are words it may
      compare and stand as they must, pair by pair; only an equality whose type has no known order
      takes them as they come. */
  predicate Searchable(w: World, steps: seq<Step>, i: nat, n: nat)
    requires Chain(steps, i, n)
  {
    var fn := steps[i + 1].fn;
    && w.direct(fn)
    && (fn.kind != EQ || fn.repr != Generic || w.hasLt(fn.family) ==>
          ReadsConstants(steps, i, n) && AllPrecede(w, fn, steps[i + 1].coll, ChainThresholds(steps, i, n)))
  }

  lemma LengthOf(steps: seq<Step>, i: nat, n: nat)
    requires CaseOf(steps, i, n)
    ensures ChainLength(steps, i, 1) == n && steps[i + 2].target == i + 5
  {
    assert BranchOf(steps, i, 0);
  }

  lemma ReadsExactlyWhen(steps: seq<Step>, i: nat, n: nat)
    requires Chain(steps, i, n)
    ensures ReadsConstants(steps, i, n) <==> true !in NullWords(steps, i, n)
  {
    var nulls := NullWords(steps, i, n);
    forall k: nat | k < n ensures nulls[k] == NullWord(steps, i, k) {
    }
  }

  /** What is built for such a CASE is a pattern exactly when it can be searched. */
  lemma BuiltExactlyWhen(w: World, steps: seq<Step>, i: nat, n: nat)
    requires ValidWorld(w) && CaseOf(steps, i, n)
    requires steps[i + 2].target == i + STRIDE && n == ChainLength(steps, i, 1) && w.direct(steps[i + 1].fn)
    ensures Build(w, steps, i, n).Found? <==> Searchable(w, steps, i, n)
  {
    var fn, coll := steps[i + 1].fn, steps[i + 1].coll;
    var ts, rs := ChainThresholds(steps, i, n), ChainResults(steps, i, n);
    ReadsExactlyWhen(steps, i, n);
    if fn.kind != EQ {
      PassesWhen(steps, i, n, fn, OrderOf(w, fn, coll));
      PairsExactlyWhen(w, fn, coll, ts);
    } else {
      SortedExactlyWhen(w, fn, coll, ts, rs);
    }
  }

  lemma FoundIsCase(w: World, steps: seq<Step>, i: nat)
    requires ValidWorld(w) && LookAt(w, steps, i).Found?
    ensures BranchAt(steps, i) && w.direct(steps[i + 1].fn)
    ensures CaseOf(steps, i, ChainLength(steps, i, 1)) && steps[i + 2].target == i + STRIDE
    ensures LookAt(w, steps, i) == Build(w, steps, i, ChainLength(steps, i, 1))
  {
    ChainOfLength(steps, i);
  }

  /** A look at step i reports a pattern exactly when a CASE of at least four branches stands there
      that can be searched. */
  lemma FoundExactlyWhen(w: World, steps: seq<Step>, i: nat)
    requires ValidWorld(w)
    ensures LookAt(w, steps, i).Found? <==> exists n: nat :: CaseOf(steps, i, n) && Searchable(w, steps, i, n)
  {
    if LookAt(w, steps, i).Found? {
      FoundIsCase(w, steps, i);
      BuiltExactlyWhen(w, steps, i, ChainLength(steps, i, 1));
    }
    if n: nat :| CaseOf(steps, i, n) && Searchable(w, steps, i, n) {
      LengthOf(steps, i, n);
      BuiltExactlyWhen(w, steps, i, n);
    }
  }

  // ---- Nothing is overlooked ----

  /** A look that reports nothing goes on by one step, or behind the branches it has looked at. */
  lemma SkipsBranchesOnly(w: World, steps: seq<Step>, i: nat)
    requires LookAt(w, steps, i).Skip?
    ensures var next := LookAt(w, steps, i).next;
            next == i + 1 || exists n: nat :: Chain(steps, i, n) && next == i + 5 * n
  {
    if LookAt(w, steps, i).next != i + 1 {
      var n := ChainLength(steps, i, 1);
      if steps[i + 2].target == i + STRIDE {
        ChainOfLength(steps, i);
        assert Chain(steps, i, n);
      }
    }
  }

  /** Step i lies among branches that were looked at from step b on and refused. */
  ghost predicate InRefused(w: World, steps: seq<Step>, b: nat, i: nat) {
    && LookAt(w, steps, b).Skip? && b < i
    && exists n: nat :: Chain(steps, b, n) && i < b + 5 * n
  }

  /** What became of step i: a pattern is reported there, or it lies inside one, or among refused
      branches; or the list was full before, or the pass came to a null pointer. */
  ghost predicate Seen(w: World, steps: seq<Step>, i0: nat, max: nat, found: seq<CaseInfo>, i: nat) {
    || (exists k :: 0 <= k < |found| && found[k].start <= i < found[k].end)
    || (exists b: nat :: i0 <= b < i && InRefused(w, steps, b, i))
    || |found| == max
    || (exists b: nat :: i0 <= b <= i && LookAt(w, steps, b).Stuck?)
  }

  lemma SeenLater(w: World, steps: seq<Step>, i0: nat, next: nat, max: nat, found: seq<CaseInfo>, i: nat)
    requires i0 <= next && Seen(w, steps, next, max, found, i)
    ensures Seen(w, steps, i0, max, found, i)
  {
  }

  lemma SeenBehind(w: World, steps: seq<Step>, i0: nat, next: nat, max: nat, info: CaseInfo, rest: seq<CaseInfo>,
                   i: nat)
    requires i0 <= next && max > 0 && Seen(w, steps, next, max - 1, rest, i)
    ensures Seen(w, steps, i0, max, [info] + rest, i)
  {
    var all := [info] + rest;
    if k :| 0 <= k < |rest| && rest[k].start <= i < rest[k].end {
      assert all[k + 1].start <= i < all[k + 1].end;
    }
  }

  lemma SeenRefused(w: World, steps: seq<Step>, i0: nat, max: nat, found: seq<CaseInfo>, i: nat)
    requires LookAt(w, steps, i0).Skip? && i0 < i < LookAt(w, steps, i0).next
    ensures Seen(w, steps, i0, max, found, i)
  {
    SkipsBranchesOnly(w, steps, i0);
    assert InRefused(w, steps, i0, i);
  }

  lemma SeenInside(w: World, steps: seq<Step>, i0: nat, max: nat, i: nat)
    requires ValidWorld(w) && Forward(steps) && i0 + STRIDE < |steps| && max > 0 && LookAt(w, steps, i0).Found?
    requires i0 <= i < LookAt(w, steps, i0).info.end
    ensures Seen(w, steps, i0, max, FirstPass(w, steps, i0, max), i)
  {
    FirstPassFinds(w, steps, i0, max);
    FoundIsDetected(w, steps, i0);
    assert FirstPass(w, steps, i0, max)[0] == LookAt(w, steps, i0).info;
  }

  lemma SkipSees(w: World, steps: seq<Step>, i0: nat, max: nat, i: nat)
    requires Forward(steps) && i0 + STRIDE < |steps| && max > 0 && LookAt(w, steps, i0).Skip?
    requires var next := LookAt(w, steps, i0).next;
             i0 <= next && Seen(w, steps, next, max, FirstPass(w, steps, next, max), i)
    ensures Seen(w, steps, i0, max, FirstPass(w, steps, i0, max), i)
  {
    FirstPassSkips(w, steps, i0, max);
    var rest := FirstPass(w, steps, LookAt(w, steps, i0).next, max);
    assert [] + rest == rest;
    SeenLater(w, steps, i0, LookAt(w, steps, i0).next, max, rest, i);
  }

  lemma FoundSees(w: World, steps: seq<Step>, i0: nat, max: nat, i: nat)
    requires Forward(steps) && i0 + STRIDE < |steps| && max > 0 && LookAt(w, steps, i0).Found?
    requires var end := LookAt(w, steps, i0).info.end;
             i0 <= end && Seen(w, steps, end, max - 1, FirstPass(w, steps, end, max - 1), i)
    ensures Seen(w, steps, i0, max, FirstPass(w, steps, i0, max), i)
  {
    FirstPassFinds(w, steps, i0, max);
    var info := LookAt(w, steps, i0).info;
    SeenBehind(w, steps, i0, info.end, max, info, FirstPass(w, steps, info.end, max - 1), i);
  }

  lemma {:induction false} PassSees(w: World, steps: seq<Step>, i0: nat, max: nat, i: nat)
    requires ValidWorld(w) && Forward(steps) && i0 <= i && i + STRIDE < |steps| && LookAt(w, steps, i).Found?
    ensures Seen(w, steps, i0, max, FirstPass(w, steps, i0, max), i)
    decreases |steps| - i0
  {
    if max > 0 && LookAt(w, steps, i0).Skip? {
      FirstPassSkips(w, steps, i0, max);
      var next := LookAt(w, steps, i0).next;
      if next <= i {
        PassSees(w, steps, next, max, i);
        SkipSees(w, steps, i0, max, i);
      } else {
        SeenRefused(w, steps, i0, max, FirstPass(w, steps, i0, max), i);
      }
    } else if max > 0 && LookAt(w, steps, i0).Found? {
      FirstPassFinds(w, steps, i0, max);
      var end := LookAt(w, steps, i0).info.end;
      if end <= i {
        PassSees(w, steps, end, max - 1, i);
        FoundSees(w, steps, i0, max, i);
      } else {
        SeenInside(w, steps, i0, max, i);
      }
    }
  }

  /** A CASE that can be searched is reported; unless the list was full before, or it lies inside a
      CASE that is reported or behind the first of branches that were refused together, or the pass
      came to a null pointer. */
  lemma PassIsComplete(w: World, steps: seq<Step>, max: nat, i: nat, n: nat)
    requires ValidWorld(w) && Forward(steps) && CaseOf(steps, i, n) && Searchable(w, steps, i, n)
    ensures Seen(w, steps, 0, max, FirstPass(w, steps, 0, max), i)
  {
    FoundExactlyWhen(w, steps, i);
    PassSees(w, steps, 0, max, i);
  }
}
