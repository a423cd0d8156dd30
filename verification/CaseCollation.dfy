/** When a CASE whose branches use several collations may be searched: the detector compares
    the collation of no branch but the first. */
module CaseCollation {
  import opened CaseOrder
  import opened CaseSteps
  import opened CaseDetect

  /** The data of a chain, branch by branch. */
  datatype Branches = Branches(fn: Fn, ts: seq<Datum>, colls: seq<nat>, rs: seq<Datum>, default: Datum)

  predicate ValidBranches(b: Branches) {
    |b.ts| == |b.colls| == |b.rs| > 0
  }

  predicate First(b: Branches, k: nat)
    requires ValidBranches(b) && k < |b.ts|
  {
    b.colls[k] == b.colls[0]
  }

  predicate OwnHolds(w: World, b: Branches, v: Datum, k: nat)
    requires ValidBranches(b) && k < |b.ts|
  {
    Holds(b.fn.kind, OrderOf(w, b.fn, b.colls[k]), v, b.ts[k])
  }

  predicate FirstHolds(w: World, b: Branches, v: Datum, k: nat)
    requires ValidBranches(b) && k < |b.ts|
  {
    Holds(b.fn.kind, OrderOf(w, b.fn, b.colls[0]), v, b.ts[k])
  }

  /** The first branch that holds under its own collation. */
  function FirstOwn(w: World, b: Branches, v: Datum, from: nat): (k: nat)
    requires ValidBranches(b) && from <= |b.ts|
    ensures from <= k <= |b.ts|
    ensures forall i: nat | from <= i < k :: !OwnHolds(w, b, v, i)
    ensures k < |b.ts| ==> OwnHolds(w, b, v, k)
    decreases |b.ts| - from
  {
    if from == |b.ts| || OwnHolds(w, b, v, from) then from else FirstOwn(w, b, v, from + 1)
  }

  lemma FirstOwnIs(w: World, b: Branches, v: Datum, o: nat)
    requires ValidBranches(b) && o <= |b.ts|
    requires forall m: nat | m <= o && m < |b.ts| :: OwnHolds(w, b, v, m) <==> m == o
    ensures FirstOwn(w, b, v, 0) == o
  {
    var o' := FirstOwn(w, b, v, 0);
    assert o < |b.ts| ==> OwnHolds(w, b, v, o);
    assert o' <= o && o' < |b.ts| ==> (OwnHolds(w, b, v, o') <==> o' == o);
  }

  /** What the branches yield one after the other. */
  function OwnValue(w: World, b: Branches, v: Datum): Datum
    requires ValidBranches(b)
  {
    Pick(b.rs, FirstOwn(w, b, v, 0), b.default)
  }

  /** What a search under the collation of the first branch yields. */
  function SearchedValue(w: World, b: Branches, v: Datum): Datum
    requires ValidBranches(b)
  {
    Pick(b.rs, FirstMatch(b.fn.kind, OrderOf(w, b.fn, b.colls[0]), v, b.ts, 0), b.default)
  }

  /** The checks of the detector on these branches. */
  predicate Reported(w: World, b: Branches)
    requires ValidBranches(b)
  {
    && w.direct(b.fn)
    && if b.fn.kind != EQ then AllNeighboursOk(b.fn, OrderOf(w, b.fn, b.colls[0]), b.ts)
       else
         var le := SearchOrder(w, b.fn, b.colls[0]);
         Sortable(w, b.fn) ==> DistinctInOrder(le, Sort(le, Zip(b.ts, b.rs)))
  }

  // ---- The condition ----

  /** No threshold stands on both sides of position q. */
  predicate Uncut(ts: seq<Datum>, q: nat) {
    forall i, j | 0 <= i < q <= j < |ts| :: ts[i] != ts[j]
  }

  predicate Twin(b: Branches, k: nat)
    requires ValidBranches(b) && k < |b.ts|
  {
    exists m | 0 <= m < k :: b.ts[m] == b.ts[k] && b.colls[m] == b.colls[k]
  }

  /** Branch k decides for some value under some orders.  A branch with an equal one in front of
      it never does; nor does a branch of the first collation when the thresholds in order force
      an earlier branch of that collation to be equal to it. */
  predicate Live(b: Branches, k: nat)
    requires ValidBranches(b) && k < |b.ts|
  {
    if !First(b, k) then !Twin(b, k)
    else exists q: nat | q <= k :: Uncut(b.ts, q) && forall m: nat | q <= m < k :: !First(b, m)
  }

  /** A strict comparison and an equality are reported for distinct thresholds only. */
  predicate Reportable(b: Branches) {
    (b.fn.kind == LT || b.fn.kind == GT || b.fn.kind == EQ) ==> forall q: nat | q <= |b.ts| :: Uncut(b.ts, q)
  }

  /** From the first branch under another collation on, every branch that can decide yields the
      ELSE value. */
  predicate Harmless(b: Branches)
    requires ValidBranches(b)
  {
    b.fn.repr == Generic && Reportable(b) ==>
      forall j: nat, k: nat | j <= k < |b.ts| && !First(b, j) && Live(b, k) :: b.rs[k] == b.default
  }

  // ---- The condition suffices ----

  /** Only generic types look at the collation. */
  lemma SameOrder(w: World, fn: Fn, c: nat, c': nat, v: Datum, t: Datum)
    requires fn.repr != Generic
    ensures Holds(fn.kind, OrderOf(w, fn, c), v, t) <==> Holds(fn.kind, OrderOf(w, fn, c'), v, t)
  {
  }

  lemma ReportedIsReportable(w: World, b: Branches)
    requires ValidWorld(w) && KnownLt(w) && ValidBranches(b) && b.fn.repr == Generic && Reported(w, b)
    ensures Reportable(b)
  {
    if b.fn.kind == EQ {
      SortedAreDistinct(SearchOrder(w, b.fn, b.colls[0]), b.ts, b.rs) by {
        SearchOrderIsTotal(w, b.fn, b.colls[0]);
      }
    }
    if b.fn.kind == LT || b.fn.kind == GT {
      var le := OrderOf(w, b.fn, b.colls[0]);
      OrderIsTotal(w, b.fn, b.colls[0]);
      forall i, j | 0 <= i < j < |b.ts| ensures b.ts[i] != b.ts[j] {
        StrictlyMonotone(b.fn, le, b.ts, i, j);
      }
    }
  }

  /** Sorted without equal neighbours, the thresholds were distinct. */
  lemma SortedAreDistinct(le: Order, ts: seq<Datum>, rs: seq<Datum>)
    requires TotalPreorder(le) && |ts| == |rs| && DistinctInOrder(le, Sort(le, Zip(ts, rs)))
    ensures forall i, j | 0 <= i < j < |ts| :: ts[i] != ts[j]
  {
    var ps := Zip(ts, rs);
    var sorted := Sort(le, ps);
    SortSorts(le, ps);
    DistinctNeighbours(le, sorted);
    forall i, j | 0 <= i < j < |sorted| ensures !Same(le, sorted[i].threshold, sorted[j].threshold) {
      assert le(Thresholds(sorted)[i], Thresholds(sorted)[j]);
    }
    SortUnlike(le, ps);
    forall i, j | 0 <= i < j < |ts| ensures ts[i] != ts[j] {
      assert !Same(le, ps[i].threshold, ps[j].threshold) && le(ts[i], ts[i]);
    }
  }

  lemma {:induction false} StrictlyMonotone(fn: Fn, le: Order, ts: seq<Datum>, i: nat, j: nat)
    requires TotalPreorder(le) && fn.repr == Generic && (fn.kind == LT || fn.kind == GT)
    requires AllNeighboursOk(fn, le, ts) && i < j < |ts|
    ensures Holds(fn.kind, le, ts[i], ts[j])
    decreases j
  {
    assert NeighboursOk(fn, le, ts[j - 1], ts[j]);
    if i < j - 1 {
      StrictlyMonotone(fn, le, ts, i, j - 1);
      Transitive(le, ts[j], ts[i], ts[j - 1]);
      Transitive(le, ts[j - 1], ts[i], ts[j]);
      Transitive(le, ts[j - 1], ts[j], ts[i]);
      Transitive(le, ts[i], ts[j], ts[j - 1]);
    }
  }

  /** Behind the first match all branches of an order comparison match; so no threshold stands
      on both sides of it. */
  lemma MatchIsCut(w: World, b: Branches, v: Datum, p: nat)
    requires ValidWorld(w) && ValidBranches(b) && Reported(w, b) && b.fn.kind != EQ
    requires p < |b.ts| && p == FirstMatch(b.fn.kind, OrderOf(w, b.fn, b.colls[0]), v, b.ts, 0)
    ensures forall m: nat | m < |b.ts| :: FirstHolds(w, b, v, m) <==> p <= m
    ensures Uncut(b.ts, p)
  {
    var le := OrderOf(w, b.fn, b.colls[0]);
    OrderIsTotal(w, b.fn, b.colls[0]);
    CheckedIsMonotone(b.fn, le, b.ts);
    forall m: nat | m < |b.ts| ensures FirstHolds(w, b, v, m) <==> p <= m {
      if p <= m {
        HoldsStays(b.fn.kind, le, v, b.ts, p, m);
      }
    }
    forall i, j | 0 <= i < p <= j < |b.ts| ensures b.ts[i] != b.ts[j] {
      assert FirstHolds(w, b, v, j) && !FirstHolds(w, b, v, i);
    }
  }

  lemma MatchIsLive(w: World, b: Branches, v: Datum, p: nat)
    requires ValidWorld(w) && ValidBranches(b) && Reported(w, b) && Reportable(b)
    requires p < |b.ts| && p == FirstMatch(b.fn.kind, OrderOf(w, b.fn, b.colls[0]), v, b.ts, 0)
    ensures Live(b, p)
  {
    if b.fn.kind == EQ {
      assert Uncut(b.ts, p);
    } else if First(b, p) {
      MatchIsCut(w, b, v, p);
    }
  }

  lemma OwnIsLive(w: World, b: Branches, v: Datum, o: nat)
    requires ValidWorld(w) && ValidBranches(b) && Reported(w, b) && Reportable(b)
    requires o < |b.ts| && o == FirstOwn(w, b, v, 0)
    ensures Live(b, o)
  {
    if b.fn.kind == EQ {
      assert Uncut(b.ts, o);
    } else if !First(b, o) {
      forall m | 0 <= m < o ensures !(b.ts[m] == b.ts[o] && b.colls[m] == b.colls[o]) {
        assert !OwnHolds(w, b, v, m);
      }
    } else {
      var p := FirstMatch(b.fn.kind, OrderOf(w, b.fn, b.colls[0]), v, b.ts, 0);
      assert FirstHolds(w, b, v, o);
      MatchIsCut(w, b, v, p);
      forall m: nat | p <= m < o ensures !First(b, m) {
        assert FirstHolds(w, b, v, m) && !OwnHolds(w, b, v, m);
      }
    }
  }

  lemma HarmlessIsRight(w: World, b: Branches, v: Datum)
    requires ValidWorld(w) && KnownLt(w) && ValidBranches(b) && Reported(w, b) && Harmless(b)
    ensures OwnValue(w, b, v) == SearchedValue(w, b, v)
  {
    var p := FirstMatch(b.fn.kind, OrderOf(w, b.fn, b.colls[0]), v, b.ts, 0);
    var o := FirstOwn(w, b, v, 0);
    if b.fn.repr != Generic {
      forall m | 0 <= m <= o && m < |b.ts|
        ensures Holds(b.fn.kind, OrderOf(w, b.fn, b.colls[0]), v, b.ts[m]) <==> OwnHolds(w, b, v, m)
      {
        SameOrder(w, b.fn, b.colls[m], b.colls[0], v, b.ts[m]);
      }
      FirstMatchIs(b.fn.kind, OrderOf(w, b.fn, b.colls[0]), v, b.ts, o);
    } else {
      ReportedIsReportable(w, b);
      var j := FirstOther(b, 0);
      if p < |b.ts| {
        MatchIsLive(w, b, v, p);
      }
      if o < |b.ts| {
        OwnIsLive(w, b, v, o);
      }
      forall m: nat | m < j ensures OwnHolds(w, b, v, m) <==> FirstHolds(w, b, v, m) {
        assert First(b, m);
      }
      assert p < j ==> OwnHolds(w, b, v, p);
      assert o < j ==> FirstHolds(w, b, v, o);
    }
  }

  /** The first branch of another collation. */
  function FirstOther(b: Branches, from: nat): (j: nat)
    requires ValidBranches(b) && from <= |b.ts|
    ensures from <= j <= |b.ts|
    ensures forall m: nat | from <= m < j :: First(b, m)
    ensures j < |b.ts| ==> !First(b, j)
    decreases |b.ts| - from
  {
    if from == |b.ts| || !First(b, from) then from else FirstOther(b, from + 1)
  }

  // ---- The condition is needed: a world for every branch that breaks it ----

  type Score = Datum -> int

  function ByScore(kind: CmpKind, score: Score): Order {
    if kind == GT || kind == GE then (x, y) => score(y) <= score(x) else (x, y) => score(x) <= score(y)
  }

  lemma ByScoreIsTotal(kind: CmpKind, score: Score)
    ensures TotalPreorder(ByScore(kind, score))
  {
  }

  lemma HoldsByScore(kind: CmpKind, score: Score, v: Datum, t: Datum)
    requires kind != EQ ==> score(v) != score(t)
    ensures Holds(kind, ByScore(kind, score), v, t) <==>
            if kind == EQ then score(v) == score(t) else score(v) < score(t)
  {
  }

  /** Under this score, v compares as the CASE asks with x and with nothing else; for an equality
      no two thresholds are equal. */
  function OnlyScore(kind: CmpKind, ts: seq<Datum>, v: Datum, x: Datum): Score {
    if kind != EQ then a => if a == v then 1 else if a == x then 2 else 0
    else a => if a != v then IndexIn(ts, a, 0) else if x == v then -1 else IndexIn(ts, x, 0)
  }

  lemma OnlyScoreIs(kind: CmpKind, ts: seq<Datum>, v: Datum, x: Datum, k: nat)
    requires k < |ts| && v !in ts && (x == v || x in ts)
    ensures var score := OnlyScore(kind, ts, v, x);
            if kind == EQ then score(v) == score(ts[k]) <==> ts[k] == x
            else score(v) != score(ts[k]) && (score(v) < score(ts[k]) <==> ts[k] == x)
  {
    assert IndexIn(ts, ts[k], 0) <= k;
    assert x in ts ==> ts[IndexIn(ts, x, 0)] == x by {
      if x in ts {
        var m :| 0 <= m < |ts| && ts[m] == x;
        assert IndexIn(ts, x, 0) <= m;
      }
    }
  }

  function Fresh(ts: seq<Datum>): (v: Datum)
    ensures forall i | 0 <= i < |ts| :: ts[i] < v
  {
    if ts == [] then 0
    else
      var v := Fresh(ts[1..]);
      assert forall i | 0 < i < |ts| :: ts[i] == ts[1..][i - 1];
      if ts[0] < v then v else ts[0] + 1
  }

  /** The number of positions up to k that no threshold stands on both sides of. */
  function Groups(ts: seq<Datum>, k: nat): nat {
    if k == 0 then 0 else Groups(ts, k - 1) + if Uncut(ts, k) then 1 else 0
  }

  function IndexIn(ts: seq<Datum>, a: Datum, from: nat): (i: nat)
    requires from <= |ts|
    ensures from <= i <= |ts|
    ensures forall k | from <= k < i :: ts[k] != a
    ensures i < |ts| ==> ts[i] == a
    decreases |ts| - from
  {
    if from == |ts| || ts[from] == a then from else IndexIn(ts, a, from + 1)
  }

  /** Under this score the thresholds are in order, and v stands at position q between them. */
  function CutScore(ts: seq<Datum>, v: Datum, q: nat): Score {
    a => if a == v then 2 * Groups(ts, q) else 2 * Groups(ts, IndexIn(ts, a, 0)) + 1
  }

  lemma {:induction false} GroupsGrow(ts: seq<Datum>, i: nat, j: nat)
    requires i <= j
    ensures Groups(ts, i) <= Groups(ts, j)
    ensures (exists q: nat | i < q <= j :: Uncut(ts, q)) ==> Groups(ts, i) < Groups(ts, j)
    ensures j < |ts| && ts[i] == ts[j] ==> Groups(ts, i) == Groups(ts, j)
    decreases j
  {
    if i < j {
      GroupsGrow(ts, i, j - 1);
      if j < |ts| && ts[i] == ts[j] {
        SameGroup(ts, i, j, j);
      }
    }
  }

  lemma {:induction false} SameGroup(ts: seq<Datum>, i: nat, k: nat, j: nat)
    requires i <= k <= j < |ts| && ts[i] == ts[j]
    ensures Groups(ts, i) == Groups(ts, k)
  {
    if i < k {
      assert !Uncut(ts, k);
      SameGroup(ts, i, k - 1, j);
    }
  }

  /** The score of a threshold tells its side of the cut. */
  lemma CutScoreIs(ts: seq<Datum>, v: Datum, q: nat, k: nat)
    requires v !in ts && q <= |ts| && k < |ts| && Uncut(ts, q)
    ensures CutScore(ts, v, q)(ts[k]) == 2 * Groups(ts, k) + 1
    ensures CutScore(ts, v, q)(v) < CutScore(ts, v, q)(ts[k]) <==> q <= k
  {
    var i := IndexIn(ts, ts[k], 0);
    assert i <= k;
    GroupsGrow(ts, i, k);
    if q <= k {
      GroupsGrow(ts, q, k);
    } else {
      GroupsGrow(ts, k, q);
    }
  }

  /** A world that gives the first collation one order, `coll` another, and all others a third. */
  function ScoredWorld(b: Branches, first: Score, coll: nat, other: Score, rest: Score): World
    requires ValidBranches(b)
  {
    World((family, c) => ByScore(b.fn.kind, if c == b.colls[0] then first else if c == coll then other else rest),
          (x, y) => x <= y, c => false, fn => true, family => true, (repr, d) => 0, (repr, x) => 0, repr => 1)
  }

  lemma ScoredIsValid(b: Branches, first: Score, coll: nat, other: Score, rest: Score)
    requires ValidBranches(b)
    ensures ValidWorld(ScoredWorld(b, first, coll, other, rest)) && KnownLt(ScoredWorld(b, first, coll, other, rest))
  {
    var w := ScoredWorld(b, first, coll, other, rest);
    forall family, c ensures TotalPreorder(w.order(family, c)) {
      ByScoreIsTotal(b.fn.kind, if c == b.colls[0] then first else if c == coll then other else rest);
    }
  }

  /** In the first collation the thresholds from q on hold (for an equality: those equal to x),
      in `coll` the thresholds equal to y, in all others none. */
  function Witness(b: Branches, v: Datum, q: nat, x: Datum, coll: nat, y: Datum): World
    requires ValidBranches(b)
  {
    var kind := b.fn.kind;
    ScoredWorld(b, if kind == EQ then OnlyScore(kind, b.ts, v, x) else CutScore(b.ts, v, q),
                coll, OnlyScore(kind, b.ts, v, y), OnlyScore(kind, b.ts, v, v))
  }

  /** Under the cut score neighbours are in order, strictly where the comparison is strict. */
  lemma CutInOrder(b: Branches, v: Datum, q: nat, k: nat)
    requires ValidBranches(b) && b.fn.repr == Generic && b.fn.kind != EQ && Reportable(b)
    requires v !in b.ts && q <= |b.ts| && Uncut(b.ts, q) && 0 < k < |b.ts|
    ensures NeighboursOk(b.fn, ByScore(b.fn.kind, CutScore(b.ts, v, q)), b.ts[k - 1], b.ts[k])
  {
    CutScoreIs(b.ts, v, q, k - 1);
    CutScoreIs(b.ts, v, q, k);
    GroupsGrow(b.ts, k - 1, k);
    if b.fn.kind == LT || b.fn.kind == GT {
      assert Uncut(b.ts, k);
    }
  }

  /** Under the score of an equality, sorting finds no equal neighbours. */
  lemma TiesAreDistinct(b: Branches, v: Datum, x: Datum)
    requires ValidBranches(b) && b.fn.kind == EQ && Reportable(b) && v !in b.ts
    ensures var le := ByScore(EQ, OnlyScore(EQ, b.ts, v, x));
            DistinctInOrder(le, Sort(le, Zip(b.ts, b.rs)))
  {
    var le := ByScore(EQ, OnlyScore(EQ, b.ts, v, x));
    ByScoreIsTotal(EQ, OnlyScore(EQ, b.ts, v, x));
    var ps := Zip(b.ts, b.rs);
    forall i, j | 0 <= i < j < |ps| ensures !Same(le, ps[i].threshold, ps[j].threshold) {
      assert Uncut(b.ts, j);
      assert IndexIn(b.ts, b.ts[i], 0) <= i && IndexIn(b.ts, b.ts[j], 0) <= j;
      HoldsByScore(EQ, OnlyScore(EQ, b.ts, v, x), b.ts[i], b.ts[j]);
    }
    SortUnlike(le, ps);
  }

  lemma WitnessReports(b: Branches, v: Datum, q: nat, x: Datum, coll: nat, y: Datum)
    requires ValidBranches(b) && b.fn.repr == Generic && Reportable(b)
    requires v !in b.ts && q <= |b.ts| && Uncut(b.ts, q) && (x == v || x in b.ts)
    ensures Reported(Witness(b, v, q, x, coll, y), b)
  {
    var w := Witness(b, v, q, x, coll, y);
    if b.fn.kind == EQ {
      TiesAreDistinct(b, v, x);
      assert SearchOrder(w, b.fn, b.colls[0]) == ByScore(EQ, OnlyScore(EQ, b.ts, v, x));
    }
    if b.fn.kind != EQ {
      var score := CutScore(b.ts, v, q);
      assert OrderOf(w, b.fn, b.colls[0]) == ByScore(b.fn.kind, score);
      forall k | 0 < k < |b.ts| ensures NeighboursOk(b.fn, OrderOf(w, b.fn, b.colls[0]), b.ts[k - 1], b.ts[k]) {
        CutInOrder(b, v, q, k);
      }
    }
  }

  lemma WitnessFirst(b: Branches, v: Datum, q: nat, x: Datum, coll: nat, y: Datum, k: nat)
    requires ValidBranches(b) && b.fn.repr == Generic && k < |b.ts|
    requires v !in b.ts && q <= |b.ts| && Uncut(b.ts, q) && (x == v || x in b.ts)
    ensures var w := Witness(b, v, q, x, coll, y);
            FirstHolds(w, b, v, k) <==> if b.fn.kind == EQ then b.ts[k] == x else q <= k
  {
    if b.fn.kind != EQ {
      CutScoreIs(b.ts, v, q, k);
      HoldsByScore(b.fn.kind, CutScore(b.ts, v, q), v, b.ts[k]);
    } else {
      OnlyScoreIs(EQ, b.ts, v, x, k);
      HoldsByScore(EQ, OnlyScore(EQ, b.ts, v, x), v, b.ts[k]);
    }
  }

  lemma WitnessOwn(b: Branches, v: Datum, q: nat, x: Datum, coll: nat, y: Datum, k: nat)
    requires ValidBranches(b) && b.fn.repr == Generic && k < |b.ts| && !First(b, k) && v !in b.ts
    requires y == v || y in b.ts
    ensures var w := Witness(b, v, q, x, coll, y);
            OwnHolds(w, b, v, k) <==> b.colls[k] == coll && b.ts[k] == y
  {
    var x := if b.colls[k] == coll then y else v;
    OnlyScoreIs(b.fn.kind, b.ts, v, x, k);
    HoldsByScore(b.fn.kind, OnlyScore(b.fn.kind, b.ts, v, x), v, b.ts[k]);
  }

  /** In the witness the search ends at branch p and the branches at branch o. */
  lemma WitnessValues(b: Branches, v: Datum, q: nat, x: Datum, coll: nat, y: Datum, p: nat, o: nat)
    requires ValidBranches(b) && b.fn.repr == Generic && Reportable(b)
    requires v !in b.ts && q <= |b.ts| && Uncut(b.ts, q) && p <= |b.ts| && o <= |b.ts|
    requires (x == v || x in b.ts) && (y == v || y in b.ts)
    requires if b.fn.kind == EQ then p == IndexIn(b.ts, x, 0) else p == q
    requires forall m: nat | m < o :: if First(b, m) then (if b.fn.kind == EQ then b.ts[m] != x else m < q)
                                      else b.colls[m] != coll || b.ts[m] != y
    requires o < |b.ts| ==> if First(b, o) then (if b.fn.kind == EQ then b.ts[o] == x else q <= o)
                            else b.colls[o] == coll && b.ts[o] == y
    ensures var w := Witness(b, v, q, x, coll, y);
            && ValidWorld(w) && KnownLt(w) && Reported(w, b)
            && SearchedValue(w, b, v) == Pick(b.rs, p, b.default)
            && OwnValue(w, b, v) == Pick(b.rs, o, b.default)
  {
    var w := Witness(b, v, q, x, coll, y);
    WitnessReports(b, v, q, x, coll, y);
    WitnessIsValid(b, v, q, x, coll, y);
    forall m: nat | m < |b.ts|
      ensures FirstHolds(w, b, v, m) <==> if b.fn.kind == EQ then b.ts[m] == x else q <= m
      ensures !First(b, m) ==> (OwnHolds(w, b, v, m) <==> b.colls[m] == coll && b.ts[m] == y)
    {
      WitnessFirst(b, v, q, x, coll, y, m);
      if !First(b, m) {
        WitnessOwn(b, v, q, x, coll, y, m);
      }
    }
    forall m | 0 <= m <= p && m < |b.ts|
      ensures Holds(b.fn.kind, OrderOf(w, b.fn, b.colls[0]), v, b.ts[m]) <==> m == p
    {
      assert FirstHolds(w, b, v, m) <==> m == p;
    }
    FirstMatchIs(b.fn.kind, OrderOf(w, b.fn, b.colls[0]), v, b.ts, p);
    forall m: nat | m <= o && m < |b.ts| ensures OwnHolds(w, b, v, m) <==> m == o {
      assert First(b, m) ==> (OwnHolds(w, b, v, m) <==> FirstHolds(w, b, v, m));
    }
    FirstOwnIs(w, b, v, o);
  }

  lemma WitnessIsValid(b: Branches, v: Datum, q: nat, x: Datum, coll: nat, y: Datum)
    requires ValidBranches(b)
    ensures ValidWorld(Witness(b, v, q, x, coll, y)) && KnownLt(Witness(b, v, q, x, coll, y))
  {
    var kind := b.fn.kind;
    ScoredIsValid(b, if kind == EQ then OnlyScore(kind, b.ts, v, x) else CutScore(b.ts, v, q),
                  coll, OnlyScore(kind, b.ts, v, y), OnlyScore(kind, b.ts, v, v));
  }

  /** A live branch of another collation that does not yield the ELSE value. */
  lemma OtherDiffers(b: Branches, v: Datum, a: nat) returns (w: World)
    requires ValidBranches(b) && b.fn.repr == Generic && Reportable(b) && v !in b.ts
    requires a < |b.ts| && !First(b, a) && !Twin(b, a) && b.rs[a] != b.default
    ensures ValidWorld(w) && KnownLt(w) && Reported(w, b) && OwnValue(w, b, v) != SearchedValue(w, b, v)
  {
    w := Witness(b, v, |b.ts|, v, b.colls[a], b.ts[a]);
    assert IndexIn(b.ts, v, 0) == |b.ts|;
    WitnessValues(b, v, |b.ts|, v, b.colls[a], b.ts[a], |b.ts|, a);
  }

  /** An equality: branch k of the first collation, behind branch j of another. */
  lemma EqualDiffers(b: Branches, v: Datum, j: nat, k: nat) returns (w: World)
    requires ValidBranches(b) && b.fn.repr == Generic && Reportable(b) && v !in b.ts && b.fn.kind == EQ
    requires j == FirstOther(b, 0) < k < |b.ts| && First(b, k)
    requires b.rs[k] != b.default == b.rs[j]
    ensures ValidWorld(w) && KnownLt(w) && Reported(w, b) && OwnValue(w, b, v) != SearchedValue(w, b, v)
  {
    assert Uncut(b.ts, k) && IndexIn(b.ts, b.ts[k], 0) == k;
    w := Witness(b, v, 0, b.ts[k], b.colls[j], b.ts[j]);
    WitnessValues(b, v, 0, b.ts[k], b.colls[j], b.ts[j], k, j);
  }

  /** An order comparison: the search can be made to stop at position q. */
  lemma OrderDiffers(b: Branches, v: Datum, j: nat, k: nat, q: nat) returns (w: World)
    requires ValidBranches(b) && b.fn.repr == Generic && Reportable(b) && v !in b.ts && b.fn.kind != EQ
    requires j == FirstOther(b, 0) < k < |b.ts| && First(b, k)
    requires q <= k && Uncut(b.ts, q) && forall m: nat | q <= m < k :: !First(b, m)
    requires b.rs[k] != b.default == b.rs[j]
    ensures ValidWorld(w) && KnownLt(w) && Reported(w, b) && OwnValue(w, b, v) != SearchedValue(w, b, v)
  {
    if q == k {
      w := Witness(b, v, k, v, b.colls[j], b.ts[j]);
      WitnessValues(b, v, k, v, b.colls[j], b.ts[j], k, j);
    } else if b.rs[q] != b.rs[k] {
      w := Witness(b, v, q, v, b.colls[0], v);
      WitnessValues(b, v, q, v, b.colls[0], v, q, k);
    } else {
      w := OtherDiffers(b, v, q);
    }
  }

  lemma HarmfulDiffers(b: Branches) returns (w: World, v: Datum)
    requires ValidBranches(b) && !Harmless(b)
    ensures ValidWorld(w) && KnownLt(w) && Reported(w, b) && OwnValue(w, b, v) != SearchedValue(w, b, v)
  {
    var j0: nat, k: nat :| j0 <= k < |b.ts| && !First(b, j0) && Live(b, k) && b.rs[k] != b.default;
    v := Fresh(b.ts);
    var j := FirstOther(b, 0);
    assert !First(b, j0) && j <= j0;
    forall m | 0 <= m < j ensures b.colls[m] != b.colls[j] {
      assert First(b, m);
    }
    if b.rs[j] != b.default {
      w := OtherDiffers(b, v, j);
    } else if !First(b, k) {
      w := OtherDiffers(b, v, k);
    } else if b.fn.kind == EQ {
      w := EqualDiffers(b, v, j, k);
    } else {
      var q: nat :| q <= k && Uncut(b.ts, q) && forall m: nat | q <= m < k :: !First(b, m);
      w := OrderDiffers(b, v, j, k, q);
    }
  }

  /** Whatever the orders of the collations and the tested value: the search yields what the
      branches yield if and only if the chain is harmless. */
  lemma SearchExactlyWhen(b: Branches)
    requires ValidBranches(b)
    ensures (forall w: World, v: Datum | ValidWorld(w) && KnownLt(w) && Reported(w, b) ::
               OwnValue(w, b, v) == SearchedValue(w, b, v)) <==>
            Harmless(b)
  {
    if Harmless(b) {
      forall w: World, v: Datum | ValidWorld(w) && KnownLt(w) && Reported(w, b)
        ensures OwnValue(w, b, v) == SearchedValue(w, b, v) {
        HarmlessIsRight(w, b, v);
      }
    } else {
      var w, v := HarmfulDiffers(b);
    }
  }
}
