/** Comparison functions and the two binary searches that replace a CASE. */
module CaseOrder {

  /** A 64-bit word; by-reference values are addresses, compared through an abstract order. */
  type Datum = int

  datatype CmpKind = EQ | LT | LE | GT | GE

  /** Which representation a comparison function works on. */
  datatype Repr = I32 | I64 | U32 | I16 | F4 | F8 | Generic

  /** A comparison function of the classification table; `family` names its SQL type. */
  datatype Fn = Fn(kind: CmpKind, repr: Repr, family: nat)

  const TEXT := 0

  type Order = (Datum, Datum) -> bool

  /** What the server supplies: the order of each type and collation, the byte order of text,
      for which functions and collations the fast forms may be used, and the order of floats:
      the rank of a value among the `classes` that comparisons tell apart. */
  datatype World = World(order: (nat, nat) -> Order, bytes: Order, memcmp: nat -> bool,
                         direct: Fn -> bool, hasLt: nat -> bool,
                         rank: (Repr, Datum) -> int, unrank: (Repr, int) -> Datum, classes: Repr -> nat)

  ghost predicate TotalPreorder(le: Order) {
    && (forall a, b :: le(a, b) || le(b, a))
    && (forall a, b, c :: le(a, b) && le(b, c) ==> le(a, c))
  }

  predicate Same(le: Order, a: Datum, b: Datum) {
    le(a, b) && le(b, a)
  }

  ghost predicate ValidWorld(w: World) {
    && (forall family, coll :: TotalPreorder(w.order(family, coll)))
    && TotalPreorder(w.bytes)
    && (forall coll, a, b {:trigger w.memcmp(coll), w.bytes(a, b)} | w.memcmp(coll) ::
          Same(w.bytes, a, b) <==> Same(w.order(TEXT, coll), a, b))
    && (forall repr, d :: 0 <= w.rank(repr, d) < w.classes(repr))
    && (forall repr, x | 0 <= x < w.classes(repr) :: w.rank(repr, w.unrank(repr, x)) == x)
  }

  function Wrap(d: int, half: int): int
    requires half > 0
  {
    (d + half) % (2 * half) - half
  }

  /** The number an integer comparison looks at. */
  function Key(repr: Repr, d: Datum): int {
    match repr
    case I32 => Wrap(d, 0x8000_0000)
    case I64 => Wrap(d, 0x8000_0000_0000_0000)
    case U32 => d % 0x1_0000_0000
    case I16 => Wrap(d, 0x8000)
    case _ => d
  }

  lemma SmallKey(x: int)
    requires 0 <= x < 100
    ensures Key(I32, x) == x
  {
  }

  predicate IsInteger(repr: Repr) {
    repr == I32 || repr == I64 || repr == U32 || repr == I16
  }

  /** The number by which an integer or float compares. */
  function Rank(w: World, repr: Repr, d: Datum): int {
    if IsInteger(repr) then Key(repr, d) else w.rank(repr, d)
  }

  /** All ranks of a type are in [Bottom, Top). */
  function Bottom(repr: Repr): int {
    match repr
    case I16 => -0x8000
    case I32 => -0x8000_0000
    case I64 => -0x8000_0000_0000_0000
    case _ => 0
  }

  function Top(w: World, repr: Repr): int {
    match repr
    case I16 => 0x8000
    case I32 => 0x8000_0000
    case I64 => 0x8000_0000_0000_0000
    case U32 => 0x1_0000_0000
    case _ => w.classes(repr)
  }

  /** A value of a given rank. */
  function Ranked(w: World, repr: Repr, x: int): Datum {
    if IsInteger(repr) then x else w.unrank(repr, x)
  }

  lemma RankInWord(w: World, repr: Repr, d: Datum)
    requires ValidWorld(w)
    ensures Bottom(repr) <= Rank(w, repr, d) < Top(w, repr)
  {
  }

  lemma RankOfRanked(w: World, repr: Repr, x: int)
    requires ValidWorld(w) && Bottom(repr) <= x < Top(w, repr)
    ensures Rank(w, repr, Ranked(w, repr, x)) == x
  {
  }

  /** Only generic types have collations. */
  function OrderOf(w: World, fn: Fn, coll: nat): Order {
    if fn.repr == Generic then w.order(fn.family, coll)
    else (a, b) => Rank(w, fn.repr, a) <= Rank(w, fn.repr, b)
  }

  lemma OrderIsTotal(w: World, fn: Fn, coll: nat)
    requires ValidWorld(w)
    ensures TotalPreorder(OrderOf(w, fn, coll))
  {
  }

  predicate Holds(kind: CmpKind, le: Order, v: Datum, t: Datum) {
    match kind
    case EQ => le(v, t) && le(t, v)
    case LT => !le(t, v)
    case LE => le(v, t)
    case GT => !le(v, t)
    case GE => le(t, v)
  }

  /** The same relation on numbers. */
  predicate RankHolds(kind: CmpKind, x: int, t: int) {
    match kind
    case EQ => x == t
    case LT => x < t
    case LE => x <= t
    case GT => x > t
    case GE => x >= t
  }

  predicate IsLess(kind: CmpKind) {
    kind == LT || kind == LE
  }

  // ---- First match, the meaning of a chain of comparisons ----

  /** Index of the first threshold the comparison holds for, or the length. */
  function FirstMatch(kind: CmpKind, le: Order, v: Datum, ts: seq<Datum>, from: nat): (k: nat)
    requires from <= |ts|
    ensures from <= k <= |ts|
    ensures forall i | from <= i < k :: !Holds(kind, le, v, ts[i])
    ensures k < |ts| ==> Holds(kind, le, v, ts[k])
    decreases |ts| - from
  {
    if from == |ts| || Holds(kind, le, v, ts[from]) then from else FirstMatch(kind, le, v, ts, from + 1)
  }

  lemma FirstMatchIs(kind: CmpKind, le: Order, v: Datum, ts: seq<Datum>, k: nat)
    requires k <= |ts|
    requires forall i | 0 <= i < k :: !Holds(kind, le, v, ts[i])
    requires k < |ts| ==> Holds(kind, le, v, ts[k])
    ensures FirstMatch(kind, le, v, ts, 0) == k
  {
  }

  function Pick(results: seq<Datum>, k: nat, default: Datum): Datum {
    if k < |results| then results[k] else default
  }

  // ---- Monotone thresholds ----

  predicate InOrder(kind: CmpKind, le: Order, a: Datum, b: Datum) {
    if IsLess(kind) then le(a, b) else le(b, a)
  }

  predicate Monotone(kind: CmpKind, le: Order, ts: seq<Datum>) {
    forall i, j | 0 <= i < j < |ts| :: InOrder(kind, le, ts[i], ts[j])
  }

  /** Along monotone thresholds a comparison that holds goes on holding. */
  lemma HoldsStays(kind: CmpKind, le: Order, v: Datum, ts: seq<Datum>, i: nat, j: nat)
    requires kind != EQ && TotalPreorder(le) && Monotone(kind, le, ts)
    requires i <= j < |ts| && Holds(kind, le, v, ts[i])
    ensures Holds(kind, le, v, ts[j])
  {
    if i < j {
      assert InOrder(kind, le, ts[i], ts[j]);
    }
  }

  /** Neighbours in order make the whole sequence monotone. */
  lemma {:induction false} NeighboursSuffice(kind: CmpKind, le: Order, ts: seq<Datum>, i: nat, j: nat)
    requires TotalPreorder(le)
    requires forall k | 0 < k < |ts| :: InOrder(kind, le, ts[k - 1], ts[k])
    requires i < j < |ts|
    ensures InOrder(kind, le, ts[i], ts[j])
    decreases j - i
  {
    if i + 1 < j {
      NeighboursSuffice(kind, le, ts, i, j - 1);
    }
  }

  /** The binary search helper for <, <=, >, >=. */
  method SearchFirst(kind: CmpKind, le: Order, v: Datum, ts: seq<Datum>, results: seq<Datum>, default: Datum)
      returns (r: Datum)
    requires kind != EQ && TotalPreorder(le) && Monotone(kind, le, ts) && |results| == |ts|
    ensures r == Pick(results, FirstMatch(kind, le, v, ts, 0), default)
  {
    var lo, hi := 0, |ts|;
    while lo < hi
      invariant 0 <= lo <= hi <= |ts|
      invariant forall i | 0 <= i < lo :: !Holds(kind, le, v, ts[i])
      invariant hi < |ts| ==> Holds(kind, le, v, ts[hi])
    {
      var mid := lo + (hi - lo) / 2;
      if Holds(kind, le, v, ts[mid]) {
        hi := mid;
      } else {
        forall i | 0 <= i < mid + 1 ensures !Holds(kind, le, v, ts[i]) {
          if Holds(kind, le, v, ts[i]) {
            HoldsStays(kind, le, v, ts, i, mid);
          }
        }
        lo := mid + 1;
      }
    }
    FirstMatchIs(kind, le, v, ts, lo);
    return if lo < |ts| then results[lo] else default;
  }

  // ---- Equality ----

  /** Strictly ascending: sorted, with no two equal neighbours. */
  predicate Ascending(le: Order, ts: seq<Datum>) {
    forall i, j | 0 <= i < j < |ts| :: le(ts[i], ts[j]) && !le(ts[j], ts[i])
  }

  lemma Transitive(le: Order, a: Datum, b: Datum, c: Datum)
    requires TotalPreorder(le)
    ensures le(a, b) && le(b, c) ==> le(a, c)
  {
  }

  /** The binary search helper for =, on ascending thresholds. */
  method SearchEqual(le: Order, v: Datum, ts: seq<Datum>, results: seq<Datum>, default: Datum)
      returns (r: Datum, ghost k: nat)
    requires TotalPreorder(le) && Ascending(le, ts) && |results| == |ts|
    ensures k < |ts| ==> Same(le, v, ts[k]) && r == results[k]
    ensures k >= |ts| ==> r == default && forall i | 0 <= i < |ts| :: !Same(le, v, ts[i])
  {
    var lo, hi := 0, |ts| - 1;
    while lo <= hi
      invariant 0 <= lo <= hi + 1 <= |ts|
      invariant forall i | 0 <= i < lo :: !le(v, ts[i])
      invariant forall i | hi < i < |ts| :: !le(ts[i], v)
    {
      var mid := lo + (hi - lo) / 2;
      if le(v, ts[mid]) && le(ts[mid], v) {
        return results[mid], mid;
      } else if !le(v, ts[mid]) {
        forall i | 0 <= i < mid ensures !le(v, ts[i]) {
          assert le(ts[i], ts[mid]);
          Transitive(le, v, ts[i], ts[mid]);
        }
        lo := mid + 1;
      } else {
        forall i | mid < i < |ts| ensures !le(ts[i], v) {
          assert le(ts[mid], ts[i]) && !le(ts[i], ts[mid]);
          Transitive(le, ts[i], v, ts[mid]);
        }
        hi := mid - 1;
      }
    }
    return default, |ts|;
  }

  // ---- Sorting (threshold, result) pairs ----

  datatype Pair = Pair(threshold: Datum, result: Datum)

  predicate SortedPairs(le: Order, ps: seq<Pair>) {
    forall i, j | 0 <= i < j < |ps| :: le(ps[i].threshold, ps[j].threshold)
  }

  function Insert(le: Order, p: Pair, ps: seq<Pair>): seq<Pair> {
    if ps == [] then [p]
    else if le(p.threshold, ps[0].threshold) then [p] + ps
    else [ps[0]] + Insert(le, p, ps[1..])
  }

  /** The library sort, as far as its result matters: sorted and a permutation. */
  function Sort(le: Order, ps: seq<Pair>): seq<Pair> {
    if ps == [] then [] else Insert(le, ps[0], Sort(le, ps[1..]))
  }

  lemma {:induction false} InsertKeeps(le: Order, p: Pair, ps: seq<Pair>)
    ensures multiset(Insert(le, p, ps)) == multiset{p} + multiset(ps)
    decreases |ps|
  {
    if ps != [] {
      assert ps == [ps[0]] + ps[1..];
      if !le(p.threshold, ps[0].threshold) {
        InsertKeeps(le, p, ps[1..]);
      }
    }
  }

  lemma InsertMember(le: Order, p: Pair, ps: seq<Pair>, q: Pair)
    requires q in Insert(le, p, ps)
    ensures q == p || q in ps
  {
    InsertKeeps(le, p, ps);
    assert q in multiset(Insert(le, p, ps));
  }

  lemma {:induction false} InsertSorts(le: Order, p: Pair, ps: seq<Pair>)
    requires TotalPreorder(le) && SortedPairs(le, ps)
    ensures SortedPairs(le, Insert(le, p, ps))
    decreases |ps|
  {
    if ps != [] {
      if le(p.threshold, ps[0].threshold) {
        forall j | 0 <= j < |ps| ensures le(p.threshold, ps[j].threshold) {
          Transitive(le, p.threshold, ps[0].threshold, ps[j].threshold);
        }
      } else {
        var rest := Insert(le, p, ps[1..]);
        InsertSorts(le, p, ps[1..]);
        forall j | 0 <= j < |rest| ensures le(ps[0].threshold, rest[j].threshold) {
          InsertMember(le, p, ps[1..], rest[j]);
        }
      }
    }
  }

  lemma {:induction false} SortSorts(le: Order, ps: seq<Pair>)
    requires TotalPreorder(le)
    ensures SortedPairs(le, Sort(le, ps)) && multiset(Sort(le, ps)) == multiset(ps)
    decreases |ps|
  {
    if ps != [] {
      assert ps == [ps[0]] + ps[1..];
      SortSorts(le, ps[1..]);
      InsertKeeps(le, ps[0], Sort(le, ps[1..]));
      InsertSorts(le, ps[0], Sort(le, ps[1..]));
    }
  }

  /** No two pairs have equal thresholds. */
  predicate Unlike(le: Order, ps: seq<Pair>) {
    forall i, j | 0 <= i < j < |ps| :: !Same(le, ps[i].threshold, ps[j].threshold)
  }

  predicate UnlikeAll(le: Order, p: Pair, ps: seq<Pair>) {
    forall q | q in ps :: !Same(le, p.threshold, q.threshold)
  }

  lemma ConsUnlike(le: Order, p: Pair, ps: seq<Pair>)
    ensures Unlike(le, [p] + ps) <==> Unlike(le, ps) && UnlikeAll(le, p, ps)
  {
    var all := [p] + ps;
    assert forall k | 0 <= k < |ps| :: all[k + 1] == ps[k];
    if Unlike(le, all) {
      forall i, j | 0 <= i < j < |ps| ensures !Same(le, ps[i].threshold, ps[j].threshold) {
        assert !Same(le, all[i + 1].threshold, all[j + 1].threshold);
      }
      forall q | q in ps ensures !Same(le, p.threshold, q.threshold) {
        var k :| 0 <= k < |ps| && ps[k] == q;
        assert !Same(le, all[0].threshold, all[k + 1].threshold);
      }
    }
  }

  lemma UnlikeFirst(le: Order, p: Pair, ps: seq<Pair>)
    requires ps != []
    ensures Unlike(le, ps) <==> Unlike(le, ps[1..]) && UnlikeAll(le, ps[0], ps[1..])
    ensures UnlikeAll(le, p, ps) <==> !Same(le, p.threshold, ps[0].threshold) && UnlikeAll(le, p, ps[1..])
  {
    assert ps == [ps[0]] + ps[1..];
    ConsUnlike(le, ps[0], ps[1..]);
  }

  lemma UnlikeMembers(le: Order, p: Pair, ps: seq<Pair>, ps': seq<Pair>)
    requires multiset(ps) == multiset(ps')
    ensures UnlikeAll(le, p, ps) <==> UnlikeAll(le, p, ps')
  {
    assert forall q :: q in multiset(ps) <==> q in ps;
    assert forall q :: q in multiset(ps') <==> q in ps';
  }

  lemma {:induction false} InsertUnlike(le: Order, p: Pair, ps: seq<Pair>)
    ensures Unlike(le, Insert(le, p, ps)) <==> Unlike(le, ps) && UnlikeAll(le, p, ps)
    decreases |ps|
  {
    if ps == [] || le(p.threshold, ps[0].threshold) {
      assert Insert(le, p, ps) == [p] + ps;
      ConsUnlike(le, p, ps);
    } else {
      var rest := Insert(le, p, ps[1..]);
      InsertUnlike(le, p, ps[1..]);
      ConsUnlike(le, ps[0], rest);
      UnlikeFirst(le, p, ps);
      InsertKeeps(le, p, ps[1..]);
      UnlikeMembers(le, ps[0], rest, [p] + ps[1..]);
    }
  }

  /** Sorting neither makes thresholds alike nor hides that they are. */
  lemma {:induction false} SortUnlike(le: Order, ps: seq<Pair>)
    requires TotalPreorder(le)
    ensures Unlike(le, Sort(le, ps)) <==> Unlike(le, ps)
    decreases |ps|
  {
    if ps != [] {
      SortUnlike(le, ps[1..]);
      InsertUnlike(le, ps[0], Sort(le, ps[1..]));
      UnlikeFirst(le, ps[0], ps);
      SortSorts(le, ps[1..]);
      UnlikeMembers(le, ps[0], Sort(le, ps[1..]), ps[1..]);
    }
  }

  function Zip(ts: seq<Datum>, rs: seq<Datum>): (ps: seq<Pair>)
    requires |ts| == |rs|
    ensures |ps| == |ts| && forall i | 0 <= i < |ts| :: ps[i] == Pair(ts[i], rs[i])
  {
    seq(|ts|, i requires 0 <= i < |ts| => Pair(ts[i], rs[i]))
  }

  function Thresholds(ps: seq<Pair>): (ts: seq<Datum>)
    ensures |ts| == |ps| && forall i | 0 <= i < |ps| :: ts[i] == ps[i].threshold
  {
    seq(|ps|, i requires 0 <= i < |ps| => ps[i].threshold)
  }

  function Results(ps: seq<Pair>): (rs: seq<Datum>)
    ensures |rs| == |ps| && forall i | 0 <= i < |ps| :: rs[i] == ps[i].result
  {
    seq(|ps|, i requires 0 <= i < |ps| => ps[i].result)
  }

  /** No two neighbours of a sorted list are equal: then it is strictly ascending. */
  lemma DistinctNeighbours(le: Order, ps: seq<Pair>)
    requires TotalPreorder(le) && SortedPairs(le, ps)
    requires forall k | 0 < k < |ps| :: !Same(le, ps[k - 1].threshold, ps[k].threshold)
    ensures Ascending(le, Thresholds(ps))
  {
    var ts := Thresholds(ps);
    forall i, j | 0 <= i < j < |ts| ensures le(ts[i], ts[j]) && !le(ts[j], ts[i]) {
      assert le(ps[i].threshold, ps[j].threshold);
      assert i + 1 <= j ==> !Same(le, ps[i].threshold, ps[i + 1].threshold);
      assert le(ps[i].threshold, ps[i + 1].threshold);
      if i + 1 < j {
        assert le(ps[i + 1].threshold, ps[j].threshold);
      }
      Transitive(le, ps[i + 1].threshold, ps[j].threshold, ps[i].threshold);
    }
  }

  lemma PairInSorted(le: Order, ps: seq<Pair>, sorted: seq<Pair>, i: nat) returns (m: nat)
    requires multiset(sorted) == multiset(ps) && i < |ps|
    ensures m < |sorted| && sorted[m] == ps[i]
  {
    assert ps[i] in multiset(ps);
    assert ps[i] in sorted;
    m :| 0 <= m < |sorted| && sorted[m] == ps[i];
  }

  /** Searching the sorted pairs gives the result of the first match in source order. */
  lemma SortedSearchIsFirstMatch(le: Order, v: Datum, ts: seq<Datum>, rs: seq<Datum>, sorted: seq<Pair>, default: Datum)
    requires TotalPreorder(le) && |ts| == |rs|
    requires multiset(sorted) == multiset(Zip(ts, rs)) && Ascending(le, Thresholds(sorted))
    ensures forall m | 0 <= m < |sorted| && Same(le, v, sorted[m].threshold) ::
              sorted[m].result == Pick(rs, FirstMatch(EQ, le, v, ts, 0), default)
    ensures (forall m | 0 <= m < |sorted| :: !Same(le, v, sorted[m].threshold)) ==>
              Pick(rs, FirstMatch(EQ, le, v, ts, 0), default) == default
  {
    var k := FirstMatch(EQ, le, v, ts, 0);
    if k < |ts| {
      var mk := PairInSorted(le, Zip(ts, rs), sorted, k);
      assert Same(le, v, sorted[mk].threshold);
    }
    forall m | 0 <= m < |sorted| && Same(le, v, sorted[m].threshold)
      ensures sorted[m].result == Pick(rs, k, default)
    {
      var i := PairInSorted(le, sorted, Zip(ts, rs), m);
      assert Holds(EQ, le, v, ts[i]);
      assert k <= i;
      var mk := PairInSorted(le, Zip(ts, rs), sorted, k);
      var st := Thresholds(sorted);
      Transitive(le, st[m], v, st[mk]);
      Transitive(le, st[mk], v, st[m]);
      assert m == mk;
    }
  }
}
