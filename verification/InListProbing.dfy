/** Linear probing in a table of slots, as both hash tables of the IN-list code do it. */
module InListProbing {
  import opened Wrappers

  /** What each slot holds. */
  type View<K> = seq<Option<K>>

  /** The slot d steps after `home`, round the end of a table of m slots. */
  function At(home: nat, d: nat, m: nat): (i: nat)
    requires home < m && d < m
    ensures i < m
  {
    if home + d < m then home + d else home + d - m
  }

  /** How many steps lead from `home` to slot i. */
  function Distance(home: nat, i: nat, m: nat): (d: nat)
    requires home < m && i < m
    ensures d < m && At(home, d, m) == i
  {
    if i >= home then i - home else i + m - home
  }

  /** hash & mask, for a table whose size is a power of two. */
  function Home<K>(hash: K -> nat, key: K, m: nat): (h: nat)
    requires m > 0
    ensures h < m
  {
    hash(key) % m
  }

  predicate HeldAt<K>(view: View<K>, home: nat, d: nat)
    requires home < |view|
  {
    d < |view| && view[At(home, d, |view|)].Some?
  }

  /** All slots in front of step d are taken. */
  predicate Path<K>(view: View<K>, home: nat, d: nat)
    requires home < |view|
  {
    forall e: nat | e < d :: HeldAt(view, home, e)
  }

  /** No key is behind an empty slot: the way from its home to its place is taken. */
  ghost predicate Reachable<K(!new)>(view: View<K>, hash: K -> nat) {
    forall i | 0 <= i < |view| && view[i].Some? :: PathTo(view, hash, i)
  }

  ghost predicate PathTo<K(!new)>(view: View<K>, hash: K -> nat, i: nat)
    requires i < |view| && view[i].Some?
  {
    var h := Home(hash, view[i].value, |view|);
    Path(view, h, Distance(h, i, |view|))
  }

  function Taken<K>(view: View<K>, n: nat): (count: nat)
    requires n <= |view|
    ensures count <= n
  {
    if n == 0 then 0 else Taken(view, n - 1) + if view[n - 1].Some? then 1 else 0
  }

  lemma {:induction false} EmptySlot<K>(view: View<K>, n: nat) returns (i: nat)
    requires n <= |view| && Taken(view, n) < n
    ensures i < n && view[i].None?
  {
    if view[n - 1].None? {
      i := n - 1;
    } else {
      i := EmptySlot(view, n - 1);
    }
  }

  lemma {:induction false} TakeSlot<K>(view: View<K>, i: nat, key: K, n: nat)
    requires i < |view| && view[i].None? && n <= |view|
    ensures Taken(view[i := Some(key)], n) == Taken(view, n) + if i < n then 1 else 0
  {
    if n > 0 {
      TakeSlot(view, i, key, n - 1);
    }
  }

  /** Filling an empty slot at the end of a key's path keeps every key reachable. */
  lemma InsertKeepsReachable<K(!new)>(view: View<K>, hash: K -> nat, key: K, d: nat)
    requires Reachable(view, hash) && d < |view|
    requires Path(view, Home(hash, key, |view|), d) && !HeldAt(view, Home(hash, key, |view|), d)
    ensures Reachable(view[At(Home(hash, key, |view|), d, |view|) := Some(key)], hash)
  {
    var at := At(Home(hash, key, |view|), d, |view|);
    var view' := view[at := Some(key)];
    forall i | 0 <= i < |view'| && view'[i].Some? ensures PathTo(view', hash, i) {
      var h := Home(hash, view'[i].value, |view|);
      if i == at {
        assert Distance(h, i, |view|) == d;
      } else {
        assert PathTo(view, hash, i);
      }
      forall e: nat | e < Distance(h, i, |view|) ensures HeldAt(view', h, e) {
        assert HeldAt(view, h, e);
      }
    }
  }

  /** A taken slot is in front of the empty one, and the next slot is one step further on. */
  lemma StepOn<K>(view: View<K>, home: nat, empty: nat, d: nat)
    requires home < |view| && empty < |view| && view[empty].None?
    requires d <= Distance(home, empty, |view|) && HeldAt(view, home, d)
    ensures d < Distance(home, empty, |view|)
    ensures At(home, d + 1, |view|) == (At(home, d, |view|) + 1) % |view|
  {
  }

  /** A key is in the table at slot i. */
  predicate HoldsAt<K(==)>(view: View<K>, key: K, i: nat) {
    i < |view| && view[i] == Some(key)
  }

  ghost predicate Holds<K>(view: View<K>, key: K) {
    exists i :: HoldsAt(view, key, i)
  }

  /** None of the first d slots from `home` on holds the key. */
  predicate Misses<K(==)>(view: View<K>, home: nat, key: K, d: nat)
    requires home < |view| && d <= |view|
  {
    forall e: nat | e < d :: view[At(home, e, |view|)] != Some(key)
  }

  /** Where a probe meets an empty slot, the key is not in the table. */
  lemma ProbeEndsAtEmpty<K(!new)>(view: View<K>, hash: K -> nat, key: K, d: nat)
    requires Reachable(view, hash) && d < |view|
    requires Misses(view, Home(hash, key, |view|), key, d)
    requires !HeldAt(view, Home(hash, key, |view|), d)
    ensures !Holds(view, key)
  {
  }

  /** The contents after an insertion. */
  lemma HoldsAfterInsert<K>(view: View<K>, key: K, at: nat, other: K)
    requires at < |view| && view[at].None?
    ensures Holds(view[at := Some(key)], other) <==> Holds(view, other) || other == key
  {
    var view' := view[at := Some(key)];
    assert HoldsAt(view', key, at);
    if Holds(view, other) {
      var i :| HoldsAt(view, other, i);
      assert HoldsAt(view', other, i);
    }
    if Holds(view', other) && other != key {
      var i :| HoldsAt(view', other, i);
      assert HoldsAt(view, other, i);
    }
  }

  /** The table after the first n of a list of keys: at most half full, and it holds exactly
      these keys. */
  ghost predicate Contains<K(!new)>(view: View<K>, hash: K -> nat, keys: seq<K>, n: nat)
    requires n <= |keys|
  {
    && Reachable(view, hash)
    && Taken(view, |view|) == n
    && forall key {:trigger Holds(view, key)} :: Holds(view, key) <==> key in keys[..n]
  }

  lemma InsertNext<K(!new)>(view: View<K>, hash: K -> nat, keys: seq<K>, n: nat, d: nat)
    requires n < |keys| && Contains(view, hash, keys, n)
    requires d < |view|
    requires Path(view, Home(hash, keys[n], |view|), d) && !HeldAt(view, Home(hash, keys[n], |view|), d)
    ensures Contains(view[At(Home(hash, keys[n], |view|), d, |view|) := Some(keys[n])], hash, keys, n + 1)
  {
    var at := At(Home(hash, keys[n], |view|), d, |view|);
    var view' := view[at := Some(keys[n])];
    InsertKeepsReachable(view, hash, keys[n], d);
    TakeSlot(view, at, keys[n], |view|);
    forall key ensures Holds(view', key) <==> key in keys[..n + 1] {
      HoldsAfterInsert(view, keys[n], at, key);
      assert keys[..n + 1] == keys[..n] + [keys[n]];
    }
  }

  lemma {:induction false} NothingTaken<K>(view: View<K>, n: nat)
    requires n <= |view| && forall i | 0 <= i < |view| :: view[i].None?
    ensures Taken(view, n) == 0
  {
    if n > 0 {
      NothingTaken(view, n - 1);
    }
  }

  lemma NothingHeld<K(!new)>(view: View<K>, hash: K -> nat, keys: seq<K>)
    requires forall i | 0 <= i < |view| :: view[i].None?
    ensures Contains(view, hash, keys, 0)
  {
    NothingTaken(view, |view|);
  }

  // ---- The size of a table ----

  const INT_MAX := 0x7fff_ffff
  const FIRST_SIZE := 16

  /** The first of size, 2 size, 4 size, ... that is at least `least`. */
  function Doubled(size: nat, least: nat): (r: nat)
    requires size > 0
    ensures r >= least && r >= size
    decreases least - size
  {
    if size >= least then size else Doubled(2 * size, least)
  }

  predicate IsPowerOfTwo(n: nat) {
    n == 1 || (n > 1 && n % 2 == 0 && IsPowerOfTwo(n / 2))
  }

  /** The size stays a power of two and less than four times the number of values (or 16). */
  lemma {:induction false} DoubledIsPower(size: nat, least: nat)
    requires size > 0 && IsPowerOfTwo(size)
    ensures IsPowerOfTwo(Doubled(size, least))
    ensures Doubled(size, least) == size || Doubled(size, least) < 2 * least
    decreases least - size
  {
    if size < least {
      DoubledIsPower(2 * size, least);
    }
  }

  /** The size is the least of 16, 32, 64, ... that is no less than asked for, and the largest number
      of values leaves room for doubling it. */
  lemma LeastSize(least: nat)
    ensures var size := Doubled(FIRST_SIZE, least);
            && size >= 16 && size >= least && IsPowerOfTwo(size) && (size == 16 || size < 2 * least)
    ensures 2 * (INT_MAX / 2) <= 2147483647 < 2 * (INT_MAX / 2 + 1)
  {
    assert IsPowerOfTwo(8) && IsPowerOfTwo(4);
    DoubledIsPower(FIRST_SIZE, least);
  }

  /** The slots for n values: the least power of two from 16 on that keeps the table half
      empty.  None stands for the errors: no values, too many values, too large a table. */
  method TableSize(n: int, maxSlots: nat) returns (r: Option<nat>)
    ensures r.Some? <==> 0 < n <= INT_MAX / 2 && Doubled(FIRST_SIZE, 2 * n) <= maxSlots &&
                         Doubled(FIRST_SIZE, 2 * n) <= INT_MAX
    ensures r.Some? ==> r.value == Doubled(FIRST_SIZE, 2 * n) && 2 * n <= r.value
    ensures r.Some? ==> IsPowerOfTwo(r.value) && (r.value == FIRST_SIZE || r.value < 4 * n)
  {
    if n <= 0 || n > INT_MAX / 2 {
      return None;
    }
    var least := 2 * n;
    var size := FIRST_SIZE;
    while size < least
      invariant 0 < size <= INT_MAX
      invariant Doubled(size, least) == Doubled(FIRST_SIZE, least)
      decreases least - size
    {
      if size > INT_MAX / 2 {
        assert Doubled(size, least) >= 2 * size;
        return None;
      }
      size := 2 * size;
    }
    if size > maxSlots {
      return None;
    }
    assert IsPowerOfTwo(8) && IsPowerOfTwo(4);
    DoubledIsPower(FIRST_SIZE, least);
    return Some(size);
  }
}
