/** Indexes over a constant IN-list: the int4 hash table and the sorted array. */
module InList {
  import opened InListProbing
  import opened Wrappers

  datatype Int4Slot = Int4Slot(value: int, occupied: bool)

  function Held(s: Int4Slot): Option<int> {
    if s.occupied then Some(s.value) else None
  }

  /** crc32_hash_build_int4 and crc32_hash_probe_int4, for any hash function. */
  class Int4Table {
    const slots: array<Int4Slot>

    constructor (size: nat)
      ensures fresh(slots) && slots.Length == size
      ensures forall i | 0 <= i < size :: !slots[i].occupied
    {
      slots := new Int4Slot[size](i => Int4Slot(0, false));
    }

    /** The slots as the probing lemmas see them. */
    ghost predicate Shows(view: View<int>)
      reads slots
    {
      |view| == slots.Length && forall i | 0 <= i < |view| :: view[i] == Held(slots[i])
    }

    ghost predicate Indexes(hash: int -> nat, keys: seq<int>, n: nat)
      requires n <= |keys|
      reads slots
    {
      2 * |keys| <= slots.Length && exists view :: Shows(view) && Contains(view, hash, keys, n)
    }

    method FindEmpty(key: int, hash: int -> nat, ghost view: View<int>) returns (h: nat, ghost d: nat)
      requires Shows(view) && Taken(view, |view|) < |view|
      ensures d < |view| && h == At(Home(hash, key, |view|), d, |view|)
      ensures Path(view, Home(hash, key, |view|), d) && !HeldAt(view, Home(hash, key, |view|), d)
    {
      ghost var empty := EmptySlot(view, |view|);
      h, d := Home(hash, key, slots.Length), 0;
      ghost var home := h;
      while slots[h].occupied
        invariant d <= Distance(home, empty, |view|)
        invariant h == At(home, d, |view|) && Path(view, home, d)
        decreases |view| - d
      {
        StepOn(view, home, empty, d);
        h, d := (h + 1) % slots.Length, d + 1;
      }
    }

    method Insert(hash: int -> nat, ghost keys: seq<int>, ghost n: nat, key: int)
      requires n < |keys| && keys[n] == key && Indexes(hash, keys, n)
      modifies slots
      ensures Indexes(hash, keys, n + 1)
    {
      ghost var view :| Shows(view) && Contains(view, hash, keys, n);
      var h;
      ghost var d;
      h, d := FindEmpty(key, hash, view);
      InsertNext(view, hash, keys, n, d);
      slots[h] := Int4Slot(key, true);
      assert Shows(view[h := Some(key)]);
    }

    /** 1 exactly for the listed values; the probe ends because a slot is empty. */
    method Probe(key: int, hash: int -> nat, ghost keys: seq<int>) returns (r: int)
      requires Indexes(hash, keys, |keys|) && keys != []
      ensures r == if key in keys then 1 else 0
    {
      ghost var view :| Shows(view) && Contains(view, hash, keys, |keys|);
      assert keys[..|keys|] == keys;
      assert Holds(view, key) <==> key in keys;
      r := Scan(key, hash, view);
    }

    method Scan(key: int, hash: int -> nat, ghost view: View<int>) returns (r: int)
      requires Shows(view) && Taken(view, |view|) < |view| && Reachable(view, hash)
      ensures r == if Holds(view, key) then 1 else 0
    {
      ghost var empty := EmptySlot(view, |view|);
      var h := Home(hash, key, slots.Length);
      ghost var home, d := h, 0;
      while true
        invariant d <= Distance(home, empty, |view|)
        invariant h == At(home, d, |view|) && Misses(view, home, key, d)
        decreases |view| - d
      {
        if !slots[h].occupied {
          ProbeEndsAtEmpty(view, hash, key, d);
          return 0;
        }
        if slots[h].value == key {
          assert HoldsAt(view, key, h);
          return 1;
        }
        StepOn(view, home, empty, d);
        h, d := (h + 1) % slots.Length, d + 1;
      }
    }
  }

  method BuildInt4(vals: seq<int>, hash: int -> nat, maxSlots: nat) returns (r: Option<Int4Table>)
    ensures r.Some? <==> 0 < |vals| <= INT_MAX / 2 && Doubled(FIRST_SIZE, 2 * |vals|) <= maxSlots &&
                         Doubled(FIRST_SIZE, 2 * |vals|) <= INT_MAX
    ensures r.Some? ==> r.value.Indexes(hash, vals, |vals|)
  {
    var size := TableSize(|vals|, maxSlots);
    if size.None? {
      return None;
    }
    var table := new Int4Table(size.value);
    ghost var view := seq(size.value, i => None);
    assert table.Shows(view);
    NothingHeld(view, hash, vals);
    var i := 0;
    while i < |vals|
      invariant 0 <= i <= |vals|
      invariant table.Indexes(hash, vals, i)
    {
      table.Insert(hash, vals, i, vals[i]);
      i := i + 1;
    }
    return Some(table);
  }

  // ---- The sorted array ----

  predicate Ascending(vals: seq<int>) {
    forall i, j | 0 <= i < j < |vals| :: vals[i] <= vals[j]
  }

  /** sorted_array_probe_int4: halve a window without looking for equality, then look once. */
  method ProbeSorted(vals: seq<int>, val: int) returns (r: int)
    requires Ascending(vals)
    ensures r == if val in vals then 1 else 0
  {
    var base, n := 0, |vals|;
    while n > 1
      invariant 0 <= base && 0 <= n && base + n <= |vals| && (|vals| > 0 ==> n > 0)
      invariant forall k | 0 <= k < base :: vals[k] < val
      invariant base + n < |vals| ==> n > 0 && val <= vals[base + n - 1]
    {
      var half := n / 2;
      if vals[base + half - 1] < val {
        base := base + half;
      }
      n := n - half;
    }
    if val in vals {
      var k :| 0 <= k < |vals| && vals[k] == val;
      assert k > base ==> vals[base] <= val;
    }
    return if n > 0 && vals[base] == val then 1 else 0;
  }

  /** Both indexes of a list give the same answer. */
  method ProbeBoth(table: Int4Table, hash: int -> nat, list: seq<int>, sorted: seq<int>, val: int) returns (same: bool)
    requires list != [] && table.Indexes(hash, list, |list|)
    requires Ascending(sorted) && multiset(sorted) == multiset(list)
    ensures same
  {
    var a := table.Probe(val, hash, list);
    var b := ProbeSorted(sorted, val);
    assert val in multiset(sorted) <==> val in multiset(list);
    return a == b;
  }
}
