/** value op ANY/ALL (array): the element loop of pg_jitter_scalararrayop_loop. */
module ScalarArray {
  import opened Wrappers

  type Datum = int

  datatype Tri = True | False | Unknown

  /** Items without a value have a clear bit and take no room in the data. */
  datatype Array = Array(nitems: int, bitmap: Option<seq<bv8>>, data: seq<Datum>)

  /** An operator on a value and an element, either of which may be null. */
  datatype Operator = Operator(strict: bool, apply: (Option<Datum>, Option<Datum>) -> Tri)

  function Mask(bit: nat): bv16
    requires bit < 8
  {
    match bit
    case 0 => 0x01 case 1 => 0x02 case 2 => 0x04 case 3 => 0x08
    case 4 => 0x10 case 5 => 0x20 case 6 => 0x40 case _ => 0x80
  }

  predicate IsNull(a: Array, i: nat) {
    a.bitmap.Some? && i / 8 < |a.bitmap.value| && (a.bitmap.value[i / 8] as bv16) & Mask(i % 8) == 0
  }

  /** How many of the first n items have a value. */
  function Values(a: Array, n: nat): (count: nat)
    ensures count <= n
  {
    if n == 0 then 0 else Values(a, n - 1) + if IsNull(a, n - 1) then 0 else 1
  }

  predicate WellFormed(a: Array) {
    && (a.bitmap.Some? ==> a.nitems <= 8 * |a.bitmap.value|)
    && (a.nitems > 0 ==> Values(a, a.nitems) <= |a.data|)
  }

  lemma {:induction false} ValuesGrow(a: Array, i: nat, n: nat)
    requires i < n && !IsNull(a, i)
    ensures Values(a, i) < Values(a, n)
  {
    if i + 1 < n {
      ValuesGrow(a, i, n - 1);
    }
  }

  function Item(a: Array, i: nat): Option<Datum>
    requires WellFormed(a) && i < a.nitems
  {
    if IsNull(a, i) then None
    else
      ValuesGrow(a, i, a.nitems);
      Some(a.data[Values(a, i)])
  }

  // ---- What the expression means ----

  /** A strict operator is unknown on a null operand. */
  function Apply(op: Operator, x: Option<Datum>, y: Option<Datum>): Tri {
    if op.strict && (x.None? || y.None?) then Unknown else op.apply(x, y)
  }

  function Or(p: Tri, q: Tri): Tri {
    if p == True || q == True then True else if p == Unknown || q == Unknown then Unknown else False
  }

  function And(p: Tri, q: Tri): Tri {
    if p == False || q == False then False else if p == Unknown || q == Unknown then Unknown else True
  }

  /** The operator over the first n items, joined by OR (for ANY) or AND (for ALL). */
  function Joined(op: Operator, useOr: bool, x: Option<Datum>, a: Array, n: nat): Tri
    requires WellFormed(a) && n <= a.nitems
  {
    if n == 0 then if useOr then False else True
    else
      var rest := Joined(op, useOr, x, a, n - 1);
      var last := Apply(op, x, Item(a, n - 1));
      if useOr then Or(rest, last) else And(rest, last)
  }

  function Meaning(op: Operator, useOr: bool, x: Option<Datum>, a: Array): Tri
    requires WellFormed(a)
  {
    if a.nitems <= 0 then if useOr then False else True else Joined(op, useOr, x, a, a.nitems)
  }

  /** Once an item decides, the rest does not matter. */
  lemma {:induction false} Decided(op: Operator, useOr: bool, x: Option<Datum>, a: Array, i: nat, n: nat)
    requires WellFormed(a) && i < n <= a.nitems
    requires Apply(op, x, Item(a, i)) == if useOr then True else False
    ensures Joined(op, useOr, x, a, n) == if useOr then True else False
    decreases n
  {
    if i < n - 1 {
      Decided(op, useOr, x, a, i, n - 1);
    }
  }

  lemma {:induction false} StrictNull(op: Operator, useOr: bool, a: Array, n: nat)
    requires WellFormed(a) && 0 < n <= a.nitems && op.strict
    ensures Joined(op, useOr, None, a, n) == Unknown
  {
    if n > 1 {
      StrictNull(op, useOr, a, n - 1);
    }
  }

  // ---- The fast path for int4 and int8 equality ----

  ghost predicate Equality(op: Operator, key: Datum -> int) {
    op.strict && forall x, y :: EqualityAt(op, key, x, y)
  }

  predicate EqualityAt(op: Operator, key: Datum -> int, x: Datum, y: Datum) {
    op.apply(Some(x), Some(y)) == if key(x) == key(y) then True else False
  }

  lemma {:induction false} NoNulls(a: Array, n: nat)
    requires a.bitmap.None?
    ensures Values(a, n) == n
  {
    if n > 0 {
      NoNulls(a, n - 1);
    }
  }

  /** simd_int4_array_eq and simd_int8_array_eq on the packed items. */
  method ArrayEq(x: Datum, data: seq<Datum>, nitems: nat, key: Datum -> int) returns (found: bool)
    requires nitems <= |data|
    ensures found <==> Occurs(data, key, x, nitems)
  {
    var i := 0;
    while i < nitems
      invariant 0 <= i <= nitems
      invariant forall k | 0 <= k < i :: key(data[k]) != key(x)
    {
      if key(data[i]) == key(x) {
        return true;
      }
      i := i + 1;
    }
    return false;
  }

  /** Some of the first n items equals x. */
  predicate Occurs(data: seq<Datum>, key: Datum -> int, x: Datum, n: nat)
    requires n <= |data|
  {
    exists i :: 0 <= i < n && key(data[i]) == key(x)
  }

  lemma {:induction false} EqualityMeans(op: Operator, key: Datum -> int, x: Datum, a: Array, n: nat)
    requires WellFormed(a) && a.bitmap.None? && Equality(op, key) && n <= a.nitems <= |a.data|
    ensures Joined(op, true, Some(x), a, n) == if Occurs(a.data, key, x, n) then True else False
  {
    if n > 0 {
      EqualityMeans(op, key, x, a, n - 1);
      NoNulls(a, n - 1);
      assert Item(a, n - 1) == Some(a.data[n - 1]);
      assert EqualityAt(op, key, x, a.data[n - 1]);
    }
  }

  // ---- The loop ----

  class Cell {
    var value: bool
    var isnull: bool

    function Answer(): Tri
      reads this
    {
      if isnull then Unknown else if value then True else False
    }
  }

  /** The bitmap cursor is at item i. */
  predicate CursorAt(a: Array, i: nat, byte: nat, bitmask: bv16) {
    a.bitmap.Some? ==> byte == i / 8 && bitmask == Mask(i % 8)
  }

  /** The element at both cursors, and the data cursor behind it. */
  method Fetch(a: Array, s: nat, byte: nat, bitmask: bv16, i: nat) returns (elt: Option<Datum>, s': nat)
    requires WellFormed(a) && i < a.nitems && s == Values(a, i) && CursorAt(a, i, byte, bitmask)
    ensures elt == Item(a, i) && s' == Values(a, i + 1)
  {
    if a.bitmap.Some? && (a.bitmap.value[byte] as bv16) & bitmask == 0 {
      return None, s;
    }
    ValuesGrow(a, i, a.nitems);
    return Some(a.data[s]), s + 1;
  }

  method Advance(a: Array, byte: nat, bitmask: bv16, i: nat) returns (byte': nat, bitmask': bv16)
    requires CursorAt(a, i, byte, bitmask)
    ensures CursorAt(a, i + 1, byte', bitmask')
  {
    byte', bitmask' := byte, bitmask;
    if a.bitmap.Some? {
      bitmask' := bitmask << 1;
      if bitmask' == 0x100 {
        byte', bitmask' := byte + 1, 1;
      }
    }
  }

  /** One cursor over the bitmap, one over the packed items. */
  method Loop(op: Operator, useOr: bool, x: Option<Datum>, a: Array) returns (result: bool, resultnull: bool)
    requires WellFormed(a) && a.nitems > 0
    ensures Joined(op, useOr, x, a, a.nitems) == if resultnull then Unknown else if result then True else False
  {
    result, resultnull := !useOr, false;
    var s, byte := 0, 0;
    var bitmask: bv16 := 1;
    var i: nat := 0;
    while i < a.nitems
      invariant i <= a.nitems && s == Values(a, i) && CursorAt(a, i, byte, bitmask)
      invariant result == !useOr
      invariant Joined(op, useOr, x, a, i) == if resultnull then Unknown else if useOr then False else True
    {
      var elt;
      elt, s := Fetch(a, s, byte, bitmask, i);
      var outcome := Apply(op, x, elt);
      if outcome == Unknown {
        resultnull := true;
      } else if outcome == if useOr then True else False {
        Decided(op, useOr, x, a, i, a.nitems);
        return useOr, false;
      }
      byte, bitmask := Advance(a, byte, bitmask, i);
      i := i + 1;
    }
  }

  /** pg_jitter_scalararrayop_loop.  `equality` is the key of int4eq or int8eq where the operator
      and the element width are those of the fast path. */
  method ScalarArrayOp(op: Operator, useOr: bool, x: Option<Datum>, a: Array,
                       equality: Option<Datum -> int>, cell: Cell)
    requires WellFormed(a)
    requires equality.Some? ==> Equality(op, equality.value)
    modifies cell
    ensures cell.Answer() == Meaning(op, useOr, x, a)
  {
    if a.nitems <= 0 {
      cell.value, cell.isnull := !useOr, false;
      return;
    }
    if x.None? && op.strict {
      StrictNull(op, useOr, a, a.nitems);
      cell.isnull := true;
      return;
    }
    if a.bitmap.None? && useOr && equality.Some? {
      NoNulls(a, a.nitems);
      var found := ArrayEq(x.value, a.data, a.nitems, equality.value);
      EqualityMeans(op, equality.value, x.value, a, a.nitems);
      cell.value, cell.isnull := found, false;
      return;
    }
    var result, resultnull := Loop(op, useOr, x, a);
    cell.value, cell.isnull := result, resultnull;
  }
}
