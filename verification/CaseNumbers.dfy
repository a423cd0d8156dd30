/** What number an integer word stands for, and what the comparisons then mean. */
module CaseNumbers {
  import opened CaseOrder

  /** The numbers of an integer type. */
  predicate OfType(repr: Repr, x: int) {
    match repr
    case I16 => -32768 <= x <= 32767
    case I32 => -2147483648 <= x <= 2147483647
    case I64 => -9223372036854775808 <= x <= 9223372036854775807
    case U32 => 0 <= x <= 4294967295
    case _ => false
  }

  /** How many words the type has. */
  function Words(repr: Repr): nat {
    match repr
    case I16 => 65536
    case I32 => 4294967296
    case U32 => 4294967296
    case _ => 18446744073709551616
  }

  /** The datum d holds the number x: they differ by a multiple of the number of words. */
  predicate Stands(repr: Repr, d: Datum, x: int, m: int) {
    OfType(repr, x) && d == x + m * Words(repr)
  }

  lemma Key16(x: int, m: int)
    requires OfType(I16, x)
    ensures Key(I16, x + m * 65536) == x
  {
    assert (x + 32768 + m * 65536) % 65536 == x + 32768;
  }

  lemma Key32(x: int, m: int)
    requires OfType(I32, x)
    ensures Key(I32, x + m * 4294967296) == x
  {
    assert (x + 2147483648 + m * 4294967296) % 4294967296 == x + 2147483648;
  }

  lemma Key64(x: int, m: int)
    requires OfType(I64, x)
    ensures Key(I64, x + m * 18446744073709551616) == x
  {
    assert (x + 9223372036854775808 + m * 18446744073709551616) % 18446744073709551616 == x + 9223372036854775808;
  }

  lemma KeyUnsigned(x: int, m: int)
    requires OfType(U32, x)
    ensures Key(U32, x + m * 4294967296) == x
  {
  }

  /** A datum is read as the number it holds, whatever its upper bits are. */
  lemma KeyIsNumber(repr: Repr, d: Datum, x: int, m: int)
    requires Stands(repr, d, x, m)
    ensures Key(repr, d) == x
  {
    match repr
    case I16 => Key16(x, m);
    case I32 => Key32(x, m);
    case I64 => Key64(x, m);
    case U32 => KeyUnsigned(x, m);
  }

  /** Every datum holds a number. */
  lemma SomeNumber(repr: Repr, d: Datum) returns (x: int, m: int)
    requires repr == I16 || repr == I32 || repr == I64 || repr == U32
    ensures Stands(repr, d, x, m)
  {
    x := Key(repr, d);
    match repr
    case I16 => m := (d + 32768) / 65536;
    case I32 => m := (d + 2147483648) / 4294967296;
    case I64 => m := (d + 9223372036854775808) / 18446744073709551616;
    case U32 => m := d / 4294967296;
  }

  /** On integers a comparison function compares the numbers. */
  lemma HoldsIsOrder(w: World, fn: Fn, coll: nat, d: Datum, x: int, m: int, e: Datum, t: int, n: int)
    requires Stands(fn.repr, d, x, m) && Stands(fn.repr, e, t, n)
    ensures Holds(fn.kind, OrderOf(w, fn, coll), d, e) <==> RankHolds(fn.kind, x, t)
    ensures Holds(fn.kind, OrderOf(w, fn, coll), d, e) <==>
            match fn.kind case EQ => x == t case LT => x < t case LE => x <= t case GT => x > t case GE => x >= t
  {
    KeyIsNumber(fn.repr, d, x, m);
    KeyIsNumber(fn.repr, e, t, n);
  }

  /** On any total preorder. */
  lemma HoldsMeans(le: Order, v: Datum, t: Datum)
    requires TotalPreorder(le)
    ensures Holds(EQ, le, v, t) <==> le(v, t) && le(t, v)
    ensures Holds(LT, le, v, t) <==> le(v, t) && !le(t, v)
    ensures Holds(LE, le, v, t) <==> le(v, t)
    ensures Holds(GT, le, v, t) <==> le(t, v) && !le(v, t)
    ensures Holds(GE, le, v, t) <==> le(t, v)
  {
  }

  /** The first threshold for which the numbers compare: what a CASE over integers means. */
  lemma FirstMatchIsNumeric(w: World, fn: Fn, coll: nat, x: int, ts: seq<int>, k: nat)
    requires OfType(fn.repr, x) && (forall i | 0 <= i < |ts| :: OfType(fn.repr, ts[i])) && k <= |ts|
    ensures FirstMatch(fn.kind, OrderOf(w, fn, coll), x, ts, 0) == k <==>
            (forall i | 0 <= i < k :: !RankHolds(fn.kind, x, ts[i])) && (k < |ts| ==> RankHolds(fn.kind, x, ts[k]))
  {
    var le := OrderOf(w, fn, coll);
    forall i | 0 <= i < |ts| ensures Holds(fn.kind, le, x, ts[i]) <==> RankHolds(fn.kind, x, ts[i]) {
      HoldsIsOrder(w, fn, coll, x, x, 0, ts[i], ts[i], 0);
    }
    var f := FirstMatch(fn.kind, le, x, ts, 0);
    if (forall i | 0 <= i < k :: !RankHolds(fn.kind, x, ts[i])) && (k < |ts| ==> RankHolds(fn.kind, x, ts[k])) {
      FirstMatchIs(fn.kind, le, x, ts, k);
    }
  }

  /** 'x < 10', 'x < 20', 'x < 30', 'x < 40' over int8: -5 takes the first branch. */
  lemma NegativeExample(w: World)
    ensures FirstMatch(LT, OrderOf(w, Fn(LT, I64, 0), 0), -5, [10, 20, 30, 40], 0) == 0
  {
    FirstMatchIsNumeric(w, Fn(LT, I64, 0), 0, -5, [10, 20, 30, 40], 0);
  }
}
