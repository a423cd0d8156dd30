/** What ANY and ALL mean, element by element, and how an array lists its elements. */
module ArrayMeaning {
  import opened ScalarArray
  import opened Wrappers

  /** What the operator answers for one element: nothing is known of a null when it is strict. */
  lemma ApplyLaws(op: Operator, x: Option<Datum>, y: Option<Datum>)
    ensures op.strict && x.None? ==> Apply(op, x, y) == Unknown
    ensures op.strict && y.None? ==> Apply(op, x, y) == Unknown
    ensures !op.strict || (x.Some? && y.Some?) ==> Apply(op, x, y) == op.apply(x, y)
  {
  }

  predicate Answers(op: Operator, x: Option<Datum>, a: Array, i: nat, t: Tri)
    requires WellFormed(a) && i < a.nitems
  {
    Apply(op, x, Item(a, i)) == t
  }

  /** Some of the first n elements gives t. */
  ghost predicate SomeGives(op: Operator, x: Option<Datum>, a: Array, n: nat, t: Tri)
    requires WellFormed(a) && n <= a.nitems
  {
    exists i: nat :: i < n && Answers(op, x, a, i, t)
  }

  /** All of them do. */
  ghost predicate AllGive(op: Operator, x: Option<Datum>, a: Array, n: nat, t: Tri)
    requires WellFormed(a) && n <= a.nitems
  {
    forall i: nat :: i < n ==> Answers(op, x, a, i, t)
  }

  lemma LastElement(op: Operator, x: Option<Datum>, a: Array, n: nat, t: Tri)
    requires WellFormed(a) && 0 < n <= a.nitems
    ensures SomeGives(op, x, a, n, t) <==> SomeGives(op, x, a, n - 1, t) || Answers(op, x, a, n - 1, t)
    ensures AllGive(op, x, a, n, t) <==> AllGive(op, x, a, n - 1, t) && Answers(op, x, a, n - 1, t)
  {
    if AllGive(op, x, a, n - 1, t) && Answers(op, x, a, n - 1, t) {
      forall i: nat | i < n ensures Answers(op, x, a, i, t) {
        assert i < n - 1 ==> Answers(op, x, a, i, t);
      }
    }
  }

  lemma {:induction false} JoinedMeans(op: Operator, x: Option<Datum>, a: Array, n: nat)
    requires WellFormed(a) && n <= a.nitems
    ensures Joined(op, true, x, a, n) == True <==> SomeGives(op, x, a, n, True)
    ensures Joined(op, true, x, a, n) == False <==> AllGive(op, x, a, n, False)
    ensures Joined(op, false, x, a, n) == False <==> SomeGives(op, x, a, n, False)
    ensures Joined(op, false, x, a, n) == True <==> AllGive(op, x, a, n, True)
  {
    if n > 0 {
      JoinedMeans(op, x, a, n - 1);
      LastElement(op, x, a, n, True);
      LastElement(op, x, a, n, False);
    }
  }

  /** ANY is true exactly when some element gives true, false exactly when all give false, and else
      unknown; so it is false over no elements. */
  lemma AnyMeans(op: Operator, x: Option<Datum>, a: Array)
    requires WellFormed(a)
    ensures Meaning(op, true, x, a) == True <==> exists i: nat :: i < a.nitems && Answers(op, x, a, i, True)
    ensures Meaning(op, true, x, a) == False <==> forall i: nat :: i < a.nitems ==> Answers(op, x, a, i, False)
  {
    if a.nitems > 0 {
      JoinedMeans(op, x, a, a.nitems);
    }
  }

  /** ALL is false exactly when some element gives false, true exactly when all give true, and else
      unknown; so it is true over no elements. */
  lemma AllMeans(op: Operator, x: Option<Datum>, a: Array)
    requires WellFormed(a)
    ensures Meaning(op, false, x, a) == False <==> exists i: nat :: i < a.nitems && Answers(op, x, a, i, False)
    ensures Meaning(op, false, x, a) == True <==> forall i: nat :: i < a.nitems ==> Answers(op, x, a, i, True)
  {
    if a.nitems > 0 {
      JoinedMeans(op, x, a, a.nitems);
    }
  }

  // ---- The elements ----

  /** The values among the items, in order. */
  function Packed(items: seq<Option<Datum>>): seq<Datum> {
    if items == [] then []
    else
      var n := |items| - 1;
      Packed(items[..n]) + if items[n].Some? then [items[n].value] else []
  }

  /** The array lists the items: its data are their values, its bitmap has a 1 for each value and a
      0 for each null, from the lowest bit of the first byte on; without nulls there may be none. */
  predicate Lists(a: Array, items: seq<Option<Datum>>) {
    && a.nitems == |items| && a.data == Packed(items)
    && match a.bitmap
       case None => forall i | 0 <= i < |items| :: items[i].Some?
       case Some(bits) => |items| <= 8 * |bits| && forall i: nat | i < |items| :: BitShows(bits, items, i)
  }

  predicate BitShows(bits: seq<bv8>, items: seq<Option<Datum>>, i: nat)
    requires i < |items| <= 8 * |bits|
  {
    Bit(bits[i / 8], i % 8) == if items[i].Some? then 1 else 0
  }

  lemma BitIs(b: bv8, bit: nat)
    requires bit < 8
    ensures (b as bv16) & Mask(bit) == 0 <==> Bit(b, bit) == 0
  {
  }

  lemma NullIs(a: Array, items: seq<Option<Datum>>, i: nat)
    requires Lists(a, items) && i < |items|
    ensures IsNull(a, i) <==> items[i].None?
  {
    if a.bitmap.Some? {
      assert BitShows(a.bitmap.value, items, i);
      BitIs(a.bitmap.value[i / 8], i % 8);
    }
  }

  lemma {:induction false} ValuesArePacked(a: Array, items: seq<Option<Datum>>, n: nat)
    requires Lists(a, items) && n <= |items|
    ensures Values(a, n) == |Packed(items[..n])|
  {
    if n > 0 {
      NullIs(a, items, n - 1);
      ValuesArePacked(a, items, n - 1);
      assert items[..n][..n - 1] == items[..n - 1];
    }
  }

  lemma {:induction false} PackedGrows(items: seq<Option<Datum>>, i: nat, n: nat)
    requires i < n <= |items| && items[i].Some?
    ensures |Packed(items[..i])| < |Packed(items[..n])|
    ensures Packed(items[..n])[|Packed(items[..i])|] == items[i].value
    decreases n
  {
    assert items[..n][..n - 1] == items[..n - 1];
    if i < n - 1 {
      PackedGrows(items, i, n - 1);
    }
  }

  /** Such an array is well-formed, and its elements are the items. */
  lemma ItemsAreListed(a: Array, items: seq<Option<Datum>>)
    requires Lists(a, items)
    ensures WellFormed(a) && forall i: nat | i < |items| :: Item(a, i) == items[i]
  {
    ValuesArePacked(a, items, |items|);
    assert items[..|items|] == items;
    forall i: nat | i < |items| ensures Item(a, i) == items[i] {
      NullIs(a, items, i);
      ValuesArePacked(a, items, i);
      if items[i].Some? {
        PackedGrows(items, i, |items|);
      }
    }
  }

  /** '5 = ANY (array[]::int[])' is false, '5 = ALL (array[]::int[])' is true. */
  lemma EmptyExample(op: Operator, x: Option<Datum>)
    ensures Meaning(op, true, x, Array(0, None, [])) == False && Meaning(op, false, x, Array(0, None, [])) == True
  {
    AnyMeans(op, x, Array(0, None, []));
    AllMeans(op, x, Array(0, None, []));
  }
}
