/** Heap tuples and the reference way to take one apart: left to right, one column at a time. */
module Tuples {
  import opened Wrappers

  /** A slot value: a number passed by value, or a pointer into the tuple data. */
  datatype Datum = ByVal(v: int) | Pointer(off: nat)

  const NULL_DATUM := ByVal(0)

  type Alignment = a: nat | a == 1 || a == 2 || a == 4 || a == 8 witness 1

  /** attlen > 0 is a fixed width, -1 a varlena, -2 a C string; `missing` is the value of the
      column in tuples that were stored before the column existed. */
  datatype Column = Column(attlen: int, align: Alignment, byval: bool, notnull: bool,
                           missing: Option<Datum>, dropped: bool)

  predicate ValidColumn(c: Column) {
    && (c.attlen > 0 || c.attlen == -1 || c.attlen == -2)
    && (c.byval ==> c.attlen > 0)
  }

  predicate ValidColumns(cols: seq<Column>) {
    forall i | 0 <= i < |cols| :: ValidColumn(cols[i])
  }

  /** By-value columns have one of the four widths a register load can do. */
  predicate Compilable(c: Column) {
    c.byval ==> c.attlen == 1 || c.attlen == 2 || c.attlen == 4 || c.attlen == 8
  }

  /** A column that every tuple of the table stores. */
  predicate AlwaysStored(c: Column) {
    c.notnull && c.missing.None? && !c.dropped
  }

  /** `natts` columns are stored; bit i of the bitmap is clear when column i is null.  The
      sizes of variable-length values are read from the data at their offset. */
  datatype Tuple = Tuple(natts: nat, hasNulls: bool, bits: seq<bv8>, data: seq<bv8>,
                         varsize: nat -> nat, cstrlen: nat -> nat)

  function Mask(bit: nat): bv8
    requires bit < 8
  {
    match bit
    case 0 => 1
    case 1 => 2
    case 2 => 4
    case 3 => 8
    case 4 => 16
    case 5 => 32
    case 6 => 64
    case _ => 128
  }

  predicate BitSet(b: bv8, bit: nat)
    requires bit < 8
  {
    b & Mask(bit) != 0
  }

  predicate Present(t: Tuple, i: nat) {
    !t.hasNulls || (i / 8 < |t.bits| && BitSet(t.bits[i / 8], i % 8))
  }

  /** What the server guarantees about a stored tuple of the table. */
  predicate WellFormed(cols: seq<Column>, t: Tuple) {
    && (t.hasNulls ==> t.natts <= 8 * |t.bits|)
    && (forall i | 0 <= i < |cols| && i < t.natts && cols[i].notnull :: Present(t, i))
    && (forall i | 0 <= i < |cols| && AlwaysStored(cols[i]) :: i < t.natts)
  }

  function ByteAt(t: Tuple, off: nat): bv8 {
    if off < |t.data| then t.data[off] else 0
  }

  /** Little-endian load of `width` bytes. */
  function LoadUnsigned(t: Tuple, off: nat, width: nat): nat
    decreases width
  {
    if width == 0 then 0 else ByteAt(t, off) as nat + 256 * LoadUnsigned(t, off + 1, width - 1)
  }

  function Power256(width: nat): nat {
    if width == 0 then 1 else 256 * Power256(width - 1)
  }

  /** Sign-extending load. */
  function Load(t: Tuple, off: nat, width: nat): int {
    var u := LoadUnsigned(t, off, width);
    if 2 * u >= Power256(width) then u - Power256(width) else u
  }

  predicate Multiple(x: nat, a: Alignment) {
    x == 0 || (x >= a && Multiple(x - a, a))
  }

  /** TYPEALIGN: the next multiple of the alignment. */
  function AlignUp(off: nat, a: Alignment): (r: nat)
    ensures off <= r < off + a
  {
    if off == 0 then 0 else if off <= a then a else AlignUp(off - a, a) + a
  }

  lemma {:induction false} AlignUpIs(off: nat, a: Alignment)
    ensures Multiple(AlignUp(off, a), a)
    ensures Multiple(off, a) <==> AlignUp(off, a) == off
    decreases off
  {
    if off > a {
      AlignUpIs(off - a, a);
    }
  }

  lemma {:induction false} MultiplesAdd(x: nat, y: nat, a: Alignment)
    requires Multiple(x, a) && Multiple(y, a)
    ensures Multiple(x + y, a)
    decreases x
  {
    if x > 0 {
      MultiplesAdd(x - a, y, a);
    }
  }

  /** att_align_pointer: a varlena whose first byte is not padding stays where it is. */
  function AlignFor(t: Tuple, c: Column, off: nat): nat {
    if c.attlen == -1 && ByteAt(t, off) != 0 then off else AlignUp(off, c.align)
  }

  function Fetch(t: Tuple, c: Column, off: nat): Datum
    requires ValidColumn(c)
  {
    if c.byval then ByVal(Load(t, off, c.attlen)) else Pointer(off)
  }

  function Advance(t: Tuple, c: Column, off: nat): nat
    requires ValidColumn(c)
  {
    if c.attlen > 0 then off + c.attlen
    else if c.attlen == -1 then off + t.varsize(off)
    else off + t.cstrlen(off) + 1
  }

  // ---- The reference loop ----

  datatype Slot = Slot(values: seq<Datum>, isnull: seq<bool>, nvalid: nat, off: nat)

  predicate Room(s: Slot, natts: nat) {
    natts <= |s.values| == |s.isnull|
  }

  function StoreNull(s: Slot, i: nat): Slot
    requires i < |s.values| == |s.isnull|
  {
    s.(values := s.values[i := NULL_DATUM], isnull := s.isnull[i := true])
  }

  function DeformColumn(c: Column, t: Tuple, i: nat, s: Slot): Slot
    requires ValidColumn(c) && i < |s.values| == |s.isnull|
  {
    if !Present(t, i) then StoreNull(s, i)
    else
      var off := AlignFor(t, c, s.off);
      s.(values := s.values[i := Fetch(t, c, off)], isnull := s.isnull[i := false], off := Advance(t, c, off))
  }

  function DeformLoop(cols: seq<Column>, t: Tuple, i: nat, limit: nat, s: Slot): (r: Slot)
    requires ValidColumns(cols) && limit <= |cols| && Room(s, limit)
    ensures |r.values| == |s.values| && |r.isnull| == |s.isnull| && r.nvalid == s.nvalid
    decreases limit - i
  {
    if i >= limit then s else DeformLoop(cols, t, i + 1, limit, DeformColumn(cols[i], t, i, s))
  }

  function MissingValue(c: Column): Datum {
    if c.missing.Some? then c.missing.value else NULL_DATUM
  }

  /** slot_getmissingattrs: columns the tuple does not store. */
  function FillMissing(cols: seq<Column>, from: nat, to: nat, s: Slot): Slot
    requires to <= |cols| && Room(s, to)
  {
    s.(values := seq(|s.values|, k requires 0 <= k < |s.values| =>
                   if from <= k < to then MissingValue(cols[k]) else s.values[k]),
       isnull := seq(|s.isnull|, k requires 0 <= k < |s.isnull| =>
                   if from <= k < to then cols[k].missing.None? else s.isnull[k]))
  }

  function Min(a: nat, b: nat): nat {
    if a < b then a else b
  }

  /** Deform the first natts columns, continuing behind the columns the slot already holds. */
  function Deform(cols: seq<Column>, t: Tuple, natts: nat, s: Slot): Slot
    requires ValidColumns(cols) && natts <= |cols| && Room(s, natts)
  {
    var filled := if t.natts < natts then FillMissing(cols, t.natts, natts, s) else s;
    var start := if s.nvalid == 0 then filled.(off := 0) else filled;
    DeformLoop(cols, t, s.nvalid, Min(natts, t.natts), start).(nvalid := natts)
  }

  // ---- The loop, column by column ----

  function StepOffset(c: Column, t: Tuple, i: nat, off: nat): nat
    requires ValidColumn(c)
  {
    if Present(t, i) then Advance(t, c, AlignFor(t, c, off)) else off
  }

  /** The offset in front of column i when column `start` is taken at offset off. */
  function OffsetAt(cols: seq<Column>, t: Tuple, start: nat, off: nat, i: nat): nat
    requires ValidColumns(cols) && i <= |cols|
  {
    if i <= start then off else StepOffset(cols[i - 1], t, i - 1, OffsetAt(cols, t, start, off, i - 1))
  }

  function CellValue(c: Column, t: Tuple, i: nat, off: nat): Datum
    requires ValidColumn(c)
  {
    if Present(t, i) then Fetch(t, c, AlignFor(t, c, off)) else NULL_DATUM
  }

  lemma {:induction false} OffsetFromNext(cols: seq<Column>, t: Tuple, start: nat, off: nat, i: nat)
    requires ValidColumns(cols) && start < i <= |cols|
    ensures OffsetAt(cols, t, start, off, i) ==
            OffsetAt(cols, t, start + 1, StepOffset(cols[start], t, start, off), i)
    decreases i
  {
    if i > start + 1 {
      OffsetFromNext(cols, t, start, off, i - 1);
    }
  }

  lemma {:induction false} OffsetsCompose(cols: seq<Column>, t: Tuple, start: nat, mid: nat, off: nat, i: nat)
    requires ValidColumns(cols) && start <= mid <= i <= |cols|
    ensures OffsetAt(cols, t, start, off, i) == OffsetAt(cols, t, mid, OffsetAt(cols, t, start, off, mid), i)
    decreases i
  {
    if i > mid {
      OffsetsCompose(cols, t, start, mid, off, i - 1);
    }
  }

  /** What the reference loop leaves in a slot. */
  predicate Deformed(cols: seq<Column>, t: Tuple, start: nat, limit: nat, s: Slot, r: Slot)
    requires ValidColumns(cols) && limit <= |cols|
  {
    && |r.values| == |s.values| && |r.isnull| == |s.isnull|
    && Room(s, limit)
    && r.nvalid == s.nvalid
    && (start <= limit ==> r.off == OffsetAt(cols, t, start, s.off, limit))
    && (start > limit ==> r.off == s.off)
    && (forall k | 0 <= k < |s.values| ::
          r.values[k] == if start <= k < limit then CellValue(cols[k], t, k, OffsetAt(cols, t, start, s.off, k))
                         else s.values[k])
    && (forall k | 0 <= k < |s.isnull| ::
          r.isnull[k] == if start <= k < limit then !Present(t, k) else s.isnull[k])
  }

  lemma {:induction false} LoopDeforms(cols: seq<Column>, t: Tuple, start: nat, limit: nat, s: Slot)
    requires ValidColumns(cols) && limit <= |cols| && Room(s, limit)
    ensures Deformed(cols, t, start, limit, s, DeformLoop(cols, t, start, limit, s))
    decreases limit - start
  {
    if start < limit {
      var s' := DeformColumn(cols[start], t, start, s);
      LoopDeforms(cols, t, start + 1, limit, s');
      assert s'.off == StepOffset(cols[start], t, start, s.off);
      forall k | start < k <= limit
        ensures OffsetAt(cols, t, start, s.off, k) == OffsetAt(cols, t, start + 1, s'.off, k)
      {
        OffsetFromNext(cols, t, start, s.off, k);
      }
    }
  }

  lemma DeformedIsUnique(cols: seq<Column>, t: Tuple, start: nat, limit: nat, s: Slot, r: Slot)
    requires ValidColumns(cols) && limit <= |cols| && Deformed(cols, t, start, limit, s, r)
    ensures r == DeformLoop(cols, t, start, limit, s)
  {
    LoopDeforms(cols, t, start, limit, s);
    var d := DeformLoop(cols, t, start, limit, s);
    assert r.values == d.values && r.isnull == d.isnull;
  }

  lemma {:induction false} LoopsCompose(cols: seq<Column>, t: Tuple, i: nat, mid: nat, limit: nat, s: Slot)
    requires ValidColumns(cols) && i <= mid <= limit <= |cols| && Room(s, limit)
    ensures DeformLoop(cols, t, i, limit, s) == DeformLoop(cols, t, mid, limit, DeformLoop(cols, t, i, mid, s))
    decreases mid - i
  {
    if i < mid {
      LoopsCompose(cols, t, i + 1, mid, limit, DeformColumn(cols[i], t, i, s));
    }
  }

  /** The offset the loop starts from. */
  function StartOffset(s: Slot): nat {
    if s.nvalid == 0 then 0 else s.off
  }

  /** What one call leaves in the slot, column by column. */
  lemma DeformCells(cols: seq<Column>, t: Tuple, natts: nat, s: Slot)
    requires ValidColumns(cols) && natts <= |cols| && Room(s, natts)
    ensures var r := Deform(cols, t, natts, s);
            var limit := Min(natts, t.natts);
            && |r.values| == |s.values| && |r.isnull| == |s.isnull| && r.nvalid == natts
            && r.off == (if s.nvalid <= limit then OffsetAt(cols, t, s.nvalid, StartOffset(s), limit)
                         else StartOffset(s))
            && (forall k | 0 <= k < |s.values| ::
                  r.values[k] == if s.nvalid <= k < limit
                                 then CellValue(cols[k], t, k, OffsetAt(cols, t, s.nvalid, StartOffset(s), k))
                                 else if t.natts <= k < natts then MissingValue(cols[k]) else s.values[k])
            && (forall k | 0 <= k < |s.isnull| ::
                  r.isnull[k] == if s.nvalid <= k < limit then !Present(t, k)
                                 else if t.natts <= k < natts then cols[k].missing.None? else s.isnull[k])
  {
    var filled := if t.natts < natts then FillMissing(cols, t.natts, natts, s) else s;
    var start := if s.nvalid == 0 then filled.(off := 0) else filled;
    LoopDeforms(cols, t, s.nvalid, Min(natts, t.natts), start);
  }

  /** Stopping at n1 and continuing to n2 is the same as going straight to n2. */
  lemma DeformInTwoSteps(cols: seq<Column>, t: Tuple, n1: nat, n2: nat, s: Slot)
    requires ValidColumns(cols) && s.nvalid <= n1 <= n2 <= |cols| && Room(s, n2)
    ensures Deform(cols, t, n2, Deform(cols, t, n1, s)) == Deform(cols, t, n2, s)
  {
    var s1 := Deform(cols, t, n1, s);
    DeformCells(cols, t, n1, s);
    DeformCells(cols, t, n2, s1);
    DeformCells(cols, t, n2, s);
    var r, d := Deform(cols, t, n2, s1), Deform(cols, t, n2, s);
    if n1 <= t.natts {
      forall k | n1 <= k <= Min(n2, t.natts)
        ensures OffsetAt(cols, t, n1, StartOffset(s1), k) == OffsetAt(cols, t, s.nvalid, StartOffset(s), k)
      {
        OffsetsCompose(cols, t, s.nvalid, n1, StartOffset(s), k);
      }
    }
    assert r.values == d.values;
    assert r.isnull == d.isnull;
  }
}
