/** Null-bitmap-driven deforming of wide nullable tables (deform_sparse_dispatch), in place. */
module DeformSparse {
  import opened Tuples
  import opened Wrappers

  // ---- Bitmap bytes ----

  /** Index of the lowest set bit. */
  function LowestBit(b: bv8): (bit: nat)
    requires b != 0
    ensures bit < 8 && BitSet(b, bit)
    ensures forall i: nat | i < bit :: !BitSet(b, i)
  {
    if b & 1 != 0 then 0
    else if b & 2 != 0 then 1
    else if b & 4 != 0 then 2
    else if b & 8 != 0 then 3
    else if b & 16 != 0 then 4
    else if b & 32 != 0 then 5
    else if b & 64 != 0 then 6
    else 7
  }

  /** b & (b - 1) clears the lowest set bit and nothing else. */
  lemma ClearsLowest(b: bv8, i: nat)
    requires b != 0 && i < 8
    ensures BitSet(b & (b - 1), i) <==> BitSet(b, i) && i != LowestBit(b)
  {
  }

  lemma NoBitSet(i: nat)
    requires i < 8
    ensures !BitSet(0, i)
  {
  }

  // ---- The slot ----

  class TableSlot {
    const values: array<Datum>
    const isnull: array<bool>
    var nvalid: nat
    var off: nat

    ghost predicate Valid()
      reads this
    {
      values.Length == isnull.Length
    }

    /** The slot with the offset still held in a local variable. */
    ghost function At(off: nat): Slot
      reads this, values, isnull
    {
      Slot(values[..], isnull[..], nvalid, off)
    }

    ghost function Contents(): Slot
      reads this, values, isnull
    {
      At(off)
    }

    constructor (n: nat)
      ensures Valid() && fresh(values) && fresh(isnull)
      ensures values.Length == n && nvalid == 0 && off == 0
    {
      values := new Datum[n](_ => NULL_DATUM);
      isnull := new bool[n](_ => true);
      nvalid, off := 0, 0;
    }

    method PutNull(i: nat)
      requires Valid() && i < values.Length
      modifies values, isnull
      ensures forall off :: At(off) == StoreNull(old(At(off)), i)
    {
      values[i] := NULL_DATUM;
      isnull[i] := true;
    }

    /** Align, fetch and advance for a column that is present. */
    method PutPresent(c: Column, t: Tuple, i: nat, off0: nat) returns (off: nat)
      requires Valid() && ValidColumn(c) && i < values.Length && Present(t, i)
      modifies values, isnull
      ensures At(off) == DeformColumn(c, t, i, old(At(off0)))
    {
      off := off0;
      if c.attlen == -1 {
        off := if ByteAt(t, off) != 0 then off else AlignUp(off, c.align);
      } else if c.align > 1 {
        off := AlignUp(off, c.align);
      }
      isnull[i] := false;
      values[i] := Fetch(t, c, off);
      off := Advance(t, c, off);
    }

    /** slot_getmissingattrs. */
    method GetMissing(cols: seq<Column>, from: nat, to: nat)
      requires Valid() && to <= |cols| && to <= values.Length
      modifies values, isnull
      ensures At(0) == FillMissing(cols, from, to, old(At(0)))
    {
      var k := from;
      ghost var v0, n0 := values[..], isnull[..];
      while k < to
        invariant from <= k
        invariant forall i | 0 <= i < values.Length ::
                    values[i] == if from <= i < k && i < to then MissingValue(cols[i]) else v0[i]
        invariant forall i | 0 <= i < isnull.Length ::
                    isnull[i] == if from <= i < k && i < to then cols[i].missing.None? else n0[i]
      {
        values[k] := MissingValue(cols[k]);
        isnull[k] := cols[k].missing.None?;
        k := k + 1;
      }
      assert At(0).values == FillMissing(cols, from, to, old(At(0))).values;
      assert At(0).isnull == FillMissing(cols, from, to, old(At(0))).isnull;
    }

    /** Eight slots at once: value 0, null. */
    method NullGroup(base: nat)
      requires Valid() && base + 8 <= values.Length
      modifies values, isnull
      ensures forall i | 0 <= i < values.Length ::
                values[i] == if base <= i < base + 8 then NULL_DATUM else old(values[i])
      ensures forall i | 0 <= i < isnull.Length ::
                isnull[i] == if base <= i < base + 8 then true else old(isnull[i])
    {
      forall i | base <= i < base + 8 {
        values[i] := NULL_DATUM;
      }
      forall i | base <= i < base + 8 {
        isnull[i] := true;
      }
    }
  }

  // ---- A group of eight columns: first all null, then the present ones ----

  /** Columns start..done are deformed, done..ahead still hold the nulls written in advance. */
  predicate Ahead(cols: seq<Column>, t: Tuple, start: nat, done: nat, ahead: nat, s: Slot, r: Slot)
    requires ValidColumns(cols)
  {
    && start <= done <= ahead <= |cols|
    && Room(s, ahead)
    && |r.values| == |s.values| && |r.isnull| == |s.isnull| && r.nvalid == s.nvalid
    && r.off == OffsetAt(cols, t, start, s.off, done)
    && (forall k {:trigger r.values[k]} | 0 <= k < |s.values| ::
          r.values[k] == if start <= k < done then CellValue(cols[k], t, k, OffsetAt(cols, t, start, s.off, k))
                         else if done <= k < ahead then NULL_DATUM else s.values[k])
    && (forall k {:trigger r.isnull[k]} | 0 <= k < |s.isnull| ::
          r.isnull[k] == if start <= k < done then !Present(t, k)
                         else if done <= k < ahead then true else s.isnull[k])
  }

  lemma AheadIsDeformed(cols: seq<Column>, t: Tuple, start: nat, done: nat, s: Slot, r: Slot)
    requires ValidColumns(cols) && start <= done <= |cols| && Room(s, done)
    ensures Ahead(cols, t, start, done, done, s, r) <==> r == DeformLoop(cols, t, start, done, s)
  {
    LoopDeforms(cols, t, start, done, s);
    if Ahead(cols, t, start, done, done, s, r) {
      DeformedIsUnique(cols, t, start, done, s, r);
    }
  }

  /** Writing nulls over the next columns. */
  lemma NullsAhead(cols: seq<Column>, t: Tuple, start: nat, done: nat, ahead: nat, s: Slot, r: Slot, r': Slot)
    requires ValidColumns(cols) && Ahead(cols, t, start, done, done, s, r)
    requires done <= ahead <= |cols| && Room(s, ahead)
    requires |r'.values| == |r.values| && |r'.isnull| == |r.isnull| && r'.nvalid == r.nvalid && r'.off == r.off
    requires forall k | 0 <= k < |r.values| :: r'.values[k] == if done <= k < ahead then NULL_DATUM else r.values[k]
    requires forall k | 0 <= k < |r.isnull| :: r'.isnull[k] == if done <= k < ahead then true else r.isnull[k]
    ensures Ahead(cols, t, start, done, ahead, s, r')
  {
  }

  /** A null column needs no visit. */
  lemma {:induction false} SkipNulls(cols: seq<Column>, t: Tuple, start: nat, done: nat, next: nat, ahead: nat, s: Slot,
                                     r: Slot)
    requires ValidColumns(cols) && Ahead(cols, t, start, done, ahead, s, r)
    requires done <= next <= ahead
    requires forall k | done <= k < next :: !Present(t, k)
    ensures Ahead(cols, t, start, next, ahead, s, r)
    decreases next - done
  {
    if done < next {
      assert !Present(t, done);
      SkipNulls(cols, t, start, done + 1, next, ahead, s, r);
    }
  }

  lemma VisitPresent(cols: seq<Column>, t: Tuple, start: nat, done: nat, ahead: nat, s: Slot, r: Slot)
    requires ValidColumns(cols) && Ahead(cols, t, start, done, ahead, s, r)
    requires done < ahead && Present(t, done)
    ensures Ahead(cols, t, start, done + 1, ahead, s, DeformColumn(cols[done], t, done, r))
  {
  }

  function BitmapByte(t: Tuple, i: nat): bv8 {
    if i < |t.bits| then t.bits[i] else 0
  }

  /** bm holds the bits of the columns of its byte that are still to be visited. */
  predicate BitsLeft(bm: bv8, t: Tuple, base: nat, done: nat) {
    forall i: nat | i < 8 :: BitSet(bm, i) <==> base + i >= done && Present(t, base + i)
  }

  lemma NextBit(bm: bv8, t: Tuple, base: nat, done: nat)
    requires bm != 0 && base <= done && BitsLeft(bm, t, base, done)
    ensures var col := base + LowestBit(bm);
            && done <= col && Present(t, col)
            && (forall k | done <= k < col :: !Present(t, k))
            && BitsLeft(bm & (bm - 1), t, base, col + 1)
  {
    var bit := LowestBit(bm);
    forall k | done <= k < base + bit ensures !Present(t, k) {
      assert !BitSet(bm, k - base);
    }
    var next := bm & (bm - 1);
    forall i: nat | i < 8 ensures BitSet(next, i) <==> base + i >= base + bit + 1 && Present(t, base + i) {
      ClearsLowest(bm, i);
      if i < bit {
        assert !BitSet(bm, i);
      }
    }
  }

  lemma NoBitsLeft(t: Tuple, base: nat, done: nat)
    requires base <= done && BitsLeft(0, t, base, done)
    ensures forall k | done <= k < base + 8 :: !Present(t, k)
  {
    forall k | done <= k < base + 8 ensures !Present(t, k) {
      NoBitSet(k - base);
      assert !BitSet(0, k - base);
    }
  }

  /** With no bit left, the remaining columns of the byte keep their nulls. */
  lemma RestIsNull(cols: seq<Column>, t: Tuple, start: nat, base: nat, done: nat, s: Slot, r: Slot)
    requires ValidColumns(cols) && base <= done <= base + 8 && BitsLeft(0, t, base, done)
    requires Ahead(cols, t, start, done, base + 8, s, r)
    ensures Ahead(cols, t, start, base + 8, base + 8, s, r)
  {
    NoBitsLeft(t, base, done);
    SkipNulls(cols, t, start, done, base + 8, base + 8, s, r);
  }

  /** Visit the lowest set bit. */
  method VisitLowest(slot: TableSlot, cols: seq<Column>, t: Tuple, base: nat, bm: bv8, off0: nat,
                     ghost start: nat, ghost done: nat, ghost s: Slot)
      returns (off: nat, bm': bv8)
    requires slot.Valid() && ValidColumns(cols) && base + 8 <= |cols| && base + 8 <= slot.values.Length
    requires bm != 0 && base <= done && BitsLeft(bm, t, base, done)
    requires Ahead(cols, t, start, done, base + 8, s, slot.At(off0))
    modifies slot.values, slot.isnull
    ensures done <= base + LowestBit(bm)
    ensures Ahead(cols, t, start, base + LowestBit(bm) + 1, base + 8, s, slot.At(off))
    ensures BitsLeft(bm', t, base, base + LowestBit(bm) + 1)
  {
    var col := base + LowestBit(bm);
    NextBit(bm, t, base, done);
    ghost var r := slot.At(off0);
    SkipNulls(cols, t, start, done, col, base + 8, s, r);
    VisitPresent(cols, t, start, col, base + 8, s, r);
    off := slot.PutPresent(cols[col], t, col, off0);
    bm' := bm & (bm - 1);
  }

  /** Visit the set bits of one bitmap byte over a group that was set to null. */
  method VisitBits(slot: TableSlot, cols: seq<Column>, t: Tuple, base: nat, bm0: bv8, off0: nat, ghost start: nat,
                   ghost s: Slot)
      returns (off: nat)
    requires slot.Valid() && ValidColumns(cols) && base + 8 <= |cols| && base + 8 <= slot.values.Length
    requires Ahead(cols, t, start, base, base + 8, s, slot.At(off0)) && BitsLeft(bm0, t, base, base)
    modifies slot.values, slot.isnull
    ensures Ahead(cols, t, start, base + 8, base + 8, s, slot.At(off))
  {
    off := off0;
    var bm := bm0;
    ghost var done := base;
    while bm != 0
      invariant base <= done <= base + 8
      invariant Ahead(cols, t, start, done, base + 8, s, slot.At(off))
      invariant BitsLeft(bm, t, base, done)
      decreases base + 8 - done
    {
      ghost var next := base + LowestBit(bm) + 1;
      off, bm := VisitLowest(slot, cols, t, base, bm, off, start, done, s);
      done := next;
    }
    RestIsNull(cols, t, start, base, done, s, slot.At(off));
  }

  /** Set a group of eight columns to null. */
  method ClearGroup(slot: TableSlot, cols: seq<Column>, t: Tuple, base: nat, ghost off: nat, ghost start: nat,
                    ghost s: Slot)
    requires slot.Valid() && ValidColumns(cols) && base + 8 <= |cols| && base + 8 <= slot.values.Length
    requires start <= base && Room(s, base + 8)
    requires slot.At(off) == DeformLoop(cols, t, start, base, s)
    modifies slot.values, slot.isnull
    ensures Ahead(cols, t, start, base, base + 8, s, slot.At(off))
  {
    ghost var r := slot.At(off);
    AheadIsDeformed(cols, t, start, base, s, r);
    slot.NullGroup(base);
    NullsAhead(cols, t, start, base, base + 8, s, r, slot.At(off));
  }

  /** A whole bitmap byte. */
  lemma ByteBits(t: Tuple, bi: nat, base: nat)
    requires t.hasNulls && base == 8 * bi
    ensures BitsLeft(BitmapByte(t, bi), t, base, base)
  {
    forall i: nat | i < 8 ensures BitSet(BitmapByte(t, bi), i) <==> Present(t, base + i) {
      NoBitSet(i);
    }
  }

  /** One full bitmap byte: zero the group, then visit the set bits from the lowest up. */
  method DeformGroup(slot: TableSlot, cols: seq<Column>, t: Tuple, bi: nat, base: nat, off0: nat, ghost start: nat,
                     ghost s: Slot)
      returns (off: nat)
    requires slot.Valid() && ValidColumns(cols) && base + 8 <= |cols| && base + 8 <= slot.values.Length
    requires t.hasNulls && base == 8 * bi && start <= base && Room(s, base + 8)
    requires slot.At(off0) == DeformLoop(cols, t, start, base, s)
    modifies slot.values, slot.isnull
    ensures slot.At(off) == DeformLoop(cols, t, start, base + 8, s)
  {
    off := VisitGroup(slot, cols, t, bi, base, off0, start, s);
    AheadIsDeformed(cols, t, start, base + 8, s, slot.At(off));
  }

  method VisitGroup(slot: TableSlot, cols: seq<Column>, t: Tuple, bi: nat, base: nat, off0: nat, ghost start: nat,
                    ghost s: Slot)
      returns (off: nat)
    requires slot.Valid() && ValidColumns(cols) && base + 8 <= |cols| && base + 8 <= slot.values.Length
    requires t.hasNulls && base == 8 * bi && start <= base && Room(s, base + 8)
    requires slot.At(off0) == DeformLoop(cols, t, start, base, s)
    modifies slot.values, slot.isnull
    ensures Ahead(cols, t, start, base + 8, base + 8, s, slot.At(off))
  {
    ClearGroup(slot, cols, t, base, off0, start, s);
    ByteBits(t, bi, base);
    off := VisitBits(slot, cols, t, base, BitmapByte(t, bi), off0, start, s);
  }

  /** One column at a time against one bitmap byte: a partial first or last byte. */
  method DeformBits(slot: TableSlot, cols: seq<Column>, t: Tuple, from: nat, to: nat, off0: nat, ghost s: Slot)
      returns (off: nat)
    requires slot.Valid() && ValidColumns(cols) && to <= |cols| && to <= slot.values.Length
    requires t.hasNulls && Room(s, to) && slot.At(off0) == s
    requires from < to ==> from / 8 == (to - 1) / 8
    modifies slot.values, slot.isnull
    ensures slot.At(off) == DeformLoop(cols, t, from, to, s)
  {
    off := off0;
    var bm := BitmapByte(t, from / 8);
    var col := from;
    while col < to
      invariant from <= col && (col <= to || col == from)
      invariant DeformLoop(cols, t, from, to, s) == DeformLoop(cols, t, col, to, slot.At(off))
    {
      if !BitSet(bm, col % 8) {
        slot.PutNull(col);
      } else {
        off := slot.PutPresent(cols[col], t, col, off);
      }
      col := col + 1;
    }
  }

  /** A tuple without nulls. */
  method DeformAll(slot: TableSlot, cols: seq<Column>, t: Tuple, from: nat, to: nat, off0: nat, ghost s: Slot)
      returns (off: nat)
    requires slot.Valid() && ValidColumns(cols) && to <= |cols| && to <= slot.values.Length
    requires !t.hasNulls && Room(s, to) && slot.At(off0) == s
    modifies slot.values, slot.isnull
    ensures slot.At(off) == DeformLoop(cols, t, from, to, s)
  {
    off := off0;
    var col := from;
    while col < to
      invariant from <= col && (col <= to || col == from)
      invariant DeformLoop(cols, t, from, to, s) == DeformLoop(cols, t, col, to, slot.At(off))
    {
      off := slot.PutPresent(cols[col], t, col, off);
      col := col + 1;
    }
  }

  /** From a byte boundary on: full bytes, then a partial last byte. */
  method DeformFromByte(slot: TableSlot, cols: seq<Column>, t: Tuple, startByte: nat, limit: nat, off0: nat,
                        ghost s: Slot)
      returns (off: nat)
    requires slot.Valid() && ValidColumns(cols) && limit <= |cols| && limit <= slot.values.Length
    requires t.hasNulls && Room(s, limit) && slot.At(off0) == s
    modifies slot.values, slot.isnull
    ensures slot.At(off) == DeformLoop(cols, t, 8 * startByte, limit, s)
  {
    off := off0;
    var nbytes := (limit + 7) / 8;
    var bi := startByte;
    while bi < nbytes
      invariant startByte <= bi
      invariant bi > startByte ==> 8 * bi <= limit
      invariant 8 * bi <= limit ==> slot.At(off) == DeformLoop(cols, t, 8 * startByte, 8 * bi, s)
      invariant bi == startByte ==> slot.At(off) == s
      decreases nbytes - bi
    {
      if 8 * bi + 8 > limit {
        LoopsCompose(cols, t, 8 * startByte, 8 * bi, limit, s);
        off := DeformBits(slot, cols, t, 8 * bi, limit, off, slot.At(off));
        return;
      }
      off := DeformGroup(slot, cols, t, bi, 8 * bi, off, 8 * startByte, s);
      bi := bi + 1;
    }
  }

  /** A tuple with a null bitmap: a partial first byte, then whole bytes. */
  method DeformByBytes(slot: TableSlot, cols: seq<Column>, t: Tuple, from: nat, limit: nat, off0: nat, ghost s: Slot)
      returns (off: nat)
    requires slot.Valid() && ValidColumns(cols) && limit <= |cols| && limit <= slot.values.Length
    requires t.hasNulls && Room(s, limit) && slot.At(off0) == s
    modifies slot.values, slot.isnull
    ensures slot.At(off) == DeformLoop(cols, t, from, limit, s)
  {
    if from % 8 == 0 {
      assert 8 * (from / 8) == from;
      off := DeformFromByte(slot, cols, t, from / 8, limit, off0, s);
    } else {
      off := DeformFirstByte(slot, cols, t, from, limit, off0, s);
      off := DeformFromByte(slot, cols, t, from / 8 + 1, limit, off, slot.At(off));
    }
  }

  /** The columns up to the end of the byte, when the first one stands inside it. */
  method DeformFirstByte(slot: TableSlot, cols: seq<Column>, t: Tuple, from: nat, limit: nat, off0: nat, ghost s: Slot)
      returns (off: nat)
    requires slot.Valid() && ValidColumns(cols) && limit <= |cols| && limit <= slot.values.Length
    requires t.hasNulls && Room(s, limit) && slot.At(off0) == s && from % 8 > 0
    modifies slot.values, slot.isnull
    ensures DeformLoop(cols, t, 8 * (from / 8 + 1), limit, slot.At(off)) == DeformLoop(cols, t, from, limit, s)
  {
    var endCol := Min(8 * (from / 8) + 8, limit);
    off := DeformBits(slot, cols, t, from, endCol, off0, s);
    if from <= endCol {
      LoopsCompose(cols, t, from, endCol, limit, s);
    }
  }

  /** deform_sparse_dispatch: the slot ends up as the reference leaves it, for every bitmap,
      start column and limit. */
  method SparseDispatch(slot: TableSlot, cols: seq<Column>, t: Tuple, natts: nat)
    requires slot.Valid() && ValidColumns(cols) && natts <= |cols| && natts <= slot.values.Length
    modifies slot, slot.values, slot.isnull
    ensures slot.Contents() == Deform(cols, t, natts, old(slot.Contents()))
  {
    ghost var s0 := slot.Contents();
    if t.natts < natts {
      slot.GetMissing(cols, t.natts, natts);
    }
    var off := if slot.nvalid == 0 then 0 else slot.off;
    var limit := Min(natts, t.natts);
    ghost var s := slot.At(off);
    if !t.hasNulls {
      off := DeformAll(slot, cols, t, slot.nvalid, limit, off, s);
    } else {
      off := DeformByBytes(slot, cols, t, slot.nvalid, limit, off, s);
    }
    slot.nvalid := natts;
    slot.off := off;
  }
}
