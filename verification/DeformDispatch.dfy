/** The dispatch-table deform loop (the local branch of pg_jitter_compile_deform_loop):
    specialised handlers, run-length batches, eight-column null skips and the bitmap
    pre-check. */
module DeformDispatch {
  import opened Tuples
  import opened DeformSparse
  import opened Wrappers

  // ---- The dispatch table ----

  datatype Handler = HBool | HInt2 | HInt4 | HInt8 | HVarlena | HCstring | HGeneric

  datatype Entry = Entry(handler: Handler, nullable: bool)

  function HandlerOf(c: Column): Handler {
    if c.byval then
      if c.attlen == 1 then HBool
      else if c.attlen == 2 then HInt2
      else if c.attlen == 4 then HInt4
      else if c.attlen == 8 then HInt8
      else HGeneric
    else if c.attlen == -1 then HVarlena
    else if c.attlen == -2 then HCstring
    else HGeneric
  }

  function EntryOf(c: Column): Entry {
    Entry(HandlerOf(c), !c.notnull)
  }

  /** The alignment and width a handler has built in are those of the column. */
  predicate Conforming(c: Column) {
    match HandlerOf(c)
    case HBool => c.align == 1
    case HInt2 => c.align == 2
    case HInt4 => c.align == 4
    case HInt8 => c.align == 8
    case HVarlena => c.align == 4
    case HCstring => c.align == 1
    case HGeneric => true
  }

  predicate AllConforming(cols: seq<Column>) {
    forall i | 0 <= i < |cols| :: Conforming(cols[i]) && Compilable(cols[i])
  }

  // ---- Run-length batches ----

  predicate Batchable(e: Entry) {
    (e.handler == HInt4 || e.handler == HInt8) && !e.nullable
  }

  /** One past the run of equal NOT NULL entries that starts at j. */
  function RunEnd(d: seq<Entry>, j: nat): (n: nat)
    requires j < |d|
    ensures j < n <= |d|
    decreases |d| - j
  {
    if j + 1 < |d| && d[j + 1] == d[j] && !d[j].nullable then RunEnd(d, j + 1) else j + 1
  }

  /** How many columns the handler takes at once from column j; 0 for one at a time. */
  function BatchAt(d: seq<Entry>, j: nat): (n: nat)
    requires j < |d|
    ensures n <= 255 && j + n <= |d|
  {
    var remaining := RunEnd(d, j) - j;
    if Batchable(d[j]) && remaining >= 4 then (if remaining > 255 then 255 else remaining) else 0
  }

  lemma {:induction false} RunIsUniform(d: seq<Entry>, j: nat, k: nat)
    requires j <= k < |d| && k < RunEnd(d, j)
    ensures d[k] == d[j] && RunEnd(d, k) == RunEnd(d, j)
    decreases k - j
  {
    if j < k {
      RunIsUniform(d, j + 1, k);
    }
  }

  lemma {:induction false} RunEndIs(d: seq<Entry>, j: nat, n: nat)
    requires j < n <= |d|
    requires forall k | j < k < n :: d[k] == d[j]
    requires j + 1 < n ==> !d[j].nullable
    requires n < |d| ==> d[n] != d[j] || d[j].nullable
    ensures RunEnd(d, j) == n
    decreases n - j
  {
    if j + 1 < n {
      RunEndIs(d, j + 1, n);
    }
  }

  /** Batch detection: scan the table for runs and note, at each column of a long run, how
      many columns are left of it. */
  method FindBatches(d: seq<Entry>) returns (bc: array<nat>)
    ensures fresh(bc) && bc.Length == |d|
    ensures forall j | 0 <= j < |d| :: bc[j] == BatchAt(d, j)
  {
    bc := new nat[|d|](_ => 0);
    var runStart := 0;
    var i := 1;
    while i <= |d|
      invariant 1 <= i && (|d| > 0 ==> i <= |d| + 1)
      invariant 0 <= runStart < i
      invariant i <= |d| ==> forall k | runStart < k < i :: d[k] == d[runStart]
      invariant runStart + 1 < i <= |d| ==> !d[runStart].nullable
      invariant i == |d| + 1 ==> runStart == |d|
      invariant forall j | 0 <= j < runStart && j < |d| :: bc[j] == BatchAt(d, j)
      invariant forall j | runStart <= j < |d| :: bc[j] == 0
    {
      var continues := i < |d| && d[i] == d[runStart] && !d[runStart].nullable;
      if !continues {
        RunEndIs(d, runStart, i);
        FillRun(d, bc, runStart, i);
        runStart := i;
      }
      i := i + 1;
    }
  }

  /** Note the remaining length at each column of one run. */
  method FillRun(d: seq<Entry>, bc: array<nat>, runStart: nat, runEnd: nat)
    requires bc.Length == |d| && runStart < runEnd <= |d|
    requires RunEnd(d, runStart) == runEnd
    requires forall j | runStart <= j < |d| :: bc[j] == 0
    modifies bc
    ensures forall j | 0 <= j < runStart :: bc[j] == old(bc[j])
    ensures forall j | runStart <= j < runEnd :: bc[j] == BatchAt(d, j)
    ensures forall j | runEnd <= j < |d| :: bc[j] == 0
  {
    var runLen := runEnd - runStart;
    forall k | runStart <= k < runEnd ensures d[k] == d[runStart] && RunEnd(d, k) == runEnd {
      RunIsUniform(d, runStart, k);
    }
    if Batchable(d[runStart]) && runLen >= 4 {
      var j := runStart;
      while j < runEnd
        invariant runStart <= j <= runEnd
        invariant forall k | 0 <= k < runStart :: bc[k] == old(bc[k])
        invariant forall k | runStart <= k < j :: bc[k] == BatchAt(d, k)
        invariant forall k | j <= k < |d| :: bc[k] == 0
      {
        var remaining := runEnd - j;
        if remaining >= 4 {
          bc[j] := if remaining > 255 then 255 else remaining;
        }
        j := j + 1;
      }
    }
  }

  /** A NOT NULL by-value column of width 4 or 8: what batches are made of. */
  predicate NotNullInt(c: Column, width: int) {
    (width == 4 || width == 8) && c.byval && c.attlen == width && c.notnull
  }

  /** Columns j to n are a run of int4 or of int8 that goes no further: from j on they are taken at
      once when there are at least 4, but no more than 255 of them. */
  lemma BatchOfRun(cols: seq<Column>, natts: nat, j: nat, n: nat, width: int)
    requires j < n <= natts <= |cols| && forall k | j <= k < n :: NotNullInt(cols[k], width)
    requires n < natts ==> !NotNullInt(cols[n], width)
    ensures BatchAt(Table(cols, natts), j) == if n - j < 4 then 0 else if n - j > 255 then 255 else n - j
  {
    var d := Table(cols, natts);
    forall k | j <= k < n ensures d[k] == Entry(if width == 4 then HInt4 else HInt8, false) {
      assert NotNullInt(cols[k], width);
    }
    RunEndIs(d, j, n);
  }

  /** No other column starts a batch. */
  lemma NoBatch(cols: seq<Column>, natts: nat, j: nat)
    requires j < natts <= |cols| && !NotNullInt(cols[j], 4) && !NotNullInt(cols[j], 8)
    ensures BatchAt(Table(cols, natts), j) == 0
  {
  }

  // ---- The bitmap pre-check ----

  function LowMask(n: nat): bv8
    requires n < 8
  {
    match n
    case 0 => 0
    case 1 => 1
    case 2 => 3
    case 3 => 7
    case 4 => 15
    case 5 => 31
    case 6 => 63
    case _ => 127
  }

  lemma FullByte(b: bv8)
    ensures b == 0xFF <==> forall i: nat | i < 8 :: BitSet(b, i)
  {
    if forall i: nat | i < 8 :: BitSet(b, i) {
      assert BitSet(b, 0) && BitSet(b, 1) && BitSet(b, 2) && BitSet(b, 3);
      assert BitSet(b, 4) && BitSet(b, 5) && BitSet(b, 6) && BitSet(b, 7);
    }
  }

  lemma LowBits(b: bv8, n: nat)
    requires n < 8
    ensures b & LowMask(n) == LowMask(n) <==> forall i: nat | i < n :: BitSet(b, i)
  {
    if forall i: nat | i < n :: BitSet(b, i) {
      assert n > 0 ==> BitSet(b, 0);
      assert n > 1 ==> BitSet(b, 1);
      assert n > 2 ==> BitSet(b, 2);
      assert n > 3 ==> BitSet(b, 3);
      assert n > 4 ==> BitSet(b, 4);
      assert n > 5 ==> BitSet(b, 5);
      assert n > 6 ==> BitSet(b, 6);
    }
  }

  /** simd_nullbitmap_all_notnull. */
  method AllNotNull(t: Tuple, ncols: nat) returns (r: bool)
    requires t.hasNulls
    ensures r <==> forall k: nat | k < ncols :: Present(t, k)
  {
    var fullBytes := ncols / 8;
    var trailing := ncols % 8;
    var i := 0;
    while i < fullBytes
      invariant 0 <= i <= fullBytes
      invariant forall k: nat | k < 8 * i :: Present(t, k)
    {
      FullByte(BitmapByte(t, i));
      if BitmapByte(t, i) != 0xFF {
        var bit: nat :| bit < 8 && !BitSet(BitmapByte(t, i), bit);
        assert !Present(t, 8 * i + bit);
        return false;
      }
      forall k: nat | k < 8 * i + 8 ensures Present(t, k) {
        if k >= 8 * i {
          assert BitSet(BitmapByte(t, i), k - 8 * i);
        }
      }
      i := i + 1;
    }
    if trailing != 0 {
      var b := BitmapByte(t, fullBytes);
      LowBits(b, trailing);
      if b & LowMask(trailing) != LowMask(trailing) {
        var bit: nat :| bit < trailing && !BitSet(b, bit);
        assert !Present(t, 8 * fullBytes + bit);
        return false;
      }
      forall k: nat | k < ncols ensures Present(t, k) {
        if k >= 8 * fullBytes {
          assert BitSet(b, k - 8 * fullBytes);
        }
      }
    }
    return true;
  }

  // ---- Handlers: alignment, width and advance as constants ----

  function LoadWidth(c: Column): nat {
    if c.attlen == 1 then 1 else if c.attlen == 2 then 2 else if c.attlen == 4 then 4 else 8
  }

  /** The alignment a handler applies, whatever the column asks for. */
  function HandlerAlign(t: Tuple, c: Column, off: nat): nat {
    match HandlerOf(c)
    case HBool => off
    case HInt2 => AlignUp(off, 2)
    case HInt4 => AlignUp(off, 4)
    case HInt8 => AlignUp(off, 8)
    case HVarlena => if ByteAt(t, off) == 0 then AlignUp(off, 4) else off
    case HCstring => off
    case HGeneric => AlignUp(off, c.align)
  }

  /** What a handler does to its column. */
  function HandlerColumn(c: Column, t: Tuple, i: nat, s: Slot): Slot
    requires ValidColumn(c) && i < |s.values|
  {
    var off := HandlerAlign(t, c, s.off);
    s.(values := s.values[i := if c.byval then ByVal(Load(t, off, LoadWidth(c))) else Pointer(off)],
       off := Advance(t, c, off))
  }

  /** One column.  The null flag was cleared for all columns beforehand. */
  method RunHandler(slot: TableSlot, h: Handler, c: Column, t: Tuple, i: nat, off0: nat) returns (off: nat)
    requires slot.Valid() && i < slot.values.Length
    requires ValidColumn(c) && h == HandlerOf(c)
    modifies slot.values
    ensures slot.At(off) == HandlerColumn(c, t, i, old(slot.At(off0)))
  {
    var v;
    match h {
      case HBool =>
        v, off := ByVal(Load(t, off0, 1)), off0 + 1;
      case HInt2 =>
        off := AlignUp(off0, 2);
        v, off := ByVal(Load(t, off, 2)), off + 2;
      case HInt4 =>
        off := AlignUp(off0, 4);
        v, off := ByVal(Load(t, off, 4)), off + 4;
      case HInt8 =>
        off := AlignUp(off0, 8);
        v, off := ByVal(Load(t, off, 8)), off + 8;
      case HVarlena =>
        off := if ByteAt(t, off0) == 0 then AlignUp(off0, 4) else off0;
        v, off := Pointer(off), off + t.varsize(off);
      case HCstring =>
        v, off := Pointer(off0), off0 + t.cstrlen(off0) + 1;
      case HGeneric =>
        off := if c.align > 1 then AlignUp(off0, c.align) else off0;
        v := if c.byval then ByVal(Load(t, off, LoadWidth(c))) else Pointer(off);
        off := off + c.attlen;
    }
    slot.values[i] := v;
  }

  /** A slot that may stand in front of stored column i: the first column starts at offset 0. */
  predicate InFront(t: Tuple, i: nat, s: Slot) {
    Present(t, i) && i < |s.values| == |s.isnull| && !s.isnull[i] && (i == 0 ==> s.off == 0)
  }

  /** A handler is the reference on every tuple and slot if and only if its built-in
      alignment is the alignment of the column. */
  lemma HandlerExactlyWhen(c: Column)
    requires ValidColumn(c) && Compilable(c)
    ensures (forall t: Tuple, i: nat, s: Slot | InFront(t, i, s) ::
               HandlerColumn(c, t, i, s) == DeformColumn(c, t, i, s)) <==> Conforming(c)
    ensures Conforming(c) <==> (c.byval ==> c.align == c.attlen) && (c.attlen == -1 ==> c.align == 4) &&
                               (c.attlen == -2 ==> c.align == 1)
  {
    if Conforming(c) {
      forall t: Tuple, i: nat, s: Slot | InFront(t, i, s)
        ensures HandlerColumn(c, t, i, s) == DeformColumn(c, t, i, s)
      {
        ConformingHandler(c, t, i, s);
      }
    } else {
      var t := Tuple(2, false, [], [], _ => 0, _ => 0);
      var s := Slot([ByVal(0), NULL_DATUM], [false, false], 1, 1);
      assert HandlerAlign(t, c, 1) != AlignFor(t, c, 1);
      assert HandlerColumn(c, t, 1, s).off != DeformColumn(c, t, 1, s).off;
      assert InFront(t, 1, s);
    }
  }

  lemma ConformingHandler(c: Column, t: Tuple, i: nat, s: Slot)
    requires ValidColumn(c) && Compilable(c) && Conforming(c)
    requires Present(t, i) && i < |s.values| == |s.isnull| && !s.isnull[i]
    ensures HandlerColumn(c, t, i, s) == DeformColumn(c, t, i, s)
  {
    assert s.isnull[i := false] == s.isnull;
  }

  predicate SameWidth(c: Column, width: Alignment) {
    c.byval && c.attlen == width && c.align == width
  }

  lemma AlignedAgain(off: nat, a: Alignment)
    ensures AlignUp(AlignUp(off, a), a) == AlignUp(off, a)
    ensures AlignUp(AlignUp(off, a) + a, a) == AlignUp(off, a) + a
  {
    AlignUpIs(off, a);
    AlignUpIs(AlignUp(off, a), a);
  }

  /** The place behind m values of one width. */
  function Place(base: nat, m: nat, width: Alignment): (off: nat)
    ensures off >= base
  {
    if m == 0 then base else Place(base, m - 1, width) + width
  }

  lemma {:induction false} PlacesGrow(base: nat, m: nat, n: nat, width: Alignment)
    requires m < n
    ensures Place(base, m, width) < Place(base, n, width)
  {
    if m < n - 1 {
      PlacesGrow(base, m, n - 1, width);
    }
  }

  function BatchWidth(e: Entry): Alignment {
    if e.handler == HInt4 then 4 else 8
  }

  /** A batch: one alignment, then `count` loads from consecutive places, whether the tuple
      stores these columns or not. */
  function Batch(t: Tuple, i: nat, count: nat, width: Alignment, s: Slot): (r: Slot)
    requires i + count <= |s.values| == |s.isnull|
  {
    var base := AlignUp(s.off, width);
    s.(values := seq(|s.values|, k requires 0 <= k < |s.values| =>
                   if i <= k < i + count then ByVal(Load(t, Place(base, k - i, width), width)) else s.values[k]),
       isnull := seq(|s.isnull|, k requires 0 <= k < |s.isnull| => s.isnull[k] && !(i <= k < i + count)),
       off := Place(base, count, width))
  }

  lemma {:induction false} PlacesAreAligned(off: nat, m: nat, width: Alignment)
    ensures AlignUp(Place(AlignUp(off, width), m, width), width) == Place(AlignUp(off, width), m, width)
  {
    AlignedAgain(off, width);
    if m > 0 {
      PlacesAreAligned(off, m - 1, width);
      AlignedAgain(Place(AlignUp(off, width), m - 1, width), width);
    }
  }

  /** One load. */
  function LoadOne(t: Tuple, k: nat, width: Alignment, s: Slot): Slot
    requires k < |s.values| == |s.isnull|
  {
    s.(values := s.values[k := ByVal(Load(t, s.off, width))], isnull := s.isnull[k := false], off := s.off + width)
  }

  lemma BatchGrows(t: Tuple, i: nat, count: nat, width: Alignment, s: Slot)
    requires 0 < count && i + count <= |s.values| == |s.isnull|
    ensures Batch(t, i, count, width, s) == LoadOne(t, i + count - 1, width, Batch(t, i, count - 1, width, s))
  {
    var r, r' := Batch(t, i, count, width, s), LoadOne(t, i + count - 1, width, Batch(t, i, count - 1, width, s));
    assert r.values == r'.values;
    assert r.isnull == r'.isnull;
  }

  /** Where the offset is aligned, one load is the reference over a column of its width. */
  lemma LoadIsDeform(c: Column, t: Tuple, k: nat, width: Alignment, s: Slot)
    requires ValidColumn(c) && SameWidth(c, width) && Present(t, k) && k < |s.values| == |s.isnull|
    requires AlignUp(s.off, width) == s.off
    ensures LoadOne(t, k, width, s) == DeformColumn(c, t, k, s)
  {
  }

  lemma FirstLoad(c: Column, t: Tuple, i: nat, width: Alignment, s: Slot)
    requires ValidColumn(c) && SameWidth(c, width) && Present(t, i) && i < |s.values| == |s.isnull|
    ensures Batch(t, i, 1, width, s) == DeformColumn(c, t, i, s)
  {
    var start := s.(off := AlignUp(s.off, width));
    assert Batch(t, i, 0, width, s).values == s.values && Batch(t, i, 0, width, s).isnull == s.isnull;
    BatchGrows(t, i, 1, width, s);
    AlignedAgain(s.off, width);
    LoadIsDeform(c, t, i, width, start);
  }

  /** Over stored columns of its width, a batch is the reference. */
  lemma {:induction false} BatchIsDeform(cols: seq<Column>, t: Tuple, i: nat, count: nat, width: Alignment, s: Slot)
    requires ValidColumns(cols) && 0 < count && i + count <= |cols| && i + count <= |s.values| == |s.isnull|
    requires forall k | i <= k < i + count :: SameWidth(cols[k], width) && Present(t, k)
    ensures Batch(t, i, count, width, s) == DeformLoop(cols, t, i, i + count, s)
    decreases count
  {
    var last := i + count - 1;
    if count == 1 {
      FirstLoad(cols[i], t, i, width, s);
      OneColumn(cols, t, i, s);
    } else {
      var r := Batch(t, i, count - 1, width, s);
      BatchIsDeform(cols, t, i, count - 1, width, s);
      PlacesAreAligned(s.off, count - 1, width);
      LoadIsDeform(cols[last], t, last, width, r);
      BatchGrows(t, i, count, width, s);
      LoopsCompose(cols, t, i, last, i + count, s);
      OneColumn(cols, t, last, r);
    }
  }

  lemma OneColumn(cols: seq<Column>, t: Tuple, j: nat, s: Slot)
    requires ValidColumns(cols) && j < |cols| && Room(s, j + 1)
    ensures DeformLoop(cols, t, j, j + 1, s) == DeformColumn(cols[j], t, j, s)
  {
    assert DeformLoop(cols, t, j + 1, j + 1, DeformColumn(cols[j], t, j, s)) == DeformColumn(cols[j], t, j, s);
  }

  method RunBatch(slot: TableSlot, t: Tuple, i: nat, count: nat, width: Alignment, off0: nat) returns (off: nat)
    requires slot.Valid() && i + count <= slot.values.Length
    modifies slot.values, slot.isnull
    ensures slot.At(off) == Batch(t, i, count, width, old(slot.At(off0)))
    ensures forall k | 0 <= k < slot.isnull.Length ::
              slot.isnull[k] == (old(slot.isnull[k]) && !(i <= k < i + count))
  {
    forall k | i <= k < i + count {
      slot.isnull[k] := false;
    }
    off := AlignUp(off0, width);
    ghost var base, cleared := off, slot.isnull[..];
    var col := i;
    while col < i + count
      invariant slot.isnull[..] == cleared
      invariant i <= col <= i + count && off == Place(base, col - i, width)
      invariant forall k | 0 <= k < slot.values.Length ::
                  slot.values[k] == if i <= k < col then ByVal(Load(t, Place(base, k - i, width), width))
                                    else old(slot.values[k])
    {
      slot.values[col] := ByVal(Load(t, off, width));
      off := off + width;
      col := col + 1;
    }
    assert slot.At(off).values == Batch(t, i, count, width, old(slot.At(off0))).values;
    assert slot.At(off).isnull == Batch(t, i, count, width, old(slot.At(off0))).isnull;
  }

  // ---- The eight-column null skip ----

  /** Eight absent columns from a byte boundary on. */
  method SkipGroup(slot: TableSlot, cols: seq<Column>, t: Tuple, attnum: nat, ghost off: nat)
    requires slot.Valid() && ValidColumns(cols) && attnum % 8 == 0
    requires attnum + 8 <= |cols| && attnum + 8 <= slot.values.Length
    requires t.hasNulls && BitmapByte(t, attnum / 8) == 0
    modifies slot.values, slot.isnull
    ensures slot.At(off) == DeformLoop(cols, t, attnum, attnum + 8, old(slot.At(off)))
    ensures forall k | attnum + 8 <= k < slot.isnull.Length :: slot.isnull[k] == old(slot.isnull[k])
  {
    ghost var s := slot.At(off);
    slot.NullGroup(attnum);
    forall k | attnum <= k < attnum + 8 ensures !Present(t, k) {
      NoBitSet(k % 8);
    }
    AheadIsDeformed(cols, t, attnum, attnum, s, s);
    NullsAhead(cols, t, attnum, attnum, attnum + 8, s, s, slot.At(off));
    SkipNulls(cols, t, attnum, attnum, attnum + 8, attnum + 8, s, slot.At(off));
    AheadIsDeformed(cols, t, attnum, attnum + 8, s, slot.At(off));
  }

  // ---- The loop ----

  /** The dispatch table of the first natts columns. */
  function Table(cols: seq<Column>, natts: nat): (d: seq<Entry>)
    requires natts <= |cols|
    ensures |d| == natts
  {
    seq(natts, k requires 0 <= k < natts => EntryOf(cols[k]))
  }

  /** Where the loop goes on after a turn at column j.  A batch takes all its columns without a
      look at the limit, which is the number of columns the tuple stores. */
  function TurnEnd(d: seq<Entry>, t: Tuple, j: nat): (next: nat)
    requires j < |d|
    ensures j < next <= |d|
  {
    if Present(t, j) && BatchAt(d, j) > 0 then j + BatchAt(d, j) else j + 1
  }

  function AfterTurn(cols: seq<Column>, d: seq<Entry>, t: Tuple, j: nat, s: Slot): (r: Slot)
    requires ValidColumns(cols) && j < |d| <= |cols| && Room(s, |d|)
    ensures |r.values| == |s.values| && |r.isnull| == |s.isnull| && r.nvalid == s.nvalid
  {
    if Present(t, j) && BatchAt(d, j) > 0 then Batch(t, j, BatchAt(d, j), BatchWidth(d[j]), s)
    else DeformColumn(cols[j], t, j, s)
  }

  /** What the loop does from column j on. */
  function DispatchFrom(cols: seq<Column>, d: seq<Entry>, t: Tuple, j: nat, limit: nat, s: Slot): (r: Slot)
    requires ValidColumns(cols) && limit <= |d| <= |cols| && Room(s, |d|)
    ensures |r.values| == |s.values| && |r.isnull| == |s.isnull| && r.nvalid == s.nvalid
    decreases limit - j
  {
    if j >= limit then s else DispatchFrom(cols, d, t, TurnEnd(d, t, j), limit, AfterTurn(cols, d, t, j, s))
  }

  /** A batch that the loop starts in front of the limit ends behind it. */
  predicate Overruns(d: seq<Entry>, j: nat, limit: nat)
    requires limit <= |d|
    decreases limit - j
  {
    && j < limit
    && if BatchAt(d, j) > 0 then j + BatchAt(d, j) > limit || Overruns(d, j + BatchAt(d, j), limit)
       else Overruns(d, j + 1, limit)
  }

  lemma {:induction false} NoOverrunAtEnd(d: seq<Entry>, j: nat)
    ensures !Overruns(d, j, |d|)
    decreases |d| - j
  {
    if j < |d| {
      NoOverrunAtEnd(d, if BatchAt(d, j) > 0 then j + BatchAt(d, j) else j + 1);
    }
  }

  /** Where a batch overruns, the limit cuts a run of NOT NULL columns in two. */
  lemma {:induction false} OverrunCutsRun(d: seq<Entry>, j: nat, limit: nat)
    requires limit <= |d| && Overruns(d, j, limit)
    ensures 0 < limit < |d| && d[limit - 1] == d[limit] && Batchable(d[limit])
    decreases limit - j
  {
    if BatchAt(d, j) > 0 && j + BatchAt(d, j) > limit {
      RunIsUniform(d, j, limit - 1);
      RunIsUniform(d, j, limit);
    } else {
      OverrunCutsRun(d, if BatchAt(d, j) > 0 then j + BatchAt(d, j) else j + 1, limit);
    }
  }

  /** The columns of a batch have its width, and those the tuple stores are present. */
  lemma BatchInRun(cols: seq<Column>, t: Tuple, natts: nat, j: nat, k: nat)
    requires natts <= |cols| && ValidColumns(cols) && AllConforming(cols) && WellFormed(cols, t)
    requires j < natts && j <= k < j + BatchAt(Table(cols, natts), j)
    ensures SameWidth(cols[k], BatchWidth(Table(cols, natts)[j]))
    ensures k < t.natts ==> Present(t, k)
  {
    var d := Table(cols, natts);
    RunIsUniform(d, j, k);
    assert d[k] == EntryOf(cols[k]);
    assert Conforming(cols[k]);
  }

  /** The first column of a batch is present when it is stored. */
  lemma StoredIsPresent(cols: seq<Column>, t: Tuple, natts: nat, j: nat)
    requires natts <= |cols| && WellFormed(cols, t)
    requires j < natts && j < t.natts && BatchAt(Table(cols, natts), j) > 0
    ensures Present(t, j)
  {
    assert Table(cols, natts)[j] == EntryOf(cols[j]);
  }

  /** A batch with m columns in front of the limit: the reference if these are all, else its
      offset is behind that of the reference. */
  lemma BatchAgainstDeform(cols: seq<Column>, t: Tuple, natts: nat, j: nat, m: nat, s: Slot)
    requires natts <= |cols| && ValidColumns(cols) && AllConforming(cols) && WellFormed(cols, t) && Room(s, natts)
    requires j < natts && 0 < m <= BatchAt(Table(cols, natts), j) && j + m <= t.natts
    ensures var n, w := BatchAt(Table(cols, natts), j), BatchWidth(Table(cols, natts)[j]);
            var r := DeformLoop(cols, t, j, j + m, s);
            if m == n then Batch(t, j, n, w, s) == r else Batch(t, j, n, w, s).off > r.off
  {
    var n, w := BatchAt(Table(cols, natts), j), BatchWidth(Table(cols, natts)[j]);
    forall k | j <= k < j + m ensures SameWidth(cols[k], w) && Present(t, k) {
      BatchInRun(cols, t, natts, j, k);
    }
    BatchIsDeform(cols, t, j, m, w, s);
    if m < n {
      PlacesGrow(AlignUp(s.off, w), m, n, w);
    }
  }

  /** A turn is the reference up to the next column, or its batch overruns and leaves an offset
      behind that of the reference. */
  lemma TurnAgainstDeform(cols: seq<Column>, t: Tuple, natts: nat, j: nat, limit: nat, s: Slot)
    requires natts <= |cols| && ValidColumns(cols) && AllConforming(cols) && WellFormed(cols, t) && Room(s, natts)
    requires j < limit <= natts && limit <= t.natts
    ensures var d := Table(cols, natts);
            var next, r := TurnEnd(d, t, j), AfterTurn(cols, d, t, j, s);
            && next == (if BatchAt(d, j) > 0 then j + BatchAt(d, j) else j + 1)
            && if next <= limit then r == DeformLoop(cols, t, j, next, s)
               else r.off > DeformLoop(cols, t, j, limit, s).off
  {
    var d := Table(cols, natts);
    var n := BatchAt(d, j);
    if n == 0 {
      OneColumn(cols, t, j, s);
    } else {
      StoredIsPresent(cols, t, natts, j);
      var r := Batch(t, j, n, BatchWidth(d[j]), s);
      assert AfterTurn(cols, d, t, j, s) == r && TurnEnd(d, t, j) == j + n;
      BatchAgainstDeform(cols, t, natts, j, Min(n, limit - j), s);
    }
  }

  /** From column j on the loop is the reference exactly when no batch overruns; otherwise its
      offset is behind that of the reference. */
  lemma {:induction false} FromExactlyWhen(cols: seq<Column>, t: Tuple, natts: nat, j: nat, limit: nat, s: Slot)
    requires natts <= |cols| && ValidColumns(cols) && AllConforming(cols) && WellFormed(cols, t) && Room(s, natts)
    requires limit <= natts && limit <= t.natts
    ensures var d := Table(cols, natts);
            var r, ref := DispatchFrom(cols, d, t, j, limit, s), DeformLoop(cols, t, j, limit, s);
            if Overruns(d, j, limit) then r.off > ref.off else r == ref
    decreases limit - j
  {
    var d := Table(cols, natts);
    if j < limit {
      TurnAgainstDeform(cols, t, natts, j, limit, s);
      var next, r := TurnEnd(d, t, j), AfterTurn(cols, d, t, j, s);
      assert DispatchFrom(cols, d, t, j, limit, s) == DispatchFrom(cols, d, t, next, limit, r);
      if next <= limit {
        FromExactlyWhen(cols, t, natts, next, limit, r);
        LoopsCompose(cols, t, j, next, limit, s);
        assert Overruns(d, j, limit) == Overruns(d, next, limit);
      } else {
        assert Overruns(d, j, limit);
      }
    }
  }

  /** Columns that are absent are taken one by one. */
  lemma {:induction false} FromAbsent(cols: seq<Column>, d: seq<Entry>, t: Tuple, j: nat, next: nat, limit: nat,
                                      s: Slot)
    requires ValidColumns(cols) && limit <= |d| <= |cols| && Room(s, |d|) && j <= next <= limit
    requires forall k | j <= k < next :: !Present(t, k)
    ensures DispatchFrom(cols, d, t, j, limit, s) ==
            DispatchFrom(cols, d, t, next, limit, DeformLoop(cols, t, j, next, s))
    decreases next - j
  {
    if j < next {
      var s' := DeformColumn(cols[j], t, j, s);
      assert TurnEnd(d, t, j) == j + 1 && AfterTurn(cols, d, t, j, s) == s';
      FromAbsent(cols, d, t, j + 1, next, limit, s');
      assert DeformLoop(cols, t, j, next, s) == DeformLoop(cols, t, j + 1, next, s');
    }
  }

  /** What is known in front of column attnum. */
  ghost predicate Ready(slot: TableSlot, cols: seq<Column>, t: Tuple, d: seq<Entry>, bc: array<nat>, natts: nat,
                        attnum: nat)
    reads slot, slot.isnull, bc
  {
    && slot.Valid() && ValidColumns(cols) && AllConforming(cols) && natts <= |cols| && natts <= slot.values.Length
    && d == Table(cols, natts) && bc.Length == natts
    && (forall j | 0 <= j < natts :: bc[j] == BatchAt(d, j))
    && (forall k | attnum <= k < natts :: !slot.isnull[k])
  }

  /** What the flags say about the null bitmap. */
  predicate FlagsOk(cols: seq<Column>, t: Tuple, natts: nat, allNotNull: bool, hasNulls: bool)
    requires natts <= |cols|
  {
    && WellFormed(cols, t)
    && if allNotNull then forall k | 0 <= k < natts :: cols[k].notnull
       else if hasNulls then t.hasNulls else forall k: nat | k < natts :: Present(t, k)
  }

  /** A column that is present: alone or with its batch. */
  method TakePresent(slot: TableSlot, cols: seq<Column>, t: Tuple, d: seq<Entry>, bc: array<nat>, natts: nat,
                     attnum: nat, off0: nat) returns (next: nat, off: nat)
    requires Ready(slot, cols, t, d, bc, natts, attnum) && attnum < Min(natts, t.natts) && Present(t, attnum)
    modifies slot.values, slot.isnull
    ensures next == TurnEnd(d, t, attnum) && Ready(slot, cols, t, d, bc, natts, next)
    ensures slot.At(off) == AfterTurn(cols, d, t, attnum, old(slot.At(off0)))
  {
    var h := d[attnum].handler;
    if (h == HInt4 || h == HInt8) && bc[attnum] != 0 {
      off := RunBatch(slot, t, attnum, bc[attnum], BatchWidth(d[attnum]), off0);
      next := attnum + bc[attnum];
      return;
    }
    ConformingHandler(cols[attnum], t, attnum, slot.At(off0));
    off := RunHandler(slot, h, cols[attnum], t, attnum, off0);
    next := attnum + 1;
  }

  /** Eight absent columns at once. */
  method SkipEight(slot: TableSlot, cols: seq<Column>, t: Tuple, ghost d: seq<Entry>, ghost limit: nat, attnum: nat,
                   ghost off: nat)
    requires slot.Valid() && ValidColumns(cols) && limit <= |d| <= |cols| && |d| <= slot.values.Length
    requires attnum % 8 == 0 && attnum + 8 <= limit && t.hasNulls && BitmapByte(t, attnum / 8) == 0
    modifies slot.values, slot.isnull
    ensures DispatchFrom(cols, d, t, attnum + 8, limit, slot.At(off)) ==
            DispatchFrom(cols, d, t, attnum, limit, old(slot.At(off)))
    ensures forall k | attnum + 8 <= k < slot.isnull.Length :: slot.isnull[k] == old(slot.isnull[k])
  {
    ghost var s := slot.At(off);
    SkipGroup(slot, cols, t, attnum, off);
    forall k | attnum <= k < attnum + 8 ensures !Present(t, k) {
      NoBitSet(k % 8);
    }
    FromAbsent(cols, d, t, attnum, attnum + 8, limit, s);
  }

  /** One absent or present column, or a batch. */
  method TakeNext(slot: TableSlot, cols: seq<Column>, t: Tuple, d: seq<Entry>, bc: array<nat>, natts: nat, attnum: nat,
                  absent: bool, off0: nat) returns (next: nat, off: nat)
    requires Ready(slot, cols, t, d, bc, natts, attnum) && attnum < Min(natts, t.natts) && absent == !Present(t, attnum)
    modifies slot.values, slot.isnull
    ensures next == TurnEnd(d, t, attnum) && Ready(slot, cols, t, d, bc, natts, next)
    ensures slot.At(off) == AfterTurn(cols, d, t, attnum, old(slot.At(off0)))
  {
    if absent {
      slot.PutNull(attnum);
      assert slot.At(off0) == StoreNull(old(slot.At(off0)), attnum);
      assert forall k | attnum < k < natts :: slot.isnull[k] == slot.At(off0).isnull[k];
      return attnum + 1, off0;
    }
    next, off := TakePresent(slot, cols, t, d, bc, natts, attnum, off0);
  }

  /** One turn of the loop at column attnum. */
  method Turn(slot: TableSlot, cols: seq<Column>, t: Tuple, d: seq<Entry>, bc: array<nat>, allNotNull: bool,
              hasNulls: bool, natts: nat, attnum: nat, off0: nat) returns (next: nat, off: nat)
    requires Ready(slot, cols, t, d, bc, natts, attnum) && attnum < Min(natts, t.natts)
    requires FlagsOk(cols, t, natts, allNotNull, hasNulls)
    modifies slot.values, slot.isnull
    ensures attnum < next <= natts && Ready(slot, cols, t, d, bc, natts, next)
    ensures DispatchFrom(cols, d, t, next, Min(natts, t.natts), slot.At(off)) ==
            DispatchFrom(cols, d, t, attnum, Min(natts, t.natts), old(slot.At(off0)))
  {
    var limit := Min(natts, t.natts);
    if !allNotNull && natts >= 16 && attnum % 8 == 0 && hasNulls && attnum + 8 <= limit &&
       BitmapByte(t, attnum / 8) == 0 {
      SkipEight(slot, cols, t, d, limit, attnum, off0);
      return attnum + 8, off0;
    }
    var absent := !allNotNull && hasNulls && !BitSet(BitmapByte(t, attnum / 8), attnum % 8);
    next, off := TakeNext(slot, cols, t, d, bc, natts, attnum, absent, off0);
  }

  /** What the whole function computes: the null flags are cleared after the missing columns
      were filled in, then the loop runs. */
  function Cleared(from: nat, to: nat, s: Slot): Slot {
    s.(isnull := seq(|s.isnull|, k requires 0 <= k < |s.isnull| => if from <= k < to then false else s.isnull[k]))
  }

  /** The slot in front of the loop. */
  function LoopStart(cols: seq<Column>, t: Tuple, natts: nat, s: Slot): Slot
    requires natts <= |cols| && Room(s, natts)
  {
    var filled := if t.natts < natts then FillMissing(cols, t.natts, natts, s) else s;
    Cleared(s.nvalid, natts, if s.nvalid == 0 then filled.(off := 0) else filled)
  }

  function Dispatched(cols: seq<Column>, t: Tuple, natts: nat, s: Slot): Slot
    requires ValidColumns(cols) && natts <= |cols| && Room(s, natts)
  {
    DispatchFrom(cols, Table(cols, natts), t, s.nvalid, Min(natts, t.natts),
                 LoopStart(cols, t, natts, s)).(nvalid := natts)
  }

  /** The dispatch-table loop. */
  method DispatchLoop(slot: TableSlot, cols: seq<Column>, t: Tuple, natts: nat)
    requires slot.Valid() && ValidColumns(cols) && AllConforming(cols) && WellFormed(cols, t)
    requires natts <= |cols| && natts <= slot.values.Length && slot.nvalid <= natts
    modifies slot, slot.values, slot.isnull
    ensures slot.Contents() == Dispatched(cols, t, natts, old(slot.Contents()))
  {
    ghost var s0 := slot.Contents();
    var d, allNotNull := BuildTable(cols, natts);
    var bc := FindBatches(d);
    if t.natts < natts {
      slot.GetMissing(cols, t.natts, natts);
    }
    var off := if slot.nvalid == 0 then 0 else slot.off;
    ghost var filled := slot.At(off);
    forall k | slot.nvalid <= k < natts {
      slot.isnull[k] := false;
    }
    assert slot.isnull[..] == Cleared(slot.nvalid, natts, filled).isnull;
    assert slot.At(off) == LoopStart(cols, t, natts, s0);
    off := LoopBody(slot, cols, t, d, bc, allNotNull, natts, off);
    slot.nvalid := natts;
    slot.off := off;
  }

  method LoopBody(slot: TableSlot, cols: seq<Column>, t: Tuple, d: seq<Entry>, bc: array<nat>, allNotNull: bool,
                  natts: nat, off0: nat) returns (off: nat)
    requires Ready(slot, cols, t, d, bc, natts, slot.nvalid) && WellFormed(cols, t)
    requires allNotNull ==> forall k | 0 <= k < natts :: cols[k].notnull
    modifies slot.values, slot.isnull
    ensures slot.At(off) == DispatchFrom(cols, d, t, slot.nvalid, Min(natts, t.natts), old(slot.At(off0)))
  {
    off := off0;
    var limit := Min(natts, t.natts);
    ghost var target := DispatchFrom(cols, d, t, slot.nvalid, limit, slot.At(off));
    var hasNulls := t.hasNulls;
    if !allNotNull && hasNulls {
      var none := AllNotNull(t, natts);
      if none {
        hasNulls := false;
      }
    }
    var attnum := slot.nvalid;
    while attnum < limit
      invariant Ready(slot, cols, t, d, bc, natts, attnum)
      invariant target == DispatchFrom(cols, d, t, attnum, limit, slot.At(off))
    {
      attnum, off := Turn(slot, cols, t, d, bc, allNotNull, hasNulls, natts, attnum, off);
    }
  }

  method BuildTable(cols: seq<Column>, natts: nat) returns (d: seq<Entry>, allNotNull: bool)
    requires natts <= |cols|
    ensures d == Table(cols, natts)
    ensures allNotNull <==> forall k | 0 <= k < natts :: cols[k].notnull
  {
    d := [];
    allNotNull := true;
    var i := 0;
    while i < natts
      invariant 0 <= i <= natts && |d| == i
      invariant forall k {:trigger d[k]} | 0 <= k < i :: d[k] == EntryOf(cols[k])
      invariant allNotNull <==> forall k | 0 <= k < i :: cols[k].notnull
    {
      d := d + [EntryOf(cols[i])];
      if !cols[i].notnull {
        allNotNull := false;
      }
      i := i + 1;
    }
  }

  // ---- When the loop is the reference ----

  /** Without an overrun: each cell, beside what the reference leaves there. */
  lemma DispatchedCells(cols: seq<Column>, t: Tuple, natts: nat, s: Slot)
    requires ValidColumns(cols) && natts <= |cols| && Room(s, natts) && s.nvalid <= natts
    ensures var r := DeformLoop(cols, t, s.nvalid, Min(natts, t.natts), LoopStart(cols, t, natts, s)).(nvalid := natts);
            var d := Deform(cols, t, natts, s);
            && r.(isnull := d.isnull) == d
            && |r.isnull| == |d.isnull|
            && forall k | 0 <= k < |r.isnull| ::
                 r.isnull[k] == (d.isnull[k] && !(t.natts <= k < natts && s.nvalid <= k))
  {
    var start := LoopStart(cols, t, natts, s);
    LoopDeforms(cols, t, s.nvalid, Min(natts, t.natts), start);
    DeformCells(cols, t, natts, s);
    assert DeformLoop(cols, t, s.nvalid, Min(natts, t.natts), start).values == Deform(cols, t, natts, s).values;
  }

  lemma MissingIsNull(cols: seq<Column>, t: Tuple, natts: nat, s: Slot, k: nat)
    requires ValidColumns(cols) && natts <= |cols| && Room(s, natts) && s.nvalid <= natts
    requires t.natts <= k < natts && s.nvalid <= k
    ensures |Deform(cols, t, natts, s).isnull| >= natts
    ensures Deform(cols, t, natts, s).isnull[k] == cols[k].missing.None?
  {
    DeformCells(cols, t, natts, s);
  }

  /** Clearing the null flags after filling in the missing columns forgets that a missing
      column without a default is null. */
  lemma ClearedExactlyWhen(cols: seq<Column>, t: Tuple, natts: nat, s: Slot)
    requires ValidColumns(cols) && natts <= |cols| && Room(s, natts) && s.nvalid <= natts
    ensures DeformLoop(cols, t, s.nvalid, Min(natts, t.natts), LoopStart(cols, t, natts, s)).(nvalid := natts) ==
            Deform(cols, t, natts, s) <==>
            forall k | t.natts <= k < natts && s.nvalid <= k :: cols[k].missing.Some?
  {
    DispatchedCells(cols, t, natts, s);
    var r := DeformLoop(cols, t, s.nvalid, Min(natts, t.natts), LoopStart(cols, t, natts, s)).(nvalid := natts);
    var d := Deform(cols, t, natts, s);
    forall k | t.natts <= k < natts && s.nvalid <= k ensures d.isnull[k] == cols[k].missing.None? {
      MissingIsNull(cols, t, natts, s, k);
    }
    if forall k | t.natts <= k < natts && s.nvalid <= k :: cols[k].missing.Some? {
      assert r.isnull == d.isnull;
    } else {
      var k :| t.natts <= k < natts && s.nvalid <= k && !cols[k].missing.Some?;
      assert !r.isnull[k] && d.isnull[k];
    }
  }

  /** The loop leaves what the reference leaves if and only if every column that is not stored
      has a default and no batch runs over the last stored column. */
  lemma DispatchedExactlyWhen(cols: seq<Column>, t: Tuple, natts: nat, s: Slot)
    requires ValidColumns(cols) && AllConforming(cols) && WellFormed(cols, t)
    requires natts <= |cols| && Room(s, natts) && s.nvalid <= natts
    ensures Dispatched(cols, t, natts, s) == Deform(cols, t, natts, s) <==>
            && (forall k | t.natts <= k < natts && s.nvalid <= k :: cols[k].missing.Some?)
            && !Overruns(Table(cols, natts), s.nvalid, Min(natts, t.natts))
  {
    FromExactlyWhen(cols, t, natts, s.nvalid, Min(natts, t.natts), LoopStart(cols, t, natts, s));
    DispatchedCells(cols, t, natts, s);
    ClearedExactlyWhen(cols, t, natts, s);
  }

  /** When every column is stored, the loop is the reference. */
  lemma DispatchedWhenStored(cols: seq<Column>, t: Tuple, natts: nat, s: Slot)
    requires ValidColumns(cols) && AllConforming(cols) && WellFormed(cols, t)
    requires natts <= |cols| && Room(s, natts) && s.nvalid <= natts && natts <= t.natts
    ensures Dispatched(cols, t, natts, s) == Deform(cols, t, natts, s)
  {
    DispatchedExactlyWhen(cols, t, natts, s);
    NoOverrunAtEnd(Table(cols, natts), s.nvalid);
  }

  /** A text column and four NOT NULL integers, the last three added later with default 7. */
  function LateColumns(): seq<Column> {
    var added := Column(4, 4, true, true, Some(ByVal(7)), false);
    [Column(-1, 4, false, true, None, false), added.(missing := None), added, added, added]
  }

  /** A tuple from before: a text of four bytes and the number 9. */
  function EarlyTuple(): Tuple {
    Tuple(2, false, [], [5, 0, 0, 0, 9, 0, 0, 0], off => 4, off => 0)
  }

  lemma LateBatch()
    ensures BatchAt(Table(LateColumns(), 5), 0) == 0 && BatchAt(Table(LateColumns(), 5), 1) == 4
    ensures Overruns(Table(LateColumns(), 5), 0, 2)
  {
    RunEndIs(Table(LateColumns(), 5), 1, 5);
  }

  lemma EarlyLoads()
    ensures Load(EarlyTuple(), 4, 4) == 9
    ensures forall off | off >= 8 :: Load(EarlyTuple(), off, 4) == 0
  {
    var t := EarlyTuple();
    assert LoadUnsigned(t, 6, 2) == 0 && LoadUnsigned(t, 4, 4) == 9 && Power256(2) == 65536;
    forall off | off >= 8 ensures Load(t, off, 4) == 0 {
      assert LoadUnsigned(t, off + 2, 2) == 0 && LoadUnsigned(t, off, 4) == 0;
    }
  }

  /** The batch of four, from offset 4. */
  lemma FourLoads(s: Slot)
    requires Room(s, 5) && s.off == 4
    ensures var r := Batch(EarlyTuple(), 1, 4, 4, s);
            && r.off == 20 && r.values[0] == s.values[0] && r.values[1] == ByVal(9)
            && r.values[2] == ByVal(0) && r.values[3] == ByVal(0) && r.values[4] == ByVal(0)
  {
    EarlyLoads();
    assert Place(4, 1, 4) == 8 && Place(4, 2, 4) == 12 && Place(4, 3, 4) == 16 && Place(4, 4, 4) == 20;
  }

  lemma TextTurn(s: Slot)
    requires Room(s, 5) && s.off == 0
    ensures var d, t := Table(LateColumns(), 5), EarlyTuple();
            && TurnEnd(d, t, 0) == 1 && TurnEnd(d, t, 1) == 5
            && AfterTurn(LateColumns(), d, t, 0, s) ==
               s.(values := s.values[0 := Pointer(0)], isnull := s.isnull[0 := false], off := 4)
  {
    LateBatch();
  }

  /** Behind the text, the batch starts at the first integer and takes all four. */
  lemma LateTurns(s: Slot)
    requires Room(s, 5) && s.off == 0
    ensures var cols, t := LateColumns(), EarlyTuple();
            var r := DispatchFrom(cols, Table(cols, 5), t, 0, 2, s);
            && r.values[..5] == [Pointer(0), ByVal(9), ByVal(0), ByVal(0), ByVal(0)]
            && r.off == 20
  {
    var cols, t := LateColumns(), EarlyTuple();
    var d := Table(cols, 5);
    TextTurn(s);
    LateBatch();
    var s1 := AfterTurn(cols, d, t, 0, s);
    FourLoads(s1);
    assert AfterTurn(cols, d, t, 1, s1) == Batch(t, 1, 4, 4, s1);
    assert DispatchFrom(cols, d, t, 1, 2, s1) == AfterTurn(cols, d, t, 1, s1);
  }

  /** What the reference leaves. */
  lemma EarlyDeform(s: Slot)
    requires Room(s, 5) && s.nvalid == 0
    ensures var r := Deform(LateColumns(), EarlyTuple(), 5, s);
            && r.values[..5] == [Pointer(0), ByVal(9), ByVal(7), ByVal(7), ByVal(7)]
            && r.off == 8
  {
    EarlyLoads();
    DeformCells(LateColumns(), EarlyTuple(), 5, s);
    assert OffsetAt(LateColumns(), EarlyTuple(), 0, 0, 1) == 4 && OffsetAt(LateColumns(), EarlyTuple(), 0, 0, 2) == 8;
  }

  /** Every unstored column has its default, and yet the loop goes wrong: the batch replaces the
      three defaults by what stands behind the tuple (zeros here), and leaves an offset that is
      12 bytes too far. */
  lemma OverrunExample(s: Slot)
    requires Room(s, 5) && s.nvalid == 0
    ensures var cols, t := LateColumns(), EarlyTuple();
            && ValidColumns(cols) && AllConforming(cols) && WellFormed(cols, t)
            && Deform(cols, t, 5, s).values[..5] == [Pointer(0), ByVal(9), ByVal(7), ByVal(7), ByVal(7)]
            && Deform(cols, t, 5, s).off == 8
            && Dispatched(cols, t, 5, s).values[..5] == [Pointer(0), ByVal(9), ByVal(0), ByVal(0), ByVal(0)]
            && Dispatched(cols, t, 5, s).off == 20
  {
    EarlyDeform(s);
    LateTurns(LoopStart(LateColumns(), EarlyTuple(), 5, s));
  }
}
