/** Writing a row as a tuple, and reading back from the slot what was written. */
module TupleForm {
  import opened Tuples
  import opened Wrappers

  /** What a row has in a column: nothing, a number passed by value with its stored bytes, or bytes
      passed by reference.  A short varlena is not aligned. */
  datatype Field = Null | Number(x: int, b: seq<bv8>) | Bytes(b: seq<bv8>, short: bool)

  // ---- Numbers ----

  /** 256 ^ k */
  function Unit(k: nat): (u: nat)
    requires k <= 8
    ensures u > 0
  {
    match k
    case 0 => 1
    case 1 => 0x100
    case 2 => 0x1_0000
    case 3 => 0x100_0000
    case 4 => 0x1_0000_0000
    case 5 => 0x100_0000_0000
    case 6 => 0x1_0000_0000_0000
    case 7 => 0x100_0000_0000_0000
    case _ => 0x1_0000_0000_0000_0000
  }

  /** Byte k of the two's-complement form of x, the lowest being byte 0. */
  function ByteOf(x: int, k: nat): (b: nat)
    requires k < 8
    ensures b < 256
  {
    (x / Unit(k)) % 256
  }

  /** The numbers of a width. */
  predicate FitsWidth(x: int, width: int) {
    match width
    case 1 => -0x80 <= x < 0x80
    case 2 => -0x8000 <= x < 0x8000
    case 4 => -0x8000_0000 <= x < 0x8000_0000
    case 8 => -0x8000_0000_0000_0000 <= x < 0x8000_0000_0000_0000
    case _ => false
  }

  /** The two's-complement bytes of x. */
  predicate AreBytesOf(b: seq<bv8>, x: int) {
    |b| <= 8 && forall k: nat | k < |b| :: b[k] as nat == ByteOf(x, k)
  }

  /** The bytes of x stand at an offset. */
  predicate NumberAt(t: Tuple, off: nat, x: int, width: nat)
    requires width <= 8
  {
    forall k: nat | k < width :: ByteAt(t, off + k) as nat == ByteOf(x, k)
  }

  lemma NextByte(x: int, k: nat)
    requires k < 7
    ensures ByteOf(x / 256, k) == ByteOf(x, k + 1)
  {
  }

  lemma SplitRemainder(x: int, width: nat)
    requires 0 < width <= 8
    ensures x % Unit(width) == x % 256 + 256 * ((x / 256) % Unit(width - 1))
  {
  }

  lemma RestOfNumber(t: Tuple, off: nat, x: int, width: nat)
    requires 0 < width <= 8 && NumberAt(t, off, x, width)
    ensures ByteAt(t, off) as nat == x % 256
    ensures NumberAt(t, off + 1, x / 256, width - 1)
  {
    assert ByteAt(t, off + 0) as nat == ByteOf(x, 0);
    forall k: nat | k < width - 1 ensures ByteAt(t, off + 1 + k) as nat == ByteOf(x / 256, k) {
      NextByte(x, k);
      assert ByteAt(t, off + (k + 1)) as nat == ByteOf(x, k + 1);
    }
  }

  lemma {:induction false} UnsignedWritten(t: Tuple, off: nat, x: int, width: nat)
    requires width <= 8 && NumberAt(t, off, x, width)
    ensures LoadUnsigned(t, off, width) == x % Unit(width)
    decreases width
  {
    if width > 0 {
      RestOfNumber(t, off, x, width);
      UnsignedWritten(t, off + 1, x / 256, width - 1);
      SplitRemainder(x, width);
    }
  }

  lemma {:induction false} PowersAre(width: nat)
    requires width <= 8
    ensures Power256(width) == Unit(width)
  {
    if width > 0 {
      PowersAre(width - 1);
    }
  }

  /** The remainder with its sign. */
  lemma SignedBack(x: int, width: nat)
    requires FitsWidth(x, width)
    ensures var u := x % Unit(width);
            x == if 2 * u >= Unit(width) then u - Unit(width) else u
  {
    var u, m := x % Unit(width), Unit(width);
    if x >= 0 {
      assert u == x;
    } else {
      assert u == x + m;
    }
  }

  /** Loading the bytes of a number gives the number. */
  lemma LoadWritten(t: Tuple, off: nat, x: int, width: nat)
    requires FitsWidth(x, width) && NumberAt(t, off, x, width)
    ensures Load(t, off, width) == x
  {
    UnsignedWritten(t, off, x, width);
    PowersAre(width);
    SignedBack(x, width);
  }

  // ---- Alignment ----

  /** How many bytes of padding lead to the next multiple of a. */
  function Gap(off: nat, a: Alignment): (g: nat)
    ensures g < a
  {
    match a
    case 1 => 0
    case 2 => (2 - off % 2) % 2
    case 4 => (4 - off % 4) % 4
    case _ => (8 - off % 8) % 8
  }

  lemma RemaindersRepeat(off: int)
    ensures off % 2 == (off - 2) % 2
    ensures off % 4 == (off - 4) % 4
    ensures off % 8 == (off - 8) % 8
  {
  }

  lemma GapRepeats(off: nat, a: Alignment)
    requires off >= a
    ensures Gap(off, a) == Gap(off - a, a)
  {
    RemaindersRepeat(off);
  }

  /** Aligning an offset is padding up to it. */
  lemma {:induction false} AlignIsPadding(off: nat, a: Alignment)
    ensures AlignUp(off, a) == off + Gap(off, a)
    decreases off
  {
    if off > a {
      GapRepeats(off, a);
      AlignIsPadding(off - a, a);
    }
  }

  // ---- Rows ----

  function Zeros(n: nat): (z: seq<bv8>)
    ensures |z| == n
  {
    seq(n, i => 0)
  }

  /** The column can hold the field: a number of its width, bytes of its length, a varlena, or a C
      string with its end mark. */
  predicate FieldFits(c: Column, f: Field) {
    match f
    case Null => !c.notnull
    case Number(x, b) => c.byval && FitsWidth(x, c.attlen) && |b| == c.attlen && AreBytesOf(b, x)
    case Bytes(b, short) =>
      && !c.byval && b != []
      && (c.attlen > 0 ==> |b| == c.attlen)
      && (short ==> c.attlen == -1 && b[0] != 0)
  }

  predicate RowFits(cols: seq<Column>, row: seq<Field>) {
    |row| <= |cols| && forall i | 0 <= i < |row| :: FieldFits(cols[i], row[i])
  }

  /** The padding in front of a field. */
  function PadOf(c: Column, f: Field, off: nat): nat {
    if f.Null? || (f.Bytes? && f.short) then 0 else Gap(off, c.align)
  }

  /** The data area: the first n fields, each aligned. */
  function Written(cols: seq<Column>, row: seq<Field>, n: nat): seq<bv8>
    requires RowFits(cols, row) && n <= |row|
  {
    if n == 0 then []
    else
      var front, c, f := Written(cols, row, n - 1), cols[n - 1], row[n - 1];
      if f.Null? then front else front + Zeros(PadOf(c, f, |front|)) + f.b
  }

  /** Where field i stands. */
  function Place(cols: seq<Column>, row: seq<Field>, i: nat): nat
    requires RowFits(cols, row) && i < |row|
  {
    |Written(cols, row, i)| + PadOf(cols[i], row[i], |Written(cols, row, i)|)
  }

  /** The tuple stores the row: its data, a bitmap with a clear bit for each null (or none when
      there is no null), and the lengths of its varlenas and C strings. */
  predicate Stores(t: Tuple, cols: seq<Column>, row: seq<Field>) {
    && RowFits(cols, row) && t.natts == |row|
    && t.data == Written(cols, row, |row|)
    && (if t.hasNulls then |row| <= 8 * |t.bits| && forall i: nat | i < |row| :: BitShows(t, row, i)
        else forall i | 0 <= i < |row| :: !row[i].Null?)
    && forall i: nat | i < |row| && row[i].Bytes? :: LengthShows(t, cols, row, i)
  }

  predicate BitShows(t: Tuple, row: seq<Field>, i: nat)
    requires i < |row| <= 8 * |t.bits|
  {
    Bit(t.bits[i / 8], i % 8) == if row[i].Null? then 0 else 1
  }

  predicate LengthShows(t: Tuple, cols: seq<Column>, row: seq<Field>, i: nat)
    requires RowFits(cols, row) && i < |row| && row[i].Bytes?
  {
    && (cols[i].attlen == -1 ==> t.varsize(Place(cols, row, i)) == |row[i].b|)
    && (cols[i].attlen == -2 ==> t.cstrlen(Place(cols, row, i)) + 1 == |row[i].b|)
  }

  lemma BitIs(b: bv8, bit: nat)
    requires bit < 8
    ensures BitSet(b, bit) <==> Bit(b, bit) == 1
    ensures Bit(b, bit) == 0 || Bit(b, bit) == 1
  {
  }

  // ---- What the slot holds ----

  lemma PresentIs(t: Tuple, cols: seq<Column>, row: seq<Field>, i: nat)
    requires Stores(t, cols, row) && i < |row|
    ensures Present(t, i) <==> !row[i].Null?
  {
    if t.hasNulls {
      assert BitShows(t, row, i);
      BitIs(t.bits[i / 8], i % 8);
    }
  }

  /** A table's rows: nulls only where they are allowed, and every column that older rows must have
      too.  Such tuples are well-formed. */
  lemma StoredIsWellFormed(t: Tuple, cols: seq<Column>, row: seq<Field>)
    requires Stores(t, cols, row)
    requires forall i | 0 <= i < |cols| && cols[i].notnull && cols[i].missing.None? && !cols[i].dropped :: i < |row|
    ensures WellFormed(cols, t)
  {
    forall i | 0 <= i < |cols| && i < t.natts && cols[i].notnull ensures Present(t, i) {
      PresentIs(t, cols, row, i);
    }
  }

  lemma WrittenNext(cols: seq<Column>, row: seq<Field>, i: nat)
    requires RowFits(cols, row) && i < |row| && !row[i].Null?
    ensures var at := Place(cols, row, i);
            && |Written(cols, row, i + 1)| == at + |row[i].b|
            && Written(cols, row, i + 1)[at..] == row[i].b
            && (at > |Written(cols, row, i)| ==> Written(cols, row, i + 1)[|Written(cols, row, i)|] == 0)
  {
  }

  /** What is written stays. */
  lemma {:induction false} WrittenGrows(cols: seq<Column>, row: seq<Field>, i: nat, n: nat)
    requires RowFits(cols, row) && i <= n <= |row|
    ensures |Written(cols, row, i)| <= |Written(cols, row, n)|
    ensures Written(cols, row, n)[..|Written(cols, row, i)|] == Written(cols, row, i)
    decreases n
  {
    if i < n {
      WrittenGrows(cols, row, i, n - 1);
      var front := Written(cols, row, n - 1);
      assert Written(cols, row, n)[..|front|] == front;
    }
  }

  lemma EndOfPrefix(data: seq<bv8>, w: seq<bv8>, at: nat)
    requires at <= |w| <= |data| && data[..|w|] == w
    ensures data[at..|w|] == w[at..]
    ensures forall k | 0 <= k < |w| :: data[k] == w[k]
  {
    assert data[..|w|][at..] == data[at..|w|];
  }

  /** Field i in the data of the tuple. */
  lemma FieldInData(t: Tuple, cols: seq<Column>, row: seq<Field>, i: nat)
    requires Stores(t, cols, row) && i < |row| && !row[i].Null?
    ensures var at, b := Place(cols, row, i), row[i].b;
            && at + |b| <= |t.data| && t.data[at..at + |b|] == b
            && (at > |Written(cols, row, i)| ==> t.data[|Written(cols, row, i)|] == 0)
  {
    WrittenGrows(cols, row, i + 1, |row|);
    WrittenNext(cols, row, i);
    EndOfPrefix(t.data, Written(cols, row, i + 1), Place(cols, row, i));
  }

  /** The reader finds the place where the field was put. */
  lemma FoundAtPlace(t: Tuple, cols: seq<Column>, row: seq<Field>, i: nat)
    requires Stores(t, cols, row) && i < |row| && !row[i].Null?
    ensures AlignFor(t, cols[i], |Written(cols, row, i)|) == Place(cols, row, i)
  {
    var off, at, b := |Written(cols, row, i)|, Place(cols, row, i), row[i].b;
    FieldInData(t, cols, row, i);
    AlignIsPadding(off, cols[i].align);
    if row[i].Bytes? && row[i].short {
      assert t.data[at..at + |b|][0] == b[0];
    } else if at > off {
      assert t.data[off] == 0;
    }
  }

  lemma FetchedIsWritten(t: Tuple, cols: seq<Column>, row: seq<Field>, i: nat)
    requires Stores(t, cols, row) && i < |row| && row[i].Number? && ValidColumn(cols[i])
    ensures Fetch(t, cols[i], Place(cols, row, i)) == ByVal(row[i].x)
  {
    var at, x, width := Place(cols, row, i), row[i].x, cols[i].attlen;
    FieldInData(t, cols, row, i);
    forall k: nat | k < width ensures ByteAt(t, at + k) as nat == ByteOf(x, k) {
      assert t.data[at..at + width][k] == row[i].b[k];
    }
    LoadWritten(t, at, x, width);
  }

  /** One column further, reader and writer are at the same place again. */
  lemma StepIsWritten(t: Tuple, cols: seq<Column>, row: seq<Field>, i: nat)
    requires Stores(t, cols, row) && i < |row| && ValidColumn(cols[i])
    ensures StepOffset(cols[i], t, i, |Written(cols, row, i)|) == |Written(cols, row, i + 1)|
  {
    PresentIs(t, cols, row, i);
    if !row[i].Null? {
      FoundAtPlace(t, cols, row, i);
      WrittenNext(cols, row, i);
      if row[i].Bytes? {
        assert LengthShows(t, cols, row, i);
      }
    }
  }

  lemma {:induction false} OffsetIsWritten(t: Tuple, cols: seq<Column>, row: seq<Field>, i: nat)
    requires Stores(t, cols, row) && i <= |row| && ValidColumns(cols)
    ensures OffsetAt(cols, t, 0, 0, i) == |Written(cols, row, i)|
  {
    if i > 0 {
      OffsetIsWritten(t, cols, row, i - 1);
      StepIsWritten(t, cols, row, i - 1);
    }
  }

  /** What a cell of the slot should be: the number, a pointer to the bytes, or null; behind the
      row the value the column has in old rows. */
  predicate Shows(v: Datum, isnull: bool, t: Tuple, c: Column, row: seq<Field>, k: nat) {
    if k >= |row| then if c.missing.Some? then !isnull && v == c.missing.value else isnull && v == ByVal(0)
    else
      match row[k]
      case Null => isnull && v == ByVal(0)
      case Number(x, _) => !isnull && v == ByVal(x)
      case Bytes(b, _) => !isnull && v.Pointer? && v.off + |b| <= |t.data| && t.data[v.off..v.off + |b|] == b
  }

  lemma CellIsWritten(t: Tuple, cols: seq<Column>, row: seq<Field>, k: nat)
    requires Stores(t, cols, row) && k < |row| && ValidColumns(cols)
    ensures Shows(CellValue(cols[k], t, k, OffsetAt(cols, t, 0, 0, k)), !Present(t, k), t, cols[k], row, k)
  {
    OffsetIsWritten(t, cols, row, k);
    PresentIs(t, cols, row, k);
    if !row[k].Null? {
      FoundAtPlace(t, cols, row, k);
      if row[k].Number? {
        FetchedIsWritten(t, cols, row, k);
      } else {
        FieldInData(t, cols, row, k);
      }
    }
  }

  /** Deforming a stored row gives the row back, column by column. */
  lemma DeformReadsBack(t: Tuple, cols: seq<Column>, row: seq<Field>, natts: nat, s: Slot, k: nat)
    requires Stores(t, cols, row) && ValidColumns(cols) && k < natts <= |cols| && Room(s, natts) && s.nvalid == 0
    ensures var r := Deform(cols, t, natts, s);
            Shows(r.values[k], r.isnull[k], t, cols[k], row, k)
  {
    DeformCells(cols, t, natts, s);
    if k < |row| {
      CellIsWritten(t, cols, row, k);
    }
  }

  /** The bytes 00 01 00 00 are 256, FF FF FF FF are -1. */
  lemma NumberExample(t: Tuple)
    requires t.data == [0, 1, 0, 0, 0xFF, 0xFF, 0xFF, 0xFF]
    ensures Load(t, 0, 4) == 256 && Load(t, 4, 4) == -1
  {
    LoadWritten(t, 0, 256, 4);
    LoadWritten(t, 4, -1, 4);
  }
}
