/** The unrolled deform compiler (pg_jitter_compile_deform): one block of code per column,
    with alignment code dropped or folded to constants by a static analysis. */
module DeformUnrolled {
  import opened Tuples
  import opened Wrappers

  // ---- The emitted code ----

  /** One emitted operation; `off` is the byte offset kept on the stack. */
  datatype Instr =
    | SetOffset(k: nat)                 // off := k
    | LeaveIfAbsent(attnum: nat)        // attnum >= maxatt: go to the epilogue
    | NullCheck(attnum: nat)            // null bit clear: store a null and go to the next block
    | AlignOffset(a: Alignment)         // round off up
    | AlignUnlessShort(a: Alignment)    // round off up if the byte at off is padding
    | StoreByVal(attnum: nat, width: nat)
    | StorePointer(attnum: nat)
    | AddWidth(n: nat)
    | AddVarsize
    | AddCstring

  /** Blocks in column order; block i is also the entry for a slot that holds i columns. */
  datatype Code = Code(fillMissing: bool, blocks: seq<seq<Instr>>)

  datatype Exit = NextBlock | Epilogue

  function Store(s: Slot, i: nat, v: Datum): Slot {
    if i < |s.values| == |s.isnull| then s.(values := s.values[i := v], isnull := s.isnull[i := false]) else s
  }

  function RunBlock(code: seq<Instr>, t: Tuple, s: Slot): (Slot, Exit) {
    if code == [] then (s, NextBlock)
    else
      match code[0]
      case SetOffset(k) => RunBlock(code[1..], t, s.(off := k))
      case LeaveIfAbsent(attnum) => if attnum >= t.natts then (s, Epilogue) else RunBlock(code[1..], t, s)
      case NullCheck(attnum) =>
        if Present(t, attnum) then RunBlock(code[1..], t, s)
        else if attnum < |s.values| == |s.isnull| then (StoreNull(s, attnum), NextBlock)
        else (s, NextBlock)
      case AlignOffset(a) => RunBlock(code[1..], t, s.(off := AlignUp(s.off, a)))
      case AlignUnlessShort(a) =>
        RunBlock(code[1..], t, s.(off := if ByteAt(t, s.off) != 0 then s.off else AlignUp(s.off, a)))
      case StoreByVal(attnum, width) =>
        RunBlock(code[1..], t, Store(s, attnum, ByVal(Load(t, s.off, width))))
      case StorePointer(attnum) => RunBlock(code[1..], t, Store(s, attnum, Pointer(s.off)))
      case AddWidth(n) => RunBlock(code[1..], t, s.(off := s.off + n))
      case AddVarsize => RunBlock(code[1..], t, s.(off := s.off + t.varsize(s.off)))
      case AddCstring => RunBlock(code[1..], t, s.(off := s.off + t.cstrlen(s.off) + 1))
  }

  function RunFrom(blocks: seq<seq<Instr>>, i: nat, t: Tuple, s: Slot): Slot
    decreases |blocks| - i
  {
    if i >= |blocks| then s
    else
      var (s', exit) := RunBlock(blocks[i], t, s);
      if exit == Epilogue then s' else RunFrom(blocks, i + 1, t, s')
  }

  /** Prologue, entry at the number of columns the slot holds, epilogue. */
  function Run(code: Code, cols: seq<Column>, t: Tuple, s: Slot): Slot
    requires |code.blocks| <= |cols| && Room(s, |code.blocks|)
  {
    var natts := |code.blocks|;
    var filled := if code.fillMissing && t.natts < natts then FillMissing(cols, t.natts, natts, s) else s;
    RunFrom(code.blocks, s.nvalid, t, filled).(nvalid := natts)
  }

  // ---- The static analysis ----

  /** What is known about the offset in front of a column: nothing (known < 0), its value
      (exact), or a power of two that divides it. */
  datatype Known = Known(known: int, exact: bool)

  const START := Known(0, true)

  function TypeAlign(a: Alignment, k: int): int {
    if k < 0 then k else AlignUp(k, a)
  }

  predicate NeedsAlign(c: Column, known: int) {
    c.align > 1 && (known < 0 || known != TypeAlign(c.align, known))
  }

  /** The analysis at the alignment code of a column. */
  function AtValue(c: Column, k: Known): Known {
    Known(if NeedsAlign(c, k.known) then TypeAlign(c.align, k.known) else k.known,
          k.exact && c.notnull && !(NeedsAlign(c, k.known) && c.attlen == -1))
  }

  /** The analysis behind a column, from its state at the value. */
  function Behind(c: Column, k: Known): Known {
    if c.attlen < 0 then Known(-1, false)
    else if c.notnull && k.exact && k.known >= 0 then Known(k.known + c.attlen, true)
    else if c.notnull && Multiple(c.attlen, c.align) then Known(c.align, false)
    else Known(-1, false)
  }

  /** The block of one column, in three parts. */
  function EntryCode(c: Column, attnum: nat, guaranteed: int): seq<Instr> {
    (if attnum == 0 then [SetOffset(0)] else []) +
    (if attnum > guaranteed then [LeaveIfAbsent(attnum)] else []) +
    (if !c.notnull then [NullCheck(attnum)] else [])
  }

  function AlignStep(c: Column, k: Known): seq<Instr> {
    if !NeedsAlign(c, k.known) then []
    else if c.attlen == -1 then [AlignUnlessShort(c.align)]
    else [AlignOffset(c.align)]
  }

  function AlignCode(c: Column, k: Known): seq<Instr> {
    AlignStep(c, k) +
    (if AtValue(c, k).exact && AtValue(c, k).known >= 0 then [SetOffset(AtValue(c, k).known)] else [])
  }

  function ValueCode(c: Column, attnum: nat, k: Known): seq<Instr>
    requires ValidColumn(c)
  {
    var k' := Behind(c, AtValue(c, k));
    [if c.byval then StoreByVal(attnum, c.attlen) else StorePointer(attnum),
     if c.attlen > 0 then
       (if k'.exact && k'.known >= 0 then SetOffset(k'.known) else AddWidth(c.attlen))
     else if c.attlen == -1 then AddVarsize
     else AddCstring]
  }

  function BlockOf(c: Column, attnum: nat, guaranteed: int, k: Known): seq<Instr>
    requires ValidColumn(c)
  {
    EntryCode(c, attnum, guaranteed) + (AlignCode(c, k) + ValueCode(c, attnum, k))
  }

  /** The analysis in front of column i. */
  function KnownAt(cols: seq<Column>, i: nat): Known
    requires i <= |cols|
  {
    if i == 0 then START else Behind(cols[i - 1], AtValue(cols[i - 1], KnownAt(cols, i - 1)))
  }

  /** The last column that every tuple stores, -1 if there is none. */
  function Guaranteed(cols: seq<Column>, n: nat): (g: int)
    requires n <= |cols|
    ensures -1 <= g < n && (g >= 0 ==> AlwaysStored(cols[g]))
  {
    if n == 0 then -1 else if AlwaysStored(cols[n - 1]) then n - 1 else Guaranteed(cols, n - 1)
  }

  // ---- The analysis is right ----

  /** What the analysis claims about the offset in front of a column. */
  predicate Describes(k: Known, off: nat) {
    && (k.exact ==> k.known >= 0 && off == k.known)
    && (!k.exact && k.known >= 0 ==>
          (k.known == 1 || k.known == 2 || k.known == 4 || k.known == 8) && Multiple(off, k.known))
  }

  /** The same behind the null check, where an exact offset may have lost its flag. */
  predicate DescribesValue(k: Known, off: nat) {
    k.known < 0 || off == k.known ||
    ((k.known == 1 || k.known == 2 || k.known == 4 || k.known == 8) && Multiple(off, k.known))
  }

  /** Dropping the alignment code is sound. */
  lemma ElidedAlign(c: Column, k: Known, off: nat)
    requires DescribesValue(k, off) && !NeedsAlign(c, k.known)
    ensures AlignUp(off, c.align) == off
  {
    AlignUpIs(off, c.align);
    if c.align > 1 {
      AlignUpIs(k.known, c.align);
      assert Multiple(k.known, c.align);
      MultipleOfMultiple(c.align, k.known, off);
    }
  }

  lemma {:induction false} MultipleOfMultiple(a: Alignment, k: int, off: nat)
    requires k >= 0 && Multiple(k, a)
    requires off == k || ((k == 1 || k == 2 || k == 4 || k == 8) && Multiple(off, k))
    ensures Multiple(off, a)
    decreases off
  {
    if off != k && off >= k {
      MultipleOfMultiple(a, k, off - k);
      MultiplesAdd(k, off - k, a);
    }
  }

  /** An offset claimed exactly is the offset the column really has. */
  lemma ExactAtValue(c: Column, k: Known, t: Tuple, off: nat)
    requires Describes(k, off) && AtValue(c, k).exact
    ensures AtValue(c, k).known == AlignFor(t, c, off)
  {
    if !NeedsAlign(c, k.known) {
      ElidedAlign(c, k, off);
    }
  }

  /** Behind a present column the analysis describes the new offset. */
  lemma BehindDescribes(c: Column, k: Known, t: Tuple, off: nat)
    requires ValidColumn(c) && Describes(k, off)
    ensures Describes(Behind(c, AtValue(c, k)), Advance(t, c, AlignFor(t, c, off)))
  {
    var v := AtValue(c, k);
    if c.attlen < 0 {
    } else if c.notnull && v.exact && v.known >= 0 {
      ExactAtValue(c, k, t, off);
    } else if c.notnull && Multiple(c.attlen, c.align) {
      AlignUpIs(off, c.align);
      MultiplesAdd(AlignUp(off, c.align), c.attlen, c.align);
    }
  }

  // ---- A block deforms its column ----

  lemma RunOptional(cond: bool, instr: Instr, rest: seq<Instr>, t: Tuple, s: Slot)
    ensures RunBlock((if cond then [instr] else []) + rest, t, s) ==
            if cond then RunBlock([instr] + rest, t, s) else RunBlock(rest, t, s)
  {
    if !cond {
      assert [] + rest == rest;
    }
  }

  lemma EntryRuns(c: Column, attnum: nat, guaranteed: int, rest: seq<Instr>, t: Tuple, s: Slot)
    requires attnum < |s.values| == |s.isnull|
    ensures var s0 := if attnum == 0 then s.(off := 0) else s;
            RunBlock(EntryCode(c, attnum, guaranteed) + rest, t, s) ==
            if attnum > guaranteed && attnum >= t.natts then (s0, Epilogue)
            else if !c.notnull && !Present(t, attnum) then (StoreNull(s0, attnum), NextBlock)
            else RunBlock(rest, t, s0)
  {
    var s0 := if attnum == 0 then s.(off := 0) else s;
    var check: seq<Instr> := if !c.notnull then [NullCheck(attnum)] else [];
    var leave: seq<Instr> := if attnum > guaranteed then [LeaveIfAbsent(attnum)] else [];
    var r2 := check + rest;
    var r1 := leave + r2;
    var zero: seq<Instr> := if attnum == 0 then [SetOffset(0)] else [];
    assert EntryCode(c, attnum, guaranteed) + rest == zero + r1;
    RunOptional(attnum == 0, SetOffset(0), r1, t, s);
    assert ([SetOffset(0)] + r1)[1..] == r1;
    RunOptional(attnum > guaranteed, LeaveIfAbsent(attnum), r2, t, s0);
    assert ([LeaveIfAbsent(attnum)] + r2)[1..] == r2;
    RunOptional(!c.notnull, NullCheck(attnum), rest, t, s0);
    assert ([NullCheck(attnum)] + rest)[1..] == rest;
  }

  /** The alignment instructions in front of the constant store. */
  lemma AlignStepRuns(c: Column, k: Known, rest: seq<Instr>, t: Tuple, s: Slot)
    requires ValidColumn(c) && Describes(k, s.off)
    ensures RunBlock(AlignStep(c, k) + rest, t, s) == RunBlock(rest, t, s.(off := AlignFor(t, c, s.off)))
  {
    if !NeedsAlign(c, k.known) {
      ElidedAlign(c, k, s.off);
      assert [] + rest == rest;
      assert s.(off := AlignFor(t, c, s.off)) == s;
    } else if c.attlen == -1 {
      assert ([AlignUnlessShort(c.align)] + rest)[1..] == rest;
    } else {
      assert ([AlignOffset(c.align)] + rest)[1..] == rest;
    }
  }

  lemma AlignRuns(c: Column, k: Known, rest: seq<Instr>, t: Tuple, s: Slot)
    requires ValidColumn(c) && Describes(k, s.off)
    ensures RunBlock(AlignCode(c, k) + rest, t, s) == RunBlock(rest, t, s.(off := AlignFor(t, c, s.off)))
  {
    var v := AtValue(c, k);
    var s1 := s.(off := AlignFor(t, c, s.off));
    var store := v.exact && v.known >= 0;
    var fold: seq<Instr> := if store then [SetOffset(v.known)] else [];
    assert AlignCode(c, k) + rest == AlignStep(c, k) + (fold + rest);
    AlignStepRuns(c, k, fold + rest, t, s);
    if store {
      ExactAtValue(c, k, t, s.off);
      assert ([SetOffset(v.known)] + rest)[1..] == rest;
      assert s1.(off := v.known) == s1;
    } else {
      assert fold + rest == rest;
    }
  }

  lemma ValueRuns(c: Column, attnum: nat, k: Known, t: Tuple, off: nat, s: Slot)
    requires ValidColumn(c) && Describes(k, off) && attnum < |s.values| == |s.isnull|
    requires s.off == AlignFor(t, c, off)
    ensures RunBlock(ValueCode(c, attnum, k), t, s) ==
            (Store(s, attnum, Fetch(t, c, s.off)).(off := Advance(t, c, s.off)), NextBlock)
  {
    var code := ValueCode(c, attnum, k);
    BehindDescribes(c, k, t, off);
    var s1 := Store(s, attnum, Fetch(t, c, s.off));
    assert RunBlock(code, t, s) == RunBlock(code[1..], t, s1);
    assert code[1..][1..] == [];
    assert RunBlock(code[1..], t, s1) == RunBlock(code[1..][1..], t, s1.(off := Advance(t, c, s.off)));
  }

  /** The block of a stored column does what the reference does. */
  lemma BlockDeforms(c: Column, attnum: nat, guaranteed: int, k: Known, t: Tuple, s: Slot)
    requires ValidColumn(c) && attnum < |s.values| == |s.isnull|
    requires Describes(k, if attnum == 0 then 0 else s.off)
    requires attnum < t.natts && (c.notnull ==> Present(t, attnum))
    ensures RunBlock(BlockOf(c, attnum, guaranteed, k), t, s) ==
            (DeformColumn(c, t, attnum, if attnum == 0 then s.(off := 0) else s), NextBlock)
  {
    var s0 := if attnum == 0 then s.(off := 0) else s;
    EntryRuns(c, attnum, guaranteed, AlignCode(c, k) + ValueCode(c, attnum, k), t, s);
    if Present(t, attnum) {
      AlignRuns(c, k, ValueCode(c, attnum, k), t, s0);
      ValueRuns(c, attnum, k, t, s0.off, s0.(off := AlignFor(t, c, s0.off)));
    }
  }

  /** The block of a column that is not stored leaves at once. */
  lemma BlockLeaves(c: Column, attnum: nat, guaranteed: int, k: Known, t: Tuple, s: Slot)
    requires ValidColumn(c) && attnum < |s.values| == |s.isnull|
    requires attnum > guaranteed && attnum >= t.natts
    ensures RunBlock(BlockOf(c, attnum, guaranteed, k), t, s) == (if attnum == 0 then s.(off := 0) else s, Epilogue)
  {
    EntryRuns(c, attnum, guaranteed, AlignCode(c, k) + ValueCode(c, attnum, k), t, s);
  }

  // ---- The whole function ----

  predicate Emitted(blocks: seq<seq<Instr>>, cols: seq<Column>, natts: nat)
    requires ValidColumns(cols) && natts <= |cols|
  {
    EmittedTo(blocks, cols, natts, natts)
  }

  predicate EmittedTo(blocks: seq<seq<Instr>>, cols: seq<Column>, natts: nat, n: nat)
    requires ValidColumns(cols) && n <= natts <= |cols|
  {
    && |blocks| == n
    && forall i {:trigger blocks[i]} | 0 <= i < n ::
         blocks[i] == BlockOf(cols[i], i, Guaranteed(cols, natts), KnownAt(cols, i))
  }

  lemma EmittedNext(blocks: seq<seq<Instr>>, cols: seq<Column>, natts: nat, n: nat, block: seq<Instr>)
    requires ValidColumns(cols) && n < natts <= |cols| && EmittedTo(blocks, cols, natts, n)
    requires block == BlockOf(cols[n], n, Guaranteed(cols, natts), KnownAt(cols, n))
    ensures EmittedTo(blocks + [block], cols, natts, n + 1)
  {
  }

  lemma {:induction false} KnownDescribes(cols: seq<Column>, t: Tuple, i: nat)
    requires ValidColumns(cols) && WellFormed(cols, t) && i <= |cols| && i <= t.natts
    ensures Describes(KnownAt(cols, i), OffsetAt(cols, t, 0, 0, i))
  {
    if i > 0 {
      KnownDescribes(cols, t, i - 1);
      var c := cols[i - 1];
      var off := OffsetAt(cols, t, 0, 0, i - 1);
      if Present(t, i - 1) {
        BehindDescribes(c, KnownAt(cols, i - 1), t, off);
      }
    }
  }

  lemma {:induction false} BlocksDeform(blocks: seq<seq<Instr>>, cols: seq<Column>, natts: nat, t: Tuple, i: nat,
                                        s: Slot)
    requires ValidColumns(cols) && WellFormed(cols, t) && natts <= |cols| && Room(s, natts)
    requires Emitted(blocks, cols, natts) && i <= natts
    requires 0 < i <= t.natts ==> s.off == OffsetAt(cols, t, 0, 0, i)
    ensures RunFrom(blocks, i, t, s) ==
            DeformLoop(cols, t, i, Min(natts, t.natts), if i == 0 && natts > 0 then s.(off := 0) else s)
    decreases natts - i
  {
    if i < natts {
      var g := Guaranteed(cols, natts);
      if i < t.natts {
        KnownDescribes(cols, t, i);
        BlockDeforms(cols[i], i, g, KnownAt(cols, i), t, s);
        var s' := RunBlock(blocks[i], t, s).0;
        BlocksDeform(blocks, cols, natts, t, i + 1, s');
      } else {
        BlockLeaves(cols[i], i, g, KnownAt(cols, i), t, s);
      }
    }
  }

  /** A slot the code may be entered with: the offset is where the columns held so far end. */
  predicate Resumable(cols: seq<Column>, t: Tuple, s: Slot)
    requires ValidColumns(cols)
  {
    0 < s.nvalid <= t.natts && s.nvalid <= |cols| ==> s.off == OffsetAt(cols, t, 0, 0, s.nvalid)
  }

  /** The emitted code and the reference leave the same slot: values, null flags, offset. */
  lemma CodeDeforms(code: Code, cols: seq<Column>, natts: nat, t: Tuple, s: Slot)
    requires ValidColumns(cols) && WellFormed(cols, t) && 0 < natts <= |cols| && Room(s, natts)
    requires Emitted(code.blocks, cols, natts) && code.fillMissing == (natts - 1 > Guaranteed(cols, natts))
    requires Resumable(cols, t, s)
    ensures Run(code, cols, t, s) == Deform(cols, t, natts, s)
  {
    if t.natts < natts {
      assert code.fillMissing;
    }
    var filled := if t.natts < natts then FillMissing(cols, t.natts, natts, s) else s;
    if s.nvalid <= natts {
      BlocksDeform(code.blocks, cols, natts, t, s.nvalid, filled);
    }
  }

  /** The slot it leaves may be entered again, for more columns. */
  lemma DeformedIsResumable(cols: seq<Column>, t: Tuple, natts: nat, s: Slot)
    requires ValidColumns(cols) && 0 < natts <= |cols| && Room(s, natts) && s.nvalid <= natts
    requires Resumable(cols, t, s)
    ensures Resumable(cols, t, Deform(cols, t, natts, s))
  {
    DeformCells(cols, t, natts, s);
    if natts <= t.natts && s.nvalid > 0 {
      OffsetsCompose(cols, t, 0, s.nvalid, 0, natts);
    }
  }

  // ---- The compiler ----

  /** pg_jitter_compile_deform; None when a by-value column has a width it cannot load. */
  method Compile(cols: seq<Column>, natts: nat) returns (r: Option<Code>)
    requires ValidColumns(cols)
    ensures r.None? <==>
            natts == 0 || natts > |cols| ||
            exists i | 0 <= i < natts :: cols[i].byval && cols[i].attlen !in {1, 2, 4, 8}
    ensures r.Some? ==> forall t: Tuple, s: Slot | WellFormed(cols, t) && Room(s, natts) && Resumable(cols, t, s) ::
              |r.value.blocks| == natts && Run(r.value, cols, t, s) == Deform(cols, t, natts, s)
  {
    if natts == 0 || natts > |cols| {
      return None;
    }
    var guaranteed := -1;
    var attnum := 0;
    while attnum < natts
      invariant 0 <= attnum <= natts
      invariant guaranteed == Guaranteed(cols, attnum)
    {
      if cols[attnum].notnull && cols[attnum].missing.None? && !cols[attnum].dropped {
        guaranteed := attnum;
      }
      attnum := attnum + 1;
    }
    var blocks := EmitBlocks(cols, natts, guaranteed);
    if blocks.None? {
      return None;
    }
    var code := Code(natts - 1 > guaranteed, blocks.value);
    forall t: Tuple, s: Slot | WellFormed(cols, t) && Room(s, natts) && Resumable(cols, t, s)
      ensures Run(code, cols, t, s) == Deform(cols, t, natts, s)
    {
      CodeDeforms(code, cols, natts, t, s);
    }
    return Some(code);
  }

  /** The emission loop, with its two running facts about the offset. */
  method EmitBlocks(cols: seq<Column>, natts: nat, guaranteed: int) returns (r: Option<seq<seq<Instr>>>)
    requires ValidColumns(cols) && natts <= |cols| && guaranteed == Guaranteed(cols, natts)
    ensures r.None? <==> exists i | 0 <= i < natts :: !Compilable(cols[i])
    ensures r.Some? ==> Emitted(r.value, cols, natts)
  {
    var blocks: seq<seq<Instr>> := [];
    var knownAlignment, attguaranteedalign := 0, true;
    var attnum := 0;
    while attnum < natts
      invariant 0 <= attnum <= natts && |blocks| == attnum
      invariant Known(knownAlignment, attguaranteedalign) == KnownAt(cols, attnum)
      invariant forall i | 0 <= i < attnum :: Compilable(cols[i])
      invariant EmittedTo(blocks, cols, natts, attnum)
    {
      var block;
      var ok;
      block, ok, knownAlignment, attguaranteedalign :=
        EmitBlock(cols[attnum], attnum, guaranteed, knownAlignment, attguaranteedalign);
      if !ok {
        return None;
      }
      EmittedNext(blocks, cols, natts, attnum, block);
      blocks := blocks + [block];
      attnum := attnum + 1;
    }
    return Some(blocks);
  }

  method EmitEntry(c: Column, attnum: nat, guaranteed: int) returns (block: seq<Instr>)
    ensures block == EntryCode(c, attnum, guaranteed)
  {
    block := [];
    if attnum == 0 {
      block := block + [SetOffset(0)];
    }
    if attnum > guaranteed {
      block := block + [LeaveIfAbsent(attnum)];
    }
    if !c.notnull {
      block := block + [NullCheck(attnum)];
    }
  }

  method EmitAlign(c: Column, knownAlignment0: int, attguaranteedalign0: bool)
      returns (align: seq<Instr>, knownAlignment: int, attguaranteedalign: bool)
    ensures align == AlignCode(c, Known(knownAlignment0, attguaranteedalign0))
    ensures Known(knownAlignment, attguaranteedalign) == AtValue(c, Known(knownAlignment0, attguaranteedalign0))
  {
    knownAlignment, attguaranteedalign := knownAlignment0, attguaranteedalign0;
    if !c.notnull {
      attguaranteedalign := false;
    }
    align := [];
    if c.align > 1 && (knownAlignment < 0 || knownAlignment != TypeAlign(c.align, knownAlignment)) {
      if c.attlen == -1 {
        attguaranteedalign := false;
        align := align + [AlignUnlessShort(c.align)];
      } else {
        align := align + [AlignOffset(c.align)];
      }
      if knownAlignment >= 0 {
        knownAlignment := TypeAlign(c.align, knownAlignment);
      }
    }
    if attguaranteedalign && knownAlignment >= 0 {
      align := align + [SetOffset(knownAlignment)];
    }
  }

  /** The store, the advance, and what is known behind the column. */
  method EmitValue(c: Column, attnum: nat, knownAlignment0: int, attguaranteedalign0: bool, ghost k: Known)
      returns (code: seq<Instr>, knownAlignment: int, attguaranteedalign: bool)
    requires ValidColumn(c) && Known(knownAlignment0, attguaranteedalign0) == AtValue(c, k)
    ensures code == ValueCode(c, attnum, k)
    ensures Known(knownAlignment, attguaranteedalign) == Behind(c, AtValue(c, k))
  {
    knownAlignment, attguaranteedalign := knownAlignment0, attguaranteedalign0;
    var store := if c.byval then StoreByVal(attnum, c.attlen) else StorePointer(attnum);
    if c.attlen < 0 {
      knownAlignment, attguaranteedalign := -1, false;
    } else if c.notnull && attguaranteedalign && knownAlignment >= 0 {
      knownAlignment := knownAlignment + c.attlen;
    } else if c.notnull && Multiple(c.attlen, c.align) {
      knownAlignment, attguaranteedalign := c.align, false;
    } else {
      knownAlignment, attguaranteedalign := -1, false;
    }
    var advance;
    if c.attlen > 0 {
      if attguaranteedalign && knownAlignment >= 0 {
        advance := SetOffset(knownAlignment);
      } else {
        advance := AddWidth(c.attlen);
      }
    } else if c.attlen == -1 {
      advance := AddVarsize;
    } else {
      advance := AddCstring;
    }
    return [store, advance], knownAlignment, attguaranteedalign;
  }

  /** One pass through the emission loop. */
  method EmitBlock(c: Column, attnum: nat, guaranteed: int, knownAlignment0: int, attguaranteedalign0: bool)
      returns (block: seq<Instr>, ok: bool, knownAlignment: int, attguaranteedalign: bool)
    requires ValidColumn(c)
    ensures ok <==> Compilable(c)
    ensures ok ==> block == BlockOf(c, attnum, guaranteed, Known(knownAlignment0, attguaranteedalign0))
    ensures ok ==> Known(knownAlignment, attguaranteedalign) ==
                   Behind(c, AtValue(c, Known(knownAlignment0, attguaranteedalign0)))
  {
    block := EmitEntry(c, attnum, guaranteed);
    var align, value;
    align, knownAlignment, attguaranteedalign := EmitAlign(c, knownAlignment0, attguaranteedalign0);
    if c.byval && c.attlen != 1 && c.attlen != 2 && c.attlen != 4 && c.attlen != 8 {
      ok := false;
      return;
    }
    ok := true;
    value, knownAlignment, attguaranteedalign :=
      EmitValue(c, attnum, knownAlignment, attguaranteedalign, Known(knownAlignment0, attguaranteedalign0));
    block := block + (align + value);
  }
}
