/** The words of the relocation pass as the 32-bit instructions they stand for, and what it does to
    the numbers in them. */
module RelocateForm {
  import opened RelocateWords
  import opened Relocate

  function Operation(w: bv32): bv11 {
    (w >> 21) as bv11
  }

  function Immediate(w: bv32): bv16 {
    ((w >> 5) & 0xFFFF) as bv16
  }

  function Register(w: bv32): bv5 {
    (w & 0x1F) as bv5
  }

  /** The three fields of an instruction. */
  function Fields(w: bv32): Word {
    Word(Operation(w) as nat, Immediate(w) as nat, Register(w) as nat)
  }

  lemma SameOperation(a: bv11, b: bv11)
    ensures a as nat == b as nat <==> a == b
  {
    assert (a as nat) as bv11 == a && (b as nat) as bv11 == b;
  }

  lemma SameRegister(a: bv5, b: bv5)
    ensures a as nat == b as nat <==> a == b
  {
    assert (a as nat) as bv5 == a && (b as nat) as bv5 == b;
  }

  /** The masks and words the pass compares with. */
  lemma RunExactlyWhen(w0: bv32, w1: bv32, w2: bv32, w3: bv32)
    ensures Run([Fields(w0), Fields(w1), Fields(w2), Fields(w3)], 0) <==>
            && w0 & 0xFFE0_0000 == 0xD280_0000
            && w1 & 0xFFE0_001F == 0xF2A0_0000 | (w0 & 0x1F)
            && w2 & 0xFFE0_001F == 0xF2C0_0000 | (w0 & 0x1F)
            && w3 & 0xFFE0_001F == 0xF2E0_0000 | (w0 & 0x1F)
  {
    SameOperation(Operation(w0), 0x694);
    SameOperation(Operation(w1), 0x795);
    SameOperation(Operation(w2), 0x796);
    SameOperation(Operation(w3), 0x797);
    SameRegister(Register(w1), Register(w0));
    SameRegister(Register(w2), Register(w0));
    SameRegister(Register(w3), Register(w0));
  }

  lemma BranchImmediate(imm: bv16)
    ensures 0xF800 <= imm as nat < 0xF820 <==> imm & 0xFFE0 == 0xF800
  {
    assert 0xF800 <= imm as nat <==> 0xF800 <= imm;
    assert imm as nat < 0xF820 <==> imm < 0xF820;
  }

  lemma CallExactlyWhen(w: bv32, w0: bv32)
    ensures SeenAsCall(Fields(w), Register(w0) as nat) <==>
            || w & 0xFFFF_FC1F == 0xD63F_0000 | (w0 & 0x1F)
            || w & 0xFFFF_FC1F == 0xD61F_0000 | (w0 & 0x1F)
  {
    SameOperation(Operation(w), 0x6B1);
    SameOperation(Operation(w), 0x6B0);
    SameRegister(Register(w), Register(w0));
    BranchImmediate(Immediate(w));
  }

  // ---- The numbers ----

  /** The constant of a run: sixteen bits in each word, the lowest first. */
  lemma ConstantIs(ws: seq<Word>, i: nat)
    requires i + 3 < |ws|
    ensures Value(Target(ws, i)) ==
            ws[i].imm + 65536 * ws[i + 1].imm + 4294967296 * ws[i + 2].imm + 281474976710656 * ws[i + 3].imm
  {
  }

  /** What is added to addresses: the distance of the two processes' references, modulo 2 ^ 64. */
  lemma DeltaIs(leader: Address, worker: Address)
    ensures var d := Value(worker) - Value(leader);
            Value(Minus(worker, leader)) == if d < 0 then d + 18446744073709551616 else d
  {
    SumGivesBack(leader, Minus(worker, leader), worker);
  }

  lemma SumGivesBack(leader: Address, delta: Address, worker: Address)
    requires delta == Minus(worker, leader)
    ensures var sum := Value(leader) + Value(delta);
            Value(worker) == if sum < LIMIT then sum else sum - LIMIT
  {
    MinusMoves(worker, leader);
    MovedValue(leader, delta);
  }

  lemma MinusMoves(worker: Address, leader: Address)
    ensures Moved(leader, Minus(worker, leader)) == worker
  {
  }

  /** On success the constant in front of every call that is seen has moved by that distance. */
  lemma NumberMoves(ws: seq<Word>, ws': seq<Word>, helpers: seq<Address>, leader: Address, worker: Address, n: int,
                    i: nat)
    requires Outcome(ws, ws', helpers, Minus(worker, leader), n) && n >= 0 && Site(ws, i)
    ensures var x := Value(Target(ws, i)) + Value(worker) - Value(leader);
            Value(Target(ws', i)) ==
            if x < 0 then x + 18446744073709551616 else if x < 18446744073709551616 then x else x - 18446744073709551616
  {
    var delta := Minus(worker, leader);
    SuccessMeans(ws, ws', helpers, delta, n, i);
    MovedValue(Target(ws, i), delta);
    DeltaIs(leader, worker);
  }

  lemma SplitSum(a: nat, x: int, b: nat, y: int)
    requires a < 65536 && b < 65536 && a + 65536 * x == b + 65536 * y
    ensures a == b && x == y
  {
  }

  lemma SameValue(a: Address, b: Address)
    requires Value(a) == Value(b)
    ensures a == b
  {
    SplitSum(a.b0, a.b1 + 65536 * (a.b2 + 65536 * a.b3), b.b0, b.b1 + 65536 * (b.b2 + 65536 * b.b3));
    SplitSum(a.b1, a.b2 + 65536 * a.b3, b.b1, b.b2 + 65536 * b.b3);
    SplitSum(a.b2, a.b3, b.b2, b.b3);
  }

  /** Some helper that is not the null address has the number v. */
  ghost predicate HelperAt(helpers: seq<Address>, v: int) {
    v != 0 && exists h :: h in helpers && Value(h) == v
  }

  lemma InHelpers(helpers: seq<Address>, m: Address)
    ensures m != NULL && m in helpers <==> HelperAt(helpers, Value(m))
  {
    if m != NULL && Value(m) == 0 {
      SameValue(m, NULL);
    }
    if h :| h in helpers && Value(h) == Value(m) {
      SameValue(h, m);
    }
  }

  /** An address is known when a helper is `delta` above it, modulo 2 ^ 64. */
  lemma KnownExactlyWhen(helpers: seq<Address>, addr: Address, delta: Address)
    ensures var sum := Value(addr) + Value(delta);
            Known(helpers, addr, delta) <==>
            HelperAt(helpers, if sum < 18446744073709551616 then sum else sum - 18446744073709551616)
  {
    MovedValue(addr, delta);
    InHelpers(helpers, Moved(addr, delta));
  }

  // ---- The result ----

  lemma {:induction false} AnyStrayIs(ws: seq<Word>, helpers: seq<Address>, delta: Address, n: nat)
    ensures AnyStray(ws, helpers, delta, n) <==> exists i: nat :: i < n && Stray(ws, helpers, delta, i)
  {
    if n > 0 {
      AnyStrayIs(ws, helpers, delta, n - 1);
      assert Stray(ws, helpers, delta, n - 1) ==> AnyStray(ws, helpers, delta, n);
    }
  }

  function PatchedRuns(ws: seq<Word>, helpers: seq<Address>, delta: Address, n: nat): set<int> {
    set i | 0 <= i < n && Patches(ws, helpers, delta, i)
  }

  lemma {:induction false} PatchedIs(ws: seq<Word>, helpers: seq<Address>, delta: Address, n: nat)
    ensures Patched(ws, helpers, delta, n) == |PatchedRuns(ws, helpers, delta, n)|
  {
    if n > 0 {
      PatchedIs(ws, helpers, delta, n - 1);
      assert PatchedRuns(ws, helpers, delta, n) ==
             PatchedRuns(ws, helpers, delta, n - 1) + if Patches(ws, helpers, delta, n - 1) then {n - 1} else {};
    }
  }

  /** The result is -1 exactly when some call goes to no known helper, and else the number of calls
      that were moved. */
  lemma ResultIs(ws: seq<Word>, ws': seq<Word>, helpers: seq<Address>, delta: Address, n: int)
    requires Outcome(ws, ws', helpers, delta, n)
    ensures n == -1 <==> exists i: nat :: i < |ws| && Stray(ws, helpers, delta, i)
    ensures n != -1 ==> n == |PatchedRuns(ws, helpers, delta, |ws|)|
  {
    AnyStrayIs(ws, helpers, delta, |ws|);
    PatchedIs(ws, helpers, delta, |ws|);
  }
}
