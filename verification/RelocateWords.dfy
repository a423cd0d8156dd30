/** ARM64 instruction words and addresses, as the relocation of copied code reads and patches
    them. */
module RelocateWords {

  type Half = x: nat | x < 0x1_0000

  type Reg = r: nat | r < 0x20

  /** The fields the masks of the source tell apart: bits 21 to 31 (operation, with the position
      of the immediate), bits 5 to 20 and bits 0 to 4. */
  datatype Word = Word(op: nat, imm: Half, rd: Reg)

  /** Comparing under a mask is comparing the fields the mask covers. */
  lemma MaskedFields(w: bv32, op: bv32, rd: bv32)
    requires rd < 0x20
    ensures w & 0xFFE0_0000 == op & 0xFFE0_0000 <==> w >> 21 == op >> 21
    ensures w & 0xFFE0_001F == (op & 0xFFE0_0000) | rd <==> w >> 21 == op >> 21 && w & 0x1F == rd
    ensures w & 0xFFFF_FC1F == (op & 0xFFFF_FC00) | rd <==> w >> 10 == op >> 10 && w & 0x1F == rd
  {
  }

  // ---- Addresses ----

  /** A 64-bit word in the four parts the instructions carry, lowest first. */
  datatype Address = Address(b0: Half, b1: Half, b2: Half, b3: Half)

  const NULL := Address(0, 0, 0, 0)

  const LIMIT := 0x1_0000_0000_0000_0000

  function Value(a: Address): (v: nat)
    ensures v < LIMIT
  {
    a.b0 + 0x1_0000 * a.b1 + 0x1_0000_0000 * a.b2 + 0x1_0000_0000_0000 * a.b3
  }

  function Low(sum: nat): Half
    requires sum < 0x2_0000
  {
    if sum < 0x1_0000 then sum else sum - 0x1_0000
  }

  function Carry(sum: nat): nat {
    if sum < 0x1_0000 then 0 else 1
  }

  /** Addition of 64-bit words. */
  function Moved(a: Address, delta: Address): Address {
    var s0 := a.b0 + delta.b0;
    var s1 := a.b1 + delta.b1 + Carry(s0);
    var s2 := a.b2 + delta.b2 + Carry(s1);
    var s3 := a.b3 + delta.b3 + Carry(s2);
    Address(Low(s0), Low(s1), Low(s2), Low(s3))
  }

  function Difference(x: int): Half
    requires -0x1_0000 <= x < 0x1_0000
  {
    if x < 0 then x + 0x1_0000 else x
  }

  function Borrow(x: int): int {
    if x < 0 then 1 else 0
  }

  /** Subtraction of 64-bit words. */
  function Minus(a: Address, b: Address): Address {
    var d0 := a.b0 - b.b0;
    var d1 := a.b1 - b.b1 - Borrow(d0);
    var d2 := a.b2 - b.b2 - Borrow(d1);
    var d3 := a.b3 - b.b3 - Borrow(d2);
    Address(Difference(d0), Difference(d1), Difference(d2), Difference(d3))
  }

  /** The sum is that of the numbers, modulo 2 ^ 64. */
  lemma MovedValue(a: Address, delta: Address)
    ensures var sum := Value(a) + Value(delta);
            Value(Moved(a, delta)) == if sum < LIMIT then sum else sum - LIMIT
  {
  }

  /** Subtracting undoes adding. */
  lemma MovedBack(h: Address, a: Address, delta: Address)
    ensures Minus(h, delta) == a <==> h == Moved(a, delta)
  {
  }

  lemma MovedAway(a: Address, delta: Address)
    requires delta != NULL
    ensures Moved(a, delta) != a
  {
    MovedValue(a, delta);
  }

  // ---- Constants ----

  /** A 64-bit constant takes four words: move the low 16 bits, then keep the rest and set the
      next 16 bits, three times.  The operations are the upper eleven bits of the words
      0xD2800000, 0xF2A00000, 0xF2C00000 and 0xF2E00000. */
  const MOVZ := 0x694
  const MOVK1 := 0x795
  const MOVK2 := 0x796
  const MOVK3 := 0x797

  // ---- Calls ----

  /** The fields of 0xD63F0000 and 0xD61F0000. */
  const BLR := 0x6B1
  const BR := 0x6B0
  const BRANCH := 0xF800

  /** A branch with or without link through register rn: rn is in bits 5 to 9. */
  predicate CallsThrough(w: Word, rn: Reg) {
    w == Word(BLR, BRANCH + rn, 0) || w == Word(BR, BRANCH + rn, 0)
  }

  /** The test of the relocation pass: it leaves out bits 5 to 9, and looks for the register in
      bits 0 to 4. */
  predicate SeenAsCall(w: Word, rd: Reg) {
    (w.op == BLR || w.op == BR) && BRANCH <= w.imm < BRANCH + 0x20 && w.rd == rd
  }

  /** A branch through rn is taken for a call through rd exactly when rd is register 0,
      whatever rn is. */
  lemma SeenExactlyWhen(w: Word, rn: Reg, rd: Reg)
    requires CallsThrough(w, rn)
    ensures SeenAsCall(w, rd) <==> rd == 0
  {
  }
}
