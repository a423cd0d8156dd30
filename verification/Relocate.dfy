/** pg_jitter_relocate_dylib_addrs on ARM64: point the calls of copied code at this process's
    helpers. */
module Relocate {
  import opened RelocateWords

  // ---- What the pass looks for ----

  /** A constant loaded by words i to i + 3 into one register. */
  predicate Run(ws: seq<Word>, i: nat) {
    && i + 3 < |ws|
    && ws[i].op == MOVZ && ws[i + 1].op == MOVK1 && ws[i + 2].op == MOVK2 && ws[i + 3].op == MOVK3
    && ws[i + 1].rd == ws[i].rd && ws[i + 2].rd == ws[i].rd && ws[i + 3].rd == ws[i].rd
  }

  function Target(ws: seq<Word>, i: nat): Address
    requires i + 3 < |ws|
  {
    Address(ws[i].imm, ws[i + 1].imm, ws[i + 2].imm, ws[i + 3].imm)
  }

  /** A run with what the pass takes for a call behind it. */
  predicate Site(ws: seq<Word>, i: nat) {
    Run(ws, i) && i + 4 < |ws| && SeenAsCall(ws[i + 4], ws[i].rd)
  }

  /** The address, moved, is that of a helper of this process. */
  predicate Known(helpers: seq<Address>, addr: Address, delta: Address) {
    Moved(addr, delta) != NULL && Moved(addr, delta) in helpers
  }

  predicate Patches(ws: seq<Word>, helpers: seq<Address>, delta: Address, i: int) {
    0 <= i && Site(ws, i) && Known(helpers, Target(ws, i), delta)
  }

  function Part(addr: Address, part: nat): Half
    requires part < 4
  {
    match part
    case 0 => addr.b0
    case 1 => addr.b1
    case 2 => addr.b2
    case _ => addr.b3
  }

  /** The word with another immediate. */
  function Patch(w: Word, addr: Address, part: nat): Word
    requires part < 4
  {
    w.(imm := Part(addr, part))
  }

  /** Where the patched run starts that word j belongs to, or -1. */
  function Start(ws: seq<Word>, helpers: seq<Address>, delta: Address, j: nat): (i: int)
    ensures i == -1 || (j - 4 < i <= j && Patches(ws, helpers, delta, i))
  {
    if Patches(ws, helpers, delta, j) then j
    else if Patches(ws, helpers, delta, j - 1) then j - 1
    else if Patches(ws, helpers, delta, j - 2) then j - 2
    else if Patches(ws, helpers, delta, j - 3) then j - 3
    else -1
  }

  /** Word j after the pass. */
  function Relocated(ws: seq<Word>, helpers: seq<Address>, delta: Address, j: nat): Word
    requires j < |ws|
  {
    var i := Start(ws, helpers, delta, j);
    if i == -1 then ws[j] else Patch(ws[j], Moved(Target(ws, i), delta), j - i)
  }

  /** A call that goes to no known helper. */
  predicate Stray(ws: seq<Word>, helpers: seq<Address>, delta: Address, i: nat) {
    Site(ws, i) && !Known(helpers, Target(ws, i), delta)
  }

  function Patched(ws: seq<Word>, helpers: seq<Address>, delta: Address, n: nat): (count: nat) {
    if n == 0 then 0 else Patched(ws, helpers, delta, n - 1) + if Patches(ws, helpers, delta, n - 1) then 1 else 0
  }

  predicate AnyStray(ws: seq<Word>, helpers: seq<Address>, delta: Address, n: nat) {
    n > 0 && (AnyStray(ws, helpers, delta, n - 1) || Stray(ws, helpers, delta, n - 1))
  }

  lemma {:induction false} NoneIsStray(ws: seq<Word>, helpers: seq<Address>, delta: Address, n: nat, i: nat)
    requires !AnyStray(ws, helpers, delta, n) && i < n
    ensures !Stray(ws, helpers, delta, i)
  {
    if i < n - 1 {
      NoneIsStray(ws, helpers, delta, n - 1, i);
    }
  }

  /** What the pass does to the code `ws`, and what it returns. */
  predicate Outcome(ws: seq<Word>, ws': seq<Word>, helpers: seq<Address>, delta: Address, n: int) {
    && |ws'| == |ws|
    && (forall j | 0 <= j < |ws| :: ws'[j] == Relocated(ws, helpers, delta, j))
    && n == if AnyStray(ws, helpers, delta, |ws|) then -1 else Patched(ws, helpers, delta, |ws|)
  }

  // ---- Runs do not overlap ----

  lemma RunsAreApart(ws: seq<Word>, i: nat, k: nat)
    requires Run(ws, i) && 0 < k < 4
    ensures !Run(ws, i + k)
  {
  }

  /** No patch starts less than four words in front of i. */
  predicate Clear(ws: seq<Word>, helpers: seq<Address>, delta: Address, i: int) {
    && !Patches(ws, helpers, delta, i - 1)
    && !Patches(ws, helpers, delta, i - 2)
    && !Patches(ws, helpers, delta, i - 3)
  }

  lemma ClearAtRun(ws: seq<Word>, helpers: seq<Address>, delta: Address, i: nat)
    requires Run(ws, i)
    ensures Clear(ws, helpers, delta, i)
    ensures !Run(ws, i + 1) && !Run(ws, i + 2) && !Run(ws, i + 3)
  {
    RunsAreApart(ws, i, 1);
    RunsAreApart(ws, i, 2);
    RunsAreApart(ws, i, 3);
    NoRunBefore(ws, i, 1);
    NoRunBefore(ws, i, 2);
    NoRunBefore(ws, i, 3);
  }

  lemma NoRunBefore(ws: seq<Word>, i: nat, k: nat)
    requires Run(ws, i) && 0 < k < 4
    ensures i >= k ==> !Run(ws, i - k)
  {
  }

  // ---- The loop ----

  /** pg_jitter_reloc_lookup_known_helper. */
  method LookUp(helpers: seq<Address>, addr: Address, delta: Address) returns (known: bool, target: Address)
    ensures known <==> Known(helpers, addr, delta)
    ensures known ==> target == Moved(addr, delta)
  {
    var k := 0;
    while k < |helpers|
      invariant 0 <= k <= |helpers|
      invariant forall m | 0 <= m < k :: helpers[m] == NULL || helpers[m] != Moved(addr, delta)
    {
      MovedBack(helpers[k], addr, delta);
      if helpers[k] != NULL && Minus(helpers[k], delta) == addr {
        return true, helpers[k];
      }
      k := k + 1;
    }
    return false, NULL;
  }

  /** Words i to i + 3 with a new address. */
  function WithTarget(ws: seq<Word>, i: nat, target: Address): (r: seq<Word>)
    requires i + 3 < |ws|
    ensures |r| == |ws|
  {
    seq(|ws|, j requires 0 <= j < |ws| => if i <= j < i + 4 then Patch(ws[j], target, j - i) else ws[j])
  }

  method PatchRun(a: array<Word>, i: nat, target: Address)
    requires i + 3 < a.Length
    modifies a
    ensures a[..] == WithTarget(old(a[..]), i, target)
  {
    a[i] := Patch(a[i], target, 0);
    a[i + 1] := Patch(a[i + 1], target, 1);
    a[i + 2] := Patch(a[i + 2], target, 2);
    a[i + 3] := Patch(a[i + 3], target, 3);
  }

  datatype Verdict = Plain | Unknown | Move(target: Address)

  /** One look at word i; nothing from i on has been patched yet. */
  method Inspect(a: array<Word>, ghost ws: seq<Word>, helpers: seq<Address>, delta: Address, i: nat)
      returns (verdict: Verdict)
    requires a.Length == |ws| && i + 3 < a.Length
    requires forall j | i <= j < a.Length :: a[j] == ws[j]
    ensures verdict.Move? <==> Patches(ws, helpers, delta, i)
    ensures verdict.Move? ==> verdict.target == Moved(Target(ws, i), delta)
    ensures verdict.Unknown? <==> Stray(ws, helpers, delta, i)
  {
    var w0, w1, w2, w3 := a[i], a[i + 1], a[i + 2], a[i + 3];
    if w0.op != MOVZ {
      return Plain;
    }
    var rd := w0.rd;
    if !(w1.op == MOVK1 && w1.rd == rd) || !(w2.op == MOVK2 && w2.rd == rd) || !(w3.op == MOVK3 && w3.rd == rd) {
      return Plain;
    }
    var addr := Address(w0.imm, w1.imm, w2.imm, w3.imm);
    if i + 4 >= a.Length || !SeenAsCall(a[i + 4], rd) {
      return Plain;
    }
    var known, target := LookUp(helpers, addr, delta);
    return if known then Move(target) else Unknown;
  }

  /** No run starts in the last three words. */
  lemma {:induction false} CountsEnd(ws: seq<Word>, helpers: seq<Address>, delta: Address, i: nat, n: nat)
    requires |ws| <= i + 3 && i <= n
    ensures Patched(ws, helpers, delta, n) == Patched(ws, helpers, delta, i)
    ensures AnyStray(ws, helpers, delta, n) == AnyStray(ws, helpers, delta, i)
  {
    if i < n {
      CountsEnd(ws, helpers, delta, i, n - 1);
    }
  }

  lemma NextCounts(ws: seq<Word>, helpers: seq<Address>, delta: Address, i: nat)
    ensures AnyStray(ws, helpers, delta, i + 1) <==> AnyStray(ws, helpers, delta, i) || Stray(ws, helpers, delta, i)
    ensures Patched(ws, helpers, delta, i + 1) ==
            Patched(ws, helpers, delta, i) + if Patches(ws, helpers, delta, i) then 1 else 0
  {
  }

  /** Behind a patch nothing more is to be counted for four words. */
  lemma SkipCounts(ws: seq<Word>, helpers: seq<Address>, delta: Address, i: nat)
    requires Patches(ws, helpers, delta, i)
    ensures Clear(ws, helpers, delta, i) && Clear(ws, helpers, delta, i + 4)
    ensures AnyStray(ws, helpers, delta, i + 4) == AnyStray(ws, helpers, delta, i)
    ensures Patched(ws, helpers, delta, i + 4) == Patched(ws, helpers, delta, i) + 1
  {
    ClearAtRun(ws, helpers, delta, i);
    NextCounts(ws, helpers, delta, i);
    NextCounts(ws, helpers, delta, i + 1);
    NextCounts(ws, helpers, delta, i + 2);
    NextCounts(ws, helpers, delta, i + 3);
  }

  /** What stands where after a turn at word i. */
  predicate DoneBelow(a: seq<Word>, ws: seq<Word>, helpers: seq<Address>, delta: Address, i: nat)
    requires |a| == |ws|
  {
    && (forall j | 0 <= j < i && j < |ws| :: a[j] == Relocated(ws, helpers, delta, j))
    && (forall j | i <= j < |ws| :: a[j] == ws[j])
  }

  /** What holds in front of word i. */
  predicate Progress(a: seq<Word>, ws: seq<Word>, helpers: seq<Address>, delta: Address, i: nat) {
    |a| == |ws| && Clear(ws, helpers, delta, i) && DoneBelow(a, ws, helpers, delta, i)
  }

  lemma StartsHere(ws: seq<Word>, helpers: seq<Address>, delta: Address, i: nat)
    requires Patches(ws, helpers, delta, i)
    ensures forall j: nat | i <= j < i + 4 :: Start(ws, helpers, delta, j) == i
  {
    ClearAtRun(ws, helpers, delta, i);
  }

  lemma PatchedRunIsDone(before: seq<Word>, ws: seq<Word>, helpers: seq<Address>, delta: Address, i: nat)
    requires Progress(before, ws, helpers, delta, i) && Patches(ws, helpers, delta, i)
    ensures Progress(WithTarget(before, i, Moved(Target(ws, i), delta)), ws, helpers, delta, i + 4)
  {
    StartsHere(ws, helpers, delta, i);
    SkipCounts(ws, helpers, delta, i);
  }

  lemma PlainIsDone(a: seq<Word>, ws: seq<Word>, helpers: seq<Address>, delta: Address, i: nat)
    requires Progress(a, ws, helpers, delta, i) && !Patches(ws, helpers, delta, i)
    ensures Progress(a, ws, helpers, delta, i + 1)
  {
    assert Start(ws, helpers, delta, i) == -1;
  }

  /** One turn: patch the run at word i and go behind it, or go on by one word. */
  method Turn(a: array<Word>, ghost ws: seq<Word>, helpers: seq<Address>, delta: Address, i: nat)
      returns (unknown: bool, patched: bool, next: nat)
    requires Progress(a[..], ws, helpers, delta, i) && i + 3 < a.Length
    modifies a
    ensures i < next && Progress(a[..], ws, helpers, delta, next)
    ensures AnyStray(ws, helpers, delta, next) == (AnyStray(ws, helpers, delta, i) || unknown)
    ensures Patched(ws, helpers, delta, next) == Patched(ws, helpers, delta, i) + if patched then 1 else 0
  {
    ghost var before := a[..];
    var verdict := Inspect(a, ws, helpers, delta, i);
    NextCounts(ws, helpers, delta, i);
    if verdict.Move? {
      SkipCounts(ws, helpers, delta, i);
      PatchRun(a, i, verdict.target);
      PatchedRunIsDone(before, ws, helpers, delta, i);
      return false, true, i + 4;
    }
    PlainIsDone(a[..], ws, helpers, delta, i);
    return verdict.Unknown?, false, i + 1;
  }

  method RelocateBy(a: array<Word>, helpers: seq<Address>, delta: Address) returns (n: int)
    modifies a
    ensures Outcome(old(a[..]), a[..], helpers, delta, n)
  {
    ghost var ws := a[..];
    var unknown := false;
    var count, i := 0, 0;
    while i + 3 < a.Length
      invariant Progress(a[..], ws, helpers, delta, i)
      invariant unknown == AnyStray(ws, helpers, delta, i)
      invariant count == Patched(ws, helpers, delta, i)
      decreases a.Length - i
    {
      var stray, patched, next := Turn(a, ws, helpers, delta, i);
      unknown := unknown || stray;
      count := if patched then count + 1 else count;
      i := next;
    }
    RestIsDone(a[..], ws, helpers, delta, i);
    return if unknown then -1 else count;
  }

  /** Where no run fits any more, all is done. */
  lemma RestIsDone(a: seq<Word>, ws: seq<Word>, helpers: seq<Address>, delta: Address, i: nat)
    requires Progress(a, ws, helpers, delta, i) && |ws| <= i + 3
    ensures forall j | 0 <= j < |ws| :: a[j] == Relocated(ws, helpers, delta, j)
    ensures AnyStray(ws, helpers, delta, |ws|) == AnyStray(ws, helpers, delta, i)
    ensures Patched(ws, helpers, delta, |ws|) == Patched(ws, helpers, delta, i)
  {
    if i <= |ws| {
      CountsEnd(ws, helpers, delta, i, |ws|);
    } else {
      CountsEnd(ws, helpers, delta, |ws|, i);
    }
    forall j: nat | i <= j < |ws| ensures Start(ws, helpers, delta, j) == -1 {
    }
  }

  /** Relocate in place: -1 when a call goes to an unknown address, else the number of calls
      patched; equal references leave the code alone. */
  method RelocateCode(a: array<Word>, leaderRef: Address, workerRef: Address, helpers: seq<Address>) returns (n: int)
    modifies a
    ensures leaderRef == workerRef ==> n == 0 && a[..] == old(a[..])
    ensures leaderRef != workerRef ==>
              && Moved(leaderRef, Minus(workerRef, leaderRef)) == workerRef
              && Outcome(old(a[..]), a[..], helpers, Minus(workerRef, leaderRef), n)
  {
    if leaderRef == workerRef {
      return 0;
    }
    var delta := Minus(workerRef, leaderRef);
    MovedBack(workerRef, leaderRef, delta);
    n := RelocateBy(a, helpers, delta);
  }

  // ---- What the pass achieves ----

  lemma {:induction false} PatchedAreSites(ws: seq<Word>, helpers: seq<Address>, delta: Address, n: nat)
    requires !AnyStray(ws, helpers, delta, n)
    ensures Patched(ws, helpers, delta, n) == Sites(ws, n)
  {
    if n > 0 {
      NextCounts(ws, helpers, delta, n - 1);
      PatchedAreSites(ws, helpers, delta, n - 1);
    }
  }

  function Sites(ws: seq<Word>, n: nat): (count: nat) {
    if n == 0 then 0 else Sites(ws, n - 1) + if Site(ws, n - 1) then 1 else 0
  }

  /** The words of a run are patched together or not at all. */
  lemma RunTarget(ws: seq<Word>, ws': seq<Word>, helpers: seq<Address>, delta: Address, n: int, i: nat)
    requires Outcome(ws, ws', helpers, delta, n) && Run(ws, i)
    ensures Run(ws', i) && ws'[i].rd == ws[i].rd
    ensures Target(ws', i) == if Patches(ws, helpers, delta, i) then Moved(Target(ws, i), delta) else Target(ws, i)
  {
    ClearAtRun(ws, helpers, delta, i);
    if Patches(ws, helpers, delta, i) {
      StartsHere(ws, helpers, delta, i);
    }
  }

  /** On success every call the pass sees goes to a helper of this process, and the result is
      the number of these calls. */
  lemma SuccessMeans(ws: seq<Word>, ws': seq<Word>, helpers: seq<Address>, delta: Address, n: int, i: nat)
    requires Outcome(ws, ws', helpers, delta, n) && n >= 0
    ensures n == Sites(ws, |ws|)
    ensures Site(ws, i) ==> Target(ws', i) == Moved(Target(ws, i), delta) && Target(ws', i) in helpers
  {
    PatchedAreSites(ws, helpers, delta, |ws|);
    if Site(ws, i) {
      NoneIsStray(ws, helpers, delta, |ws|, i);
      RunTarget(ws, ws', helpers, delta, n, i);
    }
  }

  /** Success or not: a word is left alone or keeps its operation and its register, and two runs
      never share a word. */
  lemma FieldsStay(ws: seq<Word>, ws': seq<Word>, helpers: seq<Address>, delta: Address, n: int, j: nat, i: nat)
    requires Outcome(ws, ws', helpers, delta, n) && j < |ws|
    ensures ws'[j].op == ws[j].op && ws'[j].rd == ws[j].rd
    ensures Run(ws, i) && i < j < i + 4 ==> !Run(ws, j)
  {
    if Run(ws, i) && i < j < i + 4 {
      RunsAreApart(ws, i, j - i);
    }
  }

  /** A constant with a call through its own register behind it is moved to this process exactly
      when the register is register 0: the test for a call reads the wrong bits of the branch. */
  lemma CallMovedExactlyWhen(ws: seq<Word>, ws': seq<Word>, helpers: seq<Address>, delta: Address, n: int, i: nat)
    requires Outcome(ws, ws', helpers, delta, n) && n >= 0 && delta != NULL
    requires Run(ws, i) && i + 4 < |ws| && CallsThrough(ws[i + 4], ws[i].rd)
    ensures Target(ws', i) == Moved(Target(ws, i), delta) <==> ws[i].rd == 0
  {
    SeenExactlyWhen(ws[i + 4], ws[i].rd, ws[i].rd);
    NoneIsStray(ws, helpers, delta, |ws|, i);
    RunTarget(ws, ws', helpers, delta, n, i);
    MovedAway(Target(ws, i), delta);
  }
}
