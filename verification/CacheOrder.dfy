/** Which entry the pattern cache gives up, and when it hands one out. */
module CacheOrder {
  import opened CacheStore
  import opened CacheRuns
  import opened PatternCache
  import opened Wrappers

  // ---- When an entry is handed out ----

  ghost predicate Knows(s: Store, flags: nat, regex: Regex) {
    exists i: nat :: i < |s.slots| && KeyAt(s, flags, regex, i)
  }

  /** An entry is handed out exactly when the pattern can be used, the pin can be registered, and the
      entry is cached or can be made; an error is raised exactly when it is the registration that
      fails. */
  lemma GotExactlyWhen(s: Store, c: nat, flags: nat, regex: Regex, luck: Luck)
    requires Inv(s) && c < |s.contexts|
    ensures var had := luck.usable && (Knows(s, flags, regex) || (luck.compiled && luck.matchContext));
            && (Compile(s, c, flags, regex, luck).1.Got? <==> had && !luck.registerRaises)
            && (Compile(s, c, flags, regex, luck).1.Raised? <==> had && luck.registerRaises)
  {
    var i := FindKey(s, flags, regex, 0);
    assert i >= 0 ==> KeyAt(s, flags, regex, i);
  }

  // ---- Uses ----

  /** The operation from s to s' asks for entry a: it is cached under the key asked for, or made for
      it. */
  ghost predicate UsedBy(s: Store, s': Store, op: Op, a: nat) {
    && op.Ask? && op.luck.usable
    && a < |s'.heap| && s'.heap[a].flags == op.flags && s'.heap[a].regex == op.regex
    && (Cached(s, a) || a >= |s.heap|)
  }

  /** The clock goes on; what is used is marked with it, what is not keeps its mark; nothing that was
      given up comes back. */
  ghost predicate Advances(s: Store, s': Store, op: Op) {
    && s.clock <= s'.clock && |s.heap| <= |s'.heap|
    && (forall a: nat | a < |s'.heap| :: Marked(s, s', op, a))
    && (forall a: nat | a < |s.heap| && Cached(s', a) :: Cached(s, a))
  }

  ghost predicate Marked(s: Store, s': Store, op: Op, a: nat)
    requires a < |s'.heap|
  {
    if UsedBy(s, s', op, a) then s'.heap[a].lru == s'.clock == s.clock + 1
    else a < |s.heap| && s'.heap[a].lru == s.heap[a].lru
  }

  lemma {:induction false} ReleaseKeepsClock(s: Store, c: nat)
    requires Inv(s) && c < |s.contexts|
    ensures Released(s, c).clock == s.clock && Released(s, c).slots == s.slots
    ensures |Released(s, c).heap| == |s.heap|
    ensures forall a: nat | a < |s.heap| :: Released(s, c).heap[a].lru == s.heap[a].lru
    decreases |s.contexts[c]|
  {
    if s.contexts[c] != [] {
      UnregisterKeepsInv(s, c);
      ReleaseKeepsClock(Unregister(s, c), c);
    }
  }

  /** Two cached entries with one key are one. */
  lemma OneKey(s: Store, a: nat, b: nat)
    requires Inv(s) && Cached(s, a) && Cached(s, b) && a < |s.heap| && b < |s.heap|
    requires SameKey(s.heap[a], s.heap[b])
    ensures a == b
  {
    var i: nat :| CacheStore.Holds(s, i, a);
    var j: nat :| CacheStore.Holds(s, j, b);
    if i != j {
      DifferentKeys(s, i, j);
    }
  }

  lemma DifferentKeys(s: Store, i: nat, j: nat)
    requires SlotsOk(s) && i < |s.slots| && j < |s.slots| && i != j && s.slots[i].Some? && s.slots[j].Some?
    ensures s.slots[i].value < |s.heap| && s.slots[j].value < |s.heap|
    ensures !SameKey(s.heap[s.slots[i].value], s.heap[s.slots[j].value])
  {
    assert if i < j then Apart(s, i, j) else Apart(s, j, i);
  }

  lemma HitAdvances(s: Store, op: Op, i: nat)
    requires Inv(s) && op.Ask? && op.c < |s.contexts| && op.luck.usable && i < |s.slots|
    requires KeyAt(s, op.flags, op.regex, i)
    ensures Advances(s, Hit(s, op.c, s.slots[i].value, op.luck).0, op)
  {
    var a := s.slots[i].value;
    var s' := Hit(s, op.c, a, op.luck).0;
    assert CacheStore.Holds(s, i, a);
    forall b: nat | b < |s'.heap| ensures Marked(s, s', op, b) {
      if UsedBy(s, s', op, b) {
        OneKey(s, a, b);
      }
    }
    forall b: nat | b < |s.heap| && Cached(s', b) ensures Cached(s, b) {
      var j: nat :| CacheStore.Holds(s', j, b);
      assert CacheStore.Holds(s, j, b);
    }
  }

  lemma NotCached(s: Store, op: Op, b: nat)
    requires op.Ask? && FindKey(s, op.flags, op.regex, 0) < 0 && b < |s.heap| && Cached(s, b)
    ensures !(s.heap[b].flags == op.flags && s.heap[b].regex == op.regex)
  {
    var j: nat :| CacheStore.Holds(s, j, b);
    assert !KeyAt(s, op.flags, op.regex, j);
  }

  lemma MissAdvances(s: Store, op: Op)
    requires Inv(s) && op.Ask? && op.c < |s.contexts| && op.luck.usable
    requires FindKey(s, op.flags, op.regex, 0) < 0
    ensures Advances(s, Miss(s, op.c, op.flags, op.regex, op.luck).0, op)
  {
    ChooseIsRight(s);
    EvictKeepsInv(s, Choose(s));
    var s' := Miss(s, op.c, op.flags, op.regex, op.luck).0;
    forall b: nat | b < |s.heap| ensures !UsedBy(s, s', op, b) && s'.heap[b].lru == s.heap[b].lru {
      if Cached(s, b) {
        NotCached(s, op, b);
      }
    }
    forall b: nat | b < |s.heap| && Cached(s', b) ensures Cached(s, b) {
      var j: nat :| CacheStore.Holds(s', j, b);
      assert CacheStore.Holds(s, j, b);
    }
  }

  lemma StandsStill(s: Store, s': Store, op: Op)
    requires s'.clock == s.clock && s'.slots == s.slots && |s'.heap| == |s.heap|
    requires forall a: nat | a < |s.heap| :: s'.heap[a].lru == s.heap[a].lru && !UsedBy(s, s', op, a)
    ensures Advances(s, s', op)
  {
    forall a: nat | a < |s.heap| && Cached(s', a) ensures Cached(s, a) {
      var j: nat :| CacheStore.Holds(s', j, a);
      assert CacheStore.Holds(s, j, a);
    }
  }

  lemma OpAdvances(s: Store, op: Op)
    requires Inv(s) && Can(s, op)
    ensures Advances(s, Apply(s, op), op)
  {
    match op
    case Attach => StandsStill(s, Apply(s, op), op);
    case Release(c) =>
      ReleaseKeepsClock(s, c);
      StandsStill(s, Apply(s, op), op);
    case Ask(c, flags, regex, luck) =>
      if !luck.usable {
        StandsStill(s, s, op);
      } else if FindKey(s, flags, regex, 0) >= 0 {
        HitAdvances(s, op, FindKey(s, flags, regex, 0));
      } else if !luck.compiled {
        forall b: nat | b < |s.heap| ensures !UsedBy(s, s, op, b) {
          if Cached(s, b) {
            NotCached(s, op, b);
          }
        }
        StandsStill(s, s, op);
      } else {
        MissAdvances(s, op);
      }
  }

  // ---- Whole runs ----

  /** Operation k of a run uses entry a. */
  ghost predicate Uses(states: seq<Store>, ops: seq<Op>, k: nat, a: nat)
    requires |states| == |ops| + 1 && k < |ops|
  {
    UsedBy(states[k], states[k + 1], ops[k], a)
  }

  /** Operation k, before state i, is the last that uses a. */
  ghost predicate LastUse(states: seq<Store>, ops: seq<Op>, i: nat, a: nat, k: nat)
    requires |states| == |ops| + 1 && i <= |ops|
  {
    k < i && Uses(states, ops, k, a) && forall m: nat | k < m < i :: !Uses(states, ops, m, a)
  }

  lemma RunAdvances(states: seq<Store>, ops: seq<Op>, i: nat)
    requires Run(states, ops) && i < |ops|
    ensures Advances(states[i], states[i + 1], ops[i])
  {
    AlwaysInv(states, ops, i);
    OpAdvances(states[i], ops[i]);
  }

  lemma {:induction false} ClockGrows(states: seq<Store>, ops: seq<Op>, i: nat, j: nat)
    requires Run(states, ops) && i <= j < |states|
    ensures states[i].clock <= states[j].clock
    decreases j
  {
    if i < j {
      ClockGrows(states, ops, i, j - 1);
      RunAdvances(states, ops, j - 1);
    }
  }

  /** Every entry was used, and is marked with the clock of its last use. */
  lemma {:induction false} MarkedAtLastUse(states: seq<Store>, ops: seq<Op>, i: nat, a: nat) returns (k: nat)
    requires Run(states, ops) && i < |states| && a < |states[i].heap|
    ensures LastUse(states, ops, i, a, k)
    ensures states[i].heap[a].lru == states[k + 1].clock == states[k].clock + 1
    decreases i
  {
    RunAdvances(states, ops, i - 1);
    assert Marked(states[i - 1], states[i], ops[i - 1], a);
    if Uses(states, ops, i - 1, a) {
      k := i - 1;
    } else {
      k := MarkedAtLastUse(states, ops, i - 1, a);
    }
  }

  lemma OneLastUse(states: seq<Store>, ops: seq<Op>, i: nat, a: nat, k: nat, m: nat)
    requires |states| == |ops| + 1 && i <= |ops| && LastUse(states, ops, i, a, k) && LastUse(states, ops, i, a, m)
    ensures k == m
  {
  }

  // ---- What is given up ----

  ghost predicate GivenUp(states: seq<Store>, ops: seq<Op>, i: nat, a: nat)
    requires |states| == |ops| + 1 && i < |ops|
  {
    Cached(states[i], a) && !Cached(states[i + 1], a)
  }

  /** What an operation takes out of the cache stood in the slot that was chosen. */
  lemma GivenUpIsChosen(s: Store, op: Op, a: nat)
    requires Inv(s) && Can(s, op) && Cached(s, a) && !Cached(Apply(s, op), a)
    ensures 0 <= Choose(s) < |s.slots| && s.slots[Choose(s)] == Some(a)
  {
    ChooseIsRight(s);
    EvictKeepsInv(s, Choose(s));
    var j: nat :| CacheStore.Holds(s, j, a);
    if op.Release? {
      ReleaseKeepsClock(s, op.c);
    }
    if j != Choose(s) {
      assert CacheStore.Holds(Apply(s, op), j, a);
    }
  }

  /** An entry is given up only when all 64 slots are in use, and a pinned one only when all are
      pinned. */
  lemma GivenUpWhenFull(states: seq<Store>, ops: seq<Op>, i: nat, a: nat, j: nat)
    requires Run(states, ops) && i < |ops| && GivenUp(states, ops, i, a) && j < 64
    ensures a < |states[i].heap| && |states[i].slots| == 64 && states[i].slots[j].Some?
    ensures states[i].slots[j].value < |states[i].heap|
    ensures states[i].heap[a].refcount > 0 ==> states[i].heap[states[i].slots[j].value].refcount > 0
  {
    var s := states[i];
    AlwaysInv(states, ops, i);
    GivenUpIsChosen(s, ops[i], a);
    ChooseIsRight(s);
    assert SlotOk(s, Choose(s)) && SlotOk(s, j);
    var b := s.slots[j].value;
    assert CacheStore.Holds(s, j, b);
    SlotsLive(s, b);
    assert s.heap[a].refcount > 0 ==> Candidate(s, true, j);
  }

  lemma {:induction false} PinsAreNatural(contexts: seq<seq<nat>>, a: nat, n: nat)
    requires n <= |contexts|
    ensures Count(contexts, a, n) >= 0
  {
    if n > 0 {
      PinsAreNatural(contexts, a, n - 1);
      CountsAreNatural(contexts[n - 1], a);
    }
  }

  lemma {:induction false} CountsAreNatural(list: seq<nat>, a: nat)
    ensures CountIn(list, a) >= 0
  {
    if list != [] {
      CountsAreNatural(list[1..], a);
    }
  }

  /** In every run: among the cached entries that are pinned (or not) like it, the entry that is
      given up is the one whose last use lies furthest back. */
  lemma GivenUpIsOldest(states: seq<Store>, ops: seq<Op>, i: nat, a: nat, b: nat, ka: nat, kb: nat)
    requires Run(states, ops) && i < |ops| && GivenUp(states, ops, i, a) && Cached(states[i], b) && a != b
    requires a < |states[i].heap| && b < |states[i].heap|
    requires (states[i].heap[a].refcount == 0) == (states[i].heap[b].refcount == 0)
    requires LastUse(states, ops, i, a, ka) && LastUse(states, ops, i, b, kb)
    ensures ka < kb
  {
    var s := states[i];
    AlwaysInv(states, ops, i);
    ChosenIsLeast(s, ops[i], a, b);
    var ma := MarkedAtLastUse(states, ops, i, a);
    var mb := MarkedAtLastUse(states, ops, i, b);
    OneLastUse(states, ops, i, a, ka, ma);
    OneLastUse(states, ops, i, b, kb, mb);
    if kb < ka {
      ClockGrows(states, ops, kb + 1, ka);
    } else if ka == kb {
      FreedForGood(states, ops, ka + 1, i, a);
      FreedForGood(states, ops, ka + 1, i, b);
      OneKey(s, a, b);
    }
  }

  lemma ChosenIsLeast(s: Store, op: Op, a: nat, b: nat)
    requires Inv(s) && Can(s, op) && Cached(s, a) && !Cached(Apply(s, op), a) && Cached(s, b)
    requires a < |s.heap| && b < |s.heap| && (s.heap[a].refcount == 0) == (s.heap[b].refcount == 0)
    ensures s.heap[a].lru <= s.heap[b].lru
  {
    GivenUpIsChosen(s, op, a);
    ChooseIsRight(s);
    var j: nat :| CacheStore.Holds(s, j, b);
    SlotsLive(s, a);
    SlotsLive(s, b);
    assert Candidate(s, s.heap[s.slots[Choose(s)].value].refcount > 0, j);
    assert Lru(s, Choose(s)) <= Lru(s, j);
  }

  lemma SlotsLive(s: Store, a: nat)
    requires Inv(s) && Cached(s, a)
    ensures Live(s, a) && s.heap[a].refcount >= 0
  {
    var j: nat :| CacheStore.Holds(s, j, a);
    assert SlotOk(s, j);
    assert EntryOk(s, a);
    PinsAreNatural(s.contexts, a, |s.contexts|);
  }
}
