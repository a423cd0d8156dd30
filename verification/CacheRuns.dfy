/** Runs of the pattern cache: any sequence of contexts attached, patterns asked for and contexts
    released. */
module CacheRuns {
  import opened CacheStore
  import opened PatternCache
  import opened Wrappers

  datatype Op =
    | Attach
    | Ask(c: nat, flags: nat, regex: Regex, luck: Luck)
    | Release(c: nat)

  predicate Can(s: Store, op: Op) {
    op.Attach? || op.c < |s.contexts|
  }

  function Apply(s: Store, op: Op): Store
    requires Inv(s) && Can(s, op)
  {
    match op
    case Attach => s.(contexts := s.contexts + [[]])
    case Ask(c, flags, regex, luck) => Compile(s, c, flags, regex, luck).0
    case Release(c) => Released(s, c)
  }

  function EmptyStore(): Store {
    Store([], seq(CACHE_SIZE, i => None), 0, [])
  }

  /** The invariant is not part of what a run is: it says where an operation is defined. */
  ghost predicate Run(states: seq<Store>, ops: seq<Op>) {
    && |states| == |ops| + 1
    && states[0] == EmptyStore()
    && forall i | 0 <= i < |ops| ::
         Can(states[i], ops[i]) && (Inv(states[i]) ==> states[i + 1] == Apply(states[i], ops[i]))
  }

  // ---- What every operation leaves alone ----

  /** No entry changes its key or is brought back, and the registrations of contexts other than
      `except` stay. */
  ghost predicate Keeps(s: Store, s': Store, except: int) {
    && |s.heap| <= |s'.heap|
    && (forall a: nat | a < |s.heap| :: SameKey(s'.heap[a], s.heap[a]) && s'.heap[a].frees >= s.heap[a].frees)
    && |s.contexts| <= |s'.contexts|
    && (forall c: nat, a: nat | c < |s.contexts| && c != except && a in s.contexts[c] :: a in s'.contexts[c])
  }

  lemma KeepsOn(s: Store, s': Store, s'': Store, except: int)
    requires Keeps(s, s', except) && Keeps(s', s'', except)
    ensures Keeps(s, s'', except)
  {
  }

  lemma UnregisterKeeps(s: Store, c: nat)
    requires c < |s.contexts| && s.contexts[c] != [] && s.contexts[c][0] < |s.heap|
    ensures Keeps(s, Unregister(s, c), c)
  {
  }

  lemma {:induction false} ReleaseKeeps(s: Store, c: nat)
    requires Inv(s) && c < |s.contexts|
    ensures Inv(Released(s, c)) && Keeps(s, Released(s, c), c)
    decreases |s.contexts[c]|
  {
    if s.contexts[c] != [] {
      UnregisterKeepsInv(s, c);
      UnregisterKeeps(s, c);
      ReleaseKeeps(Unregister(s, c), c);
      KeepsOn(s, Unregister(s, c), Released(s, c), c);
    }
  }

  lemma PinKeeps(s: Store, c: nat, a: nat)
    requires c < |s.contexts| && a < |s.heap|
    ensures Keeps(s, Pin(s, c, a), -1)
  {
  }

  lemma MissKeeps(s: Store, c: nat, flags: nat, regex: Regex, luck: Luck)
    requires Inv(s) && c < |s.contexts|
    ensures Keeps(s, Miss(s, c, flags, regex, luck).0, -1)
  {
    ChooseIsRight(s);
    var slot := Choose(s);
    EvictKeepsInv(s, slot);
    var s1 := Evict(s, slot);
    assert Keeps(s, s1, -1);
    if luck.matchContext {
      var s2 := Publish(s1, slot, flags, regex);
      assert Keeps(s1, s2, -1);
      KeepsOn(s, s1, s2, -1);
      if luck.registerRaises {
        assert Keeps(s2, Evict(s2, slot), -1);
        KeepsOn(s, s2, Evict(s2, slot), -1);
      } else {
        PinKeeps(s2, c, |s1.heap|);
        KeepsOn(s, s2, Pin(s2, c, |s1.heap|), -1);
      }
    }
  }

  lemma CompileKeeps(s: Store, c: nat, flags: nat, regex: Regex, luck: Luck)
    requires Inv(s) && c < |s.contexts|
    ensures Keeps(s, Compile(s, c, flags, regex, luck).0, -1)
  {
    var i := FindKey(s, flags, regex, 0);
    if luck.usable && i >= 0 {
      var s1 := Touch(s, s.slots[i].value);
      assert Keeps(s, s1, -1);
      if !luck.registerRaises {
        PinKeeps(s1, c, s.slots[i].value);
        KeepsOn(s, s1, Pin(s1, c, s.slots[i].value), -1);
      }
    } else if luck.usable && luck.compiled {
      MissKeeps(s, c, flags, regex, luck);
    }
  }

  lemma AttachKeepsInv(s: Store)
    requires Inv(s)
    ensures Inv(Apply(s, Attach))
  {
    var s' := Apply(s, Attach);
    forall a: nat | a < |s.heap| ensures EntryOk(s', a) {
      assert EntryOk(s, a);
      SameCount(s.contexts, s'.contexts, a, |s.contexts|);
      assert Pins(s', a) == Pins(s, a);
      if s.heap[a].inCache {
        var i: nat :| CacheStore.Holds(s, i, a);
        assert CacheStore.Holds(s', i, a);
      }
    }
    forall i: nat | i < |s.slots| ensures SlotOk(s', i) {
      assert SlotOk(s, i);
    }
    forall i: nat, j: nat | i < j < |s.slots| ensures Apart(s', i, j) {
      assert Apart(s, i, j);
    }
  }

  lemma {:induction false} SameCount(contexts: seq<seq<nat>>, contexts': seq<seq<nat>>, a: nat, n: nat)
    requires n <= |contexts| <= |contexts'| && forall c | 0 <= c < |contexts| :: contexts'[c] == contexts[c]
    ensures Count(contexts', a, n) == Count(contexts, a, n)
  {
    if n > 0 {
      SameCount(contexts, contexts', a, n - 1);
    }
  }

  /** The context an operation releases, if any. */
  function Except(op: Op): int {
    if op.Release? then op.c else -1
  }

  lemma ApplyKeeps(s: Store, op: Op)
    requires Inv(s) && Can(s, op)
    ensures Inv(Apply(s, op)) && Keeps(s, Apply(s, op), Except(op))
  {
    match op
    case Attach => AttachKeepsInv(s);
    case Ask(c, flags, regex, luck) =>
      CompileKeepsInv(s, c, flags, regex, luck);
      CompileKeeps(s, c, flags, regex, luck);
    case Release(c) => ReleaseKeeps(s, c);
  }

  // ---- Whole runs ----

  lemma EmptyStoreOk()
    ensures Inv(EmptyStore())
  {
  }

  /** The invariant holds in every state of every run. */
  lemma {:induction false} AlwaysInv(states: seq<Store>, ops: seq<Op>, i: nat)
    requires Run(states, ops) && i < |states|
    ensures Inv(states[i])
  {
    if i == 0 {
      EmptyStoreOk();
    } else {
      AlwaysInv(states, ops, i - 1);
      ApplyKeeps(states[i - 1], ops[i - 1]);
    }
  }

  /** In every state of every run an entry is freed at most once, and not while it is pinned or in
      the cache; its reference count is the number of its registrations; and no two slots hold the
      same key. */
  lemma SafeInEveryRun(states: seq<Store>, ops: seq<Op>, i: nat, a: nat)
    requires Run(states, ops) && i < |states| && a < |states[i].heap|
    ensures states[i].heap[a].frees <= 1
    ensures states[i].heap[a].frees == 1 ==> Pins(states[i], a) == 0 && !Cached(states[i], a)
    ensures states[i].heap[a].frees == 0 ==> states[i].heap[a].refcount == Pins(states[i], a)
    ensures forall j: nat, k: nat | j < k < |states[i].slots| :: Apart(states[i], j, k)
  {
    AlwaysInv(states, ops, i);
    assert EntryOk(states[i], a);
    if Cached(states[i], a) {
      var k: nat :| CacheStore.Holds(states[i], k, a);
      assert SlotOk(states[i], k);
    }
  }

  /** What was freed stays freed, and no entry changes its key. */
  lemma {:induction false} FreedForGood(states: seq<Store>, ops: seq<Op>, i: nat, j: nat, a: nat)
    requires Run(states, ops) && i <= j < |states| && a < |states[i].heap|
    ensures a < |states[j].heap| && SameKey(states[j].heap[a], states[i].heap[a])
    ensures states[i].heap[a].frees == 1 ==> states[j].heap[a].frees == 1
    decreases j
  {
    AlwaysInv(states, ops, j);
    if i < j {
      AlwaysInv(states, ops, j - 1);
      FreedForGood(states, ops, i, j - 1, a);
      ApplyKeeps(states[j - 1], ops[j - 1]);
      assert EntryOk(states[j], a);
    }
  }

  /** A registration lasts until its context is released. */
  lemma {:induction false} StaysRegistered(states: seq<Store>, ops: seq<Op>, i: nat, j: nat, c: nat, a: nat)
    requires Run(states, ops) && i <= j < |states|
    requires c < |states[i].contexts| && a in states[i].contexts[c]
    requires forall k | i <= k < j :: ops[k] != Release(c)
    ensures c < |states[j].contexts| && a in states[j].contexts[c]
    decreases j
  {
    if i < j {
      StaysRegistered(states, ops, i, j - 1, c, a);
      AlwaysInv(states, ops, j - 1);
      ApplyKeeps(states[j - 1], ops[j - 1]);
    }
  }

  /** An entry that was handed out to a context stays live, with the key that was asked for, until
      that context is released, whatever happens to the cache in between. */
  lemma HandedOutStaysLive(states: seq<Store>, ops: seq<Op>, i: nat, j: nat)
    requires Run(states, ops) && i < j < |states| && ops[i].Ask?
    requires Inv(states[i]) && Compile(states[i], ops[i].c, ops[i].flags, ops[i].regex, ops[i].luck).1.Got?
    requires forall k | i < k < j :: ops[k] != Release(ops[i].c)
    ensures var a := Compile(states[i], ops[i].c, ops[i].flags, ops[i].regex, ops[i].luck).1.a;
            && Live(states[j], a)
            && states[j].heap[a].flags == ops[i].flags && states[j].heap[a].regex == ops[i].regex
  {
    var c, a := ops[i].c, Compile(states[i], ops[i].c, ops[i].flags, ops[i].regex, ops[i].luck).1.a;
    CompileGives(states[i], c, ops[i].flags, ops[i].regex, ops[i].luck);
    assert states[i + 1].contexts[c][0] == a;
    StaysRegistered(states, ops, i + 1, j, c, a);
    FreedForGood(states, ops, i + 1, j, a);
    AlwaysInv(states, ops, j);
    var k :| 0 <= k < |states[j].contexts[c]| && states[j].contexts[c][k] == a;
    RegisteredIsLive(states[j], c, k);
  }
}
