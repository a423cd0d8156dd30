/** The state of the PCRE2 pattern cache, and what its operations do to it. */
module CacheStore {
  import opened Wrappers

  type Regex = seq<bv8>

  /** `frees` counts how often the entry was freed; it is live while that is 0. */
  datatype Entry = Entry(flags: nat, regex: Regex, refcount: int, inCache: bool, lru: nat, frees: nat)

  /** `heap` lists every entry ever made; the address of an entry is its place in it.
      `contexts` lists, for each JIT context, the entries whose unpin is registered there. */
  datatype Store = Store(heap: seq<Entry>, slots: seq<Option<nat>>, clock: nat, contexts: seq<seq<nat>>)

  const CACHE_SIZE := 64

  // ---- Registrations ----

  function CountIn(list: seq<nat>, a: nat): nat {
    if list == [] then 0 else CountIn(list[1..], a) + if list[0] == a then 1 else 0
  }

  function Count(contexts: seq<seq<nat>>, a: nat, n: nat): nat
    requires n <= |contexts|
  {
    if n == 0 then 0 else Count(contexts, a, n - 1) + CountIn(contexts[n - 1], a)
  }

  function Pins(s: Store, a: nat): nat {
    Count(s.contexts, a, |s.contexts|)
  }

  lemma {:induction false} ListChanges(contexts: seq<seq<nat>>, c: nat, list: seq<nat>, a: nat, n: nat)
    requires c < |contexts| && n <= |contexts|
    ensures Count(contexts[c := list], a, n) ==
            Count(contexts, a, n) + if c < n then CountIn(list, a) - CountIn(contexts[c], a) else 0
  {
    if n > 0 {
      ListChanges(contexts, c, list, a, n - 1);
    }
  }

  // ---- The invariant ----

  predicate Live(s: Store, a: nat) {
    a < |s.heap| && s.heap[a].frees == 0
  }

  predicate Holds(s: Store, i: nat, a: nat) {
    i < |s.slots| && s.slots[i] == Some(a)
  }

  ghost predicate Cached(s: Store, a: nat) {
    exists i: nat :: Holds(s, i, a)
  }

  predicate SlotOk(s: Store, i: nat)
    requires i < |s.slots|
  {
    s.slots[i].Some? ==> Live(s, s.slots[i].value) && s.heap[s.slots[i].value].inCache
  }

  predicate SameKey(e: Entry, f: Entry) {
    e.flags == f.flags && e.regex == f.regex
  }

  predicate Apart(s: Store, i: nat, j: nat)
    requires i < |s.slots| && j < |s.slots|
  {
    s.slots[i].Some? && s.slots[j].Some? ==>
      && s.slots[i] != s.slots[j]
      && s.slots[i].value < |s.heap| && s.slots[j].value < |s.heap|
      && !SameKey(s.heap[s.slots[i].value], s.heap[s.slots[j].value])
  }

  /** A live entry counts exactly its registrations, and is cached or registered; a freed one
      was freed once and is neither. */
  ghost predicate EntryOk(s: Store, a: nat)
    requires a < |s.heap|
  {
    var e := s.heap[a];
    && e.frees <= 1
    && (e.inCache ==> Cached(s, a))
    && if e.frees == 0 then e.refcount == Pins(s, a) && (e.inCache || e.refcount > 0)
       else !e.inCache && Pins(s, a) == 0
  }

  predicate RegistrationsOk(s: Store) {
    forall c, k | 0 <= c < |s.contexts| && 0 <= k < |s.contexts[c]| :: s.contexts[c][k] < |s.heap|
  }

  predicate SlotsOk(s: Store) {
    && |s.slots| == CACHE_SIZE
    && (forall i: nat | i < |s.slots| :: SlotOk(s, i))
    && (forall i: nat, j: nat | i < j < |s.slots| :: Apart(s, i, j))
  }

  /** The slots hold distinct live entries with distinct keys, and every entry is as it should
      be. */
  ghost predicate Inv(s: Store) {
    && SlotsOk(s)
    && RegistrationsOk(s)
    && (forall a: nat | a < |s.heap| :: EntryOk(s, a))
  }

  // ---- Operations ----

  /** pg_jitter_pcre2_free_entry. */
  function Free(s: Store, a: nat): Store
    requires a < |s.heap|
  {
    s.(heap := s.heap[a := s.heap[a].(frees := s.heap[a].frees + 1)])
  }

  /** pg_jitter_pcre2_unpin_entry. */
  function Unpin(s: Store, a: nat): Store
    requires a < |s.heap|
  {
    var e := s.heap[a].(refcount := s.heap[a].refcount - 1);
    var s' := s.(heap := s.heap[a := e]);
    if e.refcount == 0 && !e.inCache then Free(s', a) else s'
  }

  /** Take the newest registration off a context and unpin its entry. */
  function Unregister(s: Store, c: nat): Store
    requires c < |s.contexts| && s.contexts[c] != [] && s.contexts[c][0] < |s.heap|
  {
    Unpin(s.(contexts := s.contexts[c := s.contexts[c][1..]]), s.contexts[c][0])
  }

  /** pg_jitter_pcre2_pin_entry, when the registration succeeds. */
  function Pin(s: Store, c: nat, a: nat): Store
    requires c < |s.contexts| && a < |s.heap|
  {
    s.(contexts := s.contexts[c := [a] + s.contexts[c]],
       heap := s.heap[a := s.heap[a].(refcount := s.heap[a].refcount + 1)])
  }

  /** pg_jitter_pcre2_evict_slot. */
  function Evict(s: Store, slot: nat): Store
    requires slot < |s.slots| && (s.slots[slot].Some? ==> s.slots[slot].value < |s.heap|)
  {
    if s.slots[slot].None? then s
    else
      var a := s.slots[slot].value;
      var s' := s.(heap := s.heap[a := s.heap[a].(inCache := false)], slots := s.slots[slot := None]);
      if s.heap[a].refcount == 0 then Free(s', a) else s'
  }

  /** A new entry enters a slot as the most recent one; it is not pinned yet. */
  function Publish(s: Store, slot: nat, flags: nat, regex: Regex): Store
    requires slot < |s.slots|
  {
    s.(heap := s.heap + [Entry(flags, regex, 0, true, s.clock + 1, 0)],
       slots := s.slots[slot := Some(|s.heap|)], clock := s.clock + 1)
  }

  function Touch(s: Store, a: nat): Store
    requires a < |s.heap|
  {
    s.(clock := s.clock + 1, heap := s.heap[a := s.heap[a].(lru := s.clock + 1)])
  }

  // ---- Every operation keeps the invariant ----

  /** Entries other than a are as they were, in the same slots and registrations. */
  ghost predicate OthersSame(s: Store, s': Store, a: nat) {
    && |s.heap| <= |s'.heap|
    && |s'.slots| == |s.slots|
    && (forall b: nat | b < |s.heap| && b != a :: s'.heap[b] == s.heap[b])
    && (forall b: nat | b < |s.heap| && b != a :: Pins(s', b) == Pins(s, b))
    && (forall i: nat, b: nat | b < |s.heap| && b != a :: Holds(s', i, b) == Holds(s, i, b))
  }

  lemma OthersOk(s: Store, s': Store, a: nat)
    requires Inv(s) && OthersSame(s, s', a)
    ensures forall b: nat | b < |s.heap| && b != a :: EntryOk(s', b)
  {
    forall b: nat | b < |s.heap| && b != a ensures EntryOk(s', b) {
      assert EntryOk(s, b);
      if s.heap[b].inCache {
        var i: nat :| Holds(s, i, b);
        assert Holds(s', i, b);
      }
    }
  }

  lemma RegisteredIsLive(s: Store, c: nat, k: nat)
    requires Inv(s) && c < |s.contexts| && k < |s.contexts[c]|
    ensures Live(s, s.contexts[c][k]) && s.heap[s.contexts[c][k]].refcount > 0
  {
    var a := s.contexts[c][k];
    Counted(s.contexts[c], k);
    CountGrows(s.contexts, a, c, |s.contexts|);
    assert EntryOk(s, a);
  }

  lemma {:induction false} Counted(list: seq<nat>, k: nat)
    requires k < |list|
    ensures CountIn(list, list[k]) > 0
  {
    if k > 0 {
      Counted(list[1..], k - 1);
    }
  }

  lemma {:induction false} CountGrows(contexts: seq<seq<nat>>, a: nat, c: nat, n: nat)
    requires c < n <= |contexts|
    ensures Count(contexts, a, n) >= CountIn(contexts[c], a)
  {
    if c < n - 1 {
      CountGrows(contexts, a, c, n - 1);
    }
  }

  lemma UnregisterKeepsInv(s: Store, c: nat)
    requires Inv(s) && c < |s.contexts| && s.contexts[c] != []
    ensures s.contexts[c][0] < |s.heap|
    ensures Inv(Unregister(s, c))
  {
    var a, rest := s.contexts[c][0], s.contexts[c][1..];
    var s' := Unregister(s, c);
    RegisteredIsLive(s, c, 0);
    assert EntryOk(s, a);
    forall b: nat ensures Pins(s', b) == Pins(s, b) - if b == a then 1 else 0 {
      ListChanges(s.contexts, c, rest, b, |s.contexts|);
    }
    OthersOk(s, s', a);
    SlotsStay(s, s', a);
    KeepsCached(s, s', a);
  }

  /** The slots are the same and the cached entries keep their keys. */
  lemma SlotsStay(s: Store, s': Store, a: nat)
    requires Inv(s) && s'.slots == s.slots && a < |s.heap| <= |s'.heap|
    requires forall b: nat | b < |s.heap| && b != a :: s'.heap[b] == s.heap[b]
    requires SameKey(s'.heap[a], s.heap[a]) && s'.heap[a].inCache == s.heap[a].inCache
    requires s.heap[a].inCache ==> s'.heap[a].frees == 0
    ensures SlotsOk(s')
  {
    forall i: nat | i < |s.slots| ensures SlotOk(s', i) {
      assert SlotOk(s, i);
    }
    forall i: nat, j: nat | i < j < |s.slots| ensures Apart(s', i, j) {
      assert Apart(s, i, j);
    }
  }

  lemma KeepsCached(s: Store, s': Store, a: nat)
    requires s'.slots == s.slots
    ensures Cached(s', a) == Cached(s, a)
  {
    if Cached(s, a) {
      var i: nat :| Holds(s, i, a);
      assert Holds(s', i, a);
    }
    if Cached(s', a) {
      var i: nat :| Holds(s', i, a);
      assert Holds(s, i, a);
    }
  }

  lemma PinKeepsInv(s: Store, c: nat, a: nat)
    requires Inv(s) && c < |s.contexts| && Live(s, a)
    ensures Inv(Pin(s, c, a))
  {
    var s' := Pin(s, c, a);
    var list := [a] + s.contexts[c];
    assert list[1..] == s.contexts[c];
    assert EntryOk(s, a);
    forall b: nat ensures Pins(s', b) == Pins(s, b) + if b == a then 1 else 0 {
      ListChanges(s.contexts, c, list, b, |s.contexts|);
    }
    OthersOk(s, s', a);
    SlotsStay(s, s', a);
    KeepsCached(s, s', a);
  }

  lemma TouchKeepsInv(s: Store, a: nat)
    requires Inv(s) && Live(s, a)
    ensures Inv(Touch(s, a))
  {
    var s' := Touch(s, a);
    assert EntryOk(s, a);
    OthersOk(s, s', a);
    SlotsStay(s, s', a);
    KeepsCached(s, s', a);
  }

  /** An evicted entry is freed at once if nothing pins it, and otherwise lives on. */
  lemma EvictKeepsInv(s: Store, slot: nat)
    requires Inv(s) && slot < |s.slots|
    ensures SlotOk(s, slot)
    ensures Inv(Evict(s, slot)) && Evict(s, slot).slots == s.slots[slot := None]
  {
    assert SlotOk(s, slot);
    if s.slots[slot].Some? {
      var a := s.slots[slot].value;
      var s' := Evict(s, slot);
      assert EntryOk(s, a);
      OthersOk(s, s', a);
      EvictedSlots(s, s', slot);
    }
  }

  lemma EvictedSlots(s: Store, s': Store, slot: nat)
    requires Inv(s) && slot < |s.slots| && s.slots[slot].Some? && s'.slots == s.slots[slot := None]
    requires |s'.heap| == |s.heap|
    requires forall b: nat | b < |s.heap| && Some(b) != s.slots[slot] :: s'.heap[b] == s.heap[b]
    ensures SlotsOk(s')
  {
    forall i: nat | i < |s.slots| ensures SlotOk(s', i) {
      assert SlotOk(s, i);
      NotTwice(s, slot, i);
    }
    forall i: nat, j: nat | i < j < |s.slots| ensures Apart(s', i, j) {
      assert Apart(s, i, j);
      NotTwice(s, slot, i);
      NotTwice(s, slot, j);
    }
  }

  lemma NotTwice(s: Store, i: nat, j: nat)
    requires SlotsOk(s) && i < |s.slots| && j < |s.slots| && s.slots[i].Some?
    ensures i != j ==> s.slots[i] != s.slots[j]
  {
    if i < j {
      assert Apart(s, i, j);
    } else if j < i {
      assert Apart(s, j, i);
    }
  }

  /** No slot holds the key. */
  predicate KeyIsNew(s: Store, flags: nat, regex: Regex) {
    forall i | 0 <= i < |s.slots| && s.slots[i].Some? && s.slots[i].value < |s.heap| ::
      !(s.heap[s.slots[i].value].flags == flags && s.heap[s.slots[i].value].regex == regex)
  }

  lemma PublishKeepsInv(s: Store, slot: nat, flags: nat, regex: Regex)
    requires Inv(s) && slot < |s.slots| && s.slots[slot].None? && KeyIsNew(s, flags, regex)
    ensures Inv(Publish(s, slot, flags, regex)) && Live(Publish(s, slot, flags, regex), |s.heap|)
  {
    var s' := Publish(s, slot, flags, regex);
    var a := |s.heap|;
    NeverRegistered(s, a, |s.contexts|);
    assert Holds(s', slot, a);
    forall i: nat, b: nat | b < a ensures Holds(s', i, b) == Holds(s, i, b) {
      assert i == slot ==> !Holds(s, i, b);
    }
    OthersOk(s, s', a);
    forall i: nat | i < |s.slots| ensures SlotOk(s', i) {
      assert SlotOk(s, i);
    }
    forall i: nat, j: nat | i < j < |s.slots| ensures Apart(s', i, j) {
      assert Apart(s, i, j) && SlotOk(s, i) && SlotOk(s, j);
    }
  }

  lemma {:induction false} NeverRegistered(s: Store, a: nat, n: nat)
    requires RegistrationsOk(s) && n <= |s.contexts| && a >= |s.heap|
    ensures Count(s.contexts, a, n) == 0
  {
    if n > 0 {
      NeverRegistered(s, a, n - 1);
      NotIn(s.contexts[n - 1], a);
    }
  }

  lemma {:induction false} NotIn(list: seq<nat>, a: nat)
    requires forall k | 0 <= k < |list| :: list[k] != a
    ensures CountIn(list, a) == 0
  {
    if list != [] {
      NotIn(list[1..], a);
    }
  }

  // ---- Which slot to use ----

  predicate Candidate(s: Store, pinned: bool, i: nat)
    requires i < |s.slots|
  {
    s.slots[i].Some? && s.slots[i].value < |s.heap| && (s.heap[s.slots[i].value].refcount != 0) == pinned
  }

  function Lru(s: Store, i: nat): nat
    requires i < |s.slots| && s.slots[i].Some? && s.slots[i].value < |s.heap|
  {
    s.heap[s.slots[i].value].lru
  }

  /** The least recently used of the first n slots that are (not) pinned, or -1. */
  function Oldest(s: Store, pinned: bool, n: nat): (r: int)
    requires n <= |s.slots|
    ensures -1 <= r < n
    ensures r >= 0 ==> Candidate(s, pinned, r)
  {
    if n == 0 then -1
    else
      var r := Oldest(s, pinned, n - 1);
      if Candidate(s, pinned, n - 1) && (r < 0 || Lru(s, n - 1) < Lru(s, r)) then n - 1 else r
  }

  lemma {:induction false} OldestIsLeast(s: Store, pinned: bool, n: nat, i: nat)
    requires i < n <= |s.slots| && Candidate(s, pinned, i)
    ensures Oldest(s, pinned, n) >= 0 && Lru(s, Oldest(s, pinned, n)) <= Lru(s, i)
  {
    if i < n - 1 {
      OldestIsLeast(s, pinned, n - 1, i);
    }
  }

  function FirstEmpty(s: Store, i: nat): (r: int)
    requires i <= |s.slots|
    ensures r == -1 || (i <= r < |s.slots| && s.slots[r].None?)
    ensures r == -1 ==> forall j | i <= j < |s.slots| :: s.slots[j].Some?
    decreases |s.slots| - i
  {
    if i == |s.slots| then -1 else if s.slots[i].None? then i else FirstEmpty(s, i + 1)
  }

  /** pg_jitter_pcre2_choose_slot. */
  function Choose(s: Store): int {
    if FirstEmpty(s, 0) >= 0 then FirstEmpty(s, 0)
    else if Oldest(s, false, |s.slots|) >= 0 then Oldest(s, false, |s.slots|)
    else Oldest(s, true, |s.slots|)
  }

  /** There is always a slot to use; one in use is taken only when all are, a pinned one only
      when all are pinned, and among those in question the least recently used. */
  lemma ChooseIsRight(s: Store)
    requires Inv(s)
    ensures 0 <= Choose(s) < |s.slots|
    ensures s.slots[Choose(s)].Some? ==> forall i | 0 <= i < |s.slots| :: s.slots[i].Some?
    ensures s.slots[Choose(s)].Some? && s.heap[s.slots[Choose(s)].value].refcount > 0 ==>
              forall i: nat | i < |s.slots| :: Candidate(s, true, i)
    ensures s.slots[Choose(s)].Some? ==>
              forall i: nat | i < |s.slots| && Candidate(s, s.heap[s.slots[Choose(s)].value].refcount > 0, i) ::
                Lru(s, Choose(s)) <= Lru(s, i)
  {
    forall i: nat | i < |s.slots| && s.slots[i].Some? ensures Candidate(s, true, i) || Candidate(s, false, i) {
      assert SlotOk(s, i);
    }
    forall pinned: bool, i: nat | i < |s.slots| && Candidate(s, pinned, i)
      ensures Oldest(s, pinned, |s.slots|) >= 0 && Lru(s, Oldest(s, pinned, |s.slots|)) <= Lru(s, i)
    {
      OldestIsLeast(s, pinned, |s.slots|, i);
    }
    if FirstEmpty(s, 0) < 0 {
      assert s.slots[0].Some?;
      assert SlotOk(s, Choose(s));
      assert EntryOk(s, s.slots[Choose(s)].value);
    }
  }

  // ---- Compile ----

  predicate KeyAt(s: Store, flags: nat, regex: Regex, i: nat)
    requires i < |s.slots|
  {
    && s.slots[i].Some? && s.slots[i].value < |s.heap|
    && s.heap[s.slots[i].value].flags == flags && s.heap[s.slots[i].value].regex == regex
  }

  function FindKey(s: Store, flags: nat, regex: Regex, i: nat): (r: int)
    requires i <= |s.slots|
    ensures r == -1 || (i <= r < |s.slots| && KeyAt(s, flags, regex, r))
    ensures r == -1 ==> forall j | i <= j < |s.slots| :: !KeyAt(s, flags, regex, j)
    decreases |s.slots| - i
  {
    if i == |s.slots| then -1 else if KeyAt(s, flags, regex, i) then i else FindKey(s, flags, regex, i + 1)
  }

  datatype Reply = Nothing | Raised | Got(a: nat)

  /** What lies outside: whether the pattern is eligible and could be translated, whether PCRE2
      compiles it, whether its match context can be made, and whether registering raises. */
  datatype Luck = Luck(usable: bool, compiled: bool, matchContext: bool, registerRaises: bool)

  /** A cached entry is touched and pinned. */
  function Hit(s: Store, c: nat, a: nat, luck: Luck): (Store, Reply)
    requires c < |s.contexts| && a < |s.heap|
  {
    var s1 := Touch(s, a);
    if luck.registerRaises then (s1, Raised) else (Pin(s1, c, a), Got(a))
  }

  /** pg_jitter_pcre2_publish_and_pin_entry: when registering raises, the entry is taken out of
      its slot and freed again. */
  function PublishAndPin(s: Store, c: nat, slot: nat, flags: nat, regex: Regex, luck: Luck): (Store, Reply)
    requires c < |s.contexts| && slot < |s.slots|
  {
    var s1 := Publish(s, slot, flags, regex);
    if luck.registerRaises then (Evict(s1, slot), Raised) else (Pin(s1, c, |s.heap|), Got(|s.heap|))
  }

  function Miss(s: Store, c: nat, flags: nat, regex: Regex, luck: Luck): (Store, Reply)
    requires Inv(s) && c < |s.contexts|
  {
    ChooseIsRight(s);
    EvictKeepsInv(s, Choose(s));
    var s1 := Evict(s, Choose(s));
    if !luck.matchContext then (s1, Nothing) else PublishAndPin(s1, c, Choose(s), flags, regex, luck)
  }

  /** pg_jitter_pcre2_compile. */
  function Compile(s: Store, c: nat, flags: nat, regex: Regex, luck: Luck): (Store, Reply)
    requires Inv(s) && c < |s.contexts|
  {
    if !luck.usable then (s, Nothing)
    else
      var i := FindKey(s, flags, regex, 0);
      if i >= 0 then Hit(s, c, s.slots[i].value, luck)
      else if !luck.compiled then (s, Nothing)
      else Miss(s, c, flags, regex, luck)
  }

  lemma PublishAndPinKeepsInv(s: Store, c: nat, slot: nat, flags: nat, regex: Regex, luck: Luck)
    requires Inv(s) && c < |s.contexts| && slot < |s.slots| && s.slots[slot].None? && KeyIsNew(s, flags, regex)
    ensures Inv(PublishAndPin(s, c, slot, flags, regex, luck).0)
  {
    PublishKeepsInv(s, slot, flags, regex);
    var s1 := Publish(s, slot, flags, regex);
    if luck.registerRaises {
      EvictKeepsInv(s1, slot);
    } else {
      PinKeepsInv(s1, c, |s.heap|);
    }
  }

  lemma EvictKeepsNew(s: Store, slot: nat, flags: nat, regex: Regex)
    requires Inv(s) && slot < |s.slots| && FindKey(s, flags, regex, 0) < 0
    ensures SlotOk(s, slot) && KeyIsNew(Evict(s, slot), flags, regex)
  {
    EvictKeepsInv(s, slot);
    var s' := Evict(s, slot);
    forall i | 0 <= i < |s'.slots| && s'.slots[i].Some? && s'.slots[i].value < |s'.heap|
      ensures !(s'.heap[s'.slots[i].value].flags == flags && s'.heap[s'.slots[i].value].regex == regex)
    {
      assert !KeyAt(s, flags, regex, i);
    }
  }

  lemma CompileKeepsInv(s: Store, c: nat, flags: nat, regex: Regex, luck: Luck)
    requires Inv(s) && c < |s.contexts|
    ensures Inv(Compile(s, c, flags, regex, luck).0)
  {
    var i := FindKey(s, flags, regex, 0);
    if i >= 0 {
      assert SlotOk(s, i);
      var a := s.slots[i].value;
      TouchKeepsInv(s, a);
      PinKeepsInv(Touch(s, a), c, a);
    } else {
      ChooseIsRight(s);
      EvictKeepsInv(s, Choose(s));
      EvictKeepsNew(s, Choose(s), flags, regex);
      if luck.matchContext {
        PublishAndPinKeepsInv(Evict(s, Choose(s)), c, Choose(s), flags, regex, luck);
      }
    }
  }

  /** An entry that is handed out has the key that was asked for, is live, and is registered in
      the context that asked; a key that is cached is never compiled again. */
  lemma CompileGives(s: Store, c: nat, flags: nat, regex: Regex, luck: Luck)
    requires Inv(s) && c < |s.contexts| && Compile(s, c, flags, regex, luck).1.Got?
    ensures var (s', reply) := Compile(s, c, flags, regex, luck);
            && Live(s', reply.a) && s'.heap[reply.a].flags == flags && s'.heap[reply.a].regex == regex
            && |s'.contexts| == |s.contexts| && s'.contexts[c] == [reply.a] + s.contexts[c]
            && (|s'.heap| > |s.heap| <==> forall i: nat | i < |s.slots| :: !KeyAt(s, flags, regex, i))
  {
    CompileKeepsInv(s, c, flags, regex, luck);
    var i := FindKey(s, flags, regex, 0);
    if i >= 0 {
      assert SlotOk(s, i);
    } else {
      ChooseIsRight(s);
      EvictKeepsInv(s, Choose(s));
      RegisteredIsLive(Compile(s, c, flags, regex, luck).0, c, 0);
    }
  }
}
