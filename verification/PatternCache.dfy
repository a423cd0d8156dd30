/** The PCRE2 pattern cache itself: 64 slots, a clock, and entries that outlive their slot while
    generated code refers to them. */
module PatternCache {
  import opened CacheStore
  import opened Wrappers

  class Cache {
    const slots: array<Option<nat>>
    var heap: seq<Entry>
    var clock: nat
    var contexts: seq<seq<nat>>

    constructor (numContexts: nat)
      ensures Valid() && fresh(slots)
      ensures contexts == seq(numContexts, i => [])
    {
      slots := new Option<nat>[CACHE_SIZE](i => None);
      heap, clock, contexts := [], 0, seq(numContexts, i => []);
    }

    ghost function State(): Store
      reads this, slots
    {
      Store(heap, slots[..], clock, contexts)
    }

    ghost predicate Valid()
      reads this, slots
    {
      Inv(State())
    }

    method FreeEntry(a: nat)
      requires a < |heap|
      modifies this`heap
      ensures State() == Free(old(State()), a)
    {
      heap := heap[a := heap[a].(frees := heap[a].frees + 1)];
    }

    method UnpinEntry(a: nat)
      requires a < |heap|
      modifies this`heap
      ensures State() == Unpin(old(State()), a)
    {
      heap := heap[a := heap[a].(refcount := heap[a].refcount - 1)];
      if heap[a].refcount == 0 && !heap[a].inCache {
        FreeEntry(a);
      }
    }

    /** Register the unpin, then count it; nothing happens when registering raises. */
    method PinEntry(c: nat, a: nat, raises: bool) returns (reply: Reply)
      requires c < |contexts| && a < |heap|
      modifies this`contexts, this`heap
      ensures reply == if raises then Raised else Got(a)
      ensures State() == if raises then old(State()) else Pin(old(State()), c, a)
    {
      if raises {
        return Raised;
      }
      contexts := contexts[c := [a] + contexts[c]];
      heap := heap[a := heap[a].(refcount := heap[a].refcount + 1)];
      return Got(a);
    }

    method EvictSlot(slot: nat)
      requires Valid() && slot < slots.Length
      modifies this`heap, slots
      ensures Valid() && SlotOk(old(State()), slot)
      ensures State() == Evict(old(State()), slot)
    {
      EvictKeepsInv(State(), slot);
      ghost var before := State();
      if slots[slot].Some? {
        var a := slots[slot].value;
        heap := heap[a := heap[a].(inCache := false)];
        slots[slot] := None;
        if heap[a].refcount == 0 {
          FreeEntry(a);
        }
      }
    }

    /** The first empty slot, else the least recently used unpinned one, else the least
        recently used one. */
    method ChooseSlot() returns (slot: int)
      requires Valid()
      ensures slot == Choose(State())
    {
      var unpinned, pinned := -1, -1;
      var i := 0;
      while i < slots.Length
        invariant 0 <= i <= slots.Length
        invariant FirstEmpty(State(), 0) == FirstEmpty(State(), i)
        invariant unpinned == Oldest(State(), false, i) && pinned == Oldest(State(), true, i)
      {
        if slots[i].None? {
          return i;
        }
        assert SlotOk(State(), i);
        var e := heap[slots[i].value];
        if e.refcount == 0 {
          if unpinned < 0 || e.lru < heap[slots[unpinned].value].lru {
            unpinned := i;
          }
        } else if pinned < 0 || e.lru < heap[slots[pinned].value].lru {
          pinned := i;
        }
        i := i + 1;
      }
      return if unpinned >= 0 then unpinned else pinned;
    }

    method FindSlot(flags: nat, regex: Regex) returns (slot: int)
      requires Valid()
      ensures slot == FindKey(State(), flags, regex, 0)
    {
      var i := 0;
      while i < slots.Length
        invariant 0 <= i <= slots.Length
        invariant FindKey(State(), flags, regex, 0) == FindKey(State(), flags, regex, i)
      {
        assert SlotOk(State(), i);
        if slots[i].Some? {
          var e := heap[slots[i].value];
          if e.flags == flags && |e.regex| == |regex| && e.regex == regex {
            return i;
          }
        }
        i := i + 1;
      }
      return -1;
    }

    method PublishAndPinEntry(c: nat, slot: nat, flags: nat, regex: Regex, luck: Luck) returns (reply: Reply)
      requires Valid() && c < |contexts| && slot < slots.Length
      requires slots[slot].None? && KeyIsNew(State(), flags, regex)
      modifies this, slots
      ensures Valid()
      ensures (State(), reply) == PublishAndPin(old(State()), c, slot, flags, regex, luck)
    {
      ghost var before := State();
      PublishKeepsInv(before, slot, flags, regex);
      PublishAndPinKeepsInv(before, c, slot, flags, regex, luck);
      var a := |heap|;
      clock := clock + 1;
      heap := heap + [Entry(flags, regex, 0, true, clock, 0)];
      slots[slot] := Some(a);
      assert State() == Publish(before, slot, flags, regex);
      reply := PinEntry(c, a, luck.registerRaises);
      if reply == Raised {
        EvictSlot(slot);
      }
    }

    method UseCached(c: nat, slot: nat, luck: Luck) returns (reply: Reply)
      requires Valid() && c < |contexts| && slot < slots.Length && slots[slot].Some?
      requires slots[slot].value < |heap|
      modifies this`heap, this`clock, this`contexts
      ensures (State(), reply) == Hit(old(State()), c, old(slots[slot].value), luck)
    {
      var a := slots[slot].value;
      clock := clock + 1;
      heap := heap[a := heap[a].(lru := clock)];
      reply := PinEntry(c, a, luck.registerRaises);
    }

    method CompileNew(c: nat, flags: nat, regex: Regex, luck: Luck) returns (reply: Reply)
      requires Valid() && c < |contexts| && FindKey(State(), flags, regex, 0) < 0
      modifies this, slots
      ensures (State(), reply) == Miss(old(State()), c, flags, regex, luck)
    {
      ghost var before := State();
      ChooseIsRight(before);
      var slot := ChooseSlot();
      EvictKeepsInv(before, slot);
      EvictKeepsNew(before, slot, flags, regex);
      EvictSlot(slot);
      if !luck.matchContext {
        return Nothing;
      }
      assert State().slots[slot].None?;
      reply := PublishAndPinEntry(c, slot, flags, regex, luck);
    }

    /** pg_jitter_pcre2_compile, after the pattern has been translated. */
    method CompilePattern(c: nat, flags: nat, regex: Regex, luck: Luck) returns (reply: Reply)
      requires Valid() && c < |contexts|
      modifies this, slots
      ensures Valid()
      ensures (State(), reply) == Compile(old(State()), c, flags, regex, luck)
    {
      ghost var before := State();
      CompileKeepsInv(before, c, flags, regex, luck);
      if !luck.usable {
        return Nothing;
      }
      var slot := FindSlot(flags, regex);
      if slot >= 0 {
        assert SlotOk(before, slot);
        reply := UseCached(c, slot, luck);
        return;
      }
      if !luck.compiled {
        return Nothing;
      }
      reply := CompileNew(c, flags, regex, luck);
    }

    /** The part of pg_jitter_release_context that concerns the cache: every registration of the
        context is undone, the newest first. */
    method ReleaseContext(c: nat)
      requires Valid() && c < |contexts|
      modifies this`contexts, this`heap
      ensures Valid() && |contexts| == old(|contexts|) && contexts[c] == []
      ensures State() == Released(old(State()), c)
    {
      ghost var target := Released(State(), c);
      while |contexts[c]| > 0
        invariant Valid() && |contexts| == old(|contexts|)
        invariant Released(State(), c) == target
        decreases |contexts[c]|
      {
        UnregisterKeepsInv(State(), c);
        var a := contexts[c][0];
        contexts := contexts[c := contexts[c][1..]];
        UnpinEntry(a);
      }
    }
  }

  function Released(s: Store, c: nat): Store
    requires Inv(s) && c < |s.contexts|
    decreases |s.contexts[c]|
  {
    if s.contexts[c] == [] then s
    else
      UnregisterKeepsInv(s, c);
      Released(Unregister(s, c), c)
  }

  // ---- What callers rely on ----

  /** Releasing a context leaves the registrations of every other context alone, so an entry
      that is registered elsewhere stays live. */
  lemma {:induction false} ReleaseSparesOthers(s: Store, c: nat, other: nat, k: nat)
    requires Inv(s) && c < |s.contexts| && other < |s.contexts| && other != c && k < |s.contexts[other]|
    ensures Inv(Released(s, c))
    ensures Released(s, c).contexts == s.contexts[c := []]
    ensures Live(Released(s, c), s.contexts[other][k])
    decreases |s.contexts[c]|
  {
    if s.contexts[c] == [] {
      RegisteredIsLive(s, other, k);
      assert s.contexts[c := []] == s.contexts;
    } else {
      UnregisterKeepsInv(s, c);
      ReleaseSparesOthers(Unregister(s, c), c, other, k);
    }
  }

  /** When every context is released, no entry is pinned: what is live is in the cache, and
      everything else was freed exactly once. */
  lemma NothingLeaks(s: Store, a: nat)
    requires Inv(s) && a < |s.heap| && forall c | 0 <= c < |s.contexts| :: s.contexts[c] == []
    ensures s.heap[a].frees == if Cached(s, a) then 0 else 1
  {
    NoPins(s.contexts, a, |s.contexts|);
    assert EntryOk(s, a);
    if Cached(s, a) {
      var i: nat :| CacheStore.Holds(s, i, a);
      assert SlotOk(s, i);
    }
  }

  lemma {:induction false} NoPins(contexts: seq<seq<nat>>, a: nat, n: nat)
    requires n <= |contexts| && forall c | 0 <= c < |contexts| :: contexts[c] == []
    ensures Count(contexts, a, n) == 0
  {
    if n > 0 {
      NoPins(contexts, a, n - 1);
    }
  }
}
