/** The arena in shared memory: entries grow from the front, a reserved tail sits at the end. */
module SharedArena {
  import opened Wrappers

  datatype Entry = Entry(node: int, ordinal: int, fingerprint: nat, code: seq<bv8>, ref: nat)

  datatype Key = Key(node: int, ordinal: int, fingerprint: nat)

  /** Size of the arena header and of the fixed part of an entry. */
  const HEADER := 88
  const ENTRY_HEAD := 32
  const SIZE_MAX := 0xffff_ffff_ffff_ffff

  function MaxAlign(n: nat): (r: nat)
    ensures n <= r <= n + 7
  {
    (n + 7) / 8 * 8
  }

  function EntrySize(e: Entry): (size: nat)
    ensures size >= ENTRY_HEAD
  {
    MaxAlign(ENTRY_HEAD + |e.code|)
  }

  /** `entries` says which entry the bytes from an offset on spell out; a write over any of
      these bytes destroys the entry. */
  datatype Shared = Shared(lock: bool, count: nat, capacity: nat, used: nat, deformAddr: nat, deformUsed: nat,
                           entries: map<nat, Entry>, tail: Option<seq<bv8>>)

  /** The entries that survive a write to [lo, hi). */
  function Overwritten(entries: map<nat, Entry>, lo: nat, hi: nat): map<nat, Entry> {
    map o | o in entries && (o + EntrySize(entries[o]) <= lo || hi <= o) :: entries[o]
  }

  function WriteEntry(m: Shared, e: Entry): Shared {
    var end := m.used + EntrySize(e);
    var tail := if m.tail.Some? && end + |m.tail.value| <= m.capacity then m.tail else None;
    m.(entries := Overwritten(m.entries, m.used, end)[m.used := e], tail := tail)
  }

  /** The tail holds the shared deform code and ends where the arena ends. */
  function WriteTail(m: Shared, bytes: seq<bv8>): Shared
    requires |bytes| <= m.capacity
  {
    m.(entries := Overwritten(m.entries, m.capacity - |bytes|, m.capacity), tail := Some(bytes))
  }

  // ---- The entries one behind the other ----

  function Layout(log: seq<Entry>, i: nat): (offset: nat)
    requires i <= |log|
    ensures offset >= HEADER
  {
    if i == 0 then HEADER else Layout(log, i - 1) + EntrySize(log[i - 1])
  }

  lemma {:induction false} LayoutGrows(log: seq<Entry>, i: nat, j: nat)
    requires i < j <= |log|
    ensures Layout(log, i) + EntrySize(log[i]) <= Layout(log, j)
  {
    if i < j - 1 {
      LayoutGrows(log, i, j - 1);
    }
  }

  lemma {:induction false} LayoutOfPrefix(log: seq<Entry>, e: Entry, i: nat)
    requires i <= |log|
    ensures Layout(log + [e], i) == Layout(log, i)
  {
    if i > 0 {
      LayoutOfPrefix(log, e, i - 1);
    }
  }

  predicate StoredAt(entries: map<nat, Entry>, log: seq<Entry>, i: nat)
    requires i < |log|
  {
    Layout(log, i) in entries && entries[Layout(log, i)] == log[i]
  }

  /** The bytes of the arena spell out the log. */
  predicate Spells(entries: map<nat, Entry>, log: seq<Entry>) {
    forall i: nat | i < |log| :: StoredAt(entries, log, i)
  }

  lemma WriteKeepsLog(m: Shared, log: seq<Entry>, e: Entry)
    requires Spells(m.entries, log) && Layout(log, |log|) <= m.used
    ensures Spells(WriteEntry(m, e).entries, log)
  {
    forall i: nat | i < |log| ensures StoredAt(WriteEntry(m, e).entries, log, i) {
      assert StoredAt(m.entries, log, i);
      LayoutGrows(log, i, |log|);
    }
  }

  lemma TailKeepsLog(m: Shared, log: seq<Entry>, bytes: seq<bv8>)
    requires Spells(m.entries, log) && Layout(log, |log|) + |bytes| <= m.capacity
    ensures Spells(WriteTail(m, bytes).entries, log)
  {
    forall i: nat | i < |log| ensures StoredAt(WriteTail(m, bytes).entries, log, i) {
      assert StoredAt(m.entries, log, i);
      LayoutGrows(log, i, |log|);
    }
  }

  lemma LogGrows(entries: map<nat, Entry>, log: seq<Entry>, e: Entry)
    requires Spells(entries, log)
    requires Layout(log, |log|) in entries && entries[Layout(log, |log|)] == e
    ensures Spells(entries, log + [e])
    ensures Layout(log + [e], |log| + 1) == Layout(log, |log|) + EntrySize(e)
  {
    LayoutOfPrefix(log, e, |log|);
    forall i: nat | i < |log| + 1 ensures StoredAt(entries, log + [e], i) {
      LayoutOfPrefix(log, e, i);
      if i < |log| {
        assert StoredAt(entries, log, i);
      }
    }
  }

  // ---- Lookup ----

  predicate Matches(e: Entry, key: Key) {
    e.node == key.node && e.ordinal == key.ordinal && e.fingerprint == key.fingerprint
  }

  /** The first entry with the key, from entry i on. */
  function Lookup(log: seq<Entry>, key: Key, i: nat): Option<Entry>
    requires i <= |log|
    decreases |log| - i
  {
    if i == |log| then None
    else if Matches(log[i], key) then Some(log[i])
    else Lookup(log, key, i + 1)
  }

  /** Entry k is the first with the key from entry i on. */
  predicate FirstAt(log: seq<Entry>, key: Key, i: nat, k: int) {
    i <= k < |log| && Matches(log[k], key) && forall j | i <= j < k :: !Matches(log[j], key)
  }

  lemma {:induction false} LookupIsFirst(log: seq<Entry>, key: Key, i: nat)
    requires i <= |log|
    ensures Lookup(log, key, i).None? <==> forall k | i <= k < |log| :: !Matches(log[k], key)
    ensures Lookup(log, key, i).Some? ==>
              exists k :: FirstAt(log, key, i, k) && Lookup(log, key, i).value == log[k]
    decreases |log| - i
  {
    if i < |log| {
      if Matches(log[i], key) {
        assert FirstAt(log, key, i, i);
      } else {
        LookupIsFirst(log, key, i + 1);
        if Lookup(log, key, i + 1).Some? {
          var k :| FirstAt(log, key, i + 1, k) && Lookup(log, key, i + 1).value == log[k];
          assert FirstAt(log, key, i, k);
        }
      }
    }
  }
}
