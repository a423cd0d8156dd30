/** The text hash table: the hash is stored beside the key, and hash 0 marks an empty slot. */
module InListText {
  import opened InListProbing
  import opened Wrappers

  type Text = seq<bv8>

  datatype TextEntry = TextEntry(hash: nat, data: Text)

  /** The hash with its lowest bit set, so that it is never 0. */
  function Stamp(raw: nat): (h: nat)
    ensures h > 0 && h % 2 == 1 && h / 2 == raw / 2
  {
    if raw % 2 == 1 then raw else raw + 1
  }

  function Stamped(raw: Text -> nat): Text -> nat {
    key => Stamp(raw(key))
  }

  function Held(e: TextEntry): Option<Text> {
    if e.hash == 0 then None else Some(e.data)
  }

  /** text_hash_build and text_hash_probe, for any hash function. */
  class TextTable {
    const entries: array<TextEntry>

    constructor (size: nat)
      ensures fresh(entries) && entries.Length == size
      ensures forall i | 0 <= i < size :: entries[i].hash == 0
    {
      entries := new TextEntry[size](i => TextEntry(0, []));
    }

    /** The slots as the probing lemmas see them; each stored hash is that of its key. */
    ghost predicate Shows(view: View<Text>, raw: Text -> nat)
      reads entries
    {
      && |view| == entries.Length
      && (forall i | 0 <= i < |view| :: view[i] == Held(entries[i]))
      && forall i | 0 <= i < |view| :: entries[i].hash == 0 || entries[i].hash == Stamp(raw(entries[i].data))
    }

    ghost predicate Indexes(raw: Text -> nat, keys: seq<Text>, n: nat)
      requires n <= |keys|
      reads entries
    {
      2 * |keys| <= entries.Length && exists view :: Shows(view, raw) && Contains(view, Stamped(raw), keys, n)
    }

    method FindEmpty(key: Text, raw: Text -> nat, ghost view: View<Text>) returns (h: nat, ghost d: nat)
      requires Shows(view, raw) && Taken(view, |view|) < |view|
      ensures d < |view| && h == At(Home(Stamped(raw), key, |view|), d, |view|)
      ensures Path(view, Home(Stamped(raw), key, |view|), d) && !HeldAt(view, Home(Stamped(raw), key, |view|), d)
    {
      ghost var empty := EmptySlot(view, |view|);
      h, d := Home(Stamped(raw), key, entries.Length), 0;
      ghost var home := h;
      while entries[h].hash != 0
        invariant d <= Distance(home, empty, |view|)
        invariant h == At(home, d, |view|) && Path(view, home, d)
        decreases |view| - d
      {
        StepOn(view, home, empty, d);
        h, d := (h + 1) % entries.Length, d + 1;
      }
    }

    method Insert(raw: Text -> nat, ghost keys: seq<Text>, ghost n: nat, key: Text)
      requires n < |keys| && keys[n] == key && Indexes(raw, keys, n)
      modifies entries
      ensures Indexes(raw, keys, n + 1)
    {
      ghost var view :| Shows(view, raw) && Contains(view, Stamped(raw), keys, n);
      var h;
      ghost var d;
      h, d := FindEmpty(key, raw, view);
      InsertNext(view, Stamped(raw), keys, n, d);
      entries[h] := TextEntry(Stamp(raw(key)), key);
      assert Shows(view[h := Some(key)], raw);
    }

    /** 1 exactly for the listed texts; the probe ends because a slot is empty. */
    method Probe(key: Text, raw: Text -> nat, ghost keys: seq<Text>) returns (r: int)
      requires Indexes(raw, keys, |keys|) && keys != []
      ensures r == if key in keys then 1 else 0
    {
      ghost var view :| Shows(view, raw) && Contains(view, Stamped(raw), keys, |keys|);
      assert keys[..|keys|] == keys;
      assert Holds(view, key) <==> key in keys;
      r := Scan(key, raw, view);
    }

    /** Hash and length are compared before the bytes. */
    method Scan(key: Text, raw: Text -> nat, ghost view: View<Text>) returns (r: int)
      requires Shows(view, raw) && Taken(view, |view|) < |view| && Reachable(view, Stamped(raw))
      ensures r == if Holds(view, key) then 1 else 0
    {
      ghost var empty := EmptySlot(view, |view|);
      var stamp := Stamp(raw(key));
      var h := Home(Stamped(raw), key, entries.Length);
      ghost var home, d := h, 0;
      while true
        invariant d <= Distance(home, empty, |view|)
        invariant h == At(home, d, |view|) && Misses(view, home, key, d)
        decreases |view| - d
      {
        var e := entries[h];
        if e.hash == 0 {
          ProbeEndsAtEmpty(view, Stamped(raw), key, d);
          return 0;
        }
        if e.hash == stamp && |e.data| == |key| && e.data == key {
          assert HoldsAt(view, key, h);
          return 1;
        }
        assert e.data != key;
        StepOn(view, home, empty, d);
        h, d := (h + 1) % entries.Length, d + 1;
      }
    }
  }

  method BuildText(texts: seq<Text>, raw: Text -> nat, maxSlots: nat) returns (r: Option<TextTable>)
    ensures r.Some? <==> 0 < |texts| <= INT_MAX / 2 && Doubled(FIRST_SIZE, 2 * |texts|) <= maxSlots &&
                         Doubled(FIRST_SIZE, 2 * |texts|) <= INT_MAX
    ensures r.Some? ==> r.value.Indexes(raw, texts, |texts|)
  {
    var size := TableSize(|texts|, maxSlots);
    if size.None? {
      return None;
    }
    var table := new TextTable(size.value);
    ghost var view := seq(size.value, i => None);
    assert table.Shows(view, raw);
    NothingHeld(view, Stamped(raw), texts);
    var i := 0;
    while i < |texts|
      invariant 0 <= i <= |texts|
      invariant table.Indexes(raw, texts, i)
    {
      table.Insert(raw, texts, i, texts[i]);
      i := i + 1;
    }
    return Some(table);
  }
}
