/** What the processes that share code achieve: an entry that fits is stored, deform code that fits
    is shared, and every lookup ends. */
module SharedProgress {
  import opened SharedArena
  import opened SharedCode
  import opened Wrappers

  // ---- Sizes ----

  /** An entry takes its fixed part of 32 bytes and its code, rounded up to a multiple of 8; the
      first stands behind the 88 bytes of the header. */
  lemma SizesAre(e: Entry, log: seq<Entry>)
    ensures 32 + |e.code| <= EntrySize(e) < 32 + |e.code| + 8 && EntrySize(e) % 8 == 0
    ensures Layout(log, 0) == 88
    ensures forall i: nat | i < |log| :: Layout(log, i + 1) == Layout(log, i) + EntrySize(log[i])
  {
  }

  // ---- Storing ----

  /** There is room for the entry between what is used and the reserved tail. */
  predicate Fits(m: Shared, e: Entry) {
    m.used + EntrySize(e) + m.deformUsed <= m.capacity
  }

  /** The log when a store of e that began in s0 has ended. */
  function Stored(s0: State, e: Entry): seq<Entry> {
    if Fits(s0.shared, e) then s0.log + [e] else s0.log
  }

  /** Where a store of e stands that began in s0. */
  predicate Storing(s0: State, s: State, e: Entry) {
    var m0, m := s0.shared, s.shared;
    && m.capacity == m0.capacity && m.deformUsed == m0.deformUsed
    && match s.leader
       case StoreLock(f) => f == e && s.log == s0.log && m.used == m0.used
       case StoreCheck(f) => f == e && s.log == s0.log && m.used == m0.used
       case StoreRoom(f) => f == e && s.log == s0.log && m.used == m0.used
       case StoreWrite(f) => f == e && s.log == s0.log && m.used == m0.used && Fits(m0, e)
       case StoreUsed(f) => f == e && s.log == s0.log && m.used == m0.used && Fits(m0, e)
       case StoreCount(f) => f == e && s.log == s0.log && Fits(m0, e)
       case StoreUnlock => s.log == Stored(s0, e)
       case _ => false
  }

  /** The store is under way, or has ended. */
  predicate StoringOrDone(s0: State, s: State, e: Entry) {
    Storing(s0, s, e) || (s.leader.Idle? && s.log == Stored(s0, e))
  }

  lemma StoreBegins(s0: State, e: Entry)
    requires s0.leader.Idle? && |e.code| > 0 && 32 + |e.code| <= 0xffff_ffff_ffff_ffff - 7
    ensures StoringOrDone(s0, LeaderStep(s0, Store(e)), e)
  {
  }

  lemma StoreStep(s0: State, s: State, job: Job, e: Entry)
    requires Inv(s) && Storing(s0, s, e)
    ensures StoringOrDone(s0, LeaderStep(s, job), e)
  {
  }

  lemma StoreWaits(s0: State, s: State, k: nat, key: Key, e: Entry)
    requires Storing(s0, s, e) && k < |s.workers|
    ensures StoringOrDone(s0, WorkerStep(s, k, key), e)
  {
  }

  lemma StoreNext(s0: State, s: State, s': State, e: Entry)
    requires Inv(s) && Storing(s0, s, e) && Next(s, s')
    ensures StoringOrDone(s0, s', e)
  {
    if job :| s' == LeaderStep(s, job) {
      StoreStep(s0, s, job, e);
    } else {
      var k: nat, key :| k < |s.workers| && s' == WorkerStep(s, k, key);
      StoreWaits(s0, s, k, key, e);
    }
  }

  lemma StepOf(states: seq<State>, n: nat)
    requires Behavior(states) && n + 1 < |states|
    ensures Next(states[n], states[n + 1])
  {
  }

  predicate StoreKeeps(s0: State, s: State, s': State, e: Entry) {
    Storing(s0, s, e) ==> StoringOrDone(s0, s', e)
  }

  lemma StoreNextInRun(states: seq<State>, s0: State, n: nat, e: Entry)
    requires Behavior(states) && n + 1 < |states|
    ensures StoreKeeps(s0, states[n], states[n + 1], e)
  {
    AlwaysInv(states, n);
    StepOf(states, n);
    if Storing(s0, states[n], e) {
      StoreNext(s0, states[n], states[n + 1], e);
    }
  }

  lemma {:induction false} StoreGoesOn(states: seq<State>, s0: State, i: nat, j: nat, e: Entry)
    requires i < j < |states| && StoringOrDone(s0, states[i + 1], e)
    requires forall n: nat | n < |states| - 1 :: StoreKeeps(s0, states[n], states[n + 1], e)
    requires forall k | i < k < j :: !states[k].leader.Idle?
    ensures StoringOrDone(s0, states[j], e)
    decreases j
  {
    if j > i + 1 {
      StoreGoesOn(states, s0, i, j - 1, e);
      assert StoreKeeps(s0, states[j - 1], states[j - 1 + 1], e);
    }
  }

  /** In every interleaving: when the leader is idle again after it was asked to store an entry, the
      entry is the newest of the log if it fitted, and else the log is as it was. */
  lemma StoreEnds(states: seq<State>, i: nat, j: nat, e: Entry)
    requires Behavior(states) && i < j < |states|
    requires states[i].leader.Idle? && states[i + 1] == LeaderStep(states[i], Store(e))
    requires |e.code| > 0 && 32 + |e.code| <= 0xffff_ffff_ffff_ffff - 7
    requires states[j].leader.Idle? && forall k | i < k < j :: !states[k].leader.Idle?
    ensures states[j].log == if Fits(states[i].shared, e) then states[i].log + [e] else states[i].log
  {
    StoreBegins(states[i], e);
    forall n: nat | n < |states| - 1 ensures StoreKeeps(states[i], states[n], states[n + 1], e) {
      StoreNextInRun(states, states[i], n, e);
    }
    StoreGoesOn(states, states[i], i, j, e);
  }

  // ---- Sharing the deform code ----

  predicate Sharing(s: State, bytes: seq<bv8>) {
    && |bytes| <= s.shared.capacity
    && match s.leader
       case DeformAddr(b, _) => b == bytes
       case DeformUsed(b) => b == bytes
       case DeformCopy(b) => b == bytes
       case _ => false
  }

  predicate SharingOrDone(s: State, bytes: seq<bv8>) {
    Sharing(s, bytes) || (s.leader.Idle? && s.deform == Some(bytes))
  }

  lemma SharingBegins(s: State, bytes: seq<bv8>, addr: nat)
    requires s.leader.Idle? && s.shared.deformAddr == 0 && |bytes| > 0 && addr != 0
    requires s.shared.used + |bytes| <= s.shared.capacity
    ensures SharingOrDone(LeaderStep(s, ShareDeform(bytes, addr)), bytes)
  {
  }

  predicate SharingKeeps(s: State, s': State, bytes: seq<bv8>) {
    Sharing(s, bytes) ==> SharingOrDone(s', bytes)
  }

  lemma SharingNext(s: State, s': State, bytes: seq<bv8>)
    requires Next(s, s')
    ensures SharingKeeps(s, s', bytes)
  {
    if job :| s' == LeaderStep(s, job) {
    } else {
      var k: nat, key :| k < |s.workers| && s' == WorkerStep(s, k, key);
    }
  }

  lemma {:induction false} SharingGoesOn(states: seq<State>, i: nat, j: nat, bytes: seq<bv8>)
    requires i < j < |states| && SharingOrDone(states[i + 1], bytes)
    requires forall n: nat | n < |states| - 1 :: SharingKeeps(states[n], states[n + 1], bytes)
    requires forall k | i < k < j :: !states[k].leader.Idle?
    ensures SharingOrDone(states[j], bytes)
    decreases j
  {
    if j > i + 1 {
      SharingGoesOn(states, i, j - 1, bytes);
      assert SharingKeeps(states[j - 1], states[j - 1 + 1], bytes);
    }
  }

  /** In every interleaving: when the leader is idle again after it was asked to share deform code
      for which there is room, none being shared yet, that code is shared. */
  lemma SharingEnds(states: seq<State>, i: nat, j: nat, bytes: seq<bv8>, addr: nat)
    requires Behavior(states) && i < j < |states|
    requires states[i].leader.Idle? && states[i + 1] == LeaderStep(states[i], ShareDeform(bytes, addr))
    requires states[i].shared.deformAddr == 0 && |bytes| > 0 && addr != 0
    requires states[i].shared.used + |bytes| <= states[i].shared.capacity
    requires states[j].leader.Idle? && forall k | i < k < j :: !states[k].leader.Idle?
    ensures states[j].deform == Some(bytes) && states[j].shared.tail == Some(bytes)
  {
    SharingBegins(states[i], bytes, addr);
    forall n: nat | n < |states| - 1 ensures SharingKeeps(states[n], states[n + 1], bytes) {
      StepOf(states, n);
      SharingNext(states[n], states[n + 1], bytes);
    }
    SharingGoesOn(states, i, j, bytes);
    AlwaysInv(states, j);
  }

  // ---- Lookups ----

  /** How many steps a worker inside the lock has left at most. */
  function Left(w: Worker, count: nat): int {
    match w
    case FindCheck(_) => count + 3
    case FindUsable(_) => count + 2
    case FindScan(_, _, _, i) => count + 1 - i
    case FindUnlock(_, _) => 0
    case _ => -1
  }

  /** Inside the lock every step of a worker brings it nearer to its answer, the steps of others do
      not take it back, and a worker that has its answer leaves with the lock free. */
  lemma LookupsEnd(s: State, k: nat, key: Key)
    requires Inv(s) && k < |s.workers| && SharedCode.Holds(s.workers[k])
    ensures var w, s' := s.workers[k], WorkerStep(s, k, key);
            if w.FindUnlock? then s'.workers[k].Away? && !s'.shared.lock
            else 0 <= Left(s'.workers[k], |s.log|) < Left(w, |s.log|)
    ensures forall job :: LeaderStep(s, job).workers[k] == s.workers[k] && LeaderStep(s, job).log == s.log
    ensures forall j: nat, other | j < |s.workers| && j != k :: WorkerStep(s, j, other).workers[k] == s.workers[k]
  {
    assert WorkerOk(s, s.workers[k]);
  }

  /** A worker that wants the lock gets it when it is free. */
  lemma LookupsBegin(s: State, k: nat, key: Key)
    requires k < |s.workers| && !s.shared.lock
    ensures s.workers[k].Away? ==> WorkerStep(s, k, key).workers[k] == FindLock(key)
    ensures s.workers[k].FindLock? ==> WorkerStep(s, k, key).workers[k] == FindCheck(s.workers[k].key)
  {
  }
}
