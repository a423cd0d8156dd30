/** One leader that stores compiled code and any number of workers that look it up, step by
    step: every read and write of shared memory is a step of its own. */
module SharedCode {
  import opened SharedArena
  import opened Wrappers

  /** Where the leader is.  Storing takes the lock; sharing the deform code does not. */
  datatype Leader =
    | Idle
    | StoreLock(e: Entry)
    | StoreCheck(e: Entry)
    | StoreRoom(e: Entry)
    | StoreWrite(e: Entry)
    | StoreUsed(e: Entry)
    | StoreCount(e: Entry)
    | StoreUnlock
    | DeformAddr(bytes: seq<bv8>, addr: nat)
    | DeformUsed(bytes: seq<bv8>)
    | DeformCopy(bytes: seq<bv8>)

  datatype Outcome = Found(e: Entry) | NotFound | Error(code: nat)

  datatype Worker =
    | Away
    | FindLock(key: Key)
    | FindCheck(key: Key)
    | FindUsable(key: Key)
    | FindScan(key: Key, usable: nat, offset: nat, i: nat)
    | FindUnlock(key: Key, outcome: Outcome)

  datatype Holder = Nobody | TheLeader | TheWorker(k: nat)

  /** History beside the real state: `log` lists the entries stored so far, `deform` is the shared
      deform code once it is there, `holder` is the process that took the lock. */
  datatype State = State(shared: Shared, leader: Leader, workers: seq<Worker>, log: seq<Entry>,
                         deform: Option<seq<bv8>>, holder: Holder)

  /** What the leader is asked to do next. */
  datatype Job = Store(e: Entry) | ShareDeform(bytes: seq<bv8>, addr: nat)

  predicate InLock(l: Leader) {
    l.StoreCheck? || l.StoreRoom? || l.StoreWrite? || l.StoreUsed? || l.StoreCount? || l.StoreUnlock?
  }

  predicate Holds(w: Worker) {
    !w.Away? && !w.FindLock?
  }

  // ---- The leader ----

  /** pg_jitter_store_shared_code refuses empty code and sizes that overflow before it locks;
      pg_jitter_compile_shared_deform returns when a deform function is already shared or does
      not fit. */
  function Begin(s: State, job: Job): State {
    match job
    case Store(e) =>
      if |e.code| == 0 || ENTRY_HEAD + |e.code| > SIZE_MAX - 7 then s else s.(leader := StoreLock(e))
    case ShareDeform(bytes, addr) =>
      var m := s.shared;
      if m.deformAddr != 0 || |bytes| == 0 || addr == 0 || m.used + |bytes| > m.capacity then s
      else s.(leader := DeformAddr(bytes, addr))
  }

  function LeaderStep(s: State, job: Job): State {
    var m := s.shared;
    match s.leader
    case Idle => Begin(s, job)
    case StoreLock(e) =>
      if m.lock then s else s.(shared := m.(lock := true), leader := StoreCheck(e), holder := TheLeader)
    case StoreCheck(e) => s.(leader := if m.deformUsed > m.capacity then StoreUnlock else StoreRoom(e))
    case StoreRoom(e) =>
      var usable := m.capacity - m.deformUsed;
      s.(leader := if m.used > usable || EntrySize(e) > usable - m.used then StoreUnlock else StoreWrite(e))
    case StoreWrite(e) => s.(shared := WriteEntry(m, e), leader := StoreUsed(e))
    case StoreUsed(e) => s.(shared := m.(used := m.used + EntrySize(e)), leader := StoreCount(e))
    case StoreCount(e) => s.(shared := m.(count := m.count + 1), leader := StoreUnlock, log := s.log + [e])
    case StoreUnlock => s.(shared := m.(lock := false), leader := Idle, holder := Nobody)
    case DeformAddr(bytes, addr) => s.(shared := m.(deformAddr := addr), leader := DeformUsed(bytes))
    case DeformUsed(bytes) => s.(shared := m.(deformUsed := |bytes|), leader := DeformCopy(bytes))
    case DeformCopy(bytes) =>
      if |bytes| > m.capacity then s
      else s.(shared := WriteTail(m, bytes), leader := Idle, deform := Some(bytes))
  }

  // ---- A worker ----

  /** One turn of the scan loop of pg_jitter_find_shared_code. */
  function Scan(m: Shared, key: Key, usable: nat, offset: nat, i: nat): Worker {
    if i >= m.count then FindUnlock(key, NotFound)
    else if offset > usable || ENTRY_HEAD > usable - offset then FindUnlock(key, Error(3))
    else if offset !in m.entries then FindUnlock(key, Error(7))
    else
      var e := m.entries[offset];
      if |e.code| > SIZE_MAX - ENTRY_HEAD then FindUnlock(key, Error(4))
      else if ENTRY_HEAD + |e.code| > SIZE_MAX - 7 then FindUnlock(key, Error(5))
      else if EntrySize(e) > usable - offset then FindUnlock(key, Error(6))
      else if Matches(e, key) then FindUnlock(key, Found(e))
      else FindScan(key, usable, offset + EntrySize(e), i + 1)
  }

  function WorkerStep(s: State, k: nat, key: Key): State
    requires k < |s.workers|
  {
    var m := s.shared;
    match s.workers[k]
    case Away => s.(workers := s.workers[k := FindLock(key)])
    case FindLock(key) =>
      if m.lock then s
      else s.(shared := m.(lock := true), workers := s.workers[k := FindCheck(key)], holder := TheWorker(k))
    case FindCheck(key) =>
      s.(workers := s.workers[k := if m.deformUsed > m.capacity then FindUnlock(key, Error(1)) else FindUsable(key)])
    case FindUsable(key) =>
      var usable: nat := if m.deformUsed <= m.capacity then m.capacity - m.deformUsed else 0;
      s.(workers := s.workers[k := if m.used > usable then FindUnlock(key, Error(2))
                                   else FindScan(key, usable, HEADER, 0)])
    case FindScan(key, usable, offset, i) => s.(workers := s.workers[k := Scan(m, key, usable, offset, i)])
    case FindUnlock(key, _) => s.(shared := m.(lock := false), workers := s.workers[k := Away], holder := Nobody)
  }

  ghost predicate Next(s: State, s': State) {
    (exists job :: s' == LeaderStep(s, job)) || (exists k: nat, key :: k < |s.workers| && s' == WorkerStep(s, k, key))
  }

  // ---- What every step keeps ----

  /** The lock is taken exactly while some process is inside, and that process is the holder. */
  predicate OneInside(s: State) {
    && s.shared.lock == !s.holder.Nobody?
    && InLock(s.leader) == s.holder.TheLeader?
    && (s.holder.TheWorker? ==> s.holder.k < |s.workers|)
    && forall k: nat | k < |s.workers| :: Holds(s.workers[k]) == (s.holder == TheWorker(k))
  }

  /** Entries fill the arena from the header to `used`, in front of the reserved tail. */
  predicate ArenaOk(s: State) {
    var m := s.shared;
    && m.count == |s.log|
    && Spells(m.entries, s.log)
    && m.used == Layout(s.log, |s.log|) + (if s.leader.StoreCount? then EntrySize(s.leader.e) else 0)
    && m.used + m.deformUsed <= m.capacity <= SIZE_MAX - 7
    && (m.deformAddr == 0 ==> m.deformUsed == 0)
    && m.tail == s.deform
    && (m.deformUsed > 0 && !s.leader.DeformCopy? ==> s.deform.Some?)
    && (s.deform.Some? ==> |s.deform.value| == m.deformUsed > 0)
  }

  predicate LeaderOk(s: State) {
    var m := s.shared;
    match s.leader
    case StoreWrite(e) => m.used + EntrySize(e) + m.deformUsed <= m.capacity
    case StoreUsed(e) =>
      m.used + EntrySize(e) + m.deformUsed <= m.capacity && m.used in m.entries && m.entries[m.used] == e
    case StoreCount(e) =>
      Layout(s.log, |s.log|) in m.entries && m.entries[Layout(s.log, |s.log|)] == e
    case DeformAddr(bytes, addr) => m.used + |bytes| <= m.capacity && m.deformUsed == 0 && addr != 0 && |bytes| > 0
    case DeformUsed(bytes) => m.used + |bytes| <= m.capacity && m.deformUsed == 0 && m.deformAddr != 0 && |bytes| > 0
    case DeformCopy(bytes) => m.deformUsed == |bytes| > 0 && m.deformAddr != 0
    case _ => true
  }

  function Answer(log: seq<Entry>, key: Key, i: nat): Outcome
    requires i <= |log|
  {
    var r := Lookup(log, key, i);
    if r.Some? then Found(r.value) else NotFound
  }

  /** A scanning worker is at the start of entry i and has passed over no match; a finished one
      has the answer. */
  predicate WorkerOk(s: State, w: Worker) {
    match w
    case FindScan(key, usable, offset, i) =>
      && i <= |s.log| && offset == Layout(s.log, i) && s.shared.used <= usable <= s.shared.capacity
      && Answer(s.log, key, i) == Answer(s.log, key, 0)
    case FindUnlock(key, outcome) => outcome == Answer(s.log, key, 0)
    case _ => true
  }

  ghost predicate Inv(s: State) {
    && OneInside(s)
    && ArenaOk(s)
    && LeaderOk(s)
    && forall k: nat | k < |s.workers| :: WorkerOk(s, s.workers[k])
  }

  ghost predicate Start(s: State) {
    var m := s.shared;
    && !m.lock && m.count == 0 && m.used == HEADER && HEADER <= m.capacity <= SIZE_MAX - 7
    && m.deformAddr == 0 && m.deformUsed == 0 && m.tail.None? && s.deform.None?
    && s.leader.Idle? && s.log == [] && s.holder.Nobody?
    && forall k | 0 <= k < |s.workers| :: s.workers[k].Away?
  }

  // ---- Workers ----

  /** One turn of the scan stays on the chain of entries, and ends with the answer; no error
      code is reached. */
  lemma ScanIsOk(s: State, key: Key, usable: nat, offset: nat, i: nat)
    requires ArenaOk(s) && !s.leader.StoreCount? && WorkerOk(s, FindScan(key, usable, offset, i))
    ensures WorkerOk(s, Scan(s.shared, key, usable, offset, i))
  {
    if i < |s.log| {
      EntryAt(s, i);
    }
  }

  lemma EntryAt(s: State, i: nat)
    requires ArenaOk(s) && !s.leader.StoreCount? && i < |s.log|
    ensures var offset := Layout(s.log, i);
            && offset in s.shared.entries && s.shared.entries[offset] == s.log[i]
            && offset + EntrySize(s.log[i]) <= s.shared.used
            && offset + EntrySize(s.log[i]) == Layout(s.log, i + 1)
  {
    assert StoredAt(s.shared.entries, s.log, i);
    LayoutGrows(s.log, i, |s.log|);
  }

  /** A step of worker k that changes no more than the lock. */
  lemma OthersStay(s: State, s': State, k: nat)
    requires Inv(s) && k < |s.workers| && OneInside(s')
    requires s'.leader == s.leader && s'.log == s.log && s'.deform == s.deform
    requires s'.shared == s.shared.(lock := s'.shared.lock)
    requires |s'.workers| == |s.workers| && s'.workers == s.workers[k := s'.workers[k]]
    requires WorkerOk(s', s'.workers[k])
    ensures Inv(s')
  {
    forall j: nat | j < |s'.workers| ensures WorkerOk(s', s'.workers[j]) {
      assert j != k ==> WorkerOk(s, s.workers[j]);
    }
  }

  lemma WorkerKeepsInv(s: State, k: nat, key: Key)
    requires Inv(s) && k < |s.workers|
    ensures Inv(WorkerStep(s, k, key))
  {
    var s' := WorkerStep(s, k, key);
    assert WorkerOk(s, s.workers[k]);
    if s.workers[k].FindScan? {
      var w := s.workers[k];
      ScanIsOk(s, w.key, w.usable, w.offset, w.i);
    }
    if s' != s {
      OthersStay(s, s', k);
    }
  }

  // ---- The leader ----

  /** Inside the lock, what the leader writes keeps the arena in order. */
  lemma StoreKeepsArena(s: State, job: Job)
    requires Inv(s) && InLock(s.leader)
    ensures ArenaOk(LeaderStep(s, job)) && LeaderOk(LeaderStep(s, job))
  {
    match s.leader
    case StoreWrite(e) => WriteKeepsLog(s.shared, s.log, e);
    case StoreCount(e) => LogGrows(s.shared.entries, s.log, e);
    case _ =>
  }

  /** So does what it writes without the lock. */
  lemma DeformKeepsArena(s: State, job: Job)
    requires Inv(s) && !InLock(s.leader)
    ensures ArenaOk(LeaderStep(s, job)) && LeaderOk(LeaderStep(s, job))
  {
    if s.leader.DeformCopy? {
      TailKeepsLog(s.shared, s.log, s.leader.bytes);
    }
  }

  lemma LeaderKeepsInv(s: State, job: Job)
    requires Inv(s)
    ensures Inv(LeaderStep(s, job))
  {
    if InLock(s.leader) {
      StoreKeepsArena(s, job);
    } else {
      DeformKeepsArena(s, job);
    }
    forall k: nat | k < |s.workers| ensures WorkerOk(LeaderStep(s, job), s.workers[k]) {
      WorkerStays(s, job, k);
    }
    assert OneInside(LeaderStep(s, job));
  }

  /** A scanning worker is not disturbed: inside the lock it is alone. */
  lemma WorkerStays(s: State, job: Job, k: nat)
    requires Inv(s) && k < |s.workers|
    ensures WorkerOk(LeaderStep(s, job), s.workers[k])
  {
    assert WorkerOk(s, s.workers[k]);
  }

  // ---- Every interleaving ----

  ghost predicate Behavior(states: seq<State>) {
    && |states| > 0 && Start(states[0])
    && forall i | 0 <= i < |states| - 1 :: Next(states[i], states[i + 1])
  }

  lemma {:induction false} AlwaysInv(states: seq<State>, i: nat)
    requires Behavior(states) && i < |states|
    ensures Inv(states[i])
  {
    if i > 0 {
      AlwaysInv(states, i - 1);
      var s, s' := states[i - 1], states[i];
      if job :| s' == LeaderStep(s, job) {
        LeaderKeepsInv(s, job);
      } else {
        var k: nat, key :| k < |s.workers| && s' == WorkerStep(s, k, key);
        WorkerKeepsInv(s, k, key);
      }
    }
  }

  /** Entry i ends no later than `end`. */
  predicate Before(log: seq<Entry>, i: nat, end: nat)
    requires i < |log|
  {
    Layout(log, i) + EntrySize(log[i]) <= end
  }

  /** In every interleaving: entries do not overlap each other or the tail, what was stored is
      still there, and the shared deform code is never overwritten. */
  lemma SafeInEveryInterleaving(states: seq<State>, n: nat)
    requires Behavior(states) && n < |states|
    ensures var s := states[n];
            && s.shared.used + s.shared.deformUsed <= s.shared.capacity
            && (forall i: nat, j: nat | i < j < |s.log| :: Before(s.log, i, Layout(s.log, j)))
            && (forall i: nat | i < |s.log| :: Before(s.log, i, s.shared.used) && StoredAt(s.shared.entries, s.log, i))
            && s.shared.tail == s.deform
  {
    var s := states[n];
    AlwaysInv(states, n);
    forall i: nat, j: nat | i < j < |s.log| ensures Before(s.log, i, Layout(s.log, j)) {
      LayoutGrows(s.log, i, j);
    }
    forall i: nat | i < |s.log| ensures Before(s.log, i, s.shared.used) {
      LayoutGrows(s.log, i, |s.log|);
    }
  }

  function KeyOf(e: Entry): Key {
    Key(e.node, e.ordinal, e.fingerprint)
  }

  /** Entry j is the first of its key. */
  predicate NewAt(log: seq<Entry>, j: int) {
    0 <= j < |log| && forall i | 0 <= i < j :: KeyOf(log[i]) != KeyOf(log[j])
  }

  /** In every interleaving a finished lookup has found the first entry stored with its key, or
      nothing when there is none; no error code ever shows. */
  lemma LookupsAreRight(states: seq<State>, n: nat, k: nat)
    requires Behavior(states) && n < |states| && k < |states[n].workers| && states[n].workers[k].FindUnlock?
    ensures var log, key := states[n].log, states[n].workers[k].key;
            match states[n].workers[k].outcome
            case Found(e) => KeyOf(e) == key && exists j :: NewAt(log, j) && e == log[j]
            case NotFound => forall j | 0 <= j < |log| :: KeyOf(log[j]) != key
            case Error(_) => false
  {
    AlwaysInv(states, n);
    assert WorkerOk(states[n], states[n].workers[k]);
    var log, key := states[n].log, states[n].workers[k].key;
    LookupIsFirst(log, key, 0);
    if Lookup(log, key, 0).Some? {
      var j :| FirstAt(log, key, 0, j) && Lookup(log, key, 0).value == log[j];
      assert NewAt(log, j);
    }
  }
}
