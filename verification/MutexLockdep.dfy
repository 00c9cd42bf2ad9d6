/**
 Threads that take mutexes under the lock order checker: core/kernel/mutex_lockdep.c with
 the locking calls of core/kernel/mutex.c. Each section under a spinlock is one step; a
 failed check panics, so it is no step. Waiting threads retry at any time.
 */
module MutexLockdep {
  import opened LockGraph

  type Tid = nat

  /**
   Where a thread stands: in mutex_lock after the check, in mutex_trylock before the check,
   in mutex_unlock after the check, in mutex_read_lock, or in none of them.
   */
  datatype Pc = Running | Waiting(m: Id) | Tried(m: Id) | Releasing(m: Id) | ReadWaiting(m: Id)

  /**
   state holds the mutexes' state fields, 0 where absent. writer records who wrote -1, and
   readers the threads that hold a mutex for reading, once for each time.
   */
  datatype State = State(g: Edges, owned: map<Tid, seq<Id>>, pc: map<Tid, Pc>,
                         state: map<Id, int>, writer: map<Id, Tid>, readers: map<Id, multiset<Tid>>)

  datatype Action =
    | LockCheck(t: Tid, m: Id)
    | Take(t: Tid, m: Id)
    | TryTake(t: Tid, m: Id)
    | TryCheck(t: Tid, m: Id)
    | UnlockCheck(t: Tid, m: Id)
    | Unlock(t: Tid, m: Id)
    | ReadLock(t: Tid, m: Id)
    | ReadTake(t: Tid, m: Id)
    | ReadUnlock(t: Tid, m: Id)
    | Destroy(t: Tid, m: Id)

  function Field(s: State, m: Id): int {
    if m in s.state then s.state[m] else 0
  }

  function FieldOf(state: map<Id, int>, m: Id): int {
    if m in state then state[m] else 0
  }

  function Readers(s: State, m: Id): multiset<Tid> {
    ReadersOf(s.readers, m)
  }

  function ReadersOf(readers: map<Id, multiset<Tid>>, m: Id): multiset<Tid> {
    if m in readers then readers[m] else multiset{}
  }

  predicate At(s: State, t: Tid, pc: Pc) {
    t in s.pc && t in s.owned && s.pc[t] == pc
  }

  /** owned without its last occurrence of m, as __lockdep_lock_release leaves it. */
  predicate Released(owned: seq<Id>, owned': seq<Id>, m: Id) {
    exists k :: 0 <= k < |owned| && owned[k] == m && m !in owned[k + 1..] && owned' == owned[..k] + owned[k + 1..]
  }

  /** The graph after lockdep_lock_destroy. */
  ghost predicate Removed(g: Edges, g': Edges, m: Id) {
    && (forall n :: n in g' <==> n in g && n != m)
    && (forall a, b :: Edge(g', a, b) <==> Edge(g, a, b) && a != m && b != m)
  }

  ghost predicate Step(s: State, a: Action, s': State) {
    match a
    case LockCheck(t, m) =>
      && At(s, t, Running) && Extended(s.g, s'.g, s.owned[t], m) && Acyclic(s'.g)
      && s' == s.(g := s'.g, owned := s.owned[t := s.owned[t] + [m]], pc := s.pc[t := Waiting(m)])
    case Take(t, m) =>
      && At(s, t, Waiting(m)) && Field(s, m) == 0
      && s' == s.(pc := s.pc[t := Running], state := s.state[m := -1], writer := s.writer[m := t])
    case TryTake(t, m) =>
      && At(s, t, Running) && Field(s, m) == 0
      && s' == s.(pc := s.pc[t := Tried(m)], state := s.state[m := -1], writer := s.writer[m := t])
    case TryCheck(t, m) =>
      && At(s, t, Tried(m)) && Extended(s.g, s'.g, [], m)
      && s' == s.(g := s'.g, owned := s.owned[t := s.owned[t] + [m]], pc := s.pc[t := Running])
    case UnlockCheck(t, m) =>
      && At(s, t, Running) && t in s'.owned && Released(s.owned[t], s'.owned[t], m)
      && s' == s.(owned := s.owned[t := s'.owned[t]], pc := s.pc[t := Releasing(m)])
    case Unlock(t, m) =>
      && At(s, t, Releasing(m)) && Field(s, m) != 0
      && s' == s.(pc := s.pc[t := Running], state := s.state[m := 0], writer := s.writer - {m})
    case ReadLock(t, m) =>
      && At(s, t, Running)
      && s' == s.(pc := s.pc[t := ReadWaiting(m)])
    case ReadTake(t, m) =>
      && (At(s, t, ReadWaiting(m)) || At(s, t, Running)) && Field(s, m) != -1
      && s' == s.(pc := s.pc[t := Running], state := s.state[m := Field(s, m) + 1],
                  readers := s.readers[m := Readers(s, m) + multiset{t}])
    case ReadUnlock(t, m) =>
      && At(s, t, Running) && Field(s, m) > 0 && t in Readers(s, m)
      && s' == s.(state := s.state[m := Field(s, m) - 1], readers := s.readers[m := Readers(s, m) - multiset{t}])
    case Destroy(t, m) =>
      && At(s, t, Running) && Field(s, m) == 0 && (forall u :: u in s.pc ==> Mentions(s.pc[u]) != {m})
      && Removed(s.g, s'.g, m)
      && s' == s.(g := s'.g)
  }

  /** The mutex a thread is waiting for or working on. */
  function Mentions(pc: Pc): set<Id> {
    match pc
    case Running => {}
    case Waiting(m) => {m}
    case Tried(m) => {m}
    case Releasing(m) => {m}
    case ReadWaiting(m) => {m}
  }

  ghost predicate Init(s: State) {
    && s.g == map[] && s.owned.Keys == s.pc.Keys && s.state == map[] && s.writer == map[] && s.readers == map[]
    && forall t :: t in s.pc ==> s.pc[t] == Running && s.owned[t] == []
  }

  /** A run: states with the actions between them. */
  ghost predicate Run(states: seq<State>, actions: seq<Action>) {
    && |states| == |actions| + 1 && Init(states[0])
    && forall i {:trigger actions[i]} :: 0 <= i < |actions| ==> Step(states[i], actions[i], states[i + 1])
  }

  // ---------- what every step keeps ----------

  predicate Holds(writer: map<Id, Tid>, t: Tid, m: Id) {
    m in writer && writer[m] == t
  }

  /** The lockdep list of thread t against the mutexes that it holds for writing. */
  ghost predicate ThreadOk(g: Edges, writer: map<Id, Tid>, t: Tid, owned: seq<Id>, pc: Pc) {
    && Distinct(owned)
    && (forall m :: m in owned ==> m in g)
    && (forall m :: Holds(writer, t, m) <==> (m in owned && pc != Waiting(m)) || pc == Tried(m) || pc == Releasing(m))
    && (pc.Tried? || pc.Releasing? ==> pc.m !in owned)
    && (pc.Waiting? ==> pc.m in owned && forall h :: h in owned && h != pc.m ==> Edge(g, h, pc.m))
  }

  ghost predicate ThreadsOk(s: State) {
    s.owned.Keys == s.pc.Keys && forall t :: t in s.pc ==> ThreadOk(s.g, s.writer, t, s.owned[t], s.pc[t])
  }

  /** The writers are recorded where the state field is -1. */
  ghost predicate FieldsOk(s: State) {
    && (forall m :: m in s.writer <==> Field(s, m) == -1)
    && (forall m :: Field(s, m) >= -1)
    && (forall m :: m in s.writer ==> s.writer[m] in s.pc)
  }

  /** The readers of one mutex are those that its state field counts. */
  ghost predicate ReaderOk(field: int, readers: multiset<Tid>, threads: set<Tid>) {
    |readers| == (if field > 0 then field else 0) && forall t :: t in readers ==> t in threads
  }

  ghost predicate ReadersOk(state: map<Id, int>, readers: map<Id, multiset<Tid>>, threads: set<Tid>) {
    forall m {:trigger ReadersOf(readers, m)} :: ReaderOk(FieldOf(state, m), ReadersOf(readers, m), threads)
  }

  /** The lock order and the writers. */
  ghost predicate WritersOk(s: State) {
    Acyclic(s.g) && FieldsOk(s) && ThreadsOk(s)
  }

  ghost predicate Inv(s: State) {
    WritersOk(s) && ReadersOk(s.state, s.readers, s.pc.Keys)
  }

  lemma ReleasedMembers(owned: seq<Id>, owned': seq<Id>, m: Id)
    requires Distinct(owned) && Released(owned, owned', m)
    ensures Distinct(owned') && m in owned && forall h :: h in owned' <==> h in owned && h != m
  {
    var k :| 0 <= k < |owned| && owned[k] == m && m !in owned[k + 1..] && owned' == owned[..k] + owned[k + 1..];
    forall h
      ensures h in owned' <==> h in owned && h != m
    {
      if h in owned && h != m {
        var j :| 0 <= j < |owned| && owned[j] == h;
        assert if j < k then owned'[j] == h else owned'[j - 1] == h;
      }
    }
  }

  /** Acquiring again a lock on the own list would close a cycle of one edge. */
  lemma NotOwnedYet(g: Edges, g': Edges, owned: seq<Id>, m: Id)
    requires Extended(g, g', owned, m) && Acyclic(g')
    ensures m !in owned
  {
    assert !Cycle(g', [m]);
    assert Edge(g', m, m) <==> Edge(g, m, m) || (m in owned && m == m);
  }

  lemma LockCheckThread(g: Edges, g': Edges, writer: map<Id, Tid>, t: Tid, owned: seq<Id>, m: Id)
    requires ThreadOk(g, writer, t, owned, Running) && Extended(g, g', owned, m) && Acyclic(g')
    ensures ThreadOk(g', writer, t, owned + [m], Waiting(m))
  {
    NotOwnedYet(g, g', owned, m);
  }

  lemma TakeThread(g: Edges, writer: map<Id, Tid>, t: Tid, owned: seq<Id>, pc: Pc, m: Id)
    requires ThreadOk(g, writer, t, owned, pc) && m !in writer
    ensures pc == Waiting(m) ==> ThreadOk(g, writer[m := t], t, owned, Running)
    ensures pc == Running ==> ThreadOk(g, writer[m := t], t, owned, Tried(m))
  {
  }

  lemma TryCheckThread(g: Edges, g': Edges, writer: map<Id, Tid>, t: Tid, owned: seq<Id>, m: Id)
    requires ThreadOk(g, writer, t, owned, Tried(m)) && Extended(g, g', [], m)
    ensures ThreadOk(g', writer, t, owned + [m], Running)
  {
  }

  lemma UnlockCheckThread(g: Edges, writer: map<Id, Tid>, t: Tid, owned: seq<Id>, owned': seq<Id>, m: Id)
    requires ThreadOk(g, writer, t, owned, Running) && Released(owned, owned', m)
    ensures ThreadOk(g, writer, t, owned', Releasing(m))
  {
    ReleasedMembers(owned, owned', m);
  }

  lemma UnlockThread(g: Edges, writer: map<Id, Tid>, t: Tid, owned: seq<Id>, m: Id)
    requires ThreadOk(g, writer, t, owned, Releasing(m))
    ensures ThreadOk(g, writer - {m}, t, owned, Running)
  {
  }

  /** A thread that takes no part in a step, whatever nodes and edges are added. */
  lemma OtherThread(g: Edges, g': Edges, writer: map<Id, Tid>, writer': map<Id, Tid>, t: Tid, owned: seq<Id>, pc: Pc)
    requires ThreadOk(g, writer, t, owned, pc)
    requires forall m :: Holds(writer', t, m) <==> Holds(writer, t, m)
    requires forall m :: m in owned && m in g ==> m in g'
    requires forall a, b :: a in owned && b in owned && Edge(g, a, b) ==> Edge(g', a, b)
    ensures ThreadOk(g', writer', t, owned, pc)
  {
  }

  lemma OtherThreads(s: State, s': State, t: Tid, m: Id)
    requires ThreadsOk(s) && t in s.pc && t in s'.pc && t in s'.owned && s'.pc == s.pc[t := s'.pc[t]] &&
      s'.owned == s.owned[t := s'.owned[t]]
    requires s'.writer == s.writer || (m !in s.writer && s'.writer == s.writer[m := t]) ||
      (Holds(s.writer, t, m) && s'.writer == s.writer - {m})
    requires forall n :: n in s.g ==> n in s'.g
    requires forall a, b :: Edge(s.g, a, b) ==> Edge(s'.g, a, b)
    requires ThreadOk(s'.g, s'.writer, t, s'.owned[t], s'.pc[t])
    ensures ThreadsOk(s')
  {
    forall u | u in s'.pc
      ensures ThreadOk(s'.g, s'.writer, u, s'.owned[u], s'.pc[u])
    {
      if u != t {
        OtherThread(s.g, s'.g, s.writer, s'.writer, u, s.owned[u], s.pc[u]);
      }
    }
  }

  lemma FieldKeeps(s: State, s': State, t: Tid, m: Id, v: int)
    requires FieldsOk(s) && t in s.pc && s'.pc.Keys == s.pc.Keys && s'.state == s.state[m := v] && v >= -1
    requires s'.writer == (if v == -1 then s.writer[m := t] else s.writer - {m})
    ensures FieldsOk(s')
  {
  }

  lemma CheckKeeps(s: State, a: Action, s': State)
    requires (a.LockCheck? || a.TryCheck? || a.UnlockCheck?) && WritersOk(s) && Step(s, a, s')
    ensures WritersOk(s')
  {
    var t, m := a.t, a.m;
    if a.LockCheck? {
      LockCheckThread(s.g, s'.g, s.writer, t, s.owned[t], m);
    } else if a.TryCheck? {
      SubgraphAcyclic(s.g, s'.g);
      TryCheckThread(s.g, s'.g, s.writer, t, s.owned[t], m);
    } else {
      UnlockCheckThread(s.g, s.writer, t, s.owned[t], s'.owned[t], m);
    }
    OtherThreads(s, s', t, m);
  }

  lemma TakeKeepsThreads(s: State, a: Action, s': State)
    requires (a.Take? || a.TryTake?) && ThreadsOk(s) && Step(s, a, s') && a.m !in s.writer
    ensures ThreadsOk(s')
  {
    TakeThread(s.g, s.writer, a.t, s.owned[a.t], s.pc[a.t], a.m);
    OtherThreads(s, s', a.t, a.m);
  }

  lemma TakeKeeps(s: State, a: Action, s': State)
    requires (a.Take? || a.TryTake?) && WritersOk(s) && Step(s, a, s')
    ensures WritersOk(s')
  {
    FieldKeeps(s, s', a.t, a.m, -1);
    TakeKeepsThreads(s, a, s');
  }

  lemma UnlockKeeps(s: State, t: Tid, m: Id, s': State)
    requires WritersOk(s) && Step(s, Unlock(t, m), s')
    ensures WritersOk(s')
  {
    UnlockThread(s.g, s.writer, t, s.owned[t], m);
    assert Holds(s.writer, t, m);
    FieldKeeps(s, s', t, m, 0);
    OtherThreads(s, s', t, m);
  }

  lemma ReadField(s: State, s': State, t: Tid, m: Id)
    requires FieldsOk(s) && t in s.pc && s'.pc.Keys == s.pc.Keys && s'.writer == s.writer
    requires m in s'.state && s'.state == s.state[m := s'.state[m]] && Field(s, m) != -1 && s'.state[m] >= 0
    ensures FieldsOk(s')
  {
    assert s.writer - {m} == s.writer;
    FieldKeeps(s, s', t, m, s'.state[m]);
  }

  lemma ReadKeepsThreads(s: State, a: Action, s': State)
    requires (a.ReadLock? || a.ReadTake? || a.ReadUnlock?) && ThreadsOk(s) && Step(s, a, s')
    ensures ThreadsOk(s')
  {
    var t := a.t;
    ReadThread(s.g, s.writer, t, s.owned[t], s.pc[t], s'.pc[t]);
    assert s'.pc == s.pc[t := s'.pc[t]];
    OtherThreads(s, s', t, a.m);
  }

  lemma ReadKeeps(s: State, a: Action, s': State)
    requires (a.ReadLock? || a.ReadTake? || a.ReadUnlock?) && WritersOk(s) && Step(s, a, s')
    ensures WritersOk(s')
  {
    ReadKeepsThreads(s, a, s');
    if !a.ReadLock? {
      ReadField(s, s', a.t, a.m);
    }
  }

  lemma ReadThread(g: Edges, writer: map<Id, Tid>, t: Tid, owned: seq<Id>, pc: Pc, pc': Pc)
    requires ThreadOk(g, writer, t, owned, pc) && (pc.Running? || pc.ReadWaiting?) && (pc'.Running? || pc'.ReadWaiting?)
    ensures ThreadOk(g, writer, t, owned, pc')
  {
  }

  /** A mutex that can be destroyed is on no thread's list. */
  lemma DestroyKeeps(s: State, t: Tid, m: Id, s': State)
    requires WritersOk(s) && Step(s, Destroy(t, m), s')
    ensures WritersOk(s')
  {
    SubgraphAcyclic(s.g, s'.g);
    forall u | u in s'.pc
      ensures ThreadOk(s'.g, s'.writer, u, s'.owned[u], s'.pc[u])
    {
      assert !Holds(s.writer, u, m);
      OtherThread(s.g, s'.g, s.writer, s'.writer, u, s.owned[u], s.pc[u]);
    }
  }

  lemma StepKeepsWriters(s: State, a: Action, s': State)
    requires WritersOk(s) && Step(s, a, s')
    ensures WritersOk(s')
  {
    match a
    case LockCheck(_, _) => CheckKeeps(s, a, s');
    case Take(_, _) => TakeKeeps(s, a, s');
    case TryTake(_, _) => TakeKeeps(s, a, s');
    case TryCheck(_, _) => CheckKeeps(s, a, s');
    case UnlockCheck(_, _) => CheckKeeps(s, a, s');
    case Unlock(t, m) => UnlockKeeps(s, t, m, s');
    case ReadLock(_, _) => ReadKeeps(s, a, s');
    case ReadTake(_, _) => ReadKeeps(s, a, s');
    case ReadUnlock(_, _) => ReadKeeps(s, a, s');
    case Destroy(t, m) => DestroyKeeps(s, t, m, s');
  }

  lemma ReadersChange(state: map<Id, int>, readers: map<Id, multiset<Tid>>, threads: set<Tid>, m: Id,
                      state': map<Id, int>, readers': map<Id, multiset<Tid>>)
    requires ReadersOk(state, readers, threads) && ReaderOk(FieldOf(state', m), ReadersOf(readers', m), threads)
    requires forall n :: n != m ==> FieldOf(state', n) == FieldOf(state, n)
    requires forall n :: n != m ==> ReadersOf(readers', n) == ReadersOf(readers, n)
    ensures ReadersOk(state', readers', threads)
  {
    forall n
      ensures ReaderOk(FieldOf(state', n), ReadersOf(readers', n), threads)
    {
      assert ReaderOk(FieldOf(state, n), ReadersOf(readers, n), threads);
    }
  }

  /** A mutex without readers changes between free and written. */
  lemma ReadersWrite(state: map<Id, int>, readers: map<Id, multiset<Tid>>, threads: set<Tid>, m: Id, v: int)
    requires ReadersOk(state, readers, threads) && FieldOf(state, m) <= 0 && v <= 0
    ensures ReadersOk(state[m := v], readers, threads)
  {
    assert ReaderOk(FieldOf(state, m), ReadersOf(readers, m), threads);
    ReadersChange(state, readers, threads, m, state[m := v], readers);
  }

  lemma ReaderMore(state: map<Id, int>, readers: map<Id, multiset<Tid>>, threads: set<Tid>, m: Id, t: Tid,
                   state': map<Id, int>, readers': map<Id, multiset<Tid>>)
    requires ReadersOk(state, readers, threads) && FieldOf(state, m) >= 0 && t in threads
    requires state' == state[m := FieldOf(state, m) + 1] &&
      readers' == readers[m := ReadersOf(readers, m) + multiset{t}]
    ensures ReadersOk(state', readers', threads)
  {
    assert ReaderOk(FieldOf(state, m), ReadersOf(readers, m), threads);
    ReadersChange(state, readers, threads, m, state', readers');
  }

  lemma ReaderLess(state: map<Id, int>, readers: map<Id, multiset<Tid>>, threads: set<Tid>, m: Id, t: Tid,
                   state': map<Id, int>, readers': map<Id, multiset<Tid>>)
    requires ReadersOk(state, readers, threads) && FieldOf(state, m) > 0 && t in ReadersOf(readers, m)
    requires state' == state[m := FieldOf(state, m) - 1] &&
      readers' == readers[m := ReadersOf(readers, m) - multiset{t}]
    ensures ReadersOk(state', readers', threads)
  {
    var rs := ReadersOf(readers, m);
    assert ReaderOk(FieldOf(state, m), rs, threads);
    assert rs == rs - multiset{t} + multiset{t};
    ReadersChange(state, readers, threads, m, state', readers');
  }

  /** A thread past the release check holds the mutex for writing. */
  lemma ReleasingWrites(s: State, t: Tid, m: Id)
    requires WritersOk(s) && At(s, t, Releasing(m))
    ensures Holds(s.writer, t, m) && Field(s, m) == -1
  {
    assert ThreadOk(s.g, s.writer, t, s.owned[t], s.pc[t]);
  }

  lemma ReadKeepsReaders(s: State, a: Action, s': State)
    requires (a.ReadTake? || a.ReadUnlock?) && ReadersOk(s.state, s.readers, s.pc.Keys) && Step(s, a, s') &&
      Field(s, a.m) >= -1
    ensures ReadersOk(s'.state, s'.readers, s.pc.Keys)
  {
    if a.ReadTake? {
      ReaderMore(s.state, s.readers, s.pc.Keys, a.m, a.t, s'.state, s'.readers);
    } else {
      ReaderLess(s.state, s.readers, s.pc.Keys, a.m, a.t, s'.state, s'.readers);
    }
  }

  lemma WriteKeepsReaders(s: State, a: Action, s': State)
    requires (a.Take? || a.TryTake? || a.Unlock?) && ReadersOk(s.state, s.readers, s.pc.Keys) && Step(s, a, s')
    requires a.Unlock? ==> Field(s, a.m) == -1
    ensures ReadersOk(s'.state, s'.readers, s.pc.Keys)
  {
    ReadersWrite(s.state, s.readers, s.pc.Keys, a.m, if a.Unlock? then 0 else -1);
  }

  lemma SameThreads(s: State, a: Action, s': State)
    requires Step(s, a, s')
    ensures s'.pc.Keys == s.pc.Keys
    ensures !(a.ReadTake? || a.ReadUnlock? || a.Take? || a.TryTake? || a.Unlock?) ==>
      s'.state == s.state && s'.readers == s.readers
  {
  }

  lemma StepKeepsInv(s: State, a: Action, s': State)
    requires Inv(s) && Step(s, a, s')
    ensures Inv(s')
  {
    if a.Unlock? {
      ReleasingWrites(s, a.t, a.m);
    }
    StepKeepsWriters(s, a, s');
    SameThreads(s, a, s');
    if a.ReadTake? || a.ReadUnlock? {
      ReadKeepsReaders(s, a, s');
    } else if a.Take? || a.TryTake? || a.Unlock? {
      WriteKeepsReaders(s, a, s');
    }
  }

  lemma {:induction false} RunKeepsInv(states: seq<State>, actions: seq<Action>, i: nat)
    requires Run(states, actions) && i < |states|
    ensures Inv(states[i])
  {
    if i == 0 {
      assert !exists p :: Cycle(map[], p);
    } else {
      RunKeepsInv(states, actions, i - 1);
      StepKeepsInv(states[i - 1], actions[i - 1], states[i]);
    }
  }

  // ---------- no circular wait ----------

  /** Thread t is in mutex_lock for a mutex that u holds for writing. */
  predicate WaitsFor(s: State, t: Tid, u: Tid) {
    t in s.pc && s.pc[t].Waiting? && Holds(s.writer, u, s.pc[t].m)
  }

  ghost predicate CircularWait(s: State, ts: seq<Tid>) {
    |ts| > 0 && forall i :: 0 <= i < |ts| ==> WaitsFor(s, ts[i], ts[if i + 1 < |ts| then i + 1 else 0])
  }

  lemma WaitEdge(s: State, t: Tid, u: Tid)
    requires Inv(s) && WaitsFor(s, t, u) && u in s.pc && s.pc[u].Waiting?
    ensures Edge(s.g, s.pc[t].m, s.pc[u].m)
  {
    assert ThreadOk(s.g, s.writer, u, s.owned[u], s.pc[u]);
  }

  /** In every reachable state: no set of threads in mutex_lock waits in a circle. */
  lemma NoCircularWait(states: seq<State>, actions: seq<Action>, i: nat, ts: seq<Tid>)
    requires Run(states, actions) && i < |states|
    ensures Acyclic(states[i].g) && !CircularWait(states[i], ts)
  {
    RunKeepsInv(states, actions, i);
    var s := states[i];
    if CircularWait(s, ts) {
      forall k | 0 <= k < |ts|
        ensures ts[k] in s.pc && s.pc[ts[k]].Waiting?
      {
        assert WaitsFor(s, ts[k], ts[if k + 1 < |ts| then k + 1 else 0]);
      }
      var ms := seq(|ts|, k requires 0 <= k < |ts| => s.pc[ts[k]].m);
      forall k | 0 < k < |ms|
        ensures Edge(s.g, ms[k - 1], ms[k])
      {
        WaitEdge(s, ts[k - 1], ts[k]);
      }
      WaitEdge(s, ts[|ts| - 1], ts[0]);
      assert Cycle(s.g, ms);
    }
  }

  // ---------- readers are not checked ----------

  ghost predicate Enabled(s: State, a: Action) {
    exists s' :: Step(s, a, s')
  }

  /** The release check passes for a mutex that the thread holds for writing. */
  lemma CanRelease(s: State, t: Tid, m: Id)
    requires Inv(s) && At(s, t, Running) && Holds(s.writer, t, m)
    ensures Enabled(s, UnlockCheck(t, m))
  {
    assert ThreadOk(s.g, s.writer, t, s.owned[t], s.pc[t]);
    var k :| 0 <= k < |s.owned[t]| && s.owned[t][k] == m;
    var owned' := s.owned[t][..k] + s.owned[t][k + 1..];
    assert Released(s.owned[t], owned', m);
    assert Step(s, UnlockCheck(t, m), s.(owned := s.owned[t := owned'], pc := s.pc[t := Releasing(m)]));
  }

  /**
   The release check, with which mutex_unlock and condvar_wait begin, passes exactly for a
   mutex that the thread holds for writing. So a reader can never wait on a condition variable.
   */
  lemma ReleaseOnlyByWriter(states: seq<State>, actions: seq<Action>, i: nat, t: Tid, m: Id)
    requires Run(states, actions) && i < |states| && At(states[i], t, Running)
    ensures Enabled(states[i], UnlockCheck(t, m)) <==> Holds(states[i].writer, t, m)
    ensures Field(states[i], m) > 0 ==> !Enabled(states[i], UnlockCheck(t, m))
  {
    RunKeepsInv(states, actions, i);
    var s := states[i];
    assert ThreadOk(s.g, s.writer, t, s.owned[t], s.pc[t]);
    if Holds(s.writer, t, m) {
      CanRelease(s, t, m);
    } else {
      assert m !in s.owned[t];
    }
  }
}
