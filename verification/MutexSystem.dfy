/**
 Threads on one reader/writer mutex and its condition variables: core/kernel/mutex.c and
 core/kernel/wait_queue.c. Each section under a spinlock is one step, and a sleeping thread
 looks at its queue element at any time.
 */
module MutexSystem {
  import opened Options
  import opened WaitQueue

  /** What a sleeping thread wants: the mutex for reading or writing, after a signal if cv is there. */
  datatype Sleep = Sleep(read: bool, cv: Option<Cv>)

  /**
   Where a thread stands. Try: before the section of a lock call, woken if it comes from the
   wait queue. Linked: in condvar_wait, still holding the mutex. Signalling: in cv_signal,
   between its two sections. Waking: in wq_wake_next, going to sleep itself afterwards or not.
   */
  datatype Pc =
    | Idle
    | Try(read: bool, woken: bool)
    | Hold(read: bool)
    | Linked(read: bool, c: Cv)
    | Signalling(read: bool, c: Cv, all: bool)
    | Waking(first: bool, next: Option<Sleep>)
    | Sleeping(sleep: Sleep)

  datatype State = State(mx: Mutex, linked: set<Cv>, pc: map<Tid, Pc>)

  datatype Action =
    | Begin(t: Tid, read: bool)
    | TryOnce(t: Tid, read: bool)
    | LockStep(t: Tid)
    | Release(t: Tid)
    | Scan(t: Tid)
    | Final(t: Tid)
    | Link(t: Tid, c: Cv)
    | Wait(t: Tid)
    | Signal(t: Tid, c: Cv, all: bool)
    | Promote(t: Tid)

  predicate Holding(pc: Pc, read: bool) {
    match pc
    case Hold(r) => r == read
    case Linked(r, _) => r == read
    case Signalling(r, _, _) => r == read
    case _ => false
  }

  /** The sleep of a thread whose element is in the queue. */
  function Asleep(pc: Pc): Option<Sleep> {
    match pc
    case Waking(_, next) => next
    case Sleeping(w) => Some(w)
    case _ => None
  }

  function Afterwards(next: Option<Sleep>): Pc {
    if next.Some? then Sleeping(next.value) else Idle
  }

  /** State s with thread t at pc. */
  function Put(s: State, t: Tid, pc: Pc): State {
    s.(pc := s.pc[t := pc])
  }

  /** The successor state; a step that is not possible, or that would panic, has none. */
  function Next(s: State, a: Action): Option<State> {
    if a.t !in s.pc then None else
    var t, pc := a.t, s.pc[a.t];
    match a
    case Begin(_, read) =>
      if pc == Idle then Some(Put(s, t, Try(read, false))) else None
    case TryOnce(_, read) =>
      if pc != Idle then None
      else if Free(s.mx, read) then Some(Put(s, t, Hold(read)).(mx := Taken(s.mx, read)))
      else Some(s)
    case LockStep(_) =>
      if !pc.Try? then None
      else if Free(s.mx, pc.read) then Some(Put(s, t, Hold(pc.read)).(mx := Taken(s.mx, pc.read)))
      else Some(Put(s, t, Sleeping(Sleep(pc.read, None))).(mx := Enqueued(s.mx, Elem(t, None, pc.read, false))))
    case Release(_) =>
      if !pc.Hold? || s.mx.state == 0 then None
      else
        var mx := if pc.read then Dropped(s.mx) else s.mx.(state := 0);
        Some(Put(s, t, if mx.state == 0 then Waking(true, None) else Idle).(mx := mx))
    case Scan(_) =>
      if !pc.Waking? then None
      else
        var k := FirstEligible(s.mx.q, pc.first);
        var again := k < |s.mx.q| && s.mx.q[k].read;
        var pc' := if again then Waking(false, pc.next) else Afterwards(pc.next);
        Some(Put(s, t, pc').(mx := s.mx.(q := Scanned(s.mx.q, pc.first))))
    case Final(_) =>
      if !pc.Sleeping? || Position(s.mx.q, t) == |s.mx.q| then None
      else if s.mx.q[Position(s.mx.q, t)].done
        then Some(Put(s, t, Try(pc.sleep.read, true)).(mx := s.mx.(q := Without(s.mx.q, t))))
      else Some(s)
    case Link(_, c) =>
      if pc.Hold? then Some(Put(s, t, Linked(pc.read, c)).(linked := s.linked + {c})) else None
    case Wait(_) =>
      if !pc.Linked? || s.mx.state == 0 then None
      else
        var read := s.mx.state > 0;
        var mx := Dropped(Enqueued(s.mx, Elem(t, Some(pc.c), read, false)));
        var w := Sleep(read, Some(pc.c));
        Some(Put(s, t, if mx.state == 0 then Waking(true, Some(w)) else Sleeping(w)).(mx := mx))
    case Signal(_, c, all) =>
      if !pc.Hold? then None
      else if c in s.linked then Some(Put(s, t, Signalling(pc.read, c, all)))
      else Some(s)
    case Promote(_) =>
      if pc.Signalling? then Some(Put(s, t, Hold(pc.read)).(mx := s.mx.(q := Promoted(s.mx.q, pc.c, pc.all)))) else None
  }

  predicate Init(s: State) {
    s.mx == Mutex(0, []) && s.linked == {} && forall t :: t in s.pc ==> s.pc[t] == Idle
  }

  ghost predicate Run(states: seq<State>, actions: seq<Action>) {
    && |states| == |actions| + 1 && Init(states[0])
    && forall i {:trigger actions[i]} :: 0 <= i < |actions| ==> Next(states[i], actions[i]) == Some(states[i + 1])
  }

  // ---------- holders ----------

  function Holders(pc: map<Tid, Pc>, read: bool): set<Tid> {
    set t | t in pc && Holding(pc[t], read)
  }

  /** The state field counts the holders: -1 for one writer alone, k for k readers. */
  predicate Counted(state: int, pc: map<Tid, Pc>) {
    if state == -1 then |Holders(pc, false)| == 1 && Holders(pc, true) == {}
    else Holders(pc, false) == {} && state == |Holders(pc, true)|
  }

  lemma HoldersPut(pc: map<Tid, Pc>, t: Tid, p: Pc, read: bool)
    requires t in pc
    ensures Holders(pc[t := p], read) == if Holding(p, read) then Holders(pc, read) + {t} else Holders(pc, read) - {t}
  {
  }

  lemma CountedSame(state: int, pc: map<Tid, Pc>, t: Tid, p: Pc)
    requires t in pc && Counted(state, pc)
    requires Holding(p, true) == Holding(pc[t], true) && Holding(p, false) == Holding(pc[t], false)
    ensures Counted(state, pc[t := p])
  {
    HoldersPut(pc, t, p, true);
    HoldersPut(pc, t, p, false);
    assert Holders(pc[t := p], true) == Holders(pc, true);
    assert Holders(pc[t := p], false) == Holders(pc, false);
  }

  lemma CountedTaken(mx: Mutex, pc: map<Tid, Pc>, t: Tid, p: Pc, read: bool)
    requires t in pc && Counted(mx.state, pc) && Free(mx, read)
    requires !Holding(pc[t], true) && !Holding(pc[t], false) && Holding(p, read) && !Holding(p, !read)
    ensures Counted(Taken(mx, read).state, pc[t := p])
  {
    HoldersPut(pc, t, p, true);
    HoldersPut(pc, t, p, false);
  }

  /** What a holder knows about the state field. */
  lemma HolderState(state: int, pc: map<Tid, Pc>, t: Tid)
    requires t in pc && Counted(state, pc)
    ensures Holding(pc[t], true) ==> state > 0
    ensures Holding(pc[t], false) ==> state == -1
  {
    assert Holding(pc[t], true) ==> t in Holders(pc, true);
    assert Holding(pc[t], false) ==> t in Holders(pc, false);
  }

  lemma CountedDropped(mx: Mutex, pc: map<Tid, Pc>, t: Tid, p: Pc)
    requires t in pc && Counted(mx.state, pc) && (Holding(pc[t], true) || Holding(pc[t], false))
    requires !Holding(p, true) && !Holding(p, false)
    ensures Counted(Dropped(mx).state, pc[t := p])
  {
    HolderState(mx.state, pc, t);
    HoldersPut(pc, t, p, true);
    HoldersPut(pc, t, p, false);
    if mx.state == -1 {
      SingleHolder(Holders(pc, false), t);
    } else {
      assert t !in Holders(pc, false);
      assert t in Holders(pc, true);
    }
  }

  lemma SingleHolder(h: set<Tid>, t: Tid)
    requires |h| == 1 && t in h
    ensures h - {t} == {}
  {
    assert |h - {t}| == 0;
  }

  // ---------- the queue ----------

  /** The element of a sleeping thread. */
  predicate ElemOk(e: Elem, pc: map<Tid, Pc>, linked: set<Cv>) {
    && e.thread in pc && Asleep(pc[e.thread]).Some? && e.read == Asleep(pc[e.thread]).value.read
    && (e.cv.Some? ==> e.cv == Asleep(pc[e.thread]).value.cv && e.cv.value in linked && !e.done)
  }

  predicate Queued(q: seq<Elem>, t: Tid) {
    exists i :: 0 <= i < |q| && q[i].thread == t
  }

  /** Exactly the sleeping threads are in the queue, once each. */
  ghost predicate QueueOk(q: seq<Elem>, pc: map<Tid, Pc>, linked: set<Cv>) {
    && OnePerThread(q)
    && (forall i :: 0 <= i < |q| ==> ElemOk(q[i], pc, linked))
    && (forall t :: t in pc && Asleep(pc[t]).Some? ==> Queued(q, t))
    && (forall t :: t in pc && pc[t].Signalling? ==> pc[t].c in linked)
    && (forall t :: t in pc && pc[t].Linked? ==> pc[t].c in linked)
  }

  lemma QueueSame(q: seq<Elem>, q': seq<Elem>, pc: map<Tid, Pc>, linked: set<Cv>, linked': set<Cv>, t: Tid, p: Pc)
    requires QueueOk(q, pc, linked) && t in pc && Asleep(p) == Asleep(pc[t]) && linked <= linked'
    requires (p.Signalling? || p.Linked?) ==> p.c in linked'
    requires |q'| == |q| && forall i :: 0 <= i < |q| ==>
      q'[i] == q[i] || q'[i] == q[i].(cv := None) || (q[i].cv.None? && q'[i] == q[i].(done := true))
    ensures QueueOk(q', pc[t := p], linked')
  {
    var pc' := pc[t := p];
    forall i | 0 <= i < |q'|
      ensures ElemOk(q'[i], pc', linked')
    {
      assert ElemOk(q[i], pc, linked);
    }
    forall u | u in pc' && Asleep(pc'[u]).Some?
      ensures Queued(q', u)
    {
      assert Queued(q, u);
      var i :| 0 <= i < |q| && q[i].thread == u;
      assert q'[i].thread == u;
    }
  }

  lemma QueueMore(q: seq<Elem>, pc: map<Tid, Pc>, linked: set<Cv>, t: Tid, p: Pc, e: Elem)
    requires QueueOk(q, pc, linked) && t in pc && Asleep(pc[t]).None?
    requires e.thread == t && !e.done && Asleep(p) == Some(Sleep(e.read, e.cv)) && (e.cv.Some? ==> e.cv.value in linked)
    ensures QueueOk(q + [e], pc[t := p], linked)
  {
    var q', pc' := q + [e], pc[t := p];
    forall i | 0 <= i < |q|
      ensures q[i].thread != t
    {
      assert ElemOk(q[i], pc, linked);
    }
    forall i | 0 <= i < |q'|
      ensures ElemOk(q'[i], pc', linked)
    {
      if i < |q| {
        assert ElemOk(q[i], pc, linked);
      }
    }
    forall u | u in pc' && Asleep(pc'[u]).Some?
      ensures Queued(q', u)
    {
      if u == t {
        assert q'[|q|].thread == u;
      } else {
        assert Queued(q, u);
        var i :| 0 <= i < |q| && q[i].thread == u;
        assert q'[i].thread == u;
      }
    }
  }

  lemma QueueLess(q: seq<Elem>, pc: map<Tid, Pc>, linked: set<Cv>, t: Tid, p: Pc)
    requires QueueOk(q, pc, linked) && t in pc && Asleep(p).None? && !p.Signalling? && !p.Linked?
    ensures QueueOk(Without(q, t), pc[t := p], linked)
  {
    var q', pc' := Without(q, t), pc[t := p];
    WithoutMembers(q, t);
    forall i | 0 <= i < |q'|
      ensures ElemOk(q'[i], pc', linked)
    {
      assert q'[i] in q;
      var j :| 0 <= j < |q| && q[j] == q'[i];
      assert ElemOk(q[j], pc, linked);
    }
    forall u | u in pc' && Asleep(pc'[u]).Some?
      ensures Queued(q', u)
    {
      assert Queued(q, u);
      var i :| 0 <= i < |q| && q[i].thread == u;
      assert q[i] in q';
      var j :| 0 <= j < |q'| && q'[j] == q[i];
    }
  }

  // ---------- no lost wakeup ----------

  /** A free mutex with a thread in the queue that waits for nothing else. */
  predicate NeedsWake(mx: Mutex) {
    mx.state == 0 && exists i :: 0 <= i < |mx.q| && Eligible(mx.q[i], true)
  }

  predicate Woken(q: seq<Elem>, t: Tid) {
    exists i :: 0 <= i < |q| && q[i].thread == t && q[i].done
  }

  /** A thread that has yet to make the first scan, or that has been woken and has yet to try the lock. */
  predicate WillHelp(s: State, t: Tid) {
    t in s.pc && ((s.pc[t].Try? && s.pc[t].woken) || (s.pc[t].Waking? && s.pc[t].first) || Woken(s.mx.q, t))
  }

  ghost predicate NoLostWakeup(s: State) {
    NeedsWake(s.mx) ==> exists t :: WillHelp(s, t)
  }

  ghost predicate Inv(s: State) {
    Counted(s.mx.state, s.pc) && QueueOk(s.mx.q, s.pc, s.linked) && NoLostWakeup(s)
  }

  // ---------- every step keeps the invariant ----------

  lemma TryKeeps(s: State, a: Action, s': State)
    requires Inv(s) && (a.TryOnce? || a.LockStep?) && Next(s, a) == Some(s')
    ensures Inv(s')
  {
    var t, pc := a.t, s.pc[a.t];
    var read := if a.TryOnce? then a.read else pc.read;
    if Free(s.mx, read) {
      CountedTaken(s.mx, s.pc, t, Hold(read), read);
      QueueSame(s.mx.q, s.mx.q, s.pc, s.linked, s.linked, t, Hold(read));
    } else if a.LockStep? {
      var w := Sleeping(Sleep(read, None));
      CountedSame(s.mx.state, s.pc, t, w);
      QueueMore(s.mx.q, s.pc, s.linked, t, w, Elem(t, None, read, false));
    }
  }

  lemma ReleaseKeeps(s: State, t: Tid, s': State)
    requires Inv(s) && Next(s, Release(t)) == Some(s')
    ensures Inv(s')
  {
    HolderState(s.mx.state, s.pc, t);
    CountedDropped(s.mx, s.pc, t, s'.pc[t]);
    QueueSame(s.mx.q, s.mx.q, s.pc, s.linked, s.linked, t, s'.pc[t]);
    assert s'.mx.state == 0 ==> WillHelp(s', t);
  }

  lemma WaitKeeps(s: State, t: Tid, s': State)
    requires Inv(s) && Next(s, Wait(t)) == Some(s')
    ensures Inv(s')
  {
    HolderState(s.mx.state, s.pc, t);
    CountedDropped(s.mx, s.pc, t, s'.pc[t]);
    QueueMore(s.mx.q, s.pc, s.linked, t, s'.pc[t], Elem(t, Some(s.pc[t].c), s.mx.state > 0, false));
    assert s'.mx.state == 0 ==> WillHelp(s', t);
  }

  /** Steps of a thread that holds the mutex before and after. */
  lemma HolderKeeps(s: State, a: Action, s': State)
    requires Inv(s) && (a.Link? || a.Signal? || a.Promote?) && Next(s, a) == Some(s')
    ensures Inv(s')
  {
    var t := a.t;
    HolderState(s.mx.state, s.pc, t);
    CountedSame(s.mx.state, s.pc, t, s'.pc[t]);
    QueueSame(s.mx.q, s'.mx.q, s.pc, s.linked, s'.linked, t, s'.pc[t]);
    assert s'.pc == s.pc[t := s'.pc[t]];
  }

  lemma ScanKeeps(s: State, t: Tid, s': State)
    requires Inv(s) && Next(s, Scan(t)) == Some(s')
    ensures Inv(s')
  {
    var q, q', k := s.mx.q, s'.mx.q, FirstEligible(s.mx.q, s.pc[t].first);
    CountedSame(s.mx.state, s.pc, t, s'.pc[t]);
    QueueSame(q, q', s.pc, s.linked, s.linked, t, s'.pc[t]);
    if k < |q| {
      assert ElemOk(q[k], s.pc, s.linked);
      assert q'[k].done && Woken(q', q[k].thread);
      assert WillHelp(s', q[k].thread);
    } else if NeedsWake(s'.mx) && !s.pc[t].first {
      var u :| WillHelp(s, u);
      assert WillHelp(s', u);
    }
  }

  lemma FinalKeeps(s: State, t: Tid, s': State)
    requires Inv(s) && Next(s, Final(t)) == Some(s')
    ensures Inv(s')
  {
    if s' != s {
      CountedSame(s.mx.state, s.pc, t, s'.pc[t]);
      QueueLess(s.mx.q, s.pc, s.linked, t, s'.pc[t]);
      assert WillHelp(s', t);
    }
  }

  lemma BeginKeeps(s: State, t: Tid, read: bool, s': State)
    requires Inv(s) && Next(s, Begin(t, read)) == Some(s')
    ensures Inv(s')
  {
    CountedSame(s.mx.state, s.pc, t, s'.pc[t]);
    QueueSame(s.mx.q, s.mx.q, s.pc, s.linked, s.linked, t, s'.pc[t]);
    if NeedsWake(s.mx) {
      var u :| WillHelp(s, u);
      assert WillHelp(s', u);
    }
  }

  lemma StepKeepsInv(s: State, a: Action, s': State)
    requires Inv(s) && Next(s, a) == Some(s')
    ensures Inv(s')
  {
    match a
    case Begin(t, read) => BeginKeeps(s, t, read, s');
    case TryOnce(_, _) => TryKeeps(s, a, s');
    case LockStep(_) => TryKeeps(s, a, s');
    case Release(t) => ReleaseKeeps(s, t, s');
    case Scan(t) => ScanKeeps(s, t, s');
    case Final(t) => FinalKeeps(s, t, s');
    case Link(_, _) => HolderKeeps(s, a, s');
    case Wait(t) => WaitKeeps(s, t, s');
    case Signal(_, _, _) => HolderKeeps(s, a, s');
    case Promote(_) => HolderKeeps(s, a, s');
  }

  lemma {:induction false} RunKeepsInv(states: seq<State>, actions: seq<Action>, i: nat)
    requires Run(states, actions) && i < |states|
    ensures Inv(states[i])
  {
    if i == 0 {
      var s := states[0];
      assert Holders(s.pc, true) == {} && Holders(s.pc, false) == {};
    } else {
      RunKeepsInv(states, actions, i - 1);
      StepKeepsInv(states[i - 1], actions[i - 1], states[i]);
    }
  }

  // ---------- what holds over whole runs ----------

  /** The state field is -1 iff one writer and no reader holds the mutex, and k > 0 iff k readers and no writer do. */
  lemma Exclusion(states: seq<State>, actions: seq<Action>, i: nat)
    requires Run(states, actions) && i < |states|
    ensures var s := states[i];
      && (s.mx.state == -1 <==> |Holders(s.pc, false)| == 1 && Holders(s.pc, true) == {})
      && (s.mx.state > 0 <==> |Holders(s.pc, true)| > 0 && Holders(s.pc, false) == {})
      && (s.mx.state > 0 ==> s.mx.state == |Holders(s.pc, true)|)
      && (s.mx.state == 0 <==> Holders(s.pc, true) == {} && Holders(s.pc, false) == {})
  {
    RunKeepsInv(states, actions, i);
  }

  lemma NoWakeupLost(states: seq<State>, actions: seq<Action>, i: nat)
    requires Run(states, actions) && i < |states| && NeedsWake(states[i].mx)
    ensures exists t :: WillHelp(states[i], t)
  {
    RunKeepsInv(states, actions, i);
  }

  /** When all threads are idle or asleep with nobody woken, only condition variables are waited for. */
  lemma Quiescent(states: seq<State>, actions: seq<Action>, i: nat)
    requires Run(states, actions) && i < |states|
    requires forall t :: t in states[i].pc ==>
      states[i].pc[t].Idle? || (states[i].pc[t].Sleeping? && !Woken(states[i].mx.q, t))
    ensures states[i].mx.state == 0
    ensures forall k :: 0 <= k < |states[i].mx.q| ==> states[i].mx.q[k].cv.Some?
  {
    RunKeepsInv(states, actions, i);
    var s := states[i];
    assert Holders(s.pc, true) == {} && Holders(s.pc, false) == {};
    forall k | 0 <= k < |s.mx.q|
      ensures s.mx.q[k].cv.Some?
    {
      var e := s.mx.q[k];
      assert ElemOk(e, s.pc, s.linked);
      assert e.done ==> Woken(s.mx.q, e.thread);
      assert e.cv.None? ==> Eligible(e, true);
    }
  }

  /** Thread t waits for a signal on c. */
  predicate WaitsOn(s: State, t: Tid, c: Cv) {
    exists i :: 0 <= i < |s.mx.q| && s.mx.q[i].thread == t && s.mx.q[i].cv == Some(c)
  }

  /** The step is the promotion by a holder of the mutex that signals c. */
  predicate Signals(s: State, a: Action, c: Cv) {
    a.Promote? && a.t in s.pc && s.pc[a.t].Signalling? && s.pc[a.t].c == c
  }

  lemma WaiterAsleep(s: State, t: Tid, c: Cv)
    requires Inv(s) && WaitsOn(s, t, c)
    ensures t in s.pc && Asleep(s.pc[t]).Some?
  {
    var i :| 0 <= i < |s.mx.q| && s.mx.q[i].thread == t && s.mx.q[i].cv == Some(c);
    assert ElemOk(s.mx.q[i], s.pc, s.linked);
  }

  lemma WaiterKept(s: State, a: Action, s': State, i: nat, c: Cv)
    requires Next(s, a) == Some(s') && i < |s.mx.q| && s.mx.q[i].cv == Some(c) && !Signals(s, a, c) && !a.Final?
    ensures i < |s'.mx.q| && s'.mx.q[i] == s.mx.q[i]
  {
    match a
    case Promote(t) => assert s'.mx.q == Promoted(s.mx.q, s.pc[t].c, s.pc[t].all);
    case Scan(t) => assert s'.mx.q == Scanned(s.mx.q, s.pc[t].first);
    case _ =>
  }

  lemma OnlySignalEnds(s: State, a: Action, s': State, t: Tid, c: Cv)
    requires Inv(s) && Next(s, a) == Some(s') && WaitsOn(s, t, c) && !Signals(s, a, c)
    ensures WaitsOn(s', t, c)
  {
    var q, q' := s.mx.q, s'.mx.q;
    var i :| 0 <= i < |q| && q[i].thread == t && q[i].cv == Some(c);
    if !a.Final? {
      WaiterKept(s, a, s', i, c);
    } else if s' != s {
      FinalKeepsWaiter(s, a.t, s', i);
    }
  }

  /** A thread that leaves the queue has been woken, so it is not one that waits for a signal. */
  lemma FinalKeepsWaiter(s: State, t: Tid, s': State, i: nat)
    requires Inv(s) && Next(s, Final(t)) == Some(s') && i < |s.mx.q| && s.mx.q[i].cv.Some? && s' != s
    ensures s.mx.q[i] in s'.mx.q
  {
    assert ElemOk(s.mx.q[i], s.pc, s.linked);
    WithoutMembers(s.mx.q, t);
  }

  /**
   condvar_wait comes back with the mutex only after another holder of the mutex has signalled
   the variable and this signal has reached the thread's own queue element.
   */
  lemma WaitReturnsSignalled(states: seq<State>, actions: seq<Action>, i: nat, j: nat, t: Tid, c: Cv) returns (k: nat)
    requires Run(states, actions) && i < j < |states|
    requires actions[i] == Wait(t) && t in states[i].pc && states[i].pc[t].Linked? && states[i].pc[t].c == c
    requires t in states[j].pc && (Holding(states[j].pc[t], true) || Holding(states[j].pc[t], false))
    ensures i < k < j && Signals(states[k], actions[k], c) && actions[k].t != t
    ensures WaitsOn(states[k], t, c) && !WaitsOn(states[k + 1], t, c)
  {
    RunKeepsInv(states, actions, i + 1);
    RunKeepsInv(states, actions, j);
    var s := states[i + 1];
    assert Next(states[i], actions[i]) == Some(s);
    assert s.mx.q[|states[i].mx.q|].thread == t && WaitsOn(s, t, c);
    if WaitsOn(states[j], t, c) {
      WaiterAsleep(states[j], t, c);
    }
    k := OwnSignal(states, actions, i + 1, j, t, c);
  }

  /** The step that ends the wait of thread t is a signal, and not its own: it is asleep until then. */
  lemma {:induction false} OwnSignal(states: seq<State>, actions: seq<Action>, i: nat, j: nat, t: Tid, c: Cv)
    returns (k: nat)
    requires Run(states, actions) && i <= j < |states|
    requires WaitsOn(states[i], t, c) && !WaitsOn(states[j], t, c)
    ensures i <= k < j && Signals(states[k], actions[k], c) && actions[k].t != t
    ensures WaitsOn(states[k], t, c) && !WaitsOn(states[k + 1], t, c)
    decreases j - i
  {
    RunKeepsInv(states, actions, i);
    WaiterAsleep(states[i], t, c);
    if WaitsOn(states[i + 1], t, c) {
      k := OwnSignal(states, actions, i + 1, j, t, c);
    } else {
      k := i;
      if !Signals(states[i], actions[i], c) {
        OnlySignalEnds(states[i], actions[i], states[i + 1], t, c);
      }
    }
  }

  /** A signal by a holder finds the waiters: none of them holds the mutex, and the first, or each, becomes active. */
  lemma SignalFinds(states: seq<State>, actions: seq<Action>, i: nat, t: Tid, c: Cv, all: bool, u: Tid)
    requires Run(states, actions) && i < |states| && t in states[i].pc && states[i].pc[t].Hold?
    requires WaitsOn(states[i], u, c)
    ensures u in states[i].pc && !Holding(states[i].pc[u], true) && !Holding(states[i].pc[u], false)
    ensures Next(states[i], Signal(t, c, all)) == Some(Put(states[i], t, Signalling(states[i].pc[t].read, c, all)))
    ensures var q := states[i].mx.q; var k := FirstWaiter(q, c);
      k < |q| && Promoted(q, c, all)[k] == q[k].(cv := None) && !q[k].done &&
        (all ==> forall e :: e in Promoted(q, c, all) ==> e.cv != Some(c))
  {
    RunKeepsInv(states, actions, i);
    var q := states[i].mx.q;
    WaiterAsleep(states[i], u, c);
    assert ElemOk(q[FirstWaiter(q, c)], states[i].pc, states[i].linked);
  }

  /** Thread u has the first element of the queue that waits for c. */
  ghost predicate WaitsFirst(q: seq<Elem>, u: Tid, c: Cv) {
    exists k :: 0 <= k < |q| && q[k].thread == u && q[k].cv == Some(c) && forall j :: 0 <= j < k ==> q[j].cv != Some(c)
  }

  /**
   The promoting step: after a broadcast nobody waits for c, after a signal the thread that was
   first in the queue has stopped waiting, and nothing else has changed for anybody.
  */
  lemma PromoteWakes(states: seq<State>, actions: seq<Action>, i: nat, t: Tid, read: bool, c: Cv, all: bool)
    requires Run(states, actions) && i < |actions| && actions[i] == Promote(t)
    requires t in states[i].pc && states[i].pc[t] == Signalling(read, c, all)
    ensures var s' := states[i + 1]; all ==> forall u :: !WaitsOn(s', u, c)
    ensures !all ==> forall u :: WaitsOn(states[i + 1], u, c) <==>
      WaitsOn(states[i], u, c) && !WaitsFirst(states[i].mx.q, u, c)
    ensures forall u, d :: d != c ==> (WaitsOn(states[i + 1], u, d) <==> WaitsOn(states[i], u, d))
    ensures states[i + 1].pc == states[i].pc[t := Hold(read)] && states[i + 1].mx.state == states[i].mx.state
  {
    RunKeepsInv(states, actions, i);
    assert Next(states[i], actions[i]) == Some(states[i + 1]);
    forall u, d
      ensures d != c ==> (WaitsOn(states[i + 1], u, d) <==> WaitsOn(states[i], u, d))
      ensures d == c ==> (WaitsOn(states[i + 1], u, c) <==>
        WaitsOn(states[i], u, c) && !all && !WaitsFirst(states[i].mx.q, u, c))
    {
      PromotedWaits(states[i], states[i + 1], u, d, c, all);
    }
  }

  lemma PromotedWaits(s: State, s': State, u: Tid, d: Cv, c: Cv, all: bool)
    requires OnePerThread(s.mx.q) && s'.mx.q == Promoted(s.mx.q, c, all)
    ensures WaitsOn(s', u, d) <==> WaitsOn(s, u, d) && (d == c ==> !all && !WaitsFirst(s.mx.q, u, c))
  {
    var q, q' := s.mx.q, s'.mx.q;
    if i :| 0 <= i < |q| && q[i].thread == u {
      assert forall j :: 0 <= j < |q| && q[j].thread == u ==> j == i;
      assert WaitsOn(s, u, d) <==> q[i].cv == Some(d);
      assert WaitsOn(s', u, d) <==> q'[i].cv == Some(d);
      assert q[i].cv == Some(c) ==> (WaitsFirst(q, u, c) <==> i == FirstWaiter(q, c));
    }
  }

  /** A thread that is about to promote has called signal, or broadcast, for this variable. */
  lemma {:induction false} SignalCalled(states: seq<State>, actions: seq<Action>, i: nat, t: Tid) returns (j: nat)
    requires Run(states, actions) && i < |states| && t in states[i].pc && states[i].pc[t].Signalling?
    ensures j < i && actions[j] == Signal(t, states[i].pc[t].c, states[i].pc[t].all)
    ensures t in states[j].pc && states[j].pc[t] == Hold(states[i].pc[t].read)
    ensures forall k :: j < k <= i ==> t in states[k].pc && states[k].pc[t] == states[i].pc[t]
  {
    j := i - 1;
    assert Next(states[j], actions[j]) == Some(states[j + 1]);
    if t in states[j].pc && states[j].pc[t] == states[i].pc[t] {
      j := SignalCalled(states, actions, i - 1, t);
    }
  }

  /** A signal that finds no mutex linked to the variable does nothing: nobody waits for it. */
  lemma UnlinkedSignal(states: seq<State>, actions: seq<Action>, i: nat, t: Tid, c: Cv, all: bool)
    requires Run(states, actions) && i < |actions| && actions[i] == Signal(t, c, all)
    ensures t in states[i].pc && states[i].pc[t].Hold?
    ensures if states[i + 1].pc[t].Hold? then states[i + 1] == states[i] && forall u :: !WaitsOn(states[i], u, c)
            else states[i + 1].pc[t] == Signalling(states[i].pc[t].read, c, all)
  {
    RunKeepsInv(states, actions, i);
    assert Next(states[i], actions[i]) == Some(states[i + 1]);
    forall u | WaitsOn(states[i], u, c)
      ensures c in states[i].linked
    {
      var k :| 0 <= k < |states[i].mx.q| && states[i].mx.q[k].thread == u && states[i].mx.q[k].cv == Some(c);
      assert ElemOk(states[i].mx.q[k], states[i].pc, states[i].linked);
    }
  }

  // ---------- who gets the mutex, and who is woken ----------

  ghost predicate Held(s: State, read: bool) {
    exists u :: u in s.pc && Holding(s.pc[u], read)
  }

  lemma HeldState(s: State)
    requires Inv(s)
    ensures Held(s, false) <==> s.mx.state == -1
    ensures Held(s, true) <==> s.mx.state > 0
    ensures s.mx.state >= -1
  {
    if u :| u in s.pc && Holding(s.pc[u], false) {
      HolderState(s.mx.state, s.pc, u);
    }
    if u :| u in s.pc && Holding(s.pc[u], true) {
      HolderState(s.mx.state, s.pc, u);
    }
    if s.mx.state == -1 {
      var u :| u in Holders(s.pc, false);
    } else if s.mx.state > 0 {
      var u :| u in Holders(s.pc, true);
    }
  }

  /**
   An attempt succeeds exactly if no writer holds the mutex and, for writing, no reader either.
   Otherwise a lock call queues the thread last, and a trylock call changes nothing.
  */
  lemma LockOutcome(states: seq<State>, actions: seq<Action>, i: nat, t: Tid, read: bool)
    requires Run(states, actions) && i < |actions|
    requires actions[i] == TryOnce(t, read) ||
      (actions[i] == LockStep(t) && t in states[i].pc && states[i].pc[t].Try? && states[i].pc[t].read == read)
    ensures var s, s' := states[i], states[i + 1];
      if !Held(s, false) && (read || !Held(s, true)) then s'.pc == s.pc[t := Hold(read)] && s'.mx.q == s.mx.q
      else if actions[i].TryOnce? then s' == s
      else s'.pc == s.pc[t := Sleeping(Sleep(read, None))] && s'.mx.q == s.mx.q + [Elem(t, None, read, false)]
  {
    RunKeepsInv(states, actions, i);
    assert Next(states[i], actions[i]) == Some(states[i + 1]);
    HeldState(states[i]);
  }

  /** The caller of condvar_wait queues last, as the reader or writer that it was, and wakes others if none holds on. */
  lemma WaitOutcome(states: seq<State>, actions: seq<Action>, i: nat, t: Tid, read: bool, c: Cv)
    requires Run(states, actions) && i < |actions| && actions[i] == Wait(t)
    requires t in states[i].pc && states[i].pc[t] == Linked(read, c)
    ensures var s, s', w := states[i], states[i + 1], Sleep(read, Some(c));
      s'.mx.q == s.mx.q + [Elem(t, Some(c), read, false)] &&
      s'.pc == s.pc[t := if Held(s', false) || Held(s', true) then Sleeping(w) else Waking(true, Some(w))]
  {
    RunKeepsInv(states, actions, i);
    RunKeepsInv(states, actions, i + 1);
    assert Next(states[i], actions[i]) == Some(states[i + 1]);
    HolderState(states[i].mx.state, states[i].pc, t);
    HeldState(states[i + 1]);
  }

  /** A waiter that the next scan may wake. */
  predicate Active(e: Elem) {
    e.cv == None && !e.done
  }

  /** Element k is the first that satisfies Active, among the readers if onlyReaders is set. */
  ghost predicate WakesAt(q: seq<Elem>, k: nat, onlyReaders: bool) {
    k < |q| && Active(q[k]) && (onlyReaders ==> q[k].read)
    && forall j :: 0 <= j < k ==> !Active(q[j]) || (onlyReaders && !q[j].read)
  }

  ghost predicate NobodyActive(q: seq<Elem>, onlyReaders: bool) {
    forall j :: 0 <= j < |q| ==> !Active(q[j]) || (onlyReaders && !q[j].read)
  }

  /** The scan of thread t has marked element k, and goes on if that is a reader's. */
  ghost predicate MarkedAt(s: State, s': State, k: nat, t: Tid, next: Option<Sleep>)
    requires k < |s.mx.q| && t in s'.pc
  {
    && s'.mx.q == s.mx.q[k := s.mx.q[k].(done := true)]
    && s'.pc[t] == if s.mx.q[k].read then Waking(false, next) else Afterwards(next)
  }

  /**
   One scan: the first pass wakes the first active waiter, each later one the first active
   reader; another pass follows exactly if a reader was woken.
  */
  lemma ScanOutcome(states: seq<State>, actions: seq<Action>, i: nat, t: Tid, first: bool, next: Option<Sleep>)
    requires Run(states, actions) && i < |actions| && actions[i] == Scan(t)
    requires t in states[i].pc && states[i].pc[t] == Waking(first, next)
    ensures var s, s' := states[i], states[i + 1];
      && t in s'.pc && s'.pc == s.pc[t := s'.pc[t]] && s'.mx.state == s.mx.state
      && if NobodyActive(s.mx.q, !first) then s'.mx.q == s.mx.q && s'.pc[t] == Afterwards(next)
         else exists k: nat :: WakesAt(s.mx.q, k, !first) && MarkedAt(s, s', k, t, next)
  {
    assert Next(states[i], actions[i]) == Some(states[i + 1]);
    var q := states[i].mx.q;
    var k := FirstEligible(q, first);
    if k < |q| {
      assert WakesAt(q, k, !first) && MarkedAt(states[i], states[i + 1], k, t, next);
      assert Eligible(q[k], first);
    } else {
      assert NobodyActive(q, !first);
    }
  }

  /**
   The passes of one wq_wake_next end with no active reader left in the queue, unless the first
   pass has woken a writer.
  */
  lemma ScansEnd(states: seq<State>, actions: seq<Action>, i: nat, t: Tid)
    requires Run(states, actions) && i < |actions| && actions[i] == Scan(t)
    requires t in states[i + 1].pc && !states[i + 1].pc[t].Waking?
    ensures t in states[i].pc && states[i].pc[t].Waking?
    ensures NobodyActive(states[i + 1].mx.q, true)
      || (states[i].pc[t].first && exists k: nat :: WakesAt(states[i].mx.q, k, false) && !states[i].mx.q[k].read)
  {
    assert Next(states[i], actions[i]) == Some(states[i + 1]);
    ScanOutcome(states, actions, i, t, states[i].pc[t].first, states[i].pc[t].next);
    assert NobodyActive(states[i].mx.q, false) ==> NobodyActive(states[i].mx.q, true);
  }

  /** A later pass follows only on one that has woken a reader. */
  lemma {:induction false} LaterPass(states: seq<State>, actions: seq<Action>, i: nat, t: Tid) returns (j: nat)
    requires Run(states, actions) && i < |states| && t in states[i].pc
    requires states[i].pc[t].Waking? && !states[i].pc[t].first
    ensures j < i && actions[j] == Scan(t) && t in states[j].pc && states[j].pc[t].Waking?
    ensures exists k: nat :: WakesAt(states[j].mx.q, k, !states[j].pc[t].first) && states[j].mx.q[k].read
  {
    j := i - 1;
    assert Next(states[j], actions[j]) == Some(states[j + 1]);
    if t in states[j].pc && states[j].pc[t] == states[i].pc[t] && actions[j] != Scan(t) {
      j := LaterPass(states, actions, i - 1, t);
    } else {
      ScanOutcome(states, actions, j, t, states[j].pc[t].first, states[j].pc[t].next);
    }
  }

  /** A sleeping thread goes on exactly if its element has been marked, and takes it out of the queue. */
  lemma FinalOutcome(states: seq<State>, actions: seq<Action>, i: nat, t: Tid)
    requires Run(states, actions) && i < |actions| && actions[i] == Final(t)
    ensures t in states[i].pc && states[i].pc[t].Sleeping?
    ensures var s, s' := states[i], states[i + 1];
      if exists e :: e in s.mx.q && e.thread == t && e.done
      then s'.pc == s.pc[t := Try(s.pc[t].sleep.read, true)] && s'.mx.state == s.mx.state &&
           forall e :: e in s'.mx.q <==> e in s.mx.q && e.thread != t
      else s' == s
  {
    RunKeepsInv(states, actions, i);
    assert Next(states[i], actions[i]) == Some(states[i + 1]);
    var q := states[i].mx.q;
    var k := Position(q, t);
    WithoutMembers(q, t);
    assert q[k] in q;
    assert forall j :: 0 <= j < |q| && q[j].thread == t ==> j == k;
  }

  /** s after wq_promote_condvar, called by anybody. */
  function AfterPromotion(s: State, c: Cv, all: bool): State {
    s.(mx := s.mx.(q := Promoted(s.mx.q, c, all)))
  }

  /**
   A promotion by a thread that need not hold the mutex: a wakeup is lost exactly if the
   mutex is free, somebody waits for c, and no thread is about to help.
   */
  lemma PromotionAnywhere(s: State, c: Cv, all: bool)
    requires Inv(s)
    ensures NoLostWakeup(AfterPromotion(s, c, all))
      <==> s.mx.state != 0 || FirstWaiter(s.mx.q, c) == |s.mx.q| || exists t :: WillHelp(s, t)
  {
    var q, q', k := s.mx.q, Promoted(s.mx.q, c, all), FirstWaiter(s.mx.q, c);
    forall t
      ensures WillHelp(AfterPromotion(s, c, all), t) <==> WillHelp(s, t)
    {
      SameWoken(q, q', t);
    }
    if k < |q| {
      assert ElemOk(q[k], s.pc, s.linked);
      assert Eligible(q'[k], true);
    } else {
      assert q' == q;
    }
  }

  /** Seen from the caller: a promotion while it holds the mutex never loses a wakeup. */
  lemma HolderPromotes(states: seq<State>, actions: seq<Action>, i: nat, t: Tid, c: Cv, all: bool)
    requires Run(states, actions) && i < |states| && t in states[i].pc
    requires Holding(states[i].pc[t], true) || Holding(states[i].pc[t], false)
    ensures NoLostWakeup(AfterPromotion(states[i], c, all))
  {
    RunKeepsInv(states, actions, i);
    HolderState(states[i].mx.state, states[i].pc, t);
    PromotionAnywhere(states[i], c, all);
  }

  /** With all threads at rest, a promotion without the mutex loses a wakeup exactly if anybody waits for c. */
  lemma RestPromotes(states: seq<State>, actions: seq<Action>, i: nat, c: Cv, all: bool)
    requires Run(states, actions) && i < |states|
    requires forall t :: t in states[i].pc ==>
      states[i].pc[t].Idle? || (states[i].pc[t].Sleeping? && !Woken(states[i].mx.q, t))
    ensures NoLostWakeup(AfterPromotion(states[i], c, all)) <==> forall t :: !WaitsOn(states[i], t, c)
  {
    RunKeepsInv(states, actions, i);
    Quiescent(states, actions, i);
    PromotionAnywhere(states[i], c, all);
    var q := states[i].mx.q;
    if FirstWaiter(q, c) < |q| {
      assert WaitsOn(states[i], q[FirstWaiter(q, c)].thread, c);
    }
  }

  lemma SameWoken(q: seq<Elem>, q': seq<Elem>, t: Tid)
    requires |q'| == |q| && forall i :: 0 <= i < |q| ==> q'[i].thread == q[i].thread && q'[i].done == q[i].done
    ensures Woken(q', t) <==> Woken(q, t)
  {
    if Woken(q, t) {
      var i :| 0 <= i < |q| && q[i].thread == t && q[i].done;
      assert q'[i].thread == t && q'[i].done;
    }
    if Woken(q', t) {
      var i :| 0 <= i < |q'| && q'[i].thread == t && q'[i].done;
      assert q[i].thread == t && q[i].done;
    }
  }

  /** The states in which a single thread goes to sleep on condition variable 7. */
  function Alone(i: nat): State {
    var w := Sleep(false, Some(7));
    var q := [Elem(1, Some(7), false, false)];
    if i == 0 then State(Mutex(0, []), {}, map[1 := Idle])
    else if i == 1 then State(Mutex(0, []), {}, map[1 := Try(false, false)])
    else if i == 2 then State(Mutex(-1, []), {}, map[1 := Hold(false)])
    else if i == 3 then State(Mutex(-1, []), {7}, map[1 := Linked(false, 7)])
    else if i == 4 then State(Mutex(0, q), {7}, map[1 := Waking(true, Some(w))])
    else State(Mutex(0, q), {7}, map[1 := Sleeping(w)])
  }

  function AloneAction(i: nat): Action {
    if i == 0 then Begin(1, false) else if i == 1 then LockStep(1) else if i == 2 then Link(1, 7)
    else if i == 3 then Wait(1) else Scan(1)
  }

  lemma AloneStep(i: nat)
    requires i < 5
    ensures Next(Alone(i), AloneAction(i)) == Some(Alone(i + 1))
  {
    Moves(Alone(i), Alone(i + 1).pc[1]);
    var q := [Elem(1, Some(7), false, false)];
    assert {} + {7} == {7} && [] + q == q;
    if i == 4 {
      assert FirstEligible(q, true) == 1;
    }
  }

  lemma AloneAsleep() returns (states: seq<State>, actions: seq<Action>, s: State)
    ensures Run(states, actions) && s == states[|states| - 1] == Alone(5)
  {
    s := Alone(5);
    states := seq(6, i requires 0 <= i < 6 => Alone(i));
    actions := seq(5, i requires 0 <= i < 5 => AloneAction(i));
    forall i | 0 <= i < 5
      ensures Next(states[i], actions[i]) == Some(states[i + 1])
    {
      AloneStep(i);
    }
  }

  lemma Moves(s: State, p: Pc)
    requires s.pc.Keys == {1}
    ensures Put(s, 1, p).pc == map[1 := p]
  {
  }

  /**
   Were the signal sent without holding the mutex, the wakeup could be lost: nobody helps, and
   the waiter sleeps on.
  */
  lemma SignalWithoutMutexLoses() returns (states: seq<State>, actions: seq<Action>, s: State)
    ensures Run(states, actions) && s == AfterPromotion(states[|states| - 1], 7, true)
    ensures NeedsWake(s.mx) && (forall t :: !WillHelp(s, t)) && Next(s, Final(1)) == Some(s)
  {
    var before;
    states, actions, before := AloneAsleep();
    s := AfterPromotion(before, 7, true);
    assert s.mx.q[0] == Elem(1, None, false, false) && Eligible(s.mx.q[0], true);
  }
}
