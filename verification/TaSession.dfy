/**
 The lifetime of TA sessions: tee_ta_get_session, tee_ta_put_session and
 tee_ta_unlink_session of core/kernel/tee_ta_manager.c. A step is what a thread does under
 tee_ta_mutex up to the next condvar_wait or to the end of the call.
 */
module TaSession {
  import opened Options

  type Tid = nat
  type Addr = nat

  /**
   struct tee_ta_session; listed: it is in the list of open sessions. holders records which
   threads have a reference: from opening, from a get, or while waiting in one.
   */
  datatype Session = Session(id: nat, refCount: int, lock: Option<Tid>, unlink: bool, listed: bool,
    holders: multiset<Tid>)

  /**
   GetWait and UnlinkWait: asleep on lock_cv and refc_cv, woken once signalled. Removed: back
   from tee_ta_unlink_session, about to free the session.
   */
  datatype Pc = Idle | GetWait(a: Addr, woken: bool) | UnlinkWait(a: Addr, woken: bool) | Removed(a: Addr)

  /** The allocated sessions by address, and the threads. */
  datatype State = State(sessions: map<Addr, Session>, pc: map<Tid, Pc>)

  /** wake is the waiter that condvar_signal picks; found the session that the look-up gives. */
  datatype Action =
    | Open(t: Tid, a: Addr, id: nat)
    | GetNone(t: Tid, id: nat)
    | Get(t: Tid, a: Addr, exclusive: bool)
    | GetResume(t: Tid, a: Addr)
    | Put(t: Tid, a: Addr, wake: Option<Tid>)
    | Unlink(t: Tid, a: Addr)
    | UnlinkResume(t: Tid, a: Addr)
    | Free(t: Tid, a: Addr)

  // ---------- steps ----------

  predicate At(pc: map<Tid, Pc>, t: Tid, p: Pc) {
    t in pc && pc[t] == p
  }

  /** condvar_signal on refc_cv: at most one thread waits there. */
  function WakeUnlinker(pc: map<Tid, Pc>, a: Addr): map<Tid, Pc> {
    map t | t in pc :: if pc[t] == UnlinkWait(a, false) then UnlinkWait(a, true) else pc[t]
  }

  /** condvar_broadcast on lock_cv. */
  function WakeGetters(pc: map<Tid, Pc>, a: Addr): map<Tid, Pc> {
    map t | t in pc :: if pc[t] == GetWait(a, false) then GetWait(a, true) else pc[t]
  }

  /** condvar_signal on lock_cv, which wakes some sleeping waiter if there is one. */
  predicate WokeOne(pc: map<Tid, Pc>, pc': map<Tid, Pc>, a: Addr, wake: Option<Tid>) {
    if wake.Some? then At(pc, wake.value, GetWait(a, false)) && pc' == pc[wake.value := GetWait(a, true)]
    else pc' == pc && forall t :: t in pc ==> pc[t] != GetWait(a, false)
  }

  function Ref(ses: Session, t: Tid): Session {
    ses.(refCount := ses.refCount + 1, holders := ses.holders + multiset{t})
  }

  /** dec_session_ref_count for a reference of thread t, and the signal that it sends. */
  function Unref(ses: Session, t: Tid): Session {
    ses.(refCount := ses.refCount - 1, holders := ses.holders - multiset{t})
  }

  function AfterUnref(pc: map<Tid, Pc>, a: Addr, ses: Session): map<Tid, Pc> {
    if ses.refCount == 1 then WakeUnlinker(pc, a) else pc
  }

  /** tee_ta_find_session_nolock. */
  predicate Found(s: State, a: Addr, id: nat) {
    a in s.sessions && s.sessions[a].listed && s.sessions[a].id == id
  }

  /** Session a of state s becomes ses and the threads move to pc. */
  predicate Becomes(s: State, s': State, a: Addr, ses: Session, pc: map<Tid, Pc>) {
    s' == State(s.sessions[a := ses], pc)
  }

  ghost predicate Step(s: State, act: Action, s': State) {
    act.t in s.pc &&
    match act
    case Open(t, a, id) =>
      && s.pc[t] == Idle && a !in s.sessions && id != 0 && (forall b :: !Found(s, b, id))
      && Becomes(s, s', a, Session(id, 1, None, false, true, multiset{t}), s.pc)
    case GetNone(t, id) =>
      s.pc[t] == Idle && (forall b :: !Found(s, b, id)) && s' == s
    case Get(t, a, exclusive) =>
      && s.pc[t] == Idle && a in s.sessions && s.sessions[a].listed
      && GetStep(s, t, a, exclusive, s')
    case GetResume(t, a) =>
      && s.pc[t] == GetWait(a, true) && a in s.sessions
      && ResumeStep(s, t, a, s')
    case Put(t, a, wake) =>
      && s.pc[t] == Idle && a in s.sessions && t in s.sessions[a].holders
      && PutStep(s, t, a, wake, s')
    case Unlink(t, a) =>
      && s.pc[t] == Idle && a in s.sessions && s.sessions[a].listed && t in s.sessions[a].holders
      && s.sessions[a].refCount >= 1 && s.sessions[a].lock == Some(t) && !s.sessions[a].unlink
      && UnlinkLoop(s, t, a, s.sessions[a].(unlink := true), WakeGetters(s.pc, a), s')
    case UnlinkResume(t, a) =>
      && s.pc[t] == UnlinkWait(a, true) && a in s.sessions
      && UnlinkLoop(s, t, a, s.sessions[a], s.pc, s')
    case Free(t, a) =>
      s.pc[t] == Removed(a) && s' == State(s.sessions - {a}, s.pc[t := Idle])
  }

  /** tee_ta_get_session up to its first wait, once the session is found. */
  predicate GetStep(s: State, t: Tid, a: Addr, exclusive: bool, s': State)
    requires a in s.sessions
  {
    var ses := s.sessions[a];
    if ses.unlink then s' == s
    else if !exclusive then Becomes(s, s', a, Ref(ses, t), s.pc)
    else if ses.lock.None? then Becomes(s, s', a, Ref(ses, t).(lock := Some(t)), s.pc)
    else ses.lock != Some(t) && Becomes(s, s', a, Ref(ses, t), s.pc[t := GetWait(a, false)])
  }

  /** Back from the wait on lock_cv. */
  predicate ResumeStep(s: State, t: Tid, a: Addr, s': State)
    requires a in s.sessions
  {
    var ses := s.sessions[a];
    if ses.unlink then Becomes(s, s', a, Unref(ses, t), AfterUnref(s.pc[t := Idle], a, Unref(ses, t)))
    else if ses.lock.Some? then Becomes(s, s', a, ses, s.pc[t := GetWait(a, false)])
    else Becomes(s, s', a, ses.(lock := Some(t)), s.pc[t := Idle])
  }

  predicate PutStep(s: State, t: Tid, a: Addr, wake: Option<Tid>, s': State)
    requires a in s.sessions
  {
    var ses := s.sessions[a];
    if ses.lock == Some(t) then
      var pc := if wake.Some? then s.pc[wake.value := GetWait(a, true)] else s.pc;
      WokeOne(s.pc, pc, a, wake) && Becomes(s, s', a, Unref(ses, t).(lock := None), AfterUnref(pc, a, Unref(ses, t)))
    else Becomes(s, s', a, Unref(ses, t), AfterUnref(s.pc, a, Unref(ses, t)))
  }

  /** The loop at the end of tee_ta_unlink_session: the session leaves the list or the thread waits. */
  predicate UnlinkLoop(s: State, t: Tid, a: Addr, ses: Session, pc: map<Tid, Pc>, s': State) {
    if ses.refCount == 1 then Becomes(s, s', a, ses.(listed := false), pc[t := Removed(a)])
    else Becomes(s, s', a, ses, pc[t := UnlinkWait(a, false)])
  }

  /** The sessions in memory, with the sections under tee_ta_mutex as they change them. */
  class Manager {
    var s: State

    function Load(a: Addr): Session
      requires a in s.sessions
      reads this
    {
      s.sessions[a]
    }

    /** Writing back a session. */
    method Store(a: Addr, ses: Session)
      modifies this
      ensures s == State(old(s).sessions[a := ses], old(s).pc)
    {
      s := s.(sessions := s.sessions[a := ses]);
    }

    method Move(t: Tid, p: Pc)
      modifies this
      ensures s == State(old(s).sessions, old(s).pc[t := p])
    {
      s := s.(pc := s.pc[t := p]);
    }

    /** dec_session_ref_count, for a reference of thread t. */
    method DecRefCount(t: Tid, a: Addr)
      requires a in s.sessions
      modifies this
      ensures var ses := Unref(old(s.sessions[a]), t);
        s == State(old(s).sessions[a := ses], AfterUnref(old(s).pc, a, ses))
    {
      var ses := Load(a);
      ses := ses.(refCount := ses.refCount - 1, holders := ses.holders - multiset{t});
      Store(a, ses);
      if ses.refCount == 1 {
        s := s.(pc := WakeUnlinker(s.pc, a));
      }
    }

    /** tee_ta_get_session up to its first wait, for a session that is found. */
    method GetSection(t: Tid, a: Addr, exclusive: bool) returns (got: bool)
      requires a in s.sessions && (exclusive && !s.sessions[a].unlink ==> s.sessions[a].lock != Some(t))
      modifies this
      ensures GetStep(old(s), t, a, exclusive, s)
      ensures got <==> !old(s).sessions[a].unlink && (!exclusive || old(s).sessions[a].lock.None?)
    {
      if Load(a).unlink {
        return false;
      }
      var ses := Load(a);
      ses := ses.(refCount := ses.refCount + 1, holders := ses.holders + multiset{t});
      if !exclusive {
        Store(a, ses);
        return true;
      }
      if ses.lock.Some? {
        Store(a, ses);
        Move(t, GetWait(a, false));
        return false;
      }
      Store(a, ses.(lock := Some(t)));
      got := true;
    }

    /** The rest of the call after a wake-up: unless the session is unlinked or locked again, the thread has it. */
    method GetResumeSection(t: Tid, a: Addr) returns (got: bool)
      requires a in s.sessions && t in s.pc
      modifies this
      ensures ResumeStep(old(s), t, a, s)
      ensures got <==> !old(s).sessions[a].unlink && old(s).sessions[a].lock.None?
    {
      if Load(a).lock.Some? && !Load(a).unlink {
        assert s.sessions == s.sessions[a := Load(a)];
        Move(t, GetWait(a, false));
        return false;
      }
      Move(t, Idle);
      if Load(a).unlink {
        DecRefCount(t, a);
        return false;
      }
      Store(a, Load(a).(lock := Some(t)));
      got := true;
    }

    /** tee_ta_put_session; wake is the waiter that the signal on lock_cv picks. */
    method PutSection(t: Tid, a: Addr, wake: Option<Tid>)
      requires a in s.sessions
      requires s.sessions[a].lock == Some(t) ==>
        if wake.Some? then wake.value in s.pc && s.pc[wake.value] == GetWait(a, false)
        else forall u :: u in s.pc ==> s.pc[u] != GetWait(a, false)
      modifies this
      ensures PutStep(old(s), t, a, wake, s)
    {
      if Load(a).lock == Some(t) {
        Store(a, Load(a).(lock := None));
        if wake.Some? {
          Move(wake.value, GetWait(a, true));
        }
      }
      DecRefCount(t, a);
    }

    /** tee_ta_unlink_session up to its wait or to the end. */
    method UnlinkSection(t: Tid, a: Addr)
      requires a in s.sessions
      modifies this
      ensures UnlinkLoop(old(s), t, a, old(s).sessions[a].(unlink := true), WakeGetters(old(s).pc, a), s)
    {
      Store(a, Load(a).(unlink := true));
      s := s.(pc := WakeGetters(s.pc, a));
      UnlinkResumeSection(t, a);
    }

    /** The loop at the end of tee_ta_unlink_session. */
    method UnlinkResumeSection(t: Tid, a: Addr)
      requires a in s.sessions
      modifies this
      ensures UnlinkLoop(old(s), t, a, old(s).sessions[a], old(s).pc, s)
    {
      if Load(a).refCount != 1 {
        assert s.sessions == s.sessions[a := Load(a)];
        Move(t, UnlinkWait(a, false));
      } else {
        Store(a, Load(a).(listed := false));
        Move(t, Removed(a));
      }
    }
  }

  predicate Init(s: State) {
    s.sessions == map[] && forall t :: t in s.pc ==> s.pc[t] == Idle
  }

  ghost predicate Run(states: seq<State>, actions: seq<Action>) {
    && |states| == |actions| + 1 && Init(states[0])
    && forall i {:trigger actions[i]} :: 0 <= i < |actions| ==> Step(states[i], actions[i], states[i + 1])
  }

  // ---------- what every step keeps ----------

  /** A session against its reference holders and the thread that closes it. */
  predicate SessionOk(a: Addr, ses: Session, pc: map<Tid, Pc>) {
    && ses.refCount == |ses.holders|
    && (ses.lock.Some? ==> ses.lock.value in ses.holders && ses.lock.value in pc)
    && (ses.unlink && ses.listed ==> ses.lock.Some? && pc[ses.lock.value].UnlinkWait? && pc[ses.lock.value].a == a)
    && (!ses.listed ==> ses.unlink && ses.lock.Some? && pc[ses.lock.value] == Removed(a) && ses.refCount == 1)
  }

  /** A thread inside a call against the session that it works on. */
  predicate ThreadOk(t: Tid, pc: Pc, ses: Session) {
    match pc
    case Idle => true
    case GetWait(_, woken) => ses.listed && t in ses.holders && ses.lock != Some(t) && (ses.unlink ==> woken)
    case UnlinkWait(_, woken) => ses.listed && ses.unlink && ses.lock == Some(t) && (!woken ==> ses.refCount != 1)
    case Removed(_) => !ses.listed && ses.lock == Some(t)
  }

  /** Whoever works on session a agrees with it. */
  predicate ThreadsOk(a: Addr, ses: Session, pc: map<Tid, Pc>) {
    forall t :: t in pc && !pc[t].Idle? && pc[t].a == a ==> ThreadOk(t, pc[t], ses)
  }

  /** If nobody has the lock but a waiter sleeps, then another waiter has been woken. */
  ghost predicate NotForgotten(a: Addr, ses: Session, pc: map<Tid, Pc>) {
    ses.lock.None? && (exists t :: At(pc, t, GetWait(a, false))) ==> exists t :: At(pc, t, GetWait(a, true))
  }

  ghost predicate CellOk(a: Addr, ses: Session, pc: map<Tid, Pc>) {
    SessionOk(a, ses, pc) && ThreadsOk(a, ses, pc) && NotForgotten(a, ses, pc)
  }

  predicate Ids(sessions: map<Addr, Session>) {
    && (forall a :: a in sessions ==> sessions[a].id != 0)
    && (forall a, b :: a in sessions && b in sessions && sessions[a].listed && sessions[b].listed && a != b ==>
          sessions[a].id != sessions[b].id)
  }

  ghost predicate Inv(s: State) {
    && Ids(s.sessions)
    && (forall a :: a in s.sessions ==> CellOk(a, s.sessions[a], s.pc))
    && (forall t :: t in s.pc && !s.pc[t].Idle? ==> s.pc[t].a in s.sessions)
  }

  /** Nothing about sessions other than a changes for the threads. */
  predicate Confined(pc: map<Tid, Pc>, pc': map<Tid, Pc>, a: Addr) {
    pc'.Keys == pc.Keys && forall u :: u in pc ==>
      pc'[u] == pc[u] || ((pc[u].Idle? || pc[u].a == a) && (pc'[u].Idle? || pc'[u].a == a))
  }

  lemma OtherCell(b: Addr, ses: Session, pc: map<Tid, Pc>, pc': map<Tid, Pc>, a: Addr)
    requires CellOk(b, ses, pc) && Confined(pc, pc', a) && a != b
    ensures CellOk(b, ses, pc')
  {
    forall u, w
      ensures At(pc', u, GetWait(b, w)) <==> At(pc, u, GetWait(b, w))
    {
    }
  }

  lemma Assemble(s: State, s': State, a: Addr, ses: Session, pc: map<Tid, Pc>)
    requires Inv(s) && Becomes(s, s', a, ses, pc) && Confined(s.pc, pc, a) && CellOk(a, ses, pc)
    requires ses.id != 0 && (ses.listed ==> forall b :: b != a ==> !Found(s, b, ses.id))
    ensures Inv(s')
  {
    forall b | b in s'.sessions && b != a
      ensures CellOk(b, s'.sessions[b], pc)
    {
      OtherCell(b, s.sessions[b], s.pc, pc, a);
    }
    forall b, c | b in s'.sessions && c in s'.sessions && s'.sessions[b].listed && s'.sessions[c].listed &&
      s'.sessions[b].id == s'.sessions[c].id
      ensures b == c
    {
      assert b != a ==> Found(s, b, s'.sessions[b].id);
      assert c != a ==> Found(s, c, s'.sessions[c].id);
    }
  }

  lemma SameId(s: State, a: Addr)
    requires Inv(s) && a in s.sessions
    ensures s.sessions[a].listed ==> forall b :: b != a ==> !Found(s, b, s.sessions[a].id)
  {
  }

  lemma OpenKeeps(s: State, t: Tid, a: Addr, id: nat, s': State)
    requires Inv(s) && Step(s, Open(t, a, id), s')
    ensures Inv(s')
  {
    Assemble(s, s', a, Session(id, 1, None, false, true, multiset{t}), s.pc);
  }

  lemma GetKeeps(s: State, t: Tid, a: Addr, exclusive: bool, s': State)
    requires Inv(s) && Step(s, Get(t, a, exclusive), s') && s' != s
    ensures Inv(s')
  {
    var ses, ses' := s.sessions[a], s'.sessions[a];
    SameId(s, a);
    assert CellOk(a, ses, s.pc);
    assert CellOk(a, ses', s'.pc) by {
      assert SessionOk(a, ses', s'.pc);
      assert ThreadsOk(a, ses', s'.pc);
      assert NotForgotten(a, ses', s'.pc);
    }
    Assemble(s, s', a, ses', s'.pc);
  }

  /** A thread that only loses its reference, with the signal on refc_cv. */
  lemma UnrefCell(a: Addr, ses: Session, pc: map<Tid, Pc>, t: Tid)
    requires SessionOk(a, ses, pc) && t in ses.holders && t in pc && pc[t].Idle? && ses.lock != Some(t)
    requires NotForgotten(a, ses, pc)
    requires forall u :: u in pc && u != t && !pc[u].Idle? && pc[u].a == a ==> ThreadOk(u, pc[u], ses)
    ensures CellOk(a, Unref(ses, t), AfterUnref(pc, a, Unref(ses, t)))
  {
    var ses', pc' := Unref(ses, t), AfterUnref(pc, a, Unref(ses, t));
    forall u, w
      ensures At(pc', u, GetWait(a, w)) <==> At(pc, u, GetWait(a, w))
    {
    }
    if !ses.listed {
      OnlyHolder(ses.holders, ses.lock.value);
    }
    assert ThreadsOk(a, ses', pc');
  }

  /** The lock is still taken: the woken waiter sleeps again. */
  lemma SleepAgainCell(a: Addr, ses: Session, pc: map<Tid, Pc>, t: Tid)
    requires CellOk(a, ses, pc) && At(pc, t, GetWait(a, true)) && !ses.unlink && ses.lock.Some?
    ensures CellOk(a, ses, pc[t := GetWait(a, false)])
  {
    assert ThreadOk(t, pc[t], ses);
  }

  /** The woken waiter gets the lock. */
  lemma LockCell(a: Addr, ses: Session, pc: map<Tid, Pc>, t: Tid)
    requires CellOk(a, ses, pc) && At(pc, t, GetWait(a, true)) && !ses.unlink && ses.lock.None?
    ensures CellOk(a, ses.(lock := Some(t)), pc[t := Idle])
  {
    assert ThreadOk(t, pc[t], ses);
  }

  lemma ResumeKeeps(s: State, t: Tid, a: Addr, s': State)
    requires Inv(s) && Step(s, GetResume(t, a), s')
    ensures Inv(s')
  {
    var ses := s.sessions[a];
    SameId(s, a);
    assert CellOk(a, ses, s.pc);
    if ses.unlink {
      assert ThreadOk(t, s.pc[t], ses);
      UnrefCell(a, ses, s.pc[t := Idle], t);
    } else if ses.lock.Some? {
      SleepAgainCell(a, ses, s.pc, t);
    } else {
      LockCell(a, ses, s.pc, t);
    }
    Assemble(s, s', a, s'.sessions[a], s'.pc);
  }

  /** Giving back the lock wakes a waiter, if there is one. */
  lemma UnlockCell(a: Addr, ses: Session, pc: map<Tid, Pc>, pc': map<Tid, Pc>, t: Tid, wake: Option<Tid>)
    requires CellOk(a, ses, pc) && ses.lock == Some(t) && t in pc && pc[t].Idle? && WokeOne(pc, pc', a, wake)
    ensures CellOk(a, ses.(lock := None), pc')
  {
    assert wake.Some? ==> At(pc', wake.value, GetWait(a, true));
    assert ThreadsOk(a, ses.(lock := None), pc');
  }

  lemma PutCell(a: Addr, ses: Session, pc: map<Tid, Pc>, pc': map<Tid, Pc>, t: Tid, wake: Option<Tid>)
    requires CellOk(a, ses, pc) && t in ses.holders && t in pc && pc[t].Idle?
    requires if ses.lock == Some(t) then WokeOne(pc, pc', a, wake) else pc' == pc
    ensures CellOk(a, Unref(ses.(lock := if ses.lock == Some(t) then None else ses.lock), t),
      AfterUnref(pc', a, Unref(ses, t)))
    ensures Confined(pc, AfterUnref(pc', a, Unref(ses, t)), a)
  {
    if ses.lock == Some(t) {
      UnlockCell(a, ses, pc, pc', t, wake);
    }
    UnrefCell(a, ses.(lock := if ses.lock == Some(t) then None else ses.lock), pc', t);
  }

  lemma PutKeeps(s: State, t: Tid, a: Addr, wake: Option<Tid>, s': State)
    requires Inv(s) && Step(s, Put(t, a, wake), s')
    ensures Inv(s')
  {
    var ses := s.sessions[a];
    SameId(s, a);
    var pc := if ses.lock == Some(t) && wake.Some? then s.pc[wake.value := GetWait(a, true)] else s.pc;
    PutCell(a, ses, s.pc, pc, t, wake);
    Assemble(s, s', a, s'.sessions[a], s'.pc);
  }

  /** The end of the list membership, or the wait for the other references. */
  lemma UnlinkCell(a: Addr, ses: Session, pc: map<Tid, Pc>, t: Tid)
    requires t in pc && ses.lock == Some(t) && t in ses.holders && ses.unlink && ses.listed &&
      ses.refCount == |ses.holders|
    requires forall u :: u in pc && u != t && !pc[u].Idle? && pc[u].a == a ==>
      pc[u] == GetWait(a, true) && u in ses.holders
    ensures ses.refCount == 1 ==> CellOk(a, ses.(listed := false), pc[t := Removed(a)])
    ensures ses.refCount != 1 ==> CellOk(a, ses, pc[t := UnlinkWait(a, false)])
  {
    if ses.refCount == 1 {
      OnlyHolder(ses.holders, t);
    }
  }

  lemma UnlinkKeeps(s: State, act: Action, s': State)
    requires (act.Unlink? || act.UnlinkResume?) && Inv(s) && Step(s, act, s')
    ensures Inv(s')
  {
    var a, t := act.a, act.t;
    var ses := s.sessions[a];
    SameId(s, a);
    assert CellOk(a, ses, s.pc);
    var pc := if act.Unlink? then WakeGetters(s.pc, a) else s.pc;
    forall u | u in pc && u != t && !pc[u].Idle? && pc[u].a == a
      ensures pc[u] == GetWait(a, true) && u in ses.holders
    {
      assert ThreadOk(u, s.pc[u], ses);
    }
    assert act.UnlinkResume? ==> ThreadOk(t, s.pc[t], ses);
    UnlinkCell(a, ses.(unlink := true), pc, t);
    Assemble(s, s', a, s'.sessions[a], s'.pc);
  }

  lemma FreeKeeps(s: State, t: Tid, a: Addr, s': State)
    requires Inv(s) && Step(s, Free(t, a), s')
    ensures Inv(s')
  {
    assert CellOk(a, s.sessions[a], s.pc);
    assert ThreadOk(t, s.pc[t], s.sessions[a]);
    OnlyHolder(s.sessions[a].holders, t);
    forall b | b in s'.sessions
      ensures CellOk(b, s'.sessions[b], s'.pc)
    {
      OtherCell(b, s.sessions[b], s.pc, s'.pc, a);
    }
    forall u | u in s'.pc && !s'.pc[u].Idle?
      ensures s'.pc[u].a in s'.sessions
    {
      assert s.pc[u].a == a ==> ThreadOk(u, s.pc[u], s.sessions[a]);
    }
  }

  lemma OnlyHolder(h: multiset<Tid>, t: Tid)
    requires |h| == 1 && t in h
    ensures h == multiset{t}
  {
    assert |h - multiset{t}| == 0;
    assert h == h - multiset{t} + multiset{t};
  }

  lemma StepKeepsInv(s: State, act: Action, s': State)
    requires Inv(s) && Step(s, act, s')
    ensures Inv(s')
  {
    match act
    case Open(t, a, id) => OpenKeeps(s, t, a, id, s');
    case GetNone(_, _) =>
    case Get(t, a, exclusive) => if s' != s { GetKeeps(s, t, a, exclusive, s'); }
    case GetResume(t, a) => ResumeKeeps(s, t, a, s');
    case Put(t, a, wake) => PutKeeps(s, t, a, wake, s');
    case Unlink(_, _) => UnlinkKeeps(s, act, s');
    case UnlinkResume(_, _) => UnlinkKeeps(s, act, s');
    case Free(t, a) => FreeKeeps(s, t, a, s');
  }

  lemma {:induction false} RunKeepsInv(states: seq<State>, actions: seq<Action>, i: nat)
    requires Run(states, actions) && i < |states|
    ensures Inv(states[i])
  {
    if i > 0 {
      RunKeepsInv(states, actions, i - 1);
      StepKeepsInv(states[i - 1], actions[i - 1], states[i]);
    }
  }

  // ---------- what holds over whole runs ----------

  /** No thread but t has a reference to session a or is inside a call on it. */
  predicate OnlyUser(s: State, t: Tid, a: Addr) {
    && a in s.sessions && s.sessions[a].holders == multiset{t}
    && forall u :: u in s.pc && u != t ==> s.pc[u].Idle? || s.pc[u].a != a
  }

  lemma RemovedAlone(s: State, t: Tid, a: Addr)
    requires Inv(s) && At(s.pc, t, Removed(a))
    ensures OnlyUser(s, t, a)
  {
    var ses := s.sessions[a];
    assert CellOk(a, ses, s.pc);
    assert ThreadOk(t, s.pc[t], ses);
    OnlyHolder(ses.holders, t);
    forall u | u in s.pc && u != t && !s.pc[u].Idle?
      ensures s.pc[u].a != a
    {
      assert s.pc[u].a == a ==> ThreadOk(u, s.pc[u], ses);
    }
  }

  /**
   The step that takes a session off the list: its thread has the lock and the only reference,
   and still has them when it frees it.
  */
  lemma RemovalSafe(states: seq<State>, actions: seq<Action>, i: nat, t: Tid, a: Addr)
    requires Run(states, actions) && i < |actions| && actions[i].t == t
    requires a in states[i].sessions && states[i].sessions[a].listed && a in states[i + 1].sessions &&
      !states[i + 1].sessions[a].listed
    ensures OnlyUser(states[i + 1], t, a) && states[i].sessions[a].lock == Some(t) &&
      states[i].sessions[a].refCount == 1
  {
    RunKeepsInv(states, actions, i);
    RunKeepsInv(states, actions, i + 1);
    assert Step(states[i], actions[i], states[i + 1]);
    assert CellOk(a, states[i].sessions[a], states[i].pc);
    assert actions[i].UnlinkResume? ==> ThreadOk(t, states[i].pc[t], states[i].sessions[a]);
    RemovedAlone(states[i + 1], t, a);
  }

  lemma FreeSafe(states: seq<State>, actions: seq<Action>, i: nat, t: Tid, a: Addr)
    requires Run(states, actions) && i < |actions| && actions[i] == Free(t, a)
    ensures OnlyUser(states[i], t, a)
  {
    RunKeepsInv(states, actions, i);
    assert Step(states[i], actions[i], states[i + 1]);
    RemovedAlone(states[i], t, a);
  }

  predicate Unlinked(s: State, a: Addr) {
    a in s.sessions && s.sessions[a].unlink
  }

  lemma Elsewhere(s: State, act: Action, s': State, a: Addr)
    requires Step(s, act, s') && (act.GetNone? || act.a != a) && a in s.sessions
    ensures a in s'.sessions && s'.sessions[a] == s.sessions[a]
  {
  }

  lemma PcElsewhere(s: State, act: Action, s': State, t: Tid, a: Addr)
    requires Step(s, act, s') && (act.GetNone? || act.a != a) && t in s.pc && !s.pc[t].Idle? && s.pc[t].a == a &&
      t != act.t
    ensures t in s'.pc && s'.pc[t] == s.pc[t]
  {
  }

  /** With unlink set, a step frees the session or leaves it so and gives nobody a reference; a get ends without one. */
  lemma NoGain(s: State, act: Action, s': State, a: Addr)
    requires Inv(s) && Step(s, act, s') && Unlinked(s, a)
    ensures a in s'.sessions ==>
      Unlinked(s', a) && s'.sessions[a].holders <= s.sessions[a].holders && s'.sessions[a].lock == s.sessions[a].lock
    ensures a !in s'.sessions ==> act == Free(act.t, a)
    ensures act == GetResume(act.t, a) ==> s'.sessions[a].holders == s.sessions[a].holders - multiset{act.t}
  {
    assert CellOk(a, s.sessions[a], s.pc);
    if act.GetNone? || act.a != a {
      Elsewhere(s, act, s', a);
    }
  }

  /** From the moment unlink is set until the session is freed, references only go away. */
  lemma {:induction false} UnlinkIsFinal(states: seq<State>, actions: seq<Action>, i: nat, j: nat, a: Addr)
    requires Run(states, actions) && i <= j < |states| && Unlinked(states[i], a)
    requires forall k :: i <= k <= j ==> a in states[k].sessions
    ensures Unlinked(states[j], a) && states[j].sessions[a].holders <= states[i].sessions[a].holders
    ensures states[j].sessions[a].lock == states[i].sessions[a].lock
    decreases j - i
  {
    if i < j {
      UnlinkIsFinal(states, actions, i, j - 1, a);
      RunKeepsInv(states, actions, j - 1);
      NoGain(states[j - 1], actions[j - 1], states[j], a);
    }
  }

  /**
   No sleeper is forgotten: while one sleeps in get, somebody else has the lock or a waiter has been
   woken; while the closer sleeps, there are other references.
   */
  lemma SleepersNeeded(states: seq<State>, actions: seq<Action>, i: nat, t: Tid, a: Addr)
    requires Run(states, actions) && i < |states|
    ensures At(states[i].pc, t, GetWait(a, false)) ==>
      a in states[i].sessions && !states[i].sessions[a].unlink && states[i].sessions[a].lock != Some(t)
      && (states[i].sessions[a].lock.Some? || exists u :: At(states[i].pc, u, GetWait(a, true)))
    ensures At(states[i].pc, t, UnlinkWait(a, false)) ==>
      a in states[i].sessions && states[i].sessions[a].unlink && |states[i].sessions[a].holders| > 1
  {
    RunKeepsInv(states, actions, i);
    var s := states[i];
    if At(s.pc, t, GetWait(a, false)) || At(s.pc, t, UnlinkWait(a, false)) {
      assert CellOk(a, s.sessions[a], s.pc);
      assert ThreadOk(t, s.pc[t], s.sessions[a]);
    }
  }

  // ---------- the session lock ----------

  /** Whoever has the lock of a session keeps it until it puts the session back or frees it itself. */
  lemma LockKept(states: seq<State>, actions: seq<Action>, i: nat, t: Tid, a: Addr)
    requires Run(states, actions) && i < |actions| && a in states[i].sessions && states[i].sessions[a].lock == Some(t)
    ensures (a in states[i + 1].sessions && states[i + 1].sessions[a].lock == Some(t))
      || (actions[i].Put? && actions[i].t == t && actions[i].a == a) || actions[i] == Free(t, a)
  {
    var s, act, s' := states[i], actions[i], states[i + 1];
    assert Step(s, act, s');
    RunKeepsInv(states, actions, i);
    assert CellOk(a, s.sessions[a], s.pc);
    if act.GetNone? || act.a != a {
      Elsewhere(s, act, s', a);
    } else if act.Free? {
      assert ThreadOk(act.t, s.pc[act.t], s.sessions[a]);
    }
  }

  /**
   An exclusive get that comes back from a session that is not being unlinked, at once or after
   waiting, has found the lock free and has taken it, with a reference.
  */
  lemma ExclusiveLocks(states: seq<State>, actions: seq<Action>, i: nat, t: Tid, a: Addr)
    requires Run(states, actions) && i < |actions| && (actions[i] == Get(t, a, true) || actions[i] == GetResume(t, a))
    requires At(states[i + 1].pc, t, Idle) && a in states[i].sessions && !states[i].sessions[a].unlink
    ensures states[i].sessions[a].lock == None && a in states[i + 1].sessions
    ensures states[i + 1].sessions[a].lock == Some(t) && t in states[i + 1].sessions[a].holders
  {
    assert Step(states[i], actions[i], states[i + 1]);
    RunKeepsInv(states, actions, i);
    assert CellOk(a, states[i].sessions[a], states[i].pc);
    assert actions[i].GetResume? ==> ThreadOk(t, states[i].pc[t], states[i].sessions[a]);
  }

  /** A put takes one reference of its thread, and leaves it without the lock; nobody else loses either. */
  lemma PutLeaves(states: seq<State>, actions: seq<Action>, i: nat, t: Tid, a: Addr, wake: Option<Tid>)
    requires Run(states, actions) && i < |actions| && actions[i] == Put(t, a, wake)
    ensures a in states[i].sessions && a in states[i + 1].sessions
    ensures var h, h' := states[i].sessions[a].holders, states[i + 1].sessions[a].holders;
      h'[t] == h[t] - 1 && forall u :: u != t ==> h'[u] == h[u]
    ensures var l := states[i].sessions[a].lock;
      states[i + 1].sessions[a].lock == if l == Some(t) then None else l
  {
    assert Step(states[i], actions[i], states[i + 1]);
  }

  // ---------- session ids ----------

  /** The id after id, in 32 bits and without 0. */
  function NextId(id: nat): nat {
    if (id + 1) % 0x1_0000_0000 == 0 then 1 else (id + 1) % 0x1_0000_0000
  }

  predicate ValidId(id: nat) {
    0 < id < 0x1_0000_0000
  }

  /** The id k steps after id. */
  function IdAfter(id: nat, k: nat): nat
    requires ValidId(id) && k <= 0xffff_ffff
  {
    if id + k < 0x1_0000_0000 then id + k else id + k - 0xffff_ffff
  }

  lemma NextIdAfter(id: nat, k: nat)
    requires ValidId(id) && k < 0xffff_ffff
    ensures NextId(IdAfter(id, k)) == IdAfter(id, k + 1) && ValidId(IdAfter(id, k))
    ensures IdAfter(id, k + 1) == id <==> k + 1 == 0xffff_ffff
  {
  }

  lemma EveryId(id: nat, other: nat)
    requires ValidId(id) && ValidId(other)
    ensures exists k: nat :: k < 0xffff_ffff && IdAfter(id, k) == other
  {
    var k: nat := if other >= id then other - id else other + 0xffff_ffff - id;
    assert IdAfter(id, k) == other;
  }

  /** new_session_id, for the ids of the open sessions in list order: an unused id, or 0 exactly if all are in use. */
  method NewSessionId(ids: seq<nat>) returns (r: nat)
    requires forall i :: 0 <= i < |ids| ==> ValidId(ids[i])
    ensures r != 0 ==> ValidId(r) && r !in ids
    ensures r == 0 <==> forall id :: ValidId(id) ==> id in ids
  {
    var id := 1;
    if ids != [] {
      id := NextId(ids[|ids| - 1]);
    }
    var saved := id;
    ghost var k: nat := 0;
    var first := true;
    while first || id != saved
      invariant ValidId(saved) && k <= 0xffff_ffff && id == IdAfter(saved, k)
      invariant first <==> k == 0
      invariant forall j: nat :: j < k ==> IdAfter(saved, j) in ids
      decreases 0x1_0000_0000 - k
    {
      NextIdAfter(saved, k);
      if id !in ids {
        return id;
      }
      id := NextId(id);
      first := false;
      k := k + 1;
    }
    forall other | ValidId(other)
      ensures other in ids
    {
      EveryId(saved, other);
    }
    r := 0;
  }
}
