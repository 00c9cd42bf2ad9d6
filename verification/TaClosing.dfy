/**
 When a thread gets past tee_ta_unlink_session: exactly if it is not part of a set of threads
 that all wait for each other.
 */
module TaClosing {
  import opened Options
  import opened TaSession
  import opened Totals

  /**
   Thread x sleeps until y gives something up: in tee_ta_unlink_session every other reference,
   also one of its own; in tee_ta_get_session the lock, as long as unlink is not set.
   */
  predicate Needs(s: State, x: Tid, y: Tid) {
    x in s.pc && match s.pc[x]
    case UnlinkWait(c, _) => c in s.sessions && y in s.sessions[c].holders - multiset{x}
    case GetWait(c, _) => c in s.sessions && !s.sessions[c].unlink && s.sessions[c].lock == Some(y)
    case _ => false
  }

  ghost predicate Blocked(s: State, x: Tid) {
    exists y :: Needs(s, x, y)
  }

  predicate NeedsAmong(s: State, x: Tid, xs: set<Tid>) {
    exists y :: y in xs && Needs(s, x, y)
  }

  /** Each of these threads needs another one of them, or itself. */
  predicate Stuck(s: State, xs: set<Tid>) {
    forall x {:trigger NeedsAmong(s, x, xs)} :: x in xs ==> NeedsAmong(s, x, xs)
  }

  /** The same call on the same session, woken or not. */
  predicate SamePlace(p: Pc, p': Pc) {
    || (p.GetWait? && p'.GetWait? && p.a == p'.a)
    || (p.UnlinkWait? && p'.UnlinkWait? && p.a == p'.a)
  }

  predicate StillThere(s: State, s': State, x: Tid) {
    x in s.pc && x in s'.pc && SamePlace(s.pc[x], s'.pc[x])
  }

  lemma AtLeastTwo(h: multiset<Tid>, x: Tid, y: Tid)
    requires x in h && y in h - multiset{x}
    ensures |h| >= 2
  {
    assert h == h - multiset{x} - multiset{y} + multiset{x} + multiset{y};
  }

  lemma JustOne(h: multiset<Tid>, x: Tid)
    requires x in h && forall y :: y !in h - multiset{x}
    ensures |h| == 1
  {
    assert h - multiset{x} == multiset{};
    assert h == h - multiset{x} + multiset{x};
  }

  // ---------- stuck threads stay so ----------

  /** All that a blocked thread can do is to wait again. */
  lemma BlockedActs(s: State, act: Action, s': State)
    requires Inv(s) && Step(s, act, s') && Blocked(s, act.t)
    ensures s'.sessions == s.sessions && s'.pc == s.pc[act.t := s'.pc[act.t]]
    ensures SamePlace(s.pc[act.t], s'.pc[act.t])
  {
    var t := act.t;
    var y :| Needs(s, t, y);
    var c := s.pc[t].a;
    assert CellOk(c, s.sessions[c], s.pc);
    assert ThreadOk(t, s.pc[t], s.sessions[c]);
    if s.pc[t].UnlinkWait? {
      AtLeastTwo(s.sessions[c].holders, t, y);
    }
  }

  lemma NeedsSame(s: State, s': State, x: Tid, y: Tid)
    requires s'.sessions == s.sessions && x in s.pc && x in s'.pc &&
      (s'.pc[x] == s.pc[x] || SamePlace(s.pc[x], s'.pc[x]))
    ensures Needs(s', x, y) <==> Needs(s, x, y)
  {
  }

  /** Threads other than x and y cannot help x. */
  lemma OthersStep(s: State, act: Action, s': State, x: Tid, y: Tid)
    requires Inv(s) && Step(s, act, s') && Needs(s, x, y) && act.t != x && act.t != y
    ensures Needs(s', x, y) && SamePlace(s.pc[x], s'.pc[x])
  {
    var c := s.pc[x].a;
    if act.GetNone? || act.a != c {
      Elsewhere(s, act, s', c);
      PcElsewhere(s, act, s', x, c);
    } else {
      assert CellOk(c, s.sessions[c], s.pc);
      assert ThreadOk(x, s.pc[x], s.sessions[c]);
      assert s.pc[act.t].Idle? || ThreadOk(act.t, s.pc[act.t], s.sessions[c]);
    }
  }

  lemma AmongStep(s: State, act: Action, s': State, xs: set<Tid>, x: Tid)
    requires Inv(s) && Step(s, act, s') && (act.t in xs ==> Blocked(s, act.t)) && NeedsAmong(s, x, xs) && x in xs
    ensures NeedsAmong(s', x, xs) && StillThere(s, s', x)
  {
    var y :| y in xs && Needs(s, x, y);
    if act.t in xs {
      BlockedActs(s, act, s');
      NeedsSame(s, s', x, y);
    } else {
      OthersStep(s, act, s', x, y);
    }
  }

  lemma StuckStep(s: State, act: Action, s': State, xs: set<Tid>)
    requires Inv(s) && Step(s, act, s') && Stuck(s, xs)
    ensures Stuck(s', xs) && AllThere(s, s', xs)
  {
    assert act.t in xs ==> NeedsAmong(s, act.t, xs);
    forall x | x in xs
      ensures NeedsAmong(s', x, xs) && StillThere(s, s', x)
    {
      AmongStep(s, act, s', xs, x);
    }
  }

  lemma StuckNext(states: seq<State>, actions: seq<Action>, j: nat, xs: set<Tid>)
    requires Run(states, actions) && j < |actions| && Stuck(states[j], xs)
    ensures Stuck(states[j + 1], xs) && AllThere(states[j], states[j + 1], xs)
  {
    RunKeepsInv(states, actions, j);
    StuckStep(states[j], actions[j], states[j + 1], xs);
  }

  predicate AllThere(s: State, s': State, xs: set<Tid>) {
    forall x :: x in xs ==> StillThere(s, s', x)
  }

  lemma AllThereStill(s: State, s': State, s'': State, xs: set<Tid>)
    requires AllThere(s, s', xs) && AllThere(s', s'', xs)
    ensures AllThere(s, s'', xs)
  {
  }

  /** Of a set of threads that are stuck none ever gets out of its call. */
  lemma {:induction false} StuckForever(states: seq<State>, actions: seq<Action>, i: nat, j: nat, xs: set<Tid>)
    requires Run(states, actions) && i <= j < |states| && Stuck(states[i], xs)
    ensures Stuck(states[j], xs) && AllThere(states[i], states[j], xs)
    decreases j - i
  {
    if i == j {
      Asleep(states[i], xs);
    } else {
      StuckForever(states, actions, i, j - 1, xs);
      StuckNext(states, actions, j - 1, xs);
      AllThereStill(states[i], states[j - 1], states[j], xs);
    }
  }

  lemma Asleep(s: State, xs: set<Tid>)
    requires Stuck(s, xs)
    ensures AllThere(s, s, xs)
  {
    forall x | x in xs
      ensures StillThere(s, s, x)
    {
      assert NeedsAmong(s, x, xs);
    }
  }

  // ---------- steps that only give up or finish something ----------

  /** Puts, wake-ups and the ends of calls; no new call is begun. */
  predicate Settling(act: Action) {
    act.Put? || act.GetResume? || act.UnlinkResume? || act.Free?
  }

  /** Every thread that has a reference takes part. */
  ghost predicate Known(s: State) {
    forall a, u :: a in s.sessions && u in s.sessions[a].holders ==> u in s.pc
  }

  lemma KnownStep(s: State, act: Action, s': State)
    requires Known(s) && Step(s, act, s')
    ensures Known(s')
  {
  }

  lemma {:induction false} KnownRun(states: seq<State>, actions: seq<Action>, i: nat)
    requires Run(states, actions) && i < |states|
    ensures Known(states[i])
  {
    if i > 0 {
      KnownRun(states, actions, i - 1);
      KnownStep(states[i - 1], actions[i - 1], states[i]);
    }
  }

  /** A closer that needs nobody has the last reference, and has been woken. */
  lemma LastReference(s: State, t: Tid)
    requires Inv(s) && t in s.pc && s.pc[t].UnlinkWait? && !Blocked(s, t)
    ensures s.pc[t].a in s.sessions && s.sessions[s.pc[t].a].refCount == 1 && s.pc[t].woken
  {
    var ses := s.sessions[s.pc[t].a];
    assert CellOk(s.pc[t].a, ses, s.pc);
    assert ThreadOk(t, s.pc[t], ses);
    forall y
      ensures y !in ses.holders - multiset{t}
    {
      assert !Needs(s, t, y);
    }
    JustOne(ses.holders, t);
  }

  /** A thread that needs nobody and settles something is then outside of all waiting. */
  lemma ActorFree(s: State, act: Action, s': State)
    requires Inv(s) && Step(s, act, s') && Settling(act) && !Blocked(s, act.t)
    ensures act.t in s'.pc && (s'.pc[act.t].Idle? || s'.pc[act.t].Removed?)
  {
    if act.UnlinkResume? {
      LastReference(s, act.t);
    } else if act.GetResume? && !s.sessions[act.a].unlink && s.sessions[act.a].lock.Some? {
      assert Needs(s, act.t, s.sessions[act.a].lock.value);
    }
  }

  /** The other threads stay where they are. */
  lemma PlacesSettled(s: State, act: Action, s': State, x: Tid)
    requires Step(s, act, s') && Settling(act) && x != act.t && x in s'.pc
    ensures x in s.pc && (s'.pc[x] == s.pc[x] || SamePlace(s.pc[x], s'.pc[x]))
  {
  }

  /** A session loses references, and its lock at most goes to the thread that takes the step. */
  lemma SessionSettled(s: State, act: Action, s': State, c: Addr)
    requires Step(s, act, s') && Settling(act) && c in s'.sessions
    ensures c in s.sessions && s'.sessions[c].holders <= s.sessions[c].holders &&
      s'.sessions[c].unlink == s.sessions[c].unlink
    ensures s'.sessions[c].lock == s.sessions[c].lock || s'.sessions[c].lock == None ||
      s'.sessions[c].lock == Some(act.t)
  {
  }

  lemma FewerOthers(h: multiset<Tid>, h': multiset<Tid>, x: Tid, y: Tid)
    requires h' <= h && y in h' - multiset{x}
    ensures y in h - multiset{x}
  {
  }

  /** What a thread needs after such a step it needed before, unless it needs the thread that took the step. */
  lemma NoNewNeeds(s: State, act: Action, s': State, x: Tid, y: Tid)
    requires Step(s, act, s') && Settling(act) && act.t in s'.pc && (s'.pc[act.t].Idle? || s'.pc[act.t].Removed?)
    requires Needs(s', x, y) && y != act.t
    ensures Needs(s, x, y)
  {
    var c := s'.pc[x].a;
    PlacesSettled(s, act, s', x);
    SessionSettled(s, act, s', c);
    if s'.pc[x].UnlinkWait? {
      FewerOthers(s.sessions[c].holders, s'.sessions[c].holders, x, y);
    }
  }

  // ---------- such steps come to an end ----------

  /** The steps to the end of a call. */
  function Weight(p: Pc): nat {
    match p
    case Idle => 0
    case GetWait(_, _) => 1
    case UnlinkWait(_, _) => 2
    case Removed(_) => 1
  }

  function References(sessions: map<Addr, Session>): map<Addr, nat> {
    map a | a in sessions :: |sessions[a].holders|
  }

  function Weights(s: State): map<Tid, nat> {
    map t | t in s.pc :: Weight(s.pc[t])
  }

  /** How much is left to settle. */
  ghost function Left(s: State): nat {
    Total(References(s.sessions)) + Total(Weights(s))
  }

  lemma WeightsSettled(s: State, act: Action, s': State)
    requires Step(s, act, s') && Settling(act)
    ensures act.t in s.pc && act.t in s'.pc && Weights(s') == Weights(s)[act.t := Weight(s'.pc[act.t])]
  {
    forall x | x in s.pc && x != act.t
      ensures x in s'.pc && Weight(s'.pc[x]) == Weight(s.pc[x])
    {
      assert x in s'.pc;
      PlacesSettled(s, act, s', x);
    }
  }

  lemma ReferencesUpdate(sessions: map<Addr, Session>, a: Addr, ses: Session)
    requires a in sessions
    ensures Total(References(sessions[a := ses])) == Total(References(sessions)) - |sessions[a].holders| + |ses.holders|
  {
    TotalUpdate(References(sessions), a, |ses.holders|);
    assert References(sessions[a := ses]) == References(sessions)[a := |ses.holders|];
  }

  lemma ReferencesRemove(sessions: map<Addr, Session>, a: Addr)
    requires a in sessions
    ensures Total(References(sessions - {a})) <= Total(References(sessions))
  {
    TotalWithout(References(sessions), a);
    assert References(sessions - {a}) == References(sessions) - {a};
  }

  lemma OneSession(s: State, act: Action, s': State)
    requires Step(s, act, s') && Settling(act)
    ensures act.Free? ==> s'.sessions == s.sessions - {act.a}
    ensures !act.Free? ==>
      act.a in s.sessions && act.a in s'.sessions && s'.sessions == s.sessions[act.a := s'.sessions[act.a]]
    ensures act.Put? ==>
      && act.t in s.sessions[act.a].holders
      && s'.sessions[act.a].holders == s.sessions[act.a].holders - multiset{act.t}
  {
  }

  lemma ReferencesSettled(s: State, act: Action, s': State)
    requires Step(s, act, s') && Settling(act) && act.a in s.sessions
    ensures Total(References(s'.sessions)) <= Total(References(s.sessions))
    ensures act.Put? ==> Total(References(s'.sessions)) < Total(References(s.sessions))
  {
    OneSession(s, act, s');
    if act.Free? {
      ReferencesRemove(s.sessions, act.a);
    } else {
      ReferencesUpdate(s.sessions, act.a, s'.sessions[act.a]);
      SessionSettled(s, act, s', act.a);
      Fewer(s.sessions[act.a].holders, s'.sessions[act.a].holders);
      if act.Put? {
        OneLess(s.sessions[act.a].holders, act.t);
      }
    }
  }

  lemma WeightSettled(s: State, act: Action, s': State)
    requires Step(s, act, s') && Settling(act) && act.t in s'.pc && (s'.pc[act.t].Idle? || s'.pc[act.t].Removed?)
    ensures Total(Weights(s')) <= Total(Weights(s))
    ensures !act.Put? ==> Total(Weights(s')) < Total(Weights(s))
  {
    WeightsSettled(s, act, s');
    TotalUpdate(Weights(s), act.t, Weight(s'.pc[act.t]));
  }

  /** A put gives up a reference, and every other step ends a wait or a call. */
  lemma Settles(s: State, act: Action, s': State)
    requires Step(s, act, s') && Settling(act) && act.a in s.sessions
    requires act.t in s'.pc && (s'.pc[act.t].Idle? || s'.pc[act.t].Removed?)
    ensures Left(s') < Left(s)
  {
    WeightSettled(s, act, s');
    ReferencesSettled(s, act, s');
  }

  lemma Fewer(h: multiset<Tid>, h': multiset<Tid>)
    requires h' <= h
    ensures |h'| <= |h|
  {
    assert h == h' + (h - h');
  }

  lemma OneLess(h: multiset<Tid>, t: Tid)
    requires t in h
    ensures |h - multiset{t}| == |h| - 1
  {
    assert h == h - multiset{t} + multiset{t};
  }

  // ---------- a closer that is not stuck gets through ----------

  /** No set of threads that are stuck contains t. */
  ghost predicate NotStuck(s: State, t: Tid) {
    forall xs :: Stuck(s, xs) ==> t !in xs
  }

  /** Some thread is needed and needs nobody itself. */
  lemma Leaf(s: State, t: Tid) returns (x: Tid, y: Tid)
    requires Blocked(s, t) && NotStuck(s, t)
    ensures Needs(s, x, y) && !Blocked(s, y)
  {
    ghost var xs := set u | u in s.pc && Blocked(s, u);
    assert t in xs;
    assert !Stuck(s, xs);
    x :| x in xs && !NeedsAmong(s, x, xs);
    y :| Needs(s, x, y);
    assert Blocked(s, y) ==> y in s.pc;
  }

  /** A thread outside all waiting that has a reference can put it. */
  lemma CanPut(s: State, t: Tid, c: Addr) returns (act: Action, s': State)
    requires t in s.pc && s.pc[t].Idle? && c in s.sessions && t in s.sessions[c].holders
    ensures Step(s, act, s') && Settling(act) && act.t == t && act.a == c
  {
    var ses := s.sessions[c];
    var wake := None;
    if u :| u in s.pc && s.pc[u] == GetWait(c, false) {
      wake := Some(u);
    }
    act := Put(t, c, wake);
    if ses.lock == Some(t) {
      var pc := if wake.Some? then s.pc[wake.value := GetWait(c, true)] else s.pc;
      s' := State(s.sessions[c := Unref(ses, t).(lock := None)], AfterUnref(pc, c, Unref(ses, t)));
    } else {
      s' := State(s.sessions[c := Unref(ses, t)], AfterUnref(s.pc, c, Unref(ses, t)));
    }
  }

  /** A woken thread can leave tee_ta_get_session once the lock is free or unlink is set. */
  lemma CanResume(s: State, t: Tid, c: Addr) returns (act: Action, s': State)
    requires At(s.pc, t, GetWait(c, true)) && c in s.sessions && (s.sessions[c].unlink || s.sessions[c].lock.None?)
    ensures Step(s, act, s') && Settling(act) && act.t == t && act.a == c && !Blocked(s, t)
  {
    var ses := s.sessions[c];
    act := GetResume(t, c);
    if ses.unlink {
      s' := State(s.sessions[c := Unref(ses, t)], AfterUnref(s.pc[t := Idle], c, Unref(ses, t)));
    } else {
      s' := State(s.sessions[c := ses.(lock := Some(t))], s.pc[t := Idle]);
    }
  }

  lemma CanFinish(s: State, t: Tid) returns (act: Action, s': State)
    requires Inv(s) && t in s.pc && s.pc[t].UnlinkWait? && !Blocked(s, t)
    ensures Step(s, act, s') && Settling(act) && act.t == t && act.a == s.pc[t].a && At(s'.pc, t, Removed(s.pc[t].a))
  {
    LastReference(s, t);
    var c := s.pc[t].a;
    act := UnlinkResume(t, c);
    s' := State(s.sessions[c := s.sessions[c].(listed := false)], s.pc[t := Removed(c)]);
  }

  /** A waiter of a session whose lock is free: it or another one has been woken. */
  lemma SomeWoken(s: State, t: Tid, c: Addr) returns (u: Tid)
    requires Inv(s) && t in s.pc && s.pc[t].GetWait? && s.pc[t].a == c && !Blocked(s, t)
    ensures At(s.pc, u, GetWait(c, true)) && c in s.sessions && (s.sessions[c].unlink || s.sessions[c].lock.None?)
  {
    var ses := s.sessions[c];
    assert CellOk(c, ses, s.pc);
    assert ThreadOk(t, s.pc[t], ses);
    if !ses.unlink && ses.lock.Some? {
      assert Needs(s, t, ses.lock.value);
    }
    if s.pc[t].woken {
      u := t;
    } else {
      assert At(s.pc, t, GetWait(c, false));
      u :| At(s.pc, u, GetWait(c, true));
    }
  }

  /** Who is needed has a reference to the session. */
  lemma NeededHolds(s: State, x: Tid, y: Tid)
    requires Inv(s) && Known(s) && Needs(s, x, y)
    ensures s.pc[x].a in s.sessions && y in s.sessions[s.pc[x].a].holders && y in s.pc
  {
    var c := s.pc[x].a;
    assert CellOk(c, s.sessions[c], s.pc);
  }

  /** If y is needed and needs nobody then some step settles something. */
  lemma CanSettle(s: State, x: Tid, y: Tid) returns (act: Action, s': State)
    requires Inv(s) && Known(s) && Needs(s, x, y) && !Blocked(s, y)
    ensures Step(s, act, s') && Settling(act) && !Blocked(s, act.t) && act.a in s.sessions
  {
    NeededHolds(s, x, y);
    match s.pc[y]
    case Idle =>
      act, s' := CanPut(s, y, s.pc[x].a);
    case Removed(c) =>
      act, s' := Free(y, c), State(s.sessions - {c}, s.pc[y := Idle]);
    case GetWait(c, _) =>
      var u := SomeWoken(s, y, c);
      act, s' := CanResume(s, u, c);
    case UnlinkWait(c, _) =>
      act, s' := CanFinish(s, y);
  }

  lemma StaysNotStuck(s: State, act: Action, s': State, t: Tid)
    requires Step(s, act, s') && Settling(act) && act.t in s'.pc && (s'.pc[act.t].Idle? || s'.pc[act.t].Removed?)
    requires NotStuck(s, t)
    ensures NotStuck(s', t)
  {
    forall xs | Stuck(s', xs)
      ensures t !in xs
    {
      forall x | x in xs
        ensures NeedsAmong(s, x, xs)
      {
        assert NeedsAmong(s', x, xs);
        var y :| y in xs && Needs(s', x, y);
        assert NeedsAmong(s', y, xs);
        NoNewNeeds(s, act, s', x, y);
      }
      assert Stuck(s, xs);
    }
  }

  /** One step on the way of a waiting closer: it is through, or less is left to settle. */
  lemma Advance(s: State, t: Tid, a: Addr) returns (act: Action, s': State)
    requires Inv(s) && Known(s) && Closing(s, t, a) && NotStuck(s, t)
    ensures Step(s, act, s') && Settling(act)
    ensures At(s'.pc, t, Removed(a)) || (Closing(s', t, a) && NotStuck(s', t) && Left(s') < Left(s))
  {
    if !Blocked(s, t) {
      act, s' := CanFinish(s, t);
    } else {
      var x, y := Leaf(s, t);
      act, s' := CanSettle(s, x, y);
      ActorFree(s, act, s');
      StaysNotStuck(s, act, s', t);
      Settles(s, act, s');
      ThreadStays(s, act, s', t);
      PlacesSettled(s, act, s', t);
    }
  }

  lemma ThreadStays(s: State, act: Action, s': State, t: Tid)
    requires Step(s, act, s') && t in s.pc
    ensures t in s'.pc
  {
  }

  predicate Closing(s: State, t: Tid, a: Addr) {
    At(s.pc, t, UnlinkWait(a, false)) || At(s.pc, t, UnlinkWait(a, true))
  }

  /** The second run goes on from the end of the first. */
  ghost predicate Extends(states: seq<State>, actions: seq<Action>, states': seq<State>, actions': seq<Action>) {
    Run(states', actions') && states <= states' && actions <= actions'
  }

  /** It does so by settling steps only. */
  ghost predicate Continues(states: seq<State>, actions: seq<Action>, states': seq<State>, actions': seq<Action>) {
    Extends(states, actions, states', actions') && forall i {:trigger actions'[i]} :: |actions| <= i < |actions'| ==>
      Settling(actions'[i])
  }

  lemma Append(states: seq<State>, actions: seq<Action>, act: Action, s': State)
    requires Run(states, actions) && Step(states[|states| - 1], act, s')
    ensures Run(states + [s'], actions + [act])
  {
    var states', actions' := states + [s'], actions + [act];
    forall i | 0 <= i < |actions'|
      ensures Step(states'[i], actions'[i], states'[i + 1])
    {
      if i < |actions| {
        assert actions'[i] == actions[i];
      }
    }
  }

  lemma AdvanceRun(states: seq<State>, actions: seq<Action>, t: Tid, a: Addr)
    returns (states': seq<State>, actions': seq<Action>, s: State)
    requires Run(states, actions) && Closing(states[|states| - 1], t, a) && NotStuck(states[|states| - 1], t)
    ensures Continues(states, actions, states', actions') && s == states'[|states'| - 1]
    ensures At(s.pc, t, Removed(a)) || (Closing(s, t, a) && NotStuck(s, t) && Left(s) < Left(states[|states| - 1]))
  {
    RunKeepsInv(states, actions, |states| - 1);
    KnownRun(states, actions, |states| - 1);
    var act;
    act, s := Advance(states[|states| - 1], t, a);
    Append(states, actions, act, s);
    states', actions' := states + [s], actions + [act];
  }

  lemma ContinuesFurther(states: seq<State>, actions: seq<Action>, states': seq<State>, actions': seq<Action>,
                         states'': seq<State>, actions'': seq<Action>)
    requires Continues(states, actions, states', actions') && Continues(states', actions', states'', actions'')
    ensures Continues(states, actions, states'', actions'')
  {
    forall i | |actions| <= i < |actions''|
      ensures Settling(actions''[i])
    {
      if i < |actions'| {
        assert actions''[i] == actions'[i];
      }
    }
  }

  lemma {:induction false} Through(states: seq<State>, actions: seq<Action>, t: Tid, a: Addr)
    returns (states': seq<State>, actions': seq<Action>)
    requires Run(states, actions) && Closing(states[|states| - 1], t, a) && NotStuck(states[|states| - 1], t)
    ensures Continues(states, actions, states', actions') && At(states'[|states'| - 1].pc, t, Removed(a))
    decreases Left(states[|states| - 1])
  {
    var s;
    states', actions', s := AdvanceRun(states, actions, t, a);
    if !At(s.pc, t, Removed(a)) {
      var states1, actions1 := states', actions';
      states', actions' := Through(states1, actions1, t, a);
      ContinuesFurther(states, actions, states1, actions1, states', actions');
    }
  }

  /** Some run goes on from here to the point where the closer is past tee_ta_unlink_session. */
  ghost predicate GetsThrough(states: seq<State>, actions: seq<Action>, t: Tid, a: Addr) {
    exists states': seq<State>, actions': seq<Action> ::
      Extends(states, actions, states', actions') && At(states'[|states'| - 1].pc, t, Removed(a))
  }

  /** In every reachable state: a closer can get past tee_ta_unlink_session iff it is not stuck. */
  lemma ClosesUnlessStuck(states: seq<State>, actions: seq<Action>, t: Tid, a: Addr)
    requires Run(states, actions) && Closing(states[|states| - 1], t, a)
    ensures GetsThrough(states, actions, t, a) <==> forall xs :: Stuck(states[|states| - 1], xs) ==> t !in xs
  {
    if NotStuck(states[|states| - 1], t) {
      var states', actions' := Through(states, actions, t, a);
    }
    if GetsThrough(states, actions, t, a) {
      var states': seq<State>, actions': seq<Action> :|
        Extends(states, actions, states', actions') && At(states'[|states'| - 1].pc, t, Removed(a));
      forall xs | Stuck(states[|states| - 1], xs)
        ensures t !in xs
      {
        StuckForever(states', actions', |states| - 1, |states'| - 1, xs);
        assert t in xs ==> StillThere(states'[|states| - 1], states'[|states'| - 1], t);
      }
    }
  }

  // ---------- what the closer can check ----------

  /** Nobody else with a reference to a has one to another session. */
  predicate OthersHaveOnly(s: State, t: Tid, a: Addr) {
    a in s.sessions && forall b, u ::
      b in s.sessions && b != a && u in s.sessions[b].holders && u in s.sessions[a].holders ==> u == t
  }

  /** Whoever waits on a session has a reference to it. */
  lemma WaiterHolds(s: State, x: Tid)
    requires Inv(s) && x in s.pc && (s.pc[x].GetWait? || s.pc[x].UnlinkWait?)
    ensures s.pc[x].a in s.sessions && x in s.sessions[s.pc[x].a].holders
    ensures s.pc[x].UnlinkWait? ==> s.sessions[s.pc[x].a].lock == Some(x) && s.sessions[s.pc[x].a].unlink
  {
    var c := s.pc[x].a;
    assert CellOk(c, s.sessions[c], s.pc);
    assert ThreadOk(x, s.pc[x], s.sessions[c]);
  }

  lemma OthersNeedNobody(s: State, t: Tid, a: Addr, y: Tid)
    requires Inv(s) && Closing(s, t, a) && OthersHaveOnly(s, t, a) && y in s.sessions[a].holders && y != t
    ensures !Blocked(s, y)
  {
    WaiterHolds(s, t);
    if Blocked(s, y) {
      WaiterHolds(s, y);
    }
  }

  lemma StuckAlone(s: State, t: Tid, a: Addr)
    requires Inv(s) && Closing(s, t, a) && OthersHaveOnly(s, t, a)
    ensures NotStuck(s, t) <==> s.sessions[a].holders[t] == 1
  {
    WaiterHolds(s, t);
    if s.sessions[a].holders[t] != 1 {
      assert Needs(s, t, t);
      assert Stuck(s, {t});
    } else {
      forall xs | Stuck(s, xs)
        ensures t !in xs
      {
        if t in xs {
          assert NeedsAmong(s, t, xs);
          var y :| y in xs && Needs(s, t, y);
          assert NeedsAmong(s, y, xs);
          OthersNeedNobody(s, t, a, y);
        }
      }
    }
  }

  /**
   A closer gets past tee_ta_unlink_session iff the lock came with its only reference, as
   long as the other users of the session have no second session.
   */
  lemma ClosesWithOneReference(states: seq<State>, actions: seq<Action>, t: Tid, a: Addr)
    requires Run(states, actions) && Closing(states[|states| - 1], t, a) && OthersHaveOnly(states[|states| - 1], t, a)
    ensures GetsThrough(states, actions, t, a) <==> states[|states| - 1].sessions[a].holders[t] == 1
  {
    RunKeepsInv(states, actions, |states| - 1);
    ClosesUnlessStuck(states, actions, t, a);
    StuckAlone(states[|states| - 1], t, a);
  }

  /** The same, seen from the call: the number of its own references decides whether it can end. */
  lemma UnlinkCanEnd(states: seq<State>, actions: seq<Action>, t: Tid, a: Addr, s': State)
    requires Run(states, actions) && Step(states[|states| - 1], Unlink(t, a), s') &&
      OthersHaveOnly(states[|states| - 1], t, a)
    ensures GetsThrough(states + [s'], actions + [Unlink(t, a)], t, a) <==>
      states[|states| - 1].sessions[a].holders[t] == 1
  {
    var s := states[|states| - 1];
    Append(states, actions, Unlink(t, a), s');
    var states', actions' := states + [s'], actions + [Unlink(t, a)];
    RunKeepsInv(states, actions, |states| - 1);
    if At(s'.pc, t, Removed(a)) {
      assert CellOk(a, s.sessions[a], s.pc);
      OnlyHolder(s.sessions[a].holders, t);
      assert Extends(states', actions', states', actions');
    } else {
      SameHolders(s, t, a, s');
      ClosesWithOneReference(states', actions', t, a);
    }
  }

  lemma SameHolders(s: State, t: Tid, a: Addr, s': State)
    requires Step(s, Unlink(t, a), s') && OthersHaveOnly(s, t, a) && !At(s'.pc, t, Removed(a))
    ensures Closing(s', t, a) && s'.sessions[a].holders == s.sessions[a].holders && OthersHaveOnly(s', t, a)
  {
    forall b | b in s.sessions && b != a
      ensures s'.sessions[b] == s.sessions[b]
    {
      Elsewhere(s, Unlink(t, a), s', b);
    }
  }

  // ---------- closers that are stuck ----------

  /** Thread t waits in tee_ta_unlink_session and has a second reference to the session. */
  predicate WaitsForItself(s: State, t: Tid, a: Addr) {
    a in s.sessions && s.sessions[a].holders[t] >= 2 && Closing(s, t, a)
  }

  lemma WaitsForever(states: seq<State>, actions: seq<Action>, i: nat, j: nat, t: Tid, a: Addr)
    requires Run(states, actions) && i <= j < |states| && WaitsForItself(states[i], t, a)
    ensures WaitsForItself(states[j], t, a)
  {
    assert Needs(states[i], t, t);
    StuckForever(states, actions, i, j, {t});
    assert NeedsAmong(states[j], t, {t});
    assert StillThere(states[i], states[j], t);
  }

  /**
   This is how tee_ta_open_session closes a session whose context has panicked: before it has
   put its own reference.
  */
  lemma CloseWhileOpening() returns (states: seq<State>, actions: seq<Action>)
    ensures Run(states, actions) && WaitsForItself(states[|states| - 1], 1, 5)
    ensures OthersHaveOnly(states[|states| - 1], 1, 5) && !GetsThrough(states, actions, 1, 5)
  {
    var h := multiset{1};
    var s0 := State(map[], map[1 := Idle]);
    var s1 := State(map[5 := Session(1, 1, None, false, true, h)], map[1 := Idle]);
    var s2 := State(map[5 := Session(1, 2, Some(1), false, true, h + h)], map[1 := Idle]);
    var s3 := State(map[5 := Session(1, 2, Some(1), true, true, h + h)], map[1 := UnlinkWait(5, false)]);
    assert Step(s0, Open(1, 5, 1), s1);
    assert Step(s1, Get(1, 5, true), s2);
    assert WakeGetters(s2.pc, 5)[1 := UnlinkWait(5, false)] == s3.pc;
    assert Step(s2, Unlink(1, 5), s3);
    states, actions := [s0, s1, s2, s3], [Open(1, 5, 1), Get(1, 5, true), Unlink(1, 5)];
    ClosesWithOneReference(states, actions, 1, 5);
  }

  /** A new session that its opener has locked again as its only user. */
  lemma OpenAndLock(states: seq<State>, actions: seq<Action>, s: State, t: Tid, a: Addr, id: nat)
    returns (states': seq<State>, actions': seq<Action>, s': State)
    requires Run(states, actions) && s == states[|states| - 1]
    requires At(s.pc, t, Idle) && a !in s.sessions && id != 0 && forall b :: !Found(s, b, id)
    ensures Run(states', actions') && s' == states'[|states'| - 1] == State(s.sessions[a := Locked(id, t)], s.pc)
  {
    var s1 := State(s.sessions[a := Session(id, 1, None, false, true, multiset{t})], s.pc);
    var s2 := State(s.sessions[a := Session(id, 0, None, false, true, multiset{})], s.pc);
    s' := State(s.sessions[a := Locked(id, t)], s.pc);
    OpenPutGet(s, t, a, id, s1, s2, s');
    Append(states, actions, Open(t, a, id), s1);
    states', actions' := states + [s1], actions + [Open(t, a, id)];
    Append(states', actions', Put(t, a, None), s2);
    states', actions' := states' + [s2], actions' + [Put(t, a, None)];
    Append(states', actions', Get(t, a, true), s');
    states', actions' := states' + [s'], actions' + [Get(t, a, true)];
  }

  function Locked(id: nat, t: Tid): Session {
    Session(id, 1, Some(t), false, true, multiset{t})
  }

  lemma OpenPutGet(s: State, t: Tid, a: Addr, id: nat, s1: State, s2: State, s3: State)
    requires At(s.pc, t, Idle) && a !in s.sessions && id != 0 && forall b :: !Found(s, b, id)
    requires s1 == State(s.sessions[a := Session(id, 1, None, false, true, multiset{t})], s.pc)
    requires s2 == State(s.sessions[a := Session(id, 0, None, false, true, multiset{})], s.pc)
    requires s3 == State(s.sessions[a := Locked(id, t)], s.pc)
    ensures Step(s, Open(t, a, id), s1) && Step(s1, Put(t, a, None), s2) && Step(s2, Get(t, a, true), s3)
  {
    assert multiset{t} - multiset{t} == multiset{} && multiset{} + multiset{t} == multiset{t};
    assert s1.sessions[a := s2.sessions[a]] == s2.sessions;
    assert s2.sessions[a := s3.sessions[a]] == s3.sessions;
  }

  /** Two threads at rest, each the only user of a session that it has locked. */
  lemma TwoLocked() returns (states: seq<State>, actions: seq<Action>)
    ensures Run(states, actions) && states[|states| - 1] == Crossed(0)
  {
    var s0 := State(map[], map[1 := Idle, 2 := Idle]);
    var s1, s;
    states, actions, s1 := OpenAndLock([s0], [], s0, 1, 5, 1);
    assert s1.sessions == map[5 := Locked(1, 1)];
    states, actions, s := OpenAndLock(states, actions, s1, 2, 6, 2);
    assert s.sessions == map[5 := Locked(1, 1), 6 := Locked(2, 2)];
  }

  /** From there each also uses the session of the other, and then both close their own. */
  function Crossed(i: nat): State {
    var first := if i < 1 then Locked(1, 1) else Ref(Locked(1, 1), 2);
    var second := if i < 2 then Locked(2, 2) else Ref(Locked(2, 2), 1);
    State(map[5 := first.(unlink := i >= 3), 6 := second.(unlink := i >= 4)],
          map[1 := if i < 3 then Idle else UnlinkWait(5, false), 2 := if i < 4 then Idle else UnlinkWait(6, false)])
  }

  function CrossAction(i: nat): Action {
    if i == 0 then Get(2, 5, false)
    else if i == 1 then Get(1, 6, false)
    else if i == 2 then Unlink(1, 5)
    else Unlink(2, 6)
  }

  lemma CrossStep(i: nat)
    requires i < 4
    ensures Step(Crossed(i), CrossAction(i), Crossed(i + 1))
  {
    if i == 2 {
      assert WakeGetters(Crossed(2).pc, 5)[1 := UnlinkWait(5, false)] == Crossed(3).pc;
    } else if i == 3 {
      assert WakeGetters(Crossed(3).pc, 6)[2 := UnlinkWait(6, false)] == Crossed(4).pc;
    }
  }

  lemma {:induction false} CrossRun(i: nat) returns (states: seq<State>, actions: seq<Action>)
    requires i <= 4
    ensures Run(states, actions) && states[|states| - 1] == Crossed(i)
  {
    if i == 0 {
      states, actions := TwoLocked();
    } else {
      states, actions := CrossRun(i - 1);
      CrossStep(i - 1);
      Append(states, actions, CrossAction(i - 1), Crossed(i));
      states, actions := states + [Crossed(i)], actions + [CrossAction(i - 1)];
    }
  }

  lemma StuckPair()
    ensures Stuck(Crossed(4), {1, 2}) && Crossed(4).sessions[5].holders[1] == 1 && Closing(Crossed(4), 1, 5)
  {
    assert Needs(Crossed(4), 1, 2) && Needs(Crossed(4), 2, 1);
    assert NeedsAmong(Crossed(4), 1, {1, 2}) && NeedsAmong(Crossed(4), 2, {1, 2});
  }

  /**
   Two closers with one reference each to the session that they close, and one to that of the
   other: without the condition on the other users one reference is not enough.
   */
  lemma CloseEachOther() returns (states: seq<State>, actions: seq<Action>, s: State)
    ensures Run(states, actions) && s == states[|states| - 1] && Closing(s, 1, 5)
    ensures 5 in s.sessions && s.sessions[5].holders[1] == 1 && !GetsThrough(states, actions, 1, 5)
  {
    states, actions := CrossRun(4);
    s := Crossed(4);
    StuckPair();
    ClosesUnlessStuck(states, actions, 1, 5);
    assert Stuck(s, {1, 2}) ==> 1 in {1, 2};
  }
}
