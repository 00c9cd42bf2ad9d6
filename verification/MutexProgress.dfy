/**
 When a thread that waits for a mutex can get it, under the lock order checker and with
 readers, which the checker does not see: exactly if it is not part of a set of threads that
 all wait for each other.
 */
module MutexProgress {
  import opened LockGraph
  import opened Totals
  import opened MutexLockdep

  predicate Reads(s: State, t: Tid, m: Id) {
    t in Readers(s, m)
  }

  ghost predicate WritesSome(s: State, t: Tid) {
    exists m :: Holds(s.writer, t, m)
  }

  ghost predicate ReadsSome(s: State, t: Tid) {
    exists m :: Reads(s, t, m)
  }

  /** Thread t holds a mutex for writing or reading. */
  ghost predicate HoldsSome(s: State, t: Tid) {
    WritesSome(s, t) || ReadsSome(s, t)
  }

  /** Thread t is in mutex_lock or mutex_read_lock. */
  predicate Waits(s: State, t: Tid) {
    t in s.pc && (s.pc[t].Waiting? || s.pc[t].ReadWaiting?)
  }

  /** It waits for a mutex that it cannot take now. */
  predicate Blocked(s: State, t: Tid) {
    t in s.pc && match s.pc[t]
    case Waiting(m) => Field(s, m) != 0
    case ReadWaiting(m) => Field(s, m) == -1
    case _ => false
  }

  /** Thread x waits until y gives up a mutex: in mutex_lock its writer or a reader, in mutex_read_lock its writer. */
  predicate Needs(s: State, x: Tid, y: Tid) {
    x in s.pc && match s.pc[x]
    case Waiting(m) => Holds(s.writer, y, m) || Reads(s, y, m)
    case ReadWaiting(m) => Holds(s.writer, y, m)
    case _ => false
  }

  predicate NeedsAmong(s: State, x: Tid, xs: set<Tid>) {
    exists y :: y in xs && Needs(s, x, y)
  }

  /** Each of these threads needs another one of them, or itself. */
  predicate Stuck(s: State, xs: set<Tid>) {
    forall x {:trigger NeedsAmong(s, x, xs)} :: x in xs ==> NeedsAmong(s, x, xs)
  }

  /** No set of threads that are stuck contains t. */
  ghost predicate NotStuck(s: State, t: Tid) {
    forall xs :: Stuck(s, xs) ==> t !in xs
  }

  /** Exactly a thread that needs somebody is blocked. */
  lemma BlockedNeeds(s: State, t: Tid)
    requires Inv(s)
    ensures Blocked(s, t) <==> exists y :: Needs(s, t, y)
  {
    if Waits(s, t) {
      var m := s.pc[t].m;
      assert ReaderOk(Field(s, m), Readers(s, m), s.pc.Keys);
      if Field(s, m) == -1 {
        assert Needs(s, t, s.writer[m]);
      } else if Field(s, m) > 0 && s.pc[t].Waiting? {
        var y :| y in Readers(s, m);
        assert Needs(s, t, y);
      }
    }
  }

  // ---------- stuck threads stay so ----------

  lemma ActorUnblocked(s: State, a: Action, s': State)
    requires Step(s, a, s')
    ensures a.t in s.pc && !Blocked(s, a.t)
  {
  }

  lemma PcStays(s: State, a: Action, s': State, x: Tid)
    requires Step(s, a, s') && x != a.t && x in s.pc
    ensures x in s'.pc && s'.pc[x] == s.pc[x]
  {
  }

  /** Only the writer itself gives up a mutex. */
  lemma WriterStays(s: State, a: Action, s': State, y: Tid, m: Id)
    requires Step(s, a, s') && Holds(s.writer, y, m) && a.t != y && Field(s, m) == -1
    requires a.Unlock? ==> Holds(s.writer, a.t, a.m)
    ensures Holds(s'.writer, y, m)
  {
  }

  lemma ReaderStays(s: State, a: Action, s': State, y: Tid, m: Id)
    requires Step(s, a, s') && Reads(s, y, m) && a.t != y
    ensures Reads(s', y, m)
  {
  }

  /** Threads other than x and y cannot help x. */
  lemma OthersStep(s: State, a: Action, s': State, x: Tid, y: Tid)
    requires WritersOk(s) && Step(s, a, s') && Needs(s, x, y) && a.t != x && a.t != y
    ensures x in s'.pc && s'.pc[x] == s.pc[x] && Needs(s', x, y)
  {
    PcStays(s, a, s', x);
    if a.Unlock? {
      ReleasingWrites(s, a.t, a.m);
    }
    var m := s.pc[x].m;
    if Holds(s.writer, y, m) {
      WriterStays(s, a, s', y, m);
    } else {
      ReaderStays(s, a, s', y, m);
    }
  }

  predicate AllThere(s: State, s': State, xs: set<Tid>) {
    forall x :: x in xs ==> x in s.pc && x in s'.pc && s'.pc[x] == s.pc[x]
  }

  lemma StuckStep(s: State, a: Action, s': State, xs: set<Tid>)
    requires Inv(s) && Step(s, a, s') && Stuck(s, xs)
    ensures Stuck(s', xs) && AllThere(s, s', xs)
  {
    ActorUnblocked(s, a, s');
    BlockedNeeds(s, a.t);
    assert a.t !in xs by {
      assert a.t in xs ==> NeedsAmong(s, a.t, xs);
    }
    forall x | x in xs
      ensures NeedsAmong(s', x, xs) && x in s.pc && x in s'.pc && s'.pc[x] == s.pc[x]
    {
      assert NeedsAmong(s, x, xs);
      var y :| y in xs && Needs(s, x, y);
      OthersStep(s, a, s', x, y);
    }
  }

  /** Of a set of threads that are stuck none ever gets its mutex. */
  lemma {:induction false} StuckForever(states: seq<State>, actions: seq<Action>, i: nat, j: nat, xs: set<Tid>)
    requires Run(states, actions) && i <= j < |states| && Stuck(states[i], xs)
    ensures Stuck(states[j], xs) && AllThere(states[i], states[j], xs)
    decreases j - i
  {
    if i == j {
      forall x | x in xs
        ensures x in states[i].pc
      {
        assert NeedsAmong(states[i], x, xs);
      }
    } else {
      StuckForever(states, actions, i, j - 1, xs);
      RunKeepsInv(states, actions, j - 1);
      StuckStep(states[j - 1], actions[j - 1], states[j], xs);
    }
  }

  // ---------- steps that only complete or give up something ----------

  /** A step that completes an operation already begun, or gives up a lock. */
  predicate Completes(s: State, a: Action) {
    || a.Take? || a.TryCheck? || a.UnlockCheck? || a.Unlock? || a.ReadUnlock?
    || (a.ReadTake? && At(s, a.t, ReadWaiting(a.m)))
  }

  /** The thread of such a step then waits for nobody, and all others stay where they are. */
  lemma CompleterRuns(s: State, a: Action, s': State)
    requires Step(s, a, s') && Completes(s, a)
    ensures s'.pc == s.pc[a.t := s'.pc[a.t]] && a.t in s.pc && (s'.pc[a.t].Running? || s'.pc[a.t].Releasing?)
  {
  }

  /** What a thread needs after such a step it needed before, unless it needs the thread that took the step. */
  lemma NoNewNeeds(s: State, a: Action, s': State, x: Tid, y: Tid)
    requires Step(s, a, s') && Completes(s, a) && Needs(s', x, y) && y != a.t
    ensures Needs(s, x, y)
  {
    CompleterRuns(s, a, s');
  }

  lemma StaysNotStuck(s: State, a: Action, s': State, t: Tid)
    requires Step(s, a, s') && Completes(s, a) && NotStuck(s, t)
    ensures NotStuck(s', t)
  {
    forall xs | Stuck(s', xs)
      ensures t !in xs
    {
      forall x | x in xs
        ensures NeedsAmong(s, x, xs)
      {
        assert NeedsAmong(s', x, xs);
        var y :| y in xs && Needs(s', x, y);
        assert NeedsAmong(s', y, xs);
        CompleterRuns(s, a, s');
        NoNewNeeds(s, a, s', x, y);
      }
      assert Stuck(s, xs);
    }
  }

  /** The steps that are left for a thread, with those for the mutex that it waits for. */
  function Weight(pc: Pc): nat {
    match pc
    case Releasing(_) => 0
    case Running => 1
    case Tried(_) => 2
    case ReadWaiting(_) => 3
    case Waiting(_) => 4
  }

  function Weights(pc: map<Tid, Pc>): map<Tid, nat> {
    map t | t in pc :: Weight(pc[t])
  }

  function ReadCounts(readers: map<Id, multiset<Tid>>): map<Id, nat> {
    map m | m in readers :: |readers[m]|
  }

  /** How much is left to complete and to give up. */
  ghost function Left(s: State): nat {
    2 * |s.writer| + Total(ReadCounts(s.readers)) + Total(Weights(s.pc))
  }

  lemma WeightsMove(pc: map<Tid, Pc>, t: Tid, p: Pc)
    requires t in pc
    ensures Total(Weights(pc[t := p])) == Total(Weights(pc)) - Weight(pc[t]) + Weight(p)
  {
    TotalUpdate(Weights(pc), t, Weight(p));
    assert Weights(pc[t := p]) == Weights(pc)[t := Weight(p)];
  }

  lemma ReadCountsSet(readers: map<Id, multiset<Tid>>, m: Id, rs: multiset<Tid>)
    ensures Total(ReadCounts(readers[m := rs])) == Total(ReadCounts(readers)) - |ReadersOf(readers, m)| + |rs|
  {
    TotalSet(ReadCounts(readers), m, |rs|);
    assert ReadCounts(readers[m := rs]) == ReadCounts(readers)[m := |rs|];
  }

  lemma OneWriter(writer: map<Id, Tid>, t: Tid, m: Id)
    ensures m !in writer ==> |writer[m := t]| == |writer| + 1
    ensures m in writer ==> |writer - {m}| == |writer| - 1
  {
    if m in writer {
      assert (writer - {m}).Keys == writer.Keys - {m};
      assert |writer - {m}| == |(writer - {m}).Keys|;
    } else {
      assert writer[m := t].Keys == writer.Keys + {m};
      assert |writer[m := t]| == |writer[m := t].Keys|;
    }
  }

  lemma OneReaderLess(rs: multiset<Tid>, t: Tid)
    requires t in rs
    ensures |rs - multiset{t}| == |rs| - 1
  {
    assert rs == rs - multiset{t} + multiset{t};
  }

  lemma ReadersComplete(s: State, a: Action, s': State)
    requires Step(s, a, s') && Completes(s, a)
    ensures Total(ReadCounts(s'.readers)) == Total(ReadCounts(s.readers)) + if a.ReadTake? then 1
      else if a.ReadUnlock? then -1 else 0
  {
    if a.ReadTake? {
      ReadCountsSet(s.readers, a.m, Readers(s, a.m) + multiset{a.t});
    } else if a.ReadUnlock? {
      OneReaderLess(Readers(s, a.m), a.t);
      ReadCountsSet(s.readers, a.m, Readers(s, a.m) - multiset{a.t});
    }
  }

  lemma WritersComplete(s: State, a: Action, s': State)
    requires WritersOk(s) && Step(s, a, s') && Completes(s, a)
    ensures |s'.writer| == |s.writer| + if a.Take? then 1 else if a.Unlock? then -1 else 0
  {
    OneWriter(s.writer, a.t, a.m);
    if a.Unlock? {
      ReleasingWrites(s, a.t, a.m);
    }
  }

  lemma ThreadCompletes(s: State, a: Action, s': State)
    requires Step(s, a, s') && Completes(s, a)
    ensures var less := if a.Take? then 3 else if a.ReadTake? then 2 else if a.Unlock? then -1 else if a.ReadUnlock?
      then 0 else 1;
      Total(Weights(s'.pc)) == Total(Weights(s.pc)) - less
  {
    CompleterRuns(s, a, s');
    WeightsMove(s.pc, a.t, s'.pc[a.t]);
  }

  /** A step that takes a mutex ends a wait, and every other one gives up or completes something. */
  lemma Settles(s: State, a: Action, s': State)
    requires WritersOk(s) && Step(s, a, s') && Completes(s, a)
    ensures Left(s') < Left(s)
  {
    ThreadCompletes(s, a, s');
    ReadersComplete(s, a, s');
    WritersComplete(s, a, s');
  }

  // ---------- a thread that is not stuck gets its mutex ----------

  lemma CanGoOn(s: State, u: Tid) returns (a: Action)
    requires Inv(s) && !Blocked(s, u) && (HoldsSome(s, u) || Waits(s, u))
    ensures Completes(s, a) && Enabled(s, a) && a.t == u
    ensures s.pc[u].Waiting? ==> a == Take(u, s.pc[u].m)
    ensures s.pc[u].ReadWaiting? ==> a == ReadTake(u, s.pc[u].m)
  {
    KnownThread(s, u);
    match s.pc[u]
    case Waiting(m) =>
      a := Take(u, m);
      assert Step(s, a, s.(pc := s.pc[u := Running], state := s.state[m := -1], writer := s.writer[m := u]));
    case ReadWaiting(m) =>
      a := ReadTake(u, m);
      assert Step(s, a, s.(pc := s.pc[u := Running], state := s.state[m := Field(s, m) + 1],
                           readers := s.readers[m := Readers(s, m) + multiset{u}]));
    case Tried(m) =>
      a := TryCheck(u, m);
      TryCheckPasses(s, u, m);
    case Releasing(m) =>
      a := Unlock(u, m);
      ReleasingWrites(s, u, m);
      assert Step(s, a, s.(pc := s.pc[u := Running], state := s.state[m := 0], writer := s.writer - {m}));
    case Running =>
      if m :| Holds(s.writer, u, m) {
        a := UnlockCheck(u, m);
        CanRelease(s, u, m);
      } else {
        var m :| Reads(s, u, m);
        a := ReadUnlock(u, m);
        CanReadUnlock(s, u, m);
      }
  }

  lemma KnownThread(s: State, t: Tid)
    requires Inv(s) && (HoldsSome(s, t) || Waits(s, t))
    ensures t in s.pc && t in s.owned
  {
    if m :| Reads(s, t, m) {
      assert ReaderOk(Field(s, m), Readers(s, m), s.pc.Keys);
    }
  }

  /** After a successful trylock the check adds no edge. */
  lemma TryCheckPasses(s: State, t: Tid, m: Id)
    requires At(s, t, Tried(m))
    ensures Enabled(s, TryCheck(t, m))
  {
    var g' := if m in s.g then s.g else s.g[m := []];
    assert Step(s, TryCheck(t, m), s.(g := g', owned := s.owned[t := s.owned[t] + [m]], pc := s.pc[t := Running]));
  }

  lemma CanReadUnlock(s: State, t: Tid, m: Id)
    requires Inv(s) && At(s, t, Running) && Reads(s, t, m)
    ensures Enabled(s, ReadUnlock(t, m))
  {
    assert ReaderOk(Field(s, m), Readers(s, m), s.pc.Keys);
    var s' := s.(state := s.state[m := Field(s, m) - 1], readers := s.readers[m := Readers(s, m) - multiset{t}]);
    assert Step(s, ReadUnlock(t, m), s');
  }

  /** Some thread that holds what another one needs needs nobody itself. */
  lemma Leaf(s: State, t: Tid) returns (x: Tid, y: Tid)
    requires Inv(s) && Blocked(s, t) && NotStuck(s, t)
    ensures Needs(s, x, y) && !Blocked(s, y) && HoldsSome(s, y)
  {
    var xs := set u | u in s.pc && Blocked(s, u);
    assert t in xs;
    assert !Stuck(s, xs);
    x :| x in xs && !NeedsAmong(s, x, xs);
    BlockedNeeds(s, x);
    y :| Needs(s, x, y);
    NeededHolds(s, x, y);
  }

  lemma NeededHolds(s: State, x: Tid, y: Tid)
    requires Needs(s, x, y)
    ensures HoldsSome(s, y)
  {
    var m := s.pc[x].m;
    if !Holds(s.writer, y, m) {
      assert Reads(s, y, m);
    }
  }

  /** From s, where t waits, to s': it has the mutex. */
  predicate Got(s: State, s': State, t: Tid) {
    t in s.pc && At(s', t, Running) && match s.pc[t]
    case Waiting(m) => Holds(s'.writer, t, m)
    case ReadWaiting(m) => Reads(s', t, m)
    case _ => false
  }

  lemma TakingGets(s: State, a: Action, s': State, t: Tid)
    requires t in s.pc && Step(s, a, s') && a.t == t
    requires (s.pc[t].Waiting? && a == Take(t, s.pc[t].m)) || (s.pc[t].ReadWaiting? && a == ReadTake(t, s.pc[t].m))
    ensures Got(s, s', t)
  {
  }

  /** Thread t has got its mutex, or still waits for it and less is left to complete. */
  ghost predicate Closer(s: State, s': State, t: Tid) {
    || Got(s, s', t)
    || (Waits(s, t) && Waits(s', t) && s'.pc[t] == s.pc[t] && NotStuck(s', t) && Left(s') < Left(s))
  }

  lemma OthersCloser(s: State, a: Action, s': State, t: Tid)
    requires WritersOk(s) && Step(s, a, s') && Completes(s, a) && a.t != t && Waits(s, t) && NotStuck(s, t)
    ensures Closer(s, s', t)
  {
    PcStays(s, a, s', t);
    StaysNotStuck(s, a, s', t);
    Settles(s, a, s');
  }

  /** One step on the way of a waiting thread. */
  lemma Advance(s: State, t: Tid) returns (a: Action, s': State)
    requires Inv(s) && Waits(s, t) && NotStuck(s, t)
    ensures Step(s, a, s') && Completes(s, a) && Closer(s, s', t)
  {
    if !Blocked(s, t) {
      a := CanGoOn(s, t);
      s' :| Step(s, a, s');
      TakingGets(s, a, s', t);
    } else {
      var x, y := Leaf(s, t);
      a := CanGoOn(s, y);
      s' :| Step(s, a, s');
      OthersCloser(s, a, s', t);
    }
  }

  lemma Continue(states: seq<State>, actions: seq<Action>, a: Action, s: State)
    returns (states': seq<State>, actions': seq<Action>)
    requires Run(states, actions) && Step(states[|states| - 1], a, s)
    ensures Run(states', actions') && states' == states + [s] && actions' == actions + [a]
  {
    states', actions' := states + [s], actions + [a];
    forall i | 0 <= i < |actions'|
      ensures Step(states'[i], actions'[i], states'[i + 1])
    {
      if i < |actions| {
        assert Step(states[i], actions[i], states[i + 1]);
      }
    }
  }

  /** The second run goes on from the end of the first. */
  ghost predicate Extends(states: seq<State>, actions: seq<Action>, states': seq<State>, actions': seq<Action>) {
    Run(states', actions') && states <= states' && actions <= actions'
  }

  /** It does so without beginning any operation. */
  ghost predicate Continues(states: seq<State>, actions: seq<Action>, states': seq<State>, actions': seq<Action>) {
    && Extends(states, actions, states', actions')
    && forall i {:trigger actions'[i]} :: |actions| <= i < |actions'| ==> Completes(states'[i], actions'[i])
  }

  lemma ContinuesFurther(states: seq<State>, actions: seq<Action>, states': seq<State>, actions': seq<Action>,
                         states'': seq<State>, actions'': seq<Action>)
    requires Continues(states, actions, states', actions') && Continues(states', actions', states'', actions'')
    ensures Continues(states, actions, states'', actions'')
  {
    forall i | |actions| <= i < |actions''|
      ensures Completes(states''[i], actions''[i])
    {
      if i < |actions'| {
        assert actions''[i] == actions'[i] && states''[i] == states'[i];
      }
    }
  }

  lemma AdvanceRun(states: seq<State>, actions: seq<Action>, s: State, t: Tid)
    returns (states': seq<State>, actions': seq<Action>, s': State)
    requires Run(states, actions) && s == states[|states| - 1] && Waits(s, t) && NotStuck(s, t)
    ensures Continues(states, actions, states', actions') && s' == states'[|states'| - 1] && Closer(s, s', t)
  {
    RunKeepsInv(states, actions, |states| - 1);
    var a;
    a, s' := Advance(s, t);
    states', actions' := Continue(states, actions, a, s');
  }

  lemma GotFrom(s: State, s': State, s'': State, t: Tid)
    requires t in s.pc && t in s'.pc && s'.pc[t] == s.pc[t] && Got(s', s'', t)
    ensures Got(s, s'', t)
  {
  }

  lemma {:induction false} Through(states: seq<State>, actions: seq<Action>, s: State, t: Tid)
    returns (states': seq<State>, actions': seq<Action>, s': State)
    requires Run(states, actions) && s == states[|states| - 1] && Waits(s, t) && NotStuck(s, t)
    ensures Continues(states, actions, states', actions') && s' == states'[|states'| - 1] && Got(s, s', t)
    decreases Left(s)
  {
    states', actions', s' := AdvanceRun(states, actions, s, t);
    if !Got(s, s', t) {
      var states1, actions1, s1 := states', actions', s';
      states', actions', s' := Through(states1, actions1, s1, t);
      GotFrom(s, s1, s', t);
      ContinuesFurther(states, actions, states1, actions1, states', actions');
    }
  }

  /** Some run goes on from here to the point where thread t has the mutex that it waits for. */
  ghost predicate GetsMutex(states: seq<State>, actions: seq<Action>, t: Tid)
    requires |states| > 0
  {
    exists states': seq<State>, actions': seq<Action> ::
      Extends(states, actions, states', actions') && Got(states[|states| - 1], states'[|states'| - 1], t)
  }

  /** In every reachable state: a thread in mutex_lock or mutex_read_lock can get its mutex iff it is not stuck. */
  lemma GetsUnlessStuck(states: seq<State>, actions: seq<Action>, t: Tid)
    requires Run(states, actions) && Waits(states[|states| - 1], t)
    ensures GetsMutex(states, actions, t) <==> forall xs :: Stuck(states[|states| - 1], xs) ==> t !in xs
  {
    if NotStuck(states[|states| - 1], t) {
      var states', actions', s' := Through(states, actions, states[|states| - 1], t);
    }
    if GetsMutex(states, actions, t) {
      var states': seq<State>, actions': seq<Action> :|
        Extends(states, actions, states', actions') && Got(states[|states| - 1], states'[|states'| - 1], t);
      forall xs | Stuck(states[|states| - 1], xs)
        ensures t !in xs
      {
        StuckForever(states', actions', |states| - 1, |states'| - 1, xs);
      }
    }
  }

  // ---------- whom a blocked thread waits for ----------

  /** Each of these threads needs the next one. */
  predicate Chain(s: State, p: seq<Tid>) {
    |p| > 0 && forall i :: 0 < i < |p| ==> Needs(s, p[i - 1], p[i])
  }

  /** A chain whose last thread needs an earlier one is stuck. */
  lemma ClosedChain(s: State, p: seq<Tid>, y: Tid)
    requires Chain(s, p) && Needs(s, p[|p| - 1], y) && y in p
    ensures !NotStuck(s, p[0])
  {
    var xs := set x | x in p;
    forall x | x in xs
      ensures NeedsAmong(s, x, xs)
    {
      var i :| 0 <= i < |p| && p[i] == x;
      if i + 1 < |p| {
        assert Needs(s, p[i], p[i + 1]) && p[i + 1] in xs;
      }
    }
    assert Stuck(s, xs) && p[0] in xs;
  }

  lemma {:induction false} ChainEnds(s: State, p: seq<Tid>) returns (q: seq<Tid>)
    requires Inv(s) && Chain(s, p) && NotStuck(s, p[0]) && Distinct(p) && forall x :: x in p ==> x in s.pc
    ensures Chain(s, q) && q[0] == p[0] && |q| >= |p| && !Blocked(s, q[|q| - 1])
    decreases |s.pc.Keys| - |p|
  {
    DistinctBound(p, s.pc.Keys);
    var x := p[|p| - 1];
    BlockedNeeds(s, x);
    if Blocked(s, x) {
      var y :| Needs(s, x, y);
      if y in p {
        ClosedChain(s, p, y);
      } else {
        NeededHolds(s, x, y);
        KnownThread(s, y);
        DistinctBound(p + [y], s.pc.Keys);
        q := ChainEnds(s, p + [y]);
      }
    } else {
      q := p;
    }
  }

  /**
   From every blocked thread that is not stuck, whom it waits for and whom that one waits for
   and so on leads to a holder that is not blocked.
   */
  lemma SomeHolderGoesOn(states: seq<State>, actions: seq<Action>, i: nat, t: Tid) returns (p: seq<Tid>)
    requires Run(states, actions) && i < |states| && Blocked(states[i], t) && NotStuck(states[i], t)
    ensures Chain(states[i], p) && p[0] == t && |p| > 1
    ensures HoldsSome(states[i], p[|p| - 1]) && !Blocked(states[i], p[|p| - 1])
  {
    RunKeepsInv(states, actions, i);
    var s := states[i];
    p := ChainEnds(s, [t]);
    NeededHolds(s, p[|p| - 2], p[|p| - 1]);
  }

  // ---------- two conditions under which nobody is stuck ----------

  /** No thread is blocked while it holds a read lock. */
  ghost predicate ReadersMove(s: State) {
    forall t :: ReadsSome(s, t) ==> !Blocked(s, t)
  }

  /** No thread is blocked in mutex_read_lock while it holds a mutex. */
  ghost predicate ReadWaitersFree(s: State) {
    forall t :: Blocked(s, t) && s.pc[t].ReadWaiting? ==> !HoldsSome(s, t)
  }

  /** Among stuck threads everybody who is needed holds the mutex for writing and is in mutex_lock. */
  lemma InnerWriter(s: State, xs: set<Tid>, x: Tid, y: Tid)
    requires Inv(s) && ReadersMove(s) && ReadWaitersFree(s) && Stuck(s, xs) && y in xs && Needs(s, x, y)
    ensures Holds(s.writer, y, s.pc[x].m) && y in s.pc && s.pc[y].Waiting?
  {
    assert NeedsAmong(s, y, xs);
    BlockedNeeds(s, y);
    NeededHolds(s, x, y);
    assert Reads(s, y, s.pc[x].m) ==> ReadsSome(s, y);
  }

  /** Following stuck threads from t on: a path of n locks in the graph of the checker. */
  lemma {:induction false} Walk(s: State, xs: set<Tid>, t: Tid, n: nat) returns (p: seq<Id>, last: Tid)
    requires Inv(s) && ReadersMove(s) && ReadWaitersFree(s) && Stuck(s, xs)
    requires n > 0 && t in xs && t in s.pc && s.pc[t].Waiting?
    ensures |p| == n && Path(s.g, p) && (forall m :: m in p ==> m in s.g)
    ensures last in xs && last in s.pc && s.pc[last] == Waiting(p[n - 1])
  {
    if n == 1 {
      p, last := [s.pc[t].m], t;
      assert ThreadOk(s.g, s.writer, t, s.owned[t], s.pc[t]);
    } else {
      var p0, w := Walk(s, xs, t, n - 1);
      assert NeedsAmong(s, w, xs);
      var u :| u in xs && Needs(s, w, u);
      InnerWriter(s, xs, w, u);
      WaitEdge(s, w, u);
      PathSnoc(s.g, p0, s.pc[u].m);
      p, last := p0 + [s.pc[u].m], u;
      assert ThreadOk(s.g, s.writer, u, s.owned[u], s.pc[u]);
    }
  }

  ghost predicate NobodyStuck(s: State) {
    forall xs :: Stuck(s, xs) ==> xs == {}
  }

  lemma NoStuckSet(s: State, xs: set<Tid>)
    requires Inv(s) && ReadersMove(s) && ReadWaitersFree(s) && Stuck(s, xs)
    ensures xs == {}
  {
    if x :| x in xs {
      assert NeedsAmong(s, x, xs);
      var y :| y in xs && Needs(s, x, y);
      InnerWriter(s, xs, x, y);
      var p, last := Walk(s, xs, y, |s.g.Keys| + 1);
      LongPathCycle(s.g, p);
    }
  }

  /**
   As long as no reader is blocked and nobody is blocked in mutex_read_lock with a mutex held,
   there is no deadlock: nobody is stuck, and every thread that waits can get its mutex.
   ReaderDeadlock and ReadLockDeadlock show that both conditions are needed.
   */
  lemma DeadlockFree(states: seq<State>, actions: seq<Action>, t: Tid)
    requires Run(states, actions) && Waits(states[|states| - 1], t)
    requires ReadersMove(states[|states| - 1]) && ReadWaitersFree(states[|states| - 1])
    ensures NobodyStuck(states[|states| - 1]) && GetsMutex(states, actions, t)
  {
    var s := states[|states| - 1];
    RunKeepsInv(states, actions, |states| - 1);
    forall xs | Stuck(s, xs)
      ensures xs == {}
    {
      NoStuckSet(s, xs);
    }
    GetsUnlessStuck(states, actions, t);
  }

  // ---------- a rule for callers ----------

  /** No lock call that can wait by a thread with a read lock, and no mutex_read_lock by one with any lock. */
  ghost predicate Careful(s: State, a: Action) {
    && (a.LockCheck? || a.ReadLock? ==> !ReadsSome(s, a.t))
    && (a.ReadLock? ==> !WritesSome(s, a.t))
  }

  ghost predicate CarefulWait(s: State, t: Tid) {
    Waits(s, t) ==> !ReadsSome(s, t) && (s.pc[t].ReadWaiting? ==> !WritesSome(s, t))
  }

  /** A step gives locks to its own thread only. */
  lemma OthersGainNothing(s: State, a: Action, s': State, t: Tid)
    requires Step(s, a, s') && t != a.t
    ensures ReadsSome(s', t) ==> ReadsSome(s, t)
    ensures WritesSome(s', t) ==> WritesSome(s, t)
  {
    if m :| Reads(s', t, m) {
      assert Reads(s, t, m);
    }
    if m :| Holds(s'.writer, t, m) {
      assert Holds(s.writer, t, m);
    }
  }

  lemma SameLocks(s: State, a: Action, s': State)
    requires Step(s, a, s') && (a.LockCheck? || a.ReadLock?)
    ensures s'.readers == s.readers && s'.writer == s.writer
  {
  }

  lemma CarefulStep(s: State, a: Action, s': State, t: Tid)
    requires Step(s, a, s') && Careful(s, a) && CarefulWait(s, t)
    ensures CarefulWait(s', t)
  {
    if t != a.t {
      OthersGainNothing(s, a, s', t);
    } else if a.LockCheck? || a.ReadLock? {
      SameLocks(s, a, s');
      assert forall m :: Reads(s', t, m) ==> Reads(s, t, m);
    }
  }

  lemma {:induction false} CarefulRun(states: seq<State>, actions: seq<Action>, i: nat, t: Tid)
    requires Run(states, actions) && i < |states| && forall k :: 0 <= k < i ==> Careful(states[k], actions[k])
    ensures CarefulWait(states[i], t)
  {
    if i > 0 {
      CarefulRun(states, actions, i - 1, t);
      CarefulStep(states[i - 1], actions[i - 1], states[i], t);
    }
  }

  lemma CarefulState(s: State)
    requires forall t :: CarefulWait(s, t)
    ensures ReadersMove(s) && ReadWaitersFree(s)
  {
    assert forall t :: Blocked(s, t) ==> Waits(s, t) && CarefulWait(s, t);
  }

  /** In every run in which all callers keep to the rule, every thread that waits can get its mutex. */
  lemma CarefulDeadlockFree(states: seq<State>, actions: seq<Action>, t: Tid)
    requires Run(states, actions) && Waits(states[|states| - 1], t)
    requires forall k :: 0 <= k < |actions| ==> Careful(states[k], actions[k])
    ensures NobodyStuck(states[|states| - 1]) && GetsMutex(states, actions, t)
  {
    var s := states[|states| - 1];
    forall u
      ensures CarefulWait(s, u)
    {
      CarefulRun(states, actions, |states| - 1, u);
    }
    CarefulState(s);
    DeadlockFree(states, actions, t);
  }

  // ---------- both conditions are needed ----------

  /** Two threads, without locks held for writing except those given. */
  predicate TwoRunning(s: State, owned1: seq<Id>, owned2: seq<Id>) {
    s.pc == map[1 := Running, 2 := Running] && s.owned == map[1 := owned1, 2 := owned2]
  }

  lemma Start() returns (s: State)
    ensures Run([s], []) && TwoRunning(s, [], []) && s.state == map[] && s.g == map[] && s.readers == map[]
  {
    s := State(map[], map[1 := [], 2 := []], map[1 := Running, 2 := Running], map[], map[], map[]);
  }

  /** Asking for m, once the graph g' has passed the check. */
  function Asked(s: State, t: Tid, m: Id, g': Edges): State
    requires t in s.owned
  {
    s.(g := g', owned := s.owned[t := s.owned[t] + [m]], pc := s.pc[t := Waiting(m)])
  }

  lemma NoEdges(g: Edges, g': Edges, m: Id)
    requires m !in g && g' == g[m := []] && forall a, b :: !Edge(g, a, b)
    ensures Extended(g, g', [], m) && Acyclic(g') && forall a, b :: !Edge(g', a, b)
  {
    forall a, b
      ensures !Edge(g', a, b)
    {
      assert !Edge(g, a, b);
    }
  }

  /** A first mutex is taken: the check adds its node without an edge. */
  lemma TakesFirst(states: seq<State>, actions: seq<Action>, s: State, t: Tid, m: Id)
    returns (states': seq<State>, actions': seq<Action>, s': State)
    requires Run(states, actions) && s == states[|states| - 1]
    requires At(s, t, Running) && s.owned[t] == [] && Field(s, m) == 0 && m !in s.g && forall a, b :: !Edge(s.g, a, b)
    ensures Run(states', actions') && s' == states'[|states'| - 1] && forall a, b :: !Edge(s'.g, a, b)
    ensures s' == State(s.g[m := []], s.owned[t := [m]], s.pc, s.state[m := -1], s.writer[m := t], s.readers)
  {
    var s1 := Asked(s, t, m, s.g[m := []]);
    assert s.owned[t] + [m] == [m];
    NoEdges(s.g, s1.g, m);
    s' := s1.(pc := s1.pc[t := Running], state := s1.state[m := -1], writer := s1.writer[m := t]);
    assert s'.pc == s.pc;
    states', actions' := Continue(states, actions, LockCheck(t, m), s1);
    states', actions' := Continue(states', actions', Take(t, m), s');
  }

  lemma AskedEdges(g: Edges)
    requires g == map[2 := [1], 1 := []]
    ensures Extended(map[2 := []], g, [2], 1) && Extended(g, g, [], 2) && Acyclic(g)
  {
    assert Edge(g, 2, 1) && forall a, b :: Edge(g, a, b) ==> a == 2 && b == 1;
    assert [1, 2][..1] == [1];
    OrderedAcyclic(g, [1, 2]);
  }

  /** Thread 2, which owns mutex 2, asks for mutex 1, and then thread 1, which owns none, for mutex 2. */
  lemma BothAsk(s: State) returns (s1: State, s2: State)
    requires TwoRunning(s, [], [2]) && s.g == map[2 := []] && s.state == map[1 := 1, 2 := -1]
    ensures Step(s, LockCheck(2, 1), s1) && Step(s1, LockCheck(1, 2), s2)
    ensures s2 == s.(g := s2.g, owned := s2.owned, pc := map[1 := Waiting(2), 2 := Waiting(1)])
  {
    var g: Edges := map[2 := [1], 1 := []];
    AskedEdges(g);
    s1 := Asked(s, 2, 1, g);
    s2 := Asked(s1, 1, 2, g);
  }

  /** Two threads that wait for each other, with no step left. */
  ghost predicate DeadPair(s: State) {
    Stuck(s, {1, 2}) && Waits(s, 1) && Waits(s, 2) && forall a :: !Enabled(s, a)
  }

  /** Thread 1 waits for a mutex of thread 2 and thread 2 for one of thread 1. */
  lemma PairStuck(s: State)
    requires s.pc.Keys == {1, 2} && Blocked(s, 1) && Blocked(s, 2) && Needs(s, 1, 2) && Needs(s, 2, 1)
    ensures DeadPair(s)
  {
    assert NeedsAmong(s, 1, {1, 2}) && NeedsAmong(s, 2, {1, 2});
    forall a
      ensures !Enabled(s, a)
    {
      if s' :| Step(s, a, s') {
        ActorUnblocked(s, a, s');
      }
    }
  }

  /** Neither of them ever gets its mutex. */
  lemma PairWaitsForever(states: seq<State>, actions: seq<Action>)
    requires Run(states, actions) && DeadPair(states[|states| - 1])
    ensures !GetsMutex(states, actions, 1) && !GetsMutex(states, actions, 2)
  {
    assert 1 in {1, 2} && 2 in {1, 2};
    GetsUnlessStuck(states, actions, 1);
    GetsUnlessStuck(states, actions, 2);
  }

  lemma FirstReads(s: State, s': State)
    requires TwoRunning(s, [], []) && s.state == map[] && s.readers == map[]
    requires s' == s.(state := map[1 := 1], readers := map[1 := multiset{1}])
    ensures Step(s, ReadTake(1, 1), s')
  {
    assert s.pc[1 := Running] == s.pc;
    assert multiset{} + multiset{1} == multiset{1};
  }

  /** Thread 1 takes mutex 1 for reading, and thread 2 takes mutex 2. */
  lemma ReaderAndWriter() returns (states: seq<State>, actions: seq<Action>, s: State)
    ensures Run(states, actions) && s == states[|states| - 1]
    ensures TwoRunning(s, [], [2]) && s.g == map[2 := []] && s.state == map[1 := 1, 2 := -1]
    ensures s.readers == map[1 := multiset{1}] && Holds(s.writer, 2, 2)
  {
    var s0 := Start();
    var s1 := s0.(state := map[1 := 1], readers := map[1 := multiset{1}]);
    FirstReads(s0, s1);
    states, actions := Continue([s0], [], ReadTake(1, 1), s1);
    states, actions, s := TakesFirst(states, actions, s1, 2, 2);
  }

  /**
   Two threads and two mutexes: thread 1 holds mutex 1 for reading and waits for mutex 2,
   thread 2 holds mutex 2 and waits for mutex 1. All checks succeed and nobody can move.
   Nobody waits in mutex_read_lock.
   */
  lemma ReaderDeadlock() returns (states: seq<State>, actions: seq<Action>, last: State)
    ensures Run(states, actions) && last == states[|states| - 1]
    ensures DeadPair(last) && !GetsMutex(states, actions, 1) && !GetsMutex(states, actions, 2)
    ensures ReadWaitersFree(last) && Reads(last, 1, 1) && Blocked(last, 1)
  {
    var s, s1;
    states, actions, s := ReaderAndWriter();
    s1, last := BothAsk(s);
    states, actions := Continue(states, actions, LockCheck(2, 1), s1);
    states, actions := Continue(states, actions, LockCheck(1, 2), last);
    PairStuck(last);
    PairWaitsForever(states, actions);
  }

  lemma BothReadLock(s: State) returns (s1: State, s2: State)
    requires TwoRunning(s, [1], [2])
    ensures Step(s, ReadLock(1, 2), s1) && Step(s1, ReadLock(2, 1), s2)
    ensures s2 == s.(pc := map[1 := ReadWaiting(2), 2 := ReadWaiting(1)])
  {
    s1 := s.(pc := s.pc[1 := ReadWaiting(2)]);
    s2 := s1.(pc := s1.pc[2 := ReadWaiting(1)]);
  }

  /** Each thread takes a mutex. */
  lemma TwoWriters() returns (states: seq<State>, actions: seq<Action>, s: State)
    ensures Run(states, actions) && s == states[|states| - 1]
    ensures TwoRunning(s, [1], [2]) && s.state == map[1 := -1, 2 := -1] && s.readers == map[]
    ensures Holds(s.writer, 1, 1) && Holds(s.writer, 2, 2)
  {
    var s1;
    var s0 := Start();
    states, actions, s1 := TakesFirst([s0], [], s0, 1, 1);
    states, actions, s := TakesFirst(states, actions, s1, 2, 2);
  }

  /**
   Each of two threads holds a mutex and waits in mutex_read_lock, where nothing is checked,
   for the mutex of the other. Nobody can move, and no mutex is held for reading.
   */
  lemma ReadLockDeadlock() returns (states: seq<State>, actions: seq<Action>, last: State)
    ensures Run(states, actions) && last == states[|states| - 1]
    ensures DeadPair(last) && !GetsMutex(states, actions, 1) && !GetsMutex(states, actions, 2)
    ensures ReadersMove(last) && WritesSome(last, 1) && Blocked(last, 1) && last.pc[1].ReadWaiting?
  {
    var s, s1;
    states, actions, s := TwoWriters();
    s1, last := BothReadLock(s);
    states, actions := Continue(states, actions, ReadLock(1, 2), s1);
    states, actions := Continue(states, actions, ReadLock(2, 1), last);
    PairStuck(last);
    PairWaitsForever(states, actions);
  }
}
