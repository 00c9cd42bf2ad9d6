/**
 Threads that allocate page tables from the shared pool: whole runs of core/mm/pgt_cache.c. A
 step is what a thread does while it holds pgt_mu.
*/
module PgtSystem {
  import opened Options
  import opened PgtCache

  type Tid = nat

  /** A thread asleep on pgt_cv inside pgt_alloc, woken once pgt_cv has been broadcast. */
  datatype Waiter = Waiter(ctx: Ctx, begin: nat, last: nat, woken: bool)

  datatype State = State(pool: Pool, lists: map<Tid, seq<Pgt>>, waiting: map<Tid, Waiter>)

  datatype Action =
    | Alloc(t: Tid, ctx: Ctx, begin: nat, last: nat, ok: bool)
    | Retry(t: Tid, ok: bool)
    | Free(t: Tid, save: bool)
    | FlushCtx(t: Tid, ctx: Ctx)
    | FlushRange(t: Tid, ctx: Ctx, begin: nat, last: nat)
    | Use(t: Tid)

  function Broadcast(waiting: map<Tid, Waiter>): map<Tid, Waiter> {
    map t | t in waiting :: waiting[t].(woken := true)
  }

  /** The pager changes how many entries of the tables are in use, and nothing else. */
  predicate SameButUsed(s: seq<Pgt>, s': seq<Pgt>) {
    |s'| == |s| && forall i :: 0 <= i < |s| ==> s'[i] == s[i].(used := s'[i].used)
  }

  /** After an attempt of thread t from pool: it has its tables or goes to sleep, after a broadcast. */
  ghost predicate AfterAttempt(pool: Pool, s: State, t: Tid, w: Waiter, ok: bool, s': State) {
    && t in s'.lists
    && Attempted(pool, s'.pool, w.ctx, w.begin, w.last, ok, s'.lists[t])
    && s'.lists == s.lists[t := s'.lists[t]]
    && s'.waiting == if ok then s.waiting - {t} else Broadcast(s.waiting)[t := w.(woken := false)]
  }

  ghost predicate Step(s: State, a: Action, s': State) {
    a.t in s.lists &&
    match a
    case Alloc(t, ctx, begin, last, ok) =>
      t !in s.waiting && AfterAttempt(FreeAll(s.lists[t], true, s.pool), s, t, Waiter(ctx, begin, last, false), ok, s')
    case Retry(t, ok) =>
      t in s.waiting && s.waiting[t].woken && AfterAttempt(s.pool, s, t, s.waiting[t], ok, s')
    case Free(t, save) =>
      && t !in s.waiting && s.lists[t] != []
      && s' == State(FreeAll(s.lists[t], save, s.pool), s.lists[t := []], Broadcast(s.waiting))
    case FlushCtx(t, ctx) =>
      s' == s.(pool := Flushed(s.pool.cache, Whole(ctx), s.pool.(cache := Misses(s.pool.cache, Whole(ctx)))))
    case FlushRange(t, ctx, begin, last) =>
      var g := Part(ctx, begin, last);
      var pool := Flushed(s.lists[t], g, s.pool);
      && t !in s.waiting
      && s' == State(Flushed(pool.cache, g, pool.(cache := Misses(pool.cache, g))),
        s.lists[t := Misses(s.lists[t], g)], Broadcast(s.waiting))
    case Use(t) =>
      && t in s'.lists && SameButUsed(s.lists[t], s'.lists[t]) && SameButUsed(s.pool.cache, s'.pool.cache)
      && s' == s.(pool := s.pool.(cache := s'.pool.cache), lists := s.lists[t := s'.lists[t]])
  }

  ghost predicate Init(s: State, n: nat) {
    && s.pool.cache == [] && |s.pool.free| == n &&
      (forall i :: 0 <= i < n ==> s.pool.free[i] == Pgt(n - 1 - i, None, 0, 0))
    && s.waiting == map[] && forall t :: t in s.lists ==> s.lists[t] == []
  }

  ghost predicate Run(states: seq<State>, actions: seq<Action>, n: nat) {
    && |states| == |actions| + 1 && Init(states[0], n)
    && forall i {:trigger actions[i]} :: 0 <= i < |actions| ==> Step(states[i], actions[i], states[i + 1])
  }

  // ---------- conservation ----------

  function InPool(s: State, id: nat): nat {
    PoolIds(s.pool)[id]
  }

  function Held(s: State, t: Tid, id: nat): nat {
    if t in s.lists then Ids(s.lists[t])[id] else 0
  }

  /** Entry id is once in the pool and on no list. */
  ghost predicate OnlyInPool(s: State, id: nat) {
    InPool(s, id) == 1 && forall t :: Held(s, t, id) == 0
  }

  /** Entry id is once on the list of thread t and nowhere else. */
  ghost predicate OnlyAt(s: State, t: Tid, id: nat) {
    InPool(s, id) == 0 && Held(s, t, id) == 1 && forall u :: u != t ==> Held(s, u, id) == 0
  }

  ghost predicate InOnePlace(s: State, id: nat) {
    OnlyInPool(s, id) || exists t :: OnlyAt(s, t, id)
  }

  ghost predicate Nowhere(s: State, id: nat) {
    InPool(s, id) == 0 && forall t :: Held(s, t, id) == 0
  }

  ghost predicate Inv(s: State, n: nat) {
    && AllClean(s.pool.free)
    && (forall id: nat :: id < n ==> InOnePlace(s, id))
    && (forall id: nat :: id >= n ==> Nowhere(s, id))
    && WaitersEmpty(s)
  }

  /** The step moves entries between the pool and the list of thread t. */
  ghost predicate Local(s: State, s': State, t: Tid) {
    && t in s.lists && t in s'.lists && s'.lists == s.lists[t := s'.lists[t]]
    && PoolIds(s'.pool) + Ids(s'.lists[t]) == PoolIds(s.pool) + Ids(s.lists[t])
  }

  lemma LocalCounts(s: State, s': State, t: Tid, id: nat)
    requires Local(s, s', t)
    ensures InPool(s', id) + Held(s', t, id) == InPool(s, id) + Held(s, t, id)
    ensures forall u :: u != t ==> Held(s', u, id) == Held(s, u, id)
  {
    assert (PoolIds(s'.pool) + Ids(s'.lists[t]))[id] == (PoolIds(s.pool) + Ids(s.lists[t]))[id];
  }

  lemma CountsKeep(s: State, s': State, t: Tid, id: nat)
    requires InPool(s', id) + Held(s', t, id) == InPool(s, id) + Held(s, t, id)
    requires forall u :: u != t ==> Held(s', u, id) == Held(s, u, id)
    ensures InOnePlace(s, id) ==> InOnePlace(s', id)
    ensures Nowhere(s, id) ==> Nowhere(s', id)
  {
    if OnlyInPool(s, id) || OnlyAt(s, t, id) {
      assert OnlyInPool(s', id) || OnlyAt(s', t, id);
    } else if u :| OnlyAt(s, u, id) {
      assert OnlyAt(s', u, id);
    }
  }

  lemma LocalKeeps(s: State, s': State, t: Tid, id: nat)
    requires Local(s, s', t)
    ensures InOnePlace(s, id) ==> InOnePlace(s', id)
    ensures Nowhere(s, id) ==> Nowhere(s', id)
  {
    LocalCounts(s, s', t, id);
    CountsKeep(s, s', t, id);
  }

  lemma {:induction false} UsedIds(s: seq<Pgt>, s': seq<Pgt>)
    requires SameButUsed(s, s')
    ensures Ids(s') == Ids(s)
  {
    if s != [] {
      UsedIds(s[1..], s'[1..]);
    }
  }

  /** Threads asleep hold nothing, so an attempt starts with an empty list. */
  predicate WaitersEmpty(s: State) {
    forall t :: t in s.waiting ==> t in s.lists && s.lists[t] == [] && s.waiting[t].begin < s.waiting[t].last
  }

  lemma AttemptIsLocal(s: State, a: Action, s': State)
    requires (a.Alloc? || a.Retry?) && Step(s, a, s') && WaitersEmpty(s) && AllClean(s.pool.free)
    ensures Local(s, s', a.t) && AllClean(s'.pool.free) && WaitersEmpty(s')
  {
    if a.Alloc? {
      FreeAllConserves(s.lists[a.t], true, s.pool);
    }
  }

  lemma FlushIsLocal(s: State, a: Action, s': State)
    requires (a.FlushCtx? || a.FlushRange?) && Step(s, a, s') && WaitersEmpty(s) && AllClean(s.pool.free)
    ensures Local(s, s', a.t) && AllClean(s'.pool.free) && WaitersEmpty(s')
  {
    if a.FlushCtx? {
      FlushedCache(Whole(a.ctx), s.pool);
      assert s.lists == s.lists[a.t := s.lists[a.t]];
    } else {
      var g := Part(a.ctx, a.begin, a.last);
      FlushedList(s.lists[a.t], g, s.pool);
      FlushedCache(g, Flushed(s.lists[a.t], g, s.pool));
    }
  }

  lemma FreeIsLocal(s: State, a: Action, s': State)
    requires a.Free? && Step(s, a, s') && WaitersEmpty(s) && AllClean(s.pool.free)
    ensures Local(s, s', a.t) && AllClean(s'.pool.free) && WaitersEmpty(s')
  {
    FreeAllConserves(s.lists[a.t], a.save, s.pool);
  }

  lemma UseIsLocal(s: State, a: Action, s': State)
    requires a.Use? && Step(s, a, s') && WaitersEmpty(s) && AllClean(s.pool.free)
    ensures Local(s, s', a.t) && AllClean(s'.pool.free) && WaitersEmpty(s')
  {
    UsedIds(s.lists[a.t], s'.lists[a.t]);
    UsedIds(s.pool.cache, s'.pool.cache);
  }

  lemma StepKeepsInv(s: State, a: Action, s': State, n: nat)
    requires Inv(s, n) && Step(s, a, s')
    ensures Inv(s', n)
  {
    match a {
      case Alloc(_, _, _, _, _) => AttemptIsLocal(s, a, s');
      case Retry(_, _) => AttemptIsLocal(s, a, s');
      case Free(_, _) => FreeIsLocal(s, a, s');
      case FlushCtx(_, _) => FlushIsLocal(s, a, s');
      case FlushRange(_, _, _, _) => FlushIsLocal(s, a, s');
      case Use(_) => UseIsLocal(s, a, s');
    }
    forall id: nat
      ensures id < n ==> InOnePlace(s', id)
      ensures id >= n ==> Nowhere(s', id)
    {
      LocalKeeps(s, s', a.t, id);
    }
  }

  lemma {:induction false} InitIds(free: seq<Pgt>, n: nat, id: nat)
    requires |free| == n && forall i :: 0 <= i < n ==> free[i].id == n - 1 - i
    ensures Ids(free)[id] == if id < n then 1 else 0
  {
    if n > 0 {
      InitIds(free[1..], n - 1, id);
    }
  }

  lemma InitInv(s: State, n: nat)
    requires Init(s, n)
    ensures Inv(s, n)
  {
    forall id: nat
      ensures InPool(s, id) == if id < n then 1 else 0
      ensures forall t :: Held(s, t, id) == 0
    {
      InitIds(s.pool.free, n, id);
    }
    assert forall id: nat :: id < n ==> OnlyInPool(s, id);
  }

  lemma {:induction false} RunKeepsInv(states: seq<State>, actions: seq<Action>, n: nat, i: nat)
    requires Run(states, actions, n) && i < |states|
    ensures Inv(states[i], n)
  {
    if i == 0 {
      InitInv(states[0], n);
    } else {
      RunKeepsInv(states, actions, n, i - 1);
      StepKeepsInv(states[i - 1], actions[i - 1], states[i], n);
    }
  }

  // ---------- no hold and wait ----------

  /** In every reachable state each of the n entries is in exactly one place, and a thread that waits has none. */
  lemma Conservation(states: seq<State>, actions: seq<Action>, n: nat, i: nat, id: nat, t: Tid)
    requires Run(states, actions, n) && i < |states|
    ensures if id < n then InOnePlace(states[i], id) else Nowhere(states[i], id)
    ensures t in states[i].waiting ==> Held(states[i], t, id) == 0
  {
    RunKeepsInv(states, actions, n, i);
  }

  function UpTo(n: nat): (m: multiset<nat>)
    ensures |m| == n && forall id: nat :: m[id] == if id < n then 1 else 0
  {
    if n == 0 then multiset{} else UpTo(n - 1) + multiset{n - 1}
  }

  lemma {:induction false} IdsSize(s: seq<Pgt>)
    ensures |Ids(s)| == |s|
  {
    if s != [] {
      IdsSize(s[1..]);
    }
  }

  /** When no thread has tables, the whole pool is available. */
  lemma PoolComplete(s: State, n: nat)
    requires Inv(s, n) && forall t :: t in s.lists ==> s.lists[t] == []
    ensures Avail(s.pool) == n
  {
    forall id: nat
      ensures PoolIds(s.pool)[id] == UpTo(n)[id]
    {
      if id < n {
        assert InOnePlace(s, id) && forall t :: Held(s, t, id) == 0;
      } else {
        assert Nowhere(s, id) && InPool(s, id) == 0;
      }
    }
    assert PoolIds(s.pool) == UpTo(n);
    IdsSize(s.pool.free);
    IdsSize(s.pool.cache);
  }

  /** Once all other threads have freed their tables, the next attempt of a waiter for at most n tables succeeds. */
  lemma WaiterSucceeds(states: seq<State>, actions: seq<Action>, n: nat, i: nat, t: Tid, ok: bool)
    requires Run(states, actions, n) && i < |actions| && actions[i] == Retry(t, ok)
    requires forall u :: u in states[i].lists && u !in states[i].waiting ==> states[i].lists[u] == []
    requires t in states[i].waiting && states[i].waiting[t].begin < states[i].waiting[t].last
    requires NumTables(states[i].waiting[t].begin, states[i].waiting[t].last) <= n
    ensures ok && t !in states[i + 1].waiting
  {
    RunKeepsInv(states, actions, n, i);
    PoolComplete(states[i], n);
    assert Step(states[i], actions[i], states[i + 1]);
  }

  // ---------- whose tables a thread has ----------

  /** What thread t asks for in an attempt. */
  function Request(s: State, a: Action): Waiter
    requires a.Alloc? || (a.Retry? && a.t in s.waiting)
  {
    if a.Alloc? then Waiter(a.ctx, a.begin, a.last, false) else s.waiting[a.t]
  }

  predicate Succeeds(s: State, a: Action, t: Tid) {
    a.t == t && ((a.Alloc? && a.ok) || (a.Retry? && a.ok && t in s.waiting))
  }

  /** After a successful attempt the thread has the tables of its range, all with the tag of its context. */
  lemma AttemptTags(states: seq<State>, actions: seq<Action>, n: nat, i: nat, t: Tid)
    requires Run(states, actions, n) && i < |actions| && Succeeds(states[i], actions[i], t)
    ensures t in states[i + 1].lists
    ensures var w := Request(states[i], actions[i]); Tagged(states[i + 1].lists[t], w.ctx, w.begin, w.last)
  {
    assert Step(states[i], actions[i], states[i + 1]);
    var w := Request(states[i], actions[i]);
    TablesTagged(states[i + 1].lists[t], w.ctx, w.begin, w.last);
  }

  /** Every table of the list has the tag of w's context and is for a directory that its range touches. */
  predicate For(list: seq<Pgt>, w: Waiter) {
    forall p :: p in list ==> p.ctx == Some(w.ctx) && w.begin < p.vabase + 0x20_0000 && p.vabase <= w.last
  }

  lemma TaggedFor(list: seq<Pgt>, w: Waiter)
    requires w.begin <= w.last && Tagged(list, w.ctx, w.begin, w.last)
    ensures For(list, w)
  {
    forall p | p in list
      ensures p.ctx == Some(w.ctx) && w.begin < p.vabase + PGDIR && p.vabase <= w.last
    {
      var i :| 0 <= i < |list| && list[i] == p;
      var d := w.begin / PGDIR;
      assert p.vabase == (d + i) * PGDIR && d + i <= w.last / PGDIR;
    }
  }

  /** A step that is no attempt leaves on a thread's list only tables that it had. */
  lemma ListShrinks(s: State, a: Action, s': State, t: Tid, w: Waiter)
    requires Step(s, a, s') && t in s'.lists && s'.lists[t] != [] && !Succeeds(s, a, t)
    ensures t in s.lists && s.lists[t] != []
    ensures For(s.lists[t], w) ==> For(s'.lists[t], w)
  {
    match a {
      case Alloc(_, _, _, _, _) =>
      case Retry(_, _) =>
      case Free(_, _) =>
      case FlushCtx(_, _) =>
      case FlushRange(u, ctx, begin, last) => MissesKept(s.lists[u], Part(ctx, begin, last));
      case Use(u) =>
        if u == t {
          UsedFor(s.lists[t], s'.lists[t], w);
        }
    }
  }

  lemma UsedFor(s: seq<Pgt>, s': seq<Pgt>, w: Waiter)
    requires SameButUsed(s, s')
    ensures For(s, w) ==> For(s', w)
  {
    if For(s, w) {
      forall p | p in s'
        ensures p.ctx == Some(w.ctx) && w.begin < p.vabase + PGDIR && p.vabase <= w.last
      {
        var i :| 0 <= i < |s'| && s'[i] == p;
        assert s[i] in s;
      }
    }
  }

  /**
   In every reachable state the tables that a thread has are those of one successful attempt of
   its own: they carry its context and belong to its range, whatever others allocate, cache or flush.
  */
  lemma {:induction false} OwnTables(states: seq<State>, actions: seq<Action>, n: nat, i: nat, t: Tid)
    returns (k: nat)
    requires Run(states, actions, n) && i < |states| && t in states[i].lists && states[i].lists[t] != []
    ensures k < i && Succeeds(states[k], actions[k], t)
    ensures For(states[i].lists[t], Request(states[k], actions[k]))
  {
    var j: nat := i - 1;
    assert Step(states[j], actions[j], states[j + 1]);
    if Succeeds(states[j], actions[j], t) {
      k := j;
      AttemptTags(states, actions, n, j, t);
      TaggedFor(states[i].lists[t], Request(states[j], actions[j]));
    } else {
      ListShrinks(states[j], actions[j], states[i], t, Waiter(0, 0, 0, false));
      k := OwnTables(states, actions, n, j, t);
      ListShrinks(states[j], actions[j], states[i], t, Request(states[k], actions[k]));
    }
  }

  // ---------- whom a broadcast may miss ----------

  function Need(w: Waiter): nat {
    if w.begin < w.last then NumTables(w.begin, w.last) else 0
  }

  /** Every thread that sleeps on needs more tables than there are. */
  predicate SleepersStarved(s: State) {
    forall t :: t in s.waiting && !s.waiting[t].woken ==> Need(s.waiting[t]) > Avail(s.pool)
  }

  /** An allocation that succeeds at once although the thread gives back more tables than it gets. */
  predicate Shrinks(s: State, a: Action) {
    a.Alloc? && a.ok && a.t in s.lists && Need(Waiter(a.ctx, a.begin, a.last, false)) < |s.lists[a.t]|
  }

  lemma SleepersStay(s: State, a: Action, s': State)
    requires WaitersEmpty(s) && SleepersStarved(s) && Step(s, a, s') && !Shrinks(s, a)
    ensures SleepersStarved(s')
  {
    match a {
      case Alloc(t, _, _, _, _) => FreeAllConserves(s.lists[t], true, s.pool);
      case Retry(_, _) =>
      case Free(_, _) =>
      case FlushCtx(_, ctx) => FlushedCache(Whole(ctx), s.pool);
      case FlushRange(_, _, _, _) =>
      case Use(_) =>
    }
  }

  /**
   Unless an allocation shrinks, nobody sleeps who could be served: free, failed attempts and
   range flushes broadcast, and the other steps add no tables.
  */
  lemma {:induction false} NobodyForgotten(states: seq<State>, actions: seq<Action>, n: nat, i: nat)
    requires Run(states, actions, n) && i < |states|
    requires forall k :: 0 <= k < i ==> !Shrinks(states[k], actions[k])
    ensures SleepersStarved(states[i])
  {
    if i > 0 {
      NobodyForgotten(states, actions, n, i - 1);
      RunKeepsInv(states, actions, n, i - 1);
      SleepersStay(states[i - 1], actions[i - 1], states[i]);
    }
  }

  /** What exactly a shrinking allocation leaves behind. */
  lemma ShrinkForgets(s: State, a: Action, s': State)
    requires Step(s, a, s') && a.Alloc? && a.ok
    ensures SleepersStarved(s') <==>
      forall u :: u in s.waiting && !s.waiting[u].woken ==>
        Need(s.waiting[u]) > Avail(s.pool) + |s.lists[a.t]| - Need(Waiter(a.ctx, a.begin, a.last, false))
  {
    FreeAllConserves(s.lists[a.t], true, s.pool);
    assert s'.waiting == s.waiting;
  }

  predicate Sleeps(s: State, u: Tid) {
    u in s.waiting && !s.waiting[u].woken
  }

  /**
   The same before the call, where u sleeps with the least need of all: a sleeper can be served
   afterwards iff the pool and what the thread gives back exceed what it takes by that need. If
   nobody could be served before, the thread gives back more tables than it takes.
   */
  lemma ShrinkForgetsBefore(s: State, a: Action, s': State, u: Tid)
    requires Step(s, a, s') && a.Alloc? && a.ok
    requires Sleeps(s, u) && forall v :: Sleeps(s, v) ==> Need(s.waiting[u]) <= Need(s.waiting[v])
    ensures !SleepersStarved(s') <==>
      Need(Waiter(a.ctx, a.begin, a.last, false)) + Need(s.waiting[u]) <= Avail(s.pool) + |s.lists[a.t]|
    ensures SleepersStarved(s) && !SleepersStarved(s') ==> Shrinks(s, a)
  {
    ShrinkForgets(s, a, s');
    assert forall v :: Sleeps(s, v) <==> v in s.waiting && !s.waiting[v].woken;
  }

  /** The two entries of a small pool, unused or with the tables of a context. */
  function Entry(id: nat, ctx: Option<Ctx>, vabase: nat): Pgt {
    Pgt(id, ctx, vabase, 0)
  }

  /** Two tables: thread 1 takes both, thread 2 asks for one and sleeps, thread 1 now needs only one. */
  function Forgetting(i: nat): State {
    var both := [Entry(1, Some(7), 0), Entry(0, Some(7), PGDIR)];
    var w := Waiter(8, 0, 1, false);
    if i == 0 then State(Pool([Entry(1, None, 0), Entry(0, None, 0)], []), map[1 := [], 2 := []], map[])
    else if i == 1 then State(Pool([], []), map[1 := both, 2 := []], map[])
    else if i == 2 then State(Pool([], []), map[1 := both, 2 := []], map[2 := w])
    else State(Pool([Entry(1, None, 0)], []), map[1 := [Entry(0, Some(7), 0)], 2 := []], map[2 := w])
  }

  lemma FirstTakesBoth()
    ensures Step(Forgetting(0), Alloc(1, 7, 0, PGDIR, true), Forgetting(1))
  {
    var s, s' := Forgetting(0), Forgetting(1);
    TwoIds(s.pool.free[0], s.pool.free[1]);
    TwoIds(s'.lists[1][0], s'.lists[1][1]);
    assert FreeAll([], true, s.pool) == s.pool;
    assert s'.lists == s.lists[1 := s'.lists[1]];
  }

  lemma SecondSleeps()
    ensures Step(Forgetting(1), Alloc(2, 8, 0, 1, false), Forgetting(2))
  {
    var s, s' := Forgetting(1), Forgetting(2);
    assert FreeAll([], true, s.pool) == s.pool;
    assert s'.lists == s.lists[2 := []];
  }

  lemma FirstShrinks()
    ensures Step(Forgetting(2), Alloc(1, 7, 0, 1, true), Forgetting(3))
  {
    var s, s' := Forgetting(2), Forgetting(3);
    FreeBoth(s.lists[1]);
    TwoIds(Entry(0, None, 0), Entry(1, None, 0));
    TwoIds(s'.lists[1][0], s'.pool.free[0]);
    assert s'.lists == s.lists[1 := s'.lists[1]];
  }

  lemma SleeperForgotten() returns (states: seq<State>, actions: seq<Action>)
    ensures Run(states, actions, 2) && !SleepersStarved(states[|states| - 1])
  {
    states := seq(4, i requires 0 <= i < 4 => Forgetting(i));
    actions := seq(3, i requires 0 <= i < 3 => ForgettingAction(i));
    FirstTakesBoth();
    SecondSleeps();
    FirstShrinks();
    forall i | 0 <= i < 3
      ensures Step(states[i], actions[i], states[i + 1])
    {
      assert i == 0 || i == 1 || i == 2;
    }
    var w := Forgetting(3).waiting[2];
    assert Need(w) == 1 && !w.woken && Avail(Forgetting(3).pool) == 1;
  }

  function ForgettingAction(i: nat): Action {
    if i == 0 then Alloc(1, 7, 0, PGDIR, true) else if i == 1 then Alloc(2, 8, 0, 1, false) else Alloc(1, 7, 0, 1, true)
  }

  lemma TwoIds(p: Pgt, q: Pgt)
    ensures Ids([p, q]) == multiset{p.id, q.id} && Ids([p]) == multiset{p.id} && Ids([q]) == multiset{q.id}
  {
    IdsCons(q, []);
    IdsCons(p, []);
    IdsCons(p, [q]);
    assert [p] + [] == [p] && [q] + [] == [q] && [p] + [q] == [p, q];
  }

  lemma FreeBoth(list: seq<Pgt>)
    requires |list| == 2 && list[0].used == 0 && list[1].used == 0
    ensures FreeAll(list, true, Pool([], [])) == Pool([Clean(list[1]), Clean(list[0])], [])
  {
    var rest := list[1..];
    var pool := Pool([Clean(list[0])], []);
    assert Push(Pool([], []), list[0], true) == pool;
    assert FreeAll(list, true, Pool([], [])) == FreeAll(rest, true, pool);
    assert FreeAll(rest, true, pool) == FreeAll(rest[1..], true, Pool([Clean(list[1]), Clean(list[0])], []));
    assert rest[1..] == [];
  }
}
