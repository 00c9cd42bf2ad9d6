/** The page table cache with paged user TAs, core/mm/pgt_cache.c. */
module PgtCache {
  import opened Options

  type Ctx = nat

  /** struct pgt; id is the entry's place in pgt_entries. */
  datatype Pgt = Pgt(id: nat, ctx: Option<Ctx>, vabase: nat, used: nat)

  /** CORE_MMU_PGDIR_SIZE with LPAE, and the size of a small page. */
  const PGDIR: nat := 0x20_0000
  const SMALL_PAGE: nat := 0x1000

  /** tee_pager_pgt_save_and_release_entries and the reset of the other fields. */
  function Clean(p: Pgt): Pgt {
    Pgt(p.id, None, 0, 0)
  }

  predicate AllClean(free: seq<Pgt>) {
    forall p :: p in free ==> p == Clean(p)
  }

  predicate Matches(p: Pgt, vabase: nat, ctx: Ctx) {
    p.ctx == Some(ctx) && p.vabase == vabase
  }

  /** The entries of a list. */
  function Ids(s: seq<Pgt>): multiset<nat> {
    if s == [] then multiset{} else multiset{s[0].id} + Ids(s[1..])
  }

  lemma {:induction false} IdsConcat(a: seq<Pgt>, b: seq<Pgt>)
    ensures Ids(a + b) == Ids(a) + Ids(b)
  {
    if a == [] {
      assert a + b == b;
    } else {
      assert (a + b)[1..] == a[1..] + b;
      IdsConcat(a[1..], b);
    }
  }

  /** s without its element k. */
  function Without(s: seq<Pgt>, k: nat): seq<Pgt>
    requires k < |s|
  {
    s[..k] + s[k + 1..]
  }

  lemma IdsWithout(s: seq<Pgt>, k: nat)
    requires k < |s|
    ensures Ids(s) == Ids(Without(s, k)) + multiset{s[k].id}
  {
    SplitOne(s, k);
    IdsConcat(s[..k], [s[k]] + s[k + 1..]);
    IdsCons(s[k], s[k + 1..]);
    IdsConcat(s[..k], s[k + 1..]);
  }

  lemma SplitOne(s: seq<Pgt>, k: nat)
    requires k < |s|
    ensures s == s[..k] + ([s[k]] + s[k + 1..])
  {
  }

  /** The pool: the free list and the list of cached tables. */
  datatype Pool = Pool(free: seq<Pgt>, cache: seq<Pgt>)

  function Avail(pool: Pool): nat {
    |pool.free| + |pool.cache|
  }

  function PoolIds(pool: Pool): multiset<nat> {
    Ids(pool.free) + Ids(pool.cache)
  }

  /** One entry given back: push_to_cache_list or push_to_free_list. */
  function Push(pool: Pool, p: Pgt, save: bool): Pool {
    if save && p.used > 0 then pool.(cache := [p] + pool.cache) else pool.(free := [Clean(p)] + pool.free)
  }

  lemma PushConserves(pool: Pool, p: Pgt, save: bool)
    ensures PoolIds(Push(pool, p, save)) == PoolIds(pool) + multiset{p.id} &&
      Avail(Push(pool, p, save)) == Avail(pool) + 1
    ensures AllClean(pool.free) ==> AllClean(Push(pool, p, save).free)
  {
    IdsConcat([p], pool.cache);
    IdsConcat([Clean(p)], pool.free);
  }

  /** The entries of a list given back one by one, from the head on. */
  function FreeAll(list: seq<Pgt>, save: bool, pool: Pool): Pool {
    if list == [] then pool else FreeAll(list[1..], save, Push(pool, list[0], save))
  }

  /** Freeing a list moves each of its entries to the pool once. */
  lemma {:induction false} FreeAllConserves(list: seq<Pgt>, save: bool, pool: Pool)
    ensures PoolIds(FreeAll(list, save, pool)) == PoolIds(pool) + Ids(list)
    ensures Avail(FreeAll(list, save, pool)) == Avail(pool) + |list|
    ensures AllClean(pool.free) ==> AllClean(FreeAll(list, save, pool).free)
  {
    if list != [] {
      FreeAllConserves(list[1..], save, Push(pool, list[0], save));
      PushConserves(pool, list[0], save);
    }
  }

  /** Exactly the entries with pages in use are cached, and only if the context is to be saved. */
  lemma {:induction false} FreeAllSaves(list: seq<Pgt>, save: bool, pool: Pool)
    ensures forall p :: p in FreeAll(list, save, pool).cache <==> p in pool.cache || (save && p in list && p.used > 0)
  {
    if list != [] {
      FreeAllSaves(list[1..], save, Push(pool, list[0], save));
    }
  }

  /**
   The element that pop_least_used_from_cache_list takes: the last of the least used, or the
   first if that is unused.
  */
  predicate LeastUsed(cache: seq<Pgt>, k: nat) {
    && k < |cache|
    && (forall j :: 0 <= j < |cache| ==> cache[k].used <= cache[j].used)
    && (if cache[0].used == 0 then k == 0 else forall j :: k < j < |cache| ==> cache[k].used < cache[j].used)
  }

  /** The k tables for the directories from base on. */
  predicate Tables(list: seq<Pgt>, k: nat, ctx: Ctx, base: nat) {
    |list| == k && forall i :: 0 <= i < k ==> Matches(list[i], base + i * PGDIR, ctx)
  }

  function Base(begin: nat): nat {
    begin - begin % PGDIR
  }

  function NumTables(begin: nat, last: nat): nat
    requires begin <= last
  {
    (last - Base(begin)) / PGDIR + 1
  }

  /** The tables asked for are those of the directories that the range touches. */
  lemma TablesCover(begin: nat, last: nat, addr: nat)
    requires begin <= last
    ensures (exists i: nat ::
              i < NumTables(begin, last) && Base(begin) + i * PGDIR <= addr < Base(begin) + (i + 1) * PGDIR)
      <==> Base(begin) <= addr < Base(last) + PGDIR
  {
    var d, e, f := begin / PGDIR, last / PGDIR, addr / PGDIR;
    DirectoryCount(begin, last);
    assert Base(begin) == d * PGDIR && Base(last) == e * PGDIR && f * PGDIR <= addr < f * PGDIR + PGDIR;
    if d <= f <= e {
      var i: nat := f - d;
      assert Base(begin) + i * PGDIR == f * PGDIR && Base(begin) + (i + 1) * PGDIR == f * PGDIR + PGDIR;
    }
  }

  /** One entry taken from the pool for directory vabase of ctx. */
  ghost predicate Taken(pool: Pool, pool': Pool, p: Pgt, vabase: nat, ctx: Ctx) {
    && Matches(p, vabase, ctx)
    && PoolIds(pool) == PoolIds(pool') + multiset{p.id} && Avail(pool) == Avail(pool') + 1
    && (if exists q :: q in pool.cache && Matches(q, vabase, ctx)
        then p in pool.cache && pool'.free == pool.free
        else p.used == 0)
    && (AllClean(pool.free) ==> AllClean(pool'.free))
  }

  /**
   Where a table comes from, on the fields: a cached one with this tag if there is one, else the
   first free one, else the least used of the cache; these two have no pages in use.
  */
  ghost predicate Chosen(free: seq<Pgt>, cache: seq<Pgt>, free': seq<Pgt>, cache': seq<Pgt>, p: Pgt,
                         vabase: nat, ctx: Ctx) {
    if exists q :: q in cache && q.ctx == Some(ctx) && q.vabase == vabase then
      free' == free && exists k: nat :: k < |cache| && p == cache[k] && cache' == Without(cache, k)
    else if free != [] then
      p == Pgt(free[0].id, Some(ctx), vabase, 0) && free' == free[1..] && cache' == cache
    else
      free' == free &&
      exists k: nat :: LeastUsed(cache, k) && p == Pgt(cache[k].id, Some(ctx), vabase, 0) && cache' == Without(cache, k)
  }

  /** From pool to pool' and list: every entry is still there, once. */
  ghost predicate Moved(pool: Pool, pool': Pool, list: seq<Pgt>) {
    PoolIds(pool') + Ids(list) == PoolIds(pool) && Avail(pool') + |list| == Avail(pool)
  }

  lemma MovedNext(pool: Pool, pool': Pool, pool'': Pool, list: seq<Pgt>, p: Pgt, vabase: nat, ctx: Ctx)
    requires Moved(pool, pool', list) && Taken(pool', pool'', p, vabase, ctx)
    ensures Moved(pool, pool'', list + [p])
  {
    IdsConcat(list, [p]);
  }

  lemma MovedBack(pool: Pool, pool': Pool, list: seq<Pgt>, save: bool)
    requires Moved(pool, pool', list)
    ensures Moved(pool, FreeAll(list, save, pool'), [])
  {
    FreeAllConserves(list, save, pool');
  }

  lemma TablesNext(list: seq<Pgt>, n: nat, ctx: Ctx, base: nat, p: Pgt)
    requires Tables(list, n, ctx, base) && Matches(p, base + n * PGDIR, ctx)
    ensures Tables(list + [p], n + 1, ctx, base)
  {
  }

  /** An attempt to get the tables of a range for a thread without any: all in order, or none. */
  ghost predicate Attempted(pool: Pool, pool': Pool, ctx: Ctx, begin: nat, last: nat, ok: bool, list: seq<Pgt>) {
    && begin < last
    && (ok <==> NumTables(begin, last) <= Avail(pool))
    && (if ok then Tables(list, NumTables(begin, last), ctx, Base(begin)) else list == [])
    && Moved(pool, pool', list) && (AllClean(pool.free) ==> AllClean(pool'.free))
  }

  /** The tables of an attempt on their fields: one for each directory from that of begin to that of last. */
  ghost predicate Tagged(list: seq<Pgt>, ctx: Ctx, begin: nat, last: nat) {
    |list| == last / 0x20_0000 - begin / 0x20_0000 + 1
    && forall i :: 0 <= i < |list| ==>
      list[i].ctx == Some(ctx) && list[i].vabase == (begin / 0x20_0000 + i) * 0x20_0000
  }

  lemma TablesTagged(list: seq<Pgt>, ctx: Ctx, begin: nat, last: nat)
    requires begin <= last && Tables(list, NumTables(begin, last), ctx, Base(begin))
    ensures Tagged(list, ctx, begin, last)
  {
    DirectoryCount(begin, last);
    forall i | 0 <= i < |list|
      ensures list[i].ctx == Some(ctx) && list[i].vabase == (begin / PGDIR + i) * PGDIR
    {
      assert Matches(list[i], Base(begin) + i * PGDIR, ctx);
    }
  }

  lemma DirectoryCount(begin: nat, last: nat)
    requires begin <= last
    ensures Base(begin) == begin / PGDIR * PGDIR && NumTables(begin, last) == last / PGDIR - begin / PGDIR + 1
  {
  }

  // ---------- flushing ----------

  /** What to flush: all tables of a context, or those of an address range. */
  datatype Target = Whole(ctx: Ctx) | Part(ctx: Ctx, begin: nat, last: nat)

  /** pgt_entry_matches for a range. */
  predicate Hit(g: Target, p: Pgt) {
    p.ctx == Some(g.ctx) && (g.Whole? || (g.begin < g.last && g.begin <= p.vabase && p.vabase + SMALL_PAGE <= g.last))
  }

  /** The entries of s that are hit, and the others. */
  function Hits(s: seq<Pgt>, g: Target): seq<Pgt> {
    if s == [] then [] else if Hit(g, s[0]) then [s[0]] + Hits(s[1..], g) else Hits(s[1..], g)
  }

  function Misses(s: seq<Pgt>, g: Target): seq<Pgt> {
    if s == [] then [] else if Hit(g, s[0]) then Misses(s[1..], g) else [s[0]] + Misses(s[1..], g)
  }

  lemma {:induction false} HitsAndMisses(s: seq<Pgt>, g: Target)
    ensures Ids(s) == Ids(Hits(s, g)) + Ids(Misses(s, g)) && |s| == |Hits(s, g)| + |Misses(s, g)|
  {
    if s != [] {
      HitsAndMisses(s[1..], g);
      IdsCons(s[0], Hits(s[1..], g));
      IdsCons(s[0], Misses(s[1..], g));
    }
  }

  lemma IdsCons(p: Pgt, s: seq<Pgt>)
    ensures Ids([p] + s) == multiset{p.id} + Ids(s)
  {
    assert ([p] + s)[1..] == s;
  }

  /** What is not hit stays on the list, in order and unchanged. */
  lemma {:induction false} MissesKept(s: seq<Pgt>, g: Target)
    ensures forall p :: p in Misses(s, g) <==> p in s && !Hit(g, p)
  {
    if s != [] {
      MissesKept(s[1..], g);
    }
  }

  lemma {:induction false} NoHits(s: seq<Pgt>, g: Target)
    requires forall i :: 0 <= i < |s| ==> !Hit(g, s[i])
    ensures Hits(s, g) == [] && Misses(s, g) == s
  {
    if s != [] {
      NoHits(s[1..], g);
    }
  }

  /** Taking out the first hit. */
  lemma {:induction false} FirstHit(s: seq<Pgt>, k: nat, g: Target)
    requires k < |s| && Hit(g, s[k]) && forall i :: 0 <= i < k ==> !Hit(g, s[i])
    ensures Hits(s, g) == [s[k]] + Hits(Without(s, k), g)
    ensures Misses(s, g) == Misses(Without(s, k), g)
  {
    if k == 0 {
      assert Without(s, 0) == s[1..];
    } else {
      FirstHit(s[1..], k - 1, g);
      var w := Without(s, k);
      assert w[1..] == Without(s[1..], k - 1) && w[0] == s[0];
    }
  }

  /** Exactly these are flushed by pgt_flush_ctx, and these by a range. */
  predicate Goes(p: Pgt, ctx: Ctx, begin: nat, last: nat) {
    p.ctx == Some(ctx) && begin <= p.vabase && p.vabase + 0x1000 <= last
  }

  lemma Targets(p: Pgt, ctx: Ctx, begin: nat, last: nat)
    ensures Hit(Whole(ctx), p) <==> p.ctx == Some(ctx)
    ensures Hit(Part(ctx, begin, last), p) <==> Goes(p, ctx, begin, last)
  {
  }

  lemma {:induction false} HitsTaken(s: seq<Pgt>, g: Target)
    ensures forall p :: p in Hits(s, g) <==> p in s && Hit(g, p)
  {
    if s != [] {
      HitsTaken(s[1..], g);
    }
  }

  /** The free list afterwards: the old one, and the entries that are not cached, cleaned. */
  lemma {:induction false} FreeAllFrees(list: seq<Pgt>, save: bool, pool: Pool)
    ensures forall p :: p in FreeAll(list, save, pool).free <==> p in pool.free || Freed(p, list, save)
  {
    if list != [] {
      FreeAllFrees(list[1..], save, Push(pool, list[0], save));
      forall p
        ensures p in FreeAll(list, save, pool).free <==> p in pool.free || Freed(p, list, save)
      {
        FreedNext(p, list, save, pool);
      }
    }
  }

  /** p is a cleaned entry of the list: without context, address and pages in use. */
  ghost predicate Freed(p: Pgt, list: seq<Pgt>, save: bool) {
    exists q :: q in list && !(save && q.used > 0) && p == Pgt(q.id, None, 0, 0)
  }

  lemma FreedNext(p: Pgt, list: seq<Pgt>, save: bool, pool: Pool)
    requires list != []
    ensures p in Push(pool, list[0], save).free || Freed(p, list[1..], save) <==>
      p in pool.free || Freed(p, list, save)
  {
    assert forall q :: q in list <==> q == list[0] || q in list[1..];
  }

  /** The pool after the hits of a list have been cleaned and freed one by one. */
  function Flushed(list: seq<Pgt>, g: Target, pool: Pool): Pool {
    FreeAll(Hits(list, g), false, pool)
  }

  lemma FlushNext(list: seq<Pgt>, k: nat, g: Target, pool: Pool)
    requires k < |list| && Hit(g, list[k]) && forall i :: 0 <= i < k ==> !Hit(g, list[i])
    ensures Flushed(list, g, pool) == Flushed(Without(list, k), g, Push(pool, list[k], false))
    ensures Misses(list, g) == Misses(Without(list, k), g)
  {
    FirstHit(list, k, g);
    assert Hits(list, g)[1..] == Hits(Without(list, k), g);
  }

  /** Flushing a thread's list moves the hits to the pool and leaves the rest. */
  lemma FlushedList(list: seq<Pgt>, g: Target, pool: Pool)
    ensures PoolIds(Flushed(list, g, pool)) + Ids(Misses(list, g)) == PoolIds(pool) + Ids(list)
    ensures Avail(Flushed(list, g, pool)) + |Misses(list, g)| == Avail(pool) + |list|
    ensures AllClean(pool.free) ==> AllClean(Flushed(list, g, pool).free)
  {
    FreeAllConserves(Hits(list, g), false, pool);
    HitsAndMisses(list, g);
  }

  /** Flushing the cached tables keeps all entries in the pool. */
  lemma FlushedCache(g: Target, pool: Pool)
    ensures var pool' := Flushed(pool.cache, g, pool.(cache := Misses(pool.cache, g)));
      PoolIds(pool') == PoolIds(pool) && Avail(pool') == Avail(pool) && (AllClean(pool.free) ==> AllClean(pool'.free))
  {
    FlushedList(pool.cache, g, pool.(cache := []));
    FreeAllConserves(Hits(pool.cache, g), false, pool.(cache := Misses(pool.cache, g)));
    HitsAndMisses(pool.cache, g);
  }

  lemma TakenFromCache(pool: Pool, k: nat, vabase: nat, ctx: Ctx)
    requires k < |pool.cache| && Matches(pool.cache[k], vabase, ctx)
    ensures Taken(pool, pool.(cache := Without(pool.cache, k)), pool.cache[k], vabase, ctx)
  {
    IdsWithout(pool.cache, k);
    assert pool.cache[k] in pool.cache;
  }

  lemma TakenFree(pool: Pool, vabase: nat, ctx: Ctx)
    requires pool.free != [] && AllClean(pool.free) && forall q :: q in pool.cache ==> !Matches(q, vabase, ctx)
    ensures Taken(pool, pool.(free := pool.free[1..]), pool.free[0].(ctx := Some(ctx), vabase := vabase), vabase, ctx)
  {
    assert pool.free[0] in pool.free;
  }

  lemma TakenEvicted(pool: Pool, k: nat, vabase: nat, ctx: Ctx)
    requires k < |pool.cache| && forall q :: q in pool.cache ==> !Matches(q, vabase, ctx)
    ensures Taken(pool, pool.(cache := Without(pool.cache, k)),
      Clean(pool.cache[k]).(ctx := Some(ctx), vabase := vabase), vabase, ctx)
  {
    IdsWithout(pool.cache, k);
  }

  /** The two lists that all threads share. */
  class Cache {
    var free: seq<Pgt>
    var cache: seq<Pgt>

    function Contents(): Pool
      reads this
    {
      Pool(free, cache)
    }

    ghost predicate Valid()
      reads this
    {
      AllClean(free)
    }

    /** pgt_init: all entries in the free list, the last one first. */
    constructor (n: nat)
      ensures Valid() && cache == [] && |free| == n
      ensures forall i :: 0 <= i < n ==> free[i] == Pgt(n - 1 - i, None, 0, 0)
    {
      var f: seq<Pgt> := [];
      for i := 0 to n
        invariant |f| == i && forall j :: 0 <= j < i ==> f[j] == Pgt(i - 1 - j, None, 0, 0)
      {
        f := [Pgt(i, None, 0, 0)] + f;
      }
      free, cache := f, [];
    }

    /** pop_from_cache_list: the first match is unlinked. */
    method PopFromCache(vabase: nat, ctx: Ctx) returns (r: Option<Pgt>)
      modifies this`cache
      ensures r.None? ==> cache == old(cache) && forall q :: q in cache ==> !Matches(q, vabase, ctx)
      ensures r.Some? ==> exists k: nat ::
        k < |old(cache)| && r.value == old(cache)[k] && Matches(r.value, vabase, ctx) && cache == Without(old(cache), k)
      ensures r.Some? ==> r.value in old(cache) && r.value.ctx == Some(ctx) && r.value.vabase == vabase
      ensures r.None? ==> forall q :: q in cache ==> q.ctx != Some(ctx) || q.vabase != vabase
    {
      if cache == [] {
        return None;
      }
      if Matches(cache[0], vabase, ctx) {
        r := Some(cache[0]);
        cache := cache[1..];
        assert cache == Without(old(cache), 0);
        return;
      }
      var pgt := 0;
      while pgt + 1 < |cache|
        invariant pgt < |cache| && cache == old(cache)
        invariant forall j :: 0 <= j <= pgt ==> !Matches(cache[j], vabase, ctx)
      {
        if Matches(cache[pgt + 1], vabase, ctx) {
          r := Some(cache[pgt + 1]);
          cache := cache[..pgt + 1] + cache[pgt + 2..];
          assert cache == Without(old(cache), pgt + 1);
          return;
        }
        pgt := pgt + 1;
      }
      r := None;
    }

    /** pop_least_used_from_cache_list. */
    method PopLeastUsed() returns (r: Option<Pgt>)
      modifies this`cache
      ensures r.None? <==> old(cache) == []
      ensures r.None? ==> cache == old(cache)
      ensures r.Some? ==> exists k: nat ::
        LeastUsed(old(cache), k) && r.value == old(cache)[k] && cache == Without(old(cache), k)
    {
      if cache == [] {
        return None;
      }
      var k := 0;
      if cache[0].used > 0 {
        var pgt := 0;
        while pgt + 1 < |cache|
          invariant pgt < |cache| && k <= pgt
          invariant forall j :: 0 <= j <= pgt ==> cache[k].used <= cache[j].used
          invariant forall j :: k < j <= pgt ==> cache[k].used < cache[j].used
        {
          if cache[pgt + 1].used <= cache[k].used {
            k := pgt + 1;
          }
          pgt := pgt + 1;
        }
      }
      assert LeastUsed(cache, k);
      r := Some(cache[k]);
      cache := cache[..k] + cache[k + 1..];
      assert cache == Without(old(cache), k);
    }

    /** pop_from_some_list: there is a table unless both lists are empty. */
    method PopFromSome(vabase: nat, ctx: Ctx) returns (r: Option<Pgt>)
      requires Valid()
      modifies this
      ensures Valid()
      ensures r.None? <==> Avail(old(Contents())) == 0
      ensures r.None? ==> Contents() == old(Contents())
      ensures r.Some? ==> Taken(old(Contents()), Contents(), r.value, vabase, ctx)
      ensures r.Some? ==> r.value.ctx == Some(ctx) && r.value.vabase == vabase
      ensures r.Some? ==> Chosen(old(free), old(cache), free, cache, r.value, vabase, ctx)
    {
      ghost var pool := Contents();
      r := PopFromCache(vabase, ctx);
      if r.Some? {
        ghost var k: nat :| k < |pool.cache| && r.value == pool.cache[k] && Matches(r.value, vabase, ctx) &&
          cache == Without(pool.cache, k);
        TakenFromCache(pool, k, vabase, ctx);
        return;
      }
      var p;
      if free != [] {
        p := free[0];
        free := free[1..];
        TakenFree(pool, vabase, ctx);
        assert pool.free[0] in pool.free;
      } else {
        var q := PopLeastUsed();
        if q.None? {
          return None;
        }
        p := Clean(q.value);
        ghost var k: nat :| LeastUsed(pool.cache, k) && q.value == pool.cache[k] && cache == Without(pool.cache, k);
        TakenEvicted(pool, k, vabase, ctx);
      }
      r := Some(p.(ctx := Some(ctx), vabase := vabase));
    }

    /** pgt_free_unlocked: the thread's list is emptied. */
    method FreeUnlocked(list: seq<Pgt>, save: bool)
      requires Valid()
      modifies this
      ensures Valid() && Contents() == FreeAll(list, save, old(Contents()))
      ensures forall p :: p in cache <==> p in old(cache) || (save && p in list && p.used > 0)
      ensures forall p :: p in free <==> p in old(free) || Freed(p, list, save)
    {
      FreeAllSaves(list, save, Contents());
      FreeAllFrees(list, save, Contents());
      var rest := list;
      while rest != []
        invariant FreeAll(rest, save, Contents()) == FreeAll(list, save, old(Contents()))
        invariant Valid()
        decreases |rest|
      {
        var p := rest[0];
        rest := rest[1..];
        PushConserves(Contents(), p, save);
        if save && p.used > 0 {
          cache := [p] + cache;
        } else {
          free := [Clean(p)] + free;
        }
      }
    }

    /** pgt_alloc_unlocked, on an empty list: all tables in order, or none. */
    method AllocUnlocked(ctx: Ctx, begin: nat, last: nat) returns (ok: bool, list: seq<Pgt>)
      requires Valid() && begin < last
      modifies this
      ensures Valid()
      ensures Attempted(old(Contents()), Contents(), ctx, begin, last, ok, list)
      ensures ok <==> last / 0x20_0000 - begin / 0x20_0000 + 1 <= |old(free)| + |old(cache)|
      ensures if ok then Tagged(list, ctx, begin, last) else list == []
    {
      DirectoryCount(begin, last);
      var base, num := Base(begin), NumTables(begin, last);
      var n := 0;
      list := [];
      while n < num
        invariant n <= num && Valid() && Tables(list, n, ctx, base)
        invariant Moved(old(Contents()), Contents(), list)
      {
        ghost var before := Contents();
        var p := PopFromSome(base + n * PGDIR, ctx);
        if p.None? {
          MovedBack(old(Contents()), Contents(), list, true);
          FreeUnlocked(list, true);
          return false, [];
        }
        MovedNext(old(Contents()), before, Contents(), list, p.value, base + n * PGDIR, ctx);
        TablesNext(list, n, ctx, base, p.value);
        list := list + [p.value];
        n := n + 1;
      }
      ok := true;
      TablesTagged(list, ctx, begin, last);
    }

    /**
     flush_ctx_range_from_list, and the same two loops of pgt_flush_ctx: hits at the head,
     then hits behind another entry.
    */
    method FlushList(list: seq<Pgt>, g: Target) returns (list': seq<Pgt>)
      requires Valid()
      modifies this`free
      ensures Valid() && list' == Misses(list, g)
      ensures Contents() == Flushed(list, g, old(Contents()))
    {
      list' := list;
      while list' != [] && Hit(g, list'[0])
        invariant Valid() && cache == old(cache)
        invariant Flushed(list', g, Contents()) == Flushed(list, g, old(Contents()))
        invariant Misses(list', g) == Misses(list, g)
        decreases |list'|
      {
        FlushNext(list', 0, g, Contents());
        assert Without(list', 0) == list'[1..];
        free := [Clean(list'[0])] + free;
        list' := list'[1..];
      }
      if list' == [] {
        return;
      }
      var p := 0;
      while p + 1 < |list'|
        invariant p < |list'| && Valid() && cache == old(cache)
        invariant forall i :: 0 <= i <= p ==> !Hit(g, list'[i])
        invariant Flushed(list', g, Contents()) == Flushed(list, g, old(Contents()))
        invariant Misses(list', g) == Misses(list, g)
        decreases |list'| - p
      {
        if Hit(g, list'[p + 1]) {
          FlushNext(list', p + 1, g, Contents());
          free := [Clean(list'[p + 1])] + free;
          list' := Without(list', p + 1);
        } else {
          p := p + 1;
        }
      }
      NoHits(list', g);
    }

    /** pgt_flush_ctx. */
    method FlushCtx(ctx: Ctx)
      requires Valid()
      modifies this
      ensures Valid() && cache == Misses(old(cache), Whole(ctx))
      ensures Contents() == Flushed(old(cache), Whole(ctx), Pool(old(free), cache))
      ensures forall p :: p in cache <==> p in old(cache) && p.ctx != Some(ctx)
    {
      MissesKept(cache, Whole(ctx));
      var rest := FlushList(cache, Whole(ctx));
      FlushIgnoresCache(Hits(cache, Whole(ctx)), Pool(old(free), cache), rest);
      cache := rest;
    }

    /** pgt_flush_ctx_range, on a thread's list and on the cached tables. */
    method FlushRange(list: seq<Pgt>, ctx: Ctx, begin: nat, last: nat) returns (list': seq<Pgt>)
      requires Valid()
      modifies this
      ensures Valid() && list' == Misses(list, Part(ctx, begin, last))
      ensures cache == Misses(old(cache), Part(ctx, begin, last))
      ensures Contents() == Flushed(old(cache), Part(ctx, begin, last),
        Flushed(list, Part(ctx, begin, last), old(Contents())).(cache := cache))
      ensures forall p :: p in list' <==> p in list && !Goes(p, ctx, begin, last)
      ensures forall p :: p in cache <==> p in old(cache) && !Goes(p, ctx, begin, last)
    {
      MissesKept(list, Part(ctx, begin, last));
      MissesKept(cache, Part(ctx, begin, last));
      var g := Part(ctx, begin, last);
      list' := FlushList(list, g);
      ghost var pool := Contents();
      FlushKeepsCache(Hits(list, g), old(Contents()));
      var rest := FlushList(cache, g);
      FlushIgnoresCache(Hits(cache, g), pool, rest);
      cache := rest;
    }
  }

  lemma {:induction false} FlushKeepsCache(list: seq<Pgt>, pool: Pool)
    ensures FreeAll(list, false, pool).cache == pool.cache
  {
    if list != [] {
      FlushKeepsCache(list[1..], Push(pool, list[0], false));
    }
  }

  lemma {:induction false} FlushIgnoresCache(list: seq<Pgt>, pool: Pool, cache: seq<Pgt>)
    ensures FreeAll(list, false, pool).(cache := cache) == FreeAll(list, false, pool.(cache := cache))
  {
    if list != [] {
      FlushIgnoresCache(list[1..], Push(pool, list[0], false), cache);
    }
  }
}
