/** The Fortuna random number generator, core/crypto/rng_fortuna.c: counter, keys and reseeding. */
module Fortuna {
  import opened Bytes
  import opened Arithmetic

  const POOLS: nat := 32
  const MIN_POOL: nat := 64
  const MAX_EVENT: nat := 32
  const MEGABYTE: nat := 0x10_0000

  type Key = k: seq<Byte> | |k| == 32 witness Zeros(32)

  /** The block cipher on the 128-bit counter, and the hash. */
  datatype Primitives = Primitives(E: (Key, nat) -> Block, H: seq<Byte> -> Key)

  function Encrypt(p: Primitives, k: Key, counter: nat): Block {
    p.E(k, counter)
  }

  function Digest(p: Primitives, s: seq<Byte>): Key {
    p.H(s)
  }

  datatype Result = Success | BadState | BadParameters | Failed

  /** One encryption: the number of the key since the start, and the value and position of the counter. */
  datatype Use = Use(epoch: nat, counter: nat, tick: nat)

  /** The 128-bit counter after t increments from 0. */
  function Wrapped(t: nat): nat {
    t % 0x1_0000_0000_0000_0000_0000_0000_0000_0000
  }

  /** How many encryptions were made with key number e. */
  function Uses(log: seq<Use>, e: nat): (n: nat)
    ensures n <= |log|
  {
    if log == [] then 0 else Uses(log[..|log| - 1], e) + if log[|log| - 1].epoch == e then 1 else 0
  }

  lemma UsesSnoc(log: seq<Use>, u: Use, e: nat)
    ensures Uses(log + [u], e) == Uses(log, e) + if u.epoch == e then 1 else 0
  {
    assert (log + [u])[..|log|] == log;
  }

  /** The positions in the log that were encrypted with key number e. */
  function WithKey(log: seq<Use>, e: nat): set<nat> {
    set i: nat | i < |log| && log[i].epoch == e
  }

  lemma {:induction false} UsesCounts(log: seq<Use>, e: nat)
    ensures Uses(log, e) == |WithKey(log, e)|
  {
    if log != [] {
      var n := |log| - 1;
      UsesCounts(log[..n], e);
      assert WithKey(log, e) == WithKey(log[..n], e) + if log[n].epoch == e then {n} else {};
    }
  }

  lemma {:induction false} NotYetUsed(log: seq<Use>, e: nat)
    requires forall i :: 0 <= i < |log| ==> log[i].epoch < e
    ensures Uses(log, e) == 0
  {
    if log != [] {
      NotYetUsed(log[..|log| - 1], e);
    }
  }

  /** The log of total increments of the counter: ticks grow, and give the counter values. */
  ghost predicate LogOk(log: seq<Use>, total: nat, epoch: nat) {
    && (forall i :: 0 <= i < |log| ==>
      log[i].tick < total && log[i].counter == Wrapped(log[i].tick) && log[i].epoch <= epoch)
    && (forall i, j :: 0 <= i < j < |log| ==> log[i].tick < log[j].tick)
  }

  /** Below 2^128 increments no counter value, hence no pair of key and counter, is encrypted twice. */
  lemma NoReuse(log: seq<Use>, total: nat, epoch: nat, i: nat, j: nat)
    requires LogOk(log, total, epoch) && total <= 0x1_0000_0000_0000_0000_0000_0000_0000_0000 && i < j < |log|
    ensures log[i].counter != log[j].counter
  {
  }

  const MAX_USES: nat := 0x1_0002

  ghost predicate FewUses(log: seq<Use>) {
    forall e: nat :: Uses(log, e) <= MAX_USES
  }

  /** n blocks of key stream from the counter after t increments. */
  function Stream(p: Primitives, k: Key, t: nat, n: nat): (s: seq<Byte>)
    ensures |s| == 16 * n
  {
    if n == 0 then [] else Stream(p, k, t, n - 1) + Encrypt(p, k, Wrapped(t + n - 1))
  }

  /** Byte i of the stream. */
  lemma {:induction false} StreamAt(p: Primitives, k: Key, t: nat, n: nat, i: nat)
    requires i < 16 * n
    ensures Stream(p, k, t, n)[i] == p.E(k, (t + i / 16) % 0x1_0000_0000_0000_0000_0000_0000_0000_0000)[i % 16]
    decreases n
  {
    if i < 16 * (n - 1) {
      StreamAt(p, k, t, n - 1, i);
    } else {
      DivUnique(i, 16, n - 1, i - 16 * (n - 1));
    }
  }

  /**
   The n bytes of one read, the next key and the number of increments: E of the key and the
   counter values from t on, first for the bytes and then for the key.
  */
  ghost predicate Produced(p: Primitives, k: Key, t: nat, n: nat, buf: seq<Byte>, key: Key, total: nat) {
    && |buf| == n && total == t + (n + 15) / 16 + 2
    && (forall i :: 0 <= i < n ==>
      buf[i] == p.E(k, (t + i / 16) % 0x1_0000_0000_0000_0000_0000_0000_0000_0000)[i % 16])
    && (forall i :: 0 <= i < 32 ==>
      key[i] == p.E(k, (t + (n + 15) / 16 + i / 16) % 0x1_0000_0000_0000_0000_0000_0000_0000_0000)[i % 16])
  }

  /** The seed of reseed number count: the digests of the pools whose power of two divides it. */
  ghost predicate SeedOf(p: Primitives, pools: seq<seq<Byte>>, count: nat, seed: seq<Byte>) {
    |pools| == POOLS && exists n: nat :: Drains(count, n) && DigestsOf(p, pools, n, seed)
  }

  ghost predicate DigestsOf(p: Primitives, pools: seq<seq<Byte>>, n: nat, seed: seq<Byte>) {
    n <= |pools| && |seed| == 32 * n && forall i :: 0 <= i < 32 * n ==> seed[i] == p.H(pools[i / 32])[i % 32]
  }

  /** A read of n > 0 bytes on the cipher and the hash themselves, without and with a reseed. */
  ghost predicate ReadResult(p: Primitives, st: State, t: nat, n: nat, limited: bool, buf: seq<Byte>, key: Key,
                             total: nat) {
    if st.pool0Length < 64 || limited then Produced(p, st.key, t, n, buf, key, total)
    else
      var count := (st.reseedCount + 1) % 0x1_0000_0000;
      exists seed :: SeedOf(p, st.pools, count, seed) && Produced(p, p.H(seed), t + 1, n, buf, key, total)
  }

  /** The number of blocks for n bytes. */
  function Ceil(n: nat): nat {
    if n % 16 == 0 then n / 16 else n / 16 + 1
  }

  /** n bytes of key stream. */
  function Random(p: Primitives, k: Key, t: nat, n: nat): (s: seq<Byte>)
    ensures |s| == n
  {
    Stream(p, k, t, Ceil(n))[..n]
  }

  // ---------- which pools a reseed drains ----------

  /** Bit b of r. */
  function Bit(r: nat, b: nat): nat {
    r / Pow2(b) % 2
  }

  /** reseed_from_pool. */
  predicate ReseedFromPool(count: nat, pool: nat) {
    pool == 0 || Bit(count, pool - 1) == 0
  }

  lemma Regroup(h: nat, b: nat, d: nat)
    requires b <= 1
    ensures (2 * h + b) * d == h * (2 * d) + b * d && b * d <= d && (b * d == 0 <==> b == 0 || d == 0)
  {
  }

  lemma ModTwice(r: nat, d: nat)
    requires d > 0
    ensures r % (2 * d) == 0 <==> r % d == 0 && r / d % 2 == 0
  {
    var q, m := r / d, r % d;
    Regroup(q / 2, q % 2, d);
    DivUnique(r, 2 * d, q / 2, q % 2 * d + m);
  }

  lemma DivTwice(r: nat, d: nat)
    requires d > 0
    ensures Divides(2 * d, r) <==> Divides(d, r) && r / d % 2 == 0
  {
    DividesMod(d, r);
    DividesMod(2 * d, r);
    ModTwice(r, d);
  }

  /** If 2^(n - 1) divides the count, then the test of one bit tells whether 2^n does. */
  lemma ReseedTest(count: nat, n: nat)
    requires n > 0 ==> Divides(Pow2(n - 1), count)
    ensures ReseedFromPool(count, n) <==> Divides(Pow2(n), count)
  {
    if n > 0 {
      DivTwice(count, Pow2(n - 1));
    } else {
      DividesMod(1, count);
    }
  }

  /** A power of two that divides the count: so do all smaller ones. */
  lemma {:induction false} SmallerDivide(count: nat, m: nat, n: nat)
    requires m <= n && Divides(Pow2(n), count)
    ensures Divides(Pow2(m), count)
    decreases n
  {
    if m < n {
      DivTwice(count, Pow2(n - 1));
      SmallerDivide(count, m, n - 1);
    }
  }

  /** The pools of reseed number count. */
  ghost predicate Drains(count: nat, pools: nat) {
    pools <= POOLS && forall n: nat :: n < POOLS ==> (n < pools <==> Divides(Pow2(n), count))
  }

  // ---------- the state ----------

  /** struct fortuna_state; a pool is the data hashed into it since it was started. */
  datatype State = State(active: bool, c0: nat, c1: nat, key: Key, pools: seq<seq<Byte>>, pool0Length: nat,
    reseedCount: nat)

  /** Since the start: increments of the counter, encryptions, and the number of the key. */
  datatype History = History(total: nat, log: seq<Use>, epoch: nat)

  ghost predicate Holds(st: State, h: History) {
    && Counter(st) == Wrapped(h.total) && st.c0 < 0x1_0000_0000_0000_0000
    && |st.pools| == POOLS && st.reseedCount < 0x1_0000_0000
    && LogOk(h.log, h.total, h.epoch) && FewUses(h.log)
  }

  /** How many encryptions were made with the present key. */
  ghost function Used(h: History): nat {
    Uses(h.log, h.epoch)
  }

  /** Nothing has been encrypted with the present key. */
  ghost predicate FreshKey(h: History) {
    Used(h) == 0
  }

  function Counter(st: State): nat {
    st.c0 + st.c1 * 0x1_0000_0000_0000_0000
  }

  /** inc_counter. */
  function Incremented(st: State): State {
    var c0 := (st.c0 + 1) % 0x1_0000_0000_0000_0000;
    st.(c0 := c0, c1 := if c0 == 0 then (st.c1 + 1) % 0x1_0000_0000_0000_0000 else st.c1)
  }

  lemma IncCounter(st: State, t: nat)
    requires st.c0 < 0x1_0000_0000_0000_0000 && Counter(st) == Wrapped(t)
    ensures Incremented(st).c0 < 0x1_0000_0000_0000_0000 && Counter(Incremented(st)) == Wrapped(t + 1)
  {
    assert st.c1 < 0x1_0000_0000_0000_0000;
  }

  /** Nothing is taken back: the encryptions made so far stay at the beginning of the log. */
  ghost predicate Grown(h: History, h': History) {
    h.log <= h'.log && h.total <= h'.total && h.epoch <= h'.epoch
  }

  lemma GrownFurther(h: History, h': History, h'': History)
    requires Grown(h, h') && Grown(h', h'')
    ensures Grown(h, h'')
  {
  }

  /** One encryption of the counter, which is then incremented. */
  function Logged(h: History): History {
    h.(log := h.log + [Use(h.epoch, Wrapped(h.total), h.total)], total := h.total + 1)
  }

  lemma LogNext(log: seq<Use>, total: nat, epoch: nat)
    requires LogOk(log, total, epoch)
    ensures LogOk(log + [Use(epoch, Wrapped(total), total)], total + 1, epoch)
  {
  }

  lemma UsesNext(log: seq<Use>, u: Use)
    requires FewUses(log) && Uses(log, u.epoch) < MAX_USES
    ensures FewUses(log + [u]) && Uses(log + [u], u.epoch) == Uses(log, u.epoch) + 1
  {
    forall e: nat
      ensures Uses(log + [u], e) == Uses(log, e) + if u.epoch == e then 1 else 0
    {
      UsesSnoc(log, u, e);
    }
  }

  lemma LoggedOk(st: State, h: History)
    requires Holds(st, h) && Uses(h.log, h.epoch) < MAX_USES
    ensures Holds(Incremented(st), Logged(h)) && Uses(Logged(h).log, h.epoch) == Uses(h.log, h.epoch) + 1
  {
    IncCounter(st, h.total);
    LogNext(h.log, h.total, h.epoch);
    UsesNext(h.log, Use(h.epoch, Wrapped(h.total), h.total));
  }

  /** A new key; the old one is not used again. */
  lemma NewKey(st: State, h: History, key: Key)
    requires Holds(st, h)
    ensures Holds(st.(key := key), h.(epoch := h.epoch + 1)) && FreshKey(h.(epoch := h.epoch + 1))
  {
    NotYetUsed(h.log, h.epoch + 1);
  }

  /** The digests of the first n pools, in order. */
  function Digests(p: Primitives, pools: seq<seq<Byte>>, n: nat): seq<Byte>
    requires n <= |pools|
  {
    if n == 0 then [] else Digests(p, pools, n - 1) + Digest(p, pools[n - 1])
  }

  lemma {:induction false} DigestsAt(p: Primitives, pools: seq<seq<Byte>>, n: nat, i: nat)
    requires n <= |pools|
    ensures |Digests(p, pools, n)| == 32 * n
    ensures i < 32 * n ==> Digests(p, pools, n)[i] == p.H(pools[i / 32])[i % 32]
    decreases n
  {
    if n > 0 {
      DigestsAt(p, pools, n - 1, i);
      if 32 * (n - 1) <= i < 32 * n {
        DivUnique(i, 32, n - 1, i - 32 * (n - 1));
      }
    }
  }

  /** The first n pools started again with their own digests. */
  function Restarted(p: Primitives, pools: seq<seq<Byte>>, n: nat): (r: seq<seq<Byte>>)
    requires n <= |pools|
    ensures |r| == |pools|
    ensures forall i :: 0 <= i < |pools| ==> r[i] == if i < n then Digest(p, pools[i]) else pools[i]
  {
    seq(|pools|, i requires 0 <= i < |pools| => if i < n then Digest(p, pools[i]) else pools[i])
  }

  lemma {:induction false} DigestsSame(p: Primitives, a: seq<seq<Byte>>, b: seq<seq<Byte>>, n: nat)
    requires n <= |a| && n <= |b| && forall i :: 0 <= i < n ==> a[i] == b[i]
    ensures Digests(p, a, n) == Digests(p, b, n)
  {
    if n > 0 {
      DigestsSame(p, a, b, n - 1);
    }
  }

  /** Draining stops at the first pool whose power of two does not divide the count. */
  lemma DrainsWhere(count: nat, n: nat)
    requires n <= POOLS && (n > 0 ==> Divides(Pow2(n - 1), count)) && (n < POOLS ==> !Divides(Pow2(n), count))
    ensures Drains(count, n)
  {
    forall m: nat | m < POOLS
      ensures m < n <==> Divides(Pow2(m), count)
    {
      if m < n {
        SmallerDivide(count, m, n - 1);
      } else if Divides(Pow2(m), count) {
        SmallerDivide(count, n, m);
      }
    }
  }

  lemma DrainsOnce(count: nat, m: nat, n: nat)
    requires Drains(count, m) && Drains(count, n)
    ensures m == n
  {
    assert m < POOLS ==> !Divides(Pow2(m), count);
    assert n < POOLS ==> !Divides(Pow2(n), count);
  }

  /** The number of pools that reseed number count drains. */
  ghost function Due(count: nat): (n: nat)
    ensures Drains(count, n)
  {
    DividesMod(1, count);
    DueFrom(count, 1)
  }

  ghost function DueFrom(count: nat, i: nat): (n: nat)
    requires 0 < i <= POOLS && Divides(Pow2(i - 1), count)
    ensures Drains(count, n)
    decreases POOLS - i
  {
    if i < POOLS && Divides(Pow2(i), count) then DueFrom(count, i + 1)
    else
      DrainsWhere(count, i);
      i
  }

  // ---------- what the calls compute ----------

  /** The counter field after t increments. */
  function AtTick(st: State, t: nat): State {
    st.(c0 := Wrapped(t) % 0x1_0000_0000_0000_0000, c1 := Wrapped(t) / 0x1_0000_0000_0000_0000)
  }

  lemma CounterAtTick(st: State, t: nat)
    requires Counter(st) == Wrapped(t) && st.c0 < 0x1_0000_0000_0000_0000
    ensures st == AtTick(st, t)
  {
  }

  /** Whether maybe_reseed goes on: enough data in pool 0, and no rate limit. */
  predicate Reseeds(st: State, limited: bool) {
    st.pool0Length >= MIN_POOL && !limited
  }

  /** The state after t increments and a reseed that began in st. */
  ghost function Reseeded(p: Primitives, st: State, t: nat): State
    requires |st.pools| == POOLS
  {
    var count := (st.reseedCount + 1) % 0x1_0000_0000;
    var key := Digest(p, Digests(p, st.pools, Due(count)));
    AtTick(st.(reseedCount := count, pools := Restarted(p, st.pools, Due(count)), pool0Length := 0, key := key), t)
  }

  /** An event for a pool, as add_event gets it or as it is popped from the ring buffer. */
  datatype Event = Event(source: Byte, pool: nat, data: seq<Byte>)

  function Clipped(data: seq<Byte>): (d: seq<Byte>)
    ensures |d| <= MAX_EVENT
  {
    if |data| < MAX_EVENT then data else data[..MAX_EVENT]
  }

  function Header(e: Event): seq<Byte> {
    [e.source, |Clipped(e.data)|]
  }

  function Hashed(st: State, pool: nat, bytes: seq<Byte>): State
    requires pool < |st.pools|
  {
    st.(pools := st.pools[pool := st.pools[pool] + bytes])
  }

  /** add_event without an error. */
  function Added(st: State, e: Event): State {
    if e.pool >= |st.pools| then st
    else
      var length := st.pool0Length + |Clipped(e.data)|;
      Hashed(Hashed(st, e.pool, Header(e)), e.pool, Clipped(e.data)).(
        pool0Length := if e.pool == 0 && length < 0x1_0000_0000 then length else st.pool0Length)
  }

  /**
   An event added, on the fields: the pool has got the source, the length and then the data, of
   which the first 32 bytes count, and nothing else changes but the length of pool 0.
  */
  ghost predicate EventAdded(st: State, e: Event, st': State) {
    var n: nat := if |e.data| < 32 then |e.data| else 32;
    && e.pool < |st.pools| == |st'.pools|
    && st'.pools[e.pool] == st.pools[e.pool] + ([e.source, n] + e.data[..n])
    && (forall i :: 0 <= i < |st.pools| && i != e.pool ==> st'.pools[i] == st.pools[i])
    && st' == st.(pools := st'.pools, pool0Length := st'.pool0Length)
    && st'.pool0Length ==
      if e.pool == 0 && st.pool0Length + n < 0x1_0000_0000 then st.pool0Length + n else st.pool0Length
  }

  lemma AddedOnFields(st: State, e: Event)
    requires e.pool < |st.pools|
    ensures EventAdded(st, e, Added(st, e))
  {
    var c := Clipped(e.data);
    assert (st.pools[e.pool] + Header(e)) + c == st.pools[e.pool] + (Header(e) + c);
    assert |e.data| < 32 ==> e.data[..|e.data|] == e.data;
  }

  /**
   drain_ring_buffer without an error: the events up to one without data, which is what an
   empty buffer looks like.
  */
  function Drained(st: State, popped: seq<Event>): (st': State)
    ensures |st'.pools| == |st.pools| && st' == st.(pools := st'.pools, pool0Length := st'.pool0Length)
    decreases popped
  {
    if popped == [] || popped[0].data == [] then st else Drained(Added(st, popped[0]), popped[1..])
  }

  /** The events up to one without data lead from st to st'; those for other pools are without effect. */
  ghost predicate EventsAdded(st: State, popped: seq<Event>, st': State)
    decreases popped
  {
    if popped == [] || popped[0].data == [] then st' == st
    else exists next :: EventsAdded(next, popped[1..], st') && AddedOrNot(st, popped[0], next)
  }

  ghost predicate AddedOrNot(st: State, e: Event, st': State) {
    if e.pool < |st.pools| then EventAdded(st, e, st') else st' == st
  }

  lemma {:induction false} DrainedOnFields(st: State, popped: seq<Event>)
    ensures EventsAdded(st, popped, Drained(st, popped))
    decreases popped
  {
    if popped != [] && popped[0].data != [] {
      DrainedOnFields(Added(st, popped[0]), popped[1..]);
      if popped[0].pool < |st.pools| {
        AddedOnFields(st, popped[0]);
      }
    }
  }

  /** A state, the increments of its counter, and the bytes read so far. */
  datatype Drawn = Drawn(st: State, total: nat, buf: seq<Byte>)

  /** maybe_reseed. */
  ghost function Seeded(p: Primitives, d: Drawn, limited: bool): Drawn
    requires |d.st.pools| == POOLS
  {
    if Reseeds(d.st, limited) then d.(st := Reseeded(p, d.st, d.total + 1), total := d.total + 1) else d
  }

  /** n > 0 bytes of key stream and, from the two blocks after them, the next key. */
  function Taken(p: Primitives, d: Drawn, n: nat): Drawn {
    var next := d.total + Ceil(n);
    Drawn(AtTick(d.st.(key := Stream(p, d.st.key, next, 2)), next + 2), next + 2,
      d.buf + Random(p, d.st.key, d.total, n))
  }

  /** What one fortuna_read meets: whether the rate limit holds, and the events in the ring buffer. */
  datatype Choice = Choice(limited: bool, popped: seq<Event>)

  /** fortuna_read of n bytes. */
  ghost function AfterRead(p: Primitives, d: Drawn, n: nat, c: Choice): (d': Drawn)
    requires |d.st.pools| == POOLS
    ensures |d'.st.pools| == POOLS && |d'.buf| == |d.buf| + n
  {
    var d1 := if n == 0 then Seeded(p, d, c.limited) else Taken(p, Seeded(p, d, c.limited), n);
    d1.(st := Drained(d1.st, c.popped))
  }

  lemma SeedDigests(p: Primitives, pools: seq<seq<Byte>>, count: nat)
    requires |pools| == POOLS
    ensures SeedOf(p, pools, count, Digests(p, pools, Due(count)))
  {
    var n := Due(count);
    DigestsAt(p, pools, n, 0);
    forall i | 0 <= i < 32 * n
      ensures Digests(p, pools, n)[i] == p.H(pools[i / 32])[i % 32]
    {
      DigestsAt(p, pools, n, i);
    }
    assert DigestsOf(p, pools, n, Digests(p, pools, n));
  }

  lemma SeededKey(p: Primitives, st: State, total: nat, limited: bool, d1: Drawn, n: nat, buf: seq<Byte>, key: Key,
                  total': nat)
    requires |st.pools| == POOLS && d1 == Seeded(p, Drawn(st, total, []), limited)
    requires Produced(p, d1.st.key, d1.total, n, buf, key, total')
    ensures ReadResult(p, st, total, n, limited, buf, key, total')
  {
    if Reseeds(st, limited) {
      var count := (st.reseedCount + 1) % 0x1_0000_0000;
      SeedDigests(p, st.pools, count);
      assert d1.st.key == p.H(Digests(p, st.pools, Due(count)));
    }
  }

  /** A reseed starts exactly the pools whose power of two divides the count again, each with its own digest. */
  ghost predicate PoolsRestarted(p: Primitives, st: State, st': State) {
    && |st.pools| == |st'.pools| == POOLS && st'.pool0Length == 0
    && st'.reseedCount == (st.reseedCount + 1) % 0x1_0000_0000
    && forall i: nat :: i < 32 ==>
      st'.pools[i] == if Divides(Pow2(i), st'.reseedCount) then p.H(st.pools[i]) else st.pools[i]
  }

  lemma ReseededPools(p: Primitives, st: State, t: nat)
    requires |st.pools| == POOLS
    ensures PoolsRestarted(p, st, Reseeded(p, st, t))
  {
  }

  lemma ReadDone(p: Primitives, st: State, total: nat, n: nat, c: Choice, d1: Drawn, d2: Drawn, st': State)
    requires |st.pools| == POOLS && d1 == Seeded(p, Drawn(st, total, []), c.limited)
    requires d2 == (if n == 0 then d1 else Taken(p, d1, n)) && st' == Drained(d2.st, c.popped)
    ensures Drawn(st', d2.total, d2.buf) == AfterRead(p, Drawn(st, total, []), n, c)
    ensures n > 0 ==> ReadResult(p, st, total, n, c.limited, d2.buf, st'.key, d2.total)
  {
    if n > 0 {
      TakenProduces(p, d1, n);
      SeededKey(p, st, total, c.limited, d1, n, d2.buf, d2.st.key, d2.total);
    }
  }

  lemma TakenProduces(p: Primitives, d: Drawn, n: nat)
    requires d.buf == []
    ensures var d' := Taken(p, d, n); Produced(p, d.st.key, d.total, n, d'.buf, d'.st.key, d'.total)
  {
    var k, m := d.st.key, Ceil(n);
    BlocksFor(n);
    var buf, key := Random(p, k, d.total, n), Stream(p, k, d.total + m, 2);
    forall i | 0 <= i < n
      ensures buf[i] == p.E(k, (d.total + i / 16) % 0x1_0000_0000_0000_0000_0000_0000_0000_0000)[i % 16]
    {
      StreamAt(p, k, d.total, m, i);
    }
    forall i | 0 <= i < 32
      ensures key[i] == p.E(k, (d.total + m + i / 16) % 0x1_0000_0000_0000_0000_0000_0000_0000_0000)[i % 16]
    {
      StreamAt(p, k, d.total + m, 2, i);
    }
    assert [] + buf == buf;
  }

  lemma BlocksFor(n: nat)
    ensures Ceil(n) == (n + 15) / 16
  {
  }

  /** At most 1 MiB at a time. */
  function ChunkLength(blen: nat, done: nat): nat
    requires done <= blen
  {
    if blen - done < MEGABYTE then blen - done else MEGABYTE
  }

  /** crypto_rng_read of blen bytes after as many calls of fortuna_read as there are choices. */
  ghost function AfterChunks(p: Primitives, d: Drawn, blen: nat, choices: seq<Choice>): (d': Drawn)
    requires |d.st.pools| == POOLS && |d.buf| <= blen
    ensures |d'.st.pools| == POOLS && |d'.buf| <= blen
    decreases |choices|
  {
    if choices == [] then d
    else
      var d0 := AfterChunks(p, d, blen, choices[..|choices| - 1]);
      AfterRead(p, d0, ChunkLength(blen, |d0.buf|), choices[|choices| - 1])
  }

  lemma ChunksSnoc(p: Primitives, d: Drawn, blen: nat, choices: seq<Choice>, c: Choice)
    requires |d.st.pools| == POOLS && |d.buf| <= blen
    ensures var d0 := AfterChunks(p, d, blen, choices);
      AfterChunks(p, d, blen, choices + [c]) == AfterRead(p, d0, ChunkLength(blen, |d0.buf|), c)
  {
    assert (choices + [c])[..|choices|] == choices;
  }

  class Rng {
    const p: Primitives
    var st: State
    ghost var h: History

    ghost predicate Valid()
      reads this
    {
      st.active ==> Holds(st, h) && FreshKey(h)
    }

    constructor (p: Primitives)
      ensures this.p == p && Valid() && !st.active
    {
      this.p := p;
      st := State(false, 0, 0, Zeros(32), [], 0, 0);
    }

    /** crypto_rng_init, with all allocations successful. */
    method Init(data: seq<Byte>) returns (res: Result)
      requires Valid()
      modifies this
      ensures Valid() && res == if old(st.active) then BadState else Success
      ensures res.Success? ==> st == AtTick(State(true, 0, 0, Digest(p, data), seq(POOLS, _ => []), 0, 0), 1)
      ensures res.Success? ==> h == History(1, [], 0)
      ensures !res.Success? ==> st == old(st) && h == old(h)
    {
      if st.active {
        return BadState;
      }
      st := State(true, 0, 0, Digest(p, data), seq(POOLS, _ => []), 0, 0);
      st := Incremented(st);
      h := History(1, [], 0);
      res := Success;
    }

    /** add_event; each of the two hash updates may fail, and then adds nothing. */
    method AddEvent(e: Event) returns (res: Result)
      requires Valid() && st.active
      modifies this`st
      ensures Valid() && st.active && !res.BadState? && (res.BadParameters? <==> e.pool >= POOLS)
      ensures res.Success? ==> st == Added(old(st), e) && EventAdded(old(st), e, st)
      ensures res.BadParameters? ==> st == old(st)
      ensures res.Failed? ==> st == old(st) || st == Hashed(old(st), e.pool, Header(e))
    {
      if e.pool >= POOLS {
        return BadParameters;
      }
      AddedOnFields(st, e);
      var works: bool := *;
      if !works {
        return Failed;
      }
      st := Hashed(st, e.pool, Header(e));
      works := *;
      if !works {
        return Failed;
      }
      var d := Clipped(e.data);
      st := Hashed(st, e.pool, d);
      if e.pool == 0 && st.pool0Length + |d| < 0x1_0000_0000 {
        st := st.(pool0Length := st.pool0Length + |d|);
      }
      res := Success;
    }

    /** drain_ring_buffer, for the events that are popped one after the other. */
    method DrainRingBuffer(popped: seq<Event>) returns (res: Result)
      requires Valid() && st.active
      modifies this`st
      ensures Valid() && st == old(st).(pools := st.pools, pool0Length := st.pool0Length)
      ensures res.Success? ==> st == Drained(old(st), popped)
      ensures res.Success? ==> EventsAdded(old(st), popped, st)
    {
      DrainedOnFields(st, popped);
      for i := 0 to |popped|
        invariant Valid() && st == old(st).(pools := st.pools, pool0Length := st.pool0Length)
        invariant Drained(st, popped[i..]) == Drained(old(st), popped)
      {
        DrainedNext(st, popped, i);
        if |popped[i].data| == 0 {
          return Success;
        }
        res := AddEvent(popped[i]);
        if !res.Success? {
          return;
        }
      }
      res := Success;
    }

    /** crypto_rng_add_event for a source that is not quick, which ignores both results. */
    method CryptoAddEvent(e: Event, popped: seq<Event>)
      requires Valid() && st.active
      modifies this`st
      ensures Valid() && st == old(st).(pools := st.pools, pool0Length := st.pool0Length)
    {
      var added := AddEvent(e);
      var drained := DrainRingBuffer(popped);
    }

    /** generate_blocks: the counter moves on even if the encryption fails. */
    method GenerateBlocks(n: nat) returns (ok: bool, out: seq<Byte>)
      requires Holds(st, h) && Used(h) + n <= MAX_USES
      modifies this
      ensures Holds(st, h) && h.epoch == old(h.epoch) && Used(h) <= old(Used(h)) + n
      ensures ok ==>
        out == Stream(p, st.key, old(h.total), n) && h.total == old(h.total) + n && Used(h) == old(Used(h)) + n
      ensures st == old(st).(c0 := st.c0, c1 := st.c1) && Grown(old(h), h)
    {
      out := [];
      for i := 0 to n
        invariant Grown(old(h), h)
        invariant Holds(st, h) && h.epoch == old(h.epoch) && st == old(st).(c0 := st.c0, c1 := st.c1)
        invariant Used(h) == old(Used(h)) + i && h.total == old(h.total) + i
        invariant out == Stream(p, st.key, old(h.total), i)
      {
        var works, block := EncryptCounter();
        if !works {
          return false, out;
        }
        out := out + block;
      }
      ok := true;
    }

    method EncryptCounter() returns (works: bool, block: Block)
      requires Holds(st, h) && Used(h) < MAX_USES
      modifies this
      ensures Holds(st, h) && st == old(st).(c0 := st.c0, c1 := st.c1) && Used(h) == old(Used(h)) + 1
      ensures h == Logged(old(h))
      ensures block == Encrypt(p, st.key, Wrapped(old(h.total)))
    {
      works := *;
      block := Encrypt(p, st.key, Counter(st));
      LoggedOk(st, h);
      st, h := Incremented(st), Logged(h);
    }

    /** generate_random_data: the last block is cut. */
    method GenerateRandomData(blen: nat) returns (ok: bool, buf: seq<Byte>)
      requires Holds(st, h) && Used(h) + Ceil(blen) <= MAX_USES
      modifies this
      ensures Holds(st, h) && h.epoch == old(h.epoch) && Used(h) <= old(Used(h)) + Ceil(blen)
      ensures ok ==> buf == Random(p, st.key, old(h.total), blen) && h.total == old(h.total) + Ceil(blen)
      ensures st == old(st).(c0 := st.c0, c1 := st.c1) && Grown(old(h), h)
    {
      ok, buf := GenerateBlocks(blen / 16);
      if !ok {
        return;
      }
      if blen % 16 != 0 {
        var block;
        ok, block := GenerateBlocks(1);
        if !ok {
          return;
        }
        CutBlock(p, st.key, old(h.total), blen, buf, block);
        buf := buf + block[..blen % 16];
      } else {
        NoCut(p, st.key, old(h.total), blen, buf);
      }
    }

    /** maybe_reseed, if pool 0 has enough data and the rate is not limited. */
    method MaybeReseed(limited: bool) returns (ok: bool)
      requires st.active && Holds(st, h) && FreshKey(h)
      modifies this
      ensures Holds(st, h) && FreshKey(h) && st.active && h.log == old(h.log) && Grown(old(h), h)
      ensures !Reseeds(old(st), limited) ==> ok && st == old(st) && h == old(h)
      ensures ok && Reseeds(old(st), limited) ==> h == History(old(h).total + 1, old(h).log, old(h).epoch + 1)
      ensures ok && old(st).pool0Length >= 64 && !limited ==> PoolsRestarted(p, old(st), st)
      ensures ok ==> Drawn(st, h.total, []) == Seeded(p, Drawn(old(st), old(h).total, []), limited)
    {
      ok := true;
      if !Reseeds(st, limited) {
        return;
      }
      st := st.(reseedCount := (st.reseedCount + 1) % 0x1_0000_0000);
      var seed;
      ghost var n;
      ok, seed, n := DrainPools();
      if !ok {
        return;
      }
      ok := *;
      if !ok {
        return;
      }
      DrainsOnce(st.reseedCount, n, Due(st.reseedCount));
      SetKey(Digest(p, seed));
      SkipCounter();
      CounterAtTick(st, h.total);
      ReseededPools(p, old(st), h.total);
    }

    /** cipher_init. */
    method SetKey(key: Key)
      requires Holds(st, h)
      modifies this
      ensures Holds(st, h) && FreshKey(h) && st == old(st).(key := key) && h == old(h).(epoch := old(h).epoch + 1)
    {
      NewKey(st, h, key);
      st, h := st.(key := key), h.(epoch := h.epoch + 1);
    }

    /** inc_counter without an encryption. */
    method SkipCounter()
      requires Holds(st, h)
      modifies this
      ensures Holds(st, h) && st == old(st).(c0 := st.c0, c1 := st.c1) && h == old(h).(total := old(h).total + 1)
    {
      IncCounter(st, h.total);
      LaterTotal(h.log, h.total, h.epoch);
      st, h := Incremented(st), h.(total := h.total + 1);
    }

    /** The loop over the pools; the hash calls may fail. */
    method DrainPools() returns (ok: bool, seed: seq<Byte>, ghost n: nat)
      requires st.active && Holds(st, h) && FreshKey(h)
      modifies this`st
      ensures Holds(st, h) && st.active
      ensures ok ==> n <= POOLS && Drains(st.reseedCount, n) && seed == Digests(p, old(st).pools, n)
      ensures ok ==> st == old(st).(pools := Restarted(p, old(st).pools, n), pool0Length := 0)
    {
      seed := [];
      var i := 0;
      assert st.pools == Restarted(p, st.pools, 0);
      while i < POOLS && ReseedFromPool(st.reseedCount, i)
        invariant i <= POOLS && Holds(st, h) && st.active
        invariant st == old(st).(pools := Restarted(p, old(st).pools, i), pool0Length := st.pool0Length) &&
          (i > 0 ==> st.pool0Length == 0)
        invariant i > 0 ==> Divides(Pow2(i - 1), st.reseedCount)
        invariant seed == Digests(p, old(st).pools, i)
      {
        ReseedTest(st.reseedCount, i);
        var digest := Digest(p, st.pools[i]);
        ok := *;
        if !ok {
          n := i;
          return;
        }
        st := st.(pools := st.pools[i := digest]);
        if i == 0 {
          st := st.(pool0Length := 0);
        }
        assert st.pools == Restarted(p, old(st).pools, i + 1);
        seed := seed + digest;
        i := i + 1;
      }
      n := i;
      if i < POOLS {
        ReseedTest(st.reseedCount, i);
      }
      DrainsWhere(st.reseedCount, i);
      ok := true;
    }

    /**
     fortuna_read: at most 1 MiB under one key, which is then replaced by the next two blocks.
     An error ends the generator.
     */
    method Read(blen: nat, c: Choice) returns (res: Result, buf: seq<Byte>)
      requires Valid() && blen <= MEGABYTE
      modifies this
      ensures Valid() && (res.BadState? <==> !old(st.active)) && (res.Success? ==> st.active) &&
        (res.Failed? ==> !st.active)
      ensures !old(st.active) ==> st == old(st) && h == old(h)
      ensures old(st.active) ==> Recorded() && Grown(old(h), h)
      ensures res.Success? ==>
        && Holds(old(st), old(h))
        && Drawn(st, h.total, buf) == AfterRead(p, Drawn(old(st), old(h).total, []), blen, c)
      ensures res.Success? && blen > 0 ==>
        ReadResult(p, old(st), old(h).total, blen, c.limited, buf, st.key, h.total)
    {
      buf := [];
      if !st.active {
        return BadState, [];
      }
      var ok := MaybeReseed(c.limited);
      ghost var d1 := Drawn(st, h.total, []);
      if ok && blen > 0 {
        ok, buf := Draw(blen);
      }
      ghost var d2 := Drawn(st, h.total, buf);
      if ok {
        var drained := DrainRingBuffer(c.popped);
        ok := drained.Success?;
      }
      if !ok {
        st := st.(active := false);
        return Failed, buf;
      }
      ReadDone(p, old(st), old(h).total, blen, c, d1, d2, st);
      res := Success;
    }

    /** The log is right, and no key was used for more than 1 MiB and the next key. */
    ghost predicate Recorded()
      reads this
    {
      LogOk(h.log, h.total, h.epoch) && FewUses(h.log)
    }

    /** crypto_rng_read: the chunks follow each other, each with a key of its own. */
    method CryptoRead(blen: nat) returns (res: Result, buf: seq<Byte>, ghost choices: seq<Choice>)
      requires Valid()
      modifies this
      ensures Valid() && (res.Success? ==> |buf| == blen) && (res.Success? && old(st.active) ==> st.active)
      ensures !old(st.active) ==> st == old(st) && h == old(h) && (res.Success? <==> blen == 0)
      ensures old(st.active) ==> Recorded() && Grown(old(h), h) && !res.BadState?
      ensures res.Success? ==> |choices| == (blen + 0xf_ffff) / 0x10_0000
      ensures res.Success? && old(st.active) ==>
        && Holds(old(st), old(h))
        && Drawn(st, h.total, buf) == AfterChunks(p, Drawn(old(st), old(h).total, []), blen, choices)
    {
      buf, choices := [], [];
      ghost var start := Drawn(st, h.total, []);
      while true
        invariant Valid() && |buf| <= blen && (|buf| > 0 ==> st.active)
        invariant |buf| == if |choices| * 0x10_0000 < blen then |choices| * 0x10_0000 else blen
        invariant |choices| <= (blen + 0xf_ffff) / 0x10_0000
        invariant !old(st.active) ==> st == old(st) && h == old(h)
        invariant old(st.active) ==> st.active && Grown(old(h), h)
        invariant old(st.active) ==> Drawn(st, h.total, buf) == AfterChunks(p, start, blen, choices)
        decreases blen - |buf|
      {
        var n := ChunkLength(blen, |buf|);
        if n == 0 {
          return Success, buf, choices;
        }
        var c: Choice := *;
        var chunk;
        ghost var before := Drawn(st, h.total, buf);
        ghost var h0 := h;
        res, chunk := Read(n, c);
        if old(st.active) {
          GrownFurther(old(h), h0, h);
        }
        if !res.Success? {
          return;
        }
        ReadAppends(p, before, n, c, chunk);
        ChunksSnoc(p, start, blen, choices, c);
        buf, choices := buf + chunk, choices + [c];
      }
    }

    /** The next key, from two blocks. */
    method NextKey() returns (ok: bool)
      requires Holds(st, h) && Used(h) + 2 <= MAX_USES
      modifies this
      ensures Holds(st, h) && (ok ==> FreshKey(h)) && Grown(old(h), h)
      ensures st == old(st).(key := st.key, c0 := st.c0, c1 := st.c1)
      ensures ok ==> st.key == Stream(p, old(st).key, old(h.total), 2) && h.total == old(h.total) + 2
    {
      var key;
      ok, key := GenerateBlocks(2);
      if !ok {
        return;
      }
      ok := *;
      if ok {
        SetKey(key);
      }
    }

    /** The data and the next key. */
    method Draw(blen: nat) returns (ok: bool, buf: seq<Byte>)
      requires Holds(st, h) && FreshKey(h) && st.active && blen <= MEGABYTE
      modifies this
      ensures Holds(st, h) && st.active && (ok ==> FreshKey(h))
      ensures ok ==> Drawn(st, h.total, buf) == Taken(p, Drawn(old(st), old(h).total, []), blen)
      ensures Grown(old(h), h)
    {
      ok, buf := GenerateRandomData(blen);
      if ok {
        ok := NextKey();
        if ok {
          DrawnTaken(p, old(st), old(h).total, blen, st, h.total, buf);
        }
      }
    }

    /**
     From the start of the generator to its end, whatever the calls: every encryption of every
     call is in the log at the end, no key is used too often, and below 2^128 increments
     of the counter no two encryptions have the same key and counter.
     */
    method Session(data: seq<Byte>, calls: seq<Call>) returns (done: nat, ghost logs: seq<seq<Use>>)
      requires Valid() && !st.active
      modifies this
      ensures Valid() && done <= |calls| && (done < |calls| ==> !st.active)
      ensures |logs| == done && forall i :: 0 <= i < done ==> logs[i] <= h.log
      ensures forall e: nat :: |WithKey(h.log, e)| <= 0x1_0002
      ensures h.total <= 0x1_0000_0000_0000_0000_0000_0000_0000_0000 ==>
        forall i, j :: 0 <= i < j < |h.log| ==> h.log[i].counter != h.log[j].counter
    {
      var res := Init(data);
      done, logs := 0, [];
      while done < |calls| && st.active
        invariant Valid() && done <= |calls| && Recorded()
        invariant |logs| == done && forall i :: 0 <= i < done ==> logs[i] <= h.log
      {
        ghost var h0 := h;
        var buf;
        match calls[done] {
          case Add(e, popped) => CryptoAddEvent(e, popped);
          case Draw(n) => ghost var choices; res, buf, choices := CryptoRead(n);
        }
        LogsKept(logs, h0, h);
        done, logs := done + 1, logs + [h.log];
      }
      FewWithKey(h.log);
      NoReuseAtAll(h.log, h.total, h.epoch);
    }
  }

  lemma FewWithKey(log: seq<Use>)
    requires FewUses(log)
    ensures forall e: nat :: |WithKey(log, e)| <= MAX_USES
  {
    forall e: nat
      ensures |WithKey(log, e)| <= MAX_USES
    {
      UsesCounts(log, e);
      assert Uses(log, e) <= MAX_USES;
    }
  }

  /** What other threads ask the generator for. */
  datatype Call = Add(event: Event, popped: seq<Event>) | Draw(blen: nat)

  lemma LogsKept(logs: seq<seq<Use>>, h: History, h': History)
    requires (forall i :: 0 <= i < |logs| ==> logs[i] <= h.log) && Grown(h, h')
    ensures forall i :: 0 <= i < |logs| ==> logs[i] <= h'.log
  {
  }

  lemma NoReuseAtAll(log: seq<Use>, total: nat, epoch: nat)
    requires LogOk(log, total, epoch)
    ensures total <= 0x1_0000_0000_0000_0000_0000_0000_0000_0000 ==>
      forall i, j :: 0 <= i < j < |log| ==> log[i].counter != log[j].counter
  {
    forall i, j | 0 <= i < j < |log| && total <= 0x1_0000_0000_0000_0000_0000_0000_0000_0000
      ensures log[i].counter != log[j].counter
    {
      NoReuse(log, total, epoch, i, j);
    }
  }

  lemma DrawnTaken(p: Primitives, st: State, total: nat, n: nat, st': State, total': nat, buf: seq<Byte>)
    requires Counter(st') == Wrapped(total') && st'.c0 < 0x1_0000_0000_0000_0000 && total' == total + Ceil(n) + 2
    requires st' == st.(key := Stream(p, st.key, total + Ceil(n), 2), c0 := st'.c0, c1 := st'.c1)
    requires buf == Random(p, st.key, total, n)
    ensures Drawn(st', total', buf) == Taken(p, Drawn(st, total, []), n)
  {
    CounterAtTick(st', total');
    assert [] + buf == buf;
  }

  lemma DrainedNext(st: State, popped: seq<Event>, i: nat)
    requires i < |popped|
    ensures Drained(st, popped[i..]) == if popped[i].data == [] then st
      else Drained(Added(st, popped[i]), popped[i + 1..])
  {
    assert popped[i..][1..] == popped[i + 1..];
  }

  /** The bytes of earlier chunks only go before those of the next one. */
  lemma ReadAppends(p: Primitives, d: Drawn, n: nat, c: Choice, chunk: seq<Byte>)
    requires |d.st.pools| == POOLS && AfterRead(p, d.(buf := []), n, c).buf == chunk
    ensures AfterRead(p, d, n, c) == AfterRead(p, d.(buf := []), n, c).(buf := d.buf + chunk)
  {
    var d1 := Seeded(p, d, c.limited);
    assert Seeded(p, d.(buf := []), c.limited) == d1.(buf := []);
    if n > 0 {
      TakenAppends(p, d1, n);
    } else {
      assert chunk == [] && d.buf + chunk == d.buf;
    }
  }

  lemma TakenAppends(p: Primitives, d: Drawn, n: nat)
    ensures Taken(p, d, n) == Taken(p, d.(buf := []), n).(buf := d.buf + Taken(p, d.(buf := []), n).buf)
  {
    var r := Random(p, d.st.key, d.total, n);
    assert [] + r == r;
  }

  lemma LaterTotal(log: seq<Use>, total: nat, epoch: nat)
    requires LogOk(log, total, epoch)
    ensures LogOk(log, total + 1, epoch)
  {
  }

  lemma CutBlock(p: Primitives, k: Key, t: nat, blen: nat, buf: seq<Byte>, block: seq<Byte>)
    requires blen % 16 != 0 && buf == Stream(p, k, t, blen / 16) && block == Stream(p, k, t + blen / 16, 1)
    ensures buf + block[..blen % 16] == Random(p, k, t, blen)
  {
    var b := Encrypt(p, k, Wrapped(t + blen / 16));
    assert block == [] + b == b;
  }

  lemma NoCut(p: Primitives, k: Key, t: nat, blen: nat, buf: seq<Byte>)
    requires blen % 16 == 0 && buf == Stream(p, k, t, blen / 16)
    ensures buf == Random(p, k, t, blen)
  {
  }
}
