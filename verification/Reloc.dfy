/** Relocated read-only paging, core/mm/fobj.c: the per-page relocation index and the loading of pages. */
module Reloc {
  import opened Options

  const PAGE: nat := 0x1000
  const WORDS: nat := 512
  const NONE: nat := 0xffff
  const TWO64: nat := 0x1_0000_0000_0000_0000

  type Word = w: nat | w < TWO64

  // ---------- relocation lists ----------

  predicate Sorted(rels: seq<nat>) {
    forall i, j :: 0 <= i < j < |rels| ==> rels[i] < rels[j]
  }

  /** What get_num_rels asserts about the list. */
  predicate WellFormed(rels: seq<nat>) {
    Sorted(rels) && forall i :: 0 <= i < |rels| ==> rels[i] > 0 && rels[i] % 8 == 0
  }

  /** How many relocations are below x: in a sorted list they are the first ones. */
  function Below(rels: seq<nat>, x: nat): (k: nat)
    ensures k <= |rels|
  {
    if rels == [] then 0 else Below(rels[..|rels| - 1], x) + if rels[|rels| - 1] < x then 1 else 0
  }

  lemma {:induction false} BelowAll(rels: seq<nat>, x: nat)
    requires forall i :: 0 <= i < |rels| ==> rels[i] < x
    ensures Below(rels, x) == |rels|
  {
    if rels != [] {
      BelowAll(rels[..|rels| - 1], x);
    }
  }

  lemma {:induction false} BelowAt(rels: seq<nat>, x: nat, i: nat)
    requires Sorted(rels) && i < |rels|
    ensures i < Below(rels, x) <==> rels[i] < x
  {
    var last := |rels| - 1;
    if rels[last] < x {
      BelowAll(rels, x);
    } else if i < last {
      BelowAt(rels[..last], x, i);
    }
  }

  lemma {:induction false} BelowMonotone(rels: seq<nat>, x: nat, y: nat)
    requires x <= y
    ensures Below(rels, x) <= Below(rels, y)
  {
    if rels != [] {
      BelowMonotone(rels[..|rels| - 1], x, y);
    }
  }

  /** The relocations of an object of npg pages at base are rels[Below(base)..Below(end)]. */
  function End(base: nat, npg: nat): nat {
    base + npg * PAGE
  }

  /** Position, among the relocations of the object, of the first that is at or after page p. */
  function First(rels: seq<nat>, base: nat, p: nat): (k: int)
  {
    Below(rels, End(base, p)) - Below(rels, base)
  }

  lemma FirstMonotone(rels: seq<nat>, base: nat, p: nat, q: nat)
    requires p <= q
    ensures 0 <= First(rels, base, p) <= First(rels, base, q)
  {
    BelowMonotone(rels, base, End(base, p));
    BelowMonotone(rels, End(base, p), End(base, q));
  }

  /** get_num_rels: the count includes a relocation exactly at the end address. */
  method GetNumRels(npg: nat, base: nat, rels: seq<nat>) returns (r: Option<nat>)
    ensures r.Some? <==> WellFormed(rels)
    ensures r.Some? ==> r.value == First(rels, base, npg) + if End(base, npg) in rels then 1 else 0
  {
    var offs, nrels := 0, 0;
    var end := base + npg * PAGE;
    var n := 0;
    while n < |rels|
      invariant n <= |rels| && WellFormed(rels[..n]) && offs == LastOf(rels[..n])
      invariant nrels + Below(rels[..n], base) == Below(rels[..n], end + 1)
    {
      if rels[n] % 8 != 0 || offs >= rels[n] {
        NotWellFormed(rels, n);
        return None;
      }
      Extend(rels, n);
      offs := rels[n];
      if offs >= base && offs <= end {
        nrels := nrels + 1;
      }
      n := n + 1;
    }
    assert rels[..n] == rels;
    AtEnd(rels, end);
    r := Some(nrels);
  }

  function LastOf(rels: seq<nat>): nat {
    if rels == [] then 0 else rels[|rels| - 1]
  }

  lemma NotWellFormed(rels: seq<nat>, n: nat)
    requires n < |rels| && (rels[n] % 8 != 0 || LastOf(rels[..n]) >= rels[n])
    ensures !WellFormed(rels)
  {
  }

  lemma Extend(rels: seq<nat>, n: nat)
    requires n < |rels| && WellFormed(rels[..n]) && rels[n] % 8 == 0 && LastOf(rels[..n]) < rels[n]
    ensures WellFormed(rels[..n + 1])
    ensures forall x: nat :: Below(rels[..n + 1], x) == Below(rels[..n], x) + if rels[n] < x then 1 else 0
  {
    assert rels[..n + 1] == rels[..n] + [rels[n]];
    assert rels[..n + 1][..n] == rels[..n];
    if n > 0 {
      assert forall i :: 0 <= i < n ==> rels[..n][i] <= rels[..n][n - 1];
    }
  }

  /** One more if x itself is in the list. */
  lemma {:induction false} AtEnd(rels: seq<nat>, x: nat)
    requires Sorted(rels)
    ensures Below(rels, x + 1) == Below(rels, x) + if x in rels then 1 else 0
  {
    if rels != [] {
      var init, r := rels[..|rels| - 1], rels[|rels| - 1];
      assert rels == init + [r];
      AtEnd(init, x);
      assert x in rels <==> x in init || x == r;
    }
  }

  // ---------- the page index ----------

  /** The relocation at position k of the object, as an offset from its base. */
  function Offset(rels: seq<nat>, base: nat, k: nat): int
    requires Below(rels, base) + k < |rels|
  {
    rels[Below(rels, base) + k] - base
  }

  /** page_reloc_idx[p] after the first upto relocations: where the relocations of page p start, if it has any. */
  function Entry(rels: seq<nat>, base: nat, p: nat, upto: nat): int {
    if First(rels, base, p) < upto && First(rels, base, p) < First(rels, base, p + 1)
    then First(rels, base, p)
    else NONE
  }

  ghost predicate TablesOk(idx: seq<nat>, relocs: seq<nat>, rels: seq<nat>, base: nat) {
    var npg := |idx|;
    && First(rels, base, npg) == |relocs| <= NONE
    && (forall p :: 0 <= p < npg ==> idx[p] == Entry(rels, base, p, |relocs|))
    && (forall k :: 0 <= k < |relocs| ==> Below(rels, base) + k < |rels| && relocs[k] == Offset(rels, base, k) % PAGE)
  }

  /** The page of a relocation, and its place among those of the page. */
  lemma PageOf(rels: seq<nat>, base: nat, k: nat, pg: nat)
    requires Sorted(rels) && Below(rels, base) + k < |rels|
    ensures Offset(rels, base, k) >= 0
    ensures Offset(rels, base, k) / PAGE == pg <==> First(rels, base, pg) <= k < First(rels, base, pg + 1)
  {
    var n := Below(rels, base) + k;
    BelowAt(rels, base, n);
    BelowAt(rels, End(base, pg), n);
    BelowAt(rels, End(base, pg + 1), n);
    DivBetween(Offset(rels, base, k), pg);
  }

  lemma DivBetween(x: nat, pg: nat)
    ensures x / PAGE == pg <==> pg * PAGE <= x < pg * PAGE + PAGE
  {
  }

  lemma EntryStep(rels: seq<nat>, base: nat, k: nat, pg: nat, p: nat)
    requires Sorted(rels) && Below(rels, base) + k < |rels| && k < NONE && Offset(rels, base, k) / PAGE == pg
    ensures Entry(rels, base, p, k + 1)
      == if p == pg && Entry(rels, base, p, k) == NONE then k else Entry(rels, base, p, k)
  {
    PageOf(rels, base, k, pg);
    PageOf(rels, base, k, p);
  }

  /** Relocations below the base are skipped; the loop stops at the first one behind the object. */
  lemma AllInside(rels: seq<nat>, base: nat, npg: nat, n: nat)
    requires Sorted(rels) && n <= |rels| && Below(rels, base) <= n
    requires n < |rels| ==> rels[n] >= End(base, npg)
    requires forall i :: Below(rels, base) <= i < n ==> rels[i] < End(base, npg)
    ensures First(rels, base, npg) == n - Below(rels, base)
  {
    var m := Below(rels, End(base, npg));
    BelowMonotone(rels, base, End(base, npg));
    if m < n {
      BelowAt(rels, End(base, npg), m);
    } else if n < m {
      BelowAt(rels, End(base, npg), n);
    }
  }

  /** init_rels; ok tells whether its final assert holds: exactly if no relocation is at the end address. */
  method InitRels(idx: array<nat>, relocs: array<nat>, base: nat, rels: seq<nat>) returns (ok: bool)
    requires WellFormed(rels) && idx != relocs && First(rels, base, idx.Length) <= NONE
    requires relocs.Length == First(rels, base, idx.Length) + if End(base, idx.Length) in rels then 1 else 0
    modifies idx, relocs
    ensures ok <==> End(base, idx.Length) !in rels
    ensures ok ==> TablesOk(idx[..], relocs[..], rels, base)
  {
    var npg := idx.Length;
    for p := 0 to npg
      invariant forall q :: 0 <= q < p ==> idx[q] == NONE
    {
      idx[p] := NONE;
    }
    ghost var a := Below(rels, base);
    var reln := 0;
    var n := 0;
    FirstPositive(rels, base, npg);
    while n < |rels|
      invariant n <= |rels| && reln == (if n <= a then 0 else n - a)
      invariant forall i :: a <= i < n ==> rels[i] < End(base, npg)
      invariant forall p :: 0 <= p < npg ==> idx[p] == Entry(rels, base, p, reln)
      invariant reln <= First(rels, base, npg)
      invariant forall k :: 0 <= k < reln ==> relocs[k] == Offset(rels, base, k) % PAGE
    {
      BelowAt(rels, base, n);
      if rels[n] >= base {
        var r := rels[n] - base;
        var pg := r / PAGE;
        if pg >= npg {
          break;
        }
        Inside(rels, base, npg, n);
        forall p | 0 <= p < npg
          ensures Entry(rels, base, p, reln + 1)
            == if p == pg && Entry(rels, base, p, reln) == NONE then reln else Entry(rels, base, p, reln)
        {
          EntryStep(rels, base, reln, pg, p);
        }
        if idx[pg] == NONE {
          idx[pg] := reln % 0x1_0000;
        }
        relocs[reln] := r - pg * PAGE;
        reln := reln + 1;
      }
      n := n + 1;
    }
    StopsAt(rels, base, npg, n);
    ok := reln == relocs.Length;
  }

  lemma FirstPositive(rels: seq<nat>, base: nat, npg: nat)
    ensures forall p: nat :: First(rels, base, p) >= 0
    ensures forall p: nat :: Entry(rels, base, p, 0) == NONE
  {
    forall p: nat
      ensures First(rels, base, p) >= 0
    {
      FirstMonotone(rels, base, 0, p);
    }
  }

  lemma Inside(rels: seq<nat>, base: nat, npg: nat, n: nat)
    requires Sorted(rels) && Below(rels, base) <= n < |rels| && rels[n] < End(base, npg)
    ensures n - Below(rels, base) < First(rels, base, npg)
  {
    BelowAt(rels, End(base, npg), n);
  }

  lemma StopsAt(rels: seq<nat>, base: nat, npg: nat, n: nat)
    requires Sorted(rels) && n <= |rels|
    requires n < |rels| ==> rels[n] >= End(base, npg)
    requires forall i :: Below(rels, base) <= i < n ==> rels[i] < End(base, npg)
    ensures First(rels, base, npg) == if n <= Below(rels, base) then 0 else n - Below(rels, base)
  {
    var a := Below(rels, base);
    if n < a {
      BelowAt(rels, base, n);
    } else {
      AllInside(rels, base, npg, n);
    }
  }

  // ---------- loading pages ----------

  function Plus(w: Word, load: Word): Word {
    (w + load) % TWO64
  }

  /** The words from address addr on, with load added to those that the list names. */
  function Relocated(words: seq<Word>, rels: seq<nat>, addr: nat, load: Word): (r: seq<Word>)
    ensures |r| == |words|
    ensures forall i :: 0 <= i < |words| ==> r[i] == if addr + 8 * i in rels then Plus(words[i], load) else words[i]
  {
    seq(|words|, i requires 0 <= i < |words| => if addr + 8 * i in rels then Plus(words[i], load) else words[i])
  }

  /** A word that is relocated has grown by load modulo 2^64; another one is as before. */
  predicate Grown(before: Word, after: Word, named: bool, load: Word) {
    if named then (after - before - load) % 0x1_0000_0000_0000_0000 == 0 else after == before
  }

  /** The words from address addr on: those that the list names have grown by load. */
  predicate Loaded(words: seq<Word>, image: seq<Word>, rels: seq<nat>, addr: nat, load: Word) {
    |image| == |words| && forall i :: 0 <= i < |words| ==> Grown(words[i], image[i], addr + 8 * i in rels, load)
  }

  lemma RelocatedLoaded(words: seq<Word>, rels: seq<nat>, addr: nat, load: Word)
    ensures Loaded(words, Relocated(words, rels, addr, load), rels, addr, load)
  {
    forall i | 0 <= i < |words|
      ensures Grown(words[i], Relocated(words, rels, addr, load)[i], addr + 8 * i in rels, load)
    {
      PlusAdds(words[i], load);
    }
  }

  lemma PlusAdds(w: Word, load: Word)
    ensures (Plus(w, load) - w - load) % TWO64 == 0
  {
    assert Plus(w, load) == w + load || Plus(w, load) == w + load - TWO64;
  }

  /** Position of an address that the list names. */
  lemma {:induction false} Position(rels: seq<nat>, x: nat)
    requires Sorted(rels) && x in rels
    ensures Below(rels, x) < |rels| && rels[Below(rels, x)] == x
  {
    var i :| 0 <= i < |rels| && rels[i] == x;
    BelowAt(rels, x, i);
    if Below(rels, x) < i {
      BelowAt(rels, x, Below(rels, x));
    }
  }

  lemma PositionOf(rels: seq<nat>, i: nat)
    requires Sorted(rels) && i < |rels|
    ensures Below(rels, rels[i]) == i
  {
    Position(rels, rels[i]);
  }

  /** Word i of page p is relocated by one of the first n relocations of the object. */
  predicate Done(rels: seq<nat>, base: nat, p: nat, n: int, i: nat) {
    var x := End(base, p) + 8 * i;
    x in rels && Below(rels, x) < Below(rels, base) + n
  }

  /** The relocation at position n of the object changes exactly one word of its page. */
  lemma DoneStep(rels: seq<nat>, base: nat, p: nat, n: nat, i: nat)
    requires WellFormed(rels) && base % 8 == 0 && Below(rels, base) + n < |rels| &&
      First(rels, base, p) <= n < First(rels, base, p + 1) && i < WORDS
    ensures Offset(rels, base, n) >= 0 && Offset(rels, base, n) % PAGE / 8 < WORDS
    ensures Done(rels, base, p, n + 1, i) <==> Done(rels, base, p, n, i) || i == Offset(rels, base, n) % PAGE / 8
    ensures i == Offset(rels, base, n) % PAGE / 8 ==> !Done(rels, base, p, n, i)
  {
    var k := Below(rels, base) + n;
    PageOf(rels, base, n, p);
    PositionOf(rels, k);
    WordOf(rels[k], base, p);
    var x := End(base, p) + 8 * i;
    if x in rels {
      Position(rels, x);
    }
    assert rels[k] in rels;
  }

  lemma WordOf(x: nat, base: nat, p: nat)
    requires x >= base && (x - base) / PAGE == p && x % 8 == 0 && base % 8 == 0
    ensures (x - base) % PAGE / 8 < WORDS
    ensures forall i :: x == End(base, p) + 8 * i <==> i == (x - base) % PAGE / 8
  {
    var r := (x - base) % PAGE;
    assert x == base + p * PAGE + r && r % 8 == 0;
  }

  /** Before its first relocation no word of a page is done, and after its last all are that the list names. */
  lemma DoneEnds(rels: seq<nat>, base: nat, p: nat, i: nat)
    requires Sorted(rels) && i < WORDS
    ensures !Done(rels, base, p, First(rels, base, p), i)
    ensures Done(rels, base, p, First(rels, base, p + 1), i) <==> End(base, p) + 8 * i in rels
  {
    var x := End(base, p) + 8 * i;
    FirstMonotone(rels, base, p, p + 1);
    BelowMonotone(rels, End(base, p), x);
    if x in rels {
      Position(rels, x);
      BelowAt(rels, End(base, p + 1), Below(rels, x));
    }
  }

  /** The next page with relocations starts where those of page p end. */
  lemma NextStart(rels: seq<nat>, base: nat, p: nat, q: nat, npg: nat, num: nat)
    requires p < q <= npg && num == First(rels, base, npg) <= NONE
    requires forall m :: p < m < q ==> Entry(rels, base, m, num) == NONE
    ensures First(rels, base, p + 1) == First(rels, base, q)
    decreases q - p
  {
    if p + 1 < q {
      NextStart(rels, base, p, q - 1, npg, num);
      FirstMonotone(rels, base, q - 1, q);
      FirstMonotone(rels, base, q, npg);
      assert Entry(rels, base, q - 1, num) == NONE;
    }
  }

  datatype Result = Success | Security

  /** struct fobj_ro_reloc_paged; the check of the page hash is a function of the page's words. */
  class Fobj {
    const idx: array<nat>
    const relocs: array<nat>
    const store: seq<seq<Word>>
    const verified: (nat, seq<Word>) -> bool

    ghost predicate Valid(rels: seq<nat>, base: nat)
      reads idx, relocs
    {
      && WellFormed(rels) && base % 8 == 0 && |store| == idx.Length &&
        (forall p :: 0 <= p < |store| ==> |store[p]| == WORDS)
      && TablesOk(idx[..], relocs[..], rels, base)
    }

    constructor (idx: array<nat>, relocs: array<nat>, store: seq<seq<Word>>, verified: (nat, seq<Word>) -> bool)
      ensures this.idx == idx && this.relocs == relocs && this.store == store && this.verified == verified
    {
      this.idx, this.relocs, this.store, this.verified := idx, relocs, store, verified;
    }

    /** The search of rrp_load_page for the end of a page's relocations. */
    method EndOf(p: nat, ghost rels: seq<nat>, ghost base: nat) returns (end: nat)
      requires Valid(rels, base) && p < idx.Length
      ensures end == First(rels, base, p + 1) <= relocs.Length
    {
      ghost var npg := idx.Length;
      end := relocs.Length;
      var n := p + 1;
      while n < idx.Length
        invariant p < n <= npg && end == relocs.Length
        invariant forall m :: p < m < n ==> Entry(rels, base, m, relocs.Length) == NONE
      {
        if idx[n] != NONE {
          end := idx[n];
          break;
        }
        n := n + 1;
      }
      NextStart(rels, base, p, n, npg, relocs.Length);
      FirstMonotone(rels, base, n, npg);
    }

    /**
     rrp_load_page into the page buffer va: the stored page, relocated for its addresses, once
     its hash is verified.
    */
    method LoadPage(p: nat, va: array<Word>, load: Word, ghost rels: seq<nat>, ghost base: nat) returns (res: Result)
      requires Valid(rels, base) && p < idx.Length && va.Length == WORDS
      modifies va
      ensures res == if verified(p, store[p]) then Success else Security
      ensures res.Success? ==> Loaded(store[p], va[..], rels, base + p * 0x1000, load)
      ensures va[..] == if res.Success? then Relocated(store[p], rels, End(base, p), load) else store[p]
    {
      forall i | 0 <= i < WORDS {
        va[i] := store[p][i];
      }
      assert va[..] == store[p];
      if !verified(p, va[..]) {
        return Security;
      }
      var end := EndOf(p, rels, base);
      FirstMonotone(rels, base, 0, p);
      FirstMonotone(rels, base, p, p + 1);
      Apply(va, idx[p], end, p, load, rels, base);
      RelocatedLoaded(store[p], rels, End(base, p), load);
      res := Success;
    }

    /** The loop that relocates the words. */
    method Apply(va: array<Word>, start: nat, end: nat, p: nat, load: Word, ghost rels: seq<nat>, ghost base: nat)
      requires Valid(rels, base) && p < idx.Length && va.Length == WORDS
      requires start == idx[p] && end == First(rels, base, p + 1) <= relocs.Length
      modifies va
      ensures Loaded(old(va[..]), va[..], rels, base + p * 0x1000, load)
      ensures va[..] == Relocated(old(va[..]), rels, End(base, p), load)
    {
      RelocatedLoaded(va[..], rels, End(base, p), load);
      var n := start;
      FirstMonotone(rels, base, p, p + 1);
      forall i | 0 <= i < WORDS
        ensures !Done(rels, base, p, First(rels, base, p), i)
        ensures Done(rels, base, p, First(rels, base, p + 1), i) <==> End(base, p) + 8 * i in rels
      {
        DoneEnds(rels, base, p, i);
      }
      while n < end
        invariant start <= n && (start < end ==> n <= end)
        invariant start < end ==> forall i :: 0 <= i < WORDS ==>
          va[i] == if Done(rels, base, p, n, i) then Plus(old(va[i]), load) else old(va[i])
        invariant start >= end ==> va[..] == old(va[..])
      {
        forall i | 0 <= i < WORDS
          ensures Done(rels, base, p, n + 1, i) <==> Done(rels, base, p, n, i) || i == relocs[n] / 8
          ensures i == relocs[n] / 8 ==> !Done(rels, base, p, n, i)
        {
          DoneStep(rels, base, p, n, i);
        }
        DoneStep(rels, base, p, n, 0);
        va[relocs[n] / 8] := Plus(va[relocs[n] / 8], load);
        n := n + 1;
      }
    }
  }

  // ---------- the whole image ----------

  function Flat(pages: seq<seq<Word>>): seq<Word> {
    if pages == [] then [] else Flat(pages[..|pages| - 1]) + pages[|pages| - 1]
  }

  predicate Pages(pages: seq<seq<Word>>) {
    forall p :: 0 <= p < |pages| ==> |pages[p]| == WORDS
  }

  lemma {:induction false} FlatLength(pages: seq<seq<Word>>)
    requires Pages(pages)
    ensures |Flat(pages)| == |pages| * WORDS
  {
    if pages != [] {
      FlatLength(pages[..|pages| - 1]);
    }
  }

  /** Word j of page p is at its place in the string of all words. */
  lemma {:induction false} FlatAt(pages: seq<seq<Word>>, p: nat, j: nat)
    requires Pages(pages) && p < |pages| && j < WORDS
    ensures p * WORDS + j < |Flat(pages)| && Flat(pages)[p * WORDS + j] == pages[p][j]
  {
    var last := |pages| - 1;
    FlatLength(pages);
    FlatLength(pages[..last]);
    if p < last {
      FlatAt(pages[..last], p, j);
    }
  }

  /** The image of all pages: every word is the stored one, with load added at the addresses of the list. */
  predicate Image(store: seq<seq<Word>>, image: seq<Word>, rels: seq<nat>, base: nat, load: Word)
    requires Pages(store)
  {
    |image| == 512 * |store|
    && forall p, j :: 0 <= p < |store| && 0 <= j < 512 ==>
      Grown(store[p][j], image[512 * p + j], base + 0x1000 * p + 8 * j in rels, load)
  }

  lemma RelocatedImage(store: seq<seq<Word>>, rels: seq<nat>, base: nat, load: Word)
    requires Pages(store)
    ensures Image(store, Relocated(Flat(store), rels, base, load), rels, base, load)
  {
    var image := Relocated(Flat(store), rels, base, load);
    FlatLength(store);
    forall p, j | 0 <= p < |store| && 0 <= j < 512
      ensures Grown(store[p][j], image[512 * p + j], base + 0x1000 * p + 8 * j in rels, load)
    {
      WordGrown(store, rels, base, load, p, j);
    }
  }

  lemma WordGrown(store: seq<seq<Word>>, rels: seq<nat>, base: nat, load: Word, p: nat, j: nat)
    requires Pages(store) && p < |store| && j < 512
    ensures |Relocated(Flat(store), rels, base, load)| == 512 * |store|
    ensures Grown(store[p][j], Relocated(Flat(store), rels, base, load)[512 * p + j],
                  base + 0x1000 * p + 8 * j in rels, load)
  {
    FlatLength(store);
    FlatAt(store, p, j);
    RelocatedLoaded(Flat(store), rels, base, load);
    assert Grown(Flat(store)[512 * p + j], Relocated(Flat(store), rels, base, load)[512 * p + j],
                 base + 8 * (512 * p + j) in rels, load);
  }

  /** Relocating two adjoining pieces is relocating the whole. */
  lemma RelocatedConcat(a: seq<Word>, b: seq<Word>, rels: seq<nat>, addr: nat, load: Word, addr': nat)
    requires addr' == addr + 8 * |a|
    ensures Relocated(a + b, rels, addr, load) == Relocated(a, rels, addr, load) + Relocated(b, rels, addr', load)
  {
  }

  lemma FlatNext(pages: seq<seq<Word>>, p: nat)
    requires p < |pages|
    ensures Flat(pages[..p + 1]) == Flat(pages[..p]) + pages[p]
  {
    assert pages[..p + 1][..p] == pages[..p];
  }

  lemma {:induction false} NoneInside(rels: seq<nat>, words: seq<Word>, base: nat, npg: nat, load: Word)
    requires Sorted(rels) && |words| == npg * WORDS && First(rels, base, npg) == 0
    ensures Relocated(words, rels, base, load) == words
  {
    forall i | 0 <= i < |words|
      ensures base + 8 * i !in rels
    {
      if base + 8 * i in rels {
        var k :| 0 <= k < |rels| && rels[k] == base + 8 * i;
        BelowAt(rels, base, k);
        BelowAt(rels, End(base, npg), k);
      }
    }
  }

  /**
   fobj_ro_reloc_paged_alloc and the loading of every page: all asserts hold exactly if the
   list is well formed and names no word at the end address, and then the pages make up the
   image with load added at exactly the listed words.
   */
  method LoadImage(base: nat, rels: seq<nat>, store: seq<seq<Word>>, verified: (nat, seq<Word>) -> bool, load: Word)
    returns (asserts: bool, ok: bool, image: seq<Word>)
    requires Pages(store) && base % 8 == 0 && First(rels, base, |store|) <= NONE
    ensures asserts <==> WellFormed(rels) && base + 0x1000 * |store| !in rels
    ensures asserts ==> (ok <==> forall p :: 0 <= p < |store| ==> verified(p, store[p]))
    ensures asserts && ok ==> Image(store, image, rels, base, load)
    ensures asserts && ok ==> image == Relocated(Flat(store), rels, base, load)
  {
    asserts, ok, image := false, false, [];
    var npg := |store|;
    var nrels := GetNumRels(npg, base, rels);
    if nrels.None? {
      return;
    }
    var idx, relocs := new nat[npg], new nat[nrels.value];
    if nrels.value > 0 {
      asserts := InitRels(idx, relocs, base, rels);
      if !asserts {
        return;
      }
    }
    asserts, ok := true, true;
    FlatLength(store);
    RelocatedImage(store, rels, base, load);
    if nrels.value == 0 {
      FirstMonotone(rels, base, 0, npg);
      NoneInside(rels, Flat(store), base, npg, load);
      ok, image := LoadPlain(store, verified);
      return;
    }
    var f := new Fobj(idx, relocs, store, verified);
    ok, image := LoadRelocated(f, load, rels, base);
  }

  /** All pages through rop_load_page: unchanged. */
  method LoadPlain(store: seq<seq<Word>>, verified: (nat, seq<Word>) -> bool) returns (ok: bool, image: seq<Word>)
    ensures ok <==> forall p :: 0 <= p < |store| ==> verified(p, store[p])
    ensures image == Flat(store)
  {
    ok, image := true, [];
    for p := 0 to |store|
      invariant ok <==> forall q :: 0 <= q < p ==> verified(q, store[q])
      invariant image == Flat(store[..p])
    {
      FlatNext(store, p);
      ok := ok && verified(p, store[p]);
      image := image + store[p];
    }
    assert store[..|store|] == store;
  }

  lemma PageAppended(store: seq<seq<Word>>, p: nat, rels: seq<nat>, base: nat, load: Word)
    requires Pages(store) && p < |store|
    ensures Relocated(Flat(store[..p + 1]), rels, base, load)
      == Relocated(Flat(store[..p]), rels, base, load) + Relocated(store[p], rels, End(base, p), load)
  {
    FlatNext(store, p);
    FlatLength(store[..p]);
    RelocatedConcat(Flat(store[..p]), store[p], rels, base, load, End(base, p));
  }

  /** All pages through rrp_load_page. */
  method LoadRelocated(f: Fobj, load: Word, ghost rels: seq<nat>, ghost base: nat) returns (ok: bool, image: seq<Word>)
    requires f.Valid(rels, base)
    ensures ok <==> forall p :: 0 <= p < |f.store| ==> f.verified(p, f.store[p])
    ensures ok ==> Image(f.store, image, rels, base, load)
    ensures ok ==> image == Relocated(Flat(f.store), rels, base, load)
  {
    ok, image := true, [];
    for p := 0 to |f.store|
      invariant ok <==> forall q :: 0 <= q < p ==> f.verified(q, f.store[q])
      invariant ok ==> image == Relocated(Flat(f.store[..p]), rels, base, load)
    {
      var va := new Word[WORDS];
      var res := f.LoadPage(p, va, load, rels, base);
      PageAppended(f.store, p, rels, base, load);
      ok := ok && res.Success?;
      image := image + va[..];
    }
    assert f.store[..|f.store|] == f.store;
    RelocatedImage(f.store, rels, base, load);
  }
}
