/** Covering an address range with TZC-380 regions: tzc_auto_configure of core/drivers/tzc380.c. */
module Tzc380 {
  import opened Bytes
  import opened Arithmetic

  const TWO64: nat := 0x1_0000_0000_0000_0000

  /**
   A configured region of 2^pow bytes at base, cut into eight sub-regions; the disabled ones
   are marked. Region 0 takes no address.
  */
  datatype Region = Region(number: nat, base: nat, pow: nat, disabled: seq<bool>)

  // ---------- arithmetic ----------

  lemma Pow2Values()
    ensures Pow2(64) == TWO64 && Pow2(3) == 8 && Pow2(1) == 2 && Pow2(0) == 1
  {
    assert Pow2(8) == 256;
    Pow2Add(8, 8);
    Pow2Add(16, 16);
    Pow2Add(32, 32);
  }

  /** The sum of two 64-bit numbers, in 64 bits. */
  function Sum(a: nat, b: nat): nat {
    if a + b < TWO64 then a + b else a + b - TWO64
  }

  /** A power of two divides all higher ones. */
  lemma Pow2Divides(a: nat, b: nat)
    requires a <= b
    ensures Divides(Pow2(a), Pow2(b)) && Pow2(a) <= Pow2(b)
  {
    Pow2Add(b - a, a);
    Multiple(Pow2(b - a), Pow2(a));
    assert Pow2(b - a) >= 1;
    assert Pow2(b) == Pow2(b - a) * Pow2(a) >= Pow2(a);
  }

  /** Wrapping around does not change divisibility by a power of two. */
  lemma DividesWrapped(pow: nat, a: nat, b: nat)
    requires pow <= 64
    ensures Divides(Pow2(pow), Sum(a, b)) <==> Divides(Pow2(pow), a + b)
  {
    Pow2Values();
    Pow2Divides(pow, 64);
    if a + b >= TWO64 {
      DividesSum(Pow2(pow), TWO64, a + b - TWO64);
    }
  }

  /** The size of i sub-regions of size sub. */
  function Offset(i: nat, sub: nat): nat
    decreases i, sub
  {
    if i == 0 then 0 else Offset(i - 1, sub) + sub
  }

  lemma {:induction false} OffsetValue(i: nat, sub: nat)
    ensures Offset(i, sub) == i * sub
    decreases i
  {
    if i > 0 {
      OffsetValue(i - 1, sub);
      assert i * sub == (i - 1) * sub + sub;
    }
  }

  lemma {:induction false} OffsetOrder(i: nat, j: nat, sub: nat)
    requires i < j
    ensures Offset(i, sub) + sub <= Offset(j, sub)
    decreases j
  {
    if i < j - 1 {
      OffsetOrder(i, j - 1, sub);
    }
  }

  /** The largest multiple of d that is at most n: n / d * d in the source. */
  function RoundDown(n: nat, d: nat): (r: nat)
    requires d > 0
    ensures r <= n < r + d
    decreases n, d
  {
    if n < d then 0 else RoundDown(n - d, d) + d
  }

  lemma {:induction false} RoundDownValue(n: nat, d: nat)
    requires d > 0
    ensures RoundDown(n, d) == n / d * d
    decreases n
  {
    if n >= d {
      RoundDownValue(n - d, d);
      OneMore(n, d);
    } else {
      DivUnique(n, d, 0, n);
    }
  }

  lemma OneMore(n: nat, d: nat)
    requires 0 < d <= n
    ensures n / d * d == (n - d) / d * d + d
  {
    var q, r := (n - d) / d, (n - d) % d;
    assert (q + 1) * d == q * d + d;
    DivUnique(n, d, q + 1, r);
  }

  /** A multiple of sub below i * sub is one of the first i. */
  lemma {:induction false} WhichMultiple(n: nat, sub: nat, i: nat) returns (j: nat)
    requires sub > 0 && Divides(sub, n) && n < Offset(i, sub)
    ensures j < i && n == Offset(j, sub)
    decreases i
  {
    if n < sub {
      j := 0;
    } else {
      var k := WhichMultiple(n - sub, sub, i - 1);
      j := k + 1;
    }
  }

  /** The place of an address within the naturally aligned region around it. */
  lemma {:induction false} Place(address: nat, sub: nat) returns (j: nat)
    requires sub > 0 && Divides(sub, address)
    ensures j < 8 && address == RoundDown(address, 8 * sub) + Offset(j, sub)
    ensures Divides(4 * sub, address) ==> j == 0 || j == 4
    decreases address
  {
    EightOffset(sub);
    if address < 8 * sub {
      j := WhichMultiple(address, sub, 8);
      if Divides(4 * sub, address) {
        HalfPlace(sub, j);
      }
    } else {
      Multiple(8, sub);
      DividesLess(sub, address, 8 * sub);
      Multiple(2, 4 * sub);
      DividesSum(4 * sub, 8 * sub, address - 8 * sub);
      j := Place(address - 8 * sub, sub);
    }
  }

  /** Half of a region is four sub-regions. */
  lemma HalfPlace(sub: nat, j: nat)
    requires sub > 0 && j < 8 && Divides(4 * sub, Offset(j, sub))
    ensures j == 0 || j == 4
  {
    OffsetValue(4, sub);
    if 0 < j < 4 {
      OffsetOrder(0, j, sub);
      OffsetOrder(j, 4, sub);
    } else if 4 < j {
      EightOffset(sub);
      OffsetOrder(4, j, sub);
      OffsetOrder(j, 8, sub);
    }
  }

  lemma EightOffset(sub: nat)
    ensures Offset(8, sub) == 8 * sub
  {
    OffsetValue(8, sub);
  }

  lemma QuotientBelow(n: nat, d: nat, k: nat)
    requires d > 0 && n < k * d
    ensures n / d * d + d <= k * d
  {
    var q := n / d;
    assert q * d <= n;
    if k < q {
      MulOrder(k, q, d);
    } else if q < k {
      MulOrder(q, k, d);
    }
  }

  /** The region around an address ends within 64 bits. */
  lemma RegionFits(address: nat, pow: nat)
    requires pow <= 64 && address < TWO64
    ensures RoundDown(address, Pow2(pow)) + Pow2(pow) <= TWO64
  {
    Pow2Values();
    Pow2Add(64 - pow, pow);
    QuotientBelow(address, Pow2(pow), Pow2(64 - pow));
    RoundDownValue(address, Pow2(pow));
  }

  // ---------- coverage ----------

  /** Sub-region i of r is enabled and contains x. */
  predicate Hits(r: Region, i: int, x: nat) {
    && 0 <= i < 8 && |r.disabled| == 8 && !r.disabled[i] && r.pow >= 3 && r.number > 0
    && r.base + Offset(i, Pow2(r.pow - 3)) <= x < r.base + Offset(i + 1, Pow2(r.pow - 3))
  }

  predicate Covers(r: Region, x: nat) {
    exists i :: 0 <= i < 8 && Hits(r, i, x)
  }

  /** The regions cover consecutive ranges: region k exactly [cuts[k], cuts[k + 1]). */
  ghost predicate Consecutive(regs: seq<Region>, cuts: seq<nat>) {
    && |cuts| == |regs| + 1
    && (forall k :: 0 < k < |cuts| ==> cuts[k - 1] <= cuts[k])
    && (forall k, x: nat :: 0 <= k < |regs| ==> (Covers(regs[k], x) <==> cuts[k] <= x < cuts[k + 1]))
  }

  predicate Covered(regs: seq<Region>, x: nat) {
    exists k :: 0 <= k < |regs| && Covers(regs[k], x)
  }

  /** The enabled sub-regions are exactly [lo, hi) and no two of them overlap. */
  ghost predicate CoversExactly(regs: seq<Region>, lo: nat, hi: nat) {
    && (forall x: nat :: Covered(regs, x) <==> lo <= x < hi)
    && (forall k, l, i, j, x :: 0 <= k < |regs| && 0 <= l < |regs| && Hits(regs[k], i, x) && Hits(regs[l], j, x) ==>
      k == l && i == j)
  }

  lemma {:induction false} CutsOrdered(cuts: seq<nat>, k: nat, l: nat)
    requires (forall k :: 0 < k < |cuts| ==> cuts[k - 1] <= cuts[k]) && k <= l < |cuts|
    ensures cuts[k] <= cuts[l]
    decreases l - k
  {
    if k < l {
      CutsOrdered(cuts, k, l - 1);
    }
  }

  lemma FindCut(cuts: seq<nat>, x: nat, n: nat) returns (k: nat)
    requires 0 < n < |cuts| && cuts[0] <= x < cuts[n]
    ensures k < n && cuts[k] <= x < cuts[k + 1]
  {
    if cuts[n - 1] <= x {
      k := n - 1;
    } else {
      k := FindCut(cuts, x, n - 1);
    }
  }

  lemma OneSubRegion(r: Region, i: int, j: int, x: nat)
    requires Hits(r, i, x) && Hits(r, j, x)
    ensures i == j
  {
    var sub := Pow2(r.pow - 3);
    if i < j {
      OffsetOrder(i, j, sub);
    } else if j < i {
      OffsetOrder(j, i, sub);
    }
  }

  lemma ConsecutiveCovers(regs: seq<Region>, cuts: seq<nat>)
    requires Consecutive(regs, cuts)
    ensures CoversExactly(regs, cuts[0], cuts[|regs|])
  {
    forall x: nat
      ensures Covered(regs, x) <==> cuts[0] <= x < cuts[|regs|]
    {
      if cuts[0] <= x < cuts[|regs|] {
        var k := FindCut(cuts, x, |regs|);
        assert Covers(regs[k], x);
      }
      if Covered(regs, x) {
        var k :| 0 <= k < |regs| && Covers(regs[k], x);
        CutsOrdered(cuts, 0, k);
        CutsOrdered(cuts, k + 1, |regs|);
      }
    }
    forall k, l, i, j, x | 0 <= k < |regs| && 0 <= l < |regs| && Hits(regs[k], i, x) && Hits(regs[l], j, x)
      ensures k == l && i == j
    {
      assert Covers(regs[k], x) && Covers(regs[l], x);
      if k < l {
        CutsOrdered(cuts, k + 1, l);
      } else if l < k {
        CutsOrdered(cuts, l + 1, k);
      }
      OneSubRegion(regs[k], i, j, x);
    }
  }

  // ---------- the configuration ----------

  /** TZC_ATTR_SUBREGION_DIS for all i outside [from, upto). */
  function Disabled(from: nat, upto: nat): (d: seq<bool>)
    ensures |d| == 8
  {
    seq(8, i requires 0 <= i < 8 => !(from <= i < upto))
  }

  /** The sub-region that contains an address. */
  lemma {:induction false} SubRegionOf(n: nat, upto: nat, sub: nat) returns (i: nat)
    requires n < Offset(upto, sub)
    ensures i < upto && Offset(i, sub) <= n < Offset(i + 1, sub)
    decreases upto
  {
    if Offset(upto - 1, sub) <= n {
      i := upto - 1;
    } else {
      i := SubRegionOf(n, upto - 1, sub);
    }
  }

  /** Enabled sub-region i lies between the first and the last one. */
  lemma HitsWithin(r: Region, from: nat, upto: nat, i: nat, x: nat)
    requires from <= upto <= 8 && r.disabled == Disabled(from, upto) && Hits(r, i, x)
    ensures r.base + Offset(from, Pow2(r.pow - 3)) <= x < r.base + Offset(upto, Pow2(r.pow - 3))
  {
    var sub := Pow2(r.pow - 3);
    if from < i {
      OffsetOrder(from, i, sub);
    }
    if i + 1 < upto {
      OffsetOrder(i + 1, upto, sub);
    }
  }

  lemma HitBetween(r: Region, from: nat, upto: nat, x: nat) returns (i: nat)
    requires from <= upto <= 8 && r.disabled == Disabled(from, upto) && r.pow >= 3 && r.number > 0
    requires r.base + Offset(from, Pow2(r.pow - 3)) <= x < r.base + Offset(upto, Pow2(r.pow - 3))
    ensures i < 8 && Hits(r, i, x)
  {
    var sub := Pow2(r.pow - 3);
    i := SubRegionOf(x - r.base, upto, sub);
    if i + 1 < from {
      OffsetOrder(i + 1, from, sub);
    }
  }

  /** Enabled sub-regions [from, upto) cover one range of addresses. */
  lemma RangeCovered(r: Region, from: nat, upto: nat, x: nat)
    requires from <= upto <= 8 && r.disabled == Disabled(from, upto) && r.pow >= 3 && r.number > 0
    ensures Covers(r, x) <==> r.base + Offset(from, Pow2(r.pow - 3)) <= x < r.base + Offset(upto, Pow2(r.pow - 3))
  {
    if i: nat :| i < 8 && Hits(r, i, x) {
      HitsWithin(r, from, upto, i, x);
    }
    if r.base + Offset(from, Pow2(r.pow - 3)) <= x < r.base + Offset(upto, Pow2(r.pow - 3)) {
      var i := HitBetween(r, from, upto, x);
    }
  }

  /**
   The loop over the sub-regions of size sub of the region at base. If the range ends below
   2^64 the enabled ones start at address and go as far as the range and the region do;
   otherwise the comparison with the wrapped end disables all of them.
   */
  method SubRegions(base: nat, sub: nat, ghost j: nat, address: nat, lsize: nat)
    returns (disabled: seq<bool>, address': nat, lsize': nat, ghost c: nat)
    requires sub > 0 && j < 8 && address == base + Offset(j, sub) && base + Offset(8, sub) <= TWO64 &&
      address < TWO64 && lsize < TWO64
    requires lsize > 2 * sub
    ensures address + lsize < TWO64 ==> j <= c <= 8 && disabled == Disabled(j, c)
    ensures address + lsize < TWO64 ==> address' == base + Offset(c, sub) && address' + lsize' == address + lsize
    ensures address + lsize < TWO64 ==> c == 8 || address' + sub > address + lsize
    ensures address + lsize >= TWO64 ==> disabled == Disabled(j, j) && address' == address && lsize' == lsize
  {
    disabled, address', lsize', c := [], address, lsize, j;
    for i := 0 to 8
      invariant j <= c <= 8 && (i <= j ==> c == j) && (i > j ==> c <= i)
      invariant |disabled| == i && forall k :: 0 <= k < i ==> disabled[k] == !(j <= k < c)
      invariant address' == base + Offset(c, sub) && address' + lsize' == address + lsize
      invariant address + lsize >= TWO64 ==> c == j
      invariant address + lsize < TWO64 && j < i && c < i ==> address' + sub > address + lsize
    {
      OffsetValue(i + 1, sub);
      OffsetPlaces(i, c, sub);
      var area := (i + 1) * sub;
      var limit := Sum(base, area);
      if limit <= address' || limit > Sum(address', lsize') {
        disabled := disabled + [true];
      } else {
        disabled := disabled + [false];
        address' := address' + sub;
        lsize' := lsize' - sub;
        c := c + 1;
      }
    }
    assert disabled == Disabled(j, c);
  }

  lemma OffsetPlaces(i: nat, c: nat, sub: nat)
    requires i < 8 && c <= 8
    ensures Offset(i + 1, sub) <= Offset(8, sub)
    ensures i < c ==> Offset(i + 1, sub) <= Offset(c, sub)
    ensures c < i ==> Offset(c, sub) + sub <= Offset(i, sub)
  {
    if i + 1 < 8 {
      OffsetOrder(i + 1, 8, sub);
    }
    if i + 1 < c {
      OffsetOrder(i + 1, c, sub);
    }
    if c < i {
      OffsetOrder(c, i, sub);
    }
  }

  /** The variables of tzc_auto_configure and the regions configured so far. */
  datatype Config = Config(address: nat, lsize: nat, regs: seq<Region>)

  /** All regions so far cover the range from addr up to the current address, which has wrapped if it is 2^64. */
  ghost predicate Normal(cfg: Config, cuts: seq<nat>, addr: nat, size: nat, region: nat) {
    && Consecutive(cfg.regs, cuts) && cuts[0] == addr && cuts[|cfg.regs|] + cfg.lsize == addr + size
    && cuts[|cfg.regs|] <= TWO64 && cfg.address == cuts[|cfg.regs|] % TWO64 &&
      (cfg.lsize > 0 ==> cuts[|cfg.regs|] < TWO64)
    && forall k :: 0 <= k < |cfg.regs| ==> cfg.regs[k].number == region + k
  }

  /** Whole regions of decreasing size will never use up what is left. */
  predicate Stuck(cfg: Config, pow: nat) {
    cfg.lsize > 0 && cfg.address < TWO64 && Divides(Pow2(pow), cfg.address) && Divides(Pow2(pow), cfg.lsize)
  }

  predicate FitsWhole(cfg: Config, pow: nat) {
    Divides(Pow2(pow), cfg.address) && Divides(Pow2(pow), Sum(cfg.address, cfg.lsize))
  }

  lemma WholeLeft(cfg: Config, pow: nat)
    requires FitsWhole(cfg, pow) && cfg.lsize > 0 && cfg.address < TWO64 && pow <= 63
    ensures cfg.lsize >= Pow2(pow) && Divides(Pow2(pow), cfg.lsize - Pow2(pow))
    ensures cfg.address + Pow2(pow) <= TWO64 && Divides(Pow2(pow), Sum(cfg.address, Pow2(pow)))
  {
    DividesWrapped(pow, cfg.address, cfg.lsize);
    TakeOne(Pow2(pow), cfg.address, cfg.lsize);
    WholeFits(cfg.address, pow);
    DividesWrapped(pow, cfg.address, Pow2(pow));
  }

  lemma TakeOne(d: nat, a: nat, l: nat)
    requires d > 0 && Divides(d, a) && Divides(d, a + l) && l > 0
    ensures l >= d && Divides(d, l - d) && Divides(d, a + d)
  {
    DividesSum(d, a, l);
    Multiple(1, d);
    DividesLess(d, l, d);
    DividesSum(d, a, d);
  }

  lemma WholeFits(address: nat, pow: nat)
    requires Divides(Pow2(pow), address) && address < TWO64 && pow <= 64
    ensures address + Pow2(pow) <= TWO64
  {
    Pow2Values();
    Pow2Add(64 - pow, pow);
    MultipleBelow(address, Pow2(pow), Pow2(64 - pow));
  }

  lemma MultipleBelow(n: nat, d: nat, k: nat)
    requires d > 0 && Divides(d, n) && n < k * d
    ensures n + d <= k * d
  {
    DividesMod(d, n);
    var q := n / d;
    assert n == q * d;
    if k < q {
      MulOrder(k, q, d);
    } else if q < k {
      MulOrder(q, k, d);
    }
  }

  /** Once stuck, a whole region fits at every step, and something is left after it. */
  lemma StuckStays(cfg: Config, pow: nat)
    requires Stuck(cfg, pow + 1) && pow <= 63
    ensures FitsWhole(cfg, pow) && cfg.lsize > Pow2(pow)
  {
    var rs := Pow2(pow);
    DividesTrans(rs, Pow2(pow + 1), 2, cfg.address);
    DividesTrans(rs, Pow2(pow + 1), 2, cfg.lsize);
    DividesSum(rs, cfg.address, cfg.lsize);
    DividesWrapped(pow, cfg.address, cfg.lsize);
    Multiple(0, Pow2(pow + 1));
    DividesSum(Pow2(pow + 1), 0, cfg.lsize);
  }

  function WholeRegion(cfg: Config, pow: nat, number: nat): Config {
    Config(Sum(cfg.address, Pow2(pow)), if cfg.lsize >= Pow2(pow) then cfg.lsize - Pow2(pow) else 0,
           cfg.regs + [Region(number, cfg.address, pow, Disabled(0, 8))])
  }

  lemma ConsecutiveNext(regs: seq<Region>, cuts: seq<nat>, r: Region, cut: nat)
    requires Consecutive(regs, cuts) && cuts[|regs|] <= cut
    requires forall x: nat :: Covers(r, x) <==> cuts[|regs|] <= x < cut
    ensures Consecutive(regs + [r], cuts + [cut])
  {
  }

  /** The last whole region ends the range. */
  lemma WholeLast(cfg: Config, cuts: seq<nat>, addr: nat, size: nat, region: nat, pow: nat)
    requires Normal(cfg, cuts, addr, size, region) && cfg.lsize == Pow2(pow) && cfg.address + Pow2(pow) <= TWO64
    requires 3 <= pow <= 63 && region > 0
    ensures Normal(WholeRegion(cfg, pow, region + |cfg.regs|), cuts + [cuts[|cfg.regs|] + Pow2(pow)], addr, size,
      region)
  {
    var reg := Region(region + |cfg.regs|, cfg.address, pow, Disabled(0, 8));
    WholeCovers(reg);
    ConsecutiveNext(cfg.regs, cuts, reg, cuts[|cfg.regs|] + Pow2(pow));
  }

  /** A whole region, where it fits: the range is used up or the rest is stuck. */
  lemma WholeKeeps(cfg: Config, cuts: seq<nat>, addr: nat, size: nat, region: nat, pow: nat) returns (cuts': seq<nat>)
    requires Normal(cfg, cuts, addr, size, region) && FitsWhole(cfg, pow) && cfg.lsize > 0 && cfg.address < TWO64 &&
      3 <= pow <= 63 && region > 0
    ensures var cfg' := WholeRegion(cfg, pow, region + |cfg.regs|);
      if cfg'.lsize == 0 then Normal(cfg', cuts', addr, size, region) else Stuck(cfg', pow)
  {
    WholeLeft(cfg, pow);
    cuts' := cuts + [cuts[|cfg.regs|] + Pow2(pow)];
    if cfg.lsize == Pow2(pow) {
      WholeLast(cfg, cuts, addr, size, region, pow);
    }
  }

  lemma WholeCovers(reg: Region)
    requires reg.disabled == Disabled(0, 8) && reg.pow >= 3 && reg.number > 0
    ensures forall x: nat :: Covers(reg, x) <==> reg.base <= x < reg.base + Pow2(reg.pow)
  {
    EightSubs(reg.pow);
    forall x: nat
      ensures Covers(reg, x) <==> reg.base <= x < reg.base + Pow2(reg.pow)
    {
      RangeCovered(reg, 0, 8, x);
    }
  }

  lemma EightSubs(pow: nat)
    requires pow >= 3
    ensures Offset(8, Pow2(pow - 3)) == Pow2(pow) == 8 * Pow2(pow - 3) && Offset(0, Pow2(pow - 3)) == 0
  {
    OffsetValue(8, Pow2(pow - 3));
    Pow2Values();
    Pow2Add(3, pow - 3);
  }

  /** Sub-regions [j, c) of a region: the range shrinks by as much as they cover. */
  lemma SubsKeep(cfg: Config, cuts: seq<nat>, addr: nat, size: nat, region: nat, pow: nat, base: nat, j: nat, c: nat,
                 address': nat, lsize': nat)
    requires Normal(cfg, cuts, addr, size, region) && cfg.lsize > 0 && cfg.address < TWO64 && pow >= 3 && region > 0
    requires j <= c <= 8 && cfg.address == base + Offset(j, Pow2(pow - 3)) &&
      address' == base + Offset(c, Pow2(pow - 3))
    requires address' + lsize' == cfg.address + cfg.lsize && address' < TWO64
    ensures Normal(Config(address', lsize', cfg.regs + [Region(region + |cfg.regs|, base, pow, Disabled(j, c))]),
      cuts + [address'], addr, size, region)
    ensures lsize' <= cfg.lsize
  {
    var reg := Region(region + |cfg.regs|, base, pow, Disabled(j, c));
    if j < c {
      OffsetOrder(j, c, Pow2(pow - 3));
    }
    forall x: nat
      ensures Covers(reg, x) <==> cfg.address <= x < address'
    {
      RangeCovered(reg, j, c, x);
    }
    ConsecutiveNext(cfg.regs, cuts, reg, address');
  }

  /** A naturally aligned window of 2^k bytes. */
  predicate Window(addr: nat, size: nat, k: nat) {
    size == Pow2(k) && Divides(Pow2(k), addr)
  }

  /**
   The windows that are covered by one region: those of at least 2^15 bytes that end below
   2^64, and those as large as the first region that is tried.
   */
  predicate OneRegion(addr: nat, size: nat, k: nat, width: nat) {
    if k < width then 15 <= k && addr + size < TWO64 else k == width > 15
  }

  /** What is known of a window of 2^k bytes, at most the largest region, before the iteration at pow. */
  predicate WindowOk(cfg: Config, addr: nat, size: nat, k: nat, pow: nat, width: nat) {
    if cfg.lsize == 0 then |cfg.regs| == if OneRegion(addr, size, k, width) then 1 else 2
    else
      && cfg.address == addr && cfg.lsize == size
      && (k >= 15 ==> k <= pow)
      && (cfg.regs == [] ==> k < pow || k < 15 || k == width)
      && (cfg.regs != [] ==> |cfg.regs| == 1 && pow == k && k < width && addr + size >= TWO64)
  }

  /** Regions more than twice as large as the window are passed over. */
  lemma WindowWaits(addr: nat, size: nat, k: nat, pow: nat)
    requires Window(addr, size, k) && k < pow <= 63 && k >= 15
    ensures !(Divides(Pow2(pow), addr) && Divides(Pow2(pow), Sum(addr, size)))
    ensures size > 2 * Pow2(pow - 3) ==> pow == k + 1
    ensures pow == k + 1 ==> size > 2 * Pow2(pow - 3) && Divides(Pow2(pow - 3), addr) && Divides(Pow2(pow - 3), size)
  {
    TooLarge(addr, size, k, pow);
    if pow == k + 1 {
      Pow2Divides(k - 2, k);
      Pow2Add(2, k - 2);
      DividesTrans(Pow2(k - 2), Pow2(k), 4, addr);
      Multiple(4, Pow2(k - 2));
    } else {
      Pow2Divides(k - 1, pow - 3);
      assert 2 * Pow2(k - 1) == Pow2(k);
    }
  }

  lemma TooLarge(addr: nat, size: nat, k: nat, pow: nat)
    requires Window(addr, size, k) && k < pow <= 63
    ensures !(Divides(Pow2(pow), addr) && Divides(Pow2(pow), Sum(addr, size)))
  {
    Pow2Divides(k + 1, pow);
    DividesWrapped(pow, addr, size);
    if Divides(Pow2(pow), addr) {
      DividesSum(Pow2(pow), addr, size);
    }
  }

  /** A window of less than 2^15 bytes is too small for every step. */
  lemma SmallWindow(cfg: Config, k: nat, pow: nat)
    requires Window(cfg.address, cfg.lsize, k) && k < 15 < pow <= 63
    ensures !FitsWhole(cfg, pow) && !FitsSubs(cfg, pow)
  {
    TooLarge(cfg.address, cfg.lsize, k, pow);
    Pow2Divides(k, pow - 2);
    assert 2 * Pow2(pow - 3) == Pow2(pow - 2);
  }

  /** A window of the size of the region that is tried is used up. */
  lemma ExactWindow(cfg: Config, pow: nat)
    requires Window(cfg.address, cfg.lsize, pow) && pow <= 63
    ensures FitsWhole(cfg, pow)
  {
    Multiple(1, Pow2(pow));
    DividesSum(Pow2(pow), cfg.address, cfg.lsize);
    DividesWrapped(pow, cfg.address, cfg.lsize);
  }

  /** A window larger than all regions. */
  lemma LargeWindow(cfg: Config, k: nat, width: nat)
    requires Window(cfg.address, cfg.lsize, k) && width < k && cfg.address < TWO64
    ensures Stuck(cfg, width + 1)
  {
    Pow2Divides(width + 1, k);
    Pow2Add(k - width - 1, width + 1);
    DividesTrans(Pow2(width + 1), Pow2(k), Pow2(k - width - 1), cfg.address);
  }

  /** Sub-regions that start at address and leave less than one of them are all that the window needs. */
  lemma WindowDone(address: nat, lsize: nat, sub: nat, base: nat, j: nat, c: nat, address': nat, lsize': nat)
    requires sub > 0 && j <= c <= 8 && address == base + Offset(j, sub) && address' == base + Offset(c, sub)
    requires address' + lsize' == address + lsize && (c == 8 || address' + sub > address + lsize)
    requires lsize == 4 * sub && (j == 0 || j == 4)
    ensures lsize' == 0
  {
    assert Offset(j + 4, sub) == Offset(j + 3, sub) + sub == Offset(j + 2, sub) + 2 * sub;
    assert Offset(j + 2, sub) == Offset(j + 1, sub) + sub == Offset(j, sub) + 2 * sub;
    if c < j + 4 {
      OffsetOrder(c, j + 4, sub);
    } else if j == 0 && 4 < c {
      OffsetOrder(4, c, sub);
    }
  }

  lemma Eighth(pow: nat)
    requires pow >= 3
    ensures Pow2(pow) / 8 == Pow2(pow - 3) && Pow2(pow) == 8 * Pow2(pow - 3)
  {
    EightSubs(pow);
  }

  method AlignDown(n: nat, d: nat) returns (r: nat)
    requires d > 0
    ensures r == RoundDown(n, d)
  {
    RoundDownValue(n, d);
    r := n / d * d;
  }

  /** The naturally aligned region around an address. */
  method Surrounding(address: nat, rs: nat, ghost pow: nat) returns (base: nat, ghost j: nat)
    requires 3 <= pow <= 63 && rs == Pow2(pow) && address < TWO64 && Divides(Pow2(pow - 3), address)
    ensures j < 8 && address == base + Offset(j, Pow2(pow - 3)) && base + Offset(8, Pow2(pow - 3)) <= TWO64
    ensures Divides(4 * Pow2(pow - 3), address) ==> j == 0 || j == 4
  {
    base := AlignDown(address, rs);
    Eighth(pow);
    j := Place(address, Pow2(pow - 3));
    RegionFits(address, pow);
    EightOffset(Pow2(pow - 3));
  }

  /** sub_region_size. */
  method EighthOf(pow: nat) returns (sub: nat)
    requires pow >= 3
    ensures sub == Pow2(pow - 3) > 0
  {
    Eighth(pow);
    sub := Pow2(pow) / 8;
  }

  /** The region around address with the sub-regions from j up to c. */
  method Partial(address: nat, lsize: nat, pow: nat)
    returns (base: nat, disabled: seq<bool>, address': nat, lsize': nat, ghost j: nat, ghost c: nat)
    requires 3 <= pow <= 63 && address < TWO64 && lsize < TWO64
    requires Divides(Pow2(pow - 3), address) && lsize > 2 * Pow2(pow - 3)
    ensures j <= c <= 8 && disabled == Disabled(j, c) && address' < TWO64 && address' + lsize' == address + lsize
    ensures address == base + Offset(j, Pow2(pow - 3)) && address' == base + Offset(c, Pow2(pow - 3))
    ensures address + lsize < TWO64 && lsize == 4 * Pow2(pow - 3) && Divides(4 * Pow2(pow - 3), address) ==> lsize' == 0
    ensures address + lsize >= TWO64 ==> address' == address && lsize' == lsize
  {
    ghost var sub := Pow2(pow - 3);
    var size8 := EighthOf(pow);
    base, j := Surrounding(address, Pow2(pow), pow);
    disabled, address', lsize', c := SubRegions(base, size8, j, address, lsize);
    if address + lsize >= TWO64 {
      c := j;
    } else if lsize == 4 * sub && Divides(4 * sub, address) {
      WindowDone(address, lsize, sub, base, j, c, address', lsize');
    }
  }

  /** The sub-region case of one iteration. */
  method SubStep(cfg: Config, pow: nat, number: nat, ghost cuts: seq<nat>, ghost addr: nat, ghost size: nat,
                 ghost region: nat)
    returns (cfg': Config, ghost cuts': seq<nat>)
    requires 3 <= pow <= 63 && cfg.address < TWO64 && cfg.lsize < TWO64 && Normal(cfg, cuts, addr, size, region) &&
      region > 0
    requires number == region + |cfg.regs| && Divides(Pow2(pow - 3), cfg.address) && cfg.lsize > 2 * Pow2(pow - 3)
    ensures Normal(cfg', cuts', addr, size, region) && |cfg'.regs| == |cfg.regs| + 1 && cfg'.lsize <= cfg.lsize &&
      cfg'.address < TWO64
    ensures cfg.address + cfg.lsize < TWO64 && cfg.lsize == 4 * Pow2(pow - 3) && Divides(4 * Pow2(pow - 3), cfg.address)
      ==> cfg'.lsize == 0
    ensures cfg.address + cfg.lsize >= TWO64 ==> cfg'.address == cfg.address && cfg'.lsize == cfg.lsize
  {
    var base, disabled, address', lsize';
    ghost var j, c;
    base, disabled, address', lsize', j, c := Partial(cfg.address, cfg.lsize, pow);
    SubsKeep(cfg, cuts, addr, size, region, pow, base, j, c, address', lsize');
    cfg' := Config(address', lsize', cfg.regs + [Region(number, base, pow, disabled)]);
    cuts' := cuts + [address'];
  }

  /** What is known before an iteration at pow. */
  ghost predicate LoopOk(cfg: Config, cuts: seq<nat>, addr: nat, size: nat, region: nat, pow: nat) {
    && cfg.address < TWO64 && cfg.lsize < TWO64
    && (Normal(cfg, cuts, addr, size, region) || Stuck(cfg, pow + 1))
  }

  /** The sub-region condition of one iteration. */
  predicate FitsSubs(cfg: Config, pow: nat)
    requires pow >= 3
  {
    Divides(Pow2(pow - 3), cfg.address) && cfg.lsize > 2 * Pow2(pow - 3)
  }

  method WholeStep(cfg: Config, pow: nat, number: nat, ghost cuts: seq<nat>, ghost addr: nat, ghost size: nat,
                   ghost region: nat)
    returns (cfg': Config, ghost cuts': seq<nat>)
    requires 3 < pow <= 63 && cfg.lsize > 0 && FitsWhole(cfg, pow) && LoopOk(cfg, cuts, addr, size, region, pow) &&
      region > 0
    requires number == region + |cfg.regs|
    ensures LoopOk(cfg', cuts', addr, size, region, pow - 1) && cfg' == WholeRegion(cfg, pow, number)
    ensures Stuck(cfg, pow + 1) ==> Stuck(cfg', pow)
  {
    WholeLeft(cfg, pow);
    cuts' := cuts;
    if Stuck(cfg, pow + 1) {
      StuckStays(cfg, pow);
    }
    if Normal(cfg, cuts, addr, size, region) {
      cuts' := WholeKeeps(cfg, cuts, addr, size, region, pow);
    }
    cfg' := WholeRegion(cfg, pow, number);
  }

  /**
   A window is left alone until pow is k + 1. Then half a region of sub-regions is what it
   needs, but if it ends at 2^64 only the whole region at pow k uses it up.
   */
  lemma WindowStep(cfg: Config, addr: nat, size: nat, k: nat, pow: nat, width: nat)
    requires Window(addr, size, k) && 15 < pow <= width <= 63 && k <= width && cfg.lsize != 0
    requires WindowOk(cfg, addr, size, k, pow, width)
    ensures FitsWhole(cfg, pow) <==> pow == k
    ensures k != pow ==> (FitsSubs(cfg, pow) <==> 15 <= k && pow == k + 1)
    ensures 15 <= k && pow == k + 1 ==> cfg.lsize == 4 * Pow2(pow - 3) && Divides(4 * Pow2(pow - 3), cfg.address)
  {
    if k < 15 {
      SmallWindow(cfg, k, pow);
    } else if k < pow {
      WindowWaits(addr, size, k, pow);
      if pow == k + 1 {
        Pow2Add(2, k - 2);
      }
    } else {
      ExactWindow(cfg, pow);
    }
  }

  /** One iteration; ok tells that the assert on the region number holds. */
  method Iteration(cfg: Config, pow: nat, region: nat, numRegions: nat,
                   ghost cuts: seq<nat>, ghost addr: nat, ghost size: nat, ghost k: nat, ghost width: nat)
    returns (ok: bool, cfg': Config, ghost cuts': seq<nat>)
    requires cfg.lsize != 0 && 15 < pow <= width <= 63 && LoopOk(cfg, cuts, addr, size, region, pow) && region > 0
    ensures ok ==> LoopOk(cfg', cuts', addr, size, region, pow - 1)
    ensures ok ==> cfg'.regs == cfg.regs || |cfg'.regs| == |cfg.regs| + 1 <= numRegions - region
    ensures !ok ==> cfg' == cfg && region + |cfg.regs| >= numRegions
    ensures ok && Stuck(cfg, pow + 1) ==> Stuck(cfg', pow)
    ensures ok && k <= width && Window(addr, size, k) && WindowOk(cfg, addr, size, k, pow, width) ==>
      WindowOk(cfg', addr, size, k, pow - 1, width)
  {
    ok, cfg', cuts' := true, cfg, cuts;
    Eighth(pow);
    if k <= width && Window(addr, size, k) && WindowOk(cfg, addr, size, k, pow, width) {
      WindowStep(cfg, addr, size, k, pow, width);
    }
    if Stuck(cfg, pow + 1) {
      StuckStays(cfg, pow);
    }
    var whole, subs := FitsWhole(cfg, pow), FitsSubs(cfg, pow);
    if whole || subs {
      ok := region + |cfg.regs| < numRegions;
      if ok && whole {
        cfg', cuts' := WholeStep(cfg, pow, region + |cfg.regs|, cuts, addr, size, region);
      } else if ok {
        cfg', cuts' := SubStep(cfg, pow, region + |cfg.regs|, cuts, addr, size, region);
      }
    }
  }

  /**
   tzc_auto_configure for first region number region >= 1; ok tells that all its asserts
   hold. Then the regions cover exactly the range, which does not wrap. An aligned
   power-of-two window takes one region, unless it ends at 2^64 and is smaller than the
   largest region: it then takes two, one of them with all its sub-regions disabled.
   */
  method AutoConfigure(addr: nat, size: nat, region: nat, addrWidth: nat, numRegions: nat, ghost k: nat)
    returns (ok: bool, regs: seq<Region>)
    requires addr < TWO64 && size < TWO64 && region > 0 && addrWidth <= 63
    ensures ok ==> addr + size <= TWO64 && CoversExactly(regs, addr, addr + size)
    ensures ok ==> forall k :: 0 <= k < |regs| ==> regs[k].number == region + k < numRegions
    ensures Window(addr, size, k) ==>
      (ok && |regs| == 1 <==> region < numRegions && OneRegion(addr, size, k, addrWidth))
    ensures Window(addr, size, k) && addr + size == TWO64 && 15 < k < addrWidth && region + 1 < numRegions ==>
      ok && |regs| == 2
  {
    var cfg := Config(addr, size, []);
    ghost var cuts := [addr];
    ghost var window := Window(addr, size, k) && k <= addrWidth;
    ghost var large := Window(addr, size, k) && k > addrWidth;
    if large {
      LargeWindow(cfg, k, addrWidth);
    }
    var pow := addrWidth;
    ok := true;
    while cfg.lsize != 0 && pow > 15
      decreases pow
      invariant 0 <= pow <= addrWidth && LoopOk(cfg, cuts, addr, size, region, pow)
      invariant cfg.regs == [] || region + |cfg.regs| <= numRegions
      invariant window ==> WindowOk(cfg, addr, size, k, pow, addrWidth)
      invariant large ==> Stuck(cfg, pow + 1)
    {
      ok, cfg, cuts := Iteration(cfg, pow, region, numRegions, cuts, addr, size, k, addrWidth);
      if !ok {
        return false, cfg.regs;
      }
      pow := pow - 1;
    }
    ok := cfg.lsize == 0 && cfg.address == Sum(addr, size);
    regs := cfg.regs;
    if ok {
      ConsecutiveCovers(regs, cuts);
    }
  }

  /** Four gigabytes that end at 2^64 take two regions. */
  method TopWindow() returns (regs: seq<Region>)
    ensures |regs| == 2 && CoversExactly(regs, 0xffff_ffff_0000_0000, TWO64)
  {
    var ok;
    assert Pow2(32) == 0x1_0000_0000 by {
      assert Pow2(8) == 256;
      Pow2Add(8, 8);
      Pow2Add(16, 16);
    }
    Multiple(0xffff_ffff, 0x1_0000_0000);
    ok, regs := AutoConfigure(0xffff_ffff_0000_0000, 0x1_0000_0000, 1, 40, 16, 32);
  }
}
