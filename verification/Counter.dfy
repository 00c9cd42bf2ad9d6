/** Counter blocks and length blocks of GCM: sections 6.2 and 7.1 of NIST SP 800-38D. */
module Counter {
  import opened Bytes
  import opened BigEndian

  /** n + 1 in an unsigned type whose largest value is max. */
  function Succ(n: nat, max: nat): nat {
    if n == max then 0 else n + 1
  }

  const MAX32: nat := 0xffff_ffff
  const MAX64: nat := 0xffff_ffff_ffff_ffff
  const MAX128: nat := 0xffff_ffff_ffff_ffff_ffff_ffff_ffff_ffff

  /** internal_aes_gcm_inc_ctr: the two big-endian halves of the counter block, with carry. */
  function IncCtr(b: Block): Block {
    var lo := Succ(FromBE(b[8..]), MAX64);
    var hi := if lo == 0 then Succ(FromBE(b[..8]), MAX64) else FromBE(b[..8]);
    ToBE(hi, 8) + ToBE(lo, 8)
  }

  /** The low 32 bits of a counter block. */
  function Low(b: Block): nat {
    FromBE(b[12..])
  }

  /** inc32 of section 6.2. */
  function Inc32(b: Block): Block {
    b[..12] + ToBE(Succ(Low(b), MAX32), 4)
  }

  /** The counter block k steps after b. */
  function Iter(inc: Block -> Block, b: Block, k: nat): Block {
    if k == 0 then b else inc(Iter(inc, b, k - 1))
  }

  /** The counter is incremented modulo 2^128. */
  lemma IncCtrValue(b: Block)
    ensures FromBE(IncCtr(b)) == Succ(FromBE(b), MAX128)
  {
    assert b[..8] + b[8..] == b;
    FromBEConcat(b[..8], b[8..]);
    FromBEBound(b[..8]);
    FromBEBound(b[8..]);
    Pow256Values();
    var lo := Succ(FromBE(b[8..]), MAX64);
    var hi := if lo == 0 then Succ(FromBE(b[..8]), MAX64) else FromBE(b[..8]);
    FromToBE(lo, 8);
    FromToBE(hi, 8);
    FromBEConcat(ToBE(hi, 8), ToBE(lo, 8));
  }

  /** The two parts of a counter block: the fixed field and the 32-bit counter. */
  lemma Split32(b: Block)
    ensures FromBE(b) == FromBE(b[..12]) * 0x1_0000_0000 + Low(b) && Low(b) <= MAX32
    ensures FromBE(b) <= MAX128
  {
    assert b[..12] + b[12..] == b;
    FromBEConcat(b[..12], b[12..]);
    FromBEBound(b[12..]);
    FromBEBound(b);
    Pow256Values();
  }

  lemma Inc32Value(b: Block)
    ensures Inc32(b)[..12] == b[..12]
    ensures Low(Inc32(b)) == Succ(Low(b), MAX32)
  {
    Split32(b);
    Pow256Values();
    FromToBE(Succ(Low(b), MAX32), 4);
  }

  lemma SameValue(a: Block, b: Block)
    ensures FromBE(a) == FromBE(b) <==> a == b
  {
    ToFromBE(a);
    ToFromBE(b);
  }

  /** The 128-bit increment is inc32 exactly when the low 32 bits do not wrap. */
  lemma IncCtrIsInc32(b: Block)
    ensures IncCtr(b) == Inc32(b) <==> Low(b) < MAX32
  {
    IncCtrValue(b);
    Inc32Value(b);
    Split32(b);
    Split32(Inc32(b));
    SameValue(IncCtr(b), Inc32(b));
  }

  /** The counters up to block k are those of inc32. */
  ghost predicate Agree(b: Block, k: nat) {
    forall i: nat :: i <= k ==> Iter(IncCtr, b, i) == Iter(Inc32, b, i)
  }

  lemma {:induction false} AgreeStep(b: Block, k: nat)
    requires k > 0
    ensures Agree(b, k) <==> Agree(b, k - 1) && Low(Iter(Inc32, b, k - 1)) < MAX32
  {
    var c := Iter(Inc32, b, k - 1);
    IncCtrIsInc32(c);
    if Agree(b, k) {
      assert Iter(IncCtr, b, k) == Iter(Inc32, b, k) && Iter(IncCtr, b, k - 1) == c;
    }
  }

  lemma AgreeStart(b: Block)
    ensures Agree(b, 0) && Low(b) <= MAX32
  {
    Split32(b);
  }

  /** The counters of GCTR are those of inc32 up to block k iff 32 bits suffice for all of them. */
  lemma {:induction false} IterIsIter32(b: Block, k: nat)
    ensures Agree(b, k) <==> Low(b) + k <= MAX32
  {
    if k == 0 {
      AgreeStart(b);
    } else {
      IterIsIter32(b, k - 1);
      if Low(b) + (k - 1) <= MAX32 {
        Iter32Low(b, k - 1);
      }
      AgreeStep(b, k);
    }
  }

  lemma {:induction false} Iter32Low(b: Block, k: nat)
    requires Low(b) + k <= MAX32
    ensures Low(Iter(Inc32, b, k)) == Low(b) + k
  {
    if k == 0 {
    } else {
      Iter32Low(b, k - 1);
      Inc32Value(Iter(Inc32, b, k - 1));
    }
  }

  /** l * 8 in 32-bit arithmetic, for a byte counter l that is itself kept in 32 bits. */
  function Times8(l: nat): nat {
    l % 0x1_0000_0000 * 8 % 0x1_0000_0000
  }

  /** ghash_update_lengths: both lengths are multiplied in 32-bit arithmetic. */
  function LenBlock(l1: nat, l2: nat): Block {
    ToBE(Times8(l1), 8) + ToBE(Times8(l2), 8)
  }

  /** The 64-bit bit lengths of section 7.1. */
  function StdLenBlock(l1: nat, l2: nat): Block {
    ToBE(l1 * 8, 8) + ToBE(l2 * 8, 8)
  }

  lemma Times8Exact(l: nat)
    ensures Times8(l) < 0x1_0000_0000
    ensures Times8(l) == l * 8 <==> l < 0x2000_0000
  {
  }

  lemma LengthExact(l: nat)
    requires l < 0x2000_0000_0000_0000
    ensures ToBE(Times8(l), 8) == ToBE(l * 8, 8) <==> l < 0x2000_0000
  {
    Times8Exact(l);
    Pow256Values();
    FromToBE(Times8(l), 8);
    FromToBE(l * 8, 8);
  }

  /** The length block is that of the standard iff both lengths are below 2^29 bytes. */
  lemma LenBlockExact(l1: nat, l2: nat)
    requires l1 < 0x2000_0000_0000_0000 && l2 < 0x2000_0000_0000_0000
    ensures LenBlock(l1, l2) == StdLenBlock(l1, l2) <==> l1 < 0x2000_0000 && l2 < 0x2000_0000
  {
    LengthExact(l1);
    LengthExact(l2);
    assert LenBlock(l1, l2)[..8] == ToBE(Times8(l1), 8) && LenBlock(l1, l2)[8..] == ToBE(Times8(l2), 8);
    assert StdLenBlock(l1, l2)[..8] == ToBE(l1 * 8, 8) && StdLenBlock(l1, l2)[8..] == ToBE(l2 * 8, 8);
  }

  /** Incrementing a 96-bit nonce that is followed by 32 zero bits gives the standard's pre-counter block. */
  lemma NonceCounter(nonce: seq<Byte>)
    requires |nonce| == 12
    ensures IncCtr(Splice(Zeros(16), 0, nonce)) == nonce + [0, 0, 0, 1]
  {
    var b: Block := Splice(Zeros(16), 0, nonce);
    assert Low(b) == 0 by {
      assert b[12..] == [0, 0, 0, 0];
      FourBytes(0, 0, 0, 0);
    }
    IncCtrIsInc32(b);
    assert ToBE(1, 4) == [0, 0, 0, 1] by {
      FourBytes(0, 0, 0, 1);
      ToFromBE([0, 0, 0, 1]);
    }
    assert b[..12] == nonce;
  }

  lemma FourBytes(a: Byte, b: Byte, c: Byte, d: Byte)
    ensures FromBE([a, b, c, d]) == 0x100_0000 * a + 0x1_0000 * b + 0x100 * c + d
  {
    assert [] + [a] == [a] && [a] + [b] == [a, b] && [a, b] + [c] == [a, b, c] && [a, b, c] + [d] == [a, b, c, d];
    FromBESnoc([], a);
    FromBESnoc([a], b);
    FromBESnoc([a, b], c);
    FromBESnoc([a, b, c], d);
  }

  /**
   For a 96-bit nonce the counter blocks of a message of n <= 2^32 - 2 blocks are those of
   inc32, and of no longer one.
  */
  lemma NonceCounters(nonce: seq<Byte>, n: nat)
    requires |nonce| == 12
    ensures Agree(nonce + [0, 0, 0, 1], n) <==> n <= MAX32 - 1
  {
    var j0: Block := nonce + [0, 0, 0, 1];
    assert j0[12..] == [0, 0, 0, 1];
    FourBytes(0, 0, 0, 1);
    IterIsIter32(j0, n);
  }
}
