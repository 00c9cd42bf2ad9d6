/** AES-GCM as written in NIST SP 800-38D, and when the software core computes it. */
module GcmStandard {
  import opened Bytes
  import opened BigEndian
  import opened Counter
  import opened GcmSpec
  import opened Gcm
  import opened GcmCalls
  import Field = Ghash

  /** Section 7.1 under key E, with the counter function inc32. */
  function StdCipher(E: Block -> Block): Cipher {
    Cipher(E, Field.Times(E(ZERO)), Inc32)
  }

  function StdPreCounter(E: Block -> Block, nonce: seq<Byte>): Block {
    if |nonce| == 12 then nonce + [0, 0, 0, 1] else Ghash(StdCipher(E), Pad(nonce) + StdLenBlock(0, |nonce|))
  }

  function StdCiphertext(E: Block -> Block, nonce: seq<Byte>, p: seq<Byte>): seq<Byte> {
    Gctr(StdCipher(E), Inc32(StdPreCounter(E, nonce)), p)
  }

  function StdTag(E: Block -> Block, nonce: seq<Byte>, aad: seq<Byte>, ct: seq<Byte>): Block {
    Xor(E(StdPreCounter(E, nonce)), Ghash(StdCipher(E), Pad(aad) + Pad(ct) + StdLenBlock(|aad|, |ct|)))
  }

  lemma {:induction false} SameGhash(E: Block -> Block, s: seq<Byte>)
    ensures Ghash(Field.KeyCipher(E), s) == Ghash(StdCipher(E), s)
  {
    if |s| >= 16 {
      SameGhash(E, s[..|s| - 16]);
    }
  }

  lemma SamePreCounter(E: Block -> Block, nonce: seq<Byte>)
    requires |nonce| < 0x2000_0000
    ensures PreCounter(Field.KeyCipher(E), nonce) == StdPreCounter(E, nonce)
  {
    if |nonce| == 12 {
      NonceCounter(nonce);
    } else {
      LenBlockExact(0, |nonce|);
      SameGhash(E, Pad(nonce) + StdLenBlock(0, |nonce|));
    }
  }

  /** Counting from the block after b is counting from b, one further. */
  lemma {:induction false} IterNext(inc: Block -> Block, b: Block, k: nat)
    ensures Iter(inc, inc(b), k) == Iter(inc, b, k + 1)
  {
    if k > 0 {
      IterNext(inc, b, k - 1);
    }
  }

  function Blocks(n: nat): nat {
    (n + 15) / 16
  }

  lemma SameKeyStream(E: Block -> Block, j0: Block, p: seq<Byte>)
    requires Low(j0) + Blocks(|p|) <= MAX32
    ensures Gctr(Field.KeyCipher(E), IncCtr(j0), p) == Gctr(StdCipher(E), Inc32(j0), p)
  {
    IterIsIter32(j0, Blocks(|p|));
    var x, y := Gctr(Field.KeyCipher(E), IncCtr(j0), p), Gctr(StdCipher(E), Inc32(j0), p);
    forall i | 0 <= i < |p|
      ensures x[i] == y[i]
    {
      var k := (0 + i) / 16;
      assert k + 1 <= Blocks(|p|);
      IterNext(IncCtr, j0, k);
      IterNext(Inc32, j0, k);
    }
  }

  ghost predicate Injective(E: Block -> Block) {
    forall a, b :: E(a) == E(b) ==> a == b
  }

  /** Byte j of block k of the key stream tells the counters of both apart. */
  lemma OtherKeyStream(E: Block -> Block, j0: Block, p: seq<Byte>, k: nat)
    requires Injective(E) && |p| % 16 == 0 && 0 < k <= |p| / 16 && Iter(IncCtr, j0, k) != Iter(Inc32, j0, k)
    ensures Gctr(Field.KeyCipher(E), IncCtr(j0), p) != Gctr(StdCipher(E), Inc32(j0), p)
  {
    IterNext(IncCtr, j0, k - 1);
    IterNext(Inc32, j0, k - 1);
    var a, b := E(Iter(IncCtr, j0, k)), E(Iter(Inc32, j0, k));
    var j :| 0 <= j < 16 && a[j] != b[j];
    var i := 16 * (k - 1) + j;
    assert (0 + i) / 16 == k - 1 && (0 + i) % 16 == j;
    var x, y := Gctr(Field.KeyCipher(E), IncCtr(j0), p), Gctr(StdCipher(E), Inc32(j0), p);
    XorApart(p[i], a[j], b[j]);
    assert x[i] != y[i];
  }

  lemma XorApart(c: Byte, a: Byte, b: Byte)
    requires a != b
    ensures XorByte(c, a) != XorByte(c, b)
  {
    XorByteLaws(a, c);
    XorByteLaws(b, c);
  }

  /** For whole blocks and a cipher that can be decrypted, the condition on the counter is exact. */
  lemma SameKeyStreamExact(E: Block -> Block, j0: Block, p: seq<Byte>)
    requires Injective(E) && |p| % 16 == 0
    ensures Gctr(Field.KeyCipher(E), IncCtr(j0), p) == Gctr(StdCipher(E), Inc32(j0), p) <==> Low(j0) + |p| / 16 <= MAX32
  {
    IterIsIter32(j0, |p| / 16);
    if Agree(j0, |p| / 16) {
      SameKeyStream(E, j0, p);
    } else {
      var k: nat :| k <= |p| / 16 && Iter(IncCtr, j0, k) != Iter(Inc32, j0, k);
      OtherKeyStream(E, j0, p, k);
    }
  }

  /**
   The software core computes the standard's ciphertext and tag if all lengths are below
   2^29 bytes and the low 32 bits of the counter do not wrap.
   */
  lemma Standard(E: Block -> Block, nonce: seq<Byte>, aad: seq<Byte>, p: seq<Byte>)
    requires |nonce| < 0x2000_0000 && |aad| < 0x2000_0000 && |p| < 0x2000_0000
    requires Low(StdPreCounter(E, nonce)) + Blocks(|p|) <= MAX32
    ensures Ciphertext(Field.KeyCipher(E), nonce, p) == StdCiphertext(E, nonce, p)
    ensures Tag(Field.KeyCipher(E), nonce, aad, p) == StdTag(E, nonce, aad, p)
  {
    SamePreCounter(E, nonce);
    SameKeyStream(E, StdPreCounter(E, nonce), p);
    LenBlockExact(|aad|, |p|);
    SameGhash(E, HashInput(aad, p));
  }

  /** With a 96-bit nonce no condition on the counter is left. */
  lemma StandardNonce96(E: Block -> Block, nonce: seq<Byte>, aad: seq<Byte>, p: seq<Byte>)
    requires |nonce| == 12 && |aad| < 0x2000_0000 && |p| < 0x2000_0000
    ensures Ciphertext(Field.KeyCipher(E), nonce, p) == StdCiphertext(E, nonce, p)
    ensures Tag(Field.KeyCipher(E), nonce, aad, p) == StdTag(E, nonce, aad, p)
  {
    assert (nonce + [0, 0, 0, 1])[12..] == [0, 0, 0, 1];
    FourBytes(0, 0, 0, 1);
    Standard(E, nonce, aad, p);
  }

  /** Within the bounds of Standard. */
  predicate WithinBounds(E: Block -> Block, nonce: seq<Byte>, aad: seq<Byte>, p: seq<Byte>) {
    && |nonce| < 0x2000_0000 && |aad| < 0x2000_0000 && |p| < 0x2000_0000
    && Low(StdPreCounter(E, nonce)) + Blocks(|p|) <= MAX32
  }

  // ---------- the standard on bytes ----------

  function BlockAt(s: seq<Byte>, k: nat): Block
    requires 16 * k + 16 <= |s|
  {
    s[16 * k..16 * k + 16]
  }

  /** The hash states y of section 6.4 for the blocks of s, from zero on, where mul multiplies by the subkey. */
  ghost predicate Chained(mul: Block -> Block, s: seq<Byte>, y: seq<Block>) {
    && |s| % 16 == 0 && |y| == |s| / 16 + 1 && y[0] == Zeros(16)
    && forall k {:trigger y[k]} :: 0 <= k < |s| / 16 ==> y[k + 1] == mul(Xor(y[k], BlockAt(s, k)))
  }

  ghost predicate Hash(mul: Block -> Block, s: seq<Byte>, r: Block) {
    exists y :: Chained(mul, s, y) && y[|y| - 1] == r
  }

  lemma {:induction false} GhashChained(c: Cipher, s: seq<Byte>) returns (y: seq<Block>)
    requires |s| % 16 == 0
    ensures Chained(c.mul, s, y) && y[|s| / 16] == Ghash(c, s)
    decreases |s|
  {
    if |s| < 16 {
      y := [Zeros(16)];
    } else {
      var a, b := s[..|s| - 16], s[|s| - 16..];
      LastBlock(s, a, b);
      y := GhashChained(c, a);
      ChainMore(c.mul, a, b, s, y);
      y := y + [Absorb(c, y[|a| / 16], b)];
    }
  }

  lemma LastBlock(s: seq<Byte>, a: seq<Byte>, b: seq<Byte>)
    requires |s| % 16 == 0 && |s| >= 16 && a == s[..|s| - 16] && b == s[|s| - 16..]
    ensures s == a + b && |b| == 16 && |a| % 16 == 0 && |s| / 16 == |a| / 16 + 1
  {
  }

  lemma ChainMore(mul: Block -> Block, a: seq<Byte>, b: Block, s: seq<Byte>, y: seq<Block>)
    requires Chained(mul, a, y) && s == a + b && |s| / 16 == |a| / 16 + 1 && |s| % 16 == 0
    ensures Chained(mul, s, y + [mul(Xor(y[|a| / 16], b))])
  {
    var y' := y + [mul(Xor(y[|a| / 16], b))];
    forall k {:trigger y'[k]} | 0 <= k < |s| / 16
      ensures y'[k + 1] == mul(Xor(y'[k], BlockAt(s, k)))
    {
      assert if k < |a| / 16 then BlockAt(s, k) == BlockAt(a, k) else BlockAt(s, k) == b;
    }
  }

  lemma GhashHash(E: Block -> Block, s: seq<Byte>)
    requires |s| % 16 == 0
    ensures Hash(Field.Times(E(Zeros(16))), s, Ghash(StdCipher(E), s))
  {
    var y := GhashChained(StdCipher(E), s);
  }

  /** p is s with the fewest zeros behind it that make whole blocks. */
  predicate FilledUp(s: seq<Byte>, p: seq<Byte>) {
    |s| <= |p| < |s| + 16 && |p| % 16 == 0 && forall i :: 0 <= i < |p| ==> p[i] == if i < |s| then s[i] else 0
  }

  lemma PadFills(s: seq<Byte>)
    ensures FilledUp(s, Pad(s))
  {
  }

  /** The pre-counter block: nonce and 1, or the hash of the nonce and its length in bits. */
  ghost predicate PreCounterIs(E: Block -> Block, nonce: seq<Byte>, j0: Block) {
    if |nonce| == 12 then j0 == nonce + [0, 0, 0, 1]
    else
      var mul := Field.Times(E(Zeros(16)));
      exists p: seq<Byte> :: FilledUp(nonce, p) && Hash(mul, p + Zeros(8) + ToBE(8 * |nonce|, 8), j0)
  }

  /** The counter block k steps after j0: the last four bytes count, modulo 2^32. */
  function CounterBlock(j0: Block, k: nat): Block {
    j0[..12] + ToBE((FromBE(j0[12..]) + k) % 0x1_0000_0000, 4)
  }

  ghost predicate StreamXored(E: Block -> Block, j0: Block, p: seq<Byte>, ct: seq<Byte>) {
    |ct| == |p| &&
    forall i :: 0 <= i < |p| ==> ct[i] == XorByte(p[i], E(CounterBlock(j0, 1 + i / 16))[i % 16])
  }

  ghost predicate TagIs(E: Block -> Block, j0: Block, aad: seq<Byte>, ct: seq<Byte>, tag: seq<Byte>) {
    exists a: seq<Byte>, b: seq<Byte>, y: Block :: FilledUp(aad, a) && FilledUp(ct, b) &&
      Hash(Field.Times(E(Zeros(16))), a + b + ToBE(8 * |aad|, 8) + ToBE(8 * |ct|, 8), y) && XorPrefix(E(j0), y, tag)
  }

  predicate XorPrefix(a: Block, b: Block, tag: seq<Byte>) {
    |tag| <= 16 && forall i :: 0 <= i < |tag| ==> tag[i] == XorByte(a[i], b[i])
  }

  /** Section 7.1 on bytes: ct and tag belong to the message p with aad under E and nonce. */
  ghost predicate Sealed(E: Block -> Block, nonce: seq<Byte>, aad: seq<Byte>, p: seq<Byte>, ct: seq<Byte>,
                         tag: seq<Byte>) {
    exists j0 :: PreCounterIs(E, nonce, j0) && StreamXored(E, j0, p, ct) && TagIs(E, j0, aad, ct, tag)
  }

  lemma PreCounterHolds(E: Block -> Block, nonce: seq<Byte>)
    ensures PreCounterIs(E, nonce, StdPreCounter(E, nonce))
  {
    if |nonce| != 12 {
      var p := Pad(nonce);
      PadFills(nonce);
      NoLength();
      Regroup3(p, ToBE(0 * 8, 8), ToBE(|nonce| * 8, 8));
      assert Pad(nonce) + StdLenBlock(0, |nonce|) == p + Zeros(8) + ToBE(8 * |nonce|, 8);
      GhashHash(E, p + Zeros(8) + ToBE(8 * |nonce|, 8));
    }
  }

  lemma Regroup3(a: seq<Byte>, b: seq<Byte>, c: seq<Byte>)
    ensures a + (b + c) == a + b + c
  {
  }

  lemma NoLength()
    ensures ToBE(0, 8) == Zeros(8)
  {
    ZeroBytes(8);
  }

  lemma {:induction false} ZeroBytes(k: nat)
    ensures ToBE(0, k) == Zeros(k)
  {
    if k > 0 {
      ZeroBytes(k - 1);
      assert Zeros(k) == Zeros(k - 1) + [0];
    }
  }

  lemma CounterNow(j0: Block)
    ensures CounterBlock(j0, 0) == j0
  {
    Split32(j0);
    ToFromBE(j0[12..]);
    assert j0[..12] + j0[12..] == j0;
  }

  lemma CounterNext(j0: Block, k: nat)
    ensures Inc32(CounterBlock(j0, k)) == CounterBlock(j0, k + 1)
  {
    var n := FromBE(j0[12..]) + k;
    Pow256Values();
    FromToBE(n % 0x1_0000_0000, 4);
    WrapNext(n);
    assert CounterBlock(j0, k)[12..] == ToBE(n % 0x1_0000_0000, 4) && CounterBlock(j0, k)[..12] == j0[..12];
  }

  lemma WrapNext(n: nat)
    ensures Succ(n % 0x1_0000_0000, MAX32) == (n + 1) % 0x1_0000_0000
  {
  }

  lemma {:induction false} CounterAt(j0: Block, k: nat)
    ensures Iter(Inc32, j0, k) == CounterBlock(j0, k)
  {
    if k > 0 {
      CounterAt(j0, k - 1);
      CounterNext(j0, k - 1);
    } else {
      CounterNow(j0);
    }
  }

  lemma StreamHolds(E: Block -> Block, j0: Block, p: seq<Byte>)
    ensures StreamXored(E, j0, p, Gctr(StdCipher(E), Inc32(j0), p))
  {
    var ct := Gctr(StdCipher(E), Inc32(j0), p);
    forall i | 0 <= i < |p|
      ensures ct[i] == XorByte(p[i], E(CounterBlock(j0, 1 + i / 16))[i % 16])
    {
      IterNext(Inc32, j0, i / 16);
      CounterAt(j0, i / 16 + 1);
      assert ct[i] == XorByte(p[i], Enc(StdCipher(E), Counters(StdCipher(E), Inc32(j0))((0 + i) / 16))[(0 + i) % 16]);
    }
  }

  lemma TagHolds(E: Block -> Block, nonce: seq<Byte>, aad: seq<Byte>, ct: seq<Byte>, n: nat)
    requires n <= 16
    ensures TagIs(E, StdPreCounter(E, nonce), aad, ct, StdTag(E, nonce, aad, ct)[..n])
  {
    PadFills(aad);
    PadFills(ct);
    HashedBytes(aad, ct);
    var input := Pad(aad) + Pad(ct) + ToBE(8 * |aad|, 8) + ToBE(8 * |ct|, 8);
    GhashHash(E, input);
    assert XorPrefix(E(StdPreCounter(E, nonce)), Ghash(StdCipher(E), input), StdTag(E, nonce, aad, ct)[..n]);
  }

  lemma HashedBytes(aad: seq<Byte>, ct: seq<Byte>)
    ensures var input := Pad(aad) + Pad(ct) + ToBE(8 * |aad|, 8) + ToBE(8 * |ct|, 8);
      Pad(aad) + Pad(ct) + StdLenBlock(|aad|, |ct|) == input && |input| % 16 == 0
  {
    var a, b := Pad(aad), Pad(ct);
    Regroup3(a + b, ToBE(8 * |aad|, 8), ToBE(8 * |ct|, 8));
    PadFills(aad);
    PadFills(ct);
    WholeInput(|a|, |b|);
    SameLengths(|aad|, |ct|);
  }

  lemma SameLengths(n: nat, m: nat)
    ensures StdLenBlock(n, m) == ToBE(8 * n, 8) + ToBE(8 * m, 8)
  {
  }

  lemma WholeInput(n: nat, m: nat)
    requires n % 16 == 0 && m % 16 == 0
    ensures (n + m + 8 + 8) % 16 == 0
  {
  }

  lemma StandardSealed(E: Block -> Block, nonce: seq<Byte>, aad: seq<Byte>, p: seq<Byte>, n: nat)
    requires n <= 16
    ensures var ct := StdCiphertext(E, nonce, p); Sealed(E, nonce, aad, p, ct, StdTag(E, nonce, aad, ct)[..n])
  {
    var j0, ct := StdPreCounter(E, nonce), StdCiphertext(E, nonce, p);
    PreCounterHolds(E, nonce);
    StreamHolds(E, j0, p);
    TagHolds(E, nonce, aad, ct, n);
  }

  /** However a message is split into calls and placed in memory, its encryption is that of the standard. */
  method EncryptStandard(E: Block -> Block, init: State, nonce: seq<Byte>, nonceAddr: nat, tagLen: nat,
                         aad: seq<Piece>, payload: seq<Piece>, last: Piece)
    returns (ct: seq<Byte>, tag: seq<Byte>)
    requires tagLen <= 16 && WithinBounds(E, nonce, Data(aad), Data(payload) + last.data)
    ensures ct == StdCiphertext(E, nonce, Data(payload) + last.data)
    ensures tag == StdTag(E, nonce, Data(aad), ct)[..tagLen]
    ensures |tag| == tagLen && Sealed(E, nonce, Data(aad), Data(payload) + last.data, ct, tag)
  {
    ct, tag := EncryptPieces(Field.KeyCipher(E), init, nonce, nonceAddr, tagLen, aad, payload, last);
    Standard(E, nonce, Data(aad), Data(payload) + last.data);
    Standard(E, nonce, Data(aad), ct);
    StandardSealed(E, nonce, Data(aad), Data(payload) + last.data, tagLen);
  }

  /** And so is its decryption, which accepts exactly the standard's tag. */
  method DecryptStandard(E: Block -> Block, init: State, nonce: seq<Byte>, nonceAddr: nat, tag: seq<Byte>,
                         aad: seq<Piece>, payload: seq<Piece>, last: Piece)
    returns (ok: bool, pt: seq<Byte>)
    requires |tag| <= 16 && WithinBounds(E, nonce, Data(aad), Data(payload) + last.data)
    ensures pt == StdCiphertext(E, nonce, Data(payload) + last.data)
    ensures ok <==> tag == StdTag(E, nonce, Data(aad), Data(payload) + last.data)[..|tag|]
    ensures ok ==> Sealed(E, nonce, Data(aad), pt, Data(payload) + last.data, tag)
  {
    var res;
    res, pt := DecryptPieces(Field.KeyCipher(E), init, nonce, nonceAddr, tag, aad, payload, last);
    Standard(E, nonce, Data(aad), Data(payload) + last.data);
    ok := res == Success;
    GctrInvolution(StdCipher(E), Inc32(StdPreCounter(E, nonce)), Data(payload) + last.data);
    StandardSealed(E, nonce, Data(aad), pt, |tag|);
  }
}
