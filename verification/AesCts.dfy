/** CBC with ciphertext stealing, core/crypto/aes-cts.c: CBC-CS3 of the NIST SP 800-38A Addendum. */
module AesCts {
  import opened Bytes
  import opened Slices

  /** A block permutation and its inverse. */
  datatype Cipher = Cipher(E: Block -> Block, D: Block -> Block)

  ghost predicate Inverse(c: Cipher) {
    forall b: Block :: Decrypt(c, Encrypt(c, b)) == b
  }

  function Encrypt(c: Cipher, b: Block): Block {
    c.E(b)
  }

  function Decrypt(c: Cipher, b: Block): Block {
    c.D(b)
  }

  datatype Mode = Enc | Dec

  datatype Result = Success | BadState

  // ---------- CBC ----------

  function CbcEnc(c: Cipher, iv: Block, p: seq<Byte>): (r: seq<Byte>)
    ensures |r| == |p| - |p| % 16
    decreases |p|
  {
    if |p| < 16 then [] else
      var b := Encrypt(c, Xor(p[..16], iv));
      b + CbcEnc(c, b, p[16..])
  }

  function CbcDec(c: Cipher, iv: Block, ct: seq<Byte>): (r: seq<Byte>)
    ensures |r| == |ct| - |ct| % 16
    decreases |ct|
  {
    if |ct| < 16 then [] else Xor(Decrypt(c, ct[..16]), iv) + CbcDec(c, ct[..16], ct[16..])
  }

  /** The chaining value after a ciphertext. */
  function Chain(iv: Block, ct: seq<Byte>): Block {
    if |ct| < 16 then iv else ct[|ct| - 16..]
  }

  lemma Regroup(a: seq<Byte>, b: seq<Byte>)
    requires |a| >= 16
    ensures (a + b)[..16] == a[..16] && (a + b)[16..] == a[16..] + b
  {
  }

  lemma ChainNext(iv: Block, b: Block, rest: seq<Byte>)
    requires |rest| % 16 == 0
    ensures Chain(iv, b + rest) == Chain(b, rest)
  {
  }

  lemma {:induction false} CbcEncConcat(c: Cipher, iv: Block, a: seq<Byte>, b: seq<Byte>)
    requires |a| % 16 == 0
    ensures CbcEnc(c, iv, a + b) == CbcEnc(c, iv, a) + CbcEnc(c, Chain(iv, CbcEnc(c, iv, a)), b)
    decreases |a|
  {
    if |a| < 16 {
      assert a == [];
      NoPrefix(b);
      NoPrefix(CbcEnc(c, iv, b));
    } else {
      Regroup(a, b);
      var x := Encrypt(c, Xor(a[..16], iv));
      var rest := CbcEnc(c, x, a[16..]);
      CbcEncConcat(c, x, a[16..], b);
      ChainNext(iv, x, rest);
      Associate(x, rest, CbcEnc(c, Chain(x, rest), b));
    }
  }

  lemma {:induction false} CbcDecConcat(c: Cipher, iv: Block, a: seq<Byte>, b: seq<Byte>)
    requires |a| % 16 == 0
    ensures CbcDec(c, iv, a + b) == CbcDec(c, iv, a) + CbcDec(c, Chain(iv, a), b)
    decreases |a|
  {
    if |a| < 16 {
      assert a == [];
      NoPrefix(b);
      NoPrefix(CbcDec(c, iv, b));
    } else {
      Regroup(a, b);
      CbcDecConcat(c, a[..16], a[16..], b);
      assert a == a[..16] + a[16..];
      ChainNext(iv, a[..16], a[16..]);
      Associate(Xor(Decrypt(c, a[..16]), iv), CbcDec(c, a[..16], a[16..]), CbcDec(c, Chain(iv, a), b));
    }
  }

  lemma {:induction false} CbcInverse(c: Cipher, iv: Block, p: seq<Byte>)
    requires Inverse(c) && |p| % 16 == 0
    ensures CbcDec(c, iv, CbcEnc(c, iv, p)) == p
    decreases |p|
  {
    if |p| >= 16 {
      var b := Encrypt(c, Xor(p[..16], iv));
      var rest := CbcEnc(c, b, p[16..]);
      Regroup(b, rest);
      NoPrefix(rest);
      assert b[..16] == b && b[16..] == [];
      CbcInverse(c, b, p[16..]);
      XorCancels(p[..16], iv);
    }
  }

  // ---------- CBC-CS3 ----------

  /** Where the last block starts: it has 1 to 16 bytes. */
  function LastStart(n: nat): (m: nat)
    requires n > 0
    ensures m % 16 == 0 && m < n <= m + 16
  {
    (n - 1) / 16 * 16
  }

  /** The message padded with zero bytes to whole blocks. */
  function Padded(p: seq<Byte>): (r: seq<Byte>)
    requires |p| > 0
    ensures |r| == LastStart(|p|) + 16
  {
    p + Zeros(LastStart(|p|) + 16 - |p|)
  }

  /** Swapping the last two blocks and cutting the one that is now last: from a CBC ciphertext to n bytes. */
  function Steal(ct: seq<Byte>, n: nat): (r: seq<Byte>)
    requires n > 16 && |ct| == LastStart(n) + 16
    ensures |r| == n
  {
    var m := LastStart(n);
    ct[..m - 16] + ct[m..] + ct[m - 16..n - 16]
  }

  /** The encryption of the Addendum. */
  function Cs3(c: Cipher, iv: Block, p: seq<Byte>): (r: seq<Byte>)
    requires |p| > 16
    ensures |r| == |p|
  {
    Steal(CbcEnc(c, iv, Padded(p)), |p|)
  }

  /** The last stolen block completed from the decryption of the block before it. */
  function Restored(c: Cipher, ct: seq<Byte>): Block
    requires |ct| > 16
  {
    var m := LastStart(|ct|);
    ct[m..] + Decrypt(c, ct[m - 16..m])[|ct| - m..]
  }

  /** The decryption of the Addendum: complete the last block, swap, decrypt, truncate. */
  function Cs3Dec(c: Cipher, iv: Block, ct: seq<Byte>): (r: seq<Byte>)
    requires |ct| > 16
    ensures |r| == |ct|
  {
    CbcDec(c, iv, Swapped(c, ct))[..|ct|]
  }

  /** The ciphertext with its last block completed and the last two blocks swapped back. */
  function Swapped(c: Cipher, ct: seq<Byte>): (r: seq<Byte>)
    requires |ct| > 16
    ensures |r| == LastStart(|ct|) + 16
  {
    var m := LastStart(|ct|);
    ct[..m - 16] + Restored(c, ct) + ct[m - 16..m]
  }

  /** The last ciphertext block, from the one before it. */
  lemma LastBlock(c: Cipher, iv: Block, p: seq<Byte>)
    requires |p| > 16 && |p| % 16 == 0
    ensures var ct := CbcEnc(c, iv, p); var m := |p| - 16;
      |ct| == |p| && ct[m..] == Encrypt(c, Xor(p[m..], ct[m - 16..m])) && ct[..m] == CbcEnc(c, iv, p[..m])
  {
    var m := |p| - 16;
    var head := CbcEnc(c, iv, p[..m]);
    assert p == p[..m] + p[m..];
    CbcEncConcat(c, iv, p[..m], p[m..]);
    OneBlock(c, Chain(iv, head), p[m..]);
    var ct := CbcEnc(c, iv, p);
    assert ct[m - 16..m] == Chain(iv, head);
  }

  lemma OneBlock(c: Cipher, iv: Block, b: Block)
    ensures CbcEnc(c, iv, b) == Encrypt(c, Xor(b, iv)) && CbcDec(c, iv, b) == Xor(Decrypt(c, b), iv)
  {
    assert b[..16] == b && b[16..] == [];
  }

  /** Where the padding is zero, exclusive or gives back the block before. */
  lemma PaddingSteals(last: Block, prev: Block, len: nat)
    requires len <= 16 && forall i :: len <= i < 16 ==> last[i] == 0
    ensures prev[..len] + Xor(last, prev)[len..] == prev
  {
    forall i | len <= i < 16
      ensures Xor(last, prev)[i] == prev[i]
    {
      XorZeroByte(prev[i]);
    }
  }

  /** What was stolen can be restored. */
  lemma StealRestored(c: Cipher, iv: Block, p: seq<Byte>)
    requires Inverse(c) && |p| > 16
    ensures var m := LastStart(|p|); var ct := CbcEnc(c, iv, Padded(p));
      Cs3(c, iv, p)[m - 16..m] == ct[m..] && Restored(c, Cs3(c, iv, p)) == ct[m - 16..m] &&
        Cs3(c, iv, p)[..m - 16] == ct[..m - 16]
  {
    var m, q := LastStart(|p|), Padded(p);
    var ct, s := CbcEnc(c, iv, q), Cs3(c, iv, p);
    LastBlock(c, iv, q);
    var last: Block := q[m..];
    var prev: Block := ct[m - 16..m];
    assert s[m - 16..m] == ct[m..];
    assert s[m..] == prev[..|p| - m];
    PaddingSteals(last, prev, |p| - m);
  }

  /** Decryption undoes encryption, for every message longer than one block. */
  lemma Cs3Inverse(c: Cipher, iv: Block, p: seq<Byte>)
    requires Inverse(c) && |p| > 16
    ensures Cs3Dec(c, iv, Cs3(c, iv, p)) == p
  {
    var m, q := LastStart(|p|), Padded(p);
    var ct, s := CbcEnc(c, iv, q), Cs3(c, iv, p);
    StealRestored(c, iv, p);
    ThreeParts(ct, m);
    assert Swapped(c, s) == ct;
    CbcInverse(c, iv, q);
    PaddedPrefix(p);
  }

  lemma ThreeParts(ct: seq<Byte>, m: nat)
    requires 16 <= m <= |ct|
    ensures ct[..m - 16] + ct[m - 16..m] + ct[m..] == ct
  {
  }

  lemma PaddedPrefix(p: seq<Byte>)
    requires |p| > 0
    ensures Padded(p)[..|p|] == p
  {
  }

  // ---------- CBC and CBC-CS3 block by block ----------

  function BlockOf(s: seq<Byte>, k: nat): Block
    requires 16 * k + 16 <= |s|
  {
    s[16 * k..16 * k + 16]
  }

  /** Every block of ct is E of the plaintext block exclusive-ored with the block of ct before it, the first with iv. */
  ghost predicate IsCbc(c: Cipher, iv: Block, p: seq<Byte>, ct: seq<Byte>) {
    |p| % 16 == 0 && |ct| == |p| && forall k :: 0 <= k < |p| / 16 ==> CbcAt(c, iv, p, ct, k)
  }

  ghost predicate CbcAt(c: Cipher, iv: Block, p: seq<Byte>, ct: seq<Byte>, k: nat)
    requires 16 * k + 16 <= |p| == |ct|
  {
    BlockOf(ct, k) == c.E(Xor(BlockOf(p, k), if k == 0 then iv else BlockOf(ct, k - 1)))
  }

  lemma {:induction false} CbcBlocks(c: Cipher, iv: Block, p: seq<Byte>)
    requires |p| % 16 == 0
    ensures IsCbc(c, iv, p, CbcEnc(c, iv, p))
    decreases |p|
  {
    if |p| >= 16 {
      var x := Encrypt(c, Xor(p[..16], iv));
      CbcBlocks(c, x, p[16..]);
      CbcFirst(c, iv, p, x, CbcEnc(c, x, p[16..]));
    }
  }

  lemma CbcFirst(c: Cipher, iv: Block, p: seq<Byte>, x: Block, rest: seq<Byte>)
    requires |p| >= 16 && x == Encrypt(c, Xor(p[..16], iv)) && IsCbc(c, x, p[16..], rest)
    ensures IsCbc(c, iv, p, x + rest)
  {
    forall k | 0 <= k < |p| / 16
      ensures CbcAt(c, iv, p, x + rest, k)
    {
      BlockAfter(p[..16], p[16..], p, k);
      BlockAfter(x, rest, x + rest, k);
      if k > 0 {
        BlockAfter(x, rest, x + rest, k - 1);
        assert CbcAt(c, x, p[16..], rest, k - 1);
      }
    }
  }

  lemma BlockAfter(b: Block, rest: seq<Byte>, s: seq<Byte>, k: nat)
    requires s == b + rest && 16 * k + 16 <= |s|
    ensures BlockOf(s, k) == if k == 0 then b else BlockOf(rest, k - 1)
  {
  }

  /** r is the CBC-CS3 ciphertext of p: CBC of p filled up with zeros, the last two blocks swapped, cut to |p| bytes. */
  ghost predicate IsCs3(c: Cipher, iv: Block, p: seq<Byte>, r: seq<Byte>) {
    exists q, ct: seq<Byte> :: IsCbc(c, iv, q, ct) && FilledUp(p, q) && SwappedEnd(ct, r)
  }

  /** q has the fewest whole blocks that hold p, and zeros behind it. */
  ghost predicate FilledUp(p: seq<Byte>, q: seq<Byte>) {
    |p| <= |q| < |p| + 16 && |q| % 16 == 0 && forall i :: 0 <= i < |q| ==> q[i] == if i < |p| then p[i] else 0
  }

  /** r is ct with its last two blocks swapped, and then cut at the end. */
  ghost predicate SwappedEnd(ct: seq<Byte>, r: seq<Byte>) {
    var m := |ct| - 32;
    m >= 0 && m + 16 < |r| <= |ct| && forall i :: 0 <= i < |r| ==>
      r[i] == ct[if i < m then i else if i < m + 16 then i + 16 else i - 16]
  }

  lemma Cs3OnBytes(c: Cipher, iv: Block, p: seq<Byte>)
    requires |p| > 16
    ensures IsCs3(c, iv, p, Cs3(c, iv, p))
  {
    var q := Padded(p);
    CbcBlocks(c, iv, q);
    var ct := CbcEnc(c, iv, q);
    StealSwaps(ct, |p|);
    assert FilledUp(p, q);
  }

  lemma StealSwaps(ct: seq<Byte>, n: nat)
    requires n > 16 && |ct| == LastStart(n) + 16
    ensures SwappedEnd(ct, Steal(ct, n))
  {
  }

  // ---------- splitting ----------

  lemma LastStartAfter(h: nat, n: nat)
    requires h % 16 == 0 && n > 0
    ensures LastStart(h + n) == h + LastStart(n)
  {
  }

  lemma PaddedConcat(head: seq<Byte>, rest: seq<Byte>)
    requires |head| % 16 == 0 && |rest| > 0
    ensures Padded(head + rest) == head + Padded(rest)
  {
    LastStartAfter(|head|, |rest|);
  }

  /** Whole blocks in front are encrypted by plain CBC. */
  lemma Cs3Concat(c: Cipher, iv: Block, head: seq<Byte>, rest: seq<Byte>)
    requires |head| % 16 == 0 && |rest| > 16
    ensures Cs3(c, iv, head + rest) == CbcEnc(c, iv, head) + Cs3(c, Chain(iv, CbcEnc(c, iv, head)), rest)
  {
    PaddedConcat(head, rest);
    CbcEncConcat(c, iv, head, Padded(rest));
    var a, b := CbcEnc(c, iv, head), CbcEnc(c, Chain(iv, CbcEnc(c, iv, head)), Padded(rest));
    StealConcat(a, b, |rest|);
    Cs3Steals(c, iv, head + rest, a + b);
    Cs3Steals(c, Chain(iv, a), rest, b);
  }

  lemma Cs3Steals(c: Cipher, iv: Block, p: seq<Byte>, ct: seq<Byte>)
    requires |p| > 16 && ct == CbcEnc(c, iv, Padded(p))
    ensures |ct| == LastStart(|p|) + 16 && Cs3(c, iv, p) == Steal(ct, |p|)
  {
  }

  lemma StealConcat(a: seq<Byte>, b: seq<Byte>, n: nat)
    requires |a| % 16 == 0 && n > 16 && |b| == LastStart(n) + 16
    ensures |a + b| == LastStart(|a| + n) + 16 && Steal(a + b, |a| + n) == a + Steal(b, n)
  {
    LastStartAfter(|a|, n);
    StealShifted(a, b, LastStart(n), n);
  }

  lemma StealShifted(a: seq<Byte>, b: seq<Byte>, m: nat, n: nat)
    requires 16 <= m < n <= m + 16 == |b|
    ensures (a + b)[..|a| + m - 16] + (a + b)[|a| + m..] + (a + b)[|a| + m - 16..|a| + n - 16]
      == a + (b[..m - 16] + b[m..] + b[m - 16..n - 16])
  {
    HeadOf(a, b, m - 16);
    ShiftedSlice(a, b, m, m + 16);
    ShiftedSlice(a, b, m - 16, n - 16);
    Tails(a + b, |a| + m);
    Tails(b, m);
    Associate(a, b[..m - 16], b[m..]);
    Associate(a, b[..m - 16] + b[m..], b[m - 16..n - 16]);
  }

  lemma Cs3DecConcat(c: Cipher, iv: Block, head: seq<Byte>, rest: seq<Byte>)
    requires |head| % 16 == 0 && |rest| > 16
    ensures Cs3Dec(c, iv, head + rest) == CbcDec(c, iv, head) + Cs3Dec(c, Chain(iv, head), rest)
  {
    LastStartAfter(|head|, |rest|);
    RestoredConcat(c, head, rest);
    SwappedConcat(c, head, rest);
    CbcDecConcat(c, iv, head, Swapped(c, rest));
    HeadOf(CbcDec(c, iv, head), CbcDec(c, Chain(iv, head), Swapped(c, rest)), |rest|);
  }

  lemma Tails(a: seq<Byte>, k: nat)
    requires k <= |a|
    ensures a[k..|a|] == a[k..]
  {
  }

  lemma RestoredConcat(c: Cipher, head: seq<Byte>, rest: seq<Byte>)
    requires |head| % 16 == 0 && |rest| > 16
    ensures Restored(c, head + rest) == Restored(c, rest)
  {
    LastStartAfter(|head|, |rest|);
    var m, ct := LastStart(|rest|), head + rest;
    assert ct[|head| + m..] == rest[m..];
    assert ct[|head| + m - 16..|head| + m] == rest[m - 16..m];
  }

  lemma SwappedConcat(c: Cipher, head: seq<Byte>, rest: seq<Byte>)
    requires |head| % 16 == 0 && |rest| > 16
    ensures Swapped(c, head + rest) == head + Swapped(c, rest)
  {
    LastStartAfter(|head|, |rest|);
    RestoredConcat(c, head, rest);
    var m := LastStart(|rest|);
    HeadOf(head, rest, m - 16);
    ShiftedSlice(head, rest, m - 16, m);
    Associate(head, rest[..m - 16], Restored(c, rest));
    Associate(head, rest[..m - 16] + Restored(c, rest), rest[m - 16..m]);
  }

  // ---------- the context ----------

  /** struct cts_ctx; iv is the chaining value inside the CBC context. */
  class Context {
    const c: Cipher
    var iv: Block

    constructor (c: Cipher, iv: Block)
      ensures this.c == c && this.iv == iv
    {
      this.c, this.iv := c, iv;
    }

    /** tee_do_cipher_update of the CBC context, for whole blocks. */
    method CbcUpdate(mode: Mode, data: seq<Byte>) returns (dst: seq<Byte>)
      requires |data| % 16 == 0
      modifies this
      ensures mode.Enc? ==> dst == CbcEnc(c, old(iv), data) && iv == Chain(old(iv), dst)
      ensures mode.Dec? ==> dst == CbcDec(c, old(iv), data) && iv == Chain(old(iv), data)
    {
      dst := if mode.Enc? then CbcEnc(c, iv, data) else CbcDec(c, iv, data);
      iv := Chain(iv, if mode.Enc? then dst else data);
    }

    /** cbc_cts_update. */
    method Update(mode: Mode, last: bool, data: seq<Byte>) returns (res: Result, dst: seq<Byte>)
      requires !last ==> |data| % 16 == 0
      modifies this
      ensures res == if last && |data| <= 16 then BadState else Success
      ensures res.BadState? ==> iv == old(iv)
      ensures !last ==> iv == Chain(old(iv), if mode.Enc? then dst else data)
      ensures !last ==> dst == if mode.Enc? then CbcEnc(c, old(iv), data) else CbcDec(c, old(iv), data)
      ensures res.Success? && last ==> dst == if mode.Enc? then Cs3(c, old(iv), data) else Cs3Dec(c, old(iv), data)
    {
      if !last {
        dst := CbcUpdate(mode, data);
        return Success, dst;
      }
      var blocks := (|data| + 15) / 16;
      if blocks < 2 {
        return BadState, [];
      }
      var len := if |data| % 16 == 0 then 16 else |data| % 16;
      if mode.Enc? {
        dst := EncryptLast(data, blocks, len);
      } else {
        dst := DecryptLast(data, blocks, len);
      }
      res := Success;
    }

    method EncryptLast(data: seq<Byte>, blocks: nat, len: nat) returns (dst: seq<Byte>)
      requires blocks >= 2 && 1 <= len <= 16 && |data| == (blocks - 1) * 16 + len
      modifies this
      ensures dst == Cs3(c, old(iv), data)
    {
      var m := (blocks - 1) * 16;
      var tmp := data[m..] + Zeros(16 - len);
      dst := Zeros(|data|);
      var head := CbcUpdate(Enc, data[..m]);
      dst := Splice(dst, 0, head);
      dst := Splice(dst, m, dst[m - 16..m - 16 + len]);
      var cn := CbcUpdate(Enc, tmp);
      dst := Splice(dst, m - 16, cn);
      WrittenOut(|data|, m, len, head, cn);
      EncryptedParts(c, old(iv), data, m, head, cn);
    }

    method DecryptLast(data: seq<Byte>, blocks: nat, len: nat) returns (dst: seq<Byte>)
      requires blocks >= 2 && 1 <= len <= 16 && |data| == (blocks - 1) * 16 + len
      modifies this
      ensures dst == Cs3Dec(c, old(iv), data)
    {
      var m := (blocks - 1) * 16;
      PaddedParts(data, m);
      var tmp2 := Decrypt(c, data[m - 16..m]);
      var tmp: Block := data[m..] + tmp2[len..];
      var head, a, b := DecryptParts(data, m, tmp);
      DecryptedParts(c, old(iv), data, m, head, a, b);
      WrittenIn(|data|, m, len, head, a, b[..len]);
      dst := Splice(Splice(Splice(Zeros(|data|), 0, head), m - 16, a), m, b[..len]);
    }

    /** The three CBC calls of decryption, the last two in swapped order. */
    method DecryptParts(data: seq<Byte>, m: nat, tmp: Block) returns (head: seq<Byte>, a: seq<Byte>, b: seq<Byte>)
      requires m % 16 == 0 && 16 <= m < |data|
      modifies this
      ensures head == CbcDec(c, old(iv), data[..m - 16]) && |head| == m - 16
      ensures a == CbcDec(c, Chain(old(iv), data[..m - 16]), tmp) && |a| == 16
      ensures b == CbcDec(c, tmp, data[m - 16..m]) && |b| == 16
    {
      head := [];
      if m > 16 {
        head := CbcUpdate(Dec, data[..m - 16]);
      }
      a := CbcUpdate(Dec, tmp);
      b := CbcUpdate(Dec, data[m - 16..m]);
    }
  }

  lemma SpliceMiddle(a: seq<Byte>, b: seq<Byte>, d: seq<Byte>, x: seq<Byte>, pos: nat)
    requires |x| == |b| && pos == |a|
    ensures Splice(a + b + d, pos, x) == a + x + d
  {
  }

  lemma ZerosSplit(i: nat, j: nat, k: nat)
    ensures Zeros(i + j + k) == Zeros(i) + Zeros(j) + Zeros(k)
  {
  }

  lemma MiddleOf(a: seq<Byte>, b: seq<Byte>, i: nat, j: nat)
    requires i <= j <= |a|
    ensures (a + b)[i..j] == a[i..j]
  {
  }

  /** The three writes of encryption. */
  lemma WrittenOut(n: nat, m: nat, len: nat, head: seq<Byte>, cn: Block)
    requires n == m + len && 16 <= m == |head| && len <= 16
    ensures var d1 := Splice(Zeros(n), 0, head);
      var d2 := Splice(d1, m, d1[m - 16..m - 16 + len]);
      Splice(d2, m - 16, cn) == head[..m - 16] + cn + head[m - 16..m - 16 + len]
  {
    ZerosSplit(0, m, len);
    SpliceMiddle([], Zeros(m), Zeros(len), head, 0);
    NoPrefix(head);
    NoPrefix(Zeros(m));
    MiddleOf(head, Zeros(len), m - 16, m - 16 + len);
    var stolen := head[m - 16..m - 16 + len];
    SpliceMiddle(head, Zeros(len), [], stolen, m);
    NoSuffix(head + Zeros(len));
    NoSuffix(head + stolen);
    SplitAt(head, m - 16);
    SpliceMiddle(head[..m - 16], head[m - 16..], stolen, cn, m - 16);
  }

  /** The three writes of decryption. */
  lemma WrittenIn(n: nat, m: nat, len: nat, head: seq<Byte>, a: Block, b: seq<Byte>)
    requires n == m + len && 16 <= m == |head| + 16 && len == |b|
    ensures Splice(Splice(Splice(Zeros(n), 0, head), m - 16, a), m, b) == head + a + b
  {
    ZerosSplit(m - 16, 16, len);
    SpliceMiddle([], Zeros(m - 16), Zeros(16) + Zeros(len), head, 0);
    NoPrefix(head);
    NoPrefix(Zeros(m - 16));
    Associate(Zeros(m - 16), Zeros(16), Zeros(len));
    Associate(head, Zeros(16), Zeros(len));
    SpliceMiddle(head, Zeros(16), Zeros(len), a, m - 16);
    SpliceMiddle(head + a, Zeros(len), [], b, m);
    NoSuffix(head + a + Zeros(len));
    NoSuffix(head + a + b);
  }

  /** The pieces that encryption of the last part computes make up the stolen ciphertext. */
  lemma EncryptedParts(c: Cipher, iv: Block, data: seq<Byte>, m: nat, head: seq<Byte>, cn: seq<Byte>)
    requires m % 16 == 0 && 16 <= m < |data| <= m + 16 && head == CbcEnc(c, iv, data[..m])
    requires cn == CbcEnc(c, Chain(iv, head), data[m..] + Zeros(m + 16 - |data|))
    ensures Cs3(c, iv, data) == head[..m - 16] + cn + head[m - 16..|data| - 16]
  {
    PaddedParts(data, m);
    CbcEncConcat(c, iv, data[..m], data[m..] + Zeros(m + 16 - |data|));
    StealParts(head, cn, |data|);
  }

  lemma PaddedParts(data: seq<Byte>, m: nat)
    requires m % 16 == 0 && m < |data| <= m + 16
    ensures LastStart(|data|) == m && Padded(data) == data[..m] + (data[m..] + Zeros(m + 16 - |data|))
  {
  }

  lemma StealParts(head: seq<Byte>, cn: Block, n: nat)
    requires n > 16 && |head| == LastStart(n)
    ensures Steal(head + cn, n) == head[..|head| - 16] + cn + head[|head| - 16..n - 16]
  {
    var ct, m := head + cn, |head|;
    assert ct[..m - 16] == head[..m - 16] && ct[m..] == cn && ct[m - 16..n - 16] == head[m - 16..n - 16];
  }

  lemma DecryptedParts(c: Cipher, iv: Block, data: seq<Byte>, m: nat, head: seq<Byte>, a: seq<Byte>, b: seq<Byte>)
    requires m % 16 == 0 && 16 <= m < |data| <= m + 16 && head == CbcDec(c, iv, data[..m - 16])
    requires a == CbcDec(c, Chain(iv, data[..m - 16]), Restored(c, data))
    requires b == CbcDec(c, Restored(c, data), data[m - 16..m])
    ensures Cs3Dec(c, iv, data) == head + a + b[..|data| - m]
  {
    assert LastStart(|data|) == m;
    var x, y: Block := data[..m - 16], Restored(c, data);
    CbcDecConcat(c, iv, x, y);
    CbcDecConcat(c, iv, x + y, data[m - 16..m]);
    assert Chain(iv, x + y) == y;
    HeadOf(head + a, b, |data| - m);
  }

  // ---------- runs ----------

  predicate WholeBlocks(ps: seq<seq<Byte>>) {
    forall i :: 0 <= i < |ps| ==> |ps[i]| % 16 == 0
  }

  lemma {:induction false} WholePrefix(ps: seq<seq<Byte>>, i: nat)
    requires i <= |ps| && WholeBlocks(ps)
    ensures |Joined(ps[..i])| % 16 == 0
  {
    if i > 0 {
      WholePrefix(ps, i - 1);
      JoinedNext(ps, i - 1);
    }
  }

  lemma ChainConcat(iv: Block, a: seq<Byte>, b: seq<Byte>)
    requires |a| % 16 == 0 && |b| % 16 == 0
    ensures Chain(iv, a + b) == Chain(Chain(iv, a), b)
  {
    if b == [] {
      assert a + b == a;
    } else if a == [] {
      assert a + b == b;
    } else {
      assert (a + b)[|a| + |b| - 16..] == b[|b| - 16..];
    }
  }

  /** Any number of whole-block updates and then the last one. */
  method Process(c: Cipher, iv: Block, mode: Mode, pieces: seq<seq<Byte>>, last: seq<Byte>) returns (dst: seq<Byte>)
    requires WholeBlocks(pieces) && |last| > 16
    ensures dst == if mode.Enc? then Cs3(c, iv, Joined(pieces) + last) else Cs3Dec(c, iv, Joined(pieces) + last)
    ensures |dst| == |Joined(pieces)| + |last|
    ensures mode.Enc? ==> IsCs3(c, iv, Joined(pieces) + last, dst)
  {
    Cs3OnBytes(c, iv, Joined(pieces) + last);
    var ctx := new Context(c, iv);
    dst := [];
    assert pieces[..0] == [];
    for i := 0 to |pieces|
      invariant ctx.c == c && |Joined(pieces[..i])| % 16 == 0
      invariant dst == if mode.Enc? then CbcEnc(c, iv, Joined(pieces[..i])) else CbcDec(c, iv, Joined(pieces[..i]))
      invariant ctx.iv == Chain(iv, if mode.Enc? then dst else Joined(pieces[..i]))
    {
      JoinedNext(pieces, i);
      WholePrefix(pieces, i + 1);
      var res, d := ctx.Update(mode, false, pieces[i]);
      CbcEncConcat(c, iv, Joined(pieces[..i]), pieces[i]);
      CbcDecConcat(c, iv, Joined(pieces[..i]), pieces[i]);
      ChainConcat(iv, if mode.Enc? then dst else Joined(pieces[..i]), if mode.Enc? then d else pieces[i]);
      dst := dst + d;
    }
    assert pieces[..|pieces|] == pieces;
    Cs3Concat(c, iv, Joined(pieces), last);
    Cs3DecConcat(c, iv, Joined(pieces), last);
    var res, d := ctx.Update(mode, true, last);
    dst := dst + d;
  }

  /** The round trip, however either side splits the data. */
  method RoundTrip(c: Cipher, iv: Block, pieces: seq<seq<Byte>>, last: seq<Byte>, pieces': seq<seq<Byte>>,
                   last': seq<Byte>)
    returns (ct: seq<Byte>, p: seq<Byte>)
    requires Inverse(c) && WholeBlocks(pieces) && |last| > 16 && WholeBlocks(pieces') && |last'| > 16
    ensures |ct| == |Joined(pieces) + last|
    ensures Joined(pieces') + last' == ct ==> p == Joined(pieces) + last
  {
    ct := Process(c, iv, Enc, pieces, last);
    p := Process(c, iv, Dec, pieces', last');
    Cs3Inverse(c, iv, Joined(pieces) + last);
  }
}
