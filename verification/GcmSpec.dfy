/**
 The GCM functions of sections 6.4 to 7.2 of NIST SP 800-38D, for any block cipher under
 a fixed key.
 */
module GcmSpec {
  import opened Bytes
  import opened Counter

  const ZERO: Block := Zeros(16)

  /** The block cipher under the key, multiplication by the hash subkey, and the counter increment. */
  datatype Cipher = Cipher(E: Block -> Block, mul: Block -> Block, inc: Block -> Block)

  // ---------- GHASH and GCTR ----------

  /** s padded with zeros to a whole number of blocks. */
  function Pad(s: seq<Byte>): (p: seq<Byte>)
    ensures |s| % 16 == 0 ==> p == s
    ensures |s| % 16 != 0 ==> |p| == |s| + 16 - |s| % 16
  {
    s + Zeros(if |s| % 16 == 0 then 0 else 16 - |s| % 16)
  }

  /** The whole blocks of s, and the bytes after them. */
  function Whole(s: seq<Byte>): seq<Byte> {
    s[..|s| - |s| % 16]
  }

  function Rest(s: seq<Byte>): (r: seq<Byte>)
    ensures |r| == |s| % 16
  {
    s[|s| - |s| % 16..]
  }

  /** Appending to a string whose last block is still incomplete. */
  lemma AppendShort(s: seq<Byte>, t: seq<Byte>)
    requires |s| % 16 + |t| < 16
    ensures Whole(s + t) == Whole(s) && Rest(s + t) == Rest(s) + t
  {
    assert |s + t| % 16 == |s| % 16 + |t|;
  }

  lemma AppendFull(s: seq<Byte>, t: seq<Byte>)
    requires |s| % 16 + |t| == 16
    ensures Whole(s + t) == Whole(s) + (Rest(s) + t) && Rest(s + t) == []
  {
    assert |s + t| % 16 == 0;
  }

  lemma WholeBlocks(s: seq<Byte>)
    requires |s| % 16 == 0
    ensures Whole(s) == s && Rest(s) == []
  {
  }

  function Inc(c: Cipher, b: Block): Block {
    c.inc(b)
  }

  /** internal_aes_gcm_encrypt_block. */
  function Enc(c: Cipher, b: Block): Block {
    c.E(b)
  }

  /** internal_aes_gcm_ghash_update_block: one more block into the hash state y. */
  function Absorb(c: Cipher, y: Block, block: Block): Block {
    c.mul(Xor(y, block))
  }

  /** Section 6.4: GHASH of the whole blocks of s. */
  function Ghash(c: Cipher, s: seq<Byte>): Block {
    if |s| < 16 then ZERO else Absorb(c, Ghash(c, s[..|s| - 16]), s[|s| - 16..])
  }

  lemma GhashSnoc(c: Cipher, s: seq<Byte>, b: Block)
    ensures Ghash(c, s + b) == Absorb(c, Ghash(c, s), b)
  {
    assert (s + b)[..|s|] == s && (s + b)[|s|..] == b;
  }

  lemma GhashNext(c: Cipher, before: seq<Byte>, data: seq<Byte>, k: nat)
    requires k + 16 <= |data|
    ensures Ghash(c, before + data[..k + 16]) == Absorb(c, Ghash(c, before + data[..k]), data[k..k + 16])
  {
    assert before + data[..k + 16] == before + data[..k] + data[k..k + 16];
    GhashSnoc(c, before + data[..k], data[k..k + 16]);
  }

  /** The counter blocks icb, inc(icb), inc(inc(icb)), ... */
  function Counters(c: Cipher, icb: Block): nat -> Block {
    (k: nat) => Iter(c.inc, icb, k)
  }

  ghost predicate Follows(c: Cipher, cb: nat -> Block, k: nat) {
    cb(k + 1) == Inc(c, cb(k))
  }

  lemma CountersFollow(c: Cipher, icb: Block)
    ensures Counters(c, icb)(0) == icb
    ensures forall k: nat :: Follows(c, Counters(c, icb), k)
  {
  }

  /** Section 6.5: GCTR with counter blocks cb, applied to the part of a message that starts at byte offset. */
  function GctrAt(c: Cipher, cb: nat -> Block, offset: nat, s: seq<Byte>): (r: seq<Byte>)
    ensures |r| == |s|
    ensures forall i :: 0 <= i < |s| ==> r[i] == XorByte(s[i], Enc(c, cb((offset + i) / 16))[(offset + i) % 16])
  {
    seq(|s|, i requires 0 <= i < |s| => XorByte(s[i], Enc(c, cb((offset + i) / 16))[(offset + i) % 16]))
  }

  function Gctr(c: Cipher, icb: Block, s: seq<Byte>): (r: seq<Byte>)
    ensures |r| == |s|
  {
    GctrAt(c, Counters(c, icb), 0, s)
  }

  /** GCTR of a message is GCTR of its parts, where the second part starts at byte at. */
  lemma GctrAtConcat(c: Cipher, cb: nat -> Block, offset: nat, a: seq<Byte>, b: seq<Byte>, at: nat)
    requires at == offset + |a|
    ensures GctrAt(c, cb, offset, a + b) == GctrAt(c, cb, offset, a) + GctrAt(c, cb, at, b)
  {
  }

  /** GCTR is its own inverse. */
  lemma GctrInvolution(c: Cipher, icb: Block, s: seq<Byte>)
    ensures Gctr(c, icb, Gctr(c, icb, s)) == s
  {
    GctrAtInvolution(c, Counters(c, icb), s);
  }

  lemma GctrAtInvolution(c: Cipher, cb: nat -> Block, s: seq<Byte>)
    ensures GctrAt(c, cb, 0, GctrAt(c, cb, 0, s)) == s
  {
    var x := GctrAt(c, cb, 0, s);
    forall i | 0 <= i < |s|
      ensures GctrAt(c, cb, 0, x)[i] == s[i]
    {
      XorByteLaws(s[i], Enc(c, cb((0 + i) / 16))[(0 + i) % 16]);
    }
  }

  // ---------- pre-counter block and tag ----------

  /** Section 7.1, step 2: the pre-counter block. */
  function PreCounter(c: Cipher, nonce: seq<Byte>): Block {
    if |nonce| == 12 then Inc(c, Splice(ZERO, 0, nonce)) else Ghash(c, Pad(nonce) + LenBlock(0, |nonce|))
  }

  /** Section 7.1, step 5: the bytes that are hashed. */
  function HashInput(aad: seq<Byte>, ct: seq<Byte>): seq<Byte> {
    Pad(aad) + Pad(ct) + LenBlock(|aad|, |ct|)
  }

  /** Section 7.1: ciphertext and tag of a message. */
  function Ciphertext(c: Cipher, nonce: seq<Byte>, p: seq<Byte>): (r: seq<Byte>)
    ensures |r| == |p|
  {
    Gctr(c, Inc(c, PreCounter(c, nonce)), p)
  }

  function Tag(c: Cipher, nonce: seq<Byte>, aad: seq<Byte>, ct: seq<Byte>): Block {
    Xor(Enc(c, PreCounter(c, nonce)), Ghash(c, HashInput(aad, ct)))
  }
}
