/** Byte strings, blocks and exclusive or, shared by the models of core/crypto. */
module Bytes {

  type Byte = b: nat | b < 256

  const BLOCK: nat := 16

  type Block = b: seq<Byte> | |b| == BLOCK witness Zeros(BLOCK)

  function Zeros(n: nat): (z: seq<Byte>)
    ensures |z| == n
    ensures forall i :: 0 <= i < n ==> z[i] == 0
  {
    seq(n, _ => 0)
  }

  function Pow2(n: nat): (p: nat)
    ensures p > 0
  {
    if n == 0 then 1 else 2 * Pow2(n - 1)
  }

  /** Exclusive or of the n low bits of two numbers. */
  function XorBits(a: nat, b: nat, n: nat): (c: nat)
    ensures c < Pow2(n)
    decreases n, a, b
  {
    if n == 0 then 0 else (if a % 2 == b % 2 then 0 else 1) + 2 * XorBits(a / 2, b / 2, n - 1)
  }

  lemma {:induction false} XorBitsCancels(a: nat, b: nat, n: nat)
    requires a < Pow2(n)
    ensures XorBits(XorBits(a, b, n), b, n) == a
    decreases n
  {
    if n == 0 {
    } else {
      XorBitsCancels(a / 2, b / 2, n - 1);
      var c := XorBits(a, b, n);
      assert c / 2 == XorBits(a / 2, b / 2, n - 1);
      assert c % 2 == (if a % 2 == b % 2 then 0 else 1);
    }
  }

  lemma {:induction false} XorBitsCommutes(a: nat, b: nat, n: nat)
    ensures XorBits(a, b, n) == XorBits(b, a, n)
    decreases n
  {
    if n == 0 {
    } else {
      XorBitsCommutes(a / 2, b / 2, n - 1);
    }
  }

  /** The C operator ^ on bytes. */
  function XorByte(a: Byte, b: Byte): Byte {
    assert Pow2(8) == 256;
    XorBits(a, b, 8)
  }

  lemma XorByteLaws(a: Byte, b: Byte)
    ensures XorByte(b, a) == XorByte(a, b)
    ensures XorByte(XorByte(a, b), b) == a
  {
    assert Pow2(8) == 256;
    XorBitsCommutes(a, b, 8);
    XorBitsCancels(a, b, 8);
  }

  lemma {:induction false} XorBitsAssociates(a: nat, b: nat, c: nat, n: nat)
    ensures XorBits(XorBits(a, b, n), c, n) == XorBits(a, XorBits(b, c, n), n)
    decreases n
  {
    if n > 0 {
      XorBitsAssociates(a / 2, b / 2, c / 2, n - 1);
      var x, y := XorBits(a, b, n), XorBits(b, c, n);
      assert x / 2 == XorBits(a / 2, b / 2, n - 1) && y / 2 == XorBits(b / 2, c / 2, n - 1);
      assert x % 2 == (if a % 2 == b % 2 then 0 else 1) && y % 2 == (if b % 2 == c % 2 then 0 else 1);
    }
  }

  lemma {:induction false} XorZeroBits(a: nat, n: nat)
    requires a < Pow2(n)
    ensures XorBits(0, a, n) == a
    decreases n
  {
    if n > 0 {
      XorZeroBits(a / 2, n - 1);
    }
  }

  lemma XorZeroByte(a: Byte)
    ensures XorByte(0, a) == a
  {
    assert Pow2(8) == 256;
    XorZeroBits(a, 8);
  }

  /** Bytewise exclusive or of two strings of one length. */
  function Xor(a: seq<Byte>, b: seq<Byte>): (c: seq<Byte>)
    requires |a| == |b|
    ensures |c| == |a|
    ensures forall i :: 0 <= i < |c| ==> c[i] == XorByte(a[i], b[i])
  {
    seq(|a|, i requires 0 <= i < |a| => XorByte(a[i], b[i]))
  }

  lemma XorCancels(a: seq<Byte>, b: seq<Byte>)
    requires |a| == |b|
    ensures Xor(Xor(a, b), b) == a
    ensures Xor(b, a) == Xor(a, b)
  {
    forall i | 0 <= i < |a|
      ensures Xor(Xor(a, b), b)[i] == a[i] && Xor(b, a)[i] == Xor(a, b)[i]
    {
      XorByteLaws(a[i], b[i]);
    }
  }

  lemma XorAssociates(a: seq<Byte>, b: seq<Byte>, c: seq<Byte>)
    requires |a| == |b| == |c|
    ensures Xor(Xor(a, b), c) == Xor(a, Xor(b, c))
  {
    forall i | 0 <= i < |a|
      ensures Xor(Xor(a, b), c)[i] == Xor(a, Xor(b, c))[i]
    {
      XorBitsAssociates(a[i], b[i], c[i], 8);
    }
  }

  /** buf with data copied over it from position pos on (memcpy). */
  function Splice(buf: seq<Byte>, pos: nat, data: seq<Byte>): (r: seq<Byte>)
    requires pos + |data| <= |buf|
    ensures |r| == |buf|
    ensures r[..pos] == buf[..pos] && r[pos..pos + |data|] == data && r[pos + |data|..] == buf[pos + |data|..]
  {
    buf[..pos] + data + buf[pos + |data|..]
  }
}
