/**
 The product of blocks of section 6.3 of NIST SP 800-38D. As in the standard a block
 is a bit string; its first bit, the most significant bit of its first byte, is the
 coefficient of x^0.
 */
module Gf128 {

  type Bits = seq<bool>
  type Elem = e: Bits | |e| == 128 witness Zeros(128)

  function Zeros(n: nat): (z: Bits)
    ensures |z| == n && forall i :: 0 <= i < n ==> !z[i]
  {
    seq(n, _ => false)
  }

  function Xor(a: Bits, b: Bits): (c: Bits)
    requires |a| == |b|
    ensures |c| == |a| && forall i :: 0 <= i < |c| ==> c[i] == (a[i] != b[i])
  {
    seq(|a|, i requires 0 <= i < |a| => a[i] != b[i])
  }

  /** The unit: x^0. */
  const ONE: Elem := seq(128, i => i == 0)

  /** The exponents in x^128 reduced: 1 + x + x^2 + x^7. */
  predicate InR(i: int) {
    i == 0 || i == 1 || i == 2 || i == 7
  }

  /** Multiplication by x. */
  function MulX(v: Elem): (r: Elem)
    ensures forall i :: 0 <= i < 128 ==> r[i] == ((i > 0 && v[i - 1]) != (v[127] && InR(i)))
  {
    seq(128, i requires 0 <= i < 128 => (i > 0 && v[i - 1]) != (v[127] && InR(i)))
  }

  function Scale(b: bool, v: Elem): Elem {
    if b then v else Zeros(128)
  }

  /** Algorithm 1 of section 6.3: the sum over i of bits[i] * x^i * v. */
  function Dot(bits: Bits, v: Elem): Elem {
    if bits == [] then Zeros(128) else Xor(Scale(bits[0], v), Dot(bits[1..], MulX(v)))
  }

  function Product(a: Elem, b: Elem): Elem {
    Dot(a, b)
  }

  lemma XorAssoc(a: Bits, b: Bits, c: Bits)
    requires |a| == |b| == |c|
    ensures Xor(Xor(a, b), c) == Xor(a, Xor(b, c))
  {
  }

  lemma XorSwap(p: Bits, q: Bits, r: Bits, s: Bits)
    requires |p| == |q| == |r| == |s|
    ensures Xor(Xor(p, q), Xor(r, s)) == Xor(Xor(p, r), Xor(q, s))
  {
  }

  lemma XorZero(a: Elem)
    ensures Xor(a, Zeros(128)) == a && Xor(Zeros(128), a) == a
  {
  }

  lemma MulXLinear(a: Elem, b: Elem)
    ensures MulX(Xor(a, b)) == Xor(MulX(a), MulX(b))
  {
  }

  lemma MulXScale(b: bool, v: Elem)
    ensures MulX(Scale(b, v)) == Scale(b, MulX(v))
  {
  }

  /** Dot is linear in its field argument. */
  lemma {:induction false} DotLinear(bits: Bits, a: Elem, b: Elem)
    ensures Dot(bits, Xor(a, b)) == Xor(Dot(bits, a), Dot(bits, b))
  {
    if bits == [] {
    } else {
      MulXLinear(a, b);
      DotLinear(bits[1..], MulX(a), MulX(b));
      XorZero(Zeros(128));
      XorSwap(Scale(bits[0], a), Scale(bits[0], b), Dot(bits[1..], MulX(a)), Dot(bits[1..], MulX(b)));
    }
  }

  lemma {:induction false} DotScale(bits: Bits, b: bool, v: Elem)
    ensures Dot(bits, Scale(b, v)) == Scale(b, Dot(bits, v))
  {
    if bits == [] || b {
    } else {
      MulXScale(b, v);
      DotScale(bits[1..], b, MulX(v));
      XorZero(Zeros(128));
    }
  }

  /** A polynomial in x commutes with x, which is the Horner form of Dot. */
  lemma {:induction false} DotMulX(bits: Bits, v: Elem)
    ensures Dot(bits, MulX(v)) == MulX(Dot(bits, v))
  {
    if bits == [] {
    } else {
      DotMulX(bits[1..], MulX(v));
      MulXLinear(Scale(bits[0], v), Dot(bits[1..], MulX(v)));
      MulXScale(bits[0], v);
    }
  }

  /** Two polynomials in x commute as operators. */
  lemma {:induction false} DotCommute(a: Bits, b: Bits, u: Elem)
    ensures Dot(a, Dot(b, u)) == Dot(b, Dot(a, u))
  {
    if a == [] {
      DotScale(b, false, u);
    } else {
      DotMulX(b, u);
      DotCommute(a[1..], b, MulX(u));
      DotLinear(b, Scale(a[0], u), Dot(a[1..], MulX(u)));
      DotScale(b, a[0], u);
    }
  }

  /** Up to 128 coefficients applied to the unit are the element with these coefficients. */
  lemma {:induction false} DotOne(bits: Bits)
    requires |bits| <= 128
    ensures Dot(bits, ONE) == bits + Zeros(128 - |bits|)
  {
    if bits == [] {
    } else {
      DotOne(bits[1..]);
      DotMulX(bits[1..], ONE);
      var rest := Dot(bits[1..], ONE);
      assert Xor(Scale(bits[0], ONE), MulX(rest)) == bits + Zeros(128 - |bits|);
    }
  }

  /** The product of blocks is commutative, although Algorithm 1 treats its operands differently. */
  lemma ProductCommutes(a: Elem, b: Elem)
    ensures Product(a, b) == Product(b, a)
  {
    DotOne(a);
    DotOne(b);
    assert a + Zeros(0) == a && b + Zeros(0) == b;
    DotCommute(a, b, ONE);
  }
}
