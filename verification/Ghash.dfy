/**
 The two GHASH multipliers: Shoup's method with 4-bit tables and the bit-by-bit loop.
 A 64-bit word is its bit string, most significant bit first, so that a pair of
 big-endian words (high, low) is the element high + low.
 */
module Ghash {
  import Arithmetic
  import BigEndian
  import Bytes
  import Counter
  import GcmSpec
  import opened Gf128

  type Word = w: Bits | |w| == 64 witness Zeros(64)

  /** The element held in a pair of words. */
  function Join(h: Word, l: Word): (e: Elem) {
    h + l
  }

  function Shl(w: Word, k: nat): (r: Word)
    requires k <= 64
    ensures forall i :: 0 <= i < 64 ==> r[i] == (i + k < 64 && w[i + k])
  {
    w[k..] + Zeros(k)
  }

  function Shr(w: Word, k: nat): (r: Word)
    requires k <= 64
    ensures forall i :: 0 <= i < 64 ==> r[i] == (i >= k && w[i - k])
  {
    Zeros(k) + w[..64 - k]
  }

  function Or(a: Word, b: Word): (r: Word)
    ensures forall i :: 0 <= i < 64 ==> r[i] == (a[i] || b[i])
  {
    seq(64, i requires 0 <= i < 64 => a[i] || b[i])
  }

  type Digit = v: nat | v < 16

  function Nibble(v: Digit): (b: Bits)
    ensures |b| == 4
  {
    [v >= 8, v % 8 >= 4, v % 4 >= 2, v % 2 == 1]
  }

  /** The number that a 4-bit string denotes. */
  function Index(b: Bits): (v: Digit)
    requires |b| == 4
    ensures Nibble(v) == b
  {
    (if b[0] then 8 else 0) + (if b[1] then 4 else 0) + (if b[2] then 2 else 0) + (if b[3] then 1 else 0)
  }

  /** A 16-bit constant, written by its four hexadecimal digits. */
  datatype Hex = Hex(d3: Digit, d2: Digit, d1: Digit, d0: Digit) {
    function Bits(): (b: Bits)
      ensures |b| == 16
    {
      Nibble(d3) + Nibble(d2) + Nibble(d1) + Nibble(d0)
    }
  }

  const LAST4: seq<Hex> := [
    Hex(0x0, 0x0, 0x0, 0x0), Hex(0x1, 0xc, 0x2, 0x0), Hex(0x3, 0x8, 0x4, 0x0), Hex(0x2, 0x4, 0x6, 0x0),
    Hex(0x7, 0x0, 0x8, 0x0), Hex(0x6, 0xc, 0xa, 0x0), Hex(0x4, 0x8, 0xc, 0x0), Hex(0x5, 0x4, 0xe, 0x0),
    Hex(0xe, 0x1, 0x0, 0x0), Hex(0xf, 0xd, 0x2, 0x0), Hex(0xd, 0x9, 0x4, 0x0), Hex(0xc, 0x5, 0x6, 0x0),
    Hex(0x9, 0x1, 0x8, 0x0), Hex(0x8, 0xd, 0xa, 0x0), Hex(0xa, 0x9, 0xc, 0x0), Hex(0xb, 0x5, 0xe, 0x0)]

  /** 0xe1 in the most significant byte. */
  function E1(): Word {
    seq(64, i => InR(i))
  }

  lemma {:induction false} DotXorBits(a: Bits, b: Bits, v: Elem)
    requires |a| == |b|
    ensures Dot(Xor(a, b), v) == Xor(Dot(a, v), Dot(b, v))
  {
    if a == [] {
      XorZero(Zeros(128));
    } else {
      assert Xor(a, b)[1..] == Xor(a[1..], b[1..]);
      DotXorBits(a[1..], b[1..], MulX(v));
      var p, q := Scale(a[0], v), Scale(b[0], v);
      assert Scale(Xor(a, b)[0], v) == Xor(p, q);
      XorSwap(p, q, Dot(a[1..], MulX(v)), Dot(b[1..], MulX(v)));
    }
  }

  /** v times x^n. */
  function Power(v: Elem, n: nat): Elem
    decreases n
  {
    if n == 0 then v else Power(MulX(v), n - 1)
  }

  lemma {:induction false} DotPower(bits: Bits, v: Elem, n: nat)
    ensures Dot(bits, Power(v, n)) == Power(Dot(bits, v), n)
    decreases n
  {
    if n == 0 {
    } else {
      DotPower(bits, MulX(v), n - 1);
      DotMulX(bits, v);
    }
  }

  lemma {:induction false} DotAppend(a: Bits, b: Bits, v: Elem)
    ensures Dot(a + b, v) == Xor(Dot(a, v), Dot(b, Power(v, |a|)))
    decreases |a|
  {
    if a == [] {
      assert a + b == b;
      XorZero(Dot(b, v));
    } else {
      assert (a + b)[1..] == a[1..] + b;
      DotAppend(a[1..], b, MulX(v));
      XorAssoc(Scale(a[0], v), Dot(a[1..], MulX(v)), Dot(b, Power(v, |a|)));
    }
  }

  /** Four coefficients in front: one Horner step over a nibble. */
  lemma DotNibble(n: Bits, rest: Bits, v: Elem)
    requires |n| == 4
    ensures Dot(n + rest, v) == Xor(Dot(n, v), Power(Dot(rest, v), 4))
  {
    DotAppend(n, rest, v);
    DotPower(rest, v, 4);
  }

  /** The step that both multipliers take to multiply a word pair by x. */
  function Step1(h: Word, l: Word): (Word, Word) {
    (Xor(Shr(h, 1), Carry(l)), Or(Shl(h, 63), Shr(l, 1)))
  }

  function Carry(l: Word): Word {
    if l[63] then E1() else Zeros(64)
  }

  lemma WordMulX(h: Word, l: Word)
    ensures Join(Step1(h, l).0, Step1(h, l).1) == MulX(Join(h, l))
  {
    var v := MulX(Join(h, l));
    var hi, lo := Step1(h, l).0, Step1(h, l).1;
    forall i | 0 <= i < 128
      ensures v[i] == Join(hi, lo)[i]
    {
    }
  }

  /** The step of gcm_mult that multiplies a word pair by x^4, reducing with the table last4. */
  function Step4(h: Word, l: Word): (Word, Word) {
    (Xor(Shr(h, 4), Shl(Zeros(48) + LAST4[Index(l[60..])].Bits(), 48)), Or(Shl(h, 60), Shr(l, 4)))
  }

  /** Coefficient i of the four highest terms of an element after they wrap around. */
  predicate Wrapped(n: Bits, i: int)
    requires |n| == 4
  {
    (n[0] && InR(i)) != ((n[1] && InR(i - 1)) != ((n[2] && InR(i - 2)) != (n[3] && InR(i - 3))))
  }

  lemma Power2At(v: Elem, i: nat)
    requires i < 128
    ensures Power(v, 2)[i] == ((i >= 2 && v[i - 2]) != ((v[127] && i > 0 && InR(i - 1)) != (v[126] && InR(i))))
  {
    assert Power(v, 2) == MulX(MulX(v));
  }

  lemma Power4At(v: Elem, i: nat)
    requires i < 128
    ensures Power(v, 4)[i] == ((i >= 4 && v[i - 4]) != Wrapped(v[124..], i))
  {
    var a := Power(v, 2);
    assert Power(v, 4) == Power(a, 2);
    assert a[127] == v[125] && a[126] == v[124] by {
      Power2At(v, 126);
      Power2At(v, 127);
    }
    assert i >= 2 ==> a[i - 2] == ((i >= 4 && v[i - 4]) != ((v[127] && InR(i - 3)) != (v[126] && InR(i - 2)))) by {
      if i >= 2 {
        Power2At(v, i - 2);
      }
    }
    Power2At(a, i);
  }

  /** Four neighbouring coefficients into which a nibble wraps around. */
  function WrappedBits(n: Bits, i: nat): (b: Bits)
    requires |n| == 4
    ensures |b| == 4
  {
    [Wrapped(n, i), Wrapped(n, i + 1), Wrapped(n, i + 2), Wrapped(n, i + 3)]
  }

  /** The table last4 holds the wrapped-around terms of every nibble. */
  lemma Last4Correct(k: nat, i: nat)
    requires k < 16 && i < 16
    ensures LAST4[k].Bits()[i] == Wrapped(Nibble(k), i)
  {
    Last4Digits(k);
    var n := Nibble(k);
    assert LAST4[k].Bits()
        == WrappedBits(n, 0) + WrappedBits(n, 4) + WrappedBits(n, 8) + WrappedBits(n, 12);
  }

  lemma Last4Digits(k: nat)
    requires k < 16
    ensures Nibble(LAST4[k].d3) == WrappedBits(Nibble(k), 0)
    ensures Nibble(LAST4[k].d2) == WrappedBits(Nibble(k), 4)
    ensures Nibble(LAST4[k].d1) == WrappedBits(Nibble(k), 8)
    ensures Nibble(LAST4[k].d0) == WrappedBits(Nibble(k), 12)
  {
    assert k == 0 || k == 1 || k == 2 || k == 3 || k == 4 || k == 5 || k == 6 || k == 7
        || k == 8 || k == 9 || k == 10 || k == 11 || k == 12 || k == 13 || k == 14 || k == 15;
  }

  /** Step4 multiplies by x^4. */
  lemma Step4Correct(h: Word, l: Word)
    ensures Join(Step4(h, l).0, Step4(h, l).1) == Power(Join(h, l), 4)
  {
    var v := Join(h, l);
    var w := Join(Step4(h, l).0, Step4(h, l).1);
    forall i | 0 <= i < 128
      ensures w[i] == Power(v, 4)[i]
    {
      Step4At(h, l, i);
    }
  }

  lemma Step4At(h: Word, l: Word, i: nat)
    requires i < 128
    ensures Join(Step4(h, l).0, Step4(h, l).1)[i] == Power(Join(h, l), 4)[i]
  {
    var v := Join(h, l);
    assert v[124..] == l[60..];
    Power4At(v, i);
    if i < 16 {
      Last4Correct(Index(l[60..]), i);
    }
  }

  lemma {:induction false} DotZeros(n: nat, v: Elem)
    ensures Dot(Zeros(n), v) == Zeros(128)
  {
    if n == 0 {
    } else {
      assert Zeros(n)[1..] == Zeros(n - 1);
      DotZeros(n - 1, MulX(v));
      XorZero(Zeros(128));
    }
  }

  /** A single coefficient at position n is x^n. */
  lemma {:induction false} DotUnit(n: nat, m: nat, v: Elem)
    ensures Dot(Zeros(n) + [true] + Zeros(m), v) == Power(v, n)
    decreases n
  {
    var bits := Zeros(n) + [true] + Zeros(m);
    if n == 0 {
      assert bits[1..] == Zeros(m);
      DotZeros(m, MulX(v));
      XorZero(v);
    } else {
      assert bits[1..] == Zeros(n - 1) + [true] + Zeros(m);
      DotUnit(n - 1, m, MulX(v));
      XorZero(Power(v, n));
    }
  }

  lemma NibbleSum(i: nat, j: nat, h: Elem)
    requires (i == 2 || i == 4 || i == 8) && j < i
    ensures Dot(Nibble(i + j), h) == Xor(Dot(Nibble(i), h), Dot(Nibble(j), h))
  {
    assert Nibble(i + j) == Xor(Nibble(i), Nibble(j));
    DotXorBits(Nibble(i), Nibble(j), h);
  }

  lemma JoinXor(a: Word, b: Word, c: Word, d: Word)
    ensures Join(Xor(a, b), Xor(c, d)) == Xor(Join(a, c), Join(b, d))
  {
  }

  /** What gen_tbl relies on to fill the table t, where t[k] is the nibble k times h. */
  ghost predicate TableLaws(t: seq<Elem>, h: Elem) {
    |t| == 16 && t[0] == Zeros(128) && t[8] == h
    && t[4] == MulX(t[8]) && t[2] == MulX(t[4]) && t[1] == MulX(t[2])
    && SumLaws(t)
  }

  ghost predicate SumLaws(t: seq<Elem>) {
    |t| == 16 && forall i, j :: (i == 2 || i == 4 || i == 8) && 0 < j < i ==> t[i + j] == Xor(t[i], t[j])
  }

  ghost function Multiples(h: Elem): (t: seq<Elem>)
    ensures |t| == 16
  {
    seq(16, k requires 0 <= k < 16 => Dot(Nibble(k), h))
  }

  lemma MultiplesLaws(h: Elem)
    ensures TableLaws(Multiples(h), h)
  {
    var t := Multiples(h);
    assert t[0] == Zeros(128) by {
      assert Nibble(0) == Zeros(4);
      DotZeros(4, h);
    }
    UnitNibble(8, 0, h);
    UnitNibble(4, 1, h);
    UnitNibble(2, 2, h);
    UnitNibble(1, 3, h);
    PowerStep(h, 1);
    PowerStep(h, 2);
    assert Power(h, 0) == h && Power(h, 1) == MulX(h);
    forall i, j | (i == 2 || i == 4 || i == 8) && 0 < j < i
      ensures t[i + j] == Xor(t[i], t[j])
    {
      NibbleSum(i, j, h);
    }
  }

  /** The nibble with one bit, n places below its top bit, is x^n. */
  lemma UnitNibble(i: nat, n: nat, h: Elem)
    requires n <= 3 && i == (if n == 0 then 8 else if n == 1 then 4 else if n == 2 then 2 else 1)
    ensures Dot(Nibble(i), h) == Power(h, n)
  {
    assert Nibble(i) == Zeros(n) + [true] + Zeros(3 - n);
    DotUnit(n, 3 - n, h);
  }

  /** The tables HH and HL of the GCM state. */
  class Table {
    const HH: array<Word>
    const HL: array<Word>

    ghost predicate Shape() {
      HH.Length == HL.Length == 16 && HH != HL
    }

    ghost predicate Holds(k: nat, e: Elem)
      requires Shape() && k < 16
      reads HH, HL
    {
      Join(HH[k], HL[k]) == e
    }

    ghost predicate Valid(h: Elem)
      reads HH, HL
    {
      Shape() && forall k :: 0 <= k < 16 ==> Holds(k, Multiples(h)[k])
    }

    /** internal_aes_gcm_ghash_gen_tbl, after the zero block has been encrypted to h. */
    constructor (h: Elem)
      ensures Valid(h) && fresh(HH) && fresh(HL)
    {
      HH := new Word[16](_ => Zeros(64));
      HL := new Word[16](_ => Zeros(64));
      new;
      MultiplesLaws(h);
      Powers(h, Multiples(h));
      Sums(Multiples(h));
    }

    /** The entries of single bits: h, h x, h x^2 and h x^3. */
    method Powers(h: Elem, ghost t: seq<Elem>)
      requires Shape() && TableLaws(t, h)
      modifies HH, HL
      ensures Holds(0, t[0]) && Holds(1, t[1]) && Holds(2, t[2]) && Holds(4, t[4]) && Holds(8, t[8])
    {
      var vh: Word, vl: Word := h[..64], h[64..];
      assert Join(vh, vl) == h;
      HL[8], HH[8] := vl, vh;
      HL[0], HH[0] := Zeros(64), Zeros(64);
      assert Join(Zeros(64), Zeros(64)) == Zeros(128);
      var i := 4;
      while i > 0
        invariant i == 4 || i == 2 || i == 1 || i == 0
        invariant Join(vh, vl) == t[if i == 0 then 1 else 2 * i]
        invariant Holds(0, t[0]) && Holds(8, t[8]) && (i < 4 ==> Holds(4, t[4]))
        invariant (i < 2 ==> Holds(2, t[2])) && (i < 1 ==> Holds(1, t[1]))
      {
        WordMulX(vh, vl);
        vh, vl := Step1(vh, vl).0, Step1(vh, vl).1;
        HL[i], HH[i] := vl, vh;
        i := i / 2;
      }
    }

    /** The other entries, as sums of two earlier ones. */
    method Sums(ghost t: seq<Elem>)
      requires Shape() && SumLaws(t)
      requires Holds(0, t[0]) && Holds(1, t[1]) && Holds(2, t[2]) && Holds(4, t[4]) && Holds(8, t[8])
      modifies HH, HL
      ensures forall k :: 0 <= k < 16 ==> Holds(k, t[k])
    {
      var i := 2;
      while i <= 8
        invariant i == 2 || i == 4 || i == 8 || i == 16
        invariant forall k :: 0 <= k < 16 && (k < i || k == 2 || k == 4 || k == 8) ==> Holds(k, t[k])
      {
        SumsFor(i, t);
        i := i * 2;
      }
    }

    /** The inner loop: the entries strictly between i and 2 * i. */
    method SumsFor(i: nat, ghost t: seq<Elem>)
      requires i == 2 || i == 4 || i == 8
      requires Shape() && SumLaws(t)
      requires forall k :: 0 <= k <= i ==> Holds(k, t[k])
      modifies HH, HL
      ensures forall k :: 0 <= k < 2 * i ==> Holds(k, t[k])
      ensures forall k :: 2 * i <= k < 16 ==> HH[k] == old(HH[k]) && HL[k] == old(HL[k])
    {
      var vh, vl := HH[i], HL[i];
      assert Holds(i, t[i]);
      var j := 1;
      while j < i
        invariant 1 <= j <= i
        invariant forall k :: 0 <= k < 16 && (k <= i || i + j <= k) ==> HH[k] == old(HH[k]) && HL[k] == old(HL[k])
        invariant forall k :: 0 <= k < i + j ==> Holds(k, t[k])
      {
        assert Holds(j, t[j]);
        JoinXor(vh, HH[j], vl, HL[j]);
        HH[i + j], HL[i + j] := Xor(vh, HH[j]), Xor(vl, HL[j]);
        j := j + 1;
      }
    }

    /** gcm_mult: x times h by Horner's rule over the 32 nibbles of x, last nibble first. */
    method Mult(x: Elem, ghost h: Elem) returns (output: Elem)
      requires Valid(h)
      ensures output == Product(x, h)
    {
      var lo := Index(x[124..]);
      var zh, zl := HH[lo], HL[lo];
      assert Holds(lo, Multiples(h)[lo]);
      zh, zl := Accumulate(zh, zl, x, 120, h);
      var i := 14;
      while i >= 0
        invariant -1 <= i <= 14
        invariant Join(zh, zl) == Dot(x[8 * (i + 1)..], h)
      {
        zh, zl := Accumulate(zh, zl, x, 8 * i + 4, h);
        zh, zl := Accumulate(zh, zl, x, 8 * i, h);
        i := i - 1;
      }
      output := Join(zh, zl);
      assert x[0..] == x;
    }

    /** One nibble of the loop of gcm_mult: the bits of x from position p on. */
    method Accumulate(zh: Word, zl: Word, x: Elem, p: nat, ghost h: Elem) returns (zh': Word, zl': Word)
      requires Valid(h) && p + 4 < 128
      requires Join(zh, zl) == Dot(x[p + 4..], h)
      ensures Join(zh', zl') == Dot(x[p..], h)
    {
      var nibble := Index(x[p..p + 4]);
      var (sh, sl) := Step4(zh, zl);
      zh', zl' := Xor(HH[nibble], sh), Xor(HL[nibble], sl);
      assert Holds(nibble, Multiples(h)[nibble]);
      HornerStep(x, p, h, Join(zh, zl), Join(HH[nibble], HL[nibble]));
      Step4Correct(zh, zl);
      JoinXor(HH[nibble], sh, HL[nibble], sl);
    }
  }

  lemma HornerStep(x: Elem, p: nat, h: Elem, z: Elem, row: Elem)
    requires p + 4 < 128 && z == Dot(x[p + 4..], h) && row == Dot(x[p..p + 4], h)
    ensures Xor(row, Power(z, 4)) == Dot(x[p..], h)
  {
    assert x[p..p + 4] + x[p + 4..] == x[p..];
    DotNibble(x[p..p + 4], x[p + 4..], h);
  }

  lemma {:induction false} PowerStep(v: Elem, n: nat)
    ensures Power(v, n + 1) == MulX(Power(v, n))
    decreases n
  {
    if n == 0 {
    } else {
      PowerStep(MulX(v), n - 1);
    }
  }

  /** gfmul: the bit-by-bit loop over the first operand. */
  method Gfmul(x: Elem, y: Elem) returns (product: Elem)
    ensures product == Product(x, y)
  {
    var y0: Word, y1: Word := y[..64], y[64..];
    assert Join(y0, y1) == y;
    var z: Elem := Zeros(128);
    XorZero(Dot(x, y));
    for n := 0 to 128
      invariant Xor(z, Dot(x[n..], Join(y0, y1))) == Product(x, y)
    {
      GfmulStep(z, x, n, Join(y0, y1));
      if x[n] {
        z := Xor(z, Join(y0, y1));
      }
      WordMulX(y0, y1);
      y0, y1 := Step1(y0, y1).0, Step1(y0, y1).1;
    }
    XorZero(z);
    product := z;
  }

  lemma GfmulStep(z: Elem, x: Elem, n: nat, y: Elem)
    requires n < 128
    ensures Xor(z, Dot(x[n..], y)) == Xor(if x[n] then Xor(z, y) else z, Dot(x[n + 1..], MulX(y)))
  {
    assert x[n..][1..] == x[n + 1..];
    XorAssoc(z, Scale(x[n], y), Dot(x[n + 1..], MulX(y)));
    XorZero(z);
  }

  /** The n low bits of v, highest first, and back. */
  function BitsOf(v: nat, n: nat): (r: Bits)
    ensures |r| == n
    decreases n, v
  {
    if n == 0 then [] else BitsOf(v / 2, n - 1) + [v % 2 == 1]
  }

  function NumberOf(r: Bits): (v: nat)
    ensures v < Bytes.Pow2(|r|)
  {
    if |r| == 0 then 0 else 2 * NumberOf(r[..|r| - 1]) + if r[|r| - 1] then 1 else 0
  }

  lemma {:induction false} BitsInverse(v: nat, n: nat)
    requires v < Bytes.Pow2(n)
    ensures NumberOf(BitsOf(v, n)) == v
    decreases n
  {
    if n == 0 {
    } else {
      BitsInverse(v / 2, n - 1);
      assert BitsOf(v, n)[..n - 1] == BitsOf(v / 2, n - 1);
    }
  }

  /** Exclusive or of numbers is exclusive or of their bits. */
  lemma {:induction false} BitsXor(a: nat, b: nat, n: nat)
    ensures BitsOf(Bytes.XorBits(a, b, n), n) == Xor(BitsOf(a, n), BitsOf(b, n))
    decreases n
  {
    if n == 0 {
    } else {
      var c := Bytes.XorBits(a, b, n);
      BitsXor(a / 2, b / 2, n - 1);
      assert c / 2 == Bytes.XorBits(a / 2, b / 2, n - 1) && (c % 2 == 1 <==> (a % 2 == 1) != (b % 2 == 1));
    }
  }

  function ByteBits(b: Bytes.Byte): (r: Bits)
    ensures |r| == 8
  {
    BitsOf(b, 8)
  }

  function BitsByte(r: Bits): Bytes.Byte
    requires |r| == 8
  {
    assert Bytes.Pow2(8) == 256;
    NumberOf(r)
  }

  lemma ByteBitsInverse(b: Bytes.Byte)
    ensures BitsByte(ByteBits(b)) == b
  {
    assert Bytes.Pow2(8) == 256;
    BitsInverse(b, 8);
  }

  /** The bit string of a block and back. */
  function ToElem(b: Bytes.Block): Elem {
    seq(128, i requires 0 <= i < 128 => ByteBits(b[i / 8])[i % 8])
  }

  function ToBlock(e: Elem): Bytes.Block {
    seq(16, i requires 0 <= i < 16 => BitsByte(e[8 * i..8 * i + 8]))
  }

  lemma ElemByte(b: Bytes.Block, i: nat)
    requires i < 16
    ensures ToElem(b)[8 * i..8 * i + 8] == ByteBits(b[i])
  {
    forall j | 0 <= j < 8
      ensures ToElem(b)[8 * i..8 * i + 8][j] == ByteBits(b[i])[j]
    {
      assert (8 * i + j) / 8 == i && (8 * i + j) % 8 == j;
    }
  }

  lemma ToBlockInverse(b: Bytes.Block)
    ensures ToBlock(ToElem(b)) == b
  {
    forall i | 0 <= i < 16
      ensures ToBlock(ToElem(b))[i] == b[i]
    {
      ElemByte(b, i);
      ByteBitsInverse(b[i]);
    }
  }

  /** Multiplication by the hash subkey, on blocks of bytes. */
  function MulBlock(h: Bytes.Block, y: Bytes.Block): Bytes.Block {
    ToBlock(Product(ToElem(h), ToElem(y)))
  }

  lemma ElemXor(a: Bytes.Block, b: Bytes.Block)
    ensures ToElem(Bytes.Xor(a, b)) == Xor(ToElem(a), ToElem(b))
  {
    forall i | 0 <= i < 128
      ensures ToElem(Bytes.Xor(a, b))[i] == Xor(ToElem(a), ToElem(b))[i]
    {
      BitsXor(a[i / 8], b[i / 8], 8);
    }
  }

  // ---------- the product on bytes ----------

  /** The product by x: the number of the block shifted to the right, reduced by 0xe1 in the first byte. */
  function Shifted(y: Bytes.Block): Bytes.Block {
    var half := BigEndian.ToBE(BigEndian.FromBE(y) / 2, 16);
    if BigEndian.FromBE(y) % 2 == 0 then half else Bytes.Xor(half, [0xe1] + Bytes.Zeros(15))
  }

  /** The block of one byte and zeros. */
  function Leading(b: Bytes.Byte): (r: Bytes.Block)
    ensures r == [b] + Bytes.Zeros(15)
  {
    [b] + Bytes.Zeros(15)
  }

  lemma NumberSnoc(r: Bits, b: bool)
    ensures NumberOf(r + [b]) == 2 * NumberOf(r) + if b then 1 else 0
  {
    assert (r + [b])[..|r|] == r;
  }

  lemma {:induction false} NumberShift(r: Bits)
    ensures NumberOf([false] + r) == NumberOf(r)
  {
    if r != [] {
      var n := |r| - 1;
      assert [false] + r == ([false] + r[..n]) + [r[n]] && r == r[..n] + [r[n]];
      NumberShift(r[..n]);
      NumberSnoc([false] + r[..n], r[n]);
      NumberSnoc(r[..n], r[n]);
    }
  }

  /** Bits appended to a string, for p = 2^n. */
  lemma {:induction false} NumberAppend(a: Bits, v: nat, n: nat, p: nat)
    requires p == Bytes.Pow2(n)
    ensures NumberOf(a + BitsOf(v, n)) == NumberOf(a) * p + v % p
    decreases n
  {
    if n == 0 {
      assert a + BitsOf(v, n) == a;
    } else {
      NumberAppend(a, v / 2, n - 1, p / 2);
      assert a + BitsOf(v, n) == (a + BitsOf(v / 2, n - 1)) + [v % 2 == 1];
      NumberSnoc(a + BitsOf(v / 2, n - 1), v % 2 == 1);
      HalfMod(NumberOf(a), v, p / 2);
    }
  }

  lemma HalfMod(k: nat, v: nat, p: nat)
    requires p > 0
    ensures 2 * (k * p + v / 2 % p) + v % 2 == k * (2 * p) + v % (2 * p)
  {
    var q, r := v / 2 / p, v / 2 % p;
    assert v / 2 == q * p + r;
    assert v == q * (2 * p) + (2 * r + v % 2);
    Arithmetic.DivUnique(v, 2 * p, q, 2 * r + v % 2);
  }

  lemma NumberByte(a: Bits, b: Bytes.Byte)
    ensures NumberOf(a + ByteBits(b)) == 256 * NumberOf(a) + b
  {
    Power8();
    NumberAppend(a, b, 8, 256);
    Remainder(b);
  }

  lemma Remainder(b: Bytes.Byte)
    ensures b % 256 == b
  {
  }

  lemma Power8()
    ensures Bytes.Pow2(8) == 256
  {
  }

  /** The first n bytes of a block and their bits denote the same number. */
  lemma {:induction false} PrefixNumber(b: Bytes.Block, n: nat)
    requires n <= 16
    ensures NumberOf(ToElem(b)[..8 * n]) == BigEndian.FromBE(b[..n])
  {
    if n > 0 {
      PrefixNumber(b, n - 1);
      PrefixStep(b, n - 1);
      NumberByte(ToElem(b)[..8 * (n - 1)], b[n - 1]);
      BigEndian.FromBESnoc(b[..n - 1], b[n - 1]);
    }
  }

  lemma PrefixStep(b: Bytes.Block, n: nat)
    requires n < 16
    ensures ToElem(b)[..8 * n + 8] == ToElem(b)[..8 * n] + ByteBits(b[n])
    ensures b[..n + 1] == b[..n] + [b[n]]
  {
    ElemByte(b, n);
  }

  lemma ElemNumber(b: Bytes.Block)
    ensures NumberOf(ToElem(b)) == BigEndian.FromBE(b)
  {
    PrefixNumber(b, 16);
    assert ToElem(b)[..128] == ToElem(b) && b[..16] == b;
  }

  lemma {:induction false} BitsNumber(r: Bits)
    ensures BitsOf(NumberOf(r), |r|) == r
  {
    if r != [] {
      BitsNumber(r[..|r| - 1]);
      assert r == r[..|r| - 1] + [r[|r| - 1]];
    }
  }

  lemma ToElemInverse(e: Elem)
    ensures ToElem(ToBlock(e)) == e
  {
    forall i | 0 <= i < 128
      ensures ToElem(ToBlock(e))[i] == e[i]
    {
      var r := e[8 * (i / 8)..8 * (i / 8) + 8];
      BitsNumber(r);
      assert Bytes.Pow2(8) == 256;
      assert r[i % 8] == e[i];
    }
  }

  lemma BlockXor(a: Elem, b: Elem)
    ensures ToBlock(Xor(a, b)) == Bytes.Xor(ToBlock(a), ToBlock(b))
  {
    ToElemInverse(a);
    ToElemInverse(b);
    ElemXor(ToBlock(a), ToBlock(b));
    ToBlockInverse(Bytes.Xor(ToBlock(a), ToBlock(b)));
  }

  lemma FourBits(v: nat, n: nat)
    ensures BitsOf(v, n + 4) == BitsOf(v / 16, n) + [v / 8 % 2 == 1, v / 4 % 2 == 1, v / 2 % 2 == 1, v % 2 == 1]
  {
    assert v / 2 / 2 == v / 4 && v / 4 / 2 == v / 8 && v / 8 / 2 == v / 16;
    assert BitsOf(v, n + 4) == BitsOf(v / 2, n + 3) + [v % 2 == 1];
    assert BitsOf(v / 2, n + 3) == BitsOf(v / 4, n + 2) + [v / 2 % 2 == 1];
    assert BitsOf(v / 4, n + 2) == BitsOf(v / 8, n + 1) + [v / 4 % 2 == 1];
    assert BitsOf(v / 8, n + 1) == BitsOf(v / 16, n) + [v / 8 % 2 == 1];
  }

  lemma DigitHalves(h: Digit, l: Digit, v: nat)
    requires v == 16 * h + l
    ensures v / 16 == h
    ensures [v / 8 % 2 == 1, v / 4 % 2 == 1, v / 2 % 2 == 1, v % 2 == 1] == Nibble(l)
  {
    assert v / 16 == h && (v % 2 == 1 <==> l % 2 == 1) by {
      Arithmetic.DivUnique(v, 16, h, l);
      Arithmetic.DivUnique(v, 2, 8 * h + l / 2, l % 2);
    }
    HalfDigit2(h, l);
    HalfDigit4(h, l);
    HalfDigit8(h, l);
  }

  lemma HalfDigit2(h: Digit, l: Digit)
    ensures (16 * h + l) / 2 % 2 == 1 <==> l % 4 >= 2
  {
    Arithmetic.DivUnique(16 * h + l, 2, 8 * h + l / 2, l % 2);
  }

  lemma HalfDigit4(h: Digit, l: Digit)
    ensures (16 * h + l) / 4 % 2 == 1 <==> l % 8 >= 4
  {
    Arithmetic.DivUnique(16 * h + l, 4, 4 * h + l / 4, l % 4);
  }

  lemma HalfDigit8(h: Digit, l: Digit)
    ensures (16 * h + l) / 8 % 2 == 1 <==> l % 16 >= 8
  {
    Arithmetic.DivUnique(16 * h + l, 8, 2 * h + l / 8, l % 8);
  }

  lemma AppendDigit(h: Digit, l: Digit, n: nat)
    ensures BitsOf(16 * h + l, n + 4) == BitsOf(h, n) + Nibble(l)
  {
    FourBits(16 * h + l, n);
    DigitHalves(h, l, 16 * h + l);
  }

  /** The bits of a byte given by its two hexadecimal digits. */
  lemma DigitBits(h: Digit, l: Digit, n: nat)
    requires n == 0
    ensures BitsOf(16 * h + l, n + 4 + 4) == Nibble(h) + Nibble(l)
  {
    AppendDigit(h, l, n + 4);
    AppendDigit(0, h, n);
    assert BitsOf(0, n) + Nibble(h) == Nibble(h);
  }

  lemma ByteDigits(h: Digit, l: Digit)
    ensures ByteBits(16 * h + l) == Nibble(h) + Nibble(l)
  {
    DigitBits(h, l, 0);
  }

  lemma NoBits()
    ensures ByteBits(0) == Zeros(8)
  {
    ByteDigits(0, 0);
  }

  /** The bits of a block of one byte and zeros. */
  lemma LeadingBits(h: Digit, l: Digit)
    ensures ToElem(Leading(16 * h + l)) == Nibble(h) + Nibble(l) + Zeros(120)
  {
    ByteDigits(h, l);
    NoBits();
    LeadingElem(16 * h + l);
  }

  lemma LeadingElem(b: Bytes.Byte)
    requires ByteBits(0) == Zeros(8)
    ensures ToElem(Leading(b)) == ByteBits(b) + Zeros(120)
  {
    forall i | 0 <= i < 128
      ensures ToElem(Leading(b))[i] == (ByteBits(b) + Zeros(120))[i]
    {
      if i >= 8 {
        assert Leading(b)[i / 8] == 0;
      }
    }
  }

  lemma UnitElems()
    ensures ToElem(Leading(0x80)) == Zeros(0) + [true] + Zeros(127)
    ensures ToElem(Leading(0x40)) == Zeros(1) + [true] + Zeros(126)
    ensures ToElem(Leading(0xe1)) == seq(128, i => InR(i))
  {
    LeadingBits(8, 0);
    LeadingBits(4, 0);
    LeadingBits(14, 1);
    UnitBits();
  }

  lemma UnitBits()
    ensures Nibble(8) + Nibble(0) + Zeros(120) == Zeros(0) + [true] + Zeros(127)
    ensures Nibble(4) + Nibble(0) + Zeros(120) == Zeros(1) + [true] + Zeros(126)
    ensures Nibble(14) + Nibble(1) + Zeros(120) == seq(128, i => InR(i))
  {
    assert Nibble(8) == [true, false, false, false] && Nibble(4) == [false, true, false, false];
    assert Nibble(14) == [true, true, true, false] && Nibble(1) == [false, false, false, true];
    assert Nibble(0) == [false, false, false, false];
  }

  /** Without its last bit a number is halved. */
  lemma HalfNumber(v: Elem)
    ensures NumberOf([false] + v[..127]) == NumberOf(v) / 2
    ensures v[127] <==> NumberOf(v) % 2 == 1
  {
    assert v == v[..127] + [v[127]];
    NumberSnoc(v[..127], v[127]);
    NumberShift(v[..127]);
  }

  lemma BlockNumber(half: Elem)
    ensures ToBlock(half) == BigEndian.ToBE(NumberOf(half), 16)
  {
    ToElemInverse(half);
    ElemNumber(ToBlock(half));
    BigEndian.ToFromBE(ToBlock(half));
  }

  lemma MulXBlock(y: Bytes.Block)
    ensures ToBlock(MulX(ToElem(y))) == Shifted(y)
  {
    var v := ToElem(y);
    var half: Elem := [false] + v[..127];
    HalfNumber(v);
    BlockNumber(half);
    ElemNumber(y);
    if v[127] {
      assert MulX(v) == Xor(half, seq(128, i => InR(i)));
      UnitElems();
      BlockXor(half, ToElem(Leading(0xe1)));
      ToBlockInverse(Leading(0xe1));
    } else {
      assert MulX(v) == half;
    }
  }

  /** 80 00 .. 00 is the unit, and multiplying by 40 00 .. 00 shifts. */
  lemma MulByUnits(y: Bytes.Block)
    ensures MulBlock([0x80] + Bytes.Zeros(15), y) == y
    ensures MulBlock([0x40] + Bytes.Zeros(15), y) == Shifted(y)
  {
    UnitElems();
    DotUnit(0, 127, ToElem(y));
    DotUnit(1, 126, ToElem(y));
    ToBlockInverse(y);
    MulXBlock(y);
    assert Power(ToElem(y), 1) == MulX(ToElem(y));
  }

  /** m multiplies by y: it is linear, sends 80 00 .. 00 to y, and multiplying by x can be done before or after. */
  ghost predicate Multiplies(m: Bytes.Block -> Bytes.Block, y: Bytes.Block) {
    m([0x80] + Bytes.Zeros(15)) == y
    && (forall a: Bytes.Block, b: Bytes.Block :: m(Bytes.Xor(a, b)) == Bytes.Xor(m(a), m(b)))
    && forall a: Bytes.Block :: m(Shifted(a)) == Shifted(m(a))
  }

  ghost predicate Agrees(m: Bytes.Block -> Bytes.Block, y: Bytes.Block) {
    forall a: Bytes.Block :: m(a) == MulBlock(a, y)
  }

  /** On bytes these three laws hold of the product and of nothing else. */
  lemma ProductDetermined(m: Bytes.Block -> Bytes.Block, y: Bytes.Block)
    ensures Multiplies(m, y) <==> forall a: Bytes.Block :: m(a) == MulBlock(a, y)
  {
    if Multiplies(m, y) {
      forall a: Bytes.Block
        ensures m(a) == MulBlock(a, y)
      {
        OnlyProduct(m, a, y);
      }
    }
    if Agrees(m, y) {
      ProductMultiplies(m, y);
    }
  }

  lemma OnlyProduct(m: Bytes.Block -> Bytes.Block, a: Bytes.Block, y: Bytes.Block)
    requires Multiplies(m, y)
    ensures m(a) == MulBlock(a, y)
  {
    HornerForm(m, ToElem(a), y);
    assert ToElem(a) + Zeros(0) == ToElem(a);
    ToBlockInverse(a);
  }

  lemma ProductMultiplies(m: Bytes.Block -> Bytes.Block, y: Bytes.Block)
    requires Agrees(m, y)
    ensures Multiplies(m, y)
  {
    MulByUnits(y);
    forall a: Bytes.Block, b: Bytes.Block {:trigger Bytes.Xor(a, b)}
      ensures m(Bytes.Xor(a, b)) == Bytes.Xor(m(a), m(b))
    {
      MulLaws(a, b, y);
    }
    forall a: Bytes.Block
      ensures m(Shifted(a)) == Shifted(m(a))
    {
      MulLaws(a, a, y);
    }
  }

  lemma {:induction false} HornerForm(m: Bytes.Block -> Bytes.Block, bits: Bits, y: Bytes.Block)
    requires Multiplies(m, y) && |bits| <= 128
    ensures m(ToBlock(bits + Zeros(128 - |bits|))) == ToBlock(Dot(bits, ToElem(y)))
    decreases |bits|
  {
    if bits == [] {
      ZeroKept(m, y);
      assert bits + Zeros(128) == Zeros(128);
    } else {
      var rest := bits[1..];
      HornerForm(m, rest, y);
      HornerElem(bits[0], rest, bits);
      HornerBlock(m, y, bits[0], rest + Zeros(128 - |rest|), Dot(rest, ToElem(y)));
      DotMulX(rest, ToElem(y));
    }
  }

  lemma HornerElem(b: bool, rest: Bits, bits: Bits)
    requires |rest| < 128 && bits == [b] + rest
    ensures bits + Zeros(128 - |bits|) == Xor(Scale(b, ONE), MulX(rest + Zeros(128 - |rest|)))
  {
  }

  lemma ZeroKept(m: Bytes.Block -> Bytes.Block, y: Bytes.Block)
    requires Multiplies(m, y)
    ensures m(ToBlock(Zeros(128))) == ToBlock(Zeros(128))
  {
    var z := ToBlock(Zeros(128));
    XorZero(Zeros(128));
    BlockXor(Zeros(128), Zeros(128));
    var e := ToElem(m(z));
    BlockXor(e, e);
    ToBlockInverse(m(z));
    assert Xor(e, e) == Zeros(128);
    assert m(Bytes.Xor(z, z)) == Bytes.Xor(m(z), m(z));
  }

  lemma HornerBlock(m: Bytes.Block -> Bytes.Block, y: Bytes.Block, b: bool, r: Elem, d: Elem)
    requires Multiplies(m, y) && m(ToBlock(r)) == ToBlock(d)
    ensures m(ToBlock(Xor(Scale(b, ONE), MulX(r)))) == ToBlock(Xor(Scale(b, ToElem(y)), MulX(d)))
  {
    BlockXor(Scale(b, ONE), MulX(r));
    BlockXor(Scale(b, ToElem(y)), MulX(d));
    assert m(ToBlock(MulX(r))) == ToBlock(MulX(d)) by {
      ToElemInverse(r);
      ToElemInverse(d);
      MulXBlock(ToBlock(r));
      MulXBlock(ToBlock(d));
    }
    assert m(ToBlock(Scale(b, ONE))) == ToBlock(Scale(b, ToElem(y))) by {
      ZeroKept(m, y);
      UnitOne();
      ToBlockInverse(y);
    }
  }

  lemma UnitOne()
    ensures ToBlock(ONE) == [0x80] + Bytes.Zeros(15)
  {
    UnitElems();
    assert ONE == Zeros(0) + [true] + Zeros(127);
    ToBlockInverse(Leading(0x80));
  }

  lemma MulLaws(a: Bytes.Block, b: Bytes.Block, y: Bytes.Block)
    ensures MulBlock(Bytes.Xor(a, b), y) == Bytes.Xor(MulBlock(a, y), MulBlock(b, y))
    ensures MulBlock(Shifted(a), y) == Shifted(MulBlock(a, y))
    ensures MulBlock(a, y) == MulBlock(y, a)
  {
    var p := Product(ToElem(a), ToElem(y));
    ElemXor(a, b);
    DotXorBits(ToElem(a), ToElem(b), ToElem(y));
    BlockXor(p, Product(ToElem(b), ToElem(y)));
    ProductCommutes(ToElem(a), ToElem(y));
    MulXBlock(a);
    MulXBlock(MulBlock(a, y));
    ToElemInverse(p);
    ToElemInverse(MulX(ToElem(a)));
    ProductCommutes(MulX(ToElem(a)), ToElem(y));
    DotMulX(ToElem(y), ToElem(a));
  }

  /** internal_aes_gcm_ghash_update_block of the table-based build, for the tables of subkey. */
  method UpdateBlockTable(t: Table, y: Bytes.Block, data: Bytes.Block, ghost subkey: Bytes.Block)
    returns (y': Bytes.Block)
    requires t.Valid(ToElem(subkey))
    ensures y' == MulBlock(subkey, Bytes.Xor(y, data))
  {
    var x := Xor(ToElem(y), ToElem(data));
    var z := t.Mult(x, ToElem(subkey));
    ElemXor(y, data);
    ProductCommutes(ToElem(subkey), x);
    y' := ToBlock(z);
  }

  /** internal_aes_gcm_ghash_update_block of the build without tables. */
  method UpdateBlockBitwise(subkey: Bytes.Block, y: Bytes.Block, data: Bytes.Block) returns (y': Bytes.Block)
    ensures y' == MulBlock(subkey, Bytes.Xor(y, data))
  {
    var z := Gfmul(ToElem(subkey), Xor(ToElem(y), ToElem(data)));
    ElemXor(y, data);
    y' := ToBlock(z);
  }

  /** Multiplication by the hash subkey of section 7.1, step 1. */
  function Times(subkey: Bytes.Block): Bytes.Block -> Bytes.Block {
    (y: Bytes.Block) => MulBlock(subkey, y)
  }

  /** The cipher of a key: both builds of internal_aes_gcm_ghash_update_block compute its Absorb. */
  function KeyCipher(E: Bytes.Block -> Bytes.Block): GcmSpec.Cipher {
    GcmSpec.Cipher(E, Times(E(GcmSpec.ZERO)), Counter.IncCtr)
  }

  /** The two builds update the hash state in the same way, as the specification of GHASH asks. */
  method UpdateBlock(E: Bytes.Block -> Bytes.Block, t: Table, y: Bytes.Block, data: Bytes.Block)
    returns (a: Bytes.Block, b: Bytes.Block)
    requires t.Valid(ToElem(E(GcmSpec.ZERO)))
    ensures a == b == GcmSpec.Absorb(KeyCipher(E), y, data)
    ensures E(Bytes.Zeros(16)) == [0x80] + Bytes.Zeros(15) ==> a == Bytes.Xor(y, data)
    ensures E(Bytes.Zeros(16)) == [0x40] + Bytes.Zeros(15) ==> a == Shifted(Bytes.Xor(y, data))
  {
    MulByUnits(Bytes.Xor(y, data));
    a := UpdateBlockTable(t, y, data, E(GcmSpec.ZERO));
    b := UpdateBlockBitwise(E(GcmSpec.ZERO), y, data);
  }
}
