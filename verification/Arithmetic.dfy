/** Division and divisibility. */
module Arithmetic {
  import opened Bytes

  lemma {:induction false} Pow2Add(a: nat, b: nat)
    ensures Pow2(a + b) == Pow2(a) * Pow2(b)
    decreases a, b
  {
    if a > 0 {
      Pow2Add(a - 1, b);
      assert Pow2(a + b) == 2 * Pow2(a - 1 + b) == 2 * (Pow2(a - 1) * Pow2(b)) == (2 * Pow2(a - 1)) * Pow2(b);
    }
  }

  lemma MulOrder(a: nat, b: nat, d: nat)
    requires a < b
    ensures a * d + d <= b * d
  {
    var c: nat := b - a - 1;
    assert b * d == (a + 1 + c) * d == a * d + d + c * d;
  }

  /** Quotient and remainder are determined by their defining equation. */
  lemma DivUnique(n: nat, d: nat, q: nat, r: nat)
    requires d > 0 && n == q * d + r && r < d
    ensures n / d == q && n % d == r
  {
    if q < n / d {
      MulOrder(q, n / d, d);
    } else if n / d < q {
      MulOrder(n / d, q, d);
    }
  }

  /** d divides n: the test n % d == 0 of the source. */
  predicate Divides(d: nat, n: nat)
    requires d > 0
    decreases n, d
  {
    if n < d then n == 0 else Divides(d, n - d)
  }

  lemma {:induction false} DividesMod(d: nat, n: nat)
    requires d > 0
    ensures Divides(d, n) <==> n % d == 0
    decreases n
  {
    if n >= d {
      DividesMod(d, n - d);
      ModLess(n, d);
    }
  }

  lemma ModLess(n: nat, d: nat)
    requires 0 < d <= n
    ensures n % d == (n - d) % d
  {
    var q, r := (n - d) / d, (n - d) % d;
    assert n - d == q * d + r;
    assert n == (q + 1) * d + r;
    DivUnique(n, d, q + 1, r);
  }

  lemma Multiple(k: nat, d: nat)
    requires d > 0
    ensures Divides(d, k * d) && (k * d) / d == k
  {
    DividesMod(d, k * d);
    DivUnique(k * d, d, k, 0);
  }

  lemma {:induction false} DividesSum(d: nat, a: nat, b: nat)
    requires d > 0 && Divides(d, a)
    ensures Divides(d, a + b) <==> Divides(d, b)
    ensures b > 0 && Divides(d, b) ==> b >= d
    decreases a
  {
    if a > 0 {
      DividesSum(d, a - d, b);
      assert a + b - d == (a - d) + b;
    }
  }

  lemma DividesLess(d: nat, a: nat, b: nat)
    requires d > 0 && Divides(d, a) && Divides(d, b) && b <= a
    ensures Divides(d, a - b)
  {
    DividesSum(d, b, a - b);
  }

  lemma DividesTrans(d: nat, e: nat, k: nat, n: nat)
    requires d > 0 && e == k * d && e > 0 && Divides(e, n)
    ensures Divides(d, n)
  {
    DividesMod(e, n);
    var q := n / e;
    assert n == q * e == (q * k) * d;
    Multiple(q * k, d);
  }
}
