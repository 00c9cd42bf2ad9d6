/** Big-endian numbers in byte strings. */
module BigEndian {
  import opened Bytes

  // ---------- big-endian numbers ----------

  function FromBE(s: seq<Byte>): nat {
    if s == [] then 0 else 256 * FromBE(s[..|s| - 1]) + s[|s| - 1]
  }

  function ToBE(n: nat, k: nat): (s: seq<Byte>)
    ensures |s| == k
    decreases k, n
  {
    if k == 0 then [] else ToBE(n / 256, k - 1) + [n % 256]
  }

  function Pow256(k: nat): (p: nat)
    ensures p > 0
  {
    if k == 0 then 1 else 256 * Pow256(k - 1)
  }

  lemma {:induction false} FromBEBound(s: seq<Byte>)
    ensures FromBE(s) < Pow256(|s|)
  {
    if s == [] {
    } else {
      FromBEBound(s[..|s| - 1]);
    }
  }

  lemma {:induction false} ToFromBE(s: seq<Byte>)
    ensures ToBE(FromBE(s), |s|) == s
  {
    if s == [] {
    } else {
      var b := s[|s| - 1];
      ToFromBE(s[..|s| - 1]);
      assert FromBE(s) / 256 == FromBE(s[..|s| - 1]) && FromBE(s) % 256 == b;
      assert s == s[..|s| - 1] + [b];
    }
  }

  lemma {:induction false} FromToBE(n: nat, k: nat)
    requires n < Pow256(k)
    ensures FromBE(ToBE(n, k)) == n
    decreases k
  {
    if k == 0 {
    } else {
      FromToBE(n / 256, k - 1);
      FromBESnoc(ToBE(n / 256, k - 1), n % 256);
    }
  }

  lemma FromBESnoc(s: seq<Byte>, b: Byte)
    ensures FromBE(s + [b]) == 256 * FromBE(s) + b
  {
    assert (s + [b])[..|s|] == s;
  }

  lemma {:induction false} FromBEConcat(a: seq<Byte>, b: seq<Byte>)
    ensures FromBE(a + b) == FromBE(a) * Pow256(|b|) + FromBE(b)
  {
    if b == [] {
      assert a + b == a;
    } else {
      var b' := b[..|b| - 1];
      assert (a + b)[..|a + b| - 1] == a + b';
      FromBEConcat(a, b');
      assert 256 * (FromBE(a) * Pow256(|b'|)) == FromBE(a) * Pow256(|b|);
    }
  }

  lemma Pow256Values()
    ensures Pow256(4) == 0x1_0000_0000 && Pow256(8) == 0x1_0000_0000_0000_0000 &&
      Pow256(16) == 0x1_0000_0000_0000_0000_0000_0000_0000_0000
  {
  }
}
