/** Laws of slices and concatenation of byte strings, stated one by one to keep proofs over them small. */
module Slices {
  import opened Bytes

  lemma Associate(a: seq<Byte>, b: seq<Byte>, c: seq<Byte>)
    ensures a + b + c == a + (b + c)
  {
  }

  lemma NoPrefix(s: seq<Byte>)
    ensures [] + s == s
  {
  }

  lemma NoSuffix(s: seq<Byte>)
    ensures s + [] == s
  {
  }

  lemma NoSlice(s: seq<Byte>, data: seq<Byte>)
    ensures s + data[..0] == s
  {
  }

  lemma FullSlice(s: seq<Byte>)
    ensures s[..|s|] == s && s[0..|s|] == s && s[..0] == []
  {
  }

  lemma SubSlice(s: seq<Byte>, i: nat, n: nat)
    requires i + n <= |s|
    ensures s[i..][..n] == s[i..i + n]
  {
  }

  lemma DropDrop(s: seq<Byte>, i: nat, n: nat)
    requires i + n <= |s|
    ensures s[i..][n..] == s[i + n..]
  {
  }

  lemma SliceJoin(s: seq<Byte>, data: seq<Byte>, i: nat, j: nat, k: nat)
    requires i <= j <= k <= |data|
    ensures s + data[i..j] + data[j..k] == s + data[i..k]
  {
  }

  lemma SliceConcat(s: seq<Byte>, data: seq<Byte>, i: nat, j: nat)
    requires i <= j <= |data|
    ensures s + data[..i] + data[i..j] == s + data[..j]
  {
  }

  lemma SliceRest(s: seq<Byte>, data: seq<Byte>, i: nat)
    requires i <= |data|
    ensures s + data[..i] + data[i..] == s + data
  {
  }

  lemma Prefix(s: seq<Byte>, i: nat, j: nat)
    requires i <= j <= |s|
    ensures s[..i] + s[i..j] == s[..j]
  {
  }

  lemma SplitAt(s: seq<Byte>, k: nat)
    requires k <= |s|
    ensures s == s[..k] + s[k..]
  {
  }

  /** Slices of a concatenation that reach into, or lie in, its second part. */
  lemma HeadOf(a: seq<Byte>, b: seq<Byte>, n: nat)
    requires n <= |b|
    ensures (a + b)[..|a| + n] == a + b[..n]
  {
  }

  lemma ShiftedSlice(a: seq<Byte>, b: seq<Byte>, i: nat, j: nat)
    requires i <= j <= |b|
    ensures (a + b)[|a| + i..|a| + j] == b[i..j]
  {
  }

  lemma SplicePrefix(buf: seq<Byte>, pos: nat, data: seq<Byte>)
    requires pos + |data| <= |buf|
    ensures Splice(buf, pos, data)[..pos + |data|] == buf[..pos] + data
  {
  }

  /** The pieces of a message put together. */
  function Joined(ps: seq<seq<Byte>>): seq<Byte> {
    if |ps| == 0 then [] else Joined(ps[..|ps| - 1]) + ps[|ps| - 1]
  }

  lemma JoinedNext(ps: seq<seq<Byte>>, i: nat)
    requires i < |ps|
    ensures Joined(ps[..i + 1]) == Joined(ps[..i]) + ps[i]
  {
    assert ps[..i + 1][..i] == ps[..i];
  }
}
