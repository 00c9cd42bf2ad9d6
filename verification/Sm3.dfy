/**
 The SM3 hash and its HMAC, core/crypto/sm3.c, for any compression function: section 5 of GM/T
 0004-2012 and section 2 of RFC 2104.
*/
module Sm3 {
  import opened Bytes
  import opened Slices
  import opened BigEndian

  /** A 512-bit block, and the eight state words in big-endian order. */
  type Block64 = b: seq<Byte> | |b| == 64 witness Zeros(64)
  type Digest = d: seq<Byte> | |d| == 32 witness Zeros(32)

  /** The compression function sm3_process and the initial state of sm3_init. */
  datatype Hash = Hash(F: (Digest, Block64) -> Digest, iv: Digest)

  function Process(h: Hash, d: Digest, b: Block64): Digest {
    h.F(d, b)
  }

  /** Compression of the whole blocks of s. */
  function Fold(h: Hash, s: seq<Byte>): Digest {
    if |s| < 64 then h.iv else Process(h, Fold(h, s[..|s| - 64]), s[|s| - 64..])
  }

  function Whole(s: seq<Byte>): seq<Byte> {
    s[..|s| - |s| % 64]
  }

  function Rest(s: seq<Byte>): (r: seq<Byte>)
    ensures |r| == |s| % 64
  {
    s[|s| - |s| % 64..]
  }

  lemma FoldNext(h: Hash, s: seq<Byte>, b: Block64)
    ensures Fold(h, s + b) == Process(h, Fold(h, s), b)
  {
    assert (s + b)[..|s|] == s && (s + b)[|s|..] == b;
  }

  lemma AppendShort(s: seq<Byte>, t: seq<Byte>)
    requires |s| % 64 + |t| < 64
    ensures Whole(s + t) == Whole(s) && Rest(s + t) == Rest(s) + t
  {
    assert |s + t| % 64 == |s| % 64 + |t|;
  }

  lemma AppendFull(s: seq<Byte>, t: seq<Byte>)
    requires |s| % 64 + |t| == 64
    ensures |s + t| % 64 == 0 && s + t == Whole(s) + (Rest(s) + t)
  {
  }

  lemma WholeBlocks(s: seq<Byte>)
    requires |s| % 64 == 0
    ensures Whole(s) == s && Rest(s) == []
  {
  }

  // ---------- padding and length ----------

  /** Section 5.2: a one bit, zero bits up to 448 modulo 512, and the length in bits as 64-bit number. */
  function Padding(n: nat): seq<Byte> {
    [0x80] + Zeros((55 - n) % 64) + ToBE(8 * n, 8)
  }

  function Sum(h: Hash, msg: seq<Byte>): Digest {
    Fold(h, msg + Padding(|msg|))
  }

  // ---------- the hash and the HMAC on bytes ----------

  /** The digests d, from the initial state on, one for each whole block of s. */
  ghost predicate Chained(h: Hash, s: seq<Byte>, d: seq<Digest>) {
    && |s| % 64 == 0 && |d| == |s| / 64 + 1 && d[0] == h.iv
    && forall i {:trigger d[i]} :: 0 <= i < |s| / 64 ==> d[i + 1] == h.F(d[i], s[64 * i..64 * i + 64])
  }

  lemma {:induction false} FoldChain(h: Hash, s: seq<Byte>) returns (d: seq<Digest>)
    requires |s| % 64 == 0
    ensures Chained(h, s, d) && d[|s| / 64] == Fold(h, s)
    decreases |s|
  {
    if |s| < 64 {
      d := [h.iv];
    } else {
      var a, b := s[..|s| - 64], s[|s| - 64..];
      LastBlock(s, a, b);
      d := FoldChain(h, a);
      ChainMore(h, a, b, s, d, d + [Process(h, Fold(h, a), b)]);
      d := d + [Process(h, Fold(h, a), b)];
    }
  }

  lemma LastBlock(s: seq<Byte>, a: seq<Byte>, b: seq<Byte>)
    requires |s| % 64 == 0 && |s| >= 64 && a == s[..|s| - 64] && b == s[|s| - 64..]
    ensures s == a + b && |b| == 64 && |a| % 64 == 0 && |s| / 64 == |a| / 64 + 1
  {
  }

  lemma ChainMore(h: Hash, a: seq<Byte>, b: Block64, s: seq<Byte>, d0: seq<Digest>, d: seq<Digest>)
    requires Chained(h, a, d0) && s == a + b && |s| / 64 == |a| / 64 + 1
    requires d == d0 + [Process(h, d0[|a| / 64], b)]
    ensures Chained(h, s, d)
  {
    forall i {:trigger d[i]} | 0 <= i < |s| / 64
      ensures d[i + 1] == h.F(d[i], s[64 * i..64 * i + 64])
    {
      assert if i < |a| / 64 then s[64 * i..64 * i + 64] == a[64 * i..64 * i + 64] else s[64 * i..64 * i + 64] == b;
    }
  }

  /** d is the digest of msg: the last of the chain over the message, 0x80, the fewest zeros and the length in bits. */
  ghost predicate Hashed(h: Hash, msg: seq<Byte>, d: Digest) {
    exists z: nat, chain: seq<Digest> ::
      z < 64 && Chained(h, msg + [0x80] + Zeros(z) + ToBE(8 * |msg|, 8), chain) && chain[|chain| - 1] == d
  }

  lemma PaddedIs(msg: seq<Byte>, z: nat)
    requires z == (55 - |msg|) % 64
    ensures var p := msg + [0x80] + Zeros(z) + ToBE(8 * |msg|, 8); msg + Padding(|msg|) == p && |p| % 64 == 0
  {
    Associate(msg, [0x80], Zeros(z));
    Associate(msg, [0x80] + Zeros(z), ToBE(8 * |msg|, 8));
    PaddingPrefix(|msg|, 1 + z);
  }

  lemma SumHashed(h: Hash, msg: seq<Byte>)
    ensures Hashed(h, msg, Sum(h, msg))
  {
    var z: nat := (55 - |msg|) % 64;
    PaddedIs(msg, z);
    var chain := FoldChain(h, msg + Padding(|msg|));
    assert Chained(h, msg + [0x80] + Zeros(z) + ToBE(8 * |msg|, 8), chain);
  }

  /** k is the key filled up with zeros to 64 bytes, or the digest of a longer key. */
  ghost predicate KeyBytes(h: Hash, key: seq<Byte>, k: seq<Byte>) {
    exists short: seq<Byte> :: Shortened(h, key, short) && Filled(short, k)
  }

  ghost predicate Filled(short: seq<Byte>, k: seq<Byte>) {
    |k| == 64 && forall i :: 0 <= i < 64 ==> k[i] == if i < |short| then short[i] else 0
  }

  ghost predicate Shortened(h: Hash, key: seq<Byte>, short: seq<Byte>) {
    if |key| <= 64 then short == key else |short| == 32 && Hashed(h, key, short)
  }

  /** The two pads: every byte of k combined with 0x36, or with 0x5c. */
  ghost predicate Pads(k: seq<Byte>, ipad: seq<Byte>, opad: seq<Byte>) {
    |k| == |ipad| == |opad| &&
    forall i :: 0 <= i < |k| ==> ipad[i] == XorByte(k[i], 0x36) && opad[i] == XorByte(k[i], 0x5c)
  }

  /** Section 2 of RFC 2104 on bytes. */
  ghost predicate Authenticates(h: Hash, key: seq<Byte>, text: seq<Byte>, d: Digest) {
    exists k, ipad, opad, inner: Digest ::
      KeyBytes(h, key, k) && Pads(k, ipad, opad) && Hashed(h, ipad + text, inner) && Hashed(h, opad + inner, d)
  }

  lemma KeyBlockBytes(h: Hash, key: seq<Byte>)
    ensures KeyBytes(h, key, KeyBlock(h, key))
    ensures Pads(KeyBlock(h, key), Xor(KeyBlock(h, key), Repeated(0x36)), Xor(KeyBlock(h, key), Repeated(0x5c)))
  {
    SumHashed(h, key);
    var short := if |key| > 64 then Sum(h, key) else key;
    assert Shortened(h, key, short) && Filled(short, KeyBlock(h, key));
  }

  lemma HmacAuthenticates(h: Hash, key: seq<Byte>, text: seq<Byte>)
    ensures Authenticates(h, key, text, Hmac(h, key, text))
  {
    var k := KeyBlock(h, key);
    var ipad, opad := Xor(k, Repeated(0x36)), Xor(k, Repeated(0x5c));
    var inner := Sum(h, ipad + text);
    KeyBlockBytes(h, key);
    SumHashed(h, ipad + text);
    SumHashed(h, opad + inner);
  }

  const M32: nat := 0x1_0000_0000

  /** The length field that sm3_final computes from the two counters. */
  function LengthField(total0: nat, total1: nat): seq<Byte> {
    ToBE((total0 / 0x2000_0000 + total1 * 8) % M32, 4) + ToBE(total0 * 8 % M32, 4)
  }

  lemma LengthFieldExact(n: nat)
    requires n < 0x2000_0000_0000_0000
    ensures LengthField(n % M32, n / M32) == ToBE(8 * n, 8)
  {
    var hi, lo := (n % M32 / 0x2000_0000 + n / M32 * 8) % M32, n % M32 * 8 % M32;
    HighLow(n);
    var a, b := ToBE(hi, 4), ToBE(lo, 4);
    Pow256Values();
    FromToBE(hi, 4);
    FromToBE(lo, 4);
    FromBEConcat(a, b);
    FromToBE(8 * n, 8);
    ToFromBE(a + b);
  }

  lemma HighLow(n: nat)
    requires n < 0x2000_0000_0000_0000
    ensures (n % M32 / 0x2000_0000 + n / M32 * 8) % M32 * M32 + n % M32 * 8 % M32 == 8 * n
  {
    var q, r := n / M32, n % M32;
    assert n == q * M32 + r;
    var c, d := r / 0x2000_0000, r % 0x2000_0000;
    assert r == c * 0x2000_0000 + d;
    assert r * 8 == c * M32 + d * 8;
  }

  /** The 0x80 byte and the zeros, by the case split of sm3_final. */
  lemma PadLength(n: nat)
    ensures var last := n % 64; (if last < 56 then 56 - last else 120 - last) == 1 + (55 - n) % 64
  {
  }

  // ---------- the context ----------

  /** The hashing part of struct sm3_context. */
  datatype State = State(total0: nat, total1: nat, state: Digest, buffer: Block64)

  /** The state stands for msg, apart from the upper byte counter. */
  ghost predicate Holds(h: Hash, st: State, msg: seq<Byte>) {
    && st.total0 == |msg| % M32
    && st.state == Fold(h, Whole(msg)) && st.buffer[..|msg| % 64] == Rest(msg)
  }

  ghost predicate Counted(st: State, msg: seq<Byte>) {
    st.total1 == |msg| / M32 % M32
  }

  /** sm3_init. */
  function Init(h: Hash): State {
    State(0, 0, h.iv, Zeros(64))
  }

  lemma InitHolds(h: Hash)
    ensures Holds(h, Init(h), []) && Counted(Init(h), [])
  {
  }

  /** Completing the block in the buffer. */
  lemma Complete(h: Hash, st: State, msg: seq<Byte>, piece: seq<Byte>)
    requires Holds(h, st, msg) && |msg| % 64 + |piece| == 64
    ensures |msg + piece| % 64 == 0
    ensures Fold(h, msg + piece) == Process(h, st.state, Splice(st.buffer, |msg| % 64, piece))
  {
    AppendFull(msg, piece);
    SplicePrefix(st.buffer, |msg| % 64, piece);
    FullSlice(Splice(st.buffer, |msg| % 64, piece));
    FoldNext(h, Whole(msg), Rest(msg) + piece);
  }

  /** Leaving the rest in the buffer. */
  lemma Keep(h: Hash, st: State, msg: seq<Byte>, piece: seq<Byte>, buffer: Block64)
    requires st.state == Fold(h, Whole(msg)) && st.buffer[..|msg| % 64] == Rest(msg) && |msg| % 64 + |piece| < 64
    requires buffer == Splice(st.buffer, |msg| % 64, piece)
    ensures st.state == Fold(h, Whole(msg + piece)) && buffer[..|msg + piece| % 64] == Rest(msg + piece)
  {
    AppendShort(msg, piece);
    SplicePrefix(st.buffer, |msg| % 64, piece);
  }

  lemma CounterStep(n: nat, l: nat)
    requires l < M32 * M32
    ensures (n % M32 + l) % M32 == (n + l) % M32
    ensures n % M32 + l < 2 * M32 <==>
      (n / M32 % M32 + if (n + l) % M32 < l then 1 else 0) % M32 == (n + l) / M32 % M32
  {
    var q, r := n / M32, n % M32;
    var q', r' := (r + l) / M32, (r + l) % M32;
    assert n + l == (q + q') * M32 + r';
    assert (n + l) / M32 == q + q' && (n + l) % M32 == r';
    WrapSum(q, q', if r' < l then 1 else 0);
  }

  lemma WrapSum(q: nat, a: nat, b: nat)
    requires a <= M32 && b <= 1
    ensures (q % M32 + b) % M32 == (q + a) % M32 <==> a == b || a == b + M32
  {
  }

  /** struct sm3_context. */
  class Context {
    const h: Hash
    var st: State
    var ipad: Block64
    var opad: Block64
    ghost var msg: seq<Byte>

    ghost predicate Valid()
      reads this
    {
      Holds(h, st, msg)
    }

    constructor (h: Hash)
      ensures this.h == h
    {
      this.h := h;
    }

    method Start()
      modifies this`st, this`msg
      ensures Valid() && msg == [] && Counted(st, [])
    {
      st, msg := Init(h), [];
      InitHolds(h);
    }

    /** sm3_update; the upper counter stays right exactly if the lower one overflows at most once. */
    method Update(input: seq<Byte>)
      requires Valid() && |input| < M32 * M32
      modifies this`st, this`msg
      ensures Valid() && msg == old(msg) + input
      ensures old(Counted(st, msg)) ==> (Counted(st, msg) <==> old(st.total0) + |input| < 2 * M32)
    {
      if |input| == 0 {
        assert msg + input == msg;
        return;
      }
      var left := st.total0 % 64;
      LeftIs(|msg|);
      var d, buffer := Absorb(h, st, left, input, msg);
      var total0 := (st.total0 + |input|) % M32;
      var total1 := if total0 < |input| then (st.total1 + 1) % M32 else st.total1;
      CountUp(st, msg, input, State(total0, total1, d, buffer));
      st := State(total0, total1, d, buffer);
      msg := msg + input;
    }

    /** sm3_final. */
    method Final() returns (output: Digest)
      requires Valid() && Counted(st, msg) && |msg| < 0x2000_0000_0000_0000
      modifies this`st, this`msg
      ensures output == Sum(h, old(msg)) && Hashed(h, old(msg), output)
    {
      output := PadAndSum();
      SumHashed(h, old(msg));
    }

    method PadAndSum() returns (output: Digest)
      requires Valid() && Counted(st, msg) && |msg| < 0x2000_0000_0000_0000
      modifies this`st, this`msg
      ensures output == Sum(h, old(msg))
    {
      ghost var n := |msg|;
      LengthFieldExact(n);
      CounterRange(n);
      var msglen := LengthField(st.total0, st.total1);
      var last := st.total0 % 64;
      LeftIs(n);
      var padn := if last < 56 then 56 - last else 120 - last;
      PadLength(n);
      FinalMessage(msg, padn, msglen);
      Update(([0x80] + Zeros(63))[..padn]);
      Update(msglen);
      WholeBlocks(msg);
      output := st.state;
    }

    /** sm3_hmac_init. */
    method HmacInit(key: seq<Byte>)
      requires |key| < M32
      modifies this
      ensures ipad == Xor(KeyBlock(h, key), Repeated(0x36)) && opad == Xor(KeyBlock(h, key), Repeated(0x5c))
      ensures exists k :: KeyBytes(h, key, k) && Pads(k, ipad, opad)
      ensures Valid() && Counted(st, msg) && msg == ipad
    {
      KeyBlockBytes(h, key);
      var k := key;
      if |key| > 64 {
        var ctx := new Context(h);
        Single(key);
        k := ctx.Digest([key]);
      }
      ipad, opad := XorKey(h, key, k);
      Start();
      CounterSmall(64);
      Update(ipad);
      assert msg == [] + ipad == ipad;
    }

    /** sm3_hmac_final. */
    method HmacFinal() returns (output: Digest)
      requires Valid() && Counted(st, msg) && |msg| < 0x2000_0000_0000_0000
      modifies this`st, this`msg
      ensures output == Sum(h, opad + Sum(h, old(msg)))
    {
      var tmp := PadAndSum();
      Start();
      Update(opad);
      Update(tmp);
      assert msg == opad + tmp;
      CounterSmall(96);
      output := PadAndSum();
    }

    /** sm3_init, any number of sm3_update calls, and sm3_final: the digest does not depend on the split. */
    method Digest(pieces: seq<seq<Byte>>) returns (output: Digest)
      requires |Joined(pieces)| < 0x2000_0000_0000_0000 && forall i :: 0 <= i < |pieces| ==> |pieces[i]| < M32
      modifies this`st, this`msg
      ensures output == Sum(h, Joined(pieces)) && Hashed(h, Joined(pieces), output)
    {
      SumHashed(h, Joined(pieces));
      Start();
      Feed(pieces);
      assert [] + Joined(pieces) == Joined(pieces);
      output := Final();
    }

    /** Updates with all pieces. */
    method Feed(pieces: seq<seq<Byte>>)
      requires Valid() && Counted(st, msg) && forall i :: 0 <= i < |pieces| ==> |pieces[i]| < M32
      modifies this`st, this`msg
      ensures Valid() && Counted(st, msg) && msg == old(msg) + Joined(pieces)
    {
      assert msg + Joined(pieces[..0]) == msg;
      for i := 0 to |pieces|
        invariant Valid() && Counted(st, msg) && msg == old(msg) + Joined(pieces[..i])
      {
        Update(pieces[i]);
        JoinedNext(pieces, i);
        Associate(old(msg), Joined(pieces[..i]), pieces[i]);
      }
      assert pieces[..|pieces|] == pieces;
    }

    /** sm3_hmac, with the text in any pieces. */
    method HmacOf(key: seq<Byte>, pieces: seq<seq<Byte>>) returns (output: Digest)
      requires |key| < M32 && |Joined(pieces)| + 64 < 0x2000_0000_0000_0000
      requires forall i :: 0 <= i < |pieces| ==> |pieces[i]| < M32
      modifies this
      ensures output == Hmac(h, key, Joined(pieces)) && Authenticates(h, key, Joined(pieces), output)
    {
      output := HmacPieces(key, pieces);
      HmacAuthenticates(h, key, Joined(pieces));
    }

    method HmacPieces(key: seq<Byte>, pieces: seq<seq<Byte>>) returns (output: Digest)
      requires |key| < M32 && |Joined(pieces)| + 64 < 0x2000_0000_0000_0000
      requires forall i :: 0 <= i < |pieces| ==> |pieces[i]| < M32
      modifies this
      ensures output == Hmac(h, key, Joined(pieces))
    {
      HmacInit(key);
      Feed(pieces);
      output := HmacFinal();
    }
  }

  /** The two counters after an update. */
  lemma CountUp(st: State, msg: seq<Byte>, input: seq<Byte>, st': State)
    requires st.total0 == |msg| % M32 && 0 < |input| < M32 * M32
    requires st'.total0 == (st.total0 + |input|) % M32
    requires st'.total1 == if st'.total0 < |input| then (st.total1 + 1) % M32 else st.total1
    ensures st'.total0 == |msg + input| % M32
    ensures Counted(st, msg) ==> (Counted(st', msg + input) <==> st.total0 + |input| < 2 * M32)
  {
    CounterStep(|msg|, |input|);
  }

  /** The key of RFC 2104 as a whole block: hashed first if it is longer, then filled up with zeros. */
  function KeyBlock(h: Hash, key: seq<Byte>): Block64 {
    var k := if |key| > 64 then Sum(h, key) else key;
    k + Zeros(64 - |k|)
  }

  function Repeated(b: Byte): Block64 {
    seq(64, _ => b)
  }

  /** Section 2 of RFC 2104. */
  function Hmac(h: Hash, key: seq<Byte>, text: seq<Byte>): Digest {
    var k := KeyBlock(h, key);
    Sum(h, Xor(k, Repeated(0x5c)) + Sum(h, Xor(k, Repeated(0x36)) + text))
  }

  /** The bytes of the padding that sm3_final feeds before the length. */
  lemma PaddingPrefix(n: nat, padn: nat)
    requires padn == 1 + (55 - n) % 64
    ensures ([0x80] + Zeros(63))[..padn] == [0x80] + Zeros((55 - n) % 64)
    ensures (n + padn + 8) % 64 == 0
  {
  }

  lemma FinalMessage(msg: seq<Byte>, padn: nat, msglen: seq<Byte>)
    requires padn == 1 + (55 - |msg|) % 64 && msglen == ToBE(8 * |msg|, 8)
    ensures msg + ([0x80] + Zeros(63))[..padn] + msglen == msg + Padding(|msg|)
    ensures |msg + Padding(|msg|)| % 64 == 0
  {
    PaddingPrefix(|msg|, padn);
    Associate(msg, [0x80] + Zeros((55 - |msg|) % 64), msglen);
  }

  lemma LeftIs(n: nat)
    ensures n % M32 % 64 == n % 64
  {
  }

  /** The part of sm3_update that compresses blocks and fills the buffer. */
  method Absorb(h: Hash, st: State, left: nat, input: seq<Byte>, ghost msg: seq<Byte>)
    returns (d: Digest, buffer: Block64)
    requires Holds(h, st, msg) && left == |msg| % 64
    ensures d == Fold(h, Whole(msg + input)) && buffer[..|msg + input| % 64] == Rest(msg + input)
  {
    if left > 0 && |input| < 64 - left {
      Keep(h, st, msg, input, Splice(st.buffer, left, input));
      return st.state, Splice(st.buffer, left, input);
    }
    var pos;
    d, buffer, pos := Fill(h, st, left, input, msg);
    d, pos := Blocks(h, d, input, pos, msg);
    ghost var before := msg + input[..pos];
    WholeBlocks(before);
    SliceRest(msg, input, pos);
    Keep(h, State(0, 0, d, buffer), before, input[pos..], Splice(buffer, 0, input[pos..]));
    buffer := Splice(buffer, 0, input[pos..]);
  }

  /** Completing a block that is in the buffer. */
  method Fill(h: Hash, st: State, left: nat, input: seq<Byte>, ghost msg: seq<Byte>)
    returns (d: Digest, buffer: Block64, pos: nat)
    requires Holds(h, st, msg) && left == |msg| % 64 && (left > 0 ==> |input| >= 64 - left)
    ensures pos <= |input| && |msg + input[..pos]| % 64 == 0 && d == Fold(h, msg + input[..pos])
  {
    d, buffer, pos := st.state, st.buffer, 0;
    if left > 0 {
      pos := 64 - left;
      Complete(h, st, msg, input[..pos]);
      buffer := Splice(buffer, left, input[..pos]);
      d := Process(h, d, buffer);
    } else {
      NoSlice(msg, input);
      WholeBlocks(msg);
    }
  }

  lemma NextFold(h: Hash, msg: seq<Byte>, input: seq<Byte>, pos: nat)
    requires pos + 64 <= |input| && |msg + input[..pos]| % 64 == 0
    ensures |msg + input[..pos + 64]| % 64 == 0
    ensures Fold(h, msg + input[..pos + 64]) == Process(h, Fold(h, msg + input[..pos]), input[pos..pos + 64])
  {
    SliceConcat(msg, input, pos, pos + 64);
    FoldNext(h, msg + input[..pos], input[pos..pos + 64]);
  }

  /** The loop over whole blocks of the input. */
  method Blocks(h: Hash, d: Digest, input: seq<Byte>, pos: nat, ghost msg: seq<Byte>) returns (d': Digest, pos': nat)
    requires pos <= |input| && |msg + input[..pos]| % 64 == 0 && d == Fold(h, msg + input[..pos])
    ensures pos <= pos' <= |input| && |input| - pos' < 64
    ensures |msg + input[..pos']| % 64 == 0 && d' == Fold(h, msg + input[..pos'])
  {
    d', pos' := d, pos;
    while |input| - pos' >= 64
      invariant pos <= pos' <= |input|
      invariant |msg + input[..pos']| % 64 == 0 && d' == Fold(h, msg + input[..pos'])
    {
      NextFold(h, msg, input, pos');
      d' := Process(h, d', input[pos'..pos' + 64]);
      pos' := pos' + 64;
    }
  }

  lemma Single(p: seq<Byte>)
    ensures Joined([p]) == p
  {
    assert [p][..0] == [];
    assert [] + p == p;
  }

  lemma CounterRange(n: nat)
    requires n < 0x2000_0000_0000_0000
    ensures n / M32 % M32 == n / M32
  {
  }

  lemma CounterSmall(n: nat)
    requires n < M32
    ensures n / M32 == 0 && n % M32 == n
  {
  }

  /** The loop of sm3_hmac_init over the key, after a long key has been replaced by its digest. */
  method XorKey(h: Hash, ghost key: seq<Byte>, k: seq<Byte>) returns (ipad: Block64, opad: Block64)
    requires k == if |key| > 64 then Sum(h, key) else key
    ensures ipad == Xor(KeyBlock(h, key), Repeated(0x36)) && opad == Xor(KeyBlock(h, key), Repeated(0x5c))
  {
    ipad, opad := Repeated(0x36), Repeated(0x5c);
    for i := 0 to |k|
      invariant forall j :: 0 <= j < 64 ==> ipad[j] == if j < i then XorByte(0x36, k[j]) else 0x36
      invariant forall j :: 0 <= j < 64 ==> opad[j] == if j < i then XorByte(0x5c, k[j]) else 0x5c
    {
      ipad := ipad[i := XorByte(ipad[i], k[i])];
      opad := opad[i := XorByte(opad[i], k[i])];
    }
    PadWith(KeyBlock(h, key), k, 0x36, ipad);
    PadWith(KeyBlock(h, key), k, 0x5c, opad);
  }

  /** Bytes behind the key are combined with zeros. */
  lemma PadWith(kb: Block64, k: seq<Byte>, b: Byte, pad: Block64)
    requires |k| <= 64 && kb == k + Zeros(64 - |k|)
    requires forall j :: 0 <= j < 64 ==> pad[j] == if j < |k| then XorByte(b, k[j]) else b
    ensures pad == Xor(kb, Repeated(b))
  {
    XorZeroByte(b);
    forall j | 0 <= j < 64
      ensures pad[j] == Xor(kb, Repeated(b))[j]
    {
      XorByteLaws(kb[j], b);
    }
  }
}
