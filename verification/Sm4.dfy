/**
 The SM4 block cipher and its CBC and CTR modes, core/crypto/sm4.c, for any nonlinear
 function: section 7 of GM/T 0002-2012.
*/
module Sm4 {
  import opened Bytes
  import opened Slices
  import opened BigEndian
  import Cbc = AesCts

  type Word = w: seq<Byte> | |w| == 4 witness Zeros(4)

  /** Four neighbouring elements of ulbuf. */
  datatype Quad = Quad(a: Word, b: Word, c: Word, d: Word)

  // ---------- the network ----------

  /** sm4F, for any function t in the place of sm4Lt. */
  function F(t: Word -> Word, x: Quad, rk: Word): Word {
    Xor(x.a, t(Xor(Xor(Xor(x.b, x.c), x.d), rk)))
  }

  function Round(t: Word -> Word, x: Quad, rk: Word): Quad {
    Quad(x.b, x.c, x.d, F(t, x, rk))
  }

  function Rounds(t: Word -> Word, x: Quad, keys: seq<Word>): Quad
    decreases keys
  {
    if keys == [] then x else Rounds(t, Round(t, x, keys[0]), keys[1..])
  }

  function Reversed(x: Quad): Quad {
    Quad(x.d, x.c, x.b, x.a)
  }

  function Backwards(keys: seq<Word>): (r: seq<Word>)
    ensures |r| == |keys| && forall i :: 0 <= i < |keys| ==> r[i] == keys[|keys| - 1 - i]
  {
    seq(|keys|, i requires 0 <= i < |keys| => keys[|keys| - 1 - i])
  }

  function Words(b: Block): Quad {
    Quad(b[..4], b[4..8], b[8..12], b[12..])
  }

  function Bytes4(x: Quad): Block {
    x.a + x.b + x.c + x.d
  }

  /** The block transformation: 32 rounds and the reversal of the last four words. */
  function Crypt(t: Word -> Word, keys: seq<Word>, b: Block): Block {
    Bytes4(Reversed(Rounds(t, Words(b), keys)))
  }

  /** The round key can be used to go back, since the three inner words enter symmetrically. */
  lemma RoundBack(t: Word -> Word, x: Quad, rk: Word)
    ensures Round(t, Reversed(Round(t, x, rk)), rk) == Reversed(x)
  {
    var y := Round(t, x, rk);
    var s := Xor(Xor(x.b, x.c), x.d);
    assert Xor(Xor(x.d, x.c), x.b) == s by {
      XorCancels(x.c, x.b);
      XorCancels(s, s);
      XorAssociates(x.b, x.c, x.d);
      XorCancels(x.d, x.c);
      XorCancels(Xor(x.d, x.c), x.b);
    }
    XorCancels(x.a, t(Xor(s, rk)));
  }

  lemma {:induction false} RoundsSnoc(t: Word -> Word, x: Quad, keys: seq<Word>, rk: Word)
    ensures Rounds(t, x, keys + [rk]) == Round(t, Rounds(t, x, keys), rk)
    decreases keys
  {
    if keys == [] {
      assert (keys + [rk])[1..] == [];
    } else {
      assert (keys + [rk])[1..] == keys[1..] + [rk];
      RoundsSnoc(t, Round(t, x, keys[0]), keys[1..], rk);
    }
  }

  /** The rounds under the reversed schedule undo the rounds, on reversed words. */
  lemma {:induction false} RoundsBack(t: Word -> Word, x: Quad, keys: seq<Word>)
    ensures Rounds(t, Reversed(Rounds(t, x, keys)), Backwards(keys)) == Reversed(x)
    decreases |keys|
  {
    if keys == [] {
      assert Backwards(keys) == [];
    } else {
      var y := Round(t, x, keys[0]);
      RoundsBack(t, y, keys[1..]);
      assert Backwards(keys) == Backwards(keys[1..]) + [keys[0]];
      RoundsSnoc(t, Reversed(Rounds(t, x, keys)), Backwards(keys[1..]), keys[0]);
      RoundBack(t, x, keys[0]);
    }
  }

  lemma WordsBytes(x: Quad)
    ensures Words(Bytes4(x)) == x
  {
    var b := Bytes4(x);
    assert b[..4] == x.a && b[4..8] == x.b && b[8..12] == x.c && b[12..] == x.d;
  }

  lemma BytesWords(b: Block)
    ensures Bytes4(Words(b)) == b
  {
  }

  /** Decryption with the reversed schedule inverts encryption, for any schedule and nonlinear function. */
  lemma CryptInverse(t: Word -> Word, keys: seq<Word>, b: Block)
    ensures Crypt(t, Backwards(keys), Crypt(t, keys, b)) == b
  {
    var x := Rounds(t, Words(b), keys);
    WordsBytes(Reversed(x));
    RoundsBack(t, Words(b), keys);
    BytesWords(b);
  }

  lemma {:induction false} RoundsConcat(t: Word -> Word, x: Quad, p: seq<Word>, q: seq<Word>)
    ensures Rounds(t, x, p + q) == Rounds(t, Rounds(t, x, p), q)
    decreases |p|
  {
    if p == [] {
      assert p + q == q;
    } else {
      assert (p + q)[1..] == p[1..] + q && (p + q)[0] == p[0];
      RoundsConcat(t, Round(t, x, p[0]), p[1..], q);
    }
  }

  lemma XorInjective(x: Word, a: Word, b: Word)
    requires Xor(x, a) == Xor(x, b)
    ensures a == b
  {
    XorCancels(a, x);
    XorCancels(b, x);
  }

  ghost predicate Injective(t: Word -> Word) {
    forall a: Word, b: Word :: t(a) == t(b) ==> a == b
  }

  /** Every round key counts: schedules that differ in one key encrypt every block differently. */
  lemma KeyMatters(t: Word -> Word, before: seq<Word>, k: Word, l: Word, after: seq<Word>, b: Block)
    requires Injective(t) && k != l
    ensures Crypt(t, before + [k] + after, b) != Crypt(t, before + [l] + after, b)
  {
    var x := Rounds(t, Words(b), before);
    var y, z := Round(t, x, k), Round(t, x, l);
    RoundsSnoc(t, Words(b), before, k);
    RoundsSnoc(t, Words(b), before, l);
    RoundsConcat(t, Words(b), before + [k], after);
    RoundsConcat(t, Words(b), before + [l], after);
    RoundsBack(t, y, after);
    RoundsBack(t, z, after);
    WordsBytes(Reversed(Rounds(t, y, after)));
    WordsBytes(Reversed(Rounds(t, z, after)));
    if y == z {
      var s := Xor(Xor(x.b, x.c), x.d);
      XorInjective(x.a, t(Xor(s, k)), t(Xor(s, l)));
      XorInjective(s, k, l);
    }
  }

  // ---------- the network on bytes ----------

  /** Four words exclusive-ored byte by byte. */
  function Mixed(b: Word, c: Word, d: Word, rk: Word): Word {
    seq(4, j requires 0 <= j < 4 => XorByte(XorByte(XorByte(b[j], c[j]), d[j]), rk[j]))
  }

  /** Word i + 4 of the network: word i exclusive-ored with t of the three words between and round key i. */
  ghost predicate NextWord(t: Word -> Word, keys: seq<Word>, u: seq<Word>, i: nat)
    requires i < |keys| && i + 4 < |u|
  {
    forall j :: 0 <= j < 4 ==> u[i + 4][j] == XorByte(u[i][j], t(Mixed(u[i + 1], u[i + 2], u[i + 3], keys[i]))[j])
  }

  /** The 36 words that lead from input to output. */
  ghost predicate Network(t: Word -> Word, keys: seq<Word>, input: Block, u: seq<Word>, output: Block) {
    |keys| == 32 && |u| == 36
    && (forall i :: 0 <= i < 32 ==> NextWord(t, keys, u, i))
    && (forall j :: 0 <= j < 16 ==> input[j] == u[j / 4][j % 4])
    && forall j :: 0 <= j < 16 ==> output[j] == u[35 - j / 4][j % 4]
  }

  lemma FOnBytes(t: Word -> Word, x: Quad, rk: Word)
    ensures Mixed(x.b, x.c, x.d, rk) == Xor(Xor(Xor(x.b, x.c), x.d), rk)
  {
  }

  /** sm4_one_round: the words are computed into a buffer of 36. */
  method OneRound(t: Word -> Word, keys: seq<Word>, input: Block) returns (output: Block)
    requires |keys| == 32
    ensures exists u :: Network(t, keys, input, u, output)
    ensures output == Crypt(t, keys, input)
  {
    var x := Words(input);
    var ulbuf := [x.a, x.b, x.c, x.d];
    assert keys[0..] == keys;
    BytesWords(input);
    for i := 0 to 32
      invariant |ulbuf| == i + 4 && ulbuf[0] == x.a && ulbuf[1] == x.b && ulbuf[2] == x.c && ulbuf[3] == x.d
      invariant forall k :: 0 <= k < i ==> NextWord(t, keys, ulbuf, k)
      invariant Rounds(t, Quad(ulbuf[i], ulbuf[i + 1], ulbuf[i + 2], ulbuf[i + 3]), keys[i..]) == Rounds(t, x, keys)
    {
      var q := Quad(ulbuf[i], ulbuf[i + 1], ulbuf[i + 2], ulbuf[i + 3]);
      assert keys[i..][1..] == keys[i + 1..] && keys[i..][0] == keys[i];
      FOnBytes(t, q, keys[i]);
      NetworkMore(t, keys, ulbuf, i, F(t, q, keys[i]));
      ulbuf := ulbuf + [F(t, q, keys[i])];
    }
    output := Bytes4(Quad(ulbuf[35], ulbuf[34], ulbuf[33], ulbuf[32]));
    WordPlaces(Quad(ulbuf[0], ulbuf[1], ulbuf[2], ulbuf[3]), input, ulbuf);
    WordPlaces(Quad(ulbuf[35], ulbuf[34], ulbuf[33], ulbuf[32]), output,
               [ulbuf[35], ulbuf[34], ulbuf[33], ulbuf[32]]);
    NetworkDone(t, keys, input, ulbuf, output);
  }

  lemma WordPlaces(x: Quad, b: Block, u: seq<Word>)
    requires |u| >= 4 && x == Quad(u[0], u[1], u[2], u[3]) && b == Bytes4(x)
    ensures forall j :: 0 <= j < 16 ==> b[j] == u[j / 4][j % 4]
  {
  }

  lemma NetworkDone(t: Word -> Word, keys: seq<Word>, input: Block, u: seq<Word>, output: Block)
    requires |keys| == 32 && |u| == 36 && forall i :: 0 <= i < 32 ==> NextWord(t, keys, u, i)
    requires forall j :: 0 <= j < 16 ==> input[j] == u[j / 4][j % 4]
    requires var v := [u[35], u[34], u[33], u[32]]; forall j :: 0 <= j < 16 ==> output[j] == v[j / 4][j % 4]
    ensures Network(t, keys, input, u, output)
  {
    var v := [u[35], u[34], u[33], u[32]];
    forall j | 0 <= j < 16
      ensures output[j] == u[35 - j / 4][j % 4]
    {
      assert v[j / 4] == u[35 - j / 4];
    }
  }

  lemma NetworkMore(t: Word -> Word, keys: seq<Word>, u: seq<Word>, i: nat, w: Word)
    requires |u| == i + 4 && i < |keys| && forall k :: 0 <= k < i ==> NextWord(t, keys, u, k)
    requires w == Xor(u[i], t(Mixed(u[i + 1], u[i + 2], u[i + 3], keys[i])))
    ensures forall k :: 0 <= k < i + 1 ==> NextWord(t, keys, u + [w], k)
  {
    forall k | 0 <= k < i + 1
      ensures NextWord(t, keys, u + [w], k)
    {
      if k < i {
        assert NextWord(t, keys, u, k);
      }
    }
  }

  /** The loop of sm4_setkey_dec that swaps the schedule in place. */
  method ReverseSchedule(sk: array<Word>)
    requires sk.Length == 32
    modifies sk
    ensures sk[..] == Backwards(old(sk[..]))
  {
    for i := 0 to 16
      invariant forall j :: 0 <= j < i ==> sk[j] == old(sk[31 - j]) && sk[31 - j] == old(sk[j])
      invariant forall j :: i <= j < 32 - i ==> sk[j] == old(sk[j])
    {
      sk[i], sk[31 - i] := sk[31 - i], sk[i];
    }
  }

  // ---------- CBC ----------

  function Net(t: Word -> Word, keys: seq<Word>): Block -> Block {
    (b: Block) => Crypt(t, keys, b)
  }

  /** Encryption under a schedule, decryption under the reversed one. */
  function Pair(t: Word -> Word, keys: seq<Word>): Cbc.Cipher {
    Cbc.Cipher(Net(t, keys), Net(t, Backwards(keys)))
  }

  lemma PairInverse(t: Word -> Word, keys: seq<Word>)
    ensures Cbc.Inverse(Pair(t, keys))
  {
    forall b: Block
      ensures Cbc.Decrypt(Pair(t, keys), Cbc.Encrypt(Pair(t, keys), b)) == b
    {
      CryptInverse(t, keys, b);
    }
  }

  /** c encrypts, or decrypts, as sm4_one_round does under the schedule. */
  ghost predicate Encrypts(t: Word -> Word, keys: seq<Word>, c: Cbc.Cipher) {
    forall b: Block {:trigger Crypt(t, keys, b)} :: Cbc.Encrypt(c, b) == Crypt(t, keys, b)
  }

  ghost predicate Decrypts(t: Word -> Word, keys: seq<Word>, c: Cbc.Cipher) {
    forall b: Block {:trigger Crypt(t, keys, b)} :: Cbc.Decrypt(c, b) == Crypt(t, keys, b)
  }

  lemma PairWorks(t: Word -> Word, keys: seq<Word>)
    ensures Encrypts(t, keys, Pair(t, keys)) && Decrypts(t, Backwards(keys), Pair(t, keys))
  {
  }

  method EncryptBlock(t: Word -> Word, keys: seq<Word>, b: Block, ghost c: Cbc.Cipher) returns (y: Block)
    requires |keys| == 32 && Encrypts(t, keys, c)
    ensures y == Cbc.Encrypt(c, b)
  {
    y := OneRound(t, keys, b);
  }

  method DecryptBlock(t: Word -> Word, keys: seq<Word>, b: Block, ghost c: Cbc.Cipher) returns (y: Block)
    requires |keys| == 32 && Decrypts(t, keys, c)
    ensures y == Cbc.Decrypt(c, b)
  {
    y := OneRound(t, keys, b);
  }

  /** Input and output are one buffer or do not overlap. */
  predicate Separate(inp: nat, outp: nat, len: nat) {
    inp == outp || inp + len <= outp || outp + len <= inp
  }

  /** mem with the output written so far. */
  predicate Written(mem: seq<Byte>, before: seq<Byte>, outp: nat, out: seq<Byte>) {
    outp + |out| <= |before| && mem == Splice(before, outp, out)
  }

  lemma WriteMore(mem: seq<Byte>, before: seq<Byte>, outp: nat, out: seq<Byte>, b: seq<Byte>)
    requires Written(mem, before, outp, out) && outp + |out| + |b| <= |before|
    ensures |mem| == |before| && Written(Splice(mem, outp + |out|, b), before, outp, out + b)
  {
  }

  /** The next input block has not been overwritten. */
  lemma StillThere(mem: seq<Byte>, before: seq<Byte>, inp: nat, outp: nat, len: nat, out: seq<Byte>)
    requires Written(mem, before, outp, out) && Separate(inp, outp, len) && |out| + 16 <= len && inp + len <= |before|
    ensures |mem| == |before| && mem[inp + |out|..inp + |out| + 16] == before[inp + |out|..inp + |out| + 16]
  {
  }

  method WriteBlock(mem: array<Byte>, at: nat, b: Block)
    requires at + 16 <= mem.Length
    modifies mem
    ensures mem[..] == Splice(old(mem[..]), at, b)
  {
    for i := 0 to 16
      invariant forall j :: 0 <= j < mem.Length ==> mem[j] == if at <= j < at + i then b[j - at] else old(mem[j])
    {
      mem[at + i] := b[i];
    }
    assert forall j :: 0 <= j < mem.Length ==> mem[..][j] == Splice(old(mem[..]), at, b)[j];
  }

  /** Reading the next input block, where pos bytes of output have been written. */
  method Get(mem: array<Byte>, inp: nat, pos: nat, ghost before: seq<Byte>, ghost outp: nat, ghost len: nat,
             ghost out: seq<Byte>)
    returns (b: Block)
    requires Written(mem[..], before, outp, out) && Separate(inp, outp, len) && |out| == pos && pos + 16 <= len &&
      inp + len <= |before|
    ensures b == before[inp..inp + len][pos..pos + 16]
  {
    StillThere(mem[..], before, inp, outp, len, out);
    b := mem[inp + pos..inp + pos + 16];
    SliceOfSlice(before, inp, len, pos);
  }

  lemma SliceOfSlice(s: seq<Byte>, inp: nat, len: nat, pos: nat)
    requires pos + 16 <= len && inp + len <= |s|
    ensures s[inp..inp + len][pos..pos + 16] == s[inp + pos..inp + pos + 16]
  {
    var t := s[inp..inp + len];
    var x, y := t[pos..pos + 16], s[inp + pos..inp + pos + 16];
    forall k | 0 <= k < 16
      ensures x[k] == y[k]
    {
      assert t[pos + k] == s[inp + pos + k];
    }
  }

  /** Writing the next output block. */
  method Put(mem: array<Byte>, outp: nat, pos: nat, y: Block, ghost before: seq<Byte>, ghost out: seq<Byte>)
    requires Written(mem[..], before, outp, out) && |out| == pos && outp + pos + 16 <= |before|
    modifies mem
    ensures Written(mem[..], before, outp, out + y)
  {
    WriteMore(mem[..], before, outp, out, y);
    WriteBlock(mem, outp + pos, y);
  }

  /** One block of CBC after a whole number of blocks. */
  lemma CbcStep(c: Cbc.Cipher, iv: Block, a: seq<Byte>, b: Block)
    requires |a| % 16 == 0
    ensures var x := Cbc.Chain(iv, Cbc.CbcEnc(c, iv, a));
      Cbc.CbcEnc(c, iv, a + b) == Cbc.CbcEnc(c, iv, a) + Cbc.Encrypt(c, Xor(b, x)) &&
        Cbc.Chain(iv, Cbc.CbcEnc(c, iv, a + b)) == Cbc.Encrypt(c, Xor(b, x))
    ensures Cbc.CbcDec(c, iv, a + b) == Cbc.CbcDec(c, iv, a) + Xor(Cbc.Decrypt(c, b), Cbc.Chain(iv, a)) &&
      Cbc.Chain(iv, a + b) == b
  {
    var x := Cbc.Chain(iv, Cbc.CbcEnc(c, iv, a));
    Cbc.CbcEncConcat(c, iv, a, b);
    Cbc.OneBlock(c, x, b);
    Cbc.CbcDecConcat(c, iv, a, b);
    Cbc.OneBlock(c, Cbc.Chain(iv, a), b);
    LastBlock(iv, Cbc.CbcEnc(c, iv, a), Cbc.Encrypt(c, Xor(b, x)));
    LastBlock(iv, a, b);
  }

  lemma LastBlock(iv: Block, a: seq<Byte>, b: Block)
    ensures Cbc.Chain(iv, a + b) == b
  {
  }

  /** sm4_crypt_cbc with the schedule of an encryption context. */
  method CbcEncrypt(t: Word -> Word, keys: seq<Word>, mem: array<Byte>, inp: nat, outp: nat, len: nat, iv: Block,
                    ghost c: Cbc.Cipher)
    returns (iv': Block)
    requires |keys| == 32 && len % 16 == 0 && inp + len <= mem.Length && outp + len <= mem.Length &&
      Separate(inp, outp, len)
    requires Encrypts(t, keys, c)
    modifies mem
    ensures var out := Cbc.CbcEnc(c, iv, old(mem[inp..inp + len]));
      mem[..] == Splice(old(mem[..]), outp, out) && iv' == Cbc.Chain(iv, out)
  {
    ghost var before, input := mem[..], mem[inp..inp + len];
    ghost var out: seq<Byte> := [];
    iv' := iv;
    var pos := 0;
    Nothing(before, outp);
    FullSlice(input);
    while pos < len
      invariant pos <= len && pos % 16 == 0 && |out| == pos && out == Cbc.CbcEnc(c, iv, input[..pos])
      invariant Written(mem[..], before, outp, out) && iv' == Cbc.Chain(iv, out)
    {
      iv', out := EncryptNext(t, keys, mem, inp, outp, len, pos, iv, iv', c, before, input, out);
      pos := pos + 16;
    }
  }

  method EncryptNext(t: Word -> Word, keys: seq<Word>, mem: array<Byte>, inp: nat, outp: nat, ghost len: nat,
                     pos: nat, ghost iv: Block, chain: Block, ghost c: Cbc.Cipher,
                     ghost before: seq<Byte>, ghost input: seq<Byte>, ghost out: seq<Byte>)
    returns (y: Block, ghost out': seq<Byte>)
    requires |keys| == 32 && Encrypts(t, keys, c) && Separate(inp, outp, len) && pos + 16 <= len && pos % 16 == 0
    requires inp + len <= |before| && outp + len <= |before| && input == before[inp..inp + len]
    requires Written(mem[..], before, outp, out) && |out| == pos && out == Cbc.CbcEnc(c, iv, input[..pos]) &&
      chain == Cbc.Chain(iv, out)
    modifies mem
    ensures Written(mem[..], before, outp, out') && |out'| == pos + 16 &&
      out' == Cbc.CbcEnc(c, iv, input[..pos + 16]) && y == Cbc.Chain(iv, out')
  {
    var b := Get(mem, inp, pos, before, outp, len, out);
    Prefix(input, pos, pos + 16);
    CbcStep(c, iv, input[..pos], b);
    y := EncryptBlock(t, keys, Xor(b, chain), c);
    Put(mem, outp, pos, y, before, out);
    out' := out + y;
  }

  lemma Nothing(before: seq<Byte>, outp: nat)
    requires outp <= |before|
    ensures Splice(before, outp, []) == before
  {
  }

  /** sm4_crypt_cbc with the reversed schedule of a decryption context. */
  method CbcDecrypt(t: Word -> Word, keys: seq<Word>, mem: array<Byte>, inp: nat, outp: nat, len: nat, iv: Block,
                    ghost c: Cbc.Cipher)
    returns (iv': Block)
    requires |keys| == 32 && len % 16 == 0 && inp + len <= mem.Length && outp + len <= mem.Length &&
      Separate(inp, outp, len)
    requires Decrypts(t, keys, c)
    modifies mem
    ensures var input := old(mem[inp..inp + len]);
      mem[..] == Splice(old(mem[..]), outp, Cbc.CbcDec(c, iv, input)) && iv' == Cbc.Chain(iv, input)
  {
    ghost var before, input := mem[..], mem[inp..inp + len];
    ghost var out: seq<Byte> := [];
    iv' := iv;
    var pos := 0;
    Nothing(before, outp);
    NoneDecrypted(c, iv, input);
    while pos < len
      invariant pos <= len && pos % 16 == 0 && |input| == len && Decrypted(c, iv, input, pos, out, iv')
      invariant Written(mem[..], before, outp, out)
    {
      iv', out := DecryptNext(t, keys, mem, inp, outp, len, pos, iv, iv', c, before, input, out);
      pos := pos + 16;
    }
    AllDecrypted(c, iv, input, out, iv');
  }

  /** out is the decryption of the first pos bytes of input, and chain the chaining value after them. */
  ghost predicate Decrypted(c: Cbc.Cipher, iv: Block, input: seq<Byte>, pos: nat, out: seq<Byte>, chain: Block) {
    pos <= |input| && |out| == pos && out == Cbc.CbcDec(c, iv, input[..pos]) && chain == Cbc.Chain(iv, input[..pos])
  }

  lemma AllDecrypted(c: Cbc.Cipher, iv: Block, input: seq<Byte>, out: seq<Byte>, chain: Block)
    requires Decrypted(c, iv, input, |input|, out, chain)
    ensures out == Cbc.CbcDec(c, iv, input) && chain == Cbc.Chain(iv, input)
  {
    FullSlice(input);
  }

  lemma NoneDecrypted(c: Cbc.Cipher, iv: Block, input: seq<Byte>)
    ensures Decrypted(c, iv, input, 0, [], iv)
  {
    FullSlice(input);
  }

  method DecryptNext(t: Word -> Word, keys: seq<Word>, mem: array<Byte>, inp: nat, outp: nat, ghost len: nat,
                     pos: nat, ghost iv: Block, chain: Block, ghost c: Cbc.Cipher,
                     ghost before: seq<Byte>, ghost input: seq<Byte>, ghost out: seq<Byte>)
    returns (temp: Block, ghost out': seq<Byte>)
    requires |keys| == 32 && Decrypts(t, keys, c) && Separate(inp, outp, len) && pos + 16 <= len && pos % 16 == 0
    requires inp + len <= |before| && outp + len <= |before| && input == before[inp..inp + len]
    requires Written(mem[..], before, outp, out) && Decrypted(c, iv, input, pos, out, chain)
    modifies mem
    ensures Written(mem[..], before, outp, out') && Decrypted(c, iv, input, pos + 16, out', temp)
  {
    temp := Get(mem, inp, pos, before, outp, len, out);
    Prefix(input, pos, pos + 16);
    CbcStep(c, iv, input[..pos], temp);
    var p := DecryptBlock(t, keys, temp, c);
    p := Xor(p, chain);
    Put(mem, outp, pos, p, before, out);
    out' := out + p;
  }

  // ---------- CBC in several calls ----------

  function Total(sizes: seq<nat>): nat {
    if sizes == [] then 0 else Total(sizes[..|sizes| - 1]) + sizes[|sizes| - 1]
  }

  lemma TotalNext(sizes: seq<nat>, i: nat)
    requires i < |sizes|
    ensures Total(sizes[..i + 1]) == Total(sizes[..i]) + sizes[i]
  {
    assert sizes[..i + 1][..i] == sizes[..i];
  }

  lemma TotalAll(sizes: seq<nat>)
    ensures Total(sizes[..|sizes|]) == Total(sizes) && Total(sizes[..0]) == 0
  {
    assert sizes[..|sizes|] == sizes;
  }

  lemma {:induction false} TotalBound(sizes: seq<nat>, i: nat)
    requires i <= |sizes|
    ensures Total(sizes[..i]) <= Total(sizes)
    decreases |sizes| - i
  {
    if i < |sizes| {
      TotalNext(sizes, i);
      TotalBound(sizes, i + 1);
    } else {
      assert sizes[..i] == sizes;
    }
  }

  /** A buffer of which the first pos bytes have been replaced by out. */
  predicate Progress(mem: seq<Byte>, before: seq<Byte>, pos: nat, out: seq<Byte>) {
    |out| == pos <= |before| && mem == out + before[pos..]
  }

  lemma ProgressNext(mem: seq<Byte>, before: seq<Byte>, pos: nat, out: seq<Byte>, n: nat, y: seq<Byte>)
    requires Progress(mem, before, pos, out) && |y| == n && pos + n <= |before|
    ensures |mem| == |before| && mem[pos..pos + n] == before[pos..pos + n]
    ensures Progress(Splice(mem, pos, y), before, pos + n, out + y)
  {
    ShiftedSlice(out, before[pos..], 0, n);
    SubSlice(before, pos, n);
    SplitAt(before[pos..], n);
    DropDrop(before, pos, n);
    SpliceBetween(out, before[pos..][..n], before[pos + n..], y);
  }

  lemma SpliceBetween(a: seq<Byte>, b: seq<Byte>, d: seq<Byte>, y: seq<Byte>)
    requires |y| == |b|
    ensures Splice(a + (b + d), |a|, y) == a + y + d
  {
  }

  lemma ProgressEnds(mem: seq<Byte>, before: seq<Byte>, out: seq<Byte>)
    ensures Progress(before, before, 0, [])
    ensures Progress(mem, before, |before|, out) ==> mem == out
  {
    NoPrefix(before);
    NoSuffix(out);
    assert before[|before|..] == [] && before[0..] == before;
  }

  ghost predicate EncDone(mem: seq<Byte>, before: seq<Byte>, pos: nat, out: seq<Byte>, chain: Block, iv: Block,
                          c: Cbc.Cipher) {
    Progress(mem, before, pos, out) && out == Cbc.CbcEnc(c, iv, before[..pos]) && chain == Cbc.Chain(iv, out)
  }

  lemma EncStart(before: seq<Byte>, iv: Block, c: Cbc.Cipher)
    ensures EncDone(before, before, 0, [], iv, iv, c)
  {
    ProgressEnds(before, before, []);
    assert before[..0] == [];
  }

  lemma EncEnd(mem: seq<Byte>, before: seq<Byte>, out: seq<Byte>, chain: Block, iv: Block, c: Cbc.Cipher)
    requires EncDone(mem, before, |before|, out, chain, iv, c)
    ensures mem == Cbc.CbcEnc(c, iv, before) && chain == Cbc.Chain(iv, mem)
  {
    ProgressEnds(mem, before, out);
    FullSlice(before);
  }

  /** Where the next piece ends. */
  lemma NextPiece(sizes: seq<nat>, i: nat)
    requires i < |sizes| && Total(sizes[..i]) % 16 == 0 && sizes[i] % 16 == 0
    ensures Total(sizes[..i + 1]) == Total(sizes[..i]) + sizes[i] <= Total(sizes)
    ensures (Total(sizes[..i]) + sizes[i]) % 16 == 0
  {
    TotalNext(sizes, i);
    TotalBound(sizes, i + 1);
    SumOfBlocks(Total(sizes[..i]), sizes[i]);
  }

  lemma SumOfBlocks(a: nat, b: nat)
    requires a % 16 == 0 && b % 16 == 0
    ensures (a + b) % 16 == 0
  {
  }

  method EncryptPiece(t: Word -> Word, keys: seq<Word>, mem: array<Byte>, pos: nat, size: nat, chain: Block,
                     ghost before: seq<Byte>, ghost out: seq<Byte>, ghost iv: Block, ghost c: Cbc.Cipher)
    returns (chain': Block, ghost out': seq<Byte>)
    requires |keys| == 32 && Encrypts(t, keys, c) && pos % 16 == 0 && size % 16 == 0 && pos + size <= mem.Length
    requires EncDone(mem[..], before, pos, out, chain, iv, c)
    modifies mem
    ensures EncDone(mem[..], before, pos + size, out', chain', iv, c)
  {
    ghost var piece := before[pos..pos + size];
    ghost var y := Cbc.CbcEnc(c, chain, piece);
    ProgressNext(mem[..], before, pos, out, size, y);
    Prefix(before, pos, pos + size);
    Cbc.CbcEncConcat(c, iv, before[..pos], piece);
    Cbc.ChainConcat(iv, out, y);
    chain' := CbcEncrypt(t, keys, mem, pos, pos, size, chain, c);
    out' := out + y;
  }

  method EncryptNth(t: Word -> Word, keys: seq<Word>, mem: array<Byte>, sizes: seq<nat>, i: nat, pos: nat, chain: Block,
                     ghost before: seq<Byte>, ghost out: seq<Byte>, ghost iv: Block, ghost c: Cbc.Cipher)
    returns (chain': Block, ghost out': seq<Byte>)
    requires |keys| == 32 && Encrypts(t, keys, c) && Total(sizes) == mem.Length
    requires i < |sizes| && sizes[i] % 16 == 0 && pos == Total(sizes[..i]) && pos % 16 == 0
    requires EncDone(mem[..], before, pos, out, chain, iv, c)
    modifies mem
    ensures pos + sizes[i] == Total(sizes[..i + 1]) && (pos + sizes[i]) % 16 == 0
    ensures EncDone(mem[..], before, pos + sizes[i], out', chain', iv, c)
  {
    NextPiece(sizes, i);
    chain', out' := EncryptPiece(t, keys, mem, pos, sizes[i], chain, before, out, iv, c);
  }

  /**
   Encrypting a buffer in place in any number of calls, each with the IV that the last one
   left, is encrypting it at once.
  */
  method EncryptPieces(t: Word -> Word, keys: seq<Word>, mem: array<Byte>, sizes: seq<nat>, iv: Block,
                       ghost c: Cbc.Cipher)
    returns (iv': Block)
    requires |keys| == 32 && Encrypts(t, keys, c)
    requires Total(sizes) == mem.Length && forall i :: 0 <= i < |sizes| ==> sizes[i] % 16 == 0
    modifies mem
    ensures mem[..] == Cbc.CbcEnc(c, iv, old(mem[..])) && iv' == Cbc.Chain(iv, mem[..])
  {
    ghost var before := mem[..];
    ghost var out: seq<Byte> := [];
    iv' := iv;
    var pos := 0;
    EncStart(before, iv, c);
    for i := 0 to |sizes|
      invariant pos == Total(sizes[..i]) && pos % 16 == 0 && EncDone(mem[..], before, pos, out, iv', iv, c)
    {
      iv', out := EncryptNth(t, keys, mem, sizes, i, pos, iv', before, out, iv, c);
      pos := pos + sizes[i];
    }
    TotalAll(sizes);
    EncEnd(mem[..], before, out, iv', iv, c);
  }

  ghost predicate DecDone(mem: seq<Byte>, before: seq<Byte>, pos: nat, out: seq<Byte>, chain: Block, iv: Block,
                          c: Cbc.Cipher) {
    Progress(mem, before, pos, out) && out == Cbc.CbcDec(c, iv, before[..pos]) && chain == Cbc.Chain(iv, before[..pos])
  }

  lemma DecStart(before: seq<Byte>, iv: Block, c: Cbc.Cipher)
    ensures DecDone(before, before, 0, [], iv, iv, c)
  {
    ProgressEnds(before, before, []);
    assert before[..0] == [];
  }

  lemma DecEnd(mem: seq<Byte>, before: seq<Byte>, out: seq<Byte>, chain: Block, iv: Block, c: Cbc.Cipher)
    requires DecDone(mem, before, |before|, out, chain, iv, c)
    ensures mem == Cbc.CbcDec(c, iv, before) && chain == Cbc.Chain(iv, before)
  {
    ProgressEnds(mem, before, out);
    FullSlice(before);
  }

  method DecryptPiece(t: Word -> Word, keys: seq<Word>, mem: array<Byte>, pos: nat, size: nat, chain: Block,
                     ghost before: seq<Byte>, ghost out: seq<Byte>, ghost iv: Block, ghost c: Cbc.Cipher)
    returns (chain': Block, ghost out': seq<Byte>)
    requires |keys| == 32 && Decrypts(t, keys, c) && pos % 16 == 0 && size % 16 == 0 && pos + size <= mem.Length
    requires DecDone(mem[..], before, pos, out, chain, iv, c)
    modifies mem
    ensures DecDone(mem[..], before, pos + size, out', chain', iv, c)
  {
    ghost var piece := before[pos..pos + size];
    ghost var y := Cbc.CbcDec(c, chain, piece);
    ProgressNext(mem[..], before, pos, out, size, y);
    Prefix(before, pos, pos + size);
    Cbc.CbcDecConcat(c, iv, before[..pos], piece);
    Cbc.ChainConcat(iv, before[..pos], piece);
    chain' := CbcDecrypt(t, keys, mem, pos, pos, size, chain, c);
    out' := out + y;
  }

  method DecryptNth(t: Word -> Word, keys: seq<Word>, mem: array<Byte>, sizes: seq<nat>, i: nat, pos: nat, chain: Block,
                     ghost before: seq<Byte>, ghost out: seq<Byte>, ghost iv: Block, ghost c: Cbc.Cipher)
    returns (chain': Block, ghost out': seq<Byte>)
    requires |keys| == 32 && Decrypts(t, keys, c) && Total(sizes) == mem.Length
    requires i < |sizes| && sizes[i] % 16 == 0 && pos == Total(sizes[..i]) && pos % 16 == 0
    requires DecDone(mem[..], before, pos, out, chain, iv, c)
    modifies mem
    ensures pos + sizes[i] == Total(sizes[..i + 1]) && (pos + sizes[i]) % 16 == 0
    ensures DecDone(mem[..], before, pos + sizes[i], out', chain', iv, c)
  {
    NextPiece(sizes, i);
    chain', out' := DecryptPiece(t, keys, mem, pos, sizes[i], chain, before, out, iv, c);
  }

  /** So is decrypting it. */
  method DecryptPieces(t: Word -> Word, keys: seq<Word>, mem: array<Byte>, sizes: seq<nat>, iv: Block,
                       ghost c: Cbc.Cipher)
    returns (iv': Block)
    requires |keys| == 32 && Decrypts(t, keys, c)
    requires Total(sizes) == mem.Length && forall i :: 0 <= i < |sizes| ==> sizes[i] % 16 == 0
    modifies mem
    ensures mem[..] == Cbc.CbcDec(c, iv, old(mem[..])) && iv' == Cbc.Chain(iv, old(mem[..]))
  {
    ghost var before := mem[..];
    ghost var out: seq<Byte> := [];
    iv' := iv;
    var pos := 0;
    DecStart(before, iv, c);
    for i := 0 to |sizes|
      invariant pos == Total(sizes[..i]) && pos % 16 == 0 && DecDone(mem[..], before, pos, out, iv', iv, c)
    {
      iv', out := DecryptNth(t, keys, mem, sizes, i, pos, iv', before, out, iv, c);
      pos := pos + sizes[i];
    }
    TotalAll(sizes);
    DecEnd(mem[..], before, out, iv', iv, c);
  }

  /** Encrypting a buffer in place and decrypting it in place gives it back, however both are split into calls. */
  method RoundTrip(t: Word -> Word, keys: seq<Word>, mem: array<Byte>, sizes: seq<nat>, sizes': seq<nat>, iv: Block)
    requires |keys| == 32 && Total(sizes) == Total(sizes') == mem.Length
    requires (forall i :: 0 <= i < |sizes| ==> sizes[i] % 16 == 0) &&
      (forall i :: 0 <= i < |sizes'| ==> sizes'[i] % 16 == 0)
    modifies mem
    ensures mem[..] == old(mem[..])
  {
    ghost var p, c := mem[..], Pair(t, keys);
    PairWorks(t, keys);
    PairInverse(t, keys);
    TotalWhole(sizes);
    Cbc.CbcInverse(c, iv, p);
    var iv1 := EncryptPieces(t, keys, mem, sizes, iv, c);
    var iv2 := DecryptPieces(t, Backwards(keys), mem, sizes', iv, c);
  }

  lemma {:induction false} TotalWhole(sizes: seq<nat>)
    requires forall i :: 0 <= i < |sizes| ==> sizes[i] % 16 == 0
    ensures Total(sizes) % 16 == 0
  {
    if sizes != [] {
      TotalWhole(sizes[..|sizes| - 1]);
    }
  }

  // ---------- CTR ----------

  /** The big-endian increment: bytes from the last on, until one does not wrap. */
  function IncBE(s: seq<Byte>): (r: seq<Byte>)
    ensures |r| == |s|
  {
    if s == [] then [] else
      var init, last := s[..|s| - 1], s[|s| - 1];
      if last == 255 then IncBE(init) + [0] else init + [last + 1]
  }

  lemma {:induction false} IncBEValue(s: seq<Byte>)
    ensures FromBE(IncBE(s)) == if FromBE(s) + 1 == Pow256(|s|) then 0 else FromBE(s) + 1
  {
    if s != [] {
      var init, last := s[..|s| - 1], s[|s| - 1];
      IncBEValue(init);
      FromBEBound(init);
      if last == 255 {
        FromBESnoc(IncBE(init), 0);
      } else {
        FromBESnoc(init, last + 1);
      }
    }
  }

  /** The counter after n blocks. */
  function CtrAfter(ctr: Block, n: nat): Block {
    if n == 0 then ctr else IncBE(CtrAfter(ctr, n - 1))
  }

  lemma {:induction false} CtrValue(ctr: Block, n: nat)
    ensures FromBE(CtrAfter(ctr, n)) == (FromBE(ctr) + n) % 0x1_0000_0000_0000_0000_0000_0000_0000_0000
  {
    FromBEBound(ctr);
    Pow256Values();
    if n > 0 {
      CtrValue(ctr, n - 1);
      IncBEValue(CtrAfter(ctr, n - 1));
      WrapNext(FromBE(ctr) + (n - 1));
    }
  }

  lemma WrapNext(a: nat)
    ensures var m := a % 0x1_0000_0000_0000_0000_0000_0000_0000_0000;
      (a + 1) % 0x1_0000_0000_0000_0000_0000_0000_0000_0000
        == if m + 1 == 0x1_0000_0000_0000_0000_0000_0000_0000_0000 then 0 else m + 1
  {
  }

  /** CTR: every block is combined with the encryption of its counter. */
  function Ctr(c: Cbc.Cipher, ctr: Block, s: seq<Byte>): (r: seq<Byte>)
    ensures |r| == |s|
    ensures forall i :: 0 <= i < |s| ==> r[i] == XorByte(s[i], Cbc.Encrypt(c, CtrAfter(ctr, i / 16))[i % 16])
  {
    seq(|s|, i requires 0 <= i < |s| => XorByte(s[i], Cbc.Encrypt(c, CtrAfter(ctr, i / 16))[i % 16]))
  }

  /** CTR is its own inverse. */
  lemma CtrInvolution(c: Cbc.Cipher, ctr: Block, s: seq<Byte>)
    ensures Ctr(c, ctr, Ctr(c, ctr, s)) == s
  {
    var x := Ctr(c, ctr, s);
    forall i | 0 <= i < |s|
      ensures Ctr(c, ctr, x)[i] == s[i]
    {
      XorByteLaws(s[i], Cbc.Encrypt(c, CtrAfter(ctr, i / 16))[i % 16]);
    }
  }

  /** sm4_crypt_ctr. */
  method CtrCrypt(t: Word -> Word, keys: seq<Word>, mem: array<Byte>, inp: nat, outp: nat, len: nat, ctr: Block,
                  ghost c: Cbc.Cipher)
    returns (ctr': Block)
    requires |keys| == 32 && len % 16 == 0 && inp + len <= mem.Length && outp + len <= mem.Length &&
      Separate(inp, outp, len)
    requires Encrypts(t, keys, c)
    modifies mem
    ensures mem[..] == Splice(old(mem[..]), outp, Ctr(c, ctr, old(mem[inp..inp + len])))
    ensures ctr' == CtrAfter(ctr, len / 16)
  {
    ghost var before, input := mem[..], mem[inp..inp + len];
    ghost var out: seq<Byte> := [];
    ctr' := ctr;
    var n := 0;
    Nothing(before, outp);
    NoneCounted(c, ctr, input);
    while 16 * n < len
      invariant 16 * n <= len && CtrDone(c, ctr, input, n, out)
      invariant Written(mem[..], before, outp, out) && ctr' == CtrAfter(ctr, n)
    {
      out := CtrNext(t, keys, mem, inp, outp, len, n, ctr, ctr', c, before, input, out);
      ctr' := Increment(ctr');
      n := n + 1;
    }
    AllCounted(c, ctr, input, n, out);
  }

  /** out is CTR of the first n blocks of input. */
  ghost predicate CtrDone(c: Cbc.Cipher, ctr: Block, input: seq<Byte>, n: nat, out: seq<Byte>) {
    16 * n <= |input| && |out| == 16 * n && out == Ctr(c, ctr, input[..16 * n])
  }

  lemma NoneCounted(c: Cbc.Cipher, ctr: Block, input: seq<Byte>)
    ensures CtrDone(c, ctr, input, 0, [])
  {
  }

  lemma AllCounted(c: Cbc.Cipher, ctr: Block, input: seq<Byte>, n: nat, out: seq<Byte>)
    requires CtrDone(c, ctr, input, n, out) && |input| == 16 * n
    ensures out == Ctr(c, ctr, input)
  {
    FullSlice(input);
  }

  lemma CtrMore(c: Cbc.Cipher, ctr: Block, s: seq<Byte>, n: nat, out: seq<Byte>, p: seq<Byte>)
    requires 16 * n + 16 <= |s| && out == Ctr(c, ctr, s[..16 * n]) &&
      p == Xor(s[16 * n..16 * n + 16], Cbc.Encrypt(c, CtrAfter(ctr, n)))
    ensures out + p == Ctr(c, ctr, s[..16 * (n + 1)])
  {
    var r := Ctr(c, ctr, s[..16 * (n + 1)]);
    forall i | 0 <= i < |r|
      ensures (out + p)[i] == r[i]
    {
      if i >= 16 * n {
        assert i / 16 == n && i % 16 == i - 16 * n;
      }
    }
  }

  method CtrNext(t: Word -> Word, keys: seq<Word>, mem: array<Byte>, inp: nat, outp: nat, ghost len: nat, n: nat,
                 ghost ctr: Block, now: Block, ghost c: Cbc.Cipher,
                 ghost before: seq<Byte>, ghost input: seq<Byte>, ghost out: seq<Byte>)
    returns (ghost out': seq<Byte>)
    requires |keys| == 32 && Encrypts(t, keys, c) && Separate(inp, outp, len) && 16 * n + 16 <= len &&
      now == CtrAfter(ctr, n)
    requires inp + len <= |before| && outp + len <= |before| && input == before[inp..inp + len]
    requires Written(mem[..], before, outp, out) && CtrDone(c, ctr, input, n, out)
    modifies mem
    ensures Written(mem[..], before, outp, out') && CtrDone(c, ctr, input, n + 1, out')
  {
    var b := Get(mem, inp, 16 * n, before, outp, len, out);
    var p := EncryptBlock(t, keys, now, c);
    p := Xor(b, p);
    Put(mem, outp, 16 * n, p, before, out);
    CtrMore(c, ctr, input, n, out, p);
    out' := out + p;
  }

  /** The loop that increments the counter. */
  method Increment(ctr: Block) returns (r: Block)
    ensures r == IncBE(ctr)
  {
    r := ctr;
    var i := 16;
    NoneDone(ctr);
    while i > 0
      invariant 0 <= i <= 16 && r == ctr[..i] + Zeros(16 - i)
      invariant IncBE(ctr) == IncBE(ctr[..i]) + Zeros(16 - i)
    {
      IncPlace(ctr, i);
      if r[i - 1] != 255 {
        r := r[i - 1 := r[i - 1] + 1];
        return;
      }
      r := r[i - 1 := 0];
      i := i - 1;
    }
  }

  lemma NoneDone(ctr: Block)
    ensures ctr == ctr[..16] + Zeros(0) && IncBE(ctr) == IncBE(ctr[..16]) + Zeros(0)
  {
    assert ctr[..16] == ctr;
  }

  lemma IncPlace(ctr: Block, i: nat)
    requires 0 < i <= 16
    ensures var r := ctr[..i] + Zeros(16 - i);
      r[i - 1] == ctr[i - 1] && r[i - 1 := 0] == ctr[..i - 1] + Zeros(16 - i + 1)
      && (ctr[i - 1] == 255 ==> IncBE(ctr[..i]) + Zeros(16 - i) == IncBE(ctr[..i - 1]) + Zeros(16 - i + 1))
      && (ctr[i - 1] != 255 ==> IncBE(ctr[..i]) + Zeros(16 - i) == r[i - 1 := ctr[i - 1] + 1])
  {
    assert ctr[..i][..i - 1] == ctr[..i - 1];
    assert Zeros(16 - i + 1) == [0] + Zeros(16 - i);
  }
}
