/** The streaming AES-GCM software core: core/crypto/aes-gcm.c and core/crypto/aes-gcm-sw.c. */
module Gcm {
  import opened Bytes
  import opened Slices
  import opened Counter
  import opened GcmSpec

  datatype Result = Success | BadParameters | ShortBuffer | MacInvalid

  datatype Mode = Encrypt | Decrypt

  function Min(a: nat, b: nat): nat {
    if a <= b then a else b
  }

  /** internal_aes_gcm_ptr_is_block_aligned, for an address. */
  predicate Aligned(addr: nat) {
    addr % 16 == 0
  }

  /** The bytes that GHASH sees of a payload piece: always the ciphertext. */
  function Hashed(mode: Mode, src: seq<Byte>, dst: seq<Byte>): seq<Byte> {
    if mode.Encrypt? then dst else src
  }

  /** struct internal_aes_gcm_state, without the hash subkey. */
  datatype State = State(
    ctr: Block, hashState: Block, bufTag: Block, bufHash: Block, bufCryp: Block,
    tagLen: nat, aadBytes: nat, payloadBytes: nat, bufPos: nat)

  /**
   What the buffers of a state stand for: the pre-counter block, the counter blocks of the
   payload, all bytes handed to GHASH so far, and how many AAD and payload bytes there were.
   */
  datatype History = History(mode: Mode, j0: Block, cb: nat -> Block, stream: seq<Byte>, aadDone: nat, done: nat)

  /** GHASH has consumed the whole blocks of stream; the other bytes wait in bufHash. */
  ghost predicate HashOk(c: Cipher, st: State, stream: seq<Byte>) {
    && st.bufPos == |stream| % 16
    && st.hashState == Ghash(c, Whole(stream))
    && st.bufHash[..st.bufPos] == Rest(stream)
  }

  function Tail(b: Block, p: nat): seq<Byte>
    requires p <= 16
  {
    b[p..]
  }

  /** After k blocks and p bytes of payload: the counter, and the unused rest of the key stream block in bufCryp. */
  ghost predicate KeyOk(c: Cipher, cb: nat -> Block, st: State, mode: Mode, k: nat, p: nat) {
    && p < 16
    && st.ctr == cb(if mode.Encrypt? then k + 1 else k)
    && (mode.Encrypt? || p > 0 ==> Tail(st.bufCryp, p) == Tail(Enc(c, cb(k)), p))
  }

  /** The 32-bit byte counters; in the middle of the payload both buffers stand at the same position. */
  ghost predicate Counted(st: State, h: History) {
    && st.aadBytes == h.aadDone % 0x1_0000_0000 && st.payloadBytes == h.done % 0x1_0000_0000
    && (st.payloadBytes != 0 ==> st.bufPos == h.done % 16)
  }

  ghost predicate Valid(c: Cipher, st: State, h: History) {
    && HashOk(c, st, h.stream)
    && KeyOk(c, h.cb, st, h.mode, h.done / 16, h.done % 16)
    && (forall j: nat :: Follows(c, h.cb, j))
    && Counted(st, h)
    && st.bufTag == Enc(c, h.j0) && st.tagLen <= 16
  }

  /** The last, incomplete block of a padded string. */
  lemma PadLast(data: seq<Byte>, n: nat)
    requires 16 * n < |data| < 16 * n + 16
    ensures data[..16 * n] + Splice(ZERO, 0, data[16 * n..]) == Pad(data)
  {
  }

  lemma NoHashed(stream: seq<Byte>, mode: Mode, src: seq<Byte>)
    ensures stream + Hashed(mode, src[..0], []) == stream
  {
  }

  /** internal_aes_gcm_ghash_update without a head: n whole blocks of data into the hash state y. */
  method GhashBlocks(c: Cipher, y: Block, data: seq<Byte>, n: nat, ghost before: seq<Byte>) returns (y': Block)
    requires 16 * n <= |data| && y == Ghash(c, before)
    ensures y' == Ghash(c, before + data[..16 * n])
  {
    y' := y;
    NoSlice(before, data);
    for i := 0 to n
      invariant y' == Ghash(c, before + data[..16 * i])
    {
      GhashNext(c, before, data, 16 * i);
      y' := Absorb(c, y', data[16 * i..16 * i + 16]);
    }
  }

  /** ghash_update_pad_zero from the zero state: an unaligned buffer is copied block by block. */
  method GhashPadZero(c: Cipher, data: seq<Byte>, addr: nat) returns (y: Block)
    ensures y == Ghash(c, Pad(data))
  {
    var n := |data| / 16;
    y := ZERO;
    NoPrefix(data[..16 * n]);
    if n > 0 {
      if Aligned(addr) {
        y := GhashBlocks(c, y, data, n, []);
      } else {
        for m := 0 to n
          invariant y == Ghash(c, data[..16 * m])
        {
          y := GhashBlocks(c, y, data[16 * m..16 * m + 16], 1, data[..16 * m]);
          Prefix(data, 16 * m, 16 * m + 16);
          FullSlice(data[16 * m..16 * m + 16]);
        }
      }
    }
    if |data| - n * 16 > 0 {
      var block: Block := Splice(ZERO, 0, data[16 * n..]);
      GhashSnoc(c, data[..16 * n], block);
      PadLast(data, n);
      y := Absorb(c, y, block);
    } else {
      FullSlice(data);
    }
  }

  /** The part of __gcm_init that computes the pre-counter block. */
  method LoadNonce(c: Cipher, nonce: seq<Byte>, addr: nat) returns (ctr: Block)
    ensures ctr == PreCounter(c, nonce)
  {
    if |nonce| == 12 {
      ctr := Inc(c, Splice(ZERO, 0, nonce));
    } else {
      var y := GhashPadZero(c, nonce, addr);
      GhashSnoc(c, Pad(nonce), LenBlock(0, |nonce|));
      ctr := Absorb(c, y, LenBlock(0, |nonce|));
    }
  }

  function Start(c: Cipher, mode: Mode, nonce: seq<Byte>): History {
    History(mode, PreCounter(c, nonce), Counters(c, Inc(c, PreCounter(c, nonce))), [], 0, 0)
  }

  /** __gcm_init, after the key schedule; the state is not touched when the tag length is refused. */
  method GcmInit(c: Cipher, mode: Mode, nonce: seq<Byte>, nonceAddr: nat, tagLen: nat)
    returns (st: State)
    requires tagLen <= 16
    ensures Valid(c, st, Start(c, mode, nonce)) && st.tagLen == tagLen
  {
    var ctr := LoadNonce(c, nonce, nonceAddr);
    st := State(Inc(c, ctr), ZERO, Enc(c, ctr), ZERO, ZERO, tagLen, 0, 0, 0);
    CountersFollow(c, Inc(c, ctr));
    if mode.Encrypt? {
      assert Follows(c, Counters(c, Inc(c, ctr)), 0);
      st := st.(bufCryp := Enc(c, st.ctr), ctr := Inc(c, st.ctr));
    }
  }

  // ---------- additional authenticated data ----------

  /** Copying the next bytes of the stream into bufHash. */
  function Fill(st: State, piece: seq<Byte>): State
    requires |piece| <= 16 - st.bufPos
  {
    st.(bufHash := Splice(st.bufHash, st.bufPos, piece), bufPos := st.bufPos + |piece|)
  }

  lemma FillShort(c: Cipher, st: State, st': State, stream: seq<Byte>, piece: seq<Byte>)
    requires HashOk(c, st, stream) && |piece| < 16 - st.bufPos
    requires st' == Fill(st, piece).(bufCryp := st'.bufCryp)
    ensures HashOk(c, st', stream + piece)
  {
    AppendShort(stream, piece);
    SplicePrefix(st.bufHash, st.bufPos, piece);
  }

  /** A full buffer is the next block for GHASH. */
  lemma FillFull(c: Cipher, st: State, stream: seq<Byte>, piece: seq<Byte>)
    requires HashOk(c, st, stream) && |piece| == 16 - st.bufPos
    ensures |stream + piece| % 16 == 0
    ensures Ghash(c, stream + piece) == Absorb(c, st.hashState, Fill(st, piece).bufHash)
  {
    AppendFull(stream, piece);
    var b := Fill(st, piece).bufHash;
    SplicePrefix(st.bufHash, st.bufPos, piece);
    FullSlice(b);
    assert |stream + piece| % 16 == 0;
    WholeBlocks(stream + piece);
    GhashSnoc(c, Whole(stream), b);
  }

  /**
   The bulk call of __gcm_update_aad to internal_aes_gcm_ghash_update: the head block if
   there is one, then the whole blocks of data from pos on if they are aligned.
   */
  method AadBulk(c: Cipher, st: State, head: bool, data: seq<Byte>, addr: nat, pos: nat, ghost before: seq<Byte>)
    returns (st': State, pos': nat)
    requires pos <= |data| && |before| % 16 == 0 && st.bufPos == 0
    requires (if head then Absorb(c, st.hashState, st.bufHash) else st.hashState) == Ghash(c, before)
    requires !head ==> Aligned(addr + pos) && |data| - pos >= 16
    ensures pos <= pos' <= |data| && (!head ==> pos < pos')
    ensures HashOk(c, st', before + data[pos..pos'])
    ensures !Aligned(addr + pos') || |data| - pos' < 16
    ensures st' == st.(hashState := st'.hashState)
  {
    var n := if Aligned(addr + pos) then (|data| - pos) / 16 else 0;
    var y := if head then Absorb(c, st.hashState, st.bufHash) else st.hashState;
    y := GhashBlocks(c, y, data[pos..], n, before);
    st', pos' := st.(hashState := y), pos + 16 * n;
    SubSlice(data, pos, 16 * n);
    HashWhole(c, st', before + data[pos..pos']);
  }

  /**
   One iteration of the loop of __gcm_update_aad, at offset pos of data; returned tells that
   the function returned.
  */
  method AadStep(c: Cipher, st: State, head: bool, data: seq<Byte>, addr: nat, pos: nat, ghost sofar: seq<Byte>)
    returns (st': State, head': bool, pos': nat, returned: bool)
    requires pos < |data| && HashOk(c, st, sofar)
    requires head ==> st.bufPos == 0 && (!Aligned(addr + pos) || |data| - pos < 16)
    ensures pos < pos' <= |data| && HashOk(c, st', sofar + data[pos..pos'])
    ensures returned ==> pos' == |data|
    ensures head' ==> st'.bufPos == 0 && (!Aligned(addr + pos') || |data| - pos' < 16)
    ensures st' == st.(hashState := st'.hashState, bufHash := st'.bufHash, bufPos := st'.bufPos)
  {
    var l := |data| - pos;
    if st.bufPos != 0 || !Aligned(addr + pos) || l < 16 {
      var p := pos + Min(16 - st.bufPos, l);
      st' := Fill(st, data[pos..p]);
      if st'.bufPos != 16 {
        FillShort(c, st, st', sofar, data[pos..p]);
        return st', false, p, true;
      }
      FillFull(c, st, sofar, data[pos..p]);
      st', pos' := AadBulk(c, st'.(bufPos := 0), true, data, addr, p, sofar + data[pos..p]);
      SliceJoin(sofar, data, pos, p, pos');
      head', returned := true, false;
    } else {
      assert !head;
      WholeBlocks(sofar);
      st', pos' := AadBulk(c, st, head, data, addr, pos, sofar);
      head', returned := head, false;
    }
  }

  /** __gcm_update_aad on a state that has seen no payload; addr is the address of data. */
  method UpdateAad(c: Cipher, st: State, data: seq<Byte>, addr: nat, ghost stream: seq<Byte>)
    returns (st': State)
    requires HashOk(c, st, stream)
    ensures HashOk(c, st', stream + data)
    ensures st' == st.(hashState := st'.hashState, bufHash := st'.bufHash, bufPos := st'.bufPos)
  {
    st' := st;
    var pos := 0;
    var head := false;
    NoSlice(stream, data);
    while pos < |data|
      invariant 0 <= pos <= |data|
      invariant HashOk(c, st', stream + data[..pos])
      invariant head ==> st'.bufPos == 0 && (!Aligned(addr + pos) || |data| - pos < 16)
      invariant st' == st.(hashState := st'.hashState, bufHash := st'.bufHash, bufPos := st'.bufPos)
      decreases |data| - pos
    {
      ghost var p := pos;
      var returned;
      st', head, pos, returned := AadStep(c, st', head, data, addr, pos, stream + data[..pos]);
      SliceConcat(stream, data, p, pos);
      if returned {
        break;
      }
    }
    FullSlice(data);
  }

  lemma HashWhole(c: Cipher, st: State, stream: seq<Byte>)
    requires st.bufPos == 0 && |stream| % 16 == 0 && st.hashState == Ghash(c, stream)
    ensures HashOk(c, st, stream)
  {
    WholeBlocks(stream);
  }

  // ---------- payload ----------

  /** Within one block, exclusive or with the key stream block is GCTR. */
  lemma KeyPiece(c: Cipher, cryp: Block, cb: nat -> Block, k: nat, p: nat, offset: nat, piece: seq<Byte>)
    requires offset == 16 * k + p
    requires p + |piece| <= 16 && Tail(cryp, p) == Tail(Enc(c, cb(k)), p)
    ensures Xor(cryp[p..p + |piece|], piece) == GctrAt(c, cb, offset, piece)
  {
    var key := Enc(c, cb(k));
    var x, g := Xor(cryp[p..p + |piece|], piece), GctrAt(c, cb, offset, piece);
    forall i | 0 <= i < |piece|
      ensures x[i] == g[i]
    {
      assert Tail(cryp, p)[i] == Tail(key, p)[i];
      assert (offset + i) / 16 == k && (offset + i) % 16 == p + i;
      XorByteLaws(cryp[p + i], piece[i]);
    }
  }

  /** The unaligned branch of __gcm_update_payload up to the check whether the block is complete. */
  method PayloadFill(c: Cipher, st: State, mode: Mode, piece: seq<Byte>, ghost cb: nat -> Block, ghost k: nat,
                     ghost at: nat)
    returns (st': State, dst: seq<Byte>)
    requires KeyOk(c, cb, st, mode, k, st.bufPos) && |piece| <= 16 - st.bufPos && at == 16 * k + st.bufPos
    ensures dst == GctrAt(c, cb, at, piece)
    ensures st' == Fill(st, Hashed(mode, piece, dst)).(bufCryp := st'.bufCryp)
    ensures st'.bufPos < 16 ==> KeyOk(c, cb, st', mode, k, st'.bufPos)
    ensures st'.ctr == cb(if mode.Encrypt? then k + 1 else k) && SameFrame(st, st')
  {
    var cryp := st.bufCryp;
    if st.bufPos == 0 && mode.Decrypt? {
      cryp := Enc(c, st.ctr);
    }
    KeyPiece(c, cryp, cb, k, st.bufPos, at, piece);
    dst := Xor(cryp[st.bufPos..st.bufPos + |piece|], piece);
    st' := Fill(st, Hashed(mode, piece, dst)).(bufCryp := Splice(cryp, st.bufPos, dst));
    SpliceTail(cryp, Enc(c, cb(k)), st.bufPos, dst);
  }

  lemma SpliceTail(a: Block, b: Block, p: nat, data: seq<Byte>)
    requires p + |data| <= 16 && Tail(a, p) == Tail(b, p)
    ensures Tail(Splice(a, p, data), p + |data|) == Tail(b, p + |data|)
  {
    DropDrop(a, p, |data|);
    DropDrop(b, p, |data|);
    DropDrop(Splice(a, p, data), p, |data|);
  }

  /**
   One iteration of __gcm_update_payload in its unaligned branch, inside block k of the
   payload; the function returns unless the block became complete.
   */
  method PayloadPartial(c: Cipher, st: State, mode: Mode, piece: seq<Byte>,
                        ghost cb: nat -> Block, ghost stream: seq<Byte>, ghost k: nat, ghost at: nat)
    returns (st': State, dst: seq<Byte>, complete: bool, ghost k': nat)
    requires at == 16 * k + st.bufPos
    requires forall j: nat :: Follows(c, cb, j)
    requires HashOk(c, st, stream) && KeyOk(c, cb, st, mode, k, st.bufPos) && |piece| <= 16 - st.bufPos
    ensures dst == GctrAt(c, cb, at, piece)
    ensures HashOk(c, st', stream + Hashed(mode, piece, dst))
    ensures complete <==> st.bufPos + |piece| == 16
    ensures KeyOk(c, cb, st', mode, k', st'.bufPos) && 16 * k' + st'.bufPos == at + |piece|
    ensures SameFrame(st, st')
  {
    st', dst := PayloadFill(c, st, mode, piece, cb, k, at);
    complete := st'.bufPos == 16;
    if complete {
      k' := k + 1;
      st' := FinishBlock(c, st, st', mode, Hashed(mode, piece, dst), cb, stream, k');
    } else {
      k' := k;
      FillShort(c, st, st', stream, Hashed(mode, piece, dst));
    }
  }

  /** The end of the unaligned branch: hash the complete block and step the key stream. */
  method FinishBlock(c: Cipher, ghost before: State, st: State, mode: Mode, ghost piece: seq<Byte>,
                     ghost cb: nat -> Block, ghost stream: seq<Byte>, ghost k: nat) returns (st': State)
    requires forall j: nat :: Follows(c, cb, j)
    requires HashOk(c, before, stream) && |piece| == 16 - before.bufPos &&
      st == Fill(before, piece).(bufCryp := st.bufCryp)
    requires k > 0 && st.ctr == cb(if mode.Encrypt? then k else k - 1)
    ensures HashOk(c, st', stream + piece) && KeyOk(c, cb, st', mode, k, 0) && st'.bufPos == 0 && SameFrame(st, st')
  {
    FillFull(c, before, stream, piece);
    st' := st.(hashState := Absorb(c, st.hashState, st.bufHash), bufPos := 0);
    if mode.Encrypt? {
      st' := st'.(bufCryp := Enc(c, st'.ctr));
    }
    assert Follows(c, cb, if mode.Encrypt? then k else k - 1);
    st' := st'.(ctr := Inc(c, st'.ctr));
    HashWhole(c, st', stream + piece);
  }

  predicate SameFrame(st: State, st': State) {
    st'.bufTag == st.bufTag && st'.tagLen == st.tagLen && st'.aadBytes == st.aadBytes &&
      st'.payloadBytes == st.payloadBytes
  }

  /** One block of internal_aes_gcm_update_payload_block_aligned. */
  method PayloadBlock(c: Cipher, st: State, mode: Mode, block: Block,
                      ghost cb: nat -> Block, ghost stream: seq<Byte>, ghost k: nat, ghost at: nat)
    returns (st': State, dst: Block)
    requires at == 16 * k
    requires forall j: nat :: Follows(c, cb, j)
    requires HashOk(c, st, stream) && KeyOk(c, cb, st, mode, k, 0) && st.bufPos == 0
    ensures dst == GctrAt(c, cb, at, block)
    ensures HashOk(c, st', stream + Hashed(mode, block, dst))
    ensures KeyOk(c, cb, st', mode, k + 1, 0) && st'.bufPos == 0 && SameFrame(st, st')
  {
    var cryp := if mode.Encrypt? then st.bufCryp else Enc(c, st.ctr);
    KeyPiece(c, cryp, cb, k, 0, at, block);
    FullSlice(cryp);
    dst := Xor(cryp, block);
    AbsorbWhole(c, st, stream, Hashed(mode, block, dst));
    st' := st.(hashState := Absorb(c, st.hashState, Hashed(mode, block, dst)), bufCryp := dst);
    if mode.Encrypt? {
      st' := st'.(bufCryp := Enc(c, st'.ctr));
    }
    assert Follows(c, cb, if mode.Encrypt? then k + 1 else k);
    st' := st'.(ctr := Inc(c, st'.ctr));
  }

  lemma AbsorbWhole(c: Cipher, st: State, stream: seq<Byte>, block: Block)
    requires HashOk(c, st, stream) && st.bufPos == 0
    ensures forall st': State :: st'.bufPos == 0 && st'.hashState == Absorb(c, st.hashState, block)
              ==> HashOk(c, st', stream + block)
  {
    WholeBlocks(stream);
    GhashSnoc(c, stream, block);
    WholeBlocks(stream + block);
  }

  /** internal_aes_gcm_update_payload_block_aligned, for the n whole blocks src. */
  method PayloadAligned(c: Cipher, st: State, mode: Mode, src: seq<Byte>, n: nat,
                        ghost cb: nat -> Block, ghost stream: seq<Byte>, ghost k: nat, ghost at: nat)
    returns (st': State, dst: seq<Byte>)
    requires at == 16 * k
    requires forall j: nat :: Follows(c, cb, j)
    requires HashOk(c, st, stream) && KeyOk(c, cb, st, mode, k, 0) && st.bufPos == 0 && |src| == 16 * n
    ensures dst == GctrAt(c, cb, at, src)
    ensures HashOk(c, st', stream + Hashed(mode, src, dst))
    ensures KeyOk(c, cb, st', mode, k + n, 0) && st'.bufPos == 0 && SameFrame(st, st')
  {
    st', dst := st, [];
    NoHashed(stream, mode, src);
    var pos := 0;
    for i := 0 to n
      invariant pos == 16 * i
      invariant dst == GctrAt(c, cb, at, src[..pos])
      invariant HashOk(c, st', stream + Hashed(mode, src[..pos], dst))
      invariant KeyOk(c, cb, st', mode, k + i, 0) && st'.bufPos == 0 && SameFrame(st, st')
    {
      var d;
      var next := pos + 16;
      ghost var here := at + pos;
      st', d := PayloadBlock(c, st', mode, src[pos..next], cb, stream + Hashed(mode, src[..pos], dst), k + i, here);
      Append(c, cb, mode, stream, at, src, pos, next, here, dst, d);
      dst, pos := dst + d, next;
    }
    FullSlice(src);
  }

  /** Output and hash input grow in step with the input. */
  lemma Append(c: Cipher, cb: nat -> Block, mode: Mode, stream: seq<Byte>, offset: nat, src: seq<Byte>, i: nat,
               j: nat, at: nat,
               dst: seq<Byte>, d: seq<Byte>)
    requires i <= j <= |src| && at == offset + i
    requires dst == GctrAt(c, cb, offset, src[..i]) && d == GctrAt(c, cb, at, src[i..j])
    ensures dst + d == GctrAt(c, cb, offset, src[..j])
    ensures stream + Hashed(mode, src[..i], dst) + Hashed(mode, src[i..j], d)
      == stream + Hashed(mode, src[..j], dst + d)
  {
    Prefix(src, i, j);
    GctrAtConcat(c, cb, offset, src[..i], src[i..j], at);
    if mode.Encrypt? {
      Associate(stream, dst, d);
    } else {
      Associate(stream, src[..i], src[i..j]);
    }
  }

  /**
   One iteration of the loop of __gcm_update_payload, from byte pos of src on; at is the
   number of bytes processed before, k the number of whole blocks in them.
   */
  method PayloadStep(c: Cipher, st: State, mode: Mode, src: seq<Byte>, srcAddr: nat, dstAddr: nat, pos: nat,
                     ghost cb: nat -> Block, ghost stream: seq<Byte>, ghost k: nat, ghost at: nat)
    returns (st': State, dst: seq<Byte>, pos': nat, returned: bool, ghost k': nat)
    requires forall j: nat :: Follows(c, cb, j)
    requires pos < |src| && HashOk(c, st, stream)
    requires KeyOk(c, cb, st, mode, k, st.bufPos) && at == 16 * k + st.bufPos
    ensures pos < pos' <= |src| && (returned ==> pos' == |src|)
    ensures dst == GctrAt(c, cb, at, src[pos..pos'])
    ensures HashOk(c, st', stream + Hashed(mode, src[pos..pos'], dst))
    ensures KeyOk(c, cb, st', mode, k', st'.bufPos) && 16 * k' + st'.bufPos == at + (pos' - pos)
    ensures SameFrame(st, st')
  {
    var l := |src| - pos;
    if st.bufPos != 0 || !Aligned(srcAddr + pos) || !Aligned(dstAddr + pos) || l < 16 {
      var n := Min(16 - st.bufPos, l);
      pos' := pos + n;
      var complete;
      st', dst, complete, k' := PayloadPartial(c, st, mode, src[pos..pos'], cb, stream, k, at);
      returned := !complete;
    } else {
      var n := l / 16;
      pos' := pos + 16 * n;
      st', dst := PayloadAligned(c, st, mode, src[pos..pos'], n, cb, stream, k, at);
      returned := false;
      k' := k + n;
    }
  }

  /** The loop of __gcm_update_payload. */
  method PayloadLoop(c: Cipher, st: State, mode: Mode, src: seq<Byte>, srcAddr: nat, dstAddr: nat,
                     ghost cb: nat -> Block, ghost stream: seq<Byte>, ghost k: nat, ghost at: nat)
    returns (st': State, dst: seq<Byte>, ghost k': nat)
    requires forall j: nat :: Follows(c, cb, j)
    requires HashOk(c, st, stream) && KeyOk(c, cb, st, mode, k, st.bufPos) && at == 16 * k + st.bufPos
    ensures dst == GctrAt(c, cb, at, src)
    ensures HashOk(c, st', stream + Hashed(mode, src, dst))
    ensures KeyOk(c, cb, st', mode, k', st'.bufPos) && 16 * k' + st'.bufPos == at + |src|
    ensures SameFrame(st, st')
  {
    st', dst, k' := st, [], k;
    var pos := 0;
    NoHashed(stream, mode, src);
    while pos < |src|
      invariant pos <= |src|
      invariant dst == GctrAt(c, cb, at, src[..pos])
      invariant HashOk(c, st', stream + Hashed(mode, src[..pos], dst))
      invariant KeyOk(c, cb, st', mode, k', st'.bufPos) && 16 * k' + st'.bufPos == at + pos
      invariant SameFrame(st, st')
      decreases |src| - pos
    {
      ghost var p, here := pos, at + pos;
      var d, returned;
      st', d, pos, returned, k' := PayloadStep(c, st', mode, src, srcAddr, dstAddr, pos, cb,
                                               stream + Hashed(mode, src[..p], dst), k', here);
      Append(c, cb, mode, stream, at, src, p, pos, here, dst, d);
      dst := dst + d;
      if returned {
        break;
      }
    }
    FullSlice(src);
  }

  // ---------- calls ----------

  /** GHASH input is padded to whole blocks between AAD and payload. */
  function AfterAad(h: History): seq<Byte> {
    if h.done % 0x1_0000_0000 == 0 then Pad(h.stream) else h.stream
  }

  function AfterPayload(h: History, src: seq<Byte>, dst: seq<Byte>): History {
    h.(stream := AfterAad(h) + Hashed(h.mode, src, dst), done := h.done + |src|)
  }

  /** Hashing what is left in bufHash, padded with zeros. */
  method Flush(c: Cipher, st: State, ghost stream: seq<Byte>) returns (st': State)
    requires HashOk(c, st, stream)
    ensures HashOk(c, st', Pad(stream)) && st'.bufPos == 0 &&
      st' == st.(hashState := st'.hashState, bufHash := st'.bufHash, bufPos := 0)
  {
    st' := st;
    if st.bufPos != 0 {
      var zeros := Zeros(16 - st.bufPos);
      FillFull(c, st, stream, zeros);
      st' := Fill(st, zeros);
      st' := st'.(hashState := Absorb(c, st'.hashState, st'.bufHash), bufPos := 0);
      HashWhole(c, st', stream + zeros);
    }
  }

  /** __gcm_update_payload. */
  method UpdatePayload(c: Cipher, st: State, mode: Mode, src: seq<Byte>, srcAddr: nat, dstAddr: nat, ghost h: History)
    returns (st': State, dst: seq<Byte>)
    requires Valid(c, st, h) && mode == h.mode
    ensures dst == GctrAt(c, h.cb, h.done, src)
    ensures Valid(c, st', AfterPayload(h, src, dst)) && st'.tagLen == st.tagLen
  {
    st' := FlushAad(c, st, h);
    ghost var k;
    st', dst, k := PayloadLoop(c, st', mode, src, srcAddr, dstAddr, h.cb, AfterAad(h), h.done / 16, h.done);
    PayloadDone(c, st', h, src, dst, k);
    st' := st'.(payloadBytes := (st.payloadBytes + |src|) % 0x1_0000_0000);
  }

  /** At the first payload call what is left of the AAD is hashed. */
  method FlushAad(c: Cipher, st: State, ghost h: History) returns (st': State)
    requires Valid(c, st, h)
    ensures HashOk(c, st', AfterAad(h)) && SameFrame(st, st')
    ensures KeyOk(c, h.cb, st', h.mode, h.done / 16, st'.bufPos) && h.done == 16 * (h.done / 16) + st'.bufPos
  {
    st' := st;
    Positions(h.done);
    if st.payloadBytes == 0 {
      st' := Flush(c, st, h.stream);
    }
  }

  lemma PayloadDone(c: Cipher, st: State, h: History, src: seq<Byte>, dst: seq<Byte>, k: nat)
    requires HashOk(c, st, AfterPayload(h, src, dst).stream) && (forall j: nat :: Follows(c, h.cb, j))
    requires KeyOk(c, h.cb, st, h.mode, k, st.bufPos) && h.done + |src| == 16 * k + st.bufPos
    requires st.aadBytes == h.aadDone % 0x1_0000_0000 && st.payloadBytes == h.done % 0x1_0000_0000
    requires st.bufTag == Enc(c, h.j0) && st.tagLen <= 16
    ensures Valid(c, st.(payloadBytes := (st.payloadBytes + |src|) % 0x1_0000_0000), AfterPayload(h, src, dst))
  {
    KeyPosition(c, h.cb, st, h.mode, k, h.done + |src|);
    Wrap(h.done, |src|);
  }

  /** The key stream position, from the number of bytes processed. */
  lemma KeyPosition(c: Cipher, cb: nat -> Block, st: State, mode: Mode, k: nat, n: nat)
    requires KeyOk(c, cb, st, mode, k, st.bufPos) && n == 16 * k + st.bufPos
    ensures KeyOk(c, cb, st, mode, n / 16, n % 16) && st.bufPos == n % 16
  {
    assert n / 16 == k && n % 16 == st.bufPos;
  }

  lemma Wrap(a: nat, b: nat)
    ensures (a % 0x1_0000_0000 + b) % 0x1_0000_0000 == (a + b) % 0x1_0000_0000
  {
  }

  lemma Positions(n: nat)
    ensures n == 16 * (n / 16) + n % 16
    ensures n % 0x1_0000_0000 == 0 ==> n % 16 == 0
  {
  }
}
