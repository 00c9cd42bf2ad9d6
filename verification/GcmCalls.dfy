/** The calls on an AES-GCM context, and what any sequence of them computes. */
module GcmCalls {
  import opened Bytes
  import opened Slices
  import opened Counter
  import opened GcmSpec
  import opened Gcm

  /** The tag of everything processed so far. */
  function FinalTag(c: Cipher, h: History): Block {
    Xor(Enc(c, h.j0), Ghash(c, Pad(h.stream) + LenBlock(h.aadDone, h.done)))
  }

  lemma Times8Wrap(a: nat)
    ensures Times8(a % 0x1_0000_0000) == Times8(a)
  {
  }

  lemma XorPrefix(a: Block, b: Block, n: nat)
    requires n <= 16
    ensures Xor(a[..n], b[..n]) == Xor(a, b)[..n]
  {
  }

  lemma SpliceFront(a: Block, b: seq<Byte>)
    requires |b| <= 16
    ensures Splice(a, 0, b)[..|b|] == b
  {
  }

  /** operation_final: the rest of the payload, then the lengths, then the tag into bufTag. */
  method OperationFinal(c: Cipher, st: State, mode: Mode, src: seq<Byte>, srcAddr: nat, dstAddr: nat, ghost h: History)
    returns (st': State, dst: seq<Byte>)
    requires Valid(c, st, h) && mode == h.mode
    ensures dst == GctrAt(c, h.cb, h.done, src)
    ensures st'.tagLen == st.tagLen <= 16
    ensures st'.bufTag[..st.tagLen] == FinalTag(c, AfterPayload(h, src, dst))[..st.tagLen]
  {
    st', dst := UpdatePayload(c, st, mode, src, srcAddr, dstAddr, h);
    ghost var h' := AfterPayload(h, src, dst);
    st' := Flush(c, st', h'.stream);
    st' := Lengths(c, st', h');
    var tag := Xor(st'.bufTag[..st'.tagLen], st'.hashState[..st'.tagLen]);
    XorPrefix(st'.bufTag, st'.hashState, st'.tagLen);
    SpliceFront(st'.bufTag, tag);
    st' := st'.(bufTag := Splice(st'.bufTag, 0, tag));
  }

  /** ghash_update_lengths at the end of the message. */
  method Lengths(c: Cipher, st: State, ghost h: History) returns (st': State)
    requires HashOk(c, st, Pad(h.stream)) && st.bufPos == 0
    requires st.aadBytes == h.aadDone % 0x1_0000_0000 && st.payloadBytes == h.done % 0x1_0000_0000
    ensures st' == st.(hashState := Ghash(c, Pad(h.stream) + LenBlock(h.aadDone, h.done)))
  {
    var b := LenBlock(st.aadBytes, st.payloadBytes);
    Times8Wrap(h.aadDone);
    Times8Wrap(h.done);
    WholeBlocks(Pad(h.stream));
    GhashSnoc(c, Pad(h.stream), b);
    st' := st.(hashState := Absorb(c, st.hashState, b));
  }

  /** struct internal_aes_gcm_ctx, with an expanded key. */
  class Context {
    const c: Cipher
    var state: State
    ghost var history: History

    ghost predicate Valid()
      reads this
    {
      Gcm.Valid(c, state, history)
    }

    constructor (c: Cipher, state: State)
      ensures this.c == c && this.state == state
    {
      this.c, this.state := c, state;
    }

    method Init(mode: Mode, nonce: seq<Byte>, nonceAddr: nat, tagLen: nat) returns (res: Result)
      modifies this
      ensures res == if tagLen > 16 then BadParameters else Success
      ensures res.Success? ==> Valid() && history == Start(c, mode, nonce) && state.tagLen == tagLen
      ensures !res.Success? ==> state == old(state) && history == old(history)
    {
      if tagLen > 16 {
        return BadParameters;
      }
      state := GcmInit(c, mode, nonce, nonceAddr, tagLen);
      history := Start(c, mode, nonce);
      return Success;
    }

    /** AAD is refused while the 32-bit payload counter is not zero. */
    method UpdateAad(data: seq<Byte>, addr: nat) returns (res: Result)
      requires Valid()
      modifies this
      ensures Valid() && state.tagLen == old(state.tagLen)
      ensures res == if old(history.done) % 0x1_0000_0000 != 0 then BadParameters else Success
      ensures res.Success? ==>
        history == old(history.(stream := history.stream + data, aadDone := history.aadDone + |data|))
      ensures !res.Success? ==> state == old(state) && history == old(history)
    {
      if state.payloadBytes != 0 {
        return BadParameters;
      }
      var st := state.(aadBytes := (state.aadBytes + |data|) % 0x1_0000_0000);
      st := Gcm.UpdateAad(c, st, data, addr, history.stream);
      Wrap(history.aadDone, |data|);
      AadKeepsKey(c, state, st, history, data);
      state := st;
      history := history.(stream := history.stream + data, aadDone := history.aadDone + |data|);
      return Success;
    }

    method UpdatePayload(mode: Mode, src: seq<Byte>, srcAddr: nat, dstAddr: nat) returns (dst: seq<Byte>)
      requires Valid() && mode == history.mode
      modifies this
      ensures Valid() && state.tagLen == old(state.tagLen)
      ensures dst == GctrAt(c, old(history.cb), old(history.done), src)
      ensures history == AfterPayload(old(history), src, dst)
    {
      state, dst := Gcm.UpdatePayload(c, state, mode, src, srcAddr, dstAddr, history);
      history := AfterPayload(history, src, dst);
    }

    /** tagCapacity is the size of the caller's tag buffer. */
    method EncFinal(src: seq<Byte>, srcAddr: nat, dstAddr: nat, tagCapacity: nat)
      returns (res: Result, dst: seq<Byte>, tag: seq<Byte>)
      requires Valid() && history.mode.Encrypt?
      modifies this
      ensures res == if tagCapacity < old(state.tagLen) then ShortBuffer else Success
      ensures res.Success? ==> dst == GctrAt(c, old(history.cb), old(history.done), src)
      ensures res.Success? ==>
        && state.tagLen == old(state.tagLen) <= 16
        && tag == FinalTag(c, AfterPayload(old(history), src, dst))[..state.tagLen]
      ensures !res.Success? ==> Valid() && state == old(state) && history == old(history)
    {
      if tagCapacity < state.tagLen {
        return ShortBuffer, [], [];
      }
      state, dst := OperationFinal(c, state, Encrypt, src, srcAddr, dstAddr, history);
      return Success, dst, state.bufTag[..state.tagLen];
    }

    /** The plaintext is written before the tag is compared. */
    method DecFinal(src: seq<Byte>, srcAddr: nat, dstAddr: nat, tag: seq<Byte>) returns (res: Result, dst: seq<Byte>)
      requires Valid() && history.mode.Decrypt?
      modifies this
      ensures |tag| != old(state.tagLen) ==> res == MacInvalid && state == old(state) && history == old(history)
      ensures |tag| == old(state.tagLen) ==> dst == GctrAt(c, old(history.cb), old(history.done), src)
      ensures |tag| == old(state.tagLen) ==>
        && |tag| <= 16
        && res == if tag == FinalTag(c, AfterPayload(old(history), src, dst))[..|tag|] then Success else MacInvalid
    {
      if |tag| != state.tagLen {
        return MacInvalid, [];
      }
      state, dst := OperationFinal(c, state, Decrypt, src, srcAddr, dstAddr, history);
      if state.bufTag[..|tag|] != tag {
        return MacInvalid, dst;
      }
      return Success, dst;
    }
  }

  /** AAD changes neither the key stream nor the counters of the payload. */
  lemma AadKeepsKey(c: Cipher, st: State, st': State, h: History, data: seq<Byte>)
    requires Gcm.Valid(c, st, h) && st.payloadBytes == 0 && HashOk(c, st', h.stream + data)
    requires st' == st.(aadBytes := (h.aadDone + |data|) % 0x1_0000_0000,
                        hashState := st'.hashState, bufHash := st'.bufHash, bufPos := st'.bufPos)
    ensures Gcm.Valid(c, st', h.(stream := h.stream + data, aadDone := h.aadDone + |data|))
  {
  }

  // ---------- sequences of calls ----------

  /** One call's buffer: its bytes, where they are, and where the output goes. */
  datatype Piece = Piece(data: seq<Byte>, src: nat, dst: nat)

  function Data(ps: seq<Piece>): seq<Byte> {
    if |ps| == 0 then [] else Data(ps[..|ps| - 1]) + ps[|ps| - 1].data
  }

  lemma DataNext(ps: seq<Piece>, i: nat)
    requires i < |ps|
    ensures Data(ps[..i + 1]) == Data(ps[..i]) + ps[i].data
  {
    assert ps[..i + 1][..i] == ps[..i];
  }

  lemma DataAll(ps: seq<Piece>)
    ensures Data(ps[..|ps|]) == Data(ps) && Data(ps[..0]) == []
  {
    assert ps[..|ps|] == ps;
  }

  /** A history after all AAD and the payload src, turned into dst. */
  ghost predicate Fed(h: History, start: History, aad: seq<Byte>, src: seq<Byte>, dst: seq<Byte>) {
    && h == start.(stream := h.stream, aadDone := |aad|, done := |src|) && |dst| == |src|
    && AfterAad(h) == Pad(aad) + Hashed(h.mode, src, dst)
  }

  lemma FedMore(h: History, start: History, aad: seq<Byte>, src: seq<Byte>, dst: seq<Byte>, s: seq<Byte>, d: seq<Byte>)
    requires Fed(h, start, aad, src, dst) && |s| == |d|
    ensures Fed(AfterPayload(h, s, d), start, aad, src + s, dst + d)
    ensures Pad(AfterPayload(h, s, d).stream) == Pad(aad) + Pad(Hashed(h.mode, src + s, dst + d))
  {
    var h', x := AfterPayload(h, s, d), Hashed(h.mode, src + s, dst + d);
    assert h'.stream == Pad(aad) + x;
    PadAppend(aad, x);
    Positions(|x|);
  }

  lemma PadAppend(a: seq<Byte>, x: seq<Byte>)
    ensures |Pad(a) + x| % 16 == |x| % 16
    ensures Pad(Pad(a) + x) == Pad(a) + Pad(x)
  {
    assert |Pad(a)| % 16 == 0;
    assert |Pad(a) + x| % 16 == |x| % 16;
  }

  /** The source's calls for one message up to the final one: init, all AAD pieces, then payload pieces. */
  method Feed(c: Cipher, init: State, mode: Mode, nonce: seq<Byte>, nonceAddr: nat, tagLen: nat, aad: seq<Piece>,
              payload: seq<Piece>)
    returns (ctx: Context, dst: seq<Byte>)
    requires tagLen <= 16
    ensures fresh(ctx) && ctx.Valid() && ctx.c == c && ctx.state.tagLen == tagLen
    ensures Fed(ctx.history, Start(c, mode, nonce), Data(aad), Data(payload), dst)
    ensures dst == GctrAt(c, Start(c, mode, nonce).cb, 0, Data(payload))
  {
    ctx := new Context(c, init);
    var res := ctx.Init(mode, nonce, nonceAddr, tagLen);
    ghost var start := Start(c, mode, nonce);
    DataAll(aad);
    for i := 0 to |aad|
      invariant ctx.Valid() && ctx.c == c && ctx.state.tagLen == tagLen
      invariant ctx.history == start.(stream := Data(aad[..i]), aadDone := |Data(aad[..i])|)
    {
      DataNext(aad, i);
      res := ctx.UpdateAad(aad[i].data, aad[i].src);
    }
    DataAll(payload);
    dst := [];
    NoHashed(Pad(Data(aad)), mode, []);
    for i := 0 to |payload|
      invariant ctx.Valid() && ctx.c == c && ctx.state.tagLen == tagLen
      invariant Fed(ctx.history, start, Data(aad), Data(payload[..i]), dst)
      invariant dst == GctrAt(c, start.cb, 0, Data(payload[..i]))
    {
      DataNext(payload, i);
      ghost var h := ctx.history;
      var d := ctx.UpdatePayload(mode, payload[i].data, payload[i].src, payload[i].dst);
      FedMore(h, start, Data(aad), Data(payload[..i]), dst, payload[i].data, d);
      GctrAtConcat(c, start.cb, 0, Data(payload[..i]), payload[i].data, h.done);
      dst := dst + d;
    }
  }

  /**
   Encryption in any number of calls, from and to buffers at any addresses: ciphertext and
   tag are those of section 7.1. The last piece goes to the final call.
   */
  method EncryptPieces(c: Cipher, init: State, nonce: seq<Byte>, nonceAddr: nat, tagLen: nat,
                       aad: seq<Piece>, payload: seq<Piece>, last: Piece)
    returns (ct: seq<Byte>, tag: seq<Byte>)
    requires tagLen <= 16
    ensures ct == Ciphertext(c, nonce, Data(payload) + last.data)
    ensures tag == Tag(c, nonce, Data(aad), ct)[..tagLen]
  {
    var ctx, dst := Feed(c, init, Encrypt, nonce, nonceAddr, tagLen, aad, payload);
    ghost var h := ctx.history;
    var res, d, t := ctx.EncFinal(last.data, last.src, last.dst, tagLen);
    FedMore(h, Start(c, Encrypt, nonce), Data(aad), Data(payload), dst, last.data, d);
    GctrAtConcat(c, h.cb, 0, Data(payload), last.data, h.done);
    return dst + d, t;
  }

  /** Decryption in any number of calls: the tag is accepted exactly when it is the one of section 7.1. */
  method DecryptPieces(c: Cipher, init: State, nonce: seq<Byte>, nonceAddr: nat, tag: seq<Byte>,
                       aad: seq<Piece>, payload: seq<Piece>, last: Piece)
    returns (res: Result, pt: seq<Byte>)
    requires |tag| <= 16
    ensures pt == Ciphertext(c, nonce, Data(payload) + last.data)
    ensures res == if tag == Tag(c, nonce, Data(aad), Data(payload) + last.data)[..|tag|] then Success else MacInvalid
  {
    var ctx, dst := Feed(c, init, Decrypt, nonce, nonceAddr, |tag|, aad, payload);
    ghost var h := ctx.history;
    var r, d := ctx.DecFinal(last.data, last.src, last.dst, tag);
    FedMore(h, Start(c, Decrypt, nonce), Data(aad), Data(payload), dst, last.data, d);
    GctrAtConcat(c, h.cb, 0, Data(payload), last.data, h.done);
    return r, dst + d;
  }

  /** What one side encrypts in its calls the other side decrypts in its own. */
  method RoundTrip(c: Cipher, init: State, nonce: seq<Byte>, nonceAddr: nat, tagLen: nat,
                   aad: seq<Piece>, payload: seq<Piece>, last: Piece,
                   aad': seq<Piece>, payload': seq<Piece>, last': Piece)
    returns (ct: seq<Byte>, res: Result, pt: seq<Byte>)
    requires tagLen <= 16 && Data(aad') == Data(aad)
    ensures Data(payload') + last'.data == ct ==> res == Success && pt == Data(payload) + last.data
  {
    var tag;
    ct, tag := EncryptPieces(c, init, nonce, nonceAddr, tagLen, aad, payload, last);
    res, pt := DecryptPieces(c, init, nonce, nonceAddr, tag, aad', payload', last');
    GctrInvolution(c, Inc(c, PreCounter(c, nonce)), Data(payload) + last.data);
  }

  /** internal_aes_gcm_enc: tagLen is both the size of the tag buffer and the tag length asked for. */
  method EncOnce(c: Cipher, init: State, nonce: seq<Byte>, nonceAddr: nat, aad: seq<Byte>, aadAddr: nat,
                 src: seq<Byte>, srcAddr: nat, dstAddr: nat, tagLen: nat)
    returns (res: Result, dst: seq<Byte>, tag: seq<Byte>)
    ensures res == if tagLen > 16 then BadParameters else Success
    ensures res.Success? ==> dst == Ciphertext(c, nonce, src) && tag == Tag(c, nonce, aad, dst)[..tagLen]
  {
    var ctx := new Context(c, init);
    res := ctx.Init(Encrypt, nonce, nonceAddr, tagLen);
    if !res.Success? {
      return res, [], [];
    }
    res := ctx.UpdateAad(aad, aadAddr);
    FedStart(Start(c, Encrypt, nonce), ctx.history, aad);
    ghost var h := ctx.history;
    res, dst, tag := ctx.EncFinal(src, srcAddr, dstAddr, tagLen);
    FedMore(h, Start(c, Encrypt, nonce), aad, [], [], src, dst);
    NoPrefix(src);
    NoPrefix(dst);
  }

  /** internal_aes_gcm_dec. */
  method DecOnce(c: Cipher, init: State, nonce: seq<Byte>, nonceAddr: nat, aad: seq<Byte>, aadAddr: nat,
                 src: seq<Byte>, srcAddr: nat, dstAddr: nat, tag: seq<Byte>)
    returns (res: Result, dst: seq<Byte>)
    ensures |tag| > 16 ==> res == BadParameters
    ensures |tag| <= 16 ==> dst == Ciphertext(c, nonce, src)
    ensures |tag| <= 16 ==> res == if tag == Tag(c, nonce, aad, src)[..|tag|] then Success else MacInvalid
  {
    var ctx := new Context(c, init);
    res := ctx.Init(Decrypt, nonce, nonceAddr, |tag|);
    if !res.Success? {
      return res, [];
    }
    res := ctx.UpdateAad(aad, aadAddr);
    FedStart(Start(c, Decrypt, nonce), ctx.history, aad);
    ghost var h := ctx.history;
    res, dst := ctx.DecFinal(src, srcAddr, dstAddr, tag);
    FedMore(h, Start(c, Decrypt, nonce), aad, [], [], src, dst);
    NoPrefix(src);
    NoPrefix(dst);
  }

  lemma FedStart(start: History, h: History, aad: seq<Byte>)
    requires start.stream == [] && start.aadDone == start.done == 0
    requires h == start.(stream := [] + aad, aadDone := |aad|)
    ensures Fed(h, start, aad, [], [])
  {
    NoPrefix(aad);
    NoHashed(Pad(aad), start.mode, []);
  }
}
