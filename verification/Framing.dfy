/**
 * The transport framing of EDHOC messages over CoAP: CBOR `true` before
 * message_1, C_R before message_3 (Appendix A.2 of RFC 9528).  The device side
 * is src/edhoc_oscore.c, the client side host_client/src/client.cpp.
 */
module Framing {
  import opened Bytes
  import opened Cbor
  import opened EdhocSession
  import opened Identifiers

  const CBOR_TRUE: byte := 0xf5

  /** The device side (406-428): `None` is the -EINVAL return. */
  function Strip(payload: bytes): Option<Frame<bytes>> {
    if payload == [] then None
    else if payload[0] == CBOR_TRUE then Some(Message1(payload[1..]))
    else
      var skip := CborItemLen(payload);
      if skip == 0 || skip >= |payload| then None else Some(Message3(payload[skip..]))
  }

  /** The client side (376-377 and 394-395). */
  function Framed(f: Frame<bytes>, cR: int): bytes {
    match f
    case Message1(m) => [CBOR_TRUE] + m
    case Message3(m) => [CidToCbor(cR)] + m
  }

  /** Stripping the client's frame gives back the kind and exactly the message. */
  lemma FramingRoundTrip(f: Frame<bytes>, cR: Cid)
    ensures Strip(Framed(f, cR)) == (if f == Message3([]) then None else Some(f))
  {
    var p := Framed(f, cR);
    assert p[1..] == f.msg;
    if f.Message3? {
      OneByteItem(cR);
      assert CborItemLen(p) == 1;
    }
  }

  /** The byte of a C_R is an integer in itself, and never `true`. */
  lemma OneByteItem(cR: Cid)
    ensures CidToCbor(cR) % 32 < 24 && CidToCbor(cR) / 32 <= 1
  {
    CidByte(cR);
  }

  /**
   * The client's prefixes are those of Appendix A.2 of RFC 9528, in the encoding
   * of RFC 8949: the simple value `true`, and C_R as an integer.
   */
  lemma PrefixIsCbor(m: bytes, cR: Cid)
    ensures var trueItem, id := Simple(Direct, 21), Int(cR < 0, Direct, if cR < 0 then -1 - cR else cR);
            && WellFormed(trueItem) && Framed(Message1(m), cR) == Encode(trueItem) + m
            && WellFormed(id) && Framed(Message3(m), cR) == Encode(id) + m
  {
    OneByteHead(7, 21);
    OneByteHead(if cR < 0 then 1 else 0, if cR < 0 then -1 - cR else cR);
    CidByte(cR);
  }

  lemma OneByteHead(major: Major, n: nat)
    requires n < 24
    ensures Head(major, Direct, n) == [major * 32 + n]
  {
  }

  lemma CidByte(cR: Cid)
    ensures CidToCbor(cR) == if cR >= 0 then cR else 0x1f - cR
  {
  }

  /** Under one C_R, a payload has only one reading. */
  lemma FramingUnambiguous(f: Frame<bytes>, f': Frame<bytes>, cR: Cid)
    requires Framed(f, cR) == Framed(f', cR)
    ensures f == f'
  {
    assert Framed(f, cR)[0] == Framed(f', cR)[0];
    assert Framed(f, cR)[1..] == f.msg && Framed(f', cR)[1..] == f'.msg;
  }

  /**
   * The device does not insist on a one-byte C_R.  For a peer that prefixes any
   * CBOR item other than `true`, stripping succeeds exactly when the item's
   * length shows in its first bytes.
   */
  lemma StripsItemPrefix(it: Item, m: bytes)
    requires WellFormed(it) && m != [] && Encode(it)[0] != CBOR_TRUE
    ensures Strip(Encode(it) + m) == Some(Message3(m)) <==> LengthInFirstBytes(it)
  {
    ItemLenExact(it, m);
    var p := Encode(it) + m;
    assert p[0] == Encode(it)[0];
    assert p[|Encode(it)|..] == m;
    if Strip(p) == Some(Message3(m)) {
      assert |p[CborItemLen(p)..]| == |m|;
    }
  }

  /** A prefix cut short is refused, and so is one with no message behind it. */
  lemma TruncatedRefused(it: Item, k: nat)
    requires WellFormed(it) && LengthInFirstBytes(it) && Encode(it)[0] != CBOR_TRUE && k <= |Encode(it)|
    ensures Strip(Encode(it)[..k]).None?
  {
    ItemLenExact(it, []);
    assert Encode(it) + [] == Encode(it);
    if k > 0 {
      ItemLenOfShorter(Encode(it), k);
      assert Encode(it)[..k][0] == Encode(it)[0];
    }
  }

  /** Every accepted payload splits into a self-measuring prefix and the message. */
  lemma AcceptedSplit(payload: bytes)
    requires Strip(payload).Some?
    ensures var f := Strip(payload).value;
            exists prefix :: payload == prefix + f.msg
              && (f.Message1? <==> prefix == [CBOR_TRUE])
              && CborItemLen(prefix) == |prefix|
              && (f.Message3? ==> f.msg != [])
  {
    var f := Strip(payload).value;
    var n := if f.Message1? then 1 else CborItemLen(payload);
    var prefix := payload[..n];
    assert payload == prefix + f.msg;
    if f.Message3? {
      ItemLenOfPrefix(payload);
      assert prefix[0] == payload[0];
    }
  }

  // ---- from messages to bytes ----

  /** How libedhoc writes the messages it composes and reads those it is given. */
  datatype Codec<!M> = Codec(enc: M -> bytes, dec: bytes -> M)

  ghost predicate Faithful<M(!new)>(codec: Codec<M>) {
    forall m :: codec.enc(m) != [] && codec.dec(codec.enc(m)) == m
  }

  /** A library on messages, made to work on bytes. */
  function OnBytes<C, M>(lib: EdhocLib<C, M>, codec: Codec<M>): EdhocLib<C, bytes> {
    EdhocLib(
      lib.setupOk,
      lib.setupCtx,
      (c: C, b: bytes) => lib.process1(c, codec.dec(b)),
      (c: C) => var (ok, c', m) := lib.compose2(c); (ok, c', codec.enc(m)),
      (c: C, b: bytes) => lib.process3(c, codec.dec(b)),
      (c: C) => var (ok, c', m) := lib.compose4(c); (ok, c', codec.enc(m)),
      lib.exportKeys,
      lib.initOk,
      lib.brokenOsc,
      lib.deinit)
  }

  function EncodeFrame<M>(f: Frame<M>, codec: Codec<M>): Frame<bytes> {
    match f case Message1(m) => Message1(codec.enc(m)) case Message3(m) => Message3(codec.enc(m))
  }

  function DecodeFrame<M>(f: Frame<bytes>, codec: Codec<M>): Frame<M> {
    match f case Message1(b) => Message1(codec.dec(b)) case Message3(b) => Message3(codec.dec(b))
  }

  /**
   * On any frame of bytes, well encoded or not, the device does what the session
   * machine does on the messages that libedhoc reads them as.
   */
  lemma FrameOfBytes<C, M>(s: Session<C>, f: Frame<bytes>, lib: EdhocLib<C, M>, codec: Codec<M>)
    ensures var o, o' := OnFrame(s, DecodeFrame(f, codec), lib), OnFrame(s, f, OnBytes(lib, codec));
            && o'.next == o.next && o'.calls == o.calls
            && o'.reply == if o.reply.Some? then Some(codec.enc(o.reply.value)) else None
  {
  }

  /**
   * The device on bytes does what the session machine does on messages: the
   * client frames an encoded message, the device strips the frame, and its new
   * state, its library calls and, decoded, its answer are those of the machine.
   */
  lemma BytesRefineMessages<C, M(!new)>(s: Session<C>, f: Frame<M>, cR: Cid, lib: EdhocLib<C, M>, codec: Codec<M>)
    requires Faithful(codec)
    ensures var b := EncodeFrame(f, codec);
            var o, o' := OnFrame(s, f, lib), OnFrame(s, b, OnBytes(lib, codec));
            && Strip(Framed(b, cR)) == Some(b)
            && o'.next == o.next && o'.calls == o.calls
            && (if o'.reply.Some? then o.reply == Some(codec.dec(o'.reply.value)) else o.reply.None?)
  {
    FramingRoundTrip(EncodeFrame(f, codec), cR);
    DecodeEncode(f, codec);
    FrameOfBytes(s, EncodeFrame(f, codec), lib, codec);
  }

  lemma DecodeEncode<M(!new)>(f: Frame<M>, codec: Codec<M>)
    requires Faithful(codec)
    ensures DecodeFrame(EncodeFrame(f, codec), codec) == f
  {
    assert codec.dec(codec.enc(f.msg)) == f.msg;
  }
}
