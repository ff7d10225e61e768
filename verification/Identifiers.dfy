/**
 * One-byte identifiers: connection identifiers and kids whose value is a
 * one-byte CBOR integer (section 3.3.2 of RFC 9528).
 */
module Identifiers {
  import opened Bytes

  /** The integers with a one-byte CBOR encoding. */
  type Cid = v: int | -24 <= v <= 23

  /** `cid_to_cbor` (host_client/src/client.cpp): the conversion to `uint8_t` keeps the low eight bits. */
  function CidToCbor(v: int): byte {
    if v >= 0 then v % 256 else (0x20 + (-v) - 1) % 256
  }

  /** `kid_wire_int` (scripts/edhoc_keys.py) on the kid's single byte. */
  function KidWireInt(v: byte): Option<int> {
    if v <= 0x17 then Some(v)
    else if 0x20 <= v <= 0x37 then Some(-1 - (v - 0x20))
    else None
  }

  /**
   * The two scripts' conversions are inverse to each other on exactly the
   * one-byte integers: the C++ encoder outside that range produces a byte that
   * does not stand for its argument.
   */
  lemma WireIntInvertsCid(v: int)
    ensures KidWireInt(CidToCbor(v)) == Some(v) <==> -24 <= v <= 23
  {
    if v >= 0 {
      assert CidToCbor(v) == v % 256;
      assert v < 256 ==> v % 256 == v;
    } else {
      assert CidToCbor(v) == (0x1f - v) % 256;
      assert v >= -24 ==> (0x1f - v) % 256 == 0x1f - v;
    }
  }

  lemma CidInvertsWireInt(b: byte)
    ensures KidWireInt(b).Some? ==> -24 <= KidWireInt(b).value <= 23 && CidToCbor(KidWireInt(b).value) == b
  {
  }

  // ---- ID_CRED_x by kid ----

  /** A kid as an EDHOC message or a credential structure carries it. */
  datatype KidForm = Integer(n: int) | ByteString(b: bytes)

  /** Compact transport of a kid (section 3.5.3.2 of RFC 9528). */
  function Compress(kid: bytes): KidForm {
    if |kid| == 1 && KidWireInt(kid[0]).Some? then Integer(KidWireInt(kid[0]).value) else ByteString(kid)
  }

  /** The kid a wire form stands for. */
  function Decompress(w: KidForm): Option<bytes> {
    match w
    case Integer(n) => if -24 <= n <= 23 then Some([CidToCbor(n)]) else None
    case ByteString(b) => Some(b)
  }

  lemma DecompressCompress(kid: bytes)
    ensures Decompress(Compress(kid)) == Some(kid)
  {
    if |kid| == 1 {
      CidInvertsWireInt(kid[0]);
      assert kid == [kid[0]];
    }
  }
}
