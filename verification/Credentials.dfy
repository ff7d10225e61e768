/**
 * The credential callbacks of both ends (src/edhoc_oscore.c and
 * host_client/src/client.cpp), which fill in or check a structure in place.
 */
module Credentials {
  import opened Bytes
  import opened Identifiers

  datatype Label = KidLabel | OtherLabel

  datatype EncodeType = IntegerType | ByteStringType

  /** The generated constants for one party; only a compressible kid gives a header that compiles. */
  datatype Party = Party(kid: byte, cred: bytes, publicKey: bytes) {
    predicate Valid() { KidWireInt(kid).Some? }
  }

  /** ID_CRED_x and CRED_x as the MAC computation reads them back from the structure. */
  datatype Credential = Credential(idCred: KidForm, cred: bytes, isCbor: bool)

  /** `struct edhoc_auth_creds`. */
  class AuthCreds {
    var coseLabel: Label
    var encodeType: EncodeType
    var keyIdInt: int
    const keyIdBstr: array<byte>
    var keyIdBstrLength: nat
    var cred: bytes
    var credIsCbor: bool

    ghost predicate Valid() reads this {
      1 <= keyIdBstr.Length && keyIdBstrLength <= keyIdBstr.Length
    }

    /** The kid the structure carries. */
    function Kid(): KidForm
      requires Valid()
      reads this, keyIdBstr
    {
      if encodeType.IntegerType? then Integer(keyIdInt) else ByteString(keyIdBstr[..keyIdBstrLength])
    }

    function Value(): Credential
      requires Valid()
      reads this, keyIdBstr
    {
      Credential(Kid(), cred, credIsCbor)
    }

    /** A structure as libedhoc hands it to `verify`. */
    constructor (coseLabel: Label, kid: KidForm, capacity: nat)
      requires capacity >= 1 && (kid.ByteString? ==> |kid.b| <= capacity)
      ensures Valid() && this.coseLabel == coseLabel && Kid() == kid && fresh(keyIdBstr)
    {
      this.coseLabel := coseLabel;
      encodeType := if kid.Integer? then IntegerType else ByteStringType;
      keyIdInt := if kid.Integer? then kid.n else 0;
      keyIdBstr := new byte[capacity](i => if kid.ByteString? && 0 <= i < |kid.b| then kid.b[i] else 0);
      keyIdBstrLength := if kid.ByteString? then |kid.b| else 0;
      cred := [];
      credIsCbor := false;
      new;
      assert kid.ByteString? ==> keyIdBstr[..keyIdBstrLength] == kid.b;
    }

    /** `cred_fetch`: the key import is a library call that may fail. */
    method Fetch(own: Party, importOk: bool) returns (ok: bool)
      requires Valid()
      modifies this, keyIdBstr
      ensures Valid() && ok == importOk
      ensures coseLabel == KidLabel && Value() == Credential(ByteString([own.kid]), own.cred, true)
    {
      coseLabel := KidLabel;
      cred := own.cred;
      credIsCbor := true;
      encodeType := ByteStringType;
      keyIdBstr[0] := own.kid;
      keyIdBstrLength := 1;
      assert keyIdBstr[..1] == [own.kid];
      ok := importOk;
    }

    /** `cred_verify`: accepts a kid in either form and rewrites it to the byte string. */
    method Verify(peer: Party) returns (ok: bool, publicKey: bytes)
      requires Valid() && peer.Valid()
      modifies this, keyIdBstr
      ensures Valid()
      ensures ok == Accepts(peer, old(coseLabel), old(Kid()))
      ensures ok ==> coseLabel == KidLabel && Value() == Rebuilt(peer) && publicKey == peer.publicKey
      ensures !ok ==> coseLabel == old(coseLabel) && Value() == old(Value())
    {
      publicKey := [];
      CidInvertsWireInt(peer.kid);
      if coseLabel != KidLabel {
        return false, [];
      }
      if encodeType == IntegerType {
        WireIntInvertsCid(keyIdInt);
        if keyIdInt != KidWireInt(peer.kid).value {
          return false, [];
        }
      } else {
        if keyIdBstrLength != 1 || keyIdBstr[0] != peer.kid {
          return false, [];
        }
        assert keyIdBstr[..keyIdBstrLength] == [peer.kid];
      }
      encodeType := ByteStringType;
      keyIdBstr[0] := peer.kid;
      keyIdBstrLength := 1;
      cred := peer.cred;
      credIsCbor := true;
      assert keyIdBstr[..1] == [peer.kid];
      return true, peer.publicKey;
    }
  }

  /** The wire form names the configured peer. */
  predicate Accepts(peer: Party, coseLabel: Label, wire: KidForm) {
    coseLabel.KidLabel? && Decompress(wire) == Some([peer.kid])
  }

  /** What verification leaves for the MAC computation. */
  function Rebuilt(peer: Party): Credential {
    Credential(ByteString([peer.kid]), peer.cred, true)
  }

  /**
   * Both ends agree: fetched by one party, carried in either form the protocol
   * allows, and verified by a peer configured for that party, the kid leads to
   * the very ID_CRED and credential the sender put under its own MAC.
   */
  method ExchangeByKid(own: Party, compact: bool)
    returns (sender: Credential, receiver: Credential, ok: bool, key: bytes)
    requires own.Valid()
    ensures ok && receiver == sender && key == own.publicKey
    ensures sender.idCred == ByteString([own.kid])
  {
    var mine := new AuthCreds(OtherLabel, ByteString([]), 1);
    var imported := mine.Fetch(own, true);
    sender := mine.Value();
    DecompressCompress([own.kid]);
    var theirs := new AuthCreds(KidLabel, if compact then Compress(sender.idCred.b) else sender.idCred, 1);
    ok, key := theirs.Verify(own);
    receiver := theirs.Value();
  }

  /** One kid, one name on the wire: no other wire form of the same kind is accepted. */
  lemma AcceptedFormsAreTwo(peer: Party, wire: KidForm)
    requires peer.Valid()
    ensures Accepts(peer, KidLabel, wire) <==> wire == ByteString([peer.kid]) || wire == Compress([peer.kid])
  {
    CidInvertsWireInt(peer.kid);
    if wire.Integer? { WireIntInvertsCid(wire.n); }
  }
}
