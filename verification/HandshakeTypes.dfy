/** The two handshake messages and their fixed 144-byte wire form. */
module HandshakeTypes {
  import opened ByteCodec
  import opened Wrappers

  type Bytes16 = b: Bytes | |b| == 16 witness seq(16, _ => 0)
  type Bytes32 = b: Bytes | |b| == 32 witness seq(32, _ => 0)
  type Bytes64 = b: Bytes | |b| == 64 witness seq(64, _ => 0)

  datatype HandshakeError = InvalidSignature | PeerIdentityMismatch | InvalidPayloadFormat

  const INIT_PAYLOAD_LEN: nat := 144
  const RESP_PAYLOAD_LEN: nat := 144

  datatype HandshakeInitPayload = HandshakeInitPayload(
    initiatorIdentityPub: Bytes32,
    initiatorEphemeralPub: Bytes32,
    nonce: Bytes16,
    signature: Bytes64)

  datatype HandshakeResponsePayload = HandshakeResponsePayload(
    responderIdentityPub: Bytes32,
    responderEphemeralPub: Bytes32,
    nonce: Bytes16,
    signature: Bytes64)

  // ------------------------------------------------------------------ the four fields on the wire

  function Fields(identity: Bytes32, ephemeral: Bytes32, nonce: Bytes16, signature: Bytes64): (b: Bytes)
    ensures |b| == 144
  {
    identity + ephemeral + nonce + signature
  }

  method WriteFields(identity: Bytes32, ephemeral: Bytes32, nonce: Bytes16, signature: Bytes64)
    returns (out: array<byte>)
    ensures fresh(out) && out[..] == Fields(identity, ephemeral, nonce, signature)
  {
    out := new byte[144](_ => 0);
    CopyInto(out, 0, identity);
    CopyInto(out, 32, ephemeral);
    assert out[..64] == identity + ephemeral;
    CopyInto(out, 64, nonce);
    CopyInto(out, 80, signature);
  }

  lemma FieldsSplit(identity: Bytes32, ephemeral: Bytes32, nonce: Bytes16, signature: Bytes64)
    ensures var b := Fields(identity, ephemeral, nonce, signature);
            b[0..32] == identity && b[32..64] == ephemeral && b[64..80] == nonce && b[80..144] == signature
  {
  }

  function InitBytes(p: HandshakeInitPayload): Bytes {
    Fields(p.initiatorIdentityPub, p.initiatorEphemeralPub, p.nonce, p.signature)
  }

  function ResponseBytes(p: HandshakeResponsePayload): Bytes {
    Fields(p.responderIdentityPub, p.responderEphemeralPub, p.nonce, p.signature)
  }

  method InitToBytes(p: HandshakeInitPayload) returns (out: array<byte>)
    ensures fresh(out) && out[..] == InitBytes(p)
  {
    out := WriteFields(p.initiatorIdentityPub, p.initiatorEphemeralPub, p.nonce, p.signature);
  }

  method ResponseToBytes(p: HandshakeResponsePayload) returns (out: array<byte>)
    ensures fresh(out) && out[..] == ResponseBytes(p)
  {
    out := WriteFields(p.responderIdentityPub, p.responderEphemeralPub, p.nonce, p.signature);
  }

  /** `validPoint` says which 32 bytes Ed25519 accepts as a public key. */
  function InitFromBytes(validPoint: Bytes32 -> bool, bytes: Bytes): Result<HandshakeInitPayload, HandshakeError> {
    if |bytes| != INIT_PAYLOAD_LEN then Err(InvalidPayloadFormat)
    else if !validPoint(bytes[0..32]) then Err(InvalidPayloadFormat)
    else Ok(HandshakeInitPayload(bytes[0..32], bytes[32..64], bytes[64..80], bytes[80..144]))
  }

  function ResponseFromBytes(validPoint: Bytes32 -> bool, bytes: Bytes)
    : Result<HandshakeResponsePayload, HandshakeError>
  {
    if |bytes| != RESP_PAYLOAD_LEN then Err(InvalidPayloadFormat)
    else if !validPoint(bytes[0..32]) then Err(InvalidPayloadFormat)
    else Ok(HandshakeResponsePayload(bytes[0..32], bytes[32..64], bytes[64..80], bytes[80..144]))
  }

  /** The 144 bytes of an initiation, field by field. */
  lemma InitLayout(p: HandshakeInitPayload)
    ensures var b := InitBytes(p);
            && |b| == 144 && b[0..32] == p.initiatorIdentityPub && b[32..64] == p.initiatorEphemeralPub
            && b[64..80] == p.nonce && b[80..144] == p.signature
  {
    FieldsSplit(p.initiatorIdentityPub, p.initiatorEphemeralPub, p.nonce, p.signature);
  }

  /** The 144 bytes of a response, field by field. */
  lemma ResponseLayout(p: HandshakeResponsePayload)
    ensures var b := ResponseBytes(p);
            && |b| == 144 && b[0..32] == p.responderIdentityPub && b[32..64] == p.responderEphemeralPub
            && b[64..80] == p.nonce && b[80..144] == p.signature
  {
    FieldsSplit(p.responderIdentityPub, p.responderEphemeralPub, p.nonce, p.signature);
  }

  /** Both codecs round-trip in both directions; decoding refuses exactly the wrong lengths and the
      encodings whose identity is no curve point. */
  lemma InitRoundTrip(validPoint: Bytes32 -> bool, p: HandshakeInitPayload, bytes: Bytes)
    ensures InitFromBytes(validPoint, InitBytes(p))
         == if validPoint(p.initiatorIdentityPub) then Ok(p) else Err(InvalidPayloadFormat)
    ensures match InitFromBytes(validPoint, bytes)
            case Ok(q) => InitBytes(q) == bytes
            case Err(e) => e == InvalidPayloadFormat && (|bytes| != 144 || !validPoint(bytes[..32]))
  {
    FieldsSplit(p.initiatorIdentityPub, p.initiatorEphemeralPub, p.nonce, p.signature);
    if |bytes| == 144 {
      assert bytes == bytes[0..32] + bytes[32..64] + bytes[64..80] + bytes[80..144];
      assert bytes[..32] == bytes[0..32];
    }
  }

  lemma ResponseRoundTrip(validPoint: Bytes32 -> bool, p: HandshakeResponsePayload, bytes: Bytes)
    ensures ResponseFromBytes(validPoint, ResponseBytes(p))
         == if validPoint(p.responderIdentityPub) then Ok(p) else Err(InvalidPayloadFormat)
    ensures match ResponseFromBytes(validPoint, bytes)
            case Ok(q) => ResponseBytes(q) == bytes
            case Err(e) => e == InvalidPayloadFormat && (|bytes| != 144 || !validPoint(bytes[..32]))
  {
    FieldsSplit(p.responderIdentityPub, p.responderEphemeralPub, p.nonce, p.signature);
    if |bytes| == 144 {
      assert bytes == bytes[0..32] + bytes[32..64] + bytes[64..80] + bytes[80..144];
      assert bytes[..32] == bytes[0..32];
    }
  }
}
