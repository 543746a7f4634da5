/** The primitives of the handshake, the transcripts it signs and the root key it derives. */
module HandshakeCrypto {
  import opened ByteCodec
  import opened HandshakeTypes

  /** Any implementation of the primitives; private keys and secrets are their 32 bytes. */
  datatype Suite = Suite(
    verifyingKey: Bytes32 -> Bytes32,
    sign: (Bytes32, Bytes) -> Bytes64,
    verify: (Bytes32, Bytes, Bytes64) -> bool,
    validPoint: Bytes32 -> bool,
    x25519Public: Bytes32 -> Bytes32,
    x25519: (Bytes32, Bytes32) -> Bytes32,
    hkdf: (Bytes, Bytes, Bytes) -> Bytes32)

  /** Signatures verify under their own key (section 5.1 of RFC 8032), whose encoding is a curve
      point, and Diffie-Hellman commutes (section 6.1 of RFC 7748). */
  ghost predicate Lawful(c: Suite) {
    && (forall k, m :: c.verify(c.verifyingKey(k), m, c.sign(k, m)))
    && (forall k :: c.validPoint(c.verifyingKey(k)))
    && (forall a, b :: c.x25519(a, c.x25519Public(b)) == c.x25519(b, c.x25519Public(a)))
  }

  function InitTranscript(initiator: Bytes32, responder: Bytes32, ephemeral: Bytes32, nonce: Bytes16): (t: Bytes)
    ensures |t| == 22 + 3 * 32 + 16
  {
    Ascii("decoypath-v1-init-sig:") + initiator + responder + ephemeral + nonce
  }

  function ResponseTranscript(responder: Bytes32, initiator: Bytes32, responderEphemeral: Bytes32,
                              initiatorEphemeral: Bytes32, responderNonce: Bytes16, initiatorNonce: Bytes16): (t: Bytes)
    ensures |t| == 22 + 4 * 32 + 2 * 16
  {
    Ascii("decoypath-v1-resp-sig:") + responder + initiator + responderEphemeral + initiatorEphemeral
    + responderNonce + initiatorNonce
  }

  function SignInitiation(c: Suite, identity: Bytes32, responder: Bytes32, ephemeral: Bytes32, nonce: Bytes16): Bytes64 {
    c.sign(identity, InitTranscript(c.verifyingKey(identity), responder, ephemeral, nonce))
  }

  function SignResponse(c: Suite, identity: Bytes32, initiator: Bytes32, responderEphemeral: Bytes32,
                        initiatorEphemeral: Bytes32, responderNonce: Bytes16, initiatorNonce: Bytes16): Bytes64 {
    c.sign(identity, ResponseTranscript(c.verifyingKey(identity), initiator, responderEphemeral,
                                        initiatorEphemeral, responderNonce, initiatorNonce))
  }

  function RootSalt(initiatorNonce: Bytes16, responderNonce: Bytes16): Bytes {
    initiatorNonce + responderNonce
  }

  function RootInfo(initiator: Bytes32, responder: Bytes32, initiatorEphemeral: Bytes32, responderEphemeral: Bytes32): Bytes {
    Ascii("decoypath-v1-transcript-binding:") + initiator + responder + initiatorEphemeral + responderEphemeral
  }

  function DeriveRootKey(c: Suite, dh: Bytes32, initiator: Bytes32, responder: Bytes32, initiatorEphemeral: Bytes32,
                         responderEphemeral: Bytes32, initiatorNonce: Bytes16, responderNonce: Bytes16): Bytes32 {
    c.hkdf(RootSalt(initiatorNonce, responderNonce), dh,
           RootInfo(initiator, responder, initiatorEphemeral, responderEphemeral))
  }

  // ------------------------------------------------------------------ the encodings are injective

  lemma SlicesOfResponseTranscript(a: Bytes32, b: Bytes32, d: Bytes32, e: Bytes32, f: Bytes16, g: Bytes16)
    ensures var t := ResponseTranscript(a, b, d, e, f, g);
            && t[22..54] == a && t[54..86] == b && t[86..118] == d && t[118..150] == e
            && t[150..166] == f && t[166..182] == g
  {
  }

  lemma SlicesOfInitTranscript(a: Bytes32, b: Bytes32, d: Bytes32, f: Bytes16)
    ensures var t := InitTranscript(a, b, d, f);
            t[22..54] == a && t[54..86] == b && t[86..118] == d && t[118..134] == f
  {
  }

  lemma SlicesOfRootInfo(a: Bytes32, b: Bytes32, d: Bytes32, e: Bytes32)
    ensures var t := RootInfo(a, b, d, e);
            t[32..64] == a && t[64..96] == b && t[96..128] == d && t[128..160] == e
  {
  }

  lemma InitTranscriptInjective(a: Bytes32, b: Bytes32, d: Bytes32, f: Bytes16,
                                a': Bytes32, b': Bytes32, d': Bytes32, f': Bytes16)
    ensures InitTranscript(a, b, d, f) == InitTranscript(a', b', d', f')
       <==> a == a' && b == b' && d == d' && f == f'
  {
    SlicesOfInitTranscript(a, b, d, f);
    SlicesOfInitTranscript(a', b', d', f');
  }

  lemma ResponseTranscriptInjective(a: Bytes32, b: Bytes32, d: Bytes32, e: Bytes32, f: Bytes16, g: Bytes16,
                                    a': Bytes32, b': Bytes32, d': Bytes32, e': Bytes32, f': Bytes16, g': Bytes16)
    ensures ResponseTranscript(a, b, d, e, f, g) == ResponseTranscript(a', b', d', e', f', g')
       <==> a == a' && b == b' && d == d' && e == e' && f == f' && g == g'
  {
    SlicesOfResponseTranscript(a, b, d, e, f, g);
    SlicesOfResponseTranscript(a', b', d', e', f', g');
  }

  /** The tags alone tell the two transcripts apart: neither begins like the other. */
  lemma TranscriptsNeverCoincide(a: Bytes32, b: Bytes32, d: Bytes32, f: Bytes16, more: Bytes,
                                 a': Bytes32, b': Bytes32, d': Bytes32, e': Bytes32, f': Bytes16, g': Bytes16)
    ensures InitTranscript(a, b, d, f) + more != ResponseTranscript(a', b', d', e', f', g')
    ensures InitTranscript(a, b, d, f) != ResponseTranscript(a', b', d', e', f', g')
  {
    assert (InitTranscript(a, b, d, f) + more)[13] == 'i' as int;
    assert ResponseTranscript(a', b', d', e', f', g')[13] == 'r' as int;
  }

  /** Salt and info of the root key determine both identities, both ephemeral keys and both nonces. */
  lemma RootInputsInjective(a: Bytes32, b: Bytes32, d: Bytes32, e: Bytes32, f: Bytes16, g: Bytes16,
                            a': Bytes32, b': Bytes32, d': Bytes32, e': Bytes32, f': Bytes16, g': Bytes16)
    ensures RootSalt(f, g) == RootSalt(f', g') && RootInfo(a, b, d, e) == RootInfo(a', b', d', e')
       <==> a == a' && b == b' && d == d' && e == e' && f == f' && g == g'
  {
    SlicesOfRootInfo(a, b, d, e);
    SlicesOfRootInfo(a', b', d', e');
    assert RootSalt(f, g)[..16] == f && RootSalt(f, g)[16..] == g;
    assert RootSalt(f', g')[..16] == f' && RootSalt(f', g')[16..] == g';
  }
}
