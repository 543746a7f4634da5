/** The two-pass handshake that gives both ends the same root key. */
module Handshake {
  import opened ByteCodec
  import opened HandshakeCrypto
  import opened HandshakeTypes
  import opened Wrappers

  datatype InitiatorState = InitiatorState(
    identityPub: Bytes32,
    expectedResponderPub: Bytes32,
    ephemeralSecret: Bytes32,
    ephemeralPub: Bytes32,
    nonce: Bytes16)

  /** Pass 1; the ephemeral secret and the nonce are what the generator drew. */
  function Initiate(c: Suite, identity: Bytes32, expectedResponderPub: Bytes32, ephemeral: Bytes32, nonce: Bytes16)
    : (InitiatorState, HandshakeInitPayload)
  {
    var identityPub := c.verifyingKey(identity);
    var ephemeralPub := c.x25519Public(ephemeral);
    var signature := SignInitiation(c, identity, expectedResponderPub, ephemeralPub, nonce);
    (InitiatorState(identityPub, expectedResponderPub, ephemeral, ephemeralPub, nonce),
     HandshakeInitPayload(identityPub, ephemeralPub, nonce, signature))
  }

  /** Pass 2. */
  function Respond(c: Suite, identity: Bytes32, expectedInitiatorPub: Option<Bytes32>,
                   initiation: HandshakeInitPayload, ephemeral: Bytes32, nonce: Bytes16)
    : Result<(HandshakeResponsePayload, Bytes32), HandshakeError>
  {
    var responderPub := c.verifyingKey(identity);
    if expectedInitiatorPub.Some? && initiation.initiatorIdentityPub != expectedInitiatorPub.value then
      Err(PeerIdentityMismatch)
    else if !c.verify(initiation.initiatorIdentityPub,
                      InitTranscript(initiation.initiatorIdentityPub, responderPub,
                                     initiation.initiatorEphemeralPub, initiation.nonce),
                      initiation.signature) then
      Err(InvalidSignature)
    else
      var ephemeralPub := c.x25519Public(ephemeral);
      var signature := SignResponse(c, identity, initiation.initiatorIdentityPub, ephemeralPub,
                                    initiation.initiatorEphemeralPub, nonce, initiation.nonce);
      var dh := c.x25519(ephemeral, initiation.initiatorEphemeralPub);
      Ok((HandshakeResponsePayload(responderPub, ephemeralPub, nonce, signature),
          DeriveRootKey(c, dh, initiation.initiatorIdentityPub, responderPub, initiation.initiatorEphemeralPub,
                        ephemeralPub, initiation.nonce, nonce)))
  }

  /** The transcript whose signature `Finalize` checks. */
  function CheckedTranscript(st: InitiatorState, response: HandshakeResponsePayload): Bytes {
    ResponseTranscript(st.expectedResponderPub, st.identityPub, response.responderEphemeralPub, st.ephemeralPub,
                       response.nonce, st.nonce)
  }

  /** The initiator's end of pass 2. */
  function Finalize(c: Suite, st: InitiatorState, response: HandshakeResponsePayload): Result<Bytes32, HandshakeError> {
    if response.responderIdentityPub != st.expectedResponderPub then Err(PeerIdentityMismatch)
    else if !c.verify(st.expectedResponderPub, CheckedTranscript(st, response), response.signature) then
      Err(InvalidSignature)
    else
      var dh := c.x25519(st.ephemeralSecret, response.responderEphemeralPub);
      Ok(DeriveRootKey(c, dh, st.identityPub, st.expectedResponderPub, st.ephemeralPub,
                       response.responderEphemeralPub, st.nonce, response.nonce))
  }

  // ------------------------------------------------------------------ the answers in full

  /** The bytes an initiation is signed over. */
  lemma InitiationBytes(initiator: Bytes32, responder: Bytes32, ephemeral: Bytes32, nonce: Bytes16)
    ensures InitTranscript(initiator, responder, ephemeral, nonce)
         == [100, 101, 99, 111, 121, 112, 97, 116, 104, 45, 118, 49, 45, 105, 110, 105, 116, 45, 115, 105, 103, 58]
            + initiator + responder + ephemeral + nonce
  {
    assert Ascii("decoypath-v1-init-sig:")
        == [100, 101, 99, 111, 121, 112, 97, 116, 104, 45, 118, 49, 45, 105, 110, 105, 116, 45, 115, 105, 103, 58];
  }

  /** The bytes a response is signed over. */
  lemma ResponseMessageBytes(responder: Bytes32, initiator: Bytes32, responderEphemeral: Bytes32,
                             initiatorEphemeral: Bytes32, responderNonce: Bytes16, initiatorNonce: Bytes16)
    ensures ResponseTranscript(responder, initiator, responderEphemeral, initiatorEphemeral, responderNonce, initiatorNonce)
         == [100, 101, 99, 111, 121, 112, 97, 116, 104, 45, 118, 49, 45, 114, 101, 115, 112, 45, 115, 105, 103, 58]
            + responder + initiator + responderEphemeral + initiatorEphemeral + responderNonce + initiatorNonce
  {
    assert Ascii("decoypath-v1-resp-sig:")
        == [100, 101, 99, 111, 121, 112, 97, 116, 104, 45, 118, 49, 45, 114, 101, 115, 112, 45, 115, 105, 103, 58];
  }

  /** The state and the message carry what was drawn; the signature is over the four fields. */
  lemma InitiateExactly(c: Suite, identity: Bytes32, responder: Bytes32, ephemeral: Bytes32, nonce: Bytes16)
    ensures var (st, init) := Initiate(c, identity, responder, ephemeral, nonce);
            var self, public := c.verifyingKey(identity), c.x25519Public(ephemeral);
            && st == InitiatorState(self, responder, ephemeral, public, nonce)
            && init.initiatorIdentityPub == self && init.initiatorEphemeralPub == public && init.nonce == nonce
            && init.signature == c.sign(identity, Ascii("decoypath-v1-init-sig:") + self + responder + public + nonce)
  {
  }

  /** When `respond` refuses, and why: an initiator other than the expected one, then a signature that
      does not verify under the initiator's key on the initiation. */
  lemma RespondRefusesExactly(c: Suite, identity: Bytes32, expected: Option<Bytes32>, init: HandshakeInitPayload,
                              ephemeral: Bytes32, nonce: Bytes16)
    ensures var r := Respond(c, identity, expected, init, ephemeral, nonce);
            var unexpected := expected.Some? && init.initiatorIdentityPub != expected.value;
            var signed := c.verify(init.initiatorIdentityPub,
                                   Ascii("decoypath-v1-init-sig:") + init.initiatorIdentityPub + c.verifyingKey(identity)
                                   + init.initiatorEphemeralPub + init.nonce, init.signature);
            && (r == Err(PeerIdentityMismatch) <==> unexpected)
            && (r == Err(InvalidSignature) <==> !unexpected && !signed)
            && (r.Ok? <==> !unexpected && signed)
  {
  }

  /** What `respond` answers when it accepts: its own identity and draws, signed with the six session
      parameters, and the root key: HKDF with both nonces as salt, the Diffie-Hellman secret as input
      and tag, identities and ephemeral keys as info. */
  lemma RespondAnswersExactly(c: Suite, identity: Bytes32, expected: Option<Bytes32>, init: HandshakeInitPayload,
                              ephemeral: Bytes32, nonce: Bytes16)
    requires Respond(c, identity, expected, init, ephemeral, nonce).Ok?
    ensures var (response, rootKey) := Respond(c, identity, expected, init, ephemeral, nonce).value;
            var self, public := c.verifyingKey(identity), c.x25519Public(ephemeral);
            && response.responderIdentityPub == self && response.responderEphemeralPub == public
            && response.nonce == nonce
            && response.signature == c.sign(identity, Ascii("decoypath-v1-resp-sig:") + self + init.initiatorIdentityPub
                                                      + public + init.initiatorEphemeralPub + nonce + init.nonce)
            && rootKey == c.hkdf(init.nonce + nonce, c.x25519(ephemeral, init.initiatorEphemeralPub),
                                 Ascii("decoypath-v1-transcript-binding:") + init.initiatorIdentityPub + self
                                 + init.initiatorEphemeralPub + public)
  {
  }

  /** When `finalize` refuses, and why: a responder other than the expected one, then a signature that
      does not verify under the expected key on the session. */
  lemma FinalizeRefusesExactly(c: Suite, st: InitiatorState, response: HandshakeResponsePayload)
    ensures var r := Finalize(c, st, response);
            var unexpected := response.responderIdentityPub != st.expectedResponderPub;
            var signed := c.verify(st.expectedResponderPub,
                                   Ascii("decoypath-v1-resp-sig:") + st.expectedResponderPub + st.identityPub
                                   + response.responderEphemeralPub + st.ephemeralPub + response.nonce + st.nonce,
                                   response.signature);
            && (r == Err(PeerIdentityMismatch) <==> unexpected)
            && (r == Err(InvalidSignature) <==> !unexpected && !signed)
            && (r.Ok? <==> !unexpected && signed)
  {
  }

  /** The root key that `finalize` answers. */
  lemma FinalizeAnswersExactly(c: Suite, st: InitiatorState, response: HandshakeResponsePayload)
    requires Finalize(c, st, response).Ok?
    ensures Finalize(c, st, response).value
         == c.hkdf(st.nonce + response.nonce, c.x25519(st.ephemeralSecret, response.responderEphemeralPub),
                   Ascii("decoypath-v1-transcript-binding:") + st.identityPub + st.expectedResponderPub
                   + st.ephemeralPub + response.responderEphemeralPub)
  {
  }

  lemma BindingTagBytes()
    ensures Ascii("decoypath-v1-transcript-binding:")
         == [100, 101, 99, 111, 121, 112, 97, 116, 104, 45, 118, 49, 45, 116, 114, 97, 110, 115, 99, 114, 105, 112, 116,
             45, 98, 105, 110, 100, 105, 110, 103, 58]
  {
  }

  // ------------------------------------------------------------------ what a root key depends on

  /** All that a root key is bound to. */
  datatype Binding = Binding(secret: Bytes32, initiator: Bytes32, responder: Bytes32, initiatorEphemeral: Bytes32,
                             responderEphemeral: Bytes32, initiatorNonce: Bytes16, responderNonce: Bytes16)

  /** HKDF does not give the keys of these two bindings the same value by collision. */
  ghost predicate NoCollision(c: Suite, a: Binding, b: Binding) {
    var saltA, saltB := a.initiatorNonce + a.responderNonce, b.initiatorNonce + b.responderNonce;
    var tag := Ascii("decoypath-v1-transcript-binding:");
    var infoA := tag + a.initiator + a.responder + a.initiatorEphemeral + a.responderEphemeral;
    var infoB := tag + b.initiator + b.responder + b.initiatorEphemeral + b.responderEphemeral;
    c.hkdf(saltA, a.secret, infoA) == c.hkdf(saltB, b.secret, infoB) ==>
      saltA == saltB && a.secret == b.secret && infoA == infoB
  }

  function FinalizeBinding(c: Suite, st: InitiatorState, response: HandshakeResponsePayload): Binding {
    Binding(c.x25519(st.ephemeralSecret, response.responderEphemeralPub), st.identityPub, st.expectedResponderPub,
            st.ephemeralPub, response.responderEphemeralPub, st.nonce, response.nonce)
  }

  function RespondBinding(c: Suite, identity: Bytes32, init: HandshakeInitPayload, ephemeral: Bytes32, nonce: Bytes16)
    : Binding
  {
    Binding(c.x25519(ephemeral, init.initiatorEphemeralPub), init.initiatorIdentityPub, c.verifyingKey(identity),
            init.initiatorEphemeralPub, c.x25519Public(ephemeral), init.nonce, nonce)
  }

  lemma BoundKeysDiffer(c: Suite, a: Binding, b: Binding)
    requires NoCollision(c, a, b)
    ensures DeriveRootKey(c, a.secret, a.initiator, a.responder, a.initiatorEphemeral, a.responderEphemeral,
                          a.initiatorNonce, a.responderNonce)
         == DeriveRootKey(c, b.secret, b.initiator, b.responder, b.initiatorEphemeral, b.responderEphemeral,
                          b.initiatorNonce, b.responderNonce)
       <==> a == b
  {
    RootInputsInjective(a.initiator, a.responder, a.initiatorEphemeral, a.responderEphemeral,
                        a.initiatorNonce, a.responderNonce,
                        b.initiator, b.responder, b.initiatorEphemeral, b.responderEphemeral,
                        b.initiatorNonce, b.responderNonce);
  }

  /** Two accepted runs of `finalize` give one key exactly when they agree on the Diffie-Hellman secret,
      both identities, both ephemeral keys and both nonces. */
  lemma FinalizeKeysEqualExactly(c: Suite, st: InitiatorState, response: HandshakeResponsePayload,
                                 st': InitiatorState, response': HandshakeResponsePayload)
    requires Finalize(c, st, response).Ok? && Finalize(c, st', response').Ok?
    requires NoCollision(c, FinalizeBinding(c, st, response), FinalizeBinding(c, st', response'))
    ensures Finalize(c, st, response).value == Finalize(c, st', response').value
       <==> && c.x25519(st.ephemeralSecret, response.responderEphemeralPub)
               == c.x25519(st'.ephemeralSecret, response'.responderEphemeralPub)
            && st.identityPub == st'.identityPub && st.expectedResponderPub == st'.expectedResponderPub
            && st.ephemeralPub == st'.ephemeralPub
            && response.responderEphemeralPub == response'.responderEphemeralPub
            && st.nonce == st'.nonce && response.nonce == response'.nonce
  {
    BoundKeysDiffer(c, FinalizeBinding(c, st, response), FinalizeBinding(c, st', response'));
  }

  /** The same of two accepted runs of `respond`. */
  lemma RespondKeysEqualExactly(c: Suite, identity: Bytes32, expected: Option<Bytes32>, init: HandshakeInitPayload,
                                ephemeral: Bytes32, nonce: Bytes16,
                                identity': Bytes32, expected': Option<Bytes32>, init': HandshakeInitPayload,
                                ephemeral': Bytes32, nonce': Bytes16)
    requires Respond(c, identity, expected, init, ephemeral, nonce).Ok?
    requires Respond(c, identity', expected', init', ephemeral', nonce').Ok?
    requires NoCollision(c, RespondBinding(c, identity, init, ephemeral, nonce),
                         RespondBinding(c, identity', init', ephemeral', nonce'))
    ensures Respond(c, identity, expected, init, ephemeral, nonce).value.1
         == Respond(c, identity', expected', init', ephemeral', nonce').value.1
       <==> && c.x25519(ephemeral, init.initiatorEphemeralPub) == c.x25519(ephemeral', init'.initiatorEphemeralPub)
            && init.initiatorIdentityPub == init'.initiatorIdentityPub
            && c.verifyingKey(identity) == c.verifyingKey(identity')
            && init.initiatorEphemeralPub == init'.initiatorEphemeralPub
            && c.x25519Public(ephemeral) == c.x25519Public(ephemeral')
            && init.nonce == init'.nonce && nonce == nonce'
  {
    BoundKeysDiffer(c, RespondBinding(c, identity, init, ephemeral, nonce),
                    RespondBinding(c, identity', init', ephemeral', nonce'));
  }

  /** A key of `finalize` and one of `respond` are equal exactly when both ends saw one session. */
  lemma EndsAgreeExactly(c: Suite, st: InitiatorState, response: HandshakeResponsePayload,
                         identity: Bytes32, expected: Option<Bytes32>, init: HandshakeInitPayload,
                         ephemeral: Bytes32, nonce: Bytes16)
    requires Finalize(c, st, response).Ok? && Respond(c, identity, expected, init, ephemeral, nonce).Ok?
    requires NoCollision(c, FinalizeBinding(c, st, response), RespondBinding(c, identity, init, ephemeral, nonce))
    ensures Finalize(c, st, response).value == Respond(c, identity, expected, init, ephemeral, nonce).value.1
       <==> && c.x25519(st.ephemeralSecret, response.responderEphemeralPub) == c.x25519(ephemeral, init.initiatorEphemeralPub)
            && st.identityPub == init.initiatorIdentityPub && st.expectedResponderPub == c.verifyingKey(identity)
            && st.ephemeralPub == init.initiatorEphemeralPub
            && response.responderEphemeralPub == c.x25519Public(ephemeral)
            && st.nonce == init.nonce && response.nonce == nonce
  {
    BoundKeysDiffer(c, FinalizeBinding(c, st, response), RespondBinding(c, identity, init, ephemeral, nonce));
  }

  // ------------------------------------------------------------------ what an honest party signed

  datatype Initiation = Initiation(expectedResponderPub: Bytes32, ephemeral: Bytes32, nonce: Bytes16)

  datatype Session = Session(
    expectedInitiatorPub: Option<Bytes32>,
    initiation: HandshakeInitPayload,
    ephemeral: Bytes32,
    nonce: Bytes16,
    response: HandshakeResponsePayload,
    rootKey: Bytes32)

  /** The holder of an identity key, with every run it took part in, in either role. */
  datatype Party = Party(identity: Bytes32, initiated: seq<Initiation>, responded: seq<Session>)

  /** Every recorded session is a successful `Respond` of this party. */
  ghost predicate Honest(c: Suite, p: Party) {
    forall k :: 0 <= k < |p.responded| ==>
      var s := p.responded[k];
      Respond(c, p.identity, s.expectedInitiatorPub, s.initiation, s.ephemeral, s.nonce) == Ok((s.response, s.rootKey))
  }

  function InitiationMessage(c: Suite, p: Party, i: Initiation): Bytes {
    InitTranscript(c.verifyingKey(p.identity), i.expectedResponderPub, c.x25519Public(i.ephemeral), i.nonce)
  }

  function SessionMessage(c: Suite, p: Party, s: Session): Bytes {
    ResponseTranscript(c.verifyingKey(p.identity), s.initiation.initiatorIdentityPub, c.x25519Public(s.ephemeral),
                       s.initiation.initiatorEphemeralPub, s.nonce, s.initiation.nonce)
  }

  ghost predicate Signed(c: Suite, p: Party, message: Bytes) {
    || (exists k :: 0 <= k < |p.initiated| && message == InitiationMessage(c, p, p.initiated[k]))
    || (exists k :: 0 <= k < |p.responded| && message == SessionMessage(c, p, p.responded[k]))
  }

  /** What a party is recorded to have signed is what `Initiate` and `Respond` sign. */
  lemma RecordedMessagesAreSigned(c: Suite, p: Party, i: nat, k: nat)
    requires Honest(c, p)
    ensures i < |p.initiated| ==>
              var initiation := p.initiated[i];
              Initiate(c, p.identity, initiation.expectedResponderPub, initiation.ephemeral, initiation.nonce).1.signature
              == c.sign(p.identity, InitiationMessage(c, p, initiation))
    ensures k < |p.responded| ==>
              p.responded[k].response.signature == c.sign(p.identity, SessionMessage(c, p, p.responded[k]))
  {
    if k < |p.responded| {
      var s := p.responded[k];
      RespondAnswersExactly(c, p.identity, s.expectedInitiatorPub, s.initiation, s.ephemeral, s.nonce);
    }
  }

  /** This signature on this message is no forgery: if it verifies, the party signed the message. */
  ghost predicate NotForged(c: Suite, p: Party, message: Bytes, signature: Bytes64) {
    c.verify(c.verifyingKey(p.identity), message, signature) ==> Signed(c, p, message)
  }

  // ------------------------------------------------------------------ properties

  /** Undisturbed, the handshake over the wire form always succeeds, and both ends hold the same key. */
  lemma HonestHandshakeSucceeds(c: Suite, initiator: Bytes32, responder: Bytes32, checkInitiator: bool,
                                ephemeralI: Bytes32, nonceI: Bytes16, ephemeralR: Bytes32, nonceR: Bytes16)
    requires Lawful(c)
    ensures var (st, init) := Initiate(c, initiator, c.verifyingKey(responder), ephemeralI, nonceI);
            var expected := if checkInitiator then Some(c.verifyingKey(initiator)) else None;
            && InitFromBytes(c.validPoint, InitBytes(init)) == Ok(init)
            && var r := Respond(c, responder, expected, init, ephemeralR, nonceR);
               && r.Ok?
               && ResponseFromBytes(c.validPoint, ResponseBytes(r.value.0)) == Ok(r.value.0)
               && Finalize(c, st, r.value.0) == Ok(r.value.1)
  {
    var (st, init) := Initiate(c, initiator, c.verifyingKey(responder), ephemeralI, nonceI);
    InitRoundTrip(c.validPoint, init, []);
    var expected := if checkInitiator then Some(c.verifyingKey(initiator)) else None;
    var r := Respond(c, responder, expected, init, ephemeralR, nonceR);
    ResponseRoundTrip(c.validPoint, r.value.0, []);
  }

  /** The session stands behind an accepted response: it answered this very initiation, with this
      ephemeral key and nonce, and holds the same root key. */
  ghost predicate StandsBehind(s: Session, st: InitiatorState, response: HandshakeResponsePayload, rootKey: Bytes32) {
    && s.initiation.initiatorIdentityPub == st.identityPub
    && s.initiation.initiatorEphemeralPub == st.ephemeralPub
    && s.initiation.nonce == st.nonce
    && s.response.responderIdentityPub == response.responderIdentityPub
    && s.response.responderEphemeralPub == response.responderEphemeralPub
    && s.response.nonce == response.nonce
    && s.rootKey == rootKey
  }

  /** Whatever 144 bytes arrive, if `finalize` accepts them as a response of an honest responder whose
      signature was not forged, then that responder answered this initiator's identity, ephemeral
      key and nonce, and both hold the same root key. */
  lemma Agreement(c: Suite, initiator: Bytes32, ephemeral: Bytes32, nonce: Bytes16, responder: Party, wire: Bytes)
    returns (k: nat)
    requires Lawful(c) && Honest(c, responder)
    requires ResponseFromBytes(c.validPoint, wire).Ok?
    requires var st := Initiate(c, initiator, c.verifyingKey(responder.identity), ephemeral, nonce).0;
             var response := ResponseFromBytes(c.validPoint, wire).value;
             Finalize(c, st, response).Ok?
             && NotForged(c, responder, CheckedTranscript(st, response), response.signature)
    ensures var st := Initiate(c, initiator, c.verifyingKey(responder.identity), ephemeral, nonce).0;
            var response := ResponseFromBytes(c.validPoint, wire).value;
            k < |responder.responded|
            && StandsBehind(responder.responded[k], st, response, Finalize(c, st, response).value)
  {
    var st := Initiate(c, initiator, c.verifyingKey(responder.identity), ephemeral, nonce).0;
    var response := ResponseFromBytes(c.validPoint, wire).value;
    k := SessionBehind(c, responder, st, response);
    var s := responder.responded[k];
    ResponseTranscriptInjective(
      st.expectedResponderPub, st.identityPub, response.responderEphemeralPub, st.ephemeralPub, response.nonce, st.nonce,
      c.verifyingKey(responder.identity), s.initiation.initiatorIdentityPub, c.x25519Public(s.ephemeral),
      s.initiation.initiatorEphemeralPub, s.nonce, s.initiation.nonce);
  }

  /** A signed response transcript comes from a session, not from an initiation. */
  lemma SessionBehind(c: Suite, p: Party, st: InitiatorState, response: HandshakeResponsePayload) returns (k: nat)
    requires Signed(c, p, CheckedTranscript(st, response))
    ensures k < |p.responded| && CheckedTranscript(st, response) == SessionMessage(c, p, p.responded[k])
  {
    forall i | 0 <= i < |p.initiated|
      ensures CheckedTranscript(st, response) != InitiationMessage(c, p, p.initiated[i])
    {
      var init := p.initiated[i];
      TranscriptsNeverCoincide(
        c.verifyingKey(p.identity), init.expectedResponderPub, c.x25519Public(init.ephemeral), init.nonce, [],
        st.expectedResponderPub, st.identityPub, response.responderEphemeralPub, st.ephemeralPub, response.nonce,
        st.nonce);
    }
    k :| k < |p.responded| && CheckedTranscript(st, response) == SessionMessage(c, p, p.responded[k]);
  }

  /** The other direction: what `respond` accepts under the identity of an honest initiator, that
      initiator sent, and meant for this responder. */
  lemma InitiationIsAuthentic(c: Suite, initiator: Party, responder: Bytes32, expected: Option<Bytes32>, wire: Bytes,
                              ephemeral: Bytes32, nonce: Bytes16)
    returns (k: nat)
    requires InitFromBytes(c.validPoint, wire).Ok?
    requires var init := InitFromBytes(c.validPoint, wire).value;
             && init.initiatorIdentityPub == c.verifyingKey(initiator.identity)
             && Respond(c, responder, expected, init, ephemeral, nonce).Ok?
             && NotForged(c, initiator,
                          InitTranscript(init.initiatorIdentityPub, c.verifyingKey(responder),
                                         init.initiatorEphemeralPub, init.nonce), init.signature)
    ensures var init := InitFromBytes(c.validPoint, wire).value;
            k < |initiator.initiated|
            && var i := initiator.initiated[k];
               i.expectedResponderPub == c.verifyingKey(responder)
               && c.x25519Public(i.ephemeral) == init.initiatorEphemeralPub && i.nonce == init.nonce
               && (expected.Some? ==> c.verifyingKey(initiator.identity) == expected.value)
  {
    var init := InitFromBytes(c.validPoint, wire).value;
    var self := c.verifyingKey(initiator.identity);
    var message := InitTranscript(self, c.verifyingKey(responder), init.initiatorEphemeralPub, init.nonce);
    forall j | 0 <= j < |initiator.responded|
      ensures message != SessionMessage(c, initiator, initiator.responded[j])
    {
      var s := initiator.responded[j];
      TranscriptsNeverCoincide(
        self, c.verifyingKey(responder), init.initiatorEphemeralPub, init.nonce, [],
        self, s.initiation.initiatorIdentityPub, c.x25519Public(s.ephemeral), s.initiation.initiatorEphemeralPub,
        s.nonce, s.initiation.nonce);
    }
    k :| k < |initiator.initiated| && message == InitiationMessage(c, initiator, initiator.initiated[k]);
    var i := initiator.initiated[k];
    InitTranscriptInjective(self, c.verifyingKey(responder), init.initiatorEphemeralPub, init.nonce,
                            self, i.expectedResponderPub, c.x25519Public(i.ephemeral), i.nonce);
  }
}
