/** A channel between the two ends of a handshake. */
module SecureSession {
  import opened ByteCodec
  import opened Endpoints
  import opened Handshake
  import opened HandshakeCrypto
  import opened HandshakeTypes
  import opened Stream
  import opened Symbols

  /** An initiator that finalized, conversing over a hostile network with the responder behind the
      accepted response: everything that either end accepts is what the other end sent. */
  lemma HandshakeThenStream(c: Suite, initiator: Bytes32, ephemeral: Bytes32, nonce: Bytes16, responder: Party,
                            wire: Bytes, mac: Mac, nPaths: nat, events: seq<NetEvent>, side: Side)
    returns (k: nat)
    requires Lawful(c) && Honest(c, responder)
    requires ResponseFromBytes(c.validPoint, wire).Ok?
    requires var st := Initiate(c, initiator, c.verifyingKey(responder.identity), ephemeral, nonce).0;
             var response := ResponseFromBytes(c.validPoint, wire).value;
             && Finalize(c, st, response).Ok?
             && NotForged(c, responder, CheckedTranscript(st, response), response.signature)
             && Admissible(mac, Finalize(c, st, response).value, nPaths, events)
    ensures k < |responder.responded|
    ensures var st := Initiate(c, initiator, c.verifyingKey(responder.identity), ephemeral, nonce).0;
            var rootI := Finalize(c, st, ResponseFromBytes(c.validPoint, wire).value).value;
            var rootR := responder.responded[k].rootKey;
            var sys := NetRun(mac, System(NewEndpoint(rootI, nPaths), NewEndpoint(rootR, nPaths)), events);
            var accepts := sys.At(side).accepts;
            && (forall j :: 0 <= j < |accepts| ==> Matches(accepts[j], sys.At(side.Other()).sent))
            && (forall i, j :: 0 <= i < j < |accepts| ==> accepts[i].seqNum != accepts[j].seqNum)
  {
    k := Agreement(c, initiator, ephemeral, nonce, responder, wire);
    var st := Initiate(c, initiator, c.verifyingKey(responder.identity), ephemeral, nonce).0;
    StreamRefinement(mac, Finalize(c, st, ResponseFromBytes(c.validPoint, wire).value).value, nPaths, events, side);
  }
}
