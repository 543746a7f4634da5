/**
 Which untouched packets are accepted.

 With both ends sending, an end opens a packet of the other exactly when the key it tries is the
 one the packet was sealed at; when one end only sends and the other only receives, that is always
 so, and every late packet within the window is recovered.
 */
module Delivery {
  import opened ByteCodec
  import opened ChannelModel
  import opened EndpointTheorems
  import opened Endpoints
  import opened Envelopes
  import opened PathEngine
  import opened Stream
  import opened Symbols
  import opened Wrappers

  // ------------------------------------------------------------------ one packet, both directions

  /** An untouched packet opens under the key it was sealed at, and under no other chain key. */
  lemma PacketOpensAtItsKey(mac: Mac, material: Bytes, nPaths: nat, i: u64, sent: Sent, pos: nat)
    requires Genuine(mac, material, nPaths, i, sent)
    ensures |sent.packet| == nPaths
    ensures OpenSlot(mac, Key(Root(material), pos), sent.packet, i, sent.messageId, nPaths)
         == if pos == sent.pos then Ok(sent.payload) else Err(AuthenticationFailed)
  {
    var key := Key(Root(material), pos);
    var slot := SelectSlot(mac, key, sent.messageId, nPaths).value;
    var box := BoxAt(mac, material, nPaths, i, sent, slot);
    assert sent.packet[slot] == Wire(box);
    WireDecrypts(box, key, Aad(i, sent.messageId));
    ParseOfFrame(sent.payload, sent.rnd.seal.padding);
  }

  /** What `receive` answers to the untouched packet of send `i` of the other end: its payload if the
      key tried is the one it was sealed at, `AuthenticationFailed` if it tries another, and the
      reason of Step 1 if there is no key to try. */
  function AnswerTo(st: ChannelState, i: u64, sent: Sent): Result<Bytes, ChannelError> {
    match TargetKey(st, i, sent.messageId)
    case Err(e) => Err(e)
    case Ok(key) => if key.pos == sent.pos then Ok(sent.payload) else Err(AuthenticationFailed)
  }

  lemma UntouchedPacketAnswer(mac: Mac, material: Bytes, nPaths: nat, ep: Endpoint, i: u64, sent: Sent, now: nat)
    requires Inv(Root(material), ep) && ep.ch.nPaths == nPaths && Genuine(mac, material, nPaths, i, sent)
    ensures Receive(mac, ep.ch, sent.packet, i, sent.messageId, now).1 == AnswerTo(ep.ch, i, sent)
  {
    match TargetKey(ep.ch, i, sent.messageId)
    case Err(_) =>
      PacketOpensAtItsKey(mac, material, nPaths, i, sent, 0);
    case Ok(key) =>
      TargetWasNotSealedAt(Root(material), ep, i, sent.messageId);
      PacketOpensAtItsKey(mac, material, nPaths, i, sent, key.pos);
      StoreNeverRejects(Root(material), ep, i, sent.messageId, now);
  }

  /** Over any schedule with both ends sending and receiving, the untouched packet of send `i` of the
      other end is accepted, with its payload, exactly when the key tried is the one it was sealed
      at. */
  lemma HonestPacketAccepted(mac: Mac, material: Bytes, nPaths: nat, events: seq<NetEvent>, side: Side, i: u64, now: nat)
    requires Admissible(mac, material, nPaths, events)
    requires i < |NetRun(mac, NewSystem(material, nPaths), events).At(side.Other()).sent|
    ensures var sys := NetRun(mac, NewSystem(material, nPaths), events);
            var sent := sys.At(side.Other()).sent[i];
            Receive(mac, sys.At(side).ch, sent.packet, i, sent.messageId, now).1 == AnswerTo(sys.At(side).ch, i, sent)
  {
    var sys := NetRun(mac, NewSystem(material, nPaths), events);
    NetRunKeepsOk(mac, material, nPaths, events);
    assert Genuine(mac, material, nPaths, i, sys.At(side.Other()).sent[i]);
    UntouchedPacketAnswer(mac, material, nPaths, sys.At(side), i, sys.At(side.Other()).sent[i], now);
  }

  // ------------------------------------------------------------------ staying in step

  lemma NewPacketAnswer(seed: Seed, ep: Endpoint, i: u64, sent: Sent, peerNext: nat)
    requires Shape(seed, ep) && Forward(ep.ch, i) && !TooFar(ep.ch, i) && sent.pos == i + peerNext
    ensures AnswerTo(ep.ch, i, sent) == if |ep.sent| == peerNext then Ok(sent.payload) else Err(AuthenticationFailed)
  {
    ForwardTargetKey(ep.ch, seed, |ep.sent|, i, sent.messageId);
  }

  lemma RejectedKeepsChannel(mac: Mac, seed: Seed, ep: Endpoint,
                             envelopes: seq<Envelope>, seqNum: u64, messageId: Bytes, now: nat)
    requires Inv(seed, ep)
    ensures var out := Receive(mac, ep.ch, envelopes, seqNum, messageId, now); out.1.Err? ==> out.0 == ep.ch
  {
    ReceiveStep(mac, seed, ep, envelopes, seqNum, messageId, now);
  }

  /** A new packet sent now is accepted on arrival exactly when the receiver has sent as many
      messages as the sender has reached numbers; otherwise it is refused and changes nothing. */
  lemma NewPacketAccepted(mac: Mac, material: Bytes, nPaths: nat, ep: Endpoint, peer: Endpoint,
                          payload: Bytes, messageId: Bytes, rnd: SendRandom, now: nat)
    requires EndOk(mac, material, nPaths, ep) && EndOk(mac, material, nPaths, peer)
    requires CanSend(peer.ch) && Send(mac, peer.ch, payload, messageId, rnd).1.Ok?
    requires Forward(ep.ch, NextSend(peer.ch)) && !TooFar(ep.ch, NextSend(peer.ch))
    ensures var packet := Send(mac, peer.ch, payload, messageId, rnd).1.value;
            var (ch', r) := Receive(mac, ep.ch, packet, NextSend(peer.ch), messageId, now);
            if |ep.sent| == Next(peer.ch) then r == Ok(payload)
            else r == Err(AuthenticationFailed) && ch' == ep.ch
  {
    var i := NextSend(peer.ch);
    var packet := Send(mac, peer.ch, payload, messageId, rnd).1.value;
    var sent := Sent(payload, messageId, rnd, peer.ch.currentKey.pos, packet);
    SendIsGenuine(mac, material, nPaths, peer.ch, i, payload, messageId, rnd);
    NewPacketAnswer(Root(material), ep, i, sent, Next(peer.ch));
    UntouchedPacketAnswer(mac, material, nPaths, ep, i, sent, now);
    RejectedKeepsChannel(mac, Root(material), ep, packet, i, messageId, now);
  }

  lemma FirstMessageIsRefused(mac: Mac, material: Bytes, nPaths: nat, now: nat,
                              payload: Bytes, messageId: Bytes, rnd: SendRandom,
                              payload': Bytes, messageId': Bytes, rnd': SendRandom)
    requires nPaths > 0
    requires |payload| <= MAX_PAYLOAD_SIZE && |messageId| <= MAX_MESSAGE_ID_LEN
    requires |payload'| <= MAX_PAYLOAD_SIZE && |messageId'| <= MAX_MESSAGE_ID_LEN
    ensures var start := NewEndpoint(material, nPaths);
            var ep := Step(mac, start, SendEvent(payload, messageId, rnd));
            var arriving := Send(mac, start.ch, payload', messageId', rnd').1;
            && |ep.sent| == 1 && ep.sent[0].pos == 0
            && Send(mac, start.ch, payload, messageId, rnd).1 == Ok(ep.sent[0].packet)
            && arriving.Ok?
            && Receive(mac, ep.ch, arriving.value, 0, messageId', now) == (ep.ch, Err(AuthenticationFailed))
  {
    var start := NewEndpoint(material, nPaths);
    InvInit(material, nPaths);
    SendIsAtomic(mac, start.ch, payload, messageId, rnd);
    SendIsAtomic(mac, start.ch, payload', messageId', rnd');
    TransmitKeepsEnd(mac, material, nPaths, start, payload, messageId, rnd);
    SentGrowsByOne(mac, start, payload, messageId, rnd);
    NewPacketAccepted(mac, material, nPaths, Step(mac, start, SendEvent(payload, messageId, rnd)), start,
                      payload', messageId', rnd', now);
  }

  /** First messages that cross are both refused, each end having sent one before the other's arrives;
      they were sealed with one key. */
  lemma CrossingFirstMessagesAreRefused(mac: Mac, material: Bytes, nPaths: nat, now: nat,
                                        payloadA: Bytes, messageIdA: Bytes, rndA: SendRandom,
                                        payloadB: Bytes, messageIdB: Bytes, rndB: SendRandom)
    requires nPaths > 0
    requires |payloadA| <= MAX_PAYLOAD_SIZE && |messageIdA| <= MAX_MESSAGE_ID_LEN
    requires |payloadB| <= MAX_PAYLOAD_SIZE && |messageIdB| <= MAX_MESSAGE_ID_LEN
    ensures var start := NewEndpoint(material, nPaths);
            var alice := Step(mac, start, SendEvent(payloadA, messageIdA, rndA));
            var bob := Step(mac, start, SendEvent(payloadB, messageIdB, rndB));
            && |alice.sent| == 1 && |bob.sent| == 1
            && SealingKey(material, alice.sent[0]) == SealingKey(material, bob.sent[0])
            && Receive(mac, alice.ch, bob.sent[0].packet, 0, messageIdB, now) == (alice.ch, Err(AuthenticationFailed))
            && Receive(mac, bob.ch, alice.sent[0].packet, 0, messageIdA, now) == (bob.ch, Err(AuthenticationFailed))
  {
    FirstMessageIsRefused(mac, material, nPaths, now, payloadA, messageIdA, rndA, payloadB, messageIdB, rndB);
    FirstMessageIsRefused(mac, material, nPaths, now, payloadB, messageIdB, rndB, payloadA, messageIdA, rndA);
  }

  /** One end sends, and the packet is delivered before anything else happens. */
  datatype Turn = Turn(side: Side, payload: Bytes, messageId: Bytes, rnd: SendRandom, now: nat)

  predicate Sendable(turn: Turn) {
    |turn.payload| <= MAX_PAYLOAD_SIZE && |turn.messageId| <= MAX_MESSAGE_ID_LEN
  }

  function TurnEvents(mac: Mac, sys: System, turn: Turn): (NetEvent, NetEvent)
    requires CanSend(sys.At(turn.side).ch) && Send(mac, sys.At(turn.side).ch, turn.payload, turn.messageId, turn.rnd).1.Ok?
  {
    (Transmit(turn.side, turn.payload, turn.messageId, turn.rnd),
     Deliver(turn.side.Other(), Send(mac, sys.At(turn.side).ch, turn.payload, turn.messageId, turn.rnd).1.value,
             NextSend(sys.At(turn.side).ch), turn.messageId, turn.now))
  }

  ghost predicate EndsInStep(mac: Mac, material: Bytes, nPaths: nat, a: Endpoint, b: Endpoint) {
    && EndOk(mac, material, nPaths, a) && EndOk(mac, material, nPaths, b)
    && |a.sent| == Next(b.ch) && |b.sent| == Next(a.ch)
  }

  /** Nothing is under way, and each end has sent as many messages as the other has reached. */
  ghost predicate InStep(mac: Mac, material: Bytes, nPaths: nat, sys: System) {
    EndsInStep(mac, material, nPaths, sys.alice, sys.bob)
  }

  ghost predicate TurnSucceeds(mac: Mac, sys: System, turn: Turn) {
    var st := sys.At(turn.side).ch;
    && CanSend(st) && Send(mac, st, turn.payload, turn.messageId, turn.rnd).1.Ok?
    && Receive(mac, sys.At(turn.side.Other()).ch, Send(mac, st, turn.payload, turn.messageId, turn.rnd).1.value,
               NextSend(st), turn.messageId, turn.now).1 == Ok(turn.payload)
  }

  lemma CounterAllowsSend(seed: Seed, ep: Endpoint)
    requires Shape(seed, ep) && |ep.sent| < U64_LIMIT - 1
    ensures CanSend(ep.ch) && NextSend(ep.ch) == |ep.sent|
  {
  }

  /** In step, a turn succeeds. */
  lemma TurnIsDelivered(mac: Mac, material: Bytes, nPaths: nat, sys: System, turn: Turn)
    requires InStep(mac, material, nPaths, sys) && nPaths > 0 && Sendable(turn)
    requires |sys.At(turn.side).sent| < U64_LIMIT - 1
    ensures TurnSucceeds(mac, sys, turn)
  {
    var ep, peer := sys.At(turn.side.Other()), sys.At(turn.side);
    assert EndsInStep(mac, material, nPaths, ep, peer);
    CounterAllowsSend(Root(material), peer);
    SendIsAtomic(mac, peer.ch, turn.payload, turn.messageId, turn.rnd);
    NewPacketAccepted(mac, material, nPaths, ep, peer, turn.payload, turn.messageId, turn.rnd, turn.now);
  }

  function TakeTurn(mac: Mac, sys: System, turn: Turn): System
    requires CanSend(sys.At(turn.side).ch) && Send(mac, sys.At(turn.side).ch, turn.payload, turn.messageId, turn.rnd).1.Ok?
  {
    NetStep(mac, NetStep(mac, sys, TurnEvents(mac, sys, turn).0), TurnEvents(mac, sys, turn).1)
  }

  /** The two calls of a turn, one at each end. */
  lemma TurnIsTwoCalls(mac: Mac, sys: System, turn: Turn)
    requires CanSend(sys.At(turn.side).ch)
    requires Send(mac, sys.At(turn.side).ch, turn.payload, turn.messageId, turn.rnd).1.Ok?
    ensures var (out, arrival) := TurnEvents(mac, sys, turn);
            TakeTurn(mac, sys, turn) == sys.With(turn.side, Step(mac, sys.At(turn.side), CallOf(out)))
                                           .With(turn.side.Other(), Step(mac, sys.At(turn.side.Other()), CallOf(arrival)))
  {
  }

  lemma TransmitMovesSent(mac: Mac, material: Bytes, nPaths: nat, ep: Endpoint,
                          payload: Bytes, messageId: Bytes, rnd: SendRandom)
    requires EndOk(mac, material, nPaths, ep) && CanSend(ep.ch) && Send(mac, ep.ch, payload, messageId, rnd).1.Ok?
    ensures var ep' := Step(mac, ep, SendEvent(payload, messageId, rnd));
            EndOk(mac, material, nPaths, ep') && |ep'.sent| == |ep.sent| + 1 && Next(ep'.ch) == Next(ep.ch)
  {
    TransmitKeepsEnd(mac, material, nPaths, ep, payload, messageId, rnd);
    SentGrowsByOne(mac, ep, payload, messageId, rnd);
    SendKeepsRest(mac, ep.ch, payload, messageId, rnd);
  }

  lemma ForwardOkMovesNext(mac: Mac, ep: Endpoint, envelopes: seq<Envelope>, seqNum: u64, messageId: Bytes, now: nat)
    requires Forward(ep.ch, seqNum) && Receive(mac, ep.ch, envelopes, seqNum, messageId, now).1.Ok?
    ensures Next(Step(mac, ep, ReceiveEvent(envelopes, seqNum, messageId, now)).ch) == seqNum + 1
  {
  }

  /** A turn leaves the ends in step again. */
  lemma TurnKeepsEndsInStep(mac: Mac, material: Bytes, nPaths: nat, ep: Endpoint, peer: Endpoint, packet: Packet,
                            turn: Turn)
    requires EndsInStep(mac, material, nPaths, ep, peer)
    requires CanSend(peer.ch) && Send(mac, peer.ch, turn.payload, turn.messageId, turn.rnd).1 == Ok(packet)
    requires Receive(mac, ep.ch, packet, NextSend(peer.ch), turn.messageId, turn.now).1.Ok?
    ensures var peer' := Step(mac, peer, SendEvent(turn.payload, turn.messageId, turn.rnd));
            var ep' := Step(mac, ep, ReceiveEvent(packet, NextSend(peer.ch), turn.messageId, turn.now));
            && EndsInStep(mac, material, nPaths, ep', peer')
            && |peer'.sent| == |peer.sent| + 1 && ep'.sent == ep.sent
  {
    TransmitMovesSent(mac, material, nPaths, peer, turn.payload, turn.messageId, turn.rnd);
    DeliverKeepsEnd(mac, material, nPaths, ep, packet, NextSend(peer.ch), turn.messageId, turn.now);
    ForwardOkMovesNext(mac, ep, packet, NextSend(peer.ch), turn.messageId, turn.now);
  }

  lemma EndsMakeSystem(mac: Mac, material: Bytes, nPaths: nat, sys: System, side: Side, ep: Endpoint, peer: Endpoint)
    requires EndsInStep(mac, material, nPaths, ep, peer)
    ensures var sys' := sys.With(side, peer).With(side.Other(), ep);
            InStep(mac, material, nPaths, sys') && TotalSent(sys') == |ep.sent| + |peer.sent|
  {
  }

  lemma TurnKeepsInStep(mac: Mac, material: Bytes, nPaths: nat, sys: System, turn: Turn)
    requires InStep(mac, material, nPaths, sys) && TurnSucceeds(mac, sys, turn)
    ensures InStep(mac, material, nPaths, TakeTurn(mac, sys, turn))
    ensures TotalSent(TakeTurn(mac, sys, turn)) == TotalSent(sys) + 1
  {
    var ep, peer := sys.At(turn.side.Other()), sys.At(turn.side);
    var packet := Send(mac, peer.ch, turn.payload, turn.messageId, turn.rnd).1.value;
    TurnIsTwoCalls(mac, sys, turn);
    TurnKeepsEndsInStep(mac, material, nPaths, ep, peer, packet, turn);
    EndsMakeSystem(mac, material, nPaths, sys, turn.side,
                   Step(mac, ep, CallOf(TurnEvents(mac, sys, turn).1)), Step(mac, peer, CallOf(TurnEvents(mac, sys, turn).0)));
  }

  function TotalSent(sys: System): nat {
    |sys.alice.sent| + |sys.bob.sent|
  }

  /** The system after a conversation in turns, as far as its turns succeed. */
  ghost function Converse(mac: Mac, start: System, turns: seq<Turn>): System {
    if turns == [] then start
    else
      var sys := Converse(mac, start, turns[..|turns| - 1]);
      var turn := turns[|turns| - 1];
      if TurnSucceeds(mac, sys, turn) then TakeTurn(mac, sys, turn) else sys
  }

  lemma {:induction false} ConversationStaysInStep(mac: Mac, material: Bytes, nPaths: nat, turns: seq<Turn>)
    requires nPaths > 0 && |turns| < U64_LIMIT
    requires forall i :: 0 <= i < |turns| ==> Sendable(turns[i])
    ensures var sys := Converse(mac, NewSystem(material, nPaths), turns);
            InStep(mac, material, nPaths, sys) && TotalSent(sys) == |turns|
  {
    if turns == [] {
      InvInit(material, nPaths);
    } else {
      var init, turn := turns[..|turns| - 1], turns[|turns| - 1];
      ConversationStaysInStep(mac, material, nPaths, init);
      var sys := Converse(mac, NewSystem(material, nPaths), init);
      TurnIsDelivered(mac, material, nPaths, sys, turn);
      TurnKeepsInStep(mac, material, nPaths, sys, turn);
    }
  }

  /** Taking turns, two ends converse over one root key for as long as the counters last: in any
      order of speakers, every turn was taken, and the next one is delivered with its payload. */
  lemma TurnTakingDelivers(mac: Mac, material: Bytes, nPaths: nat, turns: seq<Turn>, next: Turn)
    requires nPaths > 0 && |turns| < U64_LIMIT - 1 && Sendable(next)
    requires forall i :: 0 <= i < |turns| ==> Sendable(turns[i])
    ensures TotalSent(Converse(mac, NewSystem(material, nPaths), turns)) == |turns|
    ensures TurnSucceeds(mac, Converse(mac, NewSystem(material, nPaths), turns), next)
  {
    ConversationStaysInStep(mac, material, nPaths, turns);
    TurnIsDelivered(mac, material, nPaths, Converse(mac, NewSystem(material, nPaths), turns), next);
  }

  // ------------------------------------------------------------------ one direction

  /** Alice only sends and Bob only receives. */
  predicate OneWay(events: seq<NetEvent>) {
    forall i :: 0 <= i < |events| ==> (events[i].Transmit? <==> events[i].side.Alice?)
  }

  lemma {:induction false} OneWayRoles(mac: Mac, material: Bytes, nPaths: nat, events: seq<NetEvent>)
    requires OneWay(events)
    ensures var sys := NetRun(mac, NewSystem(material, nPaths), events);
            sys.alice.ch.lastSeq == None && sys.bob.sent == []
  {
    if events != [] {
      var init, ev := events[..|events| - 1], events[|events| - 1];
      OneWayRoles(mac, material, nPaths, init);
      var sys := NetRun(mac, NewSystem(material, nPaths), init);
      match ev
      case Transmit(_, payload, messageId, rnd) =>
        if CanSend(sys.alice.ch) {
          SentGrowsByOne(mac, sys.alice, payload, messageId, rnd);
          SendKeepsRest(mac, sys.alice.ch, payload, messageId, rnd);
        }
      case Deliver(_, envelopes, seqNum, messageId, now) =>
        ReceiveKeepsRest(mac, sys.bob, envelopes, seqNum, messageId, now);
    }
  }

  lemma SenderSealsAtNumber(seed: Seed, ep: Endpoint, i: nat)
    requires Inv(seed, ep) && ep.ch.lastSeq == None && i < |ep.sent|
    ensures ep.sent[i].pos == i
  {
    assert ep.ledger[ep.sent[i].pos] == BySend(i);
  }

  lemma ReceiverTriesAtNumber(seed: Seed, ep: Endpoint, i: u64, messageId: Bytes)
    requires Inv(seed, ep) && ep.sent == [] && TargetKey(ep.ch, i, messageId).Ok?
    ensures TargetKey(ep.ch, i, messageId) == Ok(Key(seed, i))
  {
    ReceiverKeysSitAtTheirNumber(seed, ep);
    TargetByPosition(seed, ep.ch, i, messageId);
  }

  lemma TargetByPosition(seed: Seed, st: ChannelState, seqNum: u64, messageId: Bytes)
    requires st.currentKey == Key(seed, Next(st))
    requires forall s :: s in st.skipped ==> st.skipped[s] == Key(seed, s)
    requires TargetKey(st, seqNum, messageId).Ok?
    ensures TargetKey(st, seqNum, messageId) == Ok(Key(seed, seqNum))
  {
  }

  /** Ahead of the last accepted number by no more than the skip window, or behind it with its key
      still in the table. */
  predicate WithinReach(st: ChannelState, i: u64) {
    match st.lastSeq
    case None => i <= MAX_SKIP_WINDOW
    case Some(last) => if i > last then i - last <= MAX_SKIP_WINDOW else i in st.skipped
  }

  lemma ReceiverAnswer(seed: Seed, ep: Endpoint, i: u64, sent: Sent)
    requires Inv(seed, ep) && ep.sent == [] && sent.pos == i
    ensures if WithinReach(ep.ch, i) then AnswerTo(ep.ch, i, sent) == Ok(sent.payload) else AnswerTo(ep.ch, i, sent).Err?
  {
    if WithinReach(ep.ch, i) {
      ReceiverTriesAtNumber(seed, ep, i, sent.messageId);
    }
  }

  /** In one direction, the untouched packet of send `i` is accepted, with its payload, exactly when
      its number is within reach. */
  lemma OneWayPacketAccepted(mac: Mac, material: Bytes, nPaths: nat, events: seq<NetEvent>, i: u64, now: nat)
    requires Admissible(mac, material, nPaths, events) && OneWay(events)
    requires i < |NetRun(mac, NewSystem(material, nPaths), events).alice.sent|
    ensures var sys := NetRun(mac, NewSystem(material, nPaths), events);
            var sent := sys.alice.sent[i];
            var r := Receive(mac, sys.bob.ch, sent.packet, i, sent.messageId, now).1;
            if WithinReach(sys.bob.ch, i) then r == Ok(sent.payload) else r.Err?
  {
    var sys := NetRun(mac, NewSystem(material, nPaths), events);
    NetRunKeepsOk(mac, material, nPaths, events);
    OneWayRoles(mac, material, nPaths, events);
    HonestPacketAccepted(mac, material, nPaths, events, Bob, i, now);
    SenderSealsAtNumber(Root(material), sys.alice, i);
    ReceiverAnswer(Root(material), sys.bob, i, sys.alice.sent[i]);
  }

  /** Not accepted, and within the skip window of the last accepted number or of the start. */
  ghost predicate Near(ep: Endpoint, i: u64) {
    && !Accepted(ep.accepts, i)
    && match ep.ch.lastSeq
       case None => i <= MAX_SKIP_WINDOW
       case Some(last) => i - last <= MAX_SKIP_WINDOW && last - i <= MAX_SKIP_WINDOW
  }

  lemma NearIsWithinReach(seed: Seed, ep: Endpoint, i: u64)
    requires Inv(seed, ep) && Near(ep, i)
    ensures WithinReach(ep.ch, i)
  {
    if ep.ch.lastSeq.Some? && i <= ep.ch.lastSeq.value {
      assert i in ep.ch.skipped.Keys || i in ep.evicted.Keys;
    }
  }

  /** Reorder tolerance: in one direction, an untouched packet not yet accepted is accepted, and
      yields its payload, whenever its number is at most the skip window away from the last accepted
      one on either side, or from the start; eviction can never have reached its key. */
  lemma ReorderTolerance(mac: Mac, material: Bytes, nPaths: nat, events: seq<NetEvent>, i: u64, now: nat)
    requires Admissible(mac, material, nPaths, events) && OneWay(events)
    requires i < |NetRun(mac, NewSystem(material, nPaths), events).alice.sent|
    requires Near(NetRun(mac, NewSystem(material, nPaths), events).bob, i)
    ensures var sys := NetRun(mac, NewSystem(material, nPaths), events);
            var sent := sys.alice.sent[i];
            Receive(mac, sys.bob.ch, sent.packet, i, sent.messageId, now).1 == Ok(sent.payload)
  {
    NetRunKeepsOk(mac, material, nPaths, events);
    NearIsWithinReach(Root(material), NetRun(mac, NewSystem(material, nPaths), events).bob, i);
    OneWayPacketAccepted(mac, material, nPaths, events, i, now);
  }
}
