/**
 Which keys of the chain can still be derived from what an endpoint holds.

 The ratchet runs one way, so a state yields the keys it holds and all that come after them in
 the chain.  Out-of-order delivery makes the table hold keys of earlier positions, and those yield
 every later position again, used or not.
 */
module ForwardSecrecy {
  import opened AntiReplay
  import opened ByteCodec
  import opened ChannelModel
  import opened Delivery
  import opened EndpointTheorems
  import opened Endpoints
  import opened Envelopes
  import opened PathEngine
  import opened Stream
  import opened Symbols

  /** One of the keys in the fields of the channel. */
  ghost predicate Held(st: ChannelState, key: Key) {
    key == st.currentKey || exists s :: s in st.skipped && st.skipped[s] == key
  }

  /** Some number of derivations leads to the key from one that is held. */
  ghost predicate Recoverable(st: ChannelState, key: Key) {
    exists from: Key, steps: nat :: Held(st, from) && Advance(from, steps) == key
  }

  lemma HeldIsRecoverable(st: ChannelState, from: Key, steps: nat)
    requires Held(st, from)
    ensures Recoverable(st, Advance(from, steps))
  {
  }

  // ------------------------------------------------------------------ what is lost stays lost

  lemma HeldAfterSend(mac: Mac, st: ChannelState, payload: Bytes, messageId: Bytes, rnd: SendRandom, key: Key)
    requires CanSend(st) && Held(Send(mac, st, payload, messageId, rnd).0, key)
    ensures Recoverable(st, key)
  {
    SendIsAtomic(mac, st, payload, messageId, rnd);
    if Held(st, key) {
      HeldIsRecoverable(st, key, 0);
    } else {
      HeldIsRecoverable(st, st.currentKey, 1);
    }
  }

  lemma StoredAfterCommit(st: ChannelState, seqNum: u64, store: seq<Entry>, s: u64)
    requires s in Commit(st, seqNum, store).skipped
    ensures Recoverable(st, Commit(st, seqNum, store).skipped[s])
  {
    if Forward(st, seqNum) {
      EvictionKeepsNewest(Merged(st, seqNum), U64_LIMIT);
      if s in Gap(st, seqNum) {
        HeldIsRecoverable(st, st.currentKey, s - Next(st));
      } else {
        HeldIsRecoverable(st, st.skipped[s], 0);
      }
    } else {
      HeldIsRecoverable(st, st.skipped[s], 0);
    }
  }

  lemma HeldAfterCommit(st: ChannelState, seqNum: u64, store: seq<Entry>, key: Key)
    requires Held(Commit(st, seqNum, store), key)
    ensures Recoverable(st, key)
  {
    if key == Commit(st, seqNum, store).currentKey {
      HeldIsRecoverable(st, st.currentKey, if Forward(st, seqNum) then seqNum - Next(st) + 1 else 0);
    } else {
      var s :| s in Commit(st, seqNum, store).skipped && Commit(st, seqNum, store).skipped[s] == key;
      StoredAfterCommit(st, seqNum, store, s);
    }
  }

  /** A receive commits, or leaves every key where it was. */
  lemma ReceiveCommitsOrKeepsKeys(mac: Mac, st: ChannelState, envelopes: seq<Envelope>, seqNum: u64, messageId: Bytes,
                                  now: nat) returns (store: seq<Entry>)
    ensures var st' := Receive(mac, st, envelopes, seqNum, messageId, now).0;
            st' == Commit(st, seqNum, store) || st' == st.(store := store)
  {
    store := Receive(mac, st, envelopes, seqNum, messageId, now).0.store;
  }

  lemma HeldAfterReceive(mac: Mac, st: ChannelState, envelopes: seq<Envelope>, seqNum: u64, messageId: Bytes, now: nat,
                         key: Key)
    requires Held(Receive(mac, st, envelopes, seqNum, messageId, now).0, key)
    ensures Recoverable(st, key)
  {
    var store := ReceiveCommitsOrKeepsKeys(mac, st, envelopes, seqNum, messageId, now);
    if Held(st, key) {
      HeldIsRecoverable(st, key, 0);
    } else {
      HeldAfterCommit(st, seqNum, store, key);
    }
  }

  lemma HeldAfterStep(mac: Mac, ep: Endpoint, ev: Event, key: Key)
    requires Held(Step(mac, ep, ev).ch, key)
    ensures Recoverable(ep.ch, key)
  {
    match ev
    case SendEvent(payload, messageId, rnd) =>
      if CanSend(ep.ch) {
        HeldAfterSend(mac, ep.ch, payload, messageId, rnd, key);
      } else {
        HeldIsRecoverable(ep.ch, key, 0);
      }
    case ReceiveEvent(envelopes, seqNum, messageId, now) =>
      HeldAfterReceive(mac, ep.ch, envelopes, seqNum, messageId, now, key);
  }

  lemma RecoverableBeforeStep(mac: Mac, ep: Endpoint, ev: Event, key: Key)
    requires Recoverable(Step(mac, ep, ev).ch, key)
    ensures Recoverable(ep.ch, key)
  {
    var mid: Key, steps: nat :| Held(Step(mac, ep, ev).ch, mid) && Advance(mid, steps) == key;
    HeldAfterStep(mac, ep, ev, mid);
    var from: Key, earlier: nat :| Held(ep.ch, from) && Advance(from, earlier) == mid;
    HeldIsRecoverable(ep.ch, from, earlier + steps);
  }

  /** No call ever brings back a key that the state could no longer derive. */
  lemma {:induction false} LostStaysLost(mac: Mac, ep: Endpoint, events: seq<Event>, key: Key)
    requires !Recoverable(ep.ch, key)
    ensures !Recoverable(Run(mac, ep, events).ch, key)
  {
    if events != [] {
      var init := events[..|events| - 1];
      LostStaysLost(mac, ep, init, key);
      if Recoverable(Run(mac, ep, events).ch, key) {
        RecoverableBeforeStep(mac, Run(mac, ep, init), events[|events| - 1], key);
        assert false;
      }
    }
  }

  // ------------------------------------------------------------------ exactly what is recoverable

  /** A stored key sits at or below the position. */
  ghost predicate StoredAtOrBelow(st: ChannelState, p: nat) {
    exists s :: s in st.skipped && st.skipped[s].pos <= p
  }

  lemma PastKeyRecoverable(seed: Seed, ep: Endpoint, p: nat)
    requires Inv(seed, ep) && p < ep.ch.currentKey.pos
    ensures Recoverable(ep.ch, Key(seed, p)) <==> StoredAtOrBelow(ep.ch, p)
  {
    var key := Key(seed, p);
    if Recoverable(ep.ch, key) {
      var from: Key, steps: nat :| Held(ep.ch, from) && Advance(from, steps) == key;
      assert from != ep.ch.currentKey;
    }
    if StoredAtOrBelow(ep.ch, p) {
      var s :| s in ep.ch.skipped && ep.ch.skipped[s].pos <= p;
      HeldIsRecoverable(ep.ch, ep.ch.skipped[s], p - ep.ch.skipped[s].pos);
    }
  }

  /** After any run, a key before the current one can be derived again exactly when a stored key sits
      at or below its position. */
  lemma RecoverableExactly(mac: Mac, material: Bytes, nPaths: nat, events: seq<Event>, p: nat)
    requires p < Reached(mac, material, nPaths, events).ch.currentKey.pos
    ensures Recoverable(Reached(mac, material, nPaths, events).ch, Key(Root(material), p))
       <==> StoredAtOrBelow(Reached(mac, material, nPaths, events).ch, p)
  {
    RunKeepsInv(mac, material, nPaths, events);
    PastKeyRecoverable(Root(material), Reached(mac, material, nPaths, events), p);
  }

  /** Every past key is gone exactly when the table is empty. */
  lemma ForwardSecretExactlyWhenTableEmpty(mac: Mac, material: Bytes, nPaths: nat, events: seq<Event>)
    ensures var st := Reached(mac, material, nPaths, events).ch;
            (forall p: nat :: p < st.currentKey.pos ==> !Recoverable(st, Key(Root(material), p)))
            <==> st.skipped == map[]
  {
    var ep := Reached(mac, material, nPaths, events);
    RunKeepsInv(mac, material, nPaths, events);
    forall p: nat | p < ep.ch.currentKey.pos
      ensures Recoverable(ep.ch, Key(Root(material), p)) <==> StoredAtOrBelow(ep.ch, p)
    {
      PastKeyRecoverable(Root(material), ep, p);
    }
    if ep.ch.skipped != map[] {
      var s :| s in ep.ch.skipped;
      assert StoredAtOrBelow(ep.ch, ep.ch.skipped[s].pos);
    }
  }

  /** Positions derived for receiving come in the order of their numbers. */
  lemma PositionsInNumberOrder(ledger: seq<Owner>, nSent: nat, next: nat, p: nat, q: nat)
    requires Owners(ledger, nSent, next) && p < |ledger| && q < |ledger|
    requires ledger[p].ByReceive? && ledger[q].ByReceive?
    ensures p < q ==> ledger[p].seqNum < ledger[q].seqNum
    ensures q < p ==> ledger[q].seqNum < ledger[p].seqNum
  {
  }

  lemma StoredAgainstAccept(seed: Seed, ep: Endpoint, i: nat, s: u64)
    requires LedgerOk(seed, ep) && i < |ep.accepts| && s in ep.ch.skipped
    requires ep.accepts[i].seqNum != s
    ensures ep.ch.skipped[s].pos <= ep.accepts[i].pos <==> s < ep.accepts[i].seqNum
  {
    PositionsInNumberOrder(ep.ledger, |ep.sent|, Next(ep.ch), ep.ch.skipped[s].pos, ep.accepts[i].pos);
  }

  lemma StoredAgainstEvicted(seed: Seed, ep: Endpoint, e: u64, s: u64)
    requires LedgerOk(seed, ep) && e in ep.evicted && s in ep.ch.skipped && e < s
    ensures ep.ch.skipped[s].pos > ep.evicted[e].pos
  {
    PositionsInNumberOrder(ep.ledger, |ep.sent|, Next(ep.ch), ep.ch.skipped[s].pos, ep.evicted[e].pos);
  }

  lemma AcceptedIsNotStored(seed: Seed, ep: Endpoint, i: nat)
    requires Inv(seed, ep) && i < |ep.accepts|
    ensures ep.accepts[i].pos < ep.ch.currentKey.pos && ep.accepts[i].seqNum !in ep.ch.skipped
  {
    assert Accepted(ep.accepts, ep.accepts[i].seqNum);
    assert ep.accepts[i].seqNum !in ep.ch.skipped.Keys;
  }

  lemma StoredBelowAccept(seed: Seed, ep: Endpoint, i: nat)
    requires LedgerOk(seed, ep) && i < |ep.accepts| && ep.accepts[i].seqNum !in ep.ch.skipped
    ensures StoredAtOrBelow(ep.ch, ep.accepts[i].pos) <==> exists s :: s in ep.ch.skipped && s < ep.accepts[i].seqNum
  {
    forall s | s in ep.ch.skipped
      ensures ep.ch.skipped[s].pos <= ep.accepts[i].pos <==> s < ep.accepts[i].seqNum
    {
      StoredAgainstAccept(seed, ep, i, s);
    }
  }

  lemma AcceptedRecoverable(seed: Seed, ep: Endpoint, i: nat)
    requires Inv(seed, ep) && i < |ep.accepts|
    ensures Recoverable(ep.ch, Key(seed, ep.accepts[i].pos))
       <==> exists s :: s in ep.ch.skipped && s < ep.accepts[i].seqNum
  {
    AcceptedIsNotStored(seed, ep, i);
    StoredBelowAccept(seed, ep, i);
    PastKeyRecoverable(seed, ep, ep.accepts[i].pos);
  }

  /** The key of a delivered packet can be derived again exactly as long as a lower number is still
      awaited in the table. */
  lemma DeliveredKeyRecoverable(mac: Mac, material: Bytes, nPaths: nat, events: seq<Event>, i: nat)
    requires i < |Reached(mac, material, nPaths, events).accepts|
    ensures var ep := Reached(mac, material, nPaths, events);
            Recoverable(ep.ch, Key(Root(material), ep.accepts[i].pos))
            <==> exists s :: s in ep.ch.skipped && s < ep.accepts[i].seqNum
  {
    RunKeepsInv(mac, material, nPaths, events);
    AcceptedRecoverable(Root(material), Reached(mac, material, nPaths, events), i);
  }

  lemma StoredAboveEvicted(seed: Seed, ep: Endpoint, e: u64)
    requires LedgerOk(seed, ep) && e in ep.evicted
    requires Order(ep.ch.skipped.Keys, ep.evicted.Keys, Next(ep.ch))
    ensures !StoredAtOrBelow(ep.ch, ep.evicted[e].pos)
  {
    assert e in ep.evicted.Keys;
    forall s | s in ep.ch.skipped
      ensures ep.ch.skipped[s].pos > ep.evicted[e].pos
    {
      assert s in ep.ch.skipped.Keys;
      StoredAgainstEvicted(seed, ep, e, s);
    }
  }

  /** An evicted key is gone for good. */
  lemma EvictedKeysAreGone(mac: Mac, material: Bytes, nPaths: nat, events: seq<Event>, e: u64)
    requires e in Reached(mac, material, nPaths, events).evicted
    ensures !Recoverable(Reached(mac, material, nPaths, events).ch, Reached(mac, material, nPaths, events).evicted[e])
  {
    var ep := Reached(mac, material, nPaths, events);
    RunKeepsInv(mac, material, nPaths, events);
    StoredAboveEvicted(Root(material), ep, e);
    PastKeyRecoverable(Root(material), ep, ep.evicted[e].pos);
  }

  // ------------------------------------------------------------------ a run

  lemma SendAppends(mac: Mac, material: Bytes, nPaths: nat, ep: Endpoint, payload: Bytes, messageId: Bytes, rnd: SendRandom)
    returns (sent: Sent)
    requires EndOk(mac, material, nPaths, ep) && CanSend(ep.ch) && nPaths > 0
    requires |payload| <= MAX_PAYLOAD_SIZE && |messageId| <= MAX_MESSAGE_ID_LEN
    ensures var ep' := Step(mac, ep, SendEvent(payload, messageId, rnd));
            && EndOk(mac, material, nPaths, ep') && ep'.ch.lastSeq == ep.ch.lastSeq && ep'.sent == ep.sent + [sent]
            && sent.payload == payload && sent.messageId == messageId
  {
    SendIsAtomic(mac, ep.ch, payload, messageId, rnd);
    TransmitKeepsEnd(mac, material, nPaths, ep, payload, messageId, rnd);
    SentGrowsByOne(mac, ep, payload, messageId, rnd);
    SendKeepsRest(mac, ep.ch, payload, messageId, rnd);
    sent := Sent(payload, messageId, rnd, ep.ch.currentKey.pos, Send(mac, ep.ch, payload, messageId, rnd).1.value);
  }

  lemma TwoSends(mac: Mac, material: Bytes, nPaths: nat, payload0: Bytes, messageId0: Bytes, rnd0: SendRandom,
                 payload1: Bytes, messageId1: Bytes, rnd1: SendRandom)
    requires nPaths > 0
    requires |payload0| <= MAX_PAYLOAD_SIZE && |messageId0| <= MAX_MESSAGE_ID_LEN
    requires |payload1| <= MAX_PAYLOAD_SIZE && |messageId1| <= MAX_MESSAGE_ID_LEN
    ensures var alice := Step(mac, Step(mac, NewEndpoint(material, nPaths), SendEvent(payload0, messageId0, rnd0)),
                              SendEvent(payload1, messageId1, rnd1));
            && |alice.sent| == 2 && alice.sent[1].pos == 1
            && alice.sent[1].payload == payload1 && alice.sent[1].messageId == messageId1
            && Genuine(mac, material, nPaths, 1, alice.sent[1])
  {
    var start := NewEndpoint(material, nPaths);
    InvInit(material, nPaths);
    var sent0 := SendAppends(mac, material, nPaths, start, payload0, messageId0, rnd0);
    var mid := Step(mac, start, SendEvent(payload0, messageId0, rnd0));
    CounterAllowsSend(Root(material), mid);
    var sent1 := SendAppends(mac, material, nPaths, mid, payload1, messageId1, rnd1);
    SenderSealsAtNumber(Root(material), Step(mac, mid, SendEvent(payload1, messageId1, rnd1)), 1);
  }

  lemma NumberZeroIsAwaited(seed: Seed, ep: Endpoint)
    requires Inv(seed, ep) && |ep.accepts| == 1 && ep.accepts[0].seqNum == 1
    ensures 0 in ep.ch.skipped
  {
    assert Accepted(ep.accepts, ep.accepts[0].seqNum);
    assert 0 in ep.ch.skipped.Keys || 0 in ep.evicted.Keys;
  }

  lemma OnlyNumberOneIsRecoverable(seed: Seed, ep: Endpoint)
    requires Inv(seed, ep) && |ep.accepts| == 1 && ep.accepts[0].seqNum == 1
    ensures Recoverable(ep.ch, Key(seed, ep.accepts[0].pos))
  {
    NumberZeroIsAwaited(seed, ep);
    AcceptedRecoverable(seed, ep, 0);
  }

  lemma FirstArrivalIsAccepted(mac: Mac, material: Bytes, nPaths: nat, sent: Sent, now: nat)
    requires Genuine(mac, material, nPaths, 1, sent) && sent.pos == 1
    ensures var bob := Step(mac, NewEndpoint(material, nPaths), ReceiveEvent(sent.packet, 1, sent.messageId, now));
            |bob.accepts| == 1 && bob.accepts[0].payload == sent.payload && bob.accepts[0].seqNum == 1
  {
    var start := NewEndpoint(material, nPaths);
    InvInit(material, nPaths);
    ReceiverAnswer(Root(material), start, 1, sent);
    UntouchedPacketAnswer(mac, material, nPaths, start, 1, sent, now);
    AcceptsOfReceive(mac, start, sent.packet, 1, sent.messageId, now);
  }

  lemma FirstArrivalIsRecoverable(mac: Mac, material: Bytes, nPaths: nat, sent: Sent, now: nat)
    requires Genuine(mac, material, nPaths, 1, sent) && sent.pos == 1
    ensures var bob := Step(mac, NewEndpoint(material, nPaths), ReceiveEvent(sent.packet, 1, sent.messageId, now));
            && |bob.accepts| == 1 && bob.accepts[0].payload == sent.payload
            && Recoverable(bob.ch, Key(Root(material), bob.accepts[0].pos))
  {
    FirstArrivalIsAccepted(mac, material, nPaths, sent, now);
    InvInit(material, nPaths);
    var start, ev := NewEndpoint(material, nPaths), ReceiveEvent(sent.packet, 1, sent.messageId, now);
    StepKeepsInv(mac, Root(material), start, ev);
    OnlyNumberOneIsRecoverable(Root(material), Step(mac, start, ev));
  }

  /** A receiver whose first packet is number 1 has delivered it and can still derive its key, from
      the key of number 0 that it keeps. */
  lemma FirstOutOfOrderDeliveryIsRecoverable(
    mac: Mac, material: Bytes, nPaths: nat, payload0: Bytes, messageId0: Bytes, rnd0: SendRandom,
    payload1: Bytes, messageId1: Bytes, rnd1: SendRandom, now: nat)
    requires nPaths > 0
    requires |payload0| <= MAX_PAYLOAD_SIZE && |messageId0| <= MAX_MESSAGE_ID_LEN
    requires |payload1| <= MAX_PAYLOAD_SIZE && |messageId1| <= MAX_MESSAGE_ID_LEN
    ensures var start := NewEndpoint(material, nPaths);
            var alice := Step(mac, Step(mac, start, SendEvent(payload0, messageId0, rnd0)),
                              SendEvent(payload1, messageId1, rnd1));
            && |alice.sent| == 2
            && var bob := Step(mac, start, ReceiveEvent(alice.sent[1].packet, 1, messageId1, now));
            && |bob.accepts| == 1 && bob.accepts[0].payload == payload1
            && Recoverable(bob.ch, Key(Root(material), bob.accepts[0].pos))
  {
    TwoSends(mac, material, nPaths, payload0, messageId0, rnd0, payload1, messageId1, rnd1);
    var start := NewEndpoint(material, nPaths);
    var alice := Step(mac, Step(mac, start, SendEvent(payload0, messageId0, rnd0)), SendEvent(payload1, messageId1, rnd1));
    FirstArrivalIsRecoverable(mac, material, nPaths, alice.sent[1], now);
  }
}
