/**
 Both ends sending: which untouched packets are accepted, late ones included, read off the order in
 which each end made its derivations.
 */
module Interleaving {
  import opened ByteCodec
  import opened ChannelModel
  import opened Delivery
  import opened Endpoints
  import opened Envelopes
  import opened Stream
  import opened Symbols
  import opened Wrappers

  /** How many of these positions were derived for sending. */
  function SendsIn(ledger: seq<Owner>): (n: nat)
    ensures n <= |ledger|
  {
    if ledger == [] then 0
    else SendsIn(ledger[..|ledger| - 1]) + if ledger[|ledger| - 1].BySend? then 1 else 0
  }

  /** How many were derived for receiving, one for each sequence number reached. */
  function ReceivesIn(ledger: seq<Owner>): nat {
    |ledger| - SendsIn(ledger)
  }

  /** The owner that position `|before|` has when nothing was passed over. */
  predicate Follows(owner: Owner, before: seq<Owner>) {
    match owner
    case BySend(i) => i == SendsIn(before)
    case ByReceive(s) => s == ReceivesIn(before)
  }

  /** Sends and numbers each come in order, none left out. */
  predicate InSequence(ledger: seq<Owner>) {
    ledger != [] ==>
      var before := ledger[..|ledger| - 1];
      InSequence(before) && Follows(ledger[|ledger| - 1], before)
  }

  lemma {:induction false} FollowsAt(ledger: seq<Owner>, p: nat)
    requires InSequence(ledger) && p < |ledger|
    ensures Follows(ledger[p], ledger[..p])
  {
    var before := ledger[..|ledger| - 1];
    if p < |before| {
      FollowsAt(before, p);
      assert before[..p] == ledger[..p];
    }
  }

  ghost predicate Tallied(ep: Endpoint) {
    InSequence(ep.ledger) && SendsIn(ep.ledger) == |ep.sent|
  }

  // ------------------------------------------------------------------ every step keeps the tally

  lemma InSequenceAfterPush(ledger: seq<Owner>, owner: Owner)
    requires InSequence(ledger) && Follows(owner, ledger)
    ensures InSequence(ledger + [owner])
    ensures SendsIn(ledger + [owner]) == SendsIn(ledger) + if owner.BySend? then 1 else 0
  {
    assert (ledger + [owner])[..|ledger|] == ledger;
  }

  function Receives(from: nat, n: nat): seq<Owner> {
    seq(n, k requires 0 <= k => ByReceive(from + k))
  }

  lemma OneMoreReceive(ledger: seq<Owner>, from: nat, n: nat)
    ensures ledger + Receives(from, n + 1) == ledger + Receives(from, n) + [ByReceive(from + n)]
  {
  }

  lemma NoReceives(ledger: seq<Owner>, from: nat)
    ensures ledger + Receives(from, 0) == ledger
  {
  }

  lemma {:induction false} InSequenceAfterReceives(ledger: seq<Owner>, from: nat, n: nat)
    requires InSequence(ledger) && from == ReceivesIn(ledger)
    ensures InSequence(ledger + Receives(from, n)) && SendsIn(ledger + Receives(from, n)) == SendsIn(ledger)
  {
    if n == 0 {
      NoReceives(ledger, from);
    } else {
      InSequenceAfterReceives(ledger, from, n - 1);
      InSequenceAfterPush(ledger + Receives(from, n - 1), ByReceive(from + n - 1));
      OneMoreReceive(ledger, from, n - 1);
    }
  }

  lemma InSequenceAfterDerived(ledger: seq<Owner>, st: ChannelState, seqNum: u64)
    requires InSequence(ledger) && Next(st) == ReceivesIn(ledger)
    ensures InSequence(ledger + Derived(st, seqNum)) && SendsIn(ledger + Derived(st, seqNum)) == SendsIn(ledger)
  {
    if Forward(st, seqNum) {
      assert Derived(st, seqNum) == Receives(Next(st), seqNum - Next(st) + 1);
      InSequenceAfterReceives(ledger, Next(st), seqNum - Next(st) + 1);
    } else {
      assert ledger + [] == ledger;
    }
  }

  lemma SendKeepsTally(mac: Mac, ep: Endpoint, payload: Bytes, messageId: Bytes, rnd: SendRandom)
    requires Tallied(ep)
    ensures Tallied(Step(mac, ep, SendEvent(payload, messageId, rnd)))
  {
    InSequenceAfterPush(ep.ledger, BySend(|ep.sent|));
  }

  lemma AcceptKeepsTally(seed: Seed, ep: Endpoint, accept: Accept)
    requires Shape(seed, ep) && Tallied(ep)
    ensures Tallied(Accepting(ep, accept))
  {
    InSequenceAfterDerived(ep.ledger, ep.ch, accept.seqNum);
  }

  lemma ReceiveKeepsTally(mac: Mac, seed: Seed, ep: Endpoint,
                          envelopes: seq<Envelope>, seqNum: u64, messageId: Bytes, now: nat)
    requires Inv(seed, ep) && Tallied(ep)
    ensures Tallied(Step(mac, ep, ReceiveEvent(envelopes, seqNum, messageId, now)))
  {
    ReceiveAcceptsOrKeeps(mac, seed, ep, envelopes, seqNum, messageId, now);
    var r := Receive(mac, ep.ch, envelopes, seqNum, messageId, now).1;
    if r.Ok? {
      var accept := Accept(seqNum, messageId, r.value, now, TargetKey(ep.ch, seqNum, messageId).value.pos);
      AcceptKeepsTally(seed, ep, accept);
    }
  }

  lemma {:induction false} NetRunKeepsTally(mac: Mac, material: Bytes, nPaths: nat, events: seq<NetEvent>, side: Side)
    requires Admissible(mac, material, nPaths, events)
    ensures Tallied(NetRun(mac, NewSystem(material, nPaths), events).At(side))
  {
    if events != [] {
      var init, ev := events[..|events| - 1], events[|events| - 1];
      NetRunKeepsTally(mac, material, nPaths, init, side);
      NetRunKeepsOk(mac, material, nPaths, init);
      var ep := NetRun(mac, NewSystem(material, nPaths), init).At(side);
      if ev.side == side {
        match ev
        case Transmit(_, payload, messageId, rnd) =>
          SendKeepsTally(mac, ep, payload, messageId, rnd);
        case Deliver(_, envelopes, seqNum, messageId, now) =>
          ReceiveKeepsTally(mac, Root(material), ep, envelopes, seqNum, messageId, now);
      }
    }
  }

  // ------------------------------------------------------------------ acceptance

  /** How many numbers the sender had reached when it sealed send `i`. */
  function ReachedWhenSealing(peer: Endpoint, i: nat): nat
    requires i < |peer.sent| && peer.sent[i].pos <= |peer.ledger|
  {
    ReceivesIn(peer.ledger[..peer.sent[i].pos])
  }

  /** How many messages the receiver had sent when it derived the key of number `i`; for a number
      ahead it derives it now. */
  function SentWhenDeriving(ep: Endpoint, i: u64): nat
    requires WithinReach(ep.ch, i) && (i in ep.ch.skipped ==> ep.ch.skipped[i].pos <= |ep.ledger|)
  {
    if Forward(ep.ch, i) then |ep.sent| else SendsIn(ep.ledger[..ep.ch.skipped[i].pos])
  }

  lemma SealedPosition(seed: Seed, peer: Endpoint, i: nat)
    requires LedgerOk(seed, peer) && Tallied(peer) && i < |peer.sent|
    ensures peer.sent[i].pos < |peer.ledger| && peer.sent[i].pos == i + ReachedWhenSealing(peer, i)
  {
    FollowsAt(peer.ledger, peer.sent[i].pos);
  }

  lemma StoredPosition(seed: Seed, ep: Endpoint, i: u64)
    requires LedgerOk(seed, ep) && Tallied(ep) && i in ep.ch.skipped
    ensures ep.ch.skipped[i].pos < |ep.ledger|
    ensures ep.ch.skipped[i].pos == i + SendsIn(ep.ledger[..ep.ch.skipped[i].pos])
  {
    FollowsAt(ep.ledger, ep.ch.skipped[i].pos);
  }

  lemma TargetPosition(seed: Seed, ep: Endpoint, i: u64, messageId: Bytes)
    requires Shape(seed, ep) && LedgerOk(seed, ep) && Tallied(ep)
    ensures TargetKey(ep.ch, i, messageId).Ok? <==> WithinReach(ep.ch, i)
    ensures i in ep.ch.skipped ==> ep.ch.skipped[i].pos < |ep.ledger|
    ensures WithinReach(ep.ch, i) ==> TargetKey(ep.ch, i, messageId).value.pos == i + SentWhenDeriving(ep, i)
  {
    if i in ep.ch.skipped {
      StoredPosition(seed, ep, i);
    }
  }

  /** The untouched packet `i` of the other end finds its key: its number is within reach, and the
      receiver had sent, when it derived the key, as many messages as the sender had reached numbers
      when it sealed the packet. */
  ghost predicate KeysMeet(ep: Endpoint, peer: Endpoint, i: u64)
    requires i < |peer.sent| && peer.sent[i].pos <= |peer.ledger|
    requires i in ep.ch.skipped ==> ep.ch.skipped[i].pos <= |ep.ledger|
  {
    WithinReach(ep.ch, i) && SentWhenDeriving(ep, i) == ReachedWhenSealing(peer, i)
  }

  lemma MeetingKeysOpen(seed: Seed, ep: Endpoint, peer: Endpoint, i: u64)
    requires Inv(seed, ep) && Tallied(ep) && Inv(seed, peer) && Tallied(peer) && i < |peer.sent|
    ensures peer.sent[i].pos < |peer.ledger|
    ensures i in ep.ch.skipped ==> ep.ch.skipped[i].pos < |ep.ledger|
    ensures if KeysMeet(ep, peer, i) then AnswerTo(ep.ch, i, peer.sent[i]) == Ok(peer.sent[i].payload)
            else AnswerTo(ep.ch, i, peer.sent[i]).Err?
  {
    SealedPosition(seed, peer, i);
    TargetPosition(seed, ep, i, peer.sent[i].messageId);
  }

  /** Over any schedule with both ends sending and receiving, in order or late, an untouched packet of
      the other end is accepted, with its payload, exactly when the keys meet. */
  lemma AcceptedExactlyWhenKeysMeet(mac: Mac, material: Bytes, nPaths: nat, events: seq<NetEvent>, side: Side,
                                    i: u64, now: nat)
    requires Admissible(mac, material, nPaths, events)
    requires i < |NetRun(mac, NewSystem(material, nPaths), events).At(side.Other()).sent|
    ensures var sys := NetRun(mac, NewSystem(material, nPaths), events);
            var ep, peer := sys.At(side), sys.At(side.Other());
            var r := Receive(mac, ep.ch, peer.sent[i].packet, i, peer.sent[i].messageId, now).1;
            && peer.sent[i].pos < |peer.ledger| && (i in ep.ch.skipped ==> ep.ch.skipped[i].pos < |ep.ledger|)
            && if KeysMeet(ep, peer, i) then r == Ok(peer.sent[i].payload) else r.Err?
  {
    var sys := NetRun(mac, NewSystem(material, nPaths), events);
    NetRunKeepsOk(mac, material, nPaths, events);
    NetRunKeepsTally(mac, material, nPaths, events, side);
    NetRunKeepsTally(mac, material, nPaths, events, side.Other());
    HonestPacketAccepted(mac, material, nPaths, events, side, i, now);
    MeetingKeysOpen(Root(material), sys.At(side), sys.At(side.Other()), i);
  }

  /** Reorder tolerance in two directions: within the skip window on either side, an untouched packet
      not yet accepted is accepted exactly when the two counts agree; no eviction interferes. */
  lemma TwoWayReorderTolerance(mac: Mac, material: Bytes, nPaths: nat, events: seq<NetEvent>, side: Side,
                               i: u64, now: nat)
    requires Admissible(mac, material, nPaths, events)
    requires i < |NetRun(mac, NewSystem(material, nPaths), events).At(side.Other()).sent|
    requires Near(NetRun(mac, NewSystem(material, nPaths), events).At(side), i)
    ensures var sys := NetRun(mac, NewSystem(material, nPaths), events);
            var ep, peer := sys.At(side), sys.At(side.Other());
            var r := Receive(mac, ep.ch, peer.sent[i].packet, i, peer.sent[i].messageId, now).1;
            && peer.sent[i].pos < |peer.ledger|
            && WithinReach(ep.ch, i) && (i in ep.ch.skipped ==> ep.ch.skipped[i].pos < |ep.ledger|)
            && (r == Ok(peer.sent[i].payload) <==> SentWhenDeriving(ep, i) == ReachedWhenSealing(peer, i))
  {
    NetRunKeepsOk(mac, material, nPaths, events);
    NearIsWithinReach(Root(material), NetRun(mac, NewSystem(material, nPaths), events).At(side), i);
    AcceptedExactlyWhenKeysMeet(mac, material, nPaths, events, side, i, now);
  }
}
