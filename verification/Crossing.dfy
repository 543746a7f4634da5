/**
 When two ends of one root key cross, and what that costs.

 Both ends advance one chain.  The ends have crossed once each has sent a message whose number the
 other has not reached.  Until then one end leads: its ledger is the mirror image of the other's,
 followed by sends that are still under way.  From the first crossing on some key has sealed twice,
 and no new number is ever reached again.
 */
module Crossing {
  import opened ByteCodec
  import opened ChannelModel
  import opened Delivery
  import opened EndpointTheorems
  import opened Endpoints
  import opened Envelopes
  import opened Interleaving
  import opened Stream
  import opened Symbols
  import opened Wrappers

  /** Each end has sent more messages than the other has reached. */
  predicate Crossed(a: Endpoint, b: Endpoint) {
    |a.sent| > Next(b.ch) && |b.sent| > Next(a.ch)
  }

  /** Some position served both ends for sealing. */
  ghost predicate SharesPosition(a: Endpoint, b: Endpoint) {
    exists i, j :: 0 <= i < |a.sent| && 0 <= j < |b.sent| && a.sent[i].pos == b.sent[j].pos
  }

  /** What the other end of a conversation does with the position. */
  function Mirror(owner: Owner): Owner {
    match owner
    case BySend(i) => ByReceive(i)
    case ByReceive(s) => BySend(s)
  }

  /** The front ledger mirrors the whole back ledger and goes on with sends, from number `next`. */
  ghost predicate LedgerLeads(front: seq<Owner>, back: seq<Owner>, next: nat) {
    && |back| <= |front|
    && (forall p :: 0 <= p < |back| ==> front[p] == Mirror(back[p]))
    && (forall p :: |back| <= p < |front| ==> front[p] == BySend(next + (p - |back|)))
  }

  /** The front end has reached all that the back end sent, and agrees with it on every position. */
  ghost predicate Leads(front: Endpoint, back: Endpoint) {
    |back.sent| == Next(front.ch) && LedgerLeads(front.ledger, back.ledger, Next(back.ch))
  }

  /** The ends have crossed and shared a key, or one leads. */
  ghost predicate Linked(a: Endpoint, b: Endpoint) {
    (Crossed(a, b) && SharesPosition(a, b)) || Leads(a, b) || Leads(b, a)
  }

  /** The part of the invariant of an endpoint that its ledger is about. */
  ghost predicate Booked(ep: Endpoint) {
    && |ep.ledger| == |ep.sent| + Next(ep.ch)
    && Owners(ep.ledger, |ep.sent|, Next(ep.ch))
    && SendsOwn(ep.ledger, ep.sent)
  }

  lemma InvIsBooked(seed: Seed, ep: Endpoint)
    requires Inv(seed, ep)
    ensures Booked(ep)
  {
  }

  lemma SharedIsSymmetric(a: Endpoint, b: Endpoint)
    requires SharesPosition(a, b)
    ensures SharesPosition(b, a)
  {
    var i, j :| 0 <= i < |a.sent| && 0 <= j < |b.sent| && a.sent[i].pos == b.sent[j].pos;
    assert b.sent[j].pos == a.sent[i].pos;
  }

  lemma LinkedIsSymmetric(a: Endpoint, b: Endpoint)
    requires Linked(a, b)
    ensures Linked(b, a)
  {
    if SharesPosition(a, b) {
      SharedIsSymmetric(a, b);
    }
  }

  // ------------------------------------------------------------------ what one call moves

  datatype Move = Stay | Seal | Reach(seqNum: u64)

  /** How a call moved an endpoint along the chain: not at all, by one send, or up to a number. */
  ghost predicate Moved(ep: Endpoint, ep': Endpoint, move: Move) {
    match move
    case Stay =>
      ep'.sent == ep.sent && ep'.ledger == ep.ledger && ep'.ch.lastSeq == ep.ch.lastSeq
    case Seal =>
      && |ep'.sent| == |ep.sent| + 1 && ep'.sent[..|ep.sent|] == ep.sent
      && ep'.ledger == ep.ledger + [BySend(|ep.sent|)] && ep'.ch.lastSeq == ep.ch.lastSeq
    case Reach(n) =>
      && Forward(ep.ch, n) && ep'.ch.lastSeq == Some(n) && ep'.sent == ep.sent
      && ep'.ledger == ep.ledger + Receives(Next(ep.ch), n - Next(ep.ch) + 1)
  }

  /** The other end sealed the message reached at the position at which it is reached. */
  predicate Aligned(ep: Endpoint, peer: Endpoint, move: Move) {
    move.Reach? ==> move.seqNum < |peer.sent| && peer.sent[move.seqNum].pos == |ep.sent| + move.seqNum
  }

  lemma SendMoves(mac: Mac, ep: Endpoint, payload: Bytes, messageId: Bytes, rnd: SendRandom) returns (move: Move)
    ensures Moved(ep, Step(mac, ep, SendEvent(payload, messageId, rnd)), move) && !move.Reach?
  {
    move := if CanSend(ep.ch) && Send(mac, ep.ch, payload, messageId, rnd).1.Ok? then Seal else Stay;
    if CanSend(ep.ch) {
      SendIsAtomic(mac, ep.ch, payload, messageId, rnd);
    }
  }

  lemma DerivedIsReceives(st: ChannelState, n: u64)
    requires Forward(st, n)
    ensures Derived(st, n) == Receives(Next(st), n - Next(st) + 1)
  {
  }

  lemma AcceptingAhead(ep: Endpoint, accept: Accept)
    requires Forward(ep.ch, accept.seqNum)
    ensures var ep' := Accepting(ep, accept);
            && ep'.ch.lastSeq == Some(accept.seqNum) && ep'.sent == ep.sent
            && ep'.ledger == ep.ledger + Derived(ep.ch, accept.seqNum)
  {
  }

  lemma AheadIsReach(ep: Endpoint, ep': Endpoint, n: u64)
    requires Forward(ep.ch, n) && ep'.ch.lastSeq == Some(n) && ep'.sent == ep.sent
    requires ep'.ledger == ep.ledger + Derived(ep.ch, n)
    ensures Moved(ep, ep', Reach(n))
  {
    DerivedIsReceives(ep.ch, n);
  }

  lemma AcceptingLate(ep: Endpoint, accept: Accept)
    requires !Forward(ep.ch, accept.seqNum)
    ensures Moved(ep, Accepting(ep, accept), Stay)
  {
    LateStepIsAccepting(ep, accept);
  }

  lemma AcceptingMoves(ep: Endpoint, accept: Accept)
    ensures Moved(ep, Accepting(ep, accept), if Forward(ep.ch, accept.seqNum) then Reach(accept.seqNum) else Stay)
  {
    if Forward(ep.ch, accept.seqNum) {
      AcceptingAhead(ep, accept);
      AheadIsReach(ep, Accepting(ep, accept), accept.seqNum);
    } else {
      AcceptingLate(ep, accept);
    }
  }

  lemma ReceiveMoves(mac: Mac, seed: Seed, ep: Endpoint,
                     envelopes: seq<Envelope>, seqNum: u64, messageId: Bytes, now: nat) returns (move: Move)
    requires Inv(seed, ep)
    ensures Moved(ep, Step(mac, ep, ReceiveEvent(envelopes, seqNum, messageId, now)), move)
    ensures move == if Forward(ep.ch, seqNum) && Receive(mac, ep.ch, envelopes, seqNum, messageId, now).1.Ok?
                    then Reach(seqNum) else Stay
  {
    ReceiveAcceptsOrKeeps(mac, seed, ep, envelopes, seqNum, messageId, now);
    match Receive(mac, ep.ch, envelopes, seqNum, messageId, now).1
    case Err(_) => move := Stay;
    case Ok(payload) =>
      AcceptingMoves(ep, Accept(seqNum, messageId, payload, now, TargetKey(ep.ch, seqNum, messageId).value.pos));
      move := if Forward(ep.ch, seqNum) then Reach(seqNum) else Stay;
  }

  lemma ReachIsAligned(seed: Seed, ep: Endpoint, peer: Endpoint, r: Result<Bytes, ChannelError>, n: u64,
                       messageId: Bytes)
    requires Shape(seed, ep) && Forward(ep.ch, n) && TargetKey(ep.ch, n, messageId).Ok? && r.Ok?
    requires Faithful(r, peer.sent, TriedAt(ep.ch, n, messageId), n, messageId)
    ensures Aligned(ep, peer, Reach(n))
  {
    ForwardTargetKey(ep.ch, seed, |ep.sent|, n, messageId);
  }

  lemma EventMoves(mac: Mac, material: Bytes, nPaths: nat, ep: Endpoint, peer: Endpoint, air: seq<Sent>, ev: NetEvent)
    returns (move: Move)
    requires EndOk(mac, material, nPaths, ep) && AllGenuine(mac, material, nPaths, peer.sent)
    requires air == ep.sent + peer.sent || air == peer.sent + ep.sent
    requires ev.Deliver? ==> Presentable(material, air, ev.envelopes)
    ensures Moved(ep, Step(mac, ep, CallOf(ev)), move) && Aligned(ep, peer, move)
  {
    match ev
    case Transmit(_, payload, messageId, rnd) =>
      move := SendMoves(mac, ep, payload, messageId, rnd);
    case Deliver(_, envelopes, seqNum, messageId, now) =>
      move := ReceiveMoves(mac, Root(material), ep, envelopes, seqNum, messageId, now);
      if move.Reach? {
        ReceiveIsFaithful(mac, material, nPaths, ep, peer.sent, air, envelopes, seqNum, messageId, now);
        ReceiveAcceptsOrKeeps(mac, Root(material), ep, envelopes, seqNum, messageId, now);
        var r := Receive(mac, ep.ch, envelopes, seqNum, messageId, now).1;
        ReachIsAligned(Root(material), ep, peer, r, seqNum, messageId);
      }
  }

  // ------------------------------------------------------------------ crossing is permanent

  /** A send is sealed at its number, or later by no more than the numbers its end has reached. */
  lemma SealedNotBeyond(ep: Endpoint, i: nat)
    requires Booked(ep) && i < |ep.sent|
    ensures ep.sent[i].pos < |ep.ledger| && ep.ledger[ep.sent[i].pos] == BySend(i)
    ensures i <= ep.sent[i].pos <= i + Next(ep.ch)
  {
  }

  lemma MoveKeepsCrossed(ep: Endpoint, ep': Endpoint, peer: Endpoint, move: Move)
    requires Booked(peer) && Crossed(ep, peer) && Moved(ep, ep', move) && Aligned(ep, peer, move)
    ensures Crossed(ep', peer) && ep'.ch.lastSeq == ep.ch.lastSeq
  {
    if move.Reach? {
      SealedNotBeyond(peer, move.seqNum);
      assert false;
    }
  }

  lemma MoveKeepsShared(ep: Endpoint, ep': Endpoint, peer: Endpoint, move: Move)
    requires SharesPosition(ep, peer) && Moved(ep, ep', move)
    ensures SharesPosition(ep', peer)
  {
    var i, j :| 0 <= i < |ep.sent| && 0 <= j < |peer.sent| && ep.sent[i].pos == peer.sent[j].pos;
    assert ep'.sent[..|ep.sent|][i] == ep.sent[i];
    assert ep'.sent[i].pos == peer.sent[j].pos;
  }

  // ------------------------------------------------------------------ until then one end leads

  lemma LeadsAfterFrontSend(front: seq<Owner>, back: seq<Owner>, next: nat)
    requires LedgerLeads(front, back, next)
    ensures LedgerLeads(front + [BySend(next + (|front| - |back|))], back, next)
  {
  }

  lemma LeadsAfterBackReach(front: seq<Owner>, back: seq<Owner>, next: nat, n: nat)
    requires LedgerLeads(front, back, next) && |back| + n <= |front|
    ensures LedgerLeads(front, back + Receives(next, n), next + n)
  {
    var back' := back + Receives(next, n);
    forall p | |back| <= p < |back'| ensures front[p] == Mirror(back'[p]) {
      assert back'[p] == Receives(next, n)[p - |back|];
    }
  }

  lemma EqualLedgersLeadEitherWay(front: seq<Owner>, back: seq<Owner>, next: nat, next': nat)
    requires LedgerLeads(front, back, next) && |front| == |back|
    ensures LedgerLeads(back, front, next')
  {
  }

  lemma FrontMove(front: Endpoint, front': Endpoint, back: Endpoint, move: Move)
    requires Booked(front) && Booked(back) && Leads(front, back)
    requires Moved(front, front', move) && Aligned(front, back, move)
    ensures Leads(front', back)
  {
    if move.Seal? {
      LeadsAfterFrontSend(front.ledger, back.ledger, Next(back.ch));
    }
  }

  lemma BackSendCrosses(front: Endpoint, back: Endpoint, back': Endpoint)
    requires Booked(front) && Leads(front, back) && |front.sent| > Next(back.ch)
    requires Booked(back) && Booked(back') && Moved(back, back', Seal)
    ensures Crossed(back', front) && SharesPosition(back', front)
  {
    var p := |back.ledger|;
    assert front.ledger[p] == BySend(Next(back.ch));
    assert back'.ledger[p] == BySend(|back.sent|);
    assert back'.sent[|back.sent|].pos == front.sent[Next(back.ch)].pos;
  }

  lemma BackReach(front: Endpoint, back: Endpoint, back': Endpoint, n: u64)
    requires |front.ledger| == |front.sent| + Next(front.ch) && |back.ledger| == |back.sent| + Next(back.ch)
    requires Leads(front, back)
    requires Moved(back, back', Reach(n)) && n < |front.sent|
    ensures Leads(front, back')
  {
    LeadsAfterBackReach(front.ledger, back.ledger, Next(back.ch), n - Next(back.ch) + 1);
  }

  lemma BackSend(front: Endpoint, back: Endpoint, back': Endpoint)
    requires Booked(front) && Booked(back) && Leads(front, back) && |front.sent| <= Next(back.ch)
    requires Moved(back, back', Seal)
    ensures Leads(back', front)
  {
    EqualLedgersLeadEitherWay(front.ledger, back.ledger, Next(back.ch), Next(front.ch));
    FrontMove(back, back', front, Seal);
  }

  lemma BackMove(front: Endpoint, back: Endpoint, back': Endpoint, move: Move)
    requires Booked(front) && Booked(back) && Booked(back') && Leads(front, back)
    requires Moved(back, back', move) && Aligned(back, front, move)
    ensures Linked(back', front)
  {
    match move
    case Stay =>
    case Seal =>
      if |front.sent| > Next(back.ch) {
        BackSendCrosses(front, back, back');
      } else {
        BackSend(front, back, back');
      }
    case Reach(n) =>
      BackReach(front, back, back', n);
  }

  lemma MoveKeepsLinked(ep: Endpoint, ep': Endpoint, peer: Endpoint, move: Move)
    requires Booked(ep) && Booked(ep') && Booked(peer) && Linked(ep, peer)
    requires Moved(ep, ep', move) && Aligned(ep, peer, move)
    ensures Linked(ep', peer)
  {
    if Leads(ep, peer) {
      FrontMove(ep, ep', peer, move);
    } else if Leads(peer, ep) {
      BackMove(peer, ep, ep', move);
    } else {
      MoveKeepsCrossed(ep, ep', peer, move);
      MoveKeepsShared(ep, ep', peer, move);
    }
  }

  // ------------------------------------------------------------------ every run

  ghost predicate SameReached(a: System, b: System) {
    a.alice.ch.lastSeq == b.alice.ch.lastSeq && a.bob.ch.lastSeq == b.bob.ch.lastSeq
  }

  lemma LastOfConcat(events: seq<NetEvent>, more: seq<NetEvent>)
    requires more != []
    ensures (events + more)[..|events + more| - 1] == events + more[..|more| - 1]
    ensures (events + more)[|events + more| - 1] == more[|more| - 1]
  {
  }

  lemma AdmissibleExtends(mac: Mac, material: Bytes, nPaths: nat, events: seq<NetEvent>, ev: NetEvent)
    requires Admissible(mac, material, nPaths, events)
    requires ev.Deliver? ==> Presentable(material, NetRun(mac, NewSystem(material, nPaths), events).OnAir(), ev.envelopes)
    ensures Admissible(mac, material, nPaths, events + [ev])
    ensures NetRun(mac, NewSystem(material, nPaths), events + [ev])
         == NetStep(mac, NetRun(mac, NewSystem(material, nPaths), events), ev)
  {
    LastOfConcat(events, [ev]);
    assert events + [] == events;
  }

  lemma NewEndsAreLinked(material: Bytes, nPaths: nat)
    ensures Linked(NewEndpoint(material, nPaths), NewEndpoint(material, nPaths))
  {
  }

  lemma EventKeepsLinked(mac: Mac, material: Bytes, nPaths: nat, sys: System, ev: NetEvent)
    requires SystemOk(mac, material, nPaths, sys) && Linked(sys.alice, sys.bob)
    requires ev.Deliver? ==> Presentable(material, sys.OnAir(), ev.envelopes)
    ensures Linked(NetStep(mac, sys, ev).alice, NetStep(mac, sys, ev).bob)
  {
    var ep, peer := sys.At(ev.side), sys.At(ev.side.Other());
    EndMoveKeepsLinked(mac, material, nPaths, ep, peer, sys.OnAir(), ev);
    LinkedInSystem(sys, ev.side, Step(mac, ep, CallOf(ev)));
  }

  lemma LinkedInSystem(sys: System, side: Side, ep: Endpoint)
    requires Linked(ep, sys.At(side.Other())) && Linked(sys.At(side.Other()), ep)
    ensures Linked(sys.With(side, ep).alice, sys.With(side, ep).bob)
  {
  }

  lemma EndMoveKeepsLinked(mac: Mac, material: Bytes, nPaths: nat, ep: Endpoint, peer: Endpoint, air: seq<Sent>,
                           ev: NetEvent)
    requires EndOk(mac, material, nPaths, ep) && EndOk(mac, material, nPaths, peer)
    requires Linked(ep, peer) || Linked(peer, ep)
    requires air == ep.sent + peer.sent || air == peer.sent + ep.sent
    requires ev.Deliver? ==> Presentable(material, air, ev.envelopes)
    ensures var ep' := Step(mac, ep, CallOf(ev)); Linked(ep', peer) && Linked(peer, ep')
  {
    var ep' := Step(mac, ep, CallOf(ev));
    if Linked(peer, ep) {
      LinkedIsSymmetric(peer, ep);
    }
    StepKeepsInv(mac, Root(material), ep, CallOf(ev));
    InvIsBooked(Root(material), ep);
    InvIsBooked(Root(material), peer);
    InvIsBooked(Root(material), ep');
    var move := EventMoves(mac, material, nPaths, ep, peer, air, ev);
    MoveKeepsLinked(ep, ep', peer, move);
    LinkedIsSymmetric(ep', peer);
  }

  lemma {:induction false} RunKeepsLinked(mac: Mac, material: Bytes, nPaths: nat, events: seq<NetEvent>)
    requires Admissible(mac, material, nPaths, events)
    ensures var sys := NetRun(mac, NewSystem(material, nPaths), events); Linked(sys.alice, sys.bob)
  {
    if events == [] {
      NewEndsAreLinked(material, nPaths);
    } else {
      var init := events[..|events| - 1];
      RunKeepsLinked(mac, material, nPaths, init);
      NetRunKeepsOk(mac, material, nPaths, init);
      EventKeepsLinked(mac, material, nPaths, NetRun(mac, NewSystem(material, nPaths), init), events[|events| - 1]);
    }
  }

  // ------------------------------------------------------------------ single use over both ends

  lemma LeaderSharesNothing(front: Endpoint, back: Endpoint)
    requires Booked(front) && Booked(back) && Leads(front, back)
    ensures !SharesPosition(front, back) && !Crossed(front, back)
  {
    forall i, j | 0 <= i < |front.sent| && 0 <= j < |back.sent|
      ensures front.sent[i].pos != back.sent[j].pos
    {
      SealedNotBeyond(front, i);
      SealedNotBeyond(back, j);
    }
  }

  lemma SharesNothingIsSymmetric(a: Endpoint, b: Endpoint)
    requires !SharesPosition(a, b)
    ensures !SharesPosition(b, a)
  {
    if SharesPosition(b, a) {
      SharedIsSymmetric(b, a);
      assert false;
    }
  }

  lemma SharedExactlyWhenCrossed(a: Endpoint, b: Endpoint)
    requires Booked(a) && Booked(b) && Linked(a, b)
    ensures SharesPosition(a, b) <==> Crossed(a, b)
  {
    if Leads(a, b) {
      LeaderSharesNothing(a, b);
    } else if Leads(b, a) {
      LeaderSharesNothing(b, a);
      SharesNothingIsSymmetric(b, a);
    }
  }

  /** No two of these sends were sealed with one key. */
  ghost predicate SealedOnce(material: Bytes, sent: seq<Sent>) {
    forall i, j :: 0 <= i < j < |sent| ==> SealingKey(material, sent[i]) != SealingKey(material, sent[j])
  }

  lemma OnceOverBoth(material: Bytes, a: Endpoint, b: Endpoint)
    requires forall i, j :: 0 <= i < j < |a.sent| ==> a.sent[i].pos != a.sent[j].pos
    requires forall i, j :: 0 <= i < j < |b.sent| ==> b.sent[i].pos != b.sent[j].pos
    ensures SealedOnce(material, a.sent + b.sent) <==> !SharesPosition(a, b)
  {
    var air := a.sent + b.sent;
    if SharesPosition(a, b) {
      var i, j :| 0 <= i < |a.sent| && 0 <= j < |b.sent| && a.sent[i].pos == b.sent[j].pos;
      assert air[i] == a.sent[i] && air[|a.sent| + j] == b.sent[j];
    } else {
      forall i, j | 0 <= i < j < |air|
        ensures SealingKey(material, air[i]) != SealingKey(material, air[j])
      {
        if i < |a.sent| <= j {
          assert a.sent[i].pos != b.sent[j - |a.sent|].pos;
        }
      }
    }
  }

  /** Single use over both ends: after any schedule, no key sealed twice exactly when the ends have not
      crossed. */
  lemma SealedOnceExactlyUnlessCrossed(mac: Mac, material: Bytes, nPaths: nat, events: seq<NetEvent>)
    requires Admissible(mac, material, nPaths, events)
    ensures var sys := NetRun(mac, NewSystem(material, nPaths), events);
            SealedOnce(material, sys.OnAir()) <==> !Crossed(sys.alice, sys.bob)
  {
    var sys := NetRun(mac, NewSystem(material, nPaths), events);
    NetRunKeepsOk(mac, material, nPaths, events);
    RunKeepsLinked(mac, material, nPaths, events);
    InvIsBooked(Root(material), sys.alice);
    InvIsBooked(Root(material), sys.bob);
    UsesAreSingle(Root(material), sys.alice);
    UsesAreSingle(Root(material), sys.bob);
    OnceOverBoth(material, sys.alice, sys.bob);
    SharedExactlyWhenCrossed(sys.alice, sys.bob);
  }

  lemma AcceptedWereSent(seed: Seed, ep: Endpoint, sent: seq<Sent>)
    requires Shape(seed, ep) && AllMatch(ep.accepts, sent)
    ensures Next(ep.ch) <= |sent|
  {
  }

  lemma ReachedWereSent(mac: Mac, material: Bytes, nPaths: nat, events: seq<NetEvent>, side: Side)
    requires Admissible(mac, material, nPaths, events)
    ensures var sys := NetRun(mac, NewSystem(material, nPaths), events);
            Next(sys.At(side).ch) <= |sys.At(side.Other()).sent|
  {
    var sys := NetRun(mac, NewSystem(material, nPaths), events);
    NetRunKeepsOk(mac, material, nPaths, events);
    AcceptedWereSent(Root(material), sys.At(side), sys.At(side.Other()).sent);
  }

  lemma TransmitExtends(mac: Mac, material: Bytes, nPaths: nat, events: seq<NetEvent>, side: Side,
                        payload: Bytes, messageId: Bytes, rnd: SendRandom)
    requires Admissible(mac, material, nPaths, events)
    requires var st := NetRun(mac, NewSystem(material, nPaths), events).At(side).ch;
             CanSend(st) && Send(mac, st, payload, messageId, rnd).1.Ok?
    ensures var sys := NetRun(mac, NewSystem(material, nPaths), events);
            var sys' := NetRun(mac, NewSystem(material, nPaths), events + [Transmit(side, payload, messageId, rnd)]);
            && Admissible(mac, material, nPaths, events + [Transmit(side, payload, messageId, rnd)])
            && |sys'.At(side).sent| == |sys.At(side).sent| + 1 && SameReached(sys, sys')
            && sys'.At(side.Other()) == sys.At(side.Other())
  {
    var ep := NetRun(mac, NewSystem(material, nPaths), events).At(side);
    AdmissibleExtends(mac, material, nPaths, events, Transmit(side, payload, messageId, rnd));
    SentGrowsByOne(mac, ep, payload, messageId, rnd);
    SendKeepsRest(mac, ep.ch, payload, messageId, rnd);
  }

  /** When the ends have not crossed, a send keeps every key single exactly if its end has by then
      reached all that the other end sent. */
  lemma SendKeepsSingleUseExactly(mac: Mac, material: Bytes, nPaths: nat, events: seq<NetEvent>, side: Side,
                                  payload: Bytes, messageId: Bytes, rnd: SendRandom)
    requires Admissible(mac, material, nPaths, events)
    requires var sys := NetRun(mac, NewSystem(material, nPaths), events);
             && CanSend(sys.At(side).ch) && Send(mac, sys.At(side).ch, payload, messageId, rnd).1.Ok?
             && !Crossed(sys.alice, sys.bob)
    ensures var sys := NetRun(mac, NewSystem(material, nPaths), events);
            var sys' := NetRun(mac, NewSystem(material, nPaths), events + [Transmit(side, payload, messageId, rnd)]);
            SealedOnce(material, sys'.OnAir()) <==> |sys.At(side.Other()).sent| == Next(sys.At(side).ch)
  {
    var sys := NetRun(mac, NewSystem(material, nPaths), events);
    ReachedWereSent(mac, material, nPaths, events, side);
    ReachedWereSent(mac, material, nPaths, events, side.Other());
    TransmitExtends(mac, material, nPaths, events, side, payload, messageId, rnd);
    SealedOnceExactlyUnlessCrossed(mac, material, nPaths, events + [Transmit(side, payload, messageId, rnd)]);
  }

  /** Which sends of the two ends share a key: those whose number and numbers reached at sealing have
      the same sum. */
  lemma SharedKeyExactly(mac: Mac, material: Bytes, nPaths: nat, events: seq<NetEvent>, i: nat, j: nat)
    requires Admissible(mac, material, nPaths, events)
    requires i < |NetRun(mac, NewSystem(material, nPaths), events).alice.sent|
    requires j < |NetRun(mac, NewSystem(material, nPaths), events).bob.sent|
    ensures var sys := NetRun(mac, NewSystem(material, nPaths), events);
            && sys.alice.sent[i].pos < |sys.alice.ledger| && sys.bob.sent[j].pos < |sys.bob.ledger|
            && (SealingKey(material, sys.alice.sent[i]) == SealingKey(material, sys.bob.sent[j])
                <==> i + ReachedWhenSealing(sys.alice, i) == j + ReachedWhenSealing(sys.bob, j))
  {
    var sys := NetRun(mac, NewSystem(material, nPaths), events);
    NetRunKeepsOk(mac, material, nPaths, events);
    NetRunKeepsTally(mac, material, nPaths, events, Alice);
    NetRunKeepsTally(mac, material, nPaths, events, Bob);
    SealedPosition(Root(material), sys.alice, i);
    SealedPosition(Root(material), sys.bob, j);
  }

  /** A send sealed with a key that the receiver also sealed with was never accepted, and nothing
      presented under its number ever will be. */
  lemma SharedSendIsNeverDelivered(mac: Mac, material: Bytes, nPaths: nat, events: seq<NetEvent>, side: Side,
                                   i: u64, j: nat, envelopes: seq<Envelope>, messageId: Bytes, now: nat)
    requires Admissible(mac, material, nPaths, events)
    requires var sys := NetRun(mac, NewSystem(material, nPaths), events);
             && Presentable(material, sys.OnAir(), envelopes)
             && i < |sys.At(side.Other()).sent| && j < |sys.At(side).sent|
             && SealingKey(material, sys.At(side.Other()).sent[i]) == SealingKey(material, sys.At(side).sent[j])
    ensures var ep := NetRun(mac, NewSystem(material, nPaths), events).At(side);
            !Accepted(ep.accepts, i) && Receive(mac, ep.ch, envelopes, i, messageId, now).1.Err?
  {
    var sys := NetRun(mac, NewSystem(material, nPaths), events);
    var ep, peer := sys.At(side), sys.At(side.Other());
    NetRunKeepsOk(mac, material, nPaths, events);
    OwnPositionIsNotAccepted(mac, material, nPaths, ep, peer.sent, i, j);
    if Receive(mac, ep.ch, envelopes, i, messageId, now).1.Ok? {
      NextDeliveryIsGenuineOrHarmless(mac, material, nPaths, events, side, envelopes, i, messageId, now);
      TargetWasNotSealedAt(Root(material), ep, i, messageId);
      assert false;
    }
  }

  lemma OwnPositionIsNotAccepted(mac: Mac, material: Bytes, nPaths: nat, ep: Endpoint, peer: seq<Sent>, i: u64, j: nat)
    requires EndOk(mac, material, nPaths, ep) && AllMatch(ep.accepts, peer)
    requires i < |peer| && j < |ep.sent| && peer[i].pos == ep.sent[j].pos
    ensures !Accepted(ep.accepts, i)
  {
    forall k | 0 <= k < |ep.accepts| ensures ep.accepts[k].seqNum != i {
      assert Matches(ep.accepts[k], peer);
      assert ep.ledger[ep.accepts[k].pos].ByReceive?;
      assert ep.ledger[ep.sent[j].pos].BySend?;
    }
  }

  // ------------------------------------------------------------------ progress

  lemma EndKeepsCrossed(mac: Mac, material: Bytes, nPaths: nat, ep: Endpoint, peer: Endpoint, air: seq<Sent>,
                        ev: NetEvent)
    requires EndOk(mac, material, nPaths, ep) && EndOk(mac, material, nPaths, peer) && Crossed(ep, peer)
    requires air == ep.sent + peer.sent || air == peer.sent + ep.sent
    requires ev.Deliver? ==> Presentable(material, air, ev.envelopes)
    ensures var ep' := Step(mac, ep, CallOf(ev)); Crossed(ep', peer) && ep'.ch.lastSeq == ep.ch.lastSeq
  {
    InvIsBooked(Root(material), peer);
    var move := EventMoves(mac, material, nPaths, ep, peer, air, ev);
    MoveKeepsCrossed(ep, Step(mac, ep, CallOf(ev)), peer, move);
  }

  lemma EventKeepsCrossed(mac: Mac, material: Bytes, nPaths: nat, sys: System, ev: NetEvent)
    requires SystemOk(mac, material, nPaths, sys) && Crossed(sys.alice, sys.bob)
    requires ev.Deliver? ==> Presentable(material, sys.OnAir(), ev.envelopes)
    ensures var sys' := NetStep(mac, sys, ev); Crossed(sys'.alice, sys'.bob) && SameReached(sys, sys')
  {
    EndKeepsCrossed(mac, material, nPaths, sys.At(ev.side), sys.At(ev.side.Other()), sys.OnAir(), ev);
  }

  /** Ends that have crossed stay crossed, and reach no further number, whatever happens. */
  lemma {:induction false} CrossedForever(mac: Mac, material: Bytes, nPaths: nat, events: seq<NetEvent>,
                                          more: seq<NetEvent>)
    requires Admissible(mac, material, nPaths, events + more)
    requires var sys := NetRun(mac, NewSystem(material, nPaths), events); Crossed(sys.alice, sys.bob)
    ensures var sys := NetRun(mac, NewSystem(material, nPaths), events);
            var sys' := NetRun(mac, NewSystem(material, nPaths), events + more);
            Crossed(sys'.alice, sys'.bob) && SameReached(sys, sys')
  {
    if more == [] {
      assert events + more == events;
    } else {
      var init, ev := more[..|more| - 1], more[|more| - 1];
      LastOfConcat(events, more);
      CrossedForever(mac, material, nPaths, events, init);
      NetRunKeepsOk(mac, material, nPaths, events + init);
      EventKeepsCrossed(mac, material, nPaths, NetRun(mac, NewSystem(material, nPaths), events + init), ev);
    }
  }

  /** Every packet an end has sent is on the air. */
  lemma SentIsOnAir(material: Bytes, sys: System, side: Side, i: nat)
    requires i < |sys.At(side).sent|
    ensures Presentable(material, sys.OnAir(), sys.At(side).sent[i].packet)
  {
    var k := if side.Alice? then i else |sys.alice.sent| + i;
    assert sys.OnAir()[k] == sys.At(side).sent[i];
    SentIsPresentable(material, sys.OnAir(), k);
  }

  lemma FirstUnreached(mac: Mac, material: Bytes, nPaths: nat, front: Endpoint, back: Endpoint)
    requires EndOk(mac, material, nPaths, front) && Booked(back) && Leads(front, back) && Next(back.ch) < |front.sent|
    ensures Next(back.ch) < U64_LIMIT
    ensures Genuine(mac, material, nPaths, Next(back.ch), front.sent[Next(back.ch)])
    ensures front.sent[Next(back.ch)].pos == |back.sent| + Next(back.ch)
  {
    assert Genuine(mac, material, nPaths, Next(back.ch), front.sent[Next(back.ch)]);
    InvIsBooked(Root(material), front);
    FirstUnreachedPosition(front, back);
  }

  lemma FirstUnreachedPosition(front: Endpoint, back: Endpoint)
    requires Booked(front) && Booked(back) && Leads(front, back) && Next(back.ch) < |front.sent|
    ensures front.sent[Next(back.ch)].pos == |back.sent| + Next(back.ch)
  {
    assert front.ledger[|back.ledger|] == BySend(Next(back.ch));
  }

  lemma NextPacketIsReached(mac: Mac, material: Bytes, nPaths: nat, ep: Endpoint, n: u64, sent: Sent, now: nat)
    requires EndOk(mac, material, nPaths, ep) && Genuine(mac, material, nPaths, n, sent)
    requires n == Next(ep.ch) && sent.pos == |ep.sent| + n
    ensures Step(mac, ep, ReceiveEvent(sent.packet, n, sent.messageId, now)).ch.lastSeq != ep.ch.lastSeq
  {
    NewPacketAnswer(Root(material), ep, n, sent, |ep.sent|);
    UntouchedPacketAnswer(mac, material, nPaths, ep, n, sent, now);
    ForwardOkMovesNext(mac, ep, sent.packet, n, sent.messageId, now);
  }

  /** The leading end's first packet not yet reached is reached when it is delivered. */
  lemma LeadAdvances(mac: Mac, material: Bytes, nPaths: nat, events: seq<NetEvent>, side: Side, now: nat)
    returns (ev: NetEvent)
    requires Admissible(mac, material, nPaths, events)
    requires var sys := NetRun(mac, NewSystem(material, nPaths), events);
             Leads(sys.At(side.Other()), sys.At(side)) && Next(sys.At(side).ch) < |sys.At(side.Other()).sent|
    ensures Admissible(mac, material, nPaths, events + [ev])
    ensures NetRun(mac, NewSystem(material, nPaths), events + [ev]).At(side).ch.lastSeq
         != NetRun(mac, NewSystem(material, nPaths), events).At(side).ch.lastSeq
  {
    var sys := NetRun(mac, NewSystem(material, nPaths), events);
    NetRunKeepsOk(mac, material, nPaths, events);
    ev := LedEndAdvances(mac, material, nPaths, sys, side, now);
    AdmissibleExtends(mac, material, nPaths, events, ev);
  }

  lemma LedEndAdvances(mac: Mac, material: Bytes, nPaths: nat, sys: System, side: Side, now: nat) returns (ev: NetEvent)
    requires SystemOk(mac, material, nPaths, sys)
    requires Leads(sys.At(side.Other()), sys.At(side)) && Next(sys.At(side).ch) < |sys.At(side.Other()).sent|
    ensures ev.Deliver? && ev.side == side && Presentable(material, sys.OnAir(), ev.envelopes)
    ensures Step(mac, sys.At(side), CallOf(ev)).ch.lastSeq != sys.At(side).ch.lastSeq
  {
    var front, back := sys.At(side.Other()), sys.At(side);
    InvIsBooked(Root(material), back);
    FirstUnreached(mac, material, nPaths, front, back);
    var n, sent := Next(back.ch), front.sent[Next(back.ch)];
    NextPacketIsReached(mac, material, nPaths, back, n, sent, now);
    SentIsOnAir(material, sys, side.Other(), n);
    ev := Deliver(side, sent.packet, n, sent.messageId, now);
  }

  /** The leading end sends once more and keeps the lead. */
  lemma LeadGrows(mac: Mac, material: Bytes, nPaths: nat, sys: System, side: Side, rnd: SendRandom)
    requires SystemOk(mac, material, nPaths, sys) && nPaths > 0
    requires Leads(sys.At(side), sys.At(side.Other())) && CanSend(sys.At(side).ch)
    ensures var sys' := NetStep(mac, sys, Transmit(side, [], [], rnd));
            && Leads(sys'.At(side), sys'.At(side.Other())) && SameReached(sys, sys')
            && |sys'.At(side).sent| == |sys.At(side).sent| + 1
            && sys'.At(side.Other()) == sys.At(side.Other())
  {
    var front, back := sys.At(side), sys.At(side.Other());
    var front' := Step(mac, front, SendEvent([], [], rnd));
    SendIsAtomic(mac, front.ch, [], [], rnd);
    SentGrowsByOne(mac, front, [], [], rnd);
    var move := SendMoves(mac, front, [], [], rnd);
    InvIsBooked(Root(material), front);
    InvIsBooked(Root(material), back);
    FrontMove(front, front', back, move);
  }

  lemma LeadSendsOnceMore(mac: Mac, material: Bytes, nPaths: nat, events: seq<NetEvent>, side: Side, rnd: SendRandom)
    requires Admissible(mac, material, nPaths, events) && nPaths > 0
    requires var sys := NetRun(mac, NewSystem(material, nPaths), events);
             Leads(sys.At(side.Other()), sys.At(side)) && CanSend(sys.At(side.Other()).ch)
    ensures var events' := events + [Transmit(side.Other(), [], [], rnd)];
            var sys := NetRun(mac, NewSystem(material, nPaths), events);
            var sys' := NetRun(mac, NewSystem(material, nPaths), events');
            && Admissible(mac, material, nPaths, events')
            && Leads(sys'.At(side.Other()), sys'.At(side)) && sys'.At(side) == sys.At(side)
            && |sys'.At(side.Other()).sent| == |sys.At(side.Other()).sent| + 1
  {
    NetRunKeepsOk(mac, material, nPaths, events);
    LeadGrows(mac, material, nPaths, NetRun(mac, NewSystem(material, nPaths), events), side.Other(), rnd);
    AdmissibleExtends(mac, material, nPaths, events, Transmit(side.Other(), [], [], rnd));
  }

  lemma LeadSendsAndAdvances(mac: Mac, material: Bytes, nPaths: nat, events: seq<NetEvent>, side: Side, rnd: SendRandom,
                             now: nat) returns (more: seq<NetEvent>)
    requires Admissible(mac, material, nPaths, events) && nPaths > 0
    requires var sys := NetRun(mac, NewSystem(material, nPaths), events);
             && Leads(sys.At(side.Other()), sys.At(side)) && CanSend(sys.At(side.Other()).ch)
             && Next(sys.At(side).ch) == |sys.At(side.Other()).sent|
    ensures Admissible(mac, material, nPaths, events + more)
    ensures NetRun(mac, NewSystem(material, nPaths), events + more).At(side).ch.lastSeq
         != NetRun(mac, NewSystem(material, nPaths), events).At(side).ch.lastSeq
  {
    var out := Transmit(side.Other(), [], [], rnd);
    LeadSendsOnceMore(mac, material, nPaths, events, side, rnd);
    var ev := LeadAdvances(mac, material, nPaths, events + [out], side, now);
    more := [out] + [ev];
    assert events + more == events + [out] + [ev];
  }

  lemma SomeEndLeads(mac: Mac, material: Bytes, nPaths: nat, events: seq<NetEvent>) returns (side: Side)
    requires Admissible(mac, material, nPaths, events)
    requires var sys := NetRun(mac, NewSystem(material, nPaths), events); !Crossed(sys.alice, sys.bob)
    ensures var sys := NetRun(mac, NewSystem(material, nPaths), events);
            Leads(sys.At(side.Other()), sys.At(side)) && Next(sys.At(side).ch) <= |sys.At(side.Other()).sent|
  {
    var sys := NetRun(mac, NewSystem(material, nPaths), events);
    RunKeepsLinked(mac, material, nPaths, events);
    side := if Leads(sys.alice, sys.bob) then Bob else Alice;
    ReachedWereSent(mac, material, nPaths, events, side);
  }

  /** Ends that have not crossed can go on: some further schedule reaches a new number. */
  lemma UncrossedAdvances(mac: Mac, material: Bytes, nPaths: nat, events: seq<NetEvent>, rnd: SendRandom, now: nat)
    returns (more: seq<NetEvent>)
    requires Admissible(mac, material, nPaths, events) && nPaths > 0
    requires var sys := NetRun(mac, NewSystem(material, nPaths), events);
             CanSend(sys.alice.ch) && CanSend(sys.bob.ch) && !Crossed(sys.alice, sys.bob)
    ensures Admissible(mac, material, nPaths, events + more)
    ensures !SameReached(NetRun(mac, NewSystem(material, nPaths), events),
                         NetRun(mac, NewSystem(material, nPaths), events + more))
  {
    var sys := NetRun(mac, NewSystem(material, nPaths), events);
    var side := SomeEndLeads(mac, material, nPaths, events);
    if Next(sys.At(side).ch) < |sys.At(side.Other()).sent| {
      var ev := LeadAdvances(mac, material, nPaths, events, side, now);
      more := [ev];
    } else {
      more := LeadSendsAndAdvances(mac, material, nPaths, events, side, rnd, now);
    }
  }

  /** Crossing is exactly what stops a conversation: after any schedule, the ends have crossed if and
      only if no further schedule whatever reaches a new number at either end. */
  lemma StuckExactlyWhenCrossed(mac: Mac, material: Bytes, nPaths: nat, events: seq<NetEvent>, rnd: SendRandom)
    requires Admissible(mac, material, nPaths, events) && nPaths > 0
    requires var sys := NetRun(mac, NewSystem(material, nPaths), events); CanSend(sys.alice.ch) && CanSend(sys.bob.ch)
    ensures var sys := NetRun(mac, NewSystem(material, nPaths), events);
            Crossed(sys.alice, sys.bob)
            <==> forall more :: Admissible(mac, material, nPaths, events + more) ==>
                   SameReached(sys, NetRun(mac, NewSystem(material, nPaths), events + more))
  {
    var sys := NetRun(mac, NewSystem(material, nPaths), events);
    if Crossed(sys.alice, sys.bob) {
      forall more | Admissible(mac, material, nPaths, events + more)
        ensures SameReached(sys, NetRun(mac, NewSystem(material, nPaths), events + more))
      {
        CrossedForever(mac, material, nPaths, events, more);
      }
    } else {
      var more := UncrossedAdvances(mac, material, nPaths, events, rnd, 0);
    }
  }

  // ------------------------------------------------------------------ conversations in turns

  lemma {:induction false} ConversationIsARun(mac: Mac, material: Bytes, nPaths: nat, turns: seq<Turn>)
    returns (events: seq<NetEvent>)
    ensures Admissible(mac, material, nPaths, events)
    ensures NetRun(mac, NewSystem(material, nPaths), events) == Converse(mac, NewSystem(material, nPaths), turns)
  {
    if turns == [] {
      events := [];
    } else {
      var init, turn := turns[..|turns| - 1], turns[|turns| - 1];
      events := ConversationIsARun(mac, material, nPaths, init);
      var sys := NetRun(mac, NewSystem(material, nPaths), events);
      if TurnSucceeds(mac, sys, turn) {
        var (out, arrival) := TurnEvents(mac, sys, turn);
        AdmissibleExtends(mac, material, nPaths, events, out);
        TurnPacketIsOnAir(mac, material, sys, turn);
        AdmissibleExtends(mac, material, nPaths, events + [out], arrival);
        events := events + [out] + [arrival];
      }
    }
  }

  lemma TurnPacketIsOnAir(mac: Mac, material: Bytes, sys: System, turn: Turn)
    requires TurnSucceeds(mac, sys, turn)
    ensures var (out, arrival) := TurnEvents(mac, sys, turn);
            Presentable(material, NetStep(mac, sys, out).OnAir(), arrival.envelopes)
  {
    var ep := sys.At(turn.side);
    var out := TurnEvents(mac, sys, turn).0;
    SentGrowsByOne(mac, ep, turn.payload, turn.messageId, turn.rnd);
    SentIsOnAir(material, NetStep(mac, sys, out), turn.side, |ep.sent|);
  }

  /** A conversation in turns never seals twice with one key. */
  lemma TurnsSealOnce(mac: Mac, material: Bytes, nPaths: nat, turns: seq<Turn>)
    requires nPaths > 0 && |turns| < U64_LIMIT
    requires forall i :: 0 <= i < |turns| ==> Sendable(turns[i])
    ensures SealedOnce(material, Converse(mac, NewSystem(material, nPaths), turns).OnAir())
  {
    var events := ConversationIsARun(mac, material, nPaths, turns);
    ConversationStaysInStep(mac, material, nPaths, turns);
    SealedOnceExactlyUnlessCrossed(mac, material, nPaths, events);
  }
}
