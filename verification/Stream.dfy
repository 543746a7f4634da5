/**
 Two ends of a channel joined by a hostile network, each sending and receiving.

 The network may lose, reorder, duplicate, reflect and replace packets.  What it presents
 it builds from plain bytes, from boxes under keys it can make itself, and from any
 cells it has seen on the wire, cut and pasted as it likes; it cannot make ciphertext
 or tag bytes under a key of the chain.
 */
module Stream {
  import opened ByteCodec
  import opened ChannelModel
  import opened Decoys
  import opened Endpoints
  import opened Envelopes
  import opened PathEngine
  import opened Symbols
  import opened Wrappers

  datatype Side = Alice | Bob {
    function Other(): Side {
      if Alice? then Bob else Alice
    }
  }

  datatype System = System(alice: Endpoint, bob: Endpoint) {
    function At(side: Side): Endpoint {
      if side.Alice? then alice else bob
    }

    function With(side: Side, ep: Endpoint): System {
      if side.Alice? then this.(alice := ep) else this.(bob := ep)
    }

    /** Everything either end ever put on the wire. */
    function OnAir(): seq<Sent> {
      alice.sent + bob.sent
    }
  }

  datatype NetEvent =
    | Transmit(side: Side, payload: Bytes, messageId: Bytes, rnd: SendRandom)
    | Deliver(side: Side, envelopes: seq<Envelope>, seqNum: u64, messageId: Bytes, now: nat)

  function NewSystem(material: Bytes, nPaths: nat): System {
    System(NewEndpoint(material, nPaths), NewEndpoint(material, nPaths))
  }

  /** The call that an event of the network makes at its end. */
  function CallOf(ev: NetEvent): Event {
    match ev
    case Transmit(_, payload, messageId, rnd) => SendEvent(payload, messageId, rnd)
    case Deliver(_, envelopes, seqNum, messageId, now) => ReceiveEvent(envelopes, seqNum, messageId, now)
  }

  function NetStep(mac: Mac, sys: System, ev: NetEvent): System {
    sys.With(ev.side, Step(mac, sys.At(ev.side), CallOf(ev)))
  }

  function NetRun(mac: Mac, start: System, events: seq<NetEvent>): System {
    if events == [] then start
    else NetStep(mac, NetRun(mac, start, events[..|events| - 1]), events[|events| - 1])
  }

  // ------------------------------------------------------------------ what the network can present

  ghost predicate OnWire(sent: seq<Sent>, cell: Cell) {
    exists i, j, k :: 0 <= i < |sent| && 0 <= j < |sent[i].packet| && 0 <= k < ENVELOPE_TOTAL_LEN
                      && sent[i].packet[j][k] == cell
  }

  ghost predicate Derivable(material: Bytes, sent: seq<Sent>, cell: Cell) {
    cell.Raw? || cell.box.key.seed != Root(material) || OnWire(sent, cell)
  }

  ghost predicate Presentable(material: Bytes, sent: seq<Sent>, envelopes: seq<Envelope>) {
    forall j, k :: 0 <= j < |envelopes| && 0 <= k < ENVELOPE_TOTAL_LEN ==>
      Derivable(material, sent, envelopes[j][k])
  }

  /** Every packet delivered in the run was presentable when it arrived. */
  ghost predicate Admissible(mac: Mac, material: Bytes, nPaths: nat, events: seq<NetEvent>) {
    events != [] ==>
      var init, ev := events[..|events| - 1], events[|events| - 1];
      && Admissible(mac, material, nPaths, init)
      && (ev.Deliver? ==>
            Presentable(material, NetRun(mac, NewSystem(material, nPaths), init).OnAir(), ev.envelopes))
  }

  /** Every packet delivered in the run is one that was sent before, untouched. */
  ghost predicate Untampered(mac: Mac, material: Bytes, nPaths: nat, events: seq<NetEvent>) {
    events != [] ==>
      var init, ev := events[..|events| - 1], events[|events| - 1];
      && Untampered(mac, material, nPaths, init)
      && (ev.Deliver? ==>
            var sent := NetRun(mac, NewSystem(material, nPaths), init).OnAir();
            exists i :: 0 <= i < |sent| && sent[i].packet == ev.envelopes)
  }

  lemma SentIsPresentable(material: Bytes, sent: seq<Sent>, i: nat)
    requires i < |sent|
    ensures Presentable(material, sent, sent[i].packet)
  {
  }

  /** A network that only loses, reorders, duplicates and reflects packets is among those allowed. */
  lemma {:induction false} UntamperedIsAdmissible(mac: Mac, material: Bytes, nPaths: nat, events: seq<NetEvent>)
    requires Untampered(mac, material, nPaths, events)
    ensures Admissible(mac, material, nPaths, events)
  {
    if events != [] {
      var init, ev := events[..|events| - 1], events[|events| - 1];
      UntamperedIsAdmissible(mac, material, nPaths, init);
      if ev.Deliver? {
        var sent := NetRun(mac, NewSystem(material, nPaths), init).OnAir();
        var i :| 0 <= i < |sent| && sent[i].packet == ev.envelopes;
        SentIsPresentable(material, sent, i);
      }
    }
  }

  // ------------------------------------------------------------------ genuine sends

  /** Send number `i` is what `send` makes of its payload and message id at its chain position. */
  ghost predicate Genuine(mac: Mac, material: Bytes, nPaths: nat, i: nat, sent: Sent) {
    && i < U64_LIMIT && nPaths > 0
    && |sent.payload| <= MAX_PAYLOAD_SIZE && |sent.messageId| <= MAX_MESSAGE_ID_LEN
    && sent.packet == Slots(Wire(BoxOf(material, i, sent)), SlotOf(mac, material, nPaths, sent), nPaths,
                            Aad(i, sent.messageId), sent.rnd.decoys)
  }

  function SealingKey(material: Bytes, sent: Sent): Key {
    Key(Root(material), sent.pos)
  }

  function BoxOf(material: Bytes, i: u64, sent: Sent): (box: Box)
    requires |sent.payload| <= MAX_PAYLOAD_SIZE
    ensures WellSized(box)
  {
    RealBox(SealingKey(material, sent), i, sent.payload, sent.messageId, sent.rnd)
  }

  function SlotOf(mac: Mac, material: Bytes, nPaths: nat, sent: Sent): (slot: nat)
    requires nPaths > 0
    ensures slot < nPaths
  {
    SelectSlot(mac, SealingKey(material, sent), sent.messageId, nPaths).value
  }

  /** The box in slot `j` of a genuine packet. */
  function BoxAt(mac: Mac, material: Bytes, nPaths: nat, i: u64, sent: Sent, j: nat): (box: Box)
    requires nPaths > 0 && |sent.payload| <= MAX_PAYLOAD_SIZE
    ensures WellSized(box)
  {
    if j == SlotOf(mac, material, nPaths, sent) then BoxOf(material, i, sent)
    else DecoyBox(Aad(i, sent.messageId), sent.rnd.decoys(j))
  }

  ghost predicate AllGenuine(mac: Mac, material: Bytes, nPaths: nat, sent: seq<Sent>) {
    forall i :: 0 <= i < |sent| ==> Genuine(mac, material, nPaths, i, sent[i])
  }

  /** Every cell of a genuine packet under a chain key belongs to the packet's one real box. */
  lemma ChainCellIsOfRealBox(mac: Mac, material: Bytes, nPaths: nat, i: nat, sent: Sent, j: nat, k: nat)
    requires Genuine(mac, material, nPaths, i, sent) && j < |sent.packet| && k < ENVELOPE_TOTAL_LEN
    requires !sent.packet[j][k].Raw? && sent.packet[j][k].box.key.seed == Root(material)
    ensures sent.packet[j][k].box == BoxOf(material, i, sent)
  {
    var box := BoxAt(mac, material, nPaths, i, sent, j);
    assert sent.packet[j] == Wire(box);
    CellNamesItsBox(box, box, k);
  }

  /** `sent` holds a send of this number, message id and payload, sealed at this position. */
  predicate IsSend(sent: seq<Sent>, pos: nat, seqNum: u64, messageId: Bytes, payload: Bytes) {
    seqNum < |sent| && sent[seqNum].pos == pos && sent[seqNum].messageId == messageId
    && sent[seqNum].payload == payload
  }

  /** What opens under a chain key carries, in its first ciphertext cell, a box seen on the wire. */
  lemma BoxOnWire(material: Bytes, sent: seq<Sent>, envelope: Envelope, key: Key, aad: Bytes) returns (cell: Cell)
    requires key.seed == Root(material) && Opened(key, envelope, aad).Ok?
    requires forall k :: 0 <= k < ENVELOPE_TOTAL_LEN ==> Derivable(material, sent, envelope[k])
    ensures OnWire(sent, cell) && !cell.Raw? && cell.box.key == key && cell.box.aad == aad
    ensures |cell.box.plain| == PLAINTEXT_LEN && Opened(key, envelope, aad) == Parse(cell.box.plain)
  {
    var plain := DecryptEnvelope(key, envelope, aad).value;
    DecryptsExactlyItsBox(key, envelope, aad, plain);
    var box :| WellSized(box) && box.key == key && box.aad == aad && box.plain == plain && envelope == Wire(box);
    CellNamesItsBox(box, box, NONCE_LEN);
    cell := envelope[NONCE_LEN];
    assert Derivable(material, sent, cell);
  }

  lemma OnOneWire(a: seq<Sent>, b: seq<Sent>, cell: Cell)
    requires OnWire(a + b, cell)
    ensures OnWire(a, cell) || OnWire(b, cell)
  {
    var i, j, k :| 0 <= i < |a + b| && 0 <= j < |(a + b)[i].packet| && 0 <= k < ENVELOPE_TOTAL_LEN
                   && (a + b)[i].packet[j][k] == cell;
    if i < |a| {
      assert a[i].packet[j][k] == cell;
    } else {
      assert b[i - |a|].packet[j][k] == cell;
    }
  }

  lemma RealBoxIsTheSend(material: Bytes, sent: seq<Sent>, i: nat, key: Key, seqNum: u64, messageId: Bytes, plain: Bytes)
    requires i < |sent| && i < U64_LIMIT && |sent[i].payload| <= MAX_PAYLOAD_SIZE && |plain| == PLAINTEXT_LEN
    requires var box := BoxOf(material, i, sent[i]);
             box.key == key && box.aad == Aad(seqNum, messageId) && box.plain == plain && Parse(plain).Ok?
    ensures IsSend(sent, key.pos, seqNum, messageId, Parse(plain).value)
  {
    AadInjective(seqNum, messageId, i, sent[i].messageId);
    ParseOfFrame(sent[i].payload, sent[i].rnd.seal.padding);
  }

  lemma CellOnWireIsOfASend(mac: Mac, material: Bytes, nPaths: nat, sent: seq<Sent>, cell: Cell,
                            seqNum: u64, messageId: Bytes)
    requires AllGenuine(mac, material, nPaths, sent) && OnWire(sent, cell)
    requires !cell.Raw? && cell.box.key.seed == Root(material) && cell.box.aad == Aad(seqNum, messageId)
    requires |cell.box.plain| == PLAINTEXT_LEN && Parse(cell.box.plain).Ok?
    ensures IsSend(sent, cell.box.key.pos, seqNum, messageId, Parse(cell.box.plain).value)
  {
    var i, j, k :| 0 <= i < |sent| && 0 <= j < |sent[i].packet| && 0 <= k < ENVELOPE_TOTAL_LEN
                   && sent[i].packet[j][k] == cell;
    ChainCellIsOfRealBox(mac, material, nPaths, i, sent[i], j, k);
    RealBoxIsTheSend(material, sent, i, cell.box.key, seqNum, messageId, cell.box.plain);
  }

  /** Whatever opens under a chain key is the send of that number by one of the two ends, sealed at
      that key. */
  lemma OpenedWasSent(mac: Mac, material: Bytes, nPaths: nat, a: seq<Sent>, b: seq<Sent>,
                      envelope: Envelope, pos: nat, seqNum: u64, messageId: Bytes)
    requires AllGenuine(mac, material, nPaths, a) && AllGenuine(mac, material, nPaths, b)
    requires forall k :: 0 <= k < ENVELOPE_TOTAL_LEN ==> Derivable(material, a + b, envelope[k])
    requires Opened(Key(Root(material), pos), envelope, Aad(seqNum, messageId)).Ok?
    ensures var payload := Opened(Key(Root(material), pos), envelope, Aad(seqNum, messageId)).value;
            IsSend(a, pos, seqNum, messageId, payload) || IsSend(b, pos, seqNum, messageId, payload)
  {
    var cell := BoxOnWire(material, a + b, envelope, Key(Root(material), pos), Aad(seqNum, messageId));
    OnOneWire(a, b, cell);
    if OnWire(a, cell) {
      CellOnWireIsOfASend(mac, material, nPaths, a, cell, seqNum, messageId);
    } else {
      CellOnWireIsOfASend(mac, material, nPaths, b, cell, seqNum, messageId);
    }
  }

  // ------------------------------------------------------------------ the invariant of the pair

  /** The accept is of the payload and message id of the send with its number, by the key that send
      was sealed at. */
  predicate Matches(accept: Accept, sent: seq<Sent>) {
    && accept.seqNum < |sent|
    && accept.payload == sent[accept.seqNum].payload
    && accept.messageId == sent[accept.seqNum].messageId
    && accept.pos == sent[accept.seqNum].pos
  }

  ghost predicate AllMatch(accepts: seq<Accept>, sent: seq<Sent>) {
    forall k :: 0 <= k < |accepts| ==> Matches(accepts[k], sent)
  }

  ghost predicate EndOk(mac: Mac, material: Bytes, nPaths: nat, ep: Endpoint) {
    Inv(Root(material), ep) && ep.ch.nPaths == nPaths && AllGenuine(mac, material, nPaths, ep.sent)
  }

  ghost predicate SystemOk(mac: Mac, material: Bytes, nPaths: nat, sys: System) {
    && EndOk(mac, material, nPaths, sys.alice) && AllMatch(sys.alice.accepts, sys.bob.sent)
    && EndOk(mac, material, nPaths, sys.bob) && AllMatch(sys.bob.accepts, sys.alice.sent)
  }

  // ------------------------------------------------------------------ one transmission

  lemma SendIsGenuine(mac: Mac, material: Bytes, nPaths: nat, st: ChannelState, i: u64,
                      payload: Bytes, messageId: Bytes, rnd: SendRandom)
    requires CanSend(st) && NextSend(st) == i && st.currentKey.seed == Root(material) && st.nPaths == nPaths
    requires Send(mac, st, payload, messageId, rnd).1.Ok?
    ensures Genuine(mac, material, nPaths, i,
                    Sent(payload, messageId, rnd, st.currentKey.pos, Send(mac, st, payload, messageId, rnd).1.value))
  {
  }

  lemma SendKeepsRest(mac: Mac, st: ChannelState, payload: Bytes, messageId: Bytes, rnd: SendRandom)
    requires CanSend(st)
    ensures var st' := Send(mac, st, payload, messageId, rnd).0; st'.lastSeq == st.lastSeq && st'.nPaths == st.nPaths
  {
  }

  lemma SentGrowsByOne(mac: Mac, ep: Endpoint, payload: Bytes, messageId: Bytes, rnd: SendRandom)
    requires CanSend(ep.ch)
    ensures var ep' := Step(mac, ep, SendEvent(payload, messageId, rnd));
            && ep'.ch == Send(mac, ep.ch, payload, messageId, rnd).0
            && ep'.accepts == ep.accepts
            && ep'.sent == match Send(mac, ep.ch, payload, messageId, rnd).1
                           case Err(_) => ep.sent
                           case Ok(packet) =>
                             ep.sent + [Sent(payload, messageId, rnd, ep.ch.currentKey.pos, packet)]
  {
  }

  lemma GenuineAfterPush(mac: Mac, material: Bytes, nPaths: nat, sent: seq<Sent>, added: Sent)
    requires AllGenuine(mac, material, nPaths, sent) && Genuine(mac, material, nPaths, |sent|, added)
    ensures AllGenuine(mac, material, nPaths, sent + [added])
  {
  }

  lemma TransmitKeepsGenuine(mac: Mac, material: Bytes, nPaths: nat, ep: Endpoint,
                             payload: Bytes, messageId: Bytes, rnd: SendRandom)
    requires Shape(Root(material), ep) && ep.ch.nPaths == nPaths && CanSend(ep.ch)
    requires AllGenuine(mac, material, nPaths, ep.sent)
    ensures AllGenuine(mac, material, nPaths, Step(mac, ep, SendEvent(payload, messageId, rnd)).sent)
  {
    SentGrowsByOne(mac, ep, payload, messageId, rnd);
    var r := Send(mac, ep.ch, payload, messageId, rnd).1;
    if r.Ok? {
      SendIsGenuine(mac, material, nPaths, ep.ch, |ep.sent|, payload, messageId, rnd);
      GenuineAfterPush(mac, material, nPaths, ep.sent, Sent(payload, messageId, rnd, ep.ch.currentKey.pos, r.value));
    }
  }

  lemma TransmitKeepsEnd(mac: Mac, material: Bytes, nPaths: nat, ep: Endpoint,
                         payload: Bytes, messageId: Bytes, rnd: SendRandom)
    requires EndOk(mac, material, nPaths, ep)
    ensures var ep' := Step(mac, ep, SendEvent(payload, messageId, rnd));
            && EndOk(mac, material, nPaths, ep') && ep'.accepts == ep.accepts
            && |ep.sent| <= |ep'.sent| && ep'.sent[..|ep.sent|] == ep.sent
  {
    if CanSend(ep.ch) {
      StepKeepsInv(mac, Root(material), ep, SendEvent(payload, messageId, rnd));
      SentGrowsByOne(mac, ep, payload, messageId, rnd);
      SendKeepsRest(mac, ep.ch, payload, messageId, rnd);
      TransmitKeepsGenuine(mac, material, nPaths, ep, payload, messageId, rnd);
    }
  }

  lemma MatchesLonger(accepts: seq<Accept>, sent: seq<Sent>, sent': seq<Sent>)
    requires AllMatch(accepts, sent) && |sent| <= |sent'| && sent'[..|sent|] == sent
    ensures AllMatch(accepts, sent')
  {
    forall k | 0 <= k < |accepts| ensures Matches(accepts[k], sent') {
      assert sent'[..|sent|][accepts[k].seqNum] == sent'[accepts[k].seqNum];
    }
  }

  // ------------------------------------------------------------------ one delivery

  /** A target key is a chain key, at a position this endpoint never sealed at. */
  lemma TargetWasNotSealedAt(seed: Seed, ep: Endpoint, seqNum: u64, messageId: Bytes)
    requires Inv(seed, ep) && TargetKey(ep.ch, seqNum, messageId).Ok?
    ensures TargetKey(ep.ch, seqNum, messageId).value.seed == seed
    ensures forall i :: 0 <= i < |ep.sent| ==> ep.sent[i].pos != TargetKey(ep.ch, seqNum, messageId).value.pos
  {
  }

  lemma AuthenticatedMatches(mac: Mac, material: Bytes, nPaths: nat, ep: Endpoint, peer: seq<Sent>, air: seq<Sent>,
                             envelopes: seq<Envelope>, seqNum: u64, messageId: Bytes)
    requires EndOk(mac, material, nPaths, ep) && AllGenuine(mac, material, nPaths, peer)
    requires air == ep.sent + peer || air == peer + ep.sent
    requires Presentable(material, air, envelopes)
    requires Authenticated(mac, ep.ch, envelopes, seqNum, messageId).Ok?
    ensures IsSend(peer, TargetKey(ep.ch, seqNum, messageId).value.pos, seqNum, messageId,
                   Authenticated(mac, ep.ch, envelopes, seqNum, messageId).value)
  {
    TargetWasNotSealedAt(Root(material), ep, seqNum, messageId);
    var key := TargetKey(ep.ch, seqNum, messageId).value;
    var slot := SelectSlot(mac, key, messageId, nPaths).value;
    if air == ep.sent + peer {
      OpenedWasSent(mac, material, nPaths, ep.sent, peer, envelopes[slot], key.pos, seqNum, messageId);
    } else {
      OpenedWasSent(mac, material, nPaths, peer, ep.sent, envelopes[slot], key.pos, seqNum, messageId);
    }
  }

  lemma OkComesFromAuthenticated(mac: Mac, st: ChannelState, envelopes: seq<Envelope>, seqNum: u64,
                                 messageId: Bytes, now: nat)
    requires Receive(mac, st, envelopes, seqNum, messageId, now).1.Ok?
    ensures Authenticated(mac, st, envelopes, seqNum, messageId)
         == Receive(mac, st, envelopes, seqNum, messageId, now).1
  {
  }

  lemma ReceiveKeepsRest(mac: Mac, ep: Endpoint, envelopes: seq<Envelope>, seqNum: u64, messageId: Bytes, now: nat)
    ensures var ep' := Step(mac, ep, ReceiveEvent(envelopes, seqNum, messageId, now));
            ep'.sent == ep.sent && ep'.ch.nPaths == ep.ch.nPaths
  {
  }

  /** What a receive that tried the key at `pos` answers is an error, or the payload of the send it
      claims to be, sealed at that position. */
  predicate Faithful(r: Result<Bytes, ChannelError>, peer: seq<Sent>, pos: nat, seqNum: u64, messageId: Bytes) {
    r.Ok? ==> IsSend(peer, pos, seqNum, messageId, r.value)
  }

  /** The position of the key that a receive tries, if there is one. */
  function TriedAt(st: ChannelState, seqNum: u64, messageId: Bytes): nat {
    match TargetKey(st, seqNum, messageId)
    case Ok(key) => key.pos
    case Err(_) => 0
  }

  lemma AcceptsOfReceive(mac: Mac, ep: Endpoint, envelopes: seq<Envelope>, seqNum: u64, messageId: Bytes, now: nat)
    ensures Step(mac, ep, ReceiveEvent(envelopes, seqNum, messageId, now)).accepts
         == AcceptsWith(ep.accepts, Receive(mac, ep.ch, envelopes, seqNum, messageId, now).1, seqNum, messageId, now,
                        TriedAt(ep.ch, seqNum, messageId))
  {
  }

  /** The record of accepts once a receive has answered `r`. */
  function AcceptsWith(accepts: seq<Accept>, r: Result<Bytes, ChannelError>,
                       seqNum: u64, messageId: Bytes, now: nat, pos: nat): seq<Accept> {
    match r
    case Err(_) => accepts
    case Ok(payload) => accepts + [Accept(seqNum, messageId, payload, now, pos)]
  }

  lemma FaithfulKeepsMatch(accepts: seq<Accept>, peer: seq<Sent>, r: Result<Bytes, ChannelError>,
                           seqNum: u64, messageId: Bytes, now: nat, pos: nat)
    requires AllMatch(accepts, peer) && Faithful(r, peer, pos, seqNum, messageId)
    ensures AllMatch(AcceptsWith(accepts, r, seqNum, messageId, now, pos), peer)
  {
  }

  lemma ReceiveIsFaithful(mac: Mac, material: Bytes, nPaths: nat, ep: Endpoint, peer: seq<Sent>, air: seq<Sent>,
                          envelopes: seq<Envelope>, seqNum: u64, messageId: Bytes, now: nat)
    requires EndOk(mac, material, nPaths, ep) && AllGenuine(mac, material, nPaths, peer)
    requires air == ep.sent + peer || air == peer + ep.sent
    requires Presentable(material, air, envelopes)
    ensures Faithful(Receive(mac, ep.ch, envelopes, seqNum, messageId, now).1, peer,
                     TriedAt(ep.ch, seqNum, messageId), seqNum, messageId)
  {
    if Receive(mac, ep.ch, envelopes, seqNum, messageId, now).1.Ok? {
      OkComesFromAuthenticated(mac, ep.ch, envelopes, seqNum, messageId, now);
      AuthenticatedMatches(mac, material, nPaths, ep, peer, air, envelopes, seqNum, messageId);
    }
  }

  lemma DeliverKeepsEnd(mac: Mac, material: Bytes, nPaths: nat, ep: Endpoint,
                        envelopes: seq<Envelope>, seqNum: u64, messageId: Bytes, now: nat)
    requires EndOk(mac, material, nPaths, ep)
    ensures var ep' := Step(mac, ep, ReceiveEvent(envelopes, seqNum, messageId, now));
            EndOk(mac, material, nPaths, ep') && ep'.sent == ep.sent
  {
    StepKeepsInv(mac, Root(material), ep, ReceiveEvent(envelopes, seqNum, messageId, now));
    ReceiveKeepsRest(mac, ep, envelopes, seqNum, messageId, now);
  }

  // ------------------------------------------------------------------ every run

  lemma StepKeepsEnds(mac: Mac, material: Bytes, nPaths: nat, ep: Endpoint, peer: Endpoint, air: seq<Sent>, ev: NetEvent)
    requires EndOk(mac, material, nPaths, ep) && AllMatch(ep.accepts, peer.sent)
    requires AllGenuine(mac, material, nPaths, peer.sent) && AllMatch(peer.accepts, ep.sent)
    requires air == ep.sent + peer.sent || air == peer.sent + ep.sent
    requires ev.Deliver? ==> Presentable(material, air, ev.envelopes)
    ensures var ep' := Step(mac, ep, CallOf(ev));
            EndOk(mac, material, nPaths, ep') && AllMatch(ep'.accepts, peer.sent) && AllMatch(peer.accepts, ep'.sent)
  {
    match ev
    case Transmit(_, payload, messageId, rnd) =>
      TransmitKeepsEnd(mac, material, nPaths, ep, payload, messageId, rnd);
      MatchesLonger(peer.accepts, ep.sent, Step(mac, ep, CallOf(ev)).sent);
    case Deliver(_, envelopes, seqNum, messageId, now) =>
      DeliverKeepsEnd(mac, material, nPaths, ep, envelopes, seqNum, messageId, now);
      ReceiveIsFaithful(mac, material, nPaths, ep, peer.sent, air, envelopes, seqNum, messageId, now);
      AcceptsOfReceive(mac, ep, envelopes, seqNum, messageId, now);
      FaithfulKeepsMatch(ep.accepts, peer.sent, Receive(mac, ep.ch, envelopes, seqNum, messageId, now).1,
                         seqNum, messageId, now, TriedAt(ep.ch, seqNum, messageId));
  }

  lemma NetStepKeepsOk(mac: Mac, material: Bytes, nPaths: nat, sys: System, ev: NetEvent)
    requires SystemOk(mac, material, nPaths, sys)
    requires ev.Deliver? ==> Presentable(material, sys.OnAir(), ev.envelopes)
    ensures SystemOk(mac, material, nPaths, NetStep(mac, sys, ev))
  {
    StepKeepsEnds(mac, material, nPaths, sys.At(ev.side), sys.At(ev.side.Other()), sys.OnAir(), ev);
  }

  lemma {:induction false} NetRunKeepsOk(mac: Mac, material: Bytes, nPaths: nat, events: seq<NetEvent>)
    requires Admissible(mac, material, nPaths, events)
    ensures SystemOk(mac, material, nPaths, NetRun(mac, NewSystem(material, nPaths), events))
  {
    if events == [] {
      InvInit(material, nPaths);
    } else {
      var init := events[..|events| - 1];
      NetRunKeepsOk(mac, material, nPaths, init);
      NetStepKeepsOk(mac, material, nPaths, NetRun(mac, NewSystem(material, nPaths), init), events[|events| - 1]);
    }
  }

  /** Over any schedule, with both ends sending and receiving, what an end accepted under a number is
      the payload and the message id of the other end's send with that number, by the key that send
      was sealed at, never a packet of its own, and it accepted no number twice. */
  lemma StreamRefinement(mac: Mac, material: Bytes, nPaths: nat, events: seq<NetEvent>, side: Side)
    requires Admissible(mac, material, nPaths, events)
    ensures var sys := NetRun(mac, NewSystem(material, nPaths), events);
            var accepts := sys.At(side).accepts;
            && (forall k :: 0 <= k < |accepts| ==> Matches(accepts[k], sys.At(side.Other()).sent))
            && (forall j, k :: 0 <= j < k < |accepts| ==> accepts[j].seqNum != accepts[k].seqNum)
  {
    NetRunKeepsOk(mac, material, nPaths, events);
  }

  /** The next packet, whatever it is made of, yields the payload of the send of the other end that
      it claims to be, sealed at the very key the receiver tried, or an error that changes nothing. */
  lemma NextDeliveryIsGenuineOrHarmless(mac: Mac, material: Bytes, nPaths: nat, events: seq<NetEvent>, side: Side,
                                        envelopes: seq<Envelope>, seqNum: u64, messageId: Bytes, now: nat)
    requires Admissible(mac, material, nPaths, events)
    requires Presentable(material, NetRun(mac, NewSystem(material, nPaths), events).OnAir(), envelopes)
    ensures var sys := NetRun(mac, NewSystem(material, nPaths), events);
            var ep, peer := sys.At(side), sys.At(side.Other()).sent;
            match Receive(mac, ep.ch, envelopes, seqNum, messageId, now).1
            case Err(_) => Receive(mac, ep.ch, envelopes, seqNum, messageId, now).0 == ep.ch
            case Ok(payload) =>
              && TargetKey(ep.ch, seqNum, messageId).Ok? && seqNum < |peer|
              && payload == peer[seqNum].payload && messageId == peer[seqNum].messageId
              && peer[seqNum].pos == TargetKey(ep.ch, seqNum, messageId).value.pos
              && !Accepted(ep.accepts, seqNum)
  {
    var sys := NetRun(mac, NewSystem(material, nPaths), events);
    var ep, peer := sys.At(side), sys.At(side.Other()).sent;
    NetRunKeepsOk(mac, material, nPaths, events);
    ReceiveAcceptsOrKeeps(mac, Root(material), ep, envelopes, seqNum, messageId, now);
    ReceiveIsFaithful(mac, material, nPaths, ep, peer, sys.OnAir(), envelopes, seqNum, messageId, now);
    if Receive(mac, ep.ch, envelopes, seqNum, messageId, now).1.Ok? {
      TargetIsUnaccepted(Root(material), ep, seqNum, messageId);
    }
  }
}
