/** What holds of one endpoint after any run of sends and receives. */
module EndpointTheorems {
  import opened AntiReplay
  import opened ByteCodec
  import opened ChannelModel
  import opened Endpoints
  import opened Envelopes
  import opened PathEngine
  import opened Symbols
  import opened Wrappers

  function Reached(mac: Mac, material: Bytes, nPaths: nat, events: seq<Event>): Endpoint {
    Run(mac, NewEndpoint(material, nPaths), events)
  }

  /** One more receive moves the channel as `Receive` says. */
  lemma ReceiveExtends(mac: Mac, material: Bytes, nPaths: nat, events: seq<Event>,
                       envelopes: seq<Envelope>, seqNum: u64, messageId: Bytes, now: nat, st: ChannelState)
    requires st == Reached(mac, material, nPaths, events).ch
    ensures Reached(mac, material, nPaths, events + [ReceiveEvent(envelopes, seqNum, messageId, now)]).ch
         == Receive(mac, st, envelopes, seqNum, messageId, now).0
  {
    RunKeepsInv(mac, material, nPaths, events);
    var ev := ReceiveEvent(envelopes, seqNum, messageId, now);
    assert (events + [ev])[..|events|] == events;
    ReceiveStep(mac, Root(material), Reached(mac, material, nPaths, events), envelopes, seqNum, messageId, now);
  }

  /** One more send, likewise. */
  lemma SendExtends(mac: Mac, material: Bytes, nPaths: nat, events: seq<Event>,
                    payload: Bytes, messageId: Bytes, rnd: SendRandom, st: ChannelState)
    requires st == Reached(mac, material, nPaths, events).ch && CanSend(st)
    ensures Reached(mac, material, nPaths, events + [SendEvent(payload, messageId, rnd)]).ch
         == Send(mac, st, payload, messageId, rnd).0
  {
    RunKeepsInv(mac, material, nPaths, events);
    var ev := SendEvent(payload, messageId, rnd);
    assert (events + [ev])[..|events|] == events;
    SendStep(mac, Root(material), Reached(mac, material, nPaths, events), payload, messageId, rnd);
  }

  // ------------------------------------------------------------------ conservation of chain positions

  ghost function SealedAt(ep: Endpoint): set<nat> {
    set i | 0 <= i < |ep.sent| :: ep.sent[i].pos
  }

  ghost function DeliveredAt(ep: Endpoint): set<nat> {
    set i | 0 <= i < |ep.accepts| :: ep.accepts[i].pos
  }

  ghost function PositionsIn(keys: map<u64, Key>): set<nat> {
    set s | s in keys :: keys[s].pos
  }

  ghost function HeldAt(ep: Endpoint): set<nat> {
    SealedAt(ep) + DeliveredAt(ep) + PositionsIn(ep.ch.skipped) + PositionsIn(ep.evicted)
  }

  /** Two positions with one owner are one position. */
  lemma OwnerIsUnique(seed: Seed, ep: Endpoint, p: nat, q: nat)
    requires LedgerOk(seed, ep) && p < |ep.ledger| && q < |ep.ledger| && ep.ledger[p] == ep.ledger[q]
    ensures p == q
  {
  }

  /** The one place where the position derived for a number has gone. */
  lemma PositionIsHeld(seed: Seed, ep: Endpoint, p: nat)
    requires Inv(seed, ep) && p < |ep.ledger|
    ensures p in SealedAt(ep) || p in DeliveredAt(ep) || p in PositionsIn(ep.ch.skipped) || p in PositionsIn(ep.evicted)
  {
    match ep.ledger[p]
    case BySend(i) =>
      assert ep.sent[i].pos == p;
    case ByReceive(s) =>
      if s in ep.ch.skipped {
        OwnerIsUnique(seed, ep, p, ep.ch.skipped[s].pos);
      } else if s in ep.evicted {
        OwnerIsUnique(seed, ep, p, ep.evicted[s].pos);
      } else {
        assert Accepted(ep.accepts, s);
        var i :| 0 <= i < |ep.accepts| && ep.accepts[i].seqNum == s;
        OwnerIsUnique(seed, ep, p, ep.accepts[i].pos);
      }
  }

  lemma PositionsDisjoint(seed: Seed, ep: Endpoint)
    requires Inv(seed, ep)
    ensures SealedAt(ep) !! DeliveredAt(ep) !! PositionsIn(ep.ch.skipped) !! PositionsIn(ep.evicted)
  {
    forall p
      ensures p in SealedAt(ep) ==> p < |ep.ledger| && ep.ledger[p].BySend?
      ensures p in DeliveredAt(ep) ==> p < |ep.ledger| && ep.ledger[p].ByReceive? && ep.ledger[p].seqNum < U64_LIMIT
                                       && Accepted(ep.accepts, ep.ledger[p].seqNum)
      ensures p in PositionsIn(ep.ch.skipped) ==>
                p < |ep.ledger| && ep.ledger[p].ByReceive? && ep.ledger[p].seqNum in ep.ch.skipped.Keys
      ensures p in PositionsIn(ep.evicted) ==>
                p < |ep.ledger| && ep.ledger[p].ByReceive? && ep.ledger[p].seqNum in ep.evicted.Keys
    {
    }
  }

  /** Under any interleaving of sends and receives, the current key sits at the number of
      successful sends plus the number of sequence numbers reached, and all earlier positions split
      into sealed, delivered, stored and evicted, no position serving twice at this endpoint. */
  lemma ChainConservation(mac: Mac, material: Bytes, nPaths: nat, events: seq<Event>)
    ensures var ep := Reached(mac, material, nPaths, events);
            && ep.ch.currentKey == Key(Root(material), |ep.sent| + Next(ep.ch))
            && (forall p: nat :: p in HeldAt(ep) <==> p < ep.ch.currentKey.pos)
            && SealedAt(ep) !! DeliveredAt(ep) !! PositionsIn(ep.ch.skipped) !! PositionsIn(ep.evicted)
            && (forall i, j :: 0 <= i < j < |ep.sent| ==> ep.sent[i].pos != ep.sent[j].pos)
            && (forall i, j :: 0 <= i < j < |ep.accepts| ==> ep.accepts[i].pos != ep.accepts[j].pos)
            && (forall s, t :: s in ep.ch.skipped && t in ep.ch.skipped && s != t ==>
                  ep.ch.skipped[s].pos != ep.ch.skipped[t].pos)
  {
    var ep := Reached(mac, material, nPaths, events);
    RunKeepsInv(mac, material, nPaths, events);
    PositionsDisjoint(Root(material), ep);
    EveryPositionIsHeld(Root(material), ep);
    UsesAreSingle(Root(material), ep);
  }

  lemma EveryPositionIsHeld(seed: Seed, ep: Endpoint)
    requires Inv(seed, ep)
    ensures forall p: nat :: p in HeldAt(ep) <==> p < ep.ch.currentKey.pos
  {
    forall p: nat
      ensures p in HeldAt(ep) <==> p < ep.ch.currentKey.pos
    {
      if p < |ep.ledger| {
        PositionIsHeld(seed, ep, p);
      } else {
        HeldIsDerived(seed, ep, p);
      }
    }
  }

  lemma HeldIsDerived(seed: Seed, ep: Endpoint, p: nat)
    requires LedgerOk(seed, ep)
    ensures p in HeldAt(ep) ==> p < |ep.ledger|
  {
  }

  lemma UsesAreSingle(seed: Seed, ep: Endpoint)
    requires Inv(seed, ep)
    ensures forall i, j :: 0 <= i < j < |ep.sent| ==> ep.sent[i].pos != ep.sent[j].pos
    ensures forall i, j :: 0 <= i < j < |ep.accepts| ==> ep.accepts[i].pos != ep.accepts[j].pos
    ensures forall s, t :: s in ep.ch.skipped && t in ep.ch.skipped && s != t ==>
              ep.ch.skipped[s].pos != ep.ch.skipped[t].pos
  {
  }

  // ------------------------------------------------------------------ the canonical table

  lemma {:induction false} GreatestOf(s: set<u64>) returns (m: u64)
    requires s != {}
    ensures m in s && forall x :: x in s ==> x <= m
  {
    var first :| first in s;
    m := first;
    var rest := s - {first};
    if rest != {} {
      var greatest := GreatestOf(rest);
      m := if first < greatest then greatest else first;
    }
    forall x | x in s ensures x <= m {
      assert x == first || x in rest;
    }
  }

  lemma GreatestExists(s: set<u64>)
    requires s != {}
    ensures exists m :: m in s && forall x :: x in s ==> x <= m
  {
    var m := GreatestOf(s);
  }

  /** The number just past the greatest evicted one. */
  ghost function Watermark(evicted: set<u64>): (w: nat)
    ensures forall e :: e in evicted ==> e < w
    ensures w > 0 ==> w - 1 in evicted
  {
    if evicted == {} then 0
    else
      GreatestExists(evicted);
      var m :| m in evicted && forall x :: x in evicted ==> x <= m;
      m + 1
  }

  lemma TableIsCanonical(seed: Seed, ep: Endpoint, s: u64)
    requires Inv(seed, ep) && ep.ch.lastSeq.Some?
    ensures s in ep.ch.skipped
       <==> Watermark(ep.evicted.Keys) <= s < ep.ch.lastSeq.value && !Accepted(ep.accepts, s)
  {
    var w := Watermark(ep.evicted.Keys);
    if s in ep.ch.skipped && w > 0 {
      assert w - 1 in ep.evicted.Keys && s in ep.ch.skipped.Keys;
    }
  }

  /** After any run the table holds exactly the unaccepted numbers between the watermark and the
      last accepted number, and never more than its limit; every evicted number lies below. */
  lemma CanonicalTable(mac: Mac, material: Bytes, nPaths: nat, events: seq<Event>, s: u64)
    ensures var ep := Reached(mac, material, nPaths, events);
            && |ep.ch.skipped| <= MAX_SKIPPED_KEYS
            && (s in ep.ch.skipped <==>
                  (ep.ch.lastSeq.Some? && Watermark(ep.evicted.Keys) <= s < ep.ch.lastSeq.value
                   && !Accepted(ep.accepts, s)))
            && (s in ep.evicted ==> s < Watermark(ep.evicted.Keys) && !Accepted(ep.accepts, s))
  {
    var ep := Reached(mac, material, nPaths, events);
    RunKeepsInv(mac, material, nPaths, events);
    assert |ep.ch.skipped.Keys| == |ep.ch.skipped|;
    if ep.ch.lastSeq.Some? {
      TableIsCanonical(Root(material), ep, s);
    }
  }

  lemma WatermarkIsMonotone(evicted: set<u64>, more: set<u64>)
    requires evicted <= more
    ensures Watermark(evicted) <= Watermark(more)
  {
    var w := Watermark(evicted);
    if w > 0 {
      assert w - 1 in more;
    }
  }

  /** The watermark never moves back, and moves only in a step that overfills the table. */
  lemma WatermarkMovesOnlyByEviction(mac: Mac, material: Bytes, nPaths: nat, events: seq<Event>, ev: Event)
    ensures var ep := Reached(mac, material, nPaths, events);
            var ep' := Reached(mac, material, nPaths, events + [ev]);
            && Watermark(ep.evicted.Keys) <= Watermark(ep'.evicted.Keys)
            && (Watermark(ep.evicted.Keys) != Watermark(ep'.evicted.Keys) ==>
                  ev.ReceiveEvent? && |Merged(ep.ch, ev.seqNum)| > MAX_SKIPPED_KEYS)
  {
    var ep := Reached(mac, material, nPaths, events);
    RunKeepsInv(mac, material, nPaths, events);
    assert (events + [ev])[..|events|] == events;
    var ep' := Step(mac, ep, ev);
    assert ep' == Reached(mac, material, nPaths, events + [ev]);
    EvictedOnlyGrows(mac, Root(material), ep, ev);
    WatermarkIsMonotone(ep.evicted.Keys, ep'.evicted.Keys);
  }

  lemma NothingEvictedWithinLimit(ep: Endpoint, accept: Accept)
    requires |Merged(ep.ch, accept.seqNum)| <= MAX_SKIPPED_KEYS
    ensures Accepting(ep, accept).evicted == ep.evicted
  {
    assert EvictedBy(ep.ch, accept.seqNum) == map[];
    assert ep.evicted + map[] == ep.evicted;
  }

  lemma EvictedOnlyGrows(mac: Mac, seed: Seed, ep: Endpoint, ev: Event)
    requires Inv(seed, ep)
    ensures ep.evicted.Keys <= Step(mac, ep, ev).evicted.Keys
    ensures ep.evicted.Keys != Step(mac, ep, ev).evicted.Keys ==>
              ev.ReceiveEvent? && |Merged(ep.ch, ev.seqNum)| > MAX_SKIPPED_KEYS
  {
    var accept := StepCases(mac, seed, ep, ev);
    if accept.Some? && |Merged(ep.ch, ev.seqNum)| <= MAX_SKIPPED_KEYS {
      NothingEvictedWithinLimit(ep, accept.value);
    }
  }

  /** Accepting a packet ahead never evicts a key derived on the way to it. */
  lemma NewKeysSurvive(seed: Seed, ep: Endpoint, accept: Accept, e: u64)
    requires Acceptable(seed, ep, accept) && e in EvictedBy(ep.ch, accept.seqNum)
    ensures e in ep.ch.skipped && e !in Gap(ep.ch, accept.seqNum)
  {
    ForwardSplitsTable(seed, ep, accept);
    assert e in EvictedBy(ep.ch, accept.seqNum).Keys;
  }

  // ------------------------------------------------------------------ at most once, and no mutation on failure

  /** A number once accepted is never accepted again, whatever arrives, at whatever time and
      whatever the anti-replay store has forgotten meanwhile; the attempt changes nothing. */
  lemma AtMostOnce(mac: Mac, material: Bytes, nPaths: nat, events: seq<Event>,
                   envelopes: seq<Envelope>, seqNum: u64, messageId: Bytes, now: nat)
    requires Accepted(Reached(mac, material, nPaths, events).accepts, seqNum)
    ensures var ep := Reached(mac, material, nPaths, events);
            && Receive(mac, ep.ch, envelopes, seqNum, messageId, now).1.Err?
            && Receive(mac, ep.ch, envelopes, seqNum, messageId, now).0 == ep.ch
            && (forall i, j :: 0 <= i < j < |ep.accepts| ==> ep.accepts[i].seqNum != ep.accepts[j].seqNum)
  {
    var ep := Reached(mac, material, nPaths, events);
    RunKeepsInv(mac, material, nPaths, events);
    ReceiveAcceptsOrKeeps(mac, Root(material), ep, envelopes, seqNum, messageId, now);
    if Receive(mac, ep.ch, envelopes, seqNum, messageId, now).1.Ok? {
      TargetIsUnaccepted(Root(material), ep, seqNum, messageId);
      assert false;
    }
  }

  /** Every rejected packet leaves the whole state as it was, the anti-replay store included. */
  lemma ZeroMutation(mac: Mac, material: Bytes, nPaths: nat, events: seq<Event>,
                     envelopes: seq<Envelope>, seqNum: u64, messageId: Bytes, now: nat)
    ensures var ep := Reached(mac, material, nPaths, events);
            var (ch', r) := Receive(mac, ep.ch, envelopes, seqNum, messageId, now);
            r.Err? ==> ch' == ep.ch
  {
    RunKeepsInv(mac, material, nPaths, events);
    ReceiveAcceptsOrKeeps(mac, Root(material), Reached(mac, material, nPaths, events),
                          envelopes, seqNum, messageId, now);
  }

  // ------------------------------------------------------------------ the diagnosis of replays

  ghost predicate ClockForward(events: seq<Event>) {
    forall i, j :: 0 <= i < j < |events| && events[i].ReceiveEvent? && events[j].ReceiveEvent? ==>
      events[i].now <= events[j].now
  }

  function LastAt(accepts: seq<Accept>): nat {
    if accepts == [] then 0 else accepts[|accepts| - 1].at
  }

  ghost predicate NotAfter(accepts: seq<Accept>, t: nat) {
    forall i :: 0 <= i < |accepts| ==> accepts[i].at <= t
  }

  /** The accepts of one step: none, or one at the time of the event. */
  lemma AcceptsOfStep(mac: Mac, ep: Endpoint, ev: Event) returns (more: seq<Accept>)
    ensures Step(mac, ep, ev).accepts == ep.accepts + more
    ensures more == [] || (ev.ReceiveEvent? && |more| == 1 && more[0].at == ev.now)
  {
    more := Step(mac, ep, ev).accepts[|ep.accepts|..];
  }

  lemma LaterAcceptKeepsSorted(accepts: seq<Accept>, accept: Accept)
    requires Sorted(Entries(accepts)) && NotAfter(accepts, accept.at)
    ensures Sorted(Entries(accepts + [accept])) && NotAfter(accepts + [accept], accept.at)
  {
    var entries := Entries(accepts + [accept]);
    forall i, j | 0 <= i < j < |entries| ensures entries[i].at <= entries[j].at {
      if j < |accepts| {
        assert Entries(accepts)[i].at <= Entries(accepts)[j].at;
      }
    }
  }

  lemma {:induction false} AcceptTimes(mac: Mac, material: Bytes, nPaths: nat, events: seq<Event>, t: nat)
    requires ClockForward(events)
    requires forall i :: 0 <= i < |events| && events[i].ReceiveEvent? ==> events[i].now <= t
    ensures NotAfter(Reached(mac, material, nPaths, events).accepts, t)
    ensures Sorted(Entries(Reached(mac, material, nPaths, events).accepts))
    decreases |events|
  {
    if events != [] {
      var init, ev := events[..|events| - 1], events[|events| - 1];
      var before := Reached(mac, material, nPaths, init);
      AcceptTimes(mac, material, nPaths, init, if ev.ReceiveEvent? then ev.now else t);
      var more := AcceptsOfStep(mac, before, ev);
      if more == [] {
        assert before.accepts + more == before.accepts;
      } else {
        LaterAcceptKeepsSorted(before.accepts, more[0]);
        assert more == [more[0]];
      }
    }
  }

  /** The store is the live suffix of all accepts. */
  ghost predicate StoreIsLive(store: seq<Entry>, accepts: seq<Accept>) {
    store == LiveSuffix(Entries(accepts), LastAt(accepts), ANTI_REPLAY_CAPACITY, ANTI_REPLAY_TIME_WINDOW)
  }

  lemma AcceptKeepsStoreLive(store: seq<Entry>, accepts: seq<Accept>, accept: Accept)
    requires StoreIsLive(store, accepts) && StoreLog(store, accepts) && !Accepted(accepts, accept.seqNum)
    requires Sorted(Entries(accepts)) && LastAt(accepts) <= accept.at
    ensures StoreIsLive(StoreAfter(store, accept), accepts + [accept])
  {
    var key := EntryKey(accept.seqNum, accept.messageId);
    FreshIsInserted(store, accepts, key, accept.at);
    CheckInsertKeepsLiveSuffix(Entries(accepts), LastAt(accepts), key, accept.at,
                               ANTI_REPLAY_CAPACITY, ANTI_REPLAY_TIME_WINDOW);
    EntriesAfter(accepts, accept);
  }

  lemma AcceptingKeepsStoreLive(seed: Seed, ep: Endpoint, accept: Accept)
    requires Acceptable(seed, ep, accept) && StoreIsLive(ep.ch.store, ep.accepts) && Sorted(Entries(ep.accepts))
    requires LastAt(ep.accepts) <= accept.at
    ensures Accepting(ep, accept).ch.store == StoreAfter(ep.ch.store, accept)
    ensures Accepting(ep, accept).accepts == ep.accepts + [accept]
    ensures StoreIsLive(StoreAfter(ep.ch.store, accept), ep.accepts + [accept])
  {
    TargetIsUnaccepted(seed, ep, accept.seqNum, accept.messageId);
    AcceptKeepsStoreLive(ep.ch.store, ep.accepts, accept);
  }

  lemma StepKeepsStoreLive(mac: Mac, seed: Seed, ep: Endpoint, ev: Event)
    requires Inv(seed, ep) && StoreIsLive(ep.ch.store, ep.accepts) && Sorted(Entries(ep.accepts))
    requires ev.ReceiveEvent? ==> LastAt(ep.accepts) <= ev.now
    ensures StoreIsLive(Step(mac, ep, ev).ch.store, Step(mac, ep, ev).accepts)
  {
    var accept := StepCases(mac, seed, ep, ev);
    if accept.Some? {
      AcceptingKeepsStoreLive(seed, ep, accept.value);
    }
  }

  lemma {:induction false} StoreStaysLive(mac: Mac, material: Bytes, nPaths: nat, events: seq<Event>)
    requires ClockForward(events)
    ensures StoreIsLive(Reached(mac, material, nPaths, events).ch.store, Reached(mac, material, nPaths, events).accepts)
  {
    if events != [] {
      var init, ev := events[..|events| - 1], events[|events| - 1];
      StoreStaysLive(mac, material, nPaths, init);
      RunKeepsInv(mac, material, nPaths, init);
      AcceptTimes(mac, material, nPaths, init, if ev.ReceiveEvent? then ev.now else LatestNow(init));
      StepKeepsStoreLive(mac, Root(material), Reached(mac, material, nPaths, init), ev);
    }
  }

  /** Accept `i` was of this very packet, at most 10,000 accepts and 300 seconds before the latest. */
  ghost predicate Remembered(accepts: seq<Accept>, i: nat, seqNum: u64, messageId: Bytes) {
    && i < |accepts|
    && accepts[i].seqNum == seqNum && accepts[i].messageId == messageId
    && |accepts| - i <= 10_000
    && LastAt(accepts) - accepts[i].at <= 300_000_000_000
  }

  lemma RememberedIsRetained(accepts: seq<Accept>, i: nat, seqNum: u64, messageId: Bytes)
    requires Sorted(Entries(accepts)) && i < |accepts|
    ensures Remembered(accepts, i, seqNum, messageId)
       <==> Entries(accepts)[i].key == EntryKey(seqNum, messageId)
            && i >= |accepts| - |LiveSuffix(Entries(accepts), LastAt(accepts), ANTI_REPLAY_CAPACITY, ANTI_REPLAY_TIME_WINDOW)|
  {
    RetainedExactly(Entries(accepts), LastAt(accepts), ANTI_REPLAY_CAPACITY, ANTI_REPLAY_TIME_WINDOW, i);
  }

  lemma StoredIsRemembered(accepts: seq<Accept>, store: seq<Entry>, j: nat)
    requires Sorted(Entries(accepts)) && StoreIsLive(store, accepts) && j < |store|
    ensures Remembered(accepts, |accepts| - |store| + j, store[j].key.seqNum, store[j].key.messageId)
  {
    LiveSuffixIsSuffix(Entries(accepts), LastAt(accepts), ANTI_REPLAY_CAPACITY, ANTI_REPLAY_TIME_WINDOW);
    assert store[j] == Entries(accepts)[|accepts| - |store| + j];
    RememberedIsRetained(accepts, |accepts| - |store| + j, store[j].key.seqNum, store[j].key.messageId);
  }

  lemma RememberedIsStored(accepts: seq<Accept>, store: seq<Entry>, i: nat, seqNum: u64, messageId: Bytes)
    requires Sorted(Entries(accepts)) && StoreIsLive(store, accepts) && Remembered(accepts, i, seqNum, messageId)
    ensures HasKey(store, EntryKey(seqNum, messageId))
  {
    LiveSuffixIsSuffix(Entries(accepts), LastAt(accepts), ANTI_REPLAY_CAPACITY, ANTI_REPLAY_TIME_WINDOW);
    RememberedIsRetained(accepts, i, seqNum, messageId);
    assert store[i - (|accepts| - |store|)] == Entries(accepts)[i];
  }

  lemma StoreHasExactlyRemembered(accepts: seq<Accept>, store: seq<Entry>, seqNum: u64, messageId: Bytes)
    requires Sorted(Entries(accepts)) && StoreIsLive(store, accepts)
    ensures HasKey(store, EntryKey(seqNum, messageId)) <==> exists i :: Remembered(accepts, i, seqNum, messageId)
  {
    if HasKey(store, EntryKey(seqNum, messageId)) {
      var j := IndexOfKey(store, EntryKey(seqNum, messageId));
      StoredIsRemembered(accepts, store, j);
    }
    forall i | Remembered(accepts, i, seqNum, messageId)
      ensures HasKey(store, EntryKey(seqNum, messageId))
    {
      RememberedIsStored(accepts, store, i, seqNum, messageId);
    }
  }

  lemma IndexOfKey(store: seq<Entry>, key: EntryKey) returns (j: nat)
    requires HasKey(store, key)
    ensures j < |store| && store[j].key == key
  {
    var e :| e in store && e.key == key;
    j :| j < |store| && store[j] == e;
  }

  /** Past the size checks, a number at or below the last one and without a stored key is called
      replayed exactly when that packet was accepted and is still remembered, and expired otherwise. */
  lemma ReplayDiagnosisIsExact(mac: Mac, material: Bytes, nPaths: nat, events: seq<Event>,
                               envelopes: seq<Envelope>, seqNum: u64, messageId: Bytes, now: nat)
    requires ClockForward(events)
    requires |messageId| <= MAX_MESSAGE_ID_LEN
    requires |envelopes| >= Reached(mac, material, nPaths, events).ch.nPaths
    requires !Forward(Reached(mac, material, nPaths, events).ch, seqNum)
    requires seqNum !in Reached(mac, material, nPaths, events).ch.skipped
    ensures var ep := Reached(mac, material, nPaths, events);
            Receive(mac, ep.ch, envelopes, seqNum, messageId, now)
            == (ep.ch, Err(if exists i :: Remembered(ep.accepts, i, seqNum, messageId)
                           then ReplayedSequence else SkippedKeyExpired))
  {
    var ep := Reached(mac, material, nPaths, events);
    StoreStaysLive(mac, material, nPaths, events);
    AcceptTimes(mac, material, nPaths, events, LatestNow(events));
    StoreHasExactlyRemembered(ep.accepts, ep.ch.store, seqNum, messageId);
  }

  /** A time no event comes after. */
  ghost function LatestNow(events: seq<Event>): (t: nat)
    ensures forall i :: 0 <= i < |events| && events[i].ReceiveEvent? ==> events[i].now <= t
  {
    if events == [] then 0
    else
      var t := LatestNow(events[..|events| - 1]);
      var ev := events[|events| - 1];
      if ev.ReceiveEvent? && ev.now > t then ev.now else t
  }

  // ------------------------------------------------------------------ the answer of receive in full

  /** A number past the last accepted one, or any at the start. */
  predicate IsAhead(st: ChannelState, seqNum: u64) {
    st.lastSeq.Some? ==> seqNum > st.lastSeq.value
  }

  /** More than 1,000 past the last accepted number, or over 1,000 at the start. */
  predicate IsBeyond(st: ChannelState, seqNum: u64) {
    match st.lastSeq
    case None => seqNum > 1000
    case Some(last) => seqNum > last + 1000
  }

  /** The answer that a channel which has sent `nSent` messages owes to a packet, as a table of cases:
      the three early refusals; for a late number without a stored key, replayed if the store has the
      packet and expired if not; no path; and otherwise whether the designated envelope opens under
      the key of the number, which is the chain key at sends plus number for a number ahead and the
      stored key for a late one. */
  ghost function Answer(mac: Mac, seed: Seed, nSent: nat, st: ChannelState,
                        envelopes: seq<Envelope>, seqNum: u64, messageId: Bytes): Result<Bytes, ChannelError>
  {
    if |messageId| > 256 then Err(InvalidMessageId)
    else if |envelopes| < st.nPaths then Err(DecoyFailure)
    else if IsBeyond(st, seqNum) then Err(InvalidSequence)
    else if !IsAhead(st, seqNum) && seqNum !in st.skipped then
      if exists e :: e in st.store && e.key.seqNum == seqNum && e.key.messageId == messageId
      then Err(ReplayedSequence) else Err(SkippedKeyExpired)
    else if st.nPaths == 0 then Err(DecoyFailure)
    else
      var key := if IsAhead(st, seqNum) then Key(seed, nSent + seqNum) else st.skipped[seqNum];
      match Opened(key, envelopes[SelectSlot(mac, key, messageId, st.nPaths).value], Aad(seqNum, messageId))
      case Err(_) => Err(AuthenticationFailed)
      case Ok(payload) => Ok(payload)
  }

  /** In every reachable state `receive` gives the answer of the table. */
  lemma ReceiveAnswersExactly(mac: Mac, material: Bytes, nPaths: nat, events: seq<Event>,
                              envelopes: seq<Envelope>, seqNum: u64, messageId: Bytes, now: nat)
    ensures var ep := Reached(mac, material, nPaths, events);
            Receive(mac, ep.ch, envelopes, seqNum, messageId, now).1
            == Answer(mac, Root(material), |ep.sent|, ep.ch, envelopes, seqNum, messageId)
  {
    var ep := Reached(mac, material, nPaths, events);
    RunKeepsInv(mac, material, nPaths, events);
    StoreIsNoObstacle(mac, Root(material), ep, envelopes, seqNum, messageId, now);
    AuthenticatedIsAnswer(mac, Root(material), ep, envelopes, seqNum, messageId);
  }

  lemma AuthenticatedIsAnswer(mac: Mac, seed: Seed, ep: Endpoint, envelopes: seq<Envelope>, seqNum: u64, messageId: Bytes)
    requires Shape(seed, ep)
    ensures Authenticated(mac, ep.ch, envelopes, seqNum, messageId)
         == Answer(mac, seed, |ep.sent|, ep.ch, envelopes, seqNum, messageId)
  {
    TargetExactly(seed, ep, seqNum, messageId);
  }

  lemma StoreIsNoObstacle(mac: Mac, seed: Seed, ep: Endpoint,
                          envelopes: seq<Envelope>, seqNum: u64, messageId: Bytes, now: nat)
    requires Inv(seed, ep)
    ensures Receive(mac, ep.ch, envelopes, seqNum, messageId, now).1
         == Authenticated(mac, ep.ch, envelopes, seqNum, messageId)
  {
    if TargetKey(ep.ch, seqNum, messageId).Ok? {
      StoreNeverRejects(seed, ep, seqNum, messageId, now);
    }
  }

  lemma TargetExactly(seed: Seed, ep: Endpoint, seqNum: u64, messageId: Bytes)
    requires Shape(seed, ep)
    ensures TargetKey(ep.ch, seqNum, messageId)
         == if IsBeyond(ep.ch, seqNum) then Err(InvalidSequence)
            else if IsAhead(ep.ch, seqNum) then Ok(Key(seed, |ep.sent| + seqNum))
            else if seqNum in ep.ch.skipped then Ok(ep.ch.skipped[seqNum])
            else if exists e :: e in ep.ch.store && e.key.seqNum == seqNum && e.key.messageId == messageId
                 then Err(ReplayedSequence) else Err(SkippedKeyExpired)
  {
    StoreHasByFields(ep.ch.store, seqNum, messageId);
    if Forward(ep.ch, seqNum) && !TooFar(ep.ch, seqNum) {
      ForwardTargetKey(ep.ch, seed, |ep.sent|, seqNum, messageId);
    }
  }

  lemma StoreHasByFields(store: seq<Entry>, seqNum: u64, messageId: Bytes)
    ensures HasKey(store, EntryKey(seqNum, messageId))
       <==> exists e :: e in store && e.key.seqNum == seqNum && e.key.messageId == messageId
  {
    forall e | e in store && e.key.seqNum == seqNum && e.key.messageId == messageId
      ensures e.key == EntryKey(seqNum, messageId)
    {
    }
  }

  // ------------------------------------------------------------------ order independence

  /** On an endpoint that never sends, the key for a number is the chain key at that position. */
  lemma ReceiverKeysSitAtTheirNumber(seed: Seed, ep: Endpoint)
    requires Inv(seed, ep) && ep.sent == []
    ensures ep.ch.currentKey == Key(seed, Next(ep.ch))
    ensures forall s :: s in ep.ch.skipped ==> ep.ch.skipped[s] == Key(seed, s)
    ensures forall i :: 0 <= i < |ep.accepts| ==> ep.accepts[i].pos == ep.accepts[i].seqNum
  {
  }

  ghost predicate SameAccepted(a: Endpoint, b: Endpoint) {
    forall s: u64 :: Accepted(a.accepts, s) <==> Accepted(b.accepts, s)
  }

  lemma NextFollowsAccepted(seed: Seed, a: Endpoint, b: Endpoint)
    requires Inv(seed, a) && Inv(seed, b) && SameAccepted(a, b)
    ensures a.ch.lastSeq == b.ch.lastSeq
  {
    if a.ch.lastSeq.Some? {
      assert Accepted(b.accepts, a.ch.lastSeq.value);
    }
    if b.ch.lastSeq.Some? {
      assert Accepted(a.accepts, b.ch.lastSeq.value);
    }
  }

  /** The receiving state depends only on which numbers were accepted and on the watermark: two
      receivers that accepted the same set in any order, and evicted up to the same watermark
      (in particular, evicted nothing), have equal last number, current key and table. */
  lemma OrderIndependence(mac: Mac, material: Bytes, nPaths: nat, eventsA: seq<Event>, eventsB: seq<Event>)
    requires Reached(mac, material, nPaths, eventsA).sent == []
    requires Reached(mac, material, nPaths, eventsB).sent == []
    requires SameAccepted(Reached(mac, material, nPaths, eventsA), Reached(mac, material, nPaths, eventsB))
    requires Watermark(Reached(mac, material, nPaths, eventsA).evicted.Keys)
          == Watermark(Reached(mac, material, nPaths, eventsB).evicted.Keys)
    ensures var a := Reached(mac, material, nPaths, eventsA);
            var b := Reached(mac, material, nPaths, eventsB);
            a.ch.lastSeq == b.ch.lastSeq && a.ch.currentKey == b.ch.currentKey && a.ch.skipped == b.ch.skipped
  {
    var a := Reached(mac, material, nPaths, eventsA);
    var b := Reached(mac, material, nPaths, eventsB);
    var seed := Root(material);
    RunKeepsInv(mac, material, nPaths, eventsA);
    RunKeepsInv(mac, material, nPaths, eventsB);
    NextFollowsAccepted(seed, a, b);
    ReceiverKeysSitAtTheirNumber(seed, a);
    ReceiverKeysSitAtTheirNumber(seed, b);
    forall s: u64 ensures s in a.ch.skipped <==> s in b.ch.skipped {
      SameNumbersStored(seed, a, b, s);
    }
    SameTable(seed, a.ch.skipped, b.ch.skipped);
  }

  lemma SameNumbersStored(seed: Seed, a: Endpoint, b: Endpoint, s: u64)
    requires Inv(seed, a) && Inv(seed, b) && SameAccepted(a, b)
    requires a.ch.lastSeq == b.ch.lastSeq
    requires Watermark(a.evicted.Keys) == Watermark(b.evicted.Keys)
    ensures s in a.ch.skipped <==> s in b.ch.skipped
  {
    if a.ch.lastSeq.Some? {
      TableIsCanonical(seed, a, s);
      TableIsCanonical(seed, b, s);
    } else if s in a.ch.skipped || s in b.ch.skipped {
      assert s in a.ch.skipped.Keys || s in b.ch.skipped.Keys;
    }
  }

  lemma SameTable(seed: Seed, a: map<u64, Key>, b: map<u64, Key>)
    requires forall s: u64 :: s in a <==> s in b
    requires forall s :: s in a ==> a[s] == Key(seed, s)
    requires forall s :: s in b ==> b[s] == Key(seed, s)
    ensures a == b
  {
  }

  // ------------------------------------------------------------------ two ends in step

  lemma ForwardTargetKey(st: ChannelState, seed: Seed, nSent: nat, seqNum: u64, messageId: Bytes)
    requires st.currentKey == Key(seed, nSent + Next(st)) && Forward(st, seqNum) && !TooFar(st, seqNum)
    ensures TargetKey(st, seqNum, messageId) == Ok(Key(seed, nSent + seqNum))
  {
  }

  /** For a new packet, the key this endpoint tries is the one at which the other end seals exactly
      when this endpoint has sent as many messages as the other end has reached numbers. */
  lemma InStepExactly(mac: Mac, material: Bytes, nPathsA: nat, eventsA: seq<Event>, nPathsB: nat, eventsB: seq<Event>,
                      s: u64, messageId: Bytes)
    requires s == |Reached(mac, material, nPathsB, eventsB).sent|
    requires Forward(Reached(mac, material, nPathsA, eventsA).ch, s)
    requires !TooFar(Reached(mac, material, nPathsA, eventsA).ch, s)
    ensures TargetKey(Reached(mac, material, nPathsA, eventsA).ch, s, messageId)
            == Ok(Reached(mac, material, nPathsB, eventsB).ch.currentKey)
       <==> |Reached(mac, material, nPathsA, eventsA).sent| == Next(Reached(mac, material, nPathsB, eventsB).ch)
  {
    var a := Reached(mac, material, nPathsA, eventsA);
    ReachedKey(mac, material, nPathsA, eventsA);
    ReachedKey(mac, material, nPathsB, eventsB);
    ForwardTargetKey(a.ch, Root(material), |a.sent|, s, messageId);
  }

  /** Against a peer that never receives, and so seals at the number itself, that means: exactly when
      this endpoint has never sent. */
  lemma SendingFallsOutOfStep(mac: Mac, material: Bytes, nPaths: nat, events: seq<Event>, seqNum: u64, messageId: Bytes)
    requires Forward(Reached(mac, material, nPaths, events).ch, seqNum)
    requires !TooFar(Reached(mac, material, nPaths, events).ch, seqNum)
    ensures TargetKey(Reached(mac, material, nPaths, events).ch, seqNum, messageId) == Ok(Key(Root(material), seqNum))
       <==> Reached(mac, material, nPaths, events).sent == []
  {
    var ep := Reached(mac, material, nPaths, events);
    ReachedKey(mac, material, nPaths, events);
    ForwardTargetKey(ep.ch, Root(material), |ep.sent|, seqNum, messageId);
  }

  lemma ReachedKey(mac: Mac, material: Bytes, nPaths: nat, events: seq<Event>)
    ensures Reached(mac, material, nPaths, events).ch.currentKey
         == Key(Root(material),
                |Reached(mac, material, nPaths, events).sent| + Next(Reached(mac, material, nPaths, events).ch))
  {
    RunKeepsInv(mac, material, nPaths, events);
  }
}
