/**
 One endpoint over a whole run: any interleaving of sends and receives, with whatever
 envelopes the network presents.

 The record kept beside the channel state names every successful send, every accepted
 packet and every evicted key, and a ledger says for each position of the key chain
 which call derived it.
 */
module Endpoints {
  import opened AntiReplay
  import opened ByteCodec
  import opened ChannelModel
  import opened Envelopes
  import opened PathEngine
  import opened Symbols
  import opened Wrappers

  datatype Sent = Sent(payload: Bytes, messageId: Bytes, rnd: SendRandom, pos: nat, packet: Packet)

  datatype Accept = Accept(seqNum: u64, messageId: Bytes, payload: Bytes, at: nat, pos: nat)

  datatype Owner = BySend(index: nat) | ByReceive(seqNum: nat)

  datatype Endpoint = Endpoint(
    ch: ChannelState,
    sent: seq<Sent>,
    accepts: seq<Accept>,
    evicted: map<u64, Key>,
    ledger: seq<Owner>)

  datatype Event =
    | SendEvent(payload: Bytes, messageId: Bytes, rnd: SendRandom)
    | ReceiveEvent(envelopes: seq<Envelope>, seqNum: u64, messageId: Bytes, now: nat)

  function NewEndpoint(material: Bytes, nPaths: nat): Endpoint {
    Endpoint(NewState(material, nPaths), [], [], map[], [])
  }

  function RecordSend(ep: Endpoint, ch': ChannelState, sent: Sent): Endpoint {
    ep.(ch := ch', sent := ep.sent + [sent], ledger := ep.ledger + [BySend(|ep.sent|)])
  }

  /** The keys that committing `seqNum` drops from the table without using them. */
  function EvictedBy(st: ChannelState, seqNum: u64): map<u64, Key> {
    if Forward(st, seqNum) then Without(Merged(st, seqNum), EvictOldest(Merged(st, seqNum))) else map[]
  }

  /** The owners of the positions that committing `seqNum` newly derives. */
  function Derived(st: ChannelState, seqNum: u64): seq<Owner> {
    if Forward(st, seqNum) then
      seq(seqNum - Next(st) + 1, k requires 0 <= k => ByReceive(Next(st) + k))
    else []
  }

  function RecordAccept(ep: Endpoint, ch': ChannelState, accept: Accept): Endpoint {
    ep.(ch := ch',
        accepts := ep.accepts + [accept],
        evicted := ep.evicted + EvictedBy(ep.ch, accept.seqNum),
        ledger := ep.ledger + Derived(ep.ch, accept.seqNum))
  }

  /** One call.  A send past the end of the 64-bit counter is not made. */
  function Step(mac: Mac, ep: Endpoint, ev: Event): Endpoint {
    match ev
    case SendEvent(payload, messageId, rnd) =>
      if !CanSend(ep.ch) then ep
      else (
        var (ch', r) := Send(mac, ep.ch, payload, messageId, rnd);
        match r
        case Ok(packet) => RecordSend(ep, ch', Sent(payload, messageId, rnd, ep.ch.currentKey.pos, packet))
        case Err(_) => ep.(ch := ch'))
    case ReceiveEvent(envelopes, seqNum, messageId, now) =>
      var (ch', r) := Receive(mac, ep.ch, envelopes, seqNum, messageId, now);
      match r
      case Ok(payload) =>
        RecordAccept(ep, ch', Accept(seqNum, messageId, payload, now, TargetKey(ep.ch, seqNum, messageId).value.pos))
      case Err(_) => ep.(ch := ch')
  }

  function Run(mac: Mac, start: Endpoint, events: seq<Event>): Endpoint {
    if events == [] then start
    else Step(mac, Run(mac, start, events[..|events| - 1]), events[|events| - 1])
  }

  // ------------------------------------------------------------------ the invariant

  ghost predicate Accepted(accepts: seq<Accept>, s: u64) {
    exists i :: 0 <= i < |accepts| && accepts[i].seqNum == s
  }

  function Entries(accepts: seq<Accept>): (entries: seq<Entry>)
    ensures |entries| == |accepts|
  {
    seq(|accepts|, i requires 0 <= i < |accepts| =>
      Entry(EntryKey(accepts[i].seqNum, accepts[i].messageId), accepts[i].at))
  }

  /** The counters and the current key agree with the record. */
  ghost predicate Shape(seed: Seed, ep: Endpoint) {
    && ep.ch.currentKey == Key(seed, |ep.ledger|)
    && |ep.ledger| == |ep.sent| + Next(ep.ch)
    && (match ep.ch.sendSeq case None => ep.sent == [] case Some(s) => |ep.sent| == s + 1)
    && (match ep.ch.lastSeq case None => ep.accepts == [] case Some(last) => Accepted(ep.accepts, last))
  }

  /** Every sequence number below `next` is exactly one of accepted, stored and evicted. */
  ghost predicate Cover(accepts: seq<Accept>, stored: set<u64>, evicted: set<u64>, next: nat) {
    && (forall i, j :: 0 <= i < j < |accepts| ==> accepts[i].seqNum != accepts[j].seqNum)
    && (forall s: u64 :: Accepted(accepts, s) || s in stored || s in evicted ==> s < next)
    && (forall s: u64 :: s < next ==> Accepted(accepts, s) || s in stored || s in evicted)
    && (forall s :: s in stored ==> !Accepted(accepts, s) && s !in evicted)
    && (forall s :: s in evicted ==> !Accepted(accepts, s))
  }

  /** Evicted numbers lie below stored ones, and more than a full table behind `next`. */
  ghost predicate Order(stored: set<u64>, evicted: set<u64>, next: nat) {
    && |stored| <= MAX_SKIPPED_KEYS
    && (forall e, k :: e in evicted && k in stored ==> e < k)
    && (forall e :: e in evicted ==> e + MAX_SKIPPED_KEYS + 2 <= next)
  }

  /** Each key of a table sits at a position that the ledger gives to its number. */
  ghost predicate Holds(seed: Seed, ledger: seq<Owner>, keys: map<u64, Key>) {
    forall s :: s in keys ==>
      keys[s].seed == seed && keys[s].pos < |ledger| && ledger[keys[s].pos] == ByReceive(s)
  }

  /** Each position of the chain has its owner, in order of derivation, and not far from its number. */
  ghost predicate Owners(ledger: seq<Owner>, nSent: nat, next: nat) {
    && (forall p :: 0 <= p < |ledger| ==>
          match ledger[p]
          case BySend(i) => i < nSent && i <= p <= i + next
          case ByReceive(s) => s < next && s <= p <= s + nSent)
    && (forall p, q :: 0 <= p < q < |ledger| && ledger[p].ByReceive? && ledger[q].ByReceive?
          ==> ledger[p].seqNum < ledger[q].seqNum)
  }

  ghost predicate SendsOwn(ledger: seq<Owner>, sent: seq<Sent>) {
    && (forall p :: 0 <= p < |ledger| && ledger[p].BySend? ==>
          ledger[p].index < |sent| && sent[ledger[p].index].pos == p)
    && (forall i :: 0 <= i < |sent| ==> sent[i].pos < |ledger| && ledger[sent[i].pos] == BySend(i))
  }

  ghost predicate AcceptsOwn(ledger: seq<Owner>, accepts: seq<Accept>) {
    forall i :: 0 <= i < |accepts| ==>
      accepts[i].pos < |ledger| && ledger[accepts[i].pos] == ByReceive(accepts[i].seqNum)
  }

  /** The ledger names for every position the one call that derived it. */
  ghost predicate LedgerOk(seed: Seed, ep: Endpoint) {
    && Owners(ep.ledger, |ep.sent|, Next(ep.ch))
    && SendsOwn(ep.ledger, ep.sent)
    && AcceptsOwn(ep.ledger, ep.accepts)
    && Holds(seed, ep.ledger, ep.ch.skipped)
    && Holds(seed, ep.ledger, ep.evicted)
  }

  /** The store remembers the latest accepts, in order. */
  ghost predicate StoreLog(store: seq<Entry>, accepts: seq<Accept>) {
    && |store| <= |accepts|
    && store == Entries(accepts)[|accepts| - |store|..]
  }

  ghost predicate Inv(seed: Seed, ep: Endpoint) {
    && Shape(seed, ep)
    && Cover(ep.accepts, ep.ch.skipped.Keys, ep.evicted.Keys, Next(ep.ch))
    && Order(ep.ch.skipped.Keys, ep.evicted.Keys, Next(ep.ch))
    && LedgerOk(seed, ep)
    && StoreLog(ep.ch.store, ep.accepts)
  }

  lemma InvInit(material: Bytes, nPaths: nat)
    ensures Inv(Root(material), NewEndpoint(material, nPaths))
  {
  }

  // ------------------------------------------------------------------ one step keeps the invariant

  lemma OwnersAfterSend(ledger: seq<Owner>, sent: seq<Sent>, next: nat, added: Sent)
    requires Owners(ledger, |sent|, next) && SendsOwn(ledger, sent)
    requires |ledger| == |sent| + next && added.pos == |ledger|
    ensures Owners(ledger + [BySend(|sent|)], |sent| + 1, next)
    ensures SendsOwn(ledger + [BySend(|sent|)], sent + [added])
  {
  }

  lemma HoldsInLonger(seed: Seed, ledger: seq<Owner>, more: seq<Owner>, keys: map<u64, Key>)
    requires Holds(seed, ledger, keys)
    ensures Holds(seed, ledger + more, keys)
  {
  }

  lemma AcceptsOwnInLonger(ledger: seq<Owner>, more: seq<Owner>, accepts: seq<Accept>)
    requires AcceptsOwn(ledger, accepts)
    ensures AcceptsOwn(ledger + more, accepts)
  {
  }

  lemma SendKeepsInv(seed: Seed, ep: Endpoint, sent: Sent)
    requires Inv(seed, ep) && CanSend(ep.ch) && sent.pos == ep.ch.currentKey.pos
    ensures Inv(seed, RecordSend(ep, ep.ch.(currentKey := DeriveNext(ep.ch.currentKey),
                                            sendSeq := Some(NextSend(ep.ch))), sent))
  {
    OwnersAfterSend(ep.ledger, ep.sent, Next(ep.ch), sent);
    AcceptsOwnInLonger(ep.ledger, [BySend(|ep.sent|)], ep.accepts);
    HoldsInLonger(seed, ep.ledger, [BySend(|ep.sent|)], ep.ch.skipped);
    HoldsInLonger(seed, ep.ledger, [BySend(|ep.sent|)], ep.evicted);
  }

  /** An entry of the store stands for an accepted packet. */
  lemma StoreHoldsAccepts(store: seq<Entry>, accepts: seq<Accept>, key: EntryKey)
    requires StoreLog(store, accepts) && HasKey(store, key)
    ensures Accepted(accepts, key.seqNum)
  {
    var e :| e in store && e.key == key;
    var j :| 0 <= j < |store| && store[j] == e;
    var i := |accepts| - |store| + j;
    assert Entries(accepts)[i] == e;
    assert accepts[i].seqNum == key.seqNum;
  }

  /** A number with a target key was not accepted before. */
  lemma TargetIsUnaccepted(seed: Seed, ep: Endpoint, seqNum: u64, messageId: Bytes)
    requires Inv(seed, ep) && TargetKey(ep.ch, seqNum, messageId).Ok?
    ensures !Accepted(ep.accepts, seqNum)
  {
  }

  lemma FreshIsInserted(store: seq<Entry>, accepts: seq<Accept>, key: EntryKey, now: nat)
    requires StoreLog(store, accepts) && !Accepted(accepts, key.seqNum)
    ensures CheckInsert(store, key, now, ANTI_REPLAY_CAPACITY, ANTI_REPLAY_TIME_WINDOW).1
  {
    var live := DropExpired(store, now, ANTI_REPLAY_TIME_WINDOW);
    if HasKey(live, key) {
      var e :| e in live && e.key == key;
      StoreHoldsAccepts(store, accepts, key);
      assert false;
    }
  }

  /** Step 4 of `receive` never rejects: pruning followed by a rejection cannot happen. */
  lemma StoreNeverRejects(seed: Seed, ep: Endpoint, seqNum: u64, messageId: Bytes, now: nat)
    requires Inv(seed, ep) && TargetKey(ep.ch, seqNum, messageId).Ok?
    ensures CheckInsert(ep.ch.store, EntryKey(seqNum, messageId), now,
                        ANTI_REPLAY_CAPACITY, ANTI_REPLAY_TIME_WINDOW).1
  {
    TargetIsUnaccepted(seed, ep, seqNum, messageId);
    FreshIsInserted(ep.ch.store, ep.accepts, EntryKey(seqNum, messageId), now);
  }

  function StoreAfter(store: seq<Entry>, accept: Accept): seq<Entry> {
    CheckInsert(store, EntryKey(accept.seqNum, accept.messageId), accept.at,
                ANTI_REPLAY_CAPACITY, ANTI_REPLAY_TIME_WINDOW).0
  }

  /** The step that accepting makes. */
  function Accepting(ep: Endpoint, accept: Accept): Endpoint {
    RecordAccept(ep, Commit(ep.ch, accept.seqNum, StoreAfter(ep.ch.store, accept)), accept)
  }

  ghost predicate Acceptable(seed: Seed, ep: Endpoint, accept: Accept) {
    && Inv(seed, ep)
    && TargetKey(ep.ch, accept.seqNum, accept.messageId).Ok?
    && accept.pos == TargetKey(ep.ch, accept.seqNum, accept.messageId).value.pos
  }

  lemma AcceptedAfter(accepts: seq<Accept>, accept: Accept)
    ensures forall s: u64 :: Accepted(accepts + [accept], s) <==> Accepted(accepts, s) || s == accept.seqNum
  {
    var accepts' := accepts + [accept];
    forall s: u64
      ensures Accepted(accepts', s) <==> Accepted(accepts, s) || s == accept.seqNum
    {
      if Accepted(accepts, s) {
        var i :| 0 <= i < |accepts| && accepts[i].seqNum == s;
        assert accepts'[i].seqNum == s;
      }
      if s == accept.seqNum {
        assert accepts'[|accepts|].seqNum == s;
      }
    }
  }

  lemma LastIsAccepted(accepts: seq<Accept>, accept: Accept)
    ensures Accepted(accepts + [accept], accept.seqNum)
  {
    assert (accepts + [accept])[|accepts|] == accept;
  }

  lemma StaysAccepted(accepts: seq<Accept>, accept: Accept, s: u64)
    requires Accepted(accepts, s)
    ensures Accepted(accepts + [accept], s)
  {
    AcceptedAfter(accepts, accept);
  }

  lemma TrimmedIsSuffix(entries: seq<Entry>, store: seq<Entry>, now: nat)
    requires |store| <= |entries| && store == entries[|entries| - |store|..]
    ensures var kept := Trim(DropExpired(store, now, ANTI_REPLAY_TIME_WINDOW), ANTI_REPLAY_CAPACITY);
            |kept| <= |entries| && kept == entries[|entries| - |kept|..]
  {
  }

  lemma EntriesAfter(accepts: seq<Accept>, accept: Accept)
    ensures Entries(accepts + [accept])
         == Entries(accepts) + [Entry(EntryKey(accept.seqNum, accept.messageId), accept.at)]
  {
  }

  lemma StoreLogAfterPush(kept: seq<Entry>, accepts: seq<Accept>, accept: Accept)
    requires StoreLog(kept, accepts)
    ensures StoreLog(kept + [Entry(EntryKey(accept.seqNum, accept.messageId), accept.at)], accepts + [accept])
  {
    EntriesAfter(accepts, accept);
  }

  lemma AcceptKeepsStoreLog(store: seq<Entry>, accepts: seq<Accept>, accept: Accept)
    requires StoreLog(store, accepts) && !Accepted(accepts, accept.seqNum)
    ensures StoreLog(StoreAfter(store, accept), accepts + [accept])
  {
    FreshIsInserted(store, accepts, EntryKey(accept.seqNum, accept.messageId), accept.at);
    TrimmedIsSuffix(Entries(accepts), store, accept.at);
    StoreLogAfterPush(Trim(DropExpired(store, accept.at, ANTI_REPLAY_TIME_WINDOW), ANTI_REPLAY_CAPACITY),
                      accepts, accept);
  }

  lemma NewAcceptIsDistinct(accepts: seq<Accept>, accept: Accept)
    requires forall i, j :: 0 <= i < j < |accepts| ==> accepts[i].seqNum != accepts[j].seqNum
    requires !Accepted(accepts, accept.seqNum)
    ensures var accepts' := accepts + [accept];
            forall i, j :: 0 <= i < j < |accepts'| ==> accepts'[i].seqNum != accepts'[j].seqNum
  {
    forall i | 0 <= i < |accepts| ensures accepts[i].seqNum != accept.seqNum {
      assert Accepted(accepts, accepts[i].seqNum);
    }
  }

  // ------------------------------------------------------------------ accepting ahead

  lemma ForwardCover(accepts: seq<Accept>, stored: set<u64>, evicted: set<u64>, next: nat,
                     accept: Accept, gap: set<u64>, stored': set<u64>, dropped: set<u64>)
    requires Cover(accepts, stored, evicted, next) && next <= accept.seqNum
    requires forall s: u64 :: s in gap <==> next <= s < accept.seqNum
    requires stored' + dropped == stored + gap && stored' !! dropped
    ensures Cover(accepts + [accept], stored', evicted + dropped, accept.seqNum + 1)
  {
    AcceptedAfter(accepts, accept);
    NewAcceptIsDistinct(accepts, accept);
    forall s: u64
      ensures s in stored + gap <==> s in stored' || s in dropped
    {
      assert s in stored' + dropped <==> s in stored' || s in dropped;
    }
  }

  lemma ForwardOrder(stored: set<u64>, evicted: set<u64>, next: nat, n: u64,
                     gap: set<u64>, stored': set<u64>, dropped: set<u64>)
    requires Order(stored, evicted, next) && next <= n
    requires forall s: u64 :: s in gap <==> next <= s < n
    requires stored' + dropped == stored + gap && |stored'| <= MAX_SKIPPED_KEYS
    requires forall e, k :: e in dropped && k in stored' ==> e < k
    requires forall e :: e in dropped ==> e + MAX_SKIPPED_KEYS + 1 <= n
    ensures Order(stored', evicted + dropped, n + 1)
  {
    forall e, k | e in evicted && k in stored'
      ensures e < k
    {
      assert k in stored + gap;
    }
  }

  lemma OwnersAfterGap(ledger: seq<Owner>, sent: seq<Sent>, next: nat, n: u64, more: seq<Owner>)
    requires Owners(ledger, |sent|, next) && SendsOwn(ledger, sent) && |ledger| == |sent| + next && next <= n
    requires |more| == n - next + 1 && forall k :: 0 <= k < |more| ==> more[k] == ByReceive(next + k)
    ensures Owners(ledger + more, |sent|, n + 1)
    ensures SendsOwn(ledger + more, sent)
  {
  }

  /** The keys passed over sit where the extended ledger says. */
  lemma DerivedAt(ledger: seq<Owner>, st: ChannelState, n: u64, s: u64)
    requires Next(st) <= s < n
    ensures var p := |ledger| + (s - Next(st));
            p < |ledger + Derived(st, n)| && (ledger + Derived(st, n))[p] == ByReceive(s)
  {
    var k := s - Next(st);
    assert (ledger + Derived(st, n))[|ledger| + k] == Derived(st, n)[k];
  }

  lemma GapHolds(seed: Seed, ep: Endpoint, n: u64)
    requires ep.ch.currentKey == Key(seed, |ep.ledger|) && Forward(ep.ch, n)
    ensures Holds(seed, ep.ledger + Derived(ep.ch, n), Gap(ep.ch, n))
  {
    var gap, ledger := Gap(ep.ch, n), ep.ledger + Derived(ep.ch, n);
    forall s | s in gap
      ensures gap[s].seed == seed && gap[s].pos < |ledger| && ledger[gap[s].pos] == ByReceive(s)
    {
      DerivedAt(ep.ledger, ep.ch, n, s);
    }
  }

  lemma HoldsInPart(seed: Seed, ledger: seq<Owner>, whole: map<u64, Key>, part: map<u64, Key>)
    requires Holds(seed, ledger, whole)
    requires forall s :: s in part ==> s in whole && part[s] == whole[s]
    ensures Holds(seed, ledger, part)
  {
  }

  lemma HoldsInSum(seed: Seed, ledger: seq<Owner>, a: map<u64, Key>, b: map<u64, Key>)
    requires Holds(seed, ledger, a) && Holds(seed, ledger, b)
    ensures Holds(seed, ledger, a + b)
  {
  }

  lemma MergedBelow(st: ChannelState, n: u64)
    requires Forward(st, n) && forall s :: s in st.skipped.Keys ==> s < Next(st)
    ensures Merged(st, n).Keys == st.skipped.Keys + Gap(st, n).Keys
    ensures forall s :: s in Merged(st, n) ==> s < n
  {
  }

  ghost predicate ForwardSplits(ep: Endpoint, accept: Accept) {
    && Merged(ep.ch, accept.seqNum).Keys == ep.ch.skipped.Keys + Gap(ep.ch, accept.seqNum).Keys
    && Splits(Merged(ep.ch, accept.seqNum), Accepting(ep, accept).ch.skipped, EvictedBy(ep.ch, accept.seqNum),
              accept.seqNum)
  }

  lemma ForwardSplitsTable(seed: Seed, ep: Endpoint, accept: Accept)
    requires Acceptable(seed, ep, accept) && Forward(ep.ch, accept.seqNum)
    ensures ForwardSplits(ep, accept)
  {
    MergedBelow(ep.ch, accept.seqNum);
    var merged := Merged(ep.ch, accept.seqNum);
    EvictionKeepsNewest(merged, accept.seqNum);
    SplitsByEviction(merged, EvictOldest(merged), accept.seqNum);
  }

  lemma AcceptsOwnAfter(ledger: seq<Owner>, accepts: seq<Accept>, accept: Accept)
    requires AcceptsOwn(ledger, accepts)
    requires accept.pos < |ledger| && ledger[accept.pos] == ByReceive(accept.seqNum)
    ensures AcceptsOwn(ledger, accepts + [accept])
  {
  }

  lemma ForwardHolds(seed: Seed, ep: Endpoint, accept: Accept)
    requires ForwardSplits(ep, accept) && Forward(ep.ch, accept.seqNum)
    requires ep.ch.currentKey == Key(seed, |ep.ledger|)
    requires Holds(seed, ep.ledger, ep.ch.skipped) && Holds(seed, ep.ledger, ep.evicted)
    ensures var ep' := Accepting(ep, accept);
            Holds(seed, ep'.ledger, ep'.ch.skipped) && Holds(seed, ep'.ledger, ep'.evicted)
  {
    var n := accept.seqNum;
    var more := Derived(ep.ch, n);
    var ledger := ep.ledger + more;
    HoldsInLonger(seed, ep.ledger, more, ep.ch.skipped);
    HoldsInLonger(seed, ep.ledger, more, ep.evicted);
    GapHolds(seed, ep, n);
    HoldsInSum(seed, ledger, ep.ch.skipped, Gap(ep.ch, n));
    HoldsInPart(seed, ledger, Merged(ep.ch, n), Accepting(ep, accept).ch.skipped);
    HoldsInPart(seed, ledger, Merged(ep.ch, n), EvictedBy(ep.ch, n));
    HoldsInSum(seed, ledger, ep.evicted, EvictedBy(ep.ch, n));
  }

  lemma ForwardOwners(seed: Seed, ep: Endpoint, accept: Accept)
    requires Shape(seed, ep) && LedgerOk(seed, ep) && Forward(ep.ch, accept.seqNum)
    requires accept.pos == ep.ch.currentKey.pos + (accept.seqNum - Next(ep.ch))
    ensures var ep' := Accepting(ep, accept);
            Owners(ep'.ledger, |ep'.sent|, accept.seqNum + 1)
            && SendsOwn(ep'.ledger, ep'.sent) && AcceptsOwn(ep'.ledger, ep'.accepts)
  {
    var more := Derived(ep.ch, accept.seqNum);
    OwnersAfterGap(ep.ledger, ep.sent, Next(ep.ch), accept.seqNum, more);
    AcceptsOwnInLonger(ep.ledger, more, ep.accepts);
    AcceptsOwnAfter(ep.ledger + more, ep.accepts, accept);
  }

  lemma ForwardKeepsCoverAndOrder(ep: Endpoint, accept: Accept)
    requires ForwardSplits(ep, accept) && Forward(ep.ch, accept.seqNum)
    requires Cover(ep.accepts, ep.ch.skipped.Keys, ep.evicted.Keys, Next(ep.ch))
    requires Order(ep.ch.skipped.Keys, ep.evicted.Keys, Next(ep.ch))
    ensures var ep' := Accepting(ep, accept);
            && Cover(ep'.accepts, ep'.ch.skipped.Keys, ep'.evicted.Keys, accept.seqNum + 1)
            && Order(ep'.ch.skipped.Keys, ep'.evicted.Keys, accept.seqNum + 1)
  {
    var n := accept.seqNum;
    var kept := Accepting(ep, accept).ch.skipped;
    var dropped := EvictedBy(ep.ch, n);
    assert Accepting(ep, accept).evicted.Keys == ep.evicted.Keys + dropped.Keys;
    ForwardCover(ep.accepts, ep.ch.skipped.Keys, ep.evicted.Keys, Next(ep.ch), accept,
                 Gap(ep.ch, n).Keys, kept.Keys, dropped.Keys);
    ForwardOrder(ep.ch.skipped.Keys, ep.evicted.Keys, Next(ep.ch), n,
                 Gap(ep.ch, n).Keys, kept.Keys, dropped.Keys);
  }

  lemma ForwardKeepsInv(seed: Seed, ep: Endpoint, accept: Accept)
    requires Acceptable(seed, ep, accept) && Forward(ep.ch, accept.seqNum)
    ensures Inv(seed, Accepting(ep, accept))
  {
    TargetIsUnaccepted(seed, ep, accept.seqNum, accept.messageId);
    AcceptKeepsStoreLog(ep.ch.store, ep.accepts, accept);
    ForwardSplitsTable(seed, ep, accept);
    ForwardKeepsCoverAndOrder(ep, accept);
    ForwardHolds(seed, ep, accept);
    ForwardOwners(seed, ep, accept);
    LastIsAccepted(ep.accepts, accept);
  }

  // ------------------------------------------------------------------ accepting late

  lemma LateCover(accepts: seq<Accept>, stored: set<u64>, evicted: set<u64>, next: nat, accept: Accept)
    requires Cover(accepts, stored, evicted, next) && accept.seqNum in stored
    ensures Cover(accepts + [accept], stored - {accept.seqNum}, evicted, next)
  {
    AcceptedAfter(accepts, accept);
    NewAcceptIsDistinct(accepts, accept);
  }

  lemma LateOrder(stored: set<u64>, evicted: set<u64>, next: nat, s: u64)
    requires Order(stored, evicted, next) && s in stored
    ensures Order(stored - {s}, evicted, next)
  {
  }

  lemma LateStepIsAccepting(ep: Endpoint, accept: Accept)
    requires !Forward(ep.ch, accept.seqNum)
    ensures Accepting(ep, accept)
         == ep.(ch := ep.ch.(skipped := ep.ch.skipped - {accept.seqNum}, store := StoreAfter(ep.ch.store, accept)),
                accepts := ep.accepts + [accept])
  {
    assert ep.evicted + map[] == ep.evicted;
    assert ep.ledger + [] == ep.ledger;
  }

  lemma LateKeepsCoverAndOrder(ep: Endpoint, accept: Accept)
    requires accept.seqNum in ep.ch.skipped && !Forward(ep.ch, accept.seqNum)
    requires Cover(ep.accepts, ep.ch.skipped.Keys, ep.evicted.Keys, Next(ep.ch))
    requires Order(ep.ch.skipped.Keys, ep.evicted.Keys, Next(ep.ch))
    ensures var ep' := Accepting(ep, accept);
            && Cover(ep'.accepts, ep'.ch.skipped.Keys, ep'.evicted.Keys, Next(ep.ch))
            && Order(ep'.ch.skipped.Keys, ep'.evicted.Keys, Next(ep.ch))
  {
    LateStepIsAccepting(ep, accept);
    LateCover(ep.accepts, ep.ch.skipped.Keys, ep.evicted.Keys, Next(ep.ch), accept);
    LateOrder(ep.ch.skipped.Keys, ep.evicted.Keys, Next(ep.ch), accept.seqNum);
    assert (ep.ch.skipped - {accept.seqNum}).Keys == ep.ch.skipped.Keys - {accept.seqNum};
  }

  lemma LateKeepsLedger(seed: Seed, ep: Endpoint, accept: Accept)
    requires accept.seqNum in ep.ch.skipped && !Forward(ep.ch, accept.seqNum)
    requires LedgerOk(seed, ep) && accept.pos == ep.ch.skipped[accept.seqNum].pos
    ensures LedgerOk(seed, Accepting(ep, accept))
  {
    LateStepIsAccepting(ep, accept);
    HoldsInPart(seed, ep.ledger, ep.ch.skipped, ep.ch.skipped - {accept.seqNum});
    AcceptsOwnAfter(ep.ledger, ep.accepts, accept);
  }

  lemma LateKeepsInv(seed: Seed, ep: Endpoint, accept: Accept)
    requires Acceptable(seed, ep, accept) && !Forward(ep.ch, accept.seqNum)
    ensures Inv(seed, Accepting(ep, accept))
  {
    TargetIsUnaccepted(seed, ep, accept.seqNum, accept.messageId);
    AcceptKeepsStoreLog(ep.ch.store, ep.accepts, accept);
    StaysAccepted(ep.accepts, accept, ep.ch.lastSeq.value);
    LateKeepsCoverAndOrder(ep, accept);
    LateKeepsLedger(seed, ep, accept);
  }

  /** What a receive does to an endpoint in order: it accepts, or it changes nothing at all. */
  lemma ReceiveAcceptsOrKeeps(mac: Mac, seed: Seed, ep: Endpoint,
                              envelopes: seq<Envelope>, seqNum: u64, messageId: Bytes, now: nat)
    requires Inv(seed, ep)
    ensures var (ch', r) := Receive(mac, ep.ch, envelopes, seqNum, messageId, now);
            var ep' := Step(mac, ep, ReceiveEvent(envelopes, seqNum, messageId, now));
            match r
            case Err(_) => ch' == ep.ch && ep' == ep
            case Ok(payload) =>
              TargetKey(ep.ch, seqNum, messageId).Ok?
              && var accept := Accept(seqNum, messageId, payload, now, TargetKey(ep.ch, seqNum, messageId).value.pos);
                 Acceptable(seed, ep, accept) && ep' == Accepting(ep, accept) && ch' == ep'.ch
  {
    if TargetKey(ep.ch, seqNum, messageId).Ok? {
      StoreNeverRejects(seed, ep, seqNum, messageId, now);
    }
  }

  /** What a step does to the receiving half: an acceptance, or nothing. */
  lemma StepCases(mac: Mac, seed: Seed, ep: Endpoint, ev: Event) returns (accept: Option<Accept>)
    requires Inv(seed, ep)
    ensures var ep' := Step(mac, ep, ev);
            match accept
            case None =>
              ep'.accepts == ep.accepts && ep'.evicted == ep.evicted && ep'.ch.store == ep.ch.store
              && ep'.ch.skipped == ep.ch.skipped && ep'.ch.lastSeq == ep.ch.lastSeq
            case Some(a) =>
              ev.ReceiveEvent? && a.seqNum == ev.seqNum && a.messageId == ev.messageId && a.at == ev.now
              && Acceptable(seed, ep, a) && ep' == Accepting(ep, a)
  {
    match ev
    case SendEvent(payload, messageId, rnd) =>
      if CanSend(ep.ch) {
        SendIsAtomic(mac, ep.ch, payload, messageId, rnd);
      }
      accept := None;
    case ReceiveEvent(envelopes, seqNum, messageId, now) =>
      ReceiveAcceptsOrKeeps(mac, seed, ep, envelopes, seqNum, messageId, now);
      match Receive(mac, ep.ch, envelopes, seqNum, messageId, now).1
      case Err(_) => accept := None;
      case Ok(payload) =>
        accept := Some(Accept(seqNum, messageId, payload, now, TargetKey(ep.ch, seqNum, messageId).value.pos));
  }

  lemma StepKeepsInv(mac: Mac, seed: Seed, ep: Endpoint, ev: Event)
    requires Inv(seed, ep)
    ensures Inv(seed, Step(mac, ep, ev))
  {
    match ev
    case SendEvent(payload, messageId, rnd) =>
      if CanSend(ep.ch) {
        SendIsAtomic(mac, ep.ch, payload, messageId, rnd);
        var (ch', r) := Send(mac, ep.ch, payload, messageId, rnd);
        if r.Ok? {
          SendKeepsInv(seed, ep, Sent(payload, messageId, rnd, ep.ch.currentKey.pos, r.value));
        }
      }
    case ReceiveEvent(envelopes, seqNum, messageId, now) =>
      ReceiveAcceptsOrKeeps(mac, seed, ep, envelopes, seqNum, messageId, now);
      var (ch', r) := Receive(mac, ep.ch, envelopes, seqNum, messageId, now);
      if r.Ok? {
        var accept := Accept(seqNum, messageId, r.value, now, TargetKey(ep.ch, seqNum, messageId).value.pos);
        if Forward(ep.ch, seqNum) {
          ForwardKeepsInv(seed, ep, accept);
        } else {
          LateKeepsInv(seed, ep, accept);
        }
      }
  }

  /** A receive moves the state of the endpoint as it moves the channel, keeps the invariant, and
      changes nothing when it fails. */
  lemma ReceiveStep(mac: Mac, seed: Seed, ep: Endpoint,
                    envelopes: seq<Envelope>, seqNum: u64, messageId: Bytes, now: nat)
    requires Inv(seed, ep)
    ensures var out := Receive(mac, ep.ch, envelopes, seqNum, messageId, now);
            var ep' := Step(mac, ep, ReceiveEvent(envelopes, seqNum, messageId, now));
            ep'.ch == out.0 && Inv(seed, ep') && (out.1.Err? ==> ep' == ep)
  {
    ReceiveAcceptsOrKeeps(mac, seed, ep, envelopes, seqNum, messageId, now);
    StepKeepsInv(mac, seed, ep, ReceiveEvent(envelopes, seqNum, messageId, now));
  }

  lemma SendStep(mac: Mac, seed: Seed, ep: Endpoint, payload: Bytes, messageId: Bytes, rnd: SendRandom)
    requires Inv(seed, ep) && CanSend(ep.ch)
    ensures var out := Send(mac, ep.ch, payload, messageId, rnd);
            var ep' := Step(mac, ep, SendEvent(payload, messageId, rnd));
            ep'.ch == out.0 && Inv(seed, ep') && (out.1.Err? ==> ep' == ep)
  {
    SendIsAtomic(mac, ep.ch, payload, messageId, rnd);
    StepKeepsInv(mac, seed, ep, SendEvent(payload, messageId, rnd));
  }

  lemma {:induction false} RunKeepsInv(mac: Mac, material: Bytes, nPaths: nat, events: seq<Event>)
    ensures Inv(Root(material), Run(mac, NewEndpoint(material, nPaths), events))
  {
    if events != [] {
      RunKeepsInv(mac, material, nPaths, events[..|events| - 1]);
      StepKeepsInv(mac, Root(material), Run(mac, NewEndpoint(material, nPaths), events[..|events| - 1]),
                   events[|events| - 1]);
    } else {
      InvInit(material, nPaths);
    }
  }
}
