/**
 The secure channel as a state machine on values.

 `Send` and `Receive` say in closed form what one call answers and what state it
 leaves; the class in module `Channel` computes the same with loops over its fields.
 */
module ChannelModel {
  import opened AntiReplay
  import opened ByteCodec
  import opened Decoys
  import opened Envelopes
  import opened PathEngine
  import opened Symbols
  import opened Wrappers

  const MAX_SKIP_WINDOW: nat := 1000
  const MAX_SKIPPED_KEYS: nat := 1000
  const MAX_MESSAGE_ID_LEN: nat := 256

  datatype ChannelError =
    | ReplayedSequence
    | SkippedKeyExpired
    | InvalidSequence
    | InvalidMessageId
    | AuthenticationFailed
    | DecoyFailure

  datatype ChannelState = ChannelState(
    lastSeq: Option<u64>,
    sendSeq: Option<u64>,
    currentKey: Key,
    skipped: map<u64, Key>,
    store: seq<Entry>,
    nPaths: nat)

  function NewState(material: Bytes, nPaths: nat): ChannelState {
    ChannelState(None, None, NewRatchetKey(material), map[], [], nPaths)
  }

  /** The first sequence number not yet reached by the receiver. */
  function Next(st: ChannelState): nat {
    match st.lastSeq
    case None => 0
    case Some(last) => last + 1
  }

  /** The associated data binding a sequence number and a message id. */
  function Aad(seqNum: u64, messageId: Bytes): Bytes {
    Ascii("decoypath-v1-msg-aad:") + ToBigEndian(seqNum, 8) + messageId
  }

  // ------------------------------------------------------------------ sending

  /** What one `send` draws from the system generator. */
  datatype SendRandom = SendRandom(seal: SealRandom, decoys: nat -> DecoyRandom)

  /** The sequence counter has not reached the end of its 64-bit range. */
  predicate CanSend(st: ChannelState) {
    st.sendSeq.Some? ==> st.sendSeq.value < U64_LIMIT - 1
  }

  function NextSend(st: ChannelState): u64
    requires CanSend(st)
  {
    match st.sendSeq
    case None => 0
    case Some(s) => s + 1
  }

  type Packet = seq<Envelope>

  function Send(mac: Mac, st: ChannelState, payload: Bytes, messageId: Bytes, rnd: SendRandom)
    : (ChannelState, Result<Packet, ChannelError>)
    requires CanSend(st)
  {
    if |messageId| > MAX_MESSAGE_ID_LEN then (st, Err(InvalidMessageId))
    else
      match SelectSlot(mac, st.currentKey, messageId, st.nPaths)
      case Err(_) => (st, Err(DecoyFailure))
      case Ok(validSlot) =>
        var aad := Aad(NextSend(st), messageId);
        match Sealed(st.currentKey, payload, aad, rnd.seal)
        case Err(_) => (st, Err(AuthenticationFailed))
        case Ok(genuine) =>
          var st' := st.(currentKey := DeriveNext(st.currentKey), sendSeq := Some(NextSend(st)));
          match MultiPathSlots(genuine, validSlot, st.nPaths, aad, rnd.decoys)
          case Err(_) => (st', Err(DecoyFailure))
          case Ok(slots) => (st', Ok(slots))
  }

  // ------------------------------------------------------------------ receiving

  /** Whether a sequence number lies beyond the skip window. */
  predicate TooFar(st: ChannelState, seqNum: u64) {
    match st.lastSeq
    case None => seqNum > MAX_SKIP_WINDOW
    case Some(last) => seqNum > last && seqNum - last > MAX_SKIP_WINDOW
  }

  predicate Forward(st: ChannelState, seqNum: u64) {
    seqNum >= Next(st)
  }

  /** Step 1: the key to try, or the reason why there is none. */
  function TargetKey(st: ChannelState, seqNum: u64, messageId: Bytes): Result<Key, ChannelError> {
    if TooFar(st, seqNum) then Err(InvalidSequence)
    else if Forward(st, seqNum) then Ok(Advance(st.currentKey, seqNum - Next(st)))
    else if seqNum in st.skipped then Ok(st.skipped[seqNum])
    else if HasKey(st.store, EntryKey(seqNum, messageId)) then Err(ReplayedSequence)
    else Err(SkippedKeyExpired)
  }

  function GapKey(st: ChannelState, s: u64): (key: Key)
    requires Forward(st, s)
    ensures key == Key(st.currentKey.seed, st.currentKey.pos + (s - Next(st)))
  {
    Advance(st.currentKey, s - Next(st))
  }

  /** The keys passed over on the way to `seqNum`. */
  function Gap(st: ChannelState, seqNum: u64): (gap: map<u64, Key>)
    ensures forall s :: s in gap <==> Next(st) <= s < seqNum
    ensures forall s :: s in gap ==> gap[s] == Key(st.currentKey.seed, st.currentKey.pos + (s - Next(st)))
  {
    map s: u64 | 0 <= s < seqNum && Forward(st, s) :: GapKey(st, s)
  }

  lemma {:induction false} LeastOf(s: set<u64>) returns (m: u64)
    requires s != {}
    ensures m in s && forall x :: x in s ==> m <= x
  {
    var first :| first in s;
    m := first;
    var rest := s - {first};
    if rest != {} {
      var least := LeastOf(rest);
      m := if first < least then first else least;
    }
    forall x | x in s ensures m <= x {
      assert x == first || x in rest;
    }
  }

  lemma MinExists(s: set<u64>)
    requires s != {}
    ensures exists m :: m in s && forall x :: x in s ==> m <= x
  {
    var m := LeastOf(s);
  }

  function MinOf(s: set<u64>): (m: u64)
    requires s != {}
    ensures m in s && forall x :: x in s ==> m <= x
  {
    MinExists(s);
    var m :| m in s && forall x :: x in s ==> m <= x;
    m
  }

  /** `pop_first`: everything but the entry of the least sequence number. */
  function PopFirst(skipped: map<u64, Key>): (rest: map<u64, Key>)
    requires |skipped| > 0
    ensures |rest| == |skipped| - 1
    ensures rest.Keys == skipped.Keys - {MinOf(skipped.Keys)}
    ensures forall s :: s in rest ==> rest[s] == skipped[s]
  {
    var rest := skipped - {MinOf(skipped.Keys)};
    assert rest.Keys == skipped.Keys - {MinOf(skipped.Keys)};
    assert |rest.Keys| == |skipped.Keys| - 1;
    rest
  }

  /** The table once brought back within its limit. */
  function EvictOldest(skipped: map<u64, Key>): (kept: map<u64, Key>)
    decreases |skipped|
  {
    if |skipped| > MAX_SKIPPED_KEYS then EvictOldest(PopFirst(skipped)) else skipped
  }

  /** The part of a table that is not in `kept`. */
  function Without(skipped: map<u64, Key>, kept: map<u64, Key>): map<u64, Key> {
    map s | s in skipped && s !in kept :: skipped[s]
  }

  /** The table with the keys passed over added to it. */
  function Merged(st: ChannelState, seqNum: u64): map<u64, Key> {
    st.skipped + Gap(st, seqNum)
  }

  /** Step 5: the state once the packet for `seqNum` is accepted. */
  function Commit(st: ChannelState, seqNum: u64, store': seq<Entry>): (st': ChannelState)
    ensures st'.nPaths == st.nPaths && st'.sendSeq == st.sendSeq
  {
    if Forward(st, seqNum) then
      st.(skipped := EvictOldest(Merged(st, seqNum)),
          lastSeq := Some(seqNum),
          currentKey := Advance(st.currentKey, seqNum - Next(st) + 1),
          store := store')
    else
      st.(skipped := st.skipped - {seqNum}, store := store')
  }

  /** Steps 2 and 3: the payload recovered from the slot that the key designates. */
  function OpenSlot(mac: Mac, key: Key, envelopes: seq<Envelope>, seqNum: u64, messageId: Bytes, nPaths: nat)
    : Result<Bytes, ChannelError>
  {
    match SelectSlot(mac, key, messageId, nPaths)
    case Err(_) => Err(DecoyFailure)
    case Ok(slotIdx) =>
      if slotIdx >= |envelopes| then Err(DecoyFailure)
      else match Opened(key, envelopes[slotIdx], Aad(seqNum, messageId))
           case Err(_) => Err(AuthenticationFailed)
           case Ok(payload) => Ok(payload)
  }

  /** The size checks and Steps 1 to 3, which only read the state. */
  function Authenticated(mac: Mac, st: ChannelState, envelopes: seq<Envelope>, seqNum: u64, messageId: Bytes)
    : (r: Result<Bytes, ChannelError>)
    ensures r.Ok? ==> TargetKey(st, seqNum, messageId).Ok?
  {
    if |messageId| > MAX_MESSAGE_ID_LEN then Err(InvalidMessageId)
    else if |envelopes| < st.nPaths then Err(DecoyFailure)
    else
      match TargetKey(st, seqNum, messageId)
      case Err(e) => Err(e)
      case Ok(key) => OpenSlot(mac, key, envelopes, seqNum, messageId, st.nPaths)
  }

  /** Steps 4 and 5 for a packet that authenticated to `payload`. */
  function Admit(st: ChannelState, seqNum: u64, messageId: Bytes, now: nat, payload: Bytes)
    : (out: (ChannelState, Result<Bytes, ChannelError>))
    ensures out.0.nPaths == st.nPaths && out.0.sendSeq == st.sendSeq
  {
    var (store', isNew) := CheckInsert(st.store, EntryKey(seqNum, messageId), now,
                                       ANTI_REPLAY_CAPACITY, ANTI_REPLAY_TIME_WINDOW);
    if !isNew then (st.(store := store'), Err(ReplayedSequence))
    else (Commit(st, seqNum, store'), Ok(payload))
  }

  function Receive(mac: Mac, st: ChannelState, envelopes: seq<Envelope>, seqNum: u64, messageId: Bytes, now: nat)
    : (out: (ChannelState, Result<Bytes, ChannelError>))
    ensures out.0.nPaths == st.nPaths && out.0.sendSeq == st.sendSeq
  {
    match Authenticated(mac, st, envelopes, seqNum, messageId)
    case Err(e) => (st, Err(e))
    case Ok(payload) => Admit(st, seqNum, messageId, now, payload)
  }

  // ------------------------------------------------------------------ derivation work

  /** How many `derive_next` steps one `receive` performs. */
  function DerivationWork(st: ChannelState, envelopes: seq<Envelope>, seqNum: u64, messageId: Bytes): nat {
    if |messageId| > MAX_MESSAGE_ID_LEN || |envelopes| < st.nPaths || TooFar(st, seqNum) || !Forward(st, seqNum)
    then 0
    else seqNum - Next(st) + 1
  }

  /** No packet costs more than the skip window, except a first packet numbered at its very end,
      which costs one derivation more. */
  lemma DerivationWorkIsBounded(st: ChannelState, envelopes: seq<Envelope>, seqNum: u64, messageId: Bytes)
    ensures DerivationWork(st, envelopes, seqNum, messageId) <= MAX_SKIP_WINDOW + 1
    ensures |messageId| <= MAX_MESSAGE_ID_LEN && |envelopes| >= st.nPaths ==>
              (DerivationWork(st, envelopes, seqNum, messageId) > MAX_SKIP_WINDOW
               <==> st.lastSeq == None && seqNum == MAX_SKIP_WINDOW)
    ensures st.lastSeq.Some? && DerivationWork(st, envelopes, seqNum, messageId) > 0 ==>
              DerivationWork(st, envelopes, seqNum, messageId) == seqNum - st.lastSeq.value
  {
  }

  /** The bound of 1,000 derivations that the documentation gives does not hold for a first packet
      numbered 1,000: it costs 1,001. */
  lemma FirstPacketCanExceedTheWindow(material: Bytes, nPaths: nat, envelopes: seq<Envelope>)
    requires |envelopes| >= nPaths
    ensures DerivationWork(NewState(material, nPaths), envelopes, 1000, []) == MAX_SKIP_WINDOW + 1
  {
  }

  // ------------------------------------------------------------------ properties of one call

  lemma AadInjective(n: u64, id: Bytes, n': u64, id': Bytes)
    ensures Aad(n, id) == Aad(n', id') <==> n == n' && id == id'
  {
    if Aad(n, id) == Aad(n', id') {
      SplitConcat(Ascii("decoypath-v1-msg-aad:") + ToBigEndian(n, 8), id,
                  Ascii("decoypath-v1-msg-aad:") + ToBigEndian(n', 8), id');
      SplitConcat(Ascii("decoypath-v1-msg-aad:"), ToBigEndian(n, 8),
                  Ascii("decoypath-v1-msg-aad:"), ToBigEndian(n', 8));
      Pow256Of8();
      DecodeEncode(n, 8);
      DecodeEncode(n', 8);
    }
  }

  /** The associated data byte by byte: the tag, the number in eight bytes, the message id. */
  lemma AadLayout(seqNum: u64, messageId: Bytes)
    ensures var aad := Aad(seqNum, messageId);
            && |aad| == 29 + |messageId|
            && aad[..21] == [100, 101, 99, 111, 121, 112, 97, 116, 104, 45, 118, 49, 45,
                             109, 115, 103, 45, 97, 97, 100, 58]
            && aad[21] as int * 0x100_0000_0000_0000 + aad[22] as int * 0x1_0000_0000_0000
               + aad[23] as int * 0x100_0000_0000 + aad[24] as int * 0x1_0000_0000
               + aad[25] as int * 0x100_0000 + aad[26] as int * 0x1_0000 + aad[27] as int * 0x100 + aad[28] == seqNum
            && aad[29..] == messageId
  {
    var aad := Aad(seqNum, messageId);
    assert aad[..21] == Ascii("decoypath-v1-msg-aad:");
    assert aad[21..29] == ToBigEndian(seqNum, 8);
    Pow256Of8();
    DecodeEncode(seqNum, 8);
    EightDigits(aad[21..29]);
  }

  /** The three failures of `send`, in the order in which it looks for them. */
  lemma SendRefusesExactly(mac: Mac, st: ChannelState, payload: Bytes, messageId: Bytes, rnd: SendRandom)
    requires CanSend(st)
    ensures var r := Send(mac, st, payload, messageId, rnd).1;
            && (r == Err(InvalidMessageId) <==> |messageId| > 256)
            && (r == Err(DecoyFailure) <==> |messageId| <= 256 && st.nPaths == 0)
            && (r == Err(AuthenticationFailed) <==> |messageId| <= 256 && st.nPaths > 0 && |payload| > 992)
            && (r.Ok? <==> |messageId| <= 256 && st.nPaths > 0 && |payload| <= 992)
  {
  }

  /** The refusals of `receive` before any key is derived, in order: a message id over 256 bytes, fewer
      envelopes than paths, a number more than 1,000 past the last accepted one or over 1,000 at the
      start.  None changes anything. */
  lemma ReceiveRefusesFirst(mac: Mac, st: ChannelState, envelopes: seq<Envelope>, seqNum: u64, messageId: Bytes, now: nat)
    ensures |messageId| > 256 ==>
              Receive(mac, st, envelopes, seqNum, messageId, now) == (st, Err(InvalidMessageId))
    ensures |messageId| <= 256 && |envelopes| < st.nPaths ==>
              Receive(mac, st, envelopes, seqNum, messageId, now) == (st, Err(DecoyFailure))
    ensures |messageId| <= 256 && |envelopes| >= st.nPaths
            && (match st.lastSeq case None => seqNum > 1000 case Some(last) => seqNum > last + 1000) ==>
              Receive(mac, st, envelopes, seqNum, messageId, now) == (st, Err(InvalidSequence))
  {
  }

  /** `send` is atomic: the code commits the ratchet before it builds the slots, yet the slots
      can no longer fail by then. */
  lemma SendIsAtomic(mac: Mac, st: ChannelState, payload: Bytes, messageId: Bytes, rnd: SendRandom)
    requires CanSend(st)
    ensures var (st', r) := Send(mac, st, payload, messageId, rnd);
            && (r.Err? ==> st' == st)
            && (r.Ok? <==> |messageId| <= MAX_MESSAGE_ID_LEN && st.nPaths > 0 && |payload| <= MAX_PAYLOAD_SIZE)
            && (r.Ok? ==> st' == st.(currentKey := DeriveNext(st.currentKey), sendSeq := Some(NextSend(st))))
  {
  }

  function RealBox(key: Key, seqNum: u64, payload: Bytes, messageId: Bytes, rnd: SendRandom): (box: Box)
    requires |payload| <= MAX_PAYLOAD_SIZE
    ensures WellSized(box)
  {
    SealBox(key, payload, Aad(seqNum, messageId), rnd.seal)
  }

  /** A successful `send` yields one envelope per path; the one in the slot that the receiver
      computes opens under the receiver's key to the payload, and no other opens under it. */
  lemma SlotAgreement(mac: Mac, st: ChannelState, payload: Bytes, messageId: Bytes, rnd: SendRandom, slot: nat)
    requires CanSend(st) && st.currentKey.seed.Root?
    requires Send(mac, st, payload, messageId, rnd).1.Ok?
    ensures var packet := Send(mac, st, payload, messageId, rnd).1.value;
            && |packet| == st.nPaths
            && (slot < |packet| ==>
                  Opened(st.currentKey, packet[slot], Aad(NextSend(st), messageId))
                  == if slot == SelectSlot(mac, st.currentKey, messageId, st.nPaths).value
                     then Ok(payload) else Err(DecryptionFailure))
            && OpenSlot(mac, st.currentKey, packet, NextSend(st), messageId, st.nPaths) == Ok(payload)
  {
    var aad := Aad(NextSend(st), messageId);
    var box := RealBox(st.currentKey, NextSend(st), payload, messageId, rnd);
    var validSlot := SelectSlot(mac, st.currentKey, messageId, st.nPaths).value;
    OnlyTheValidSlotOpens(box, validSlot, st.nPaths, aad, rnd.decoys, validSlot);
    if slot < st.nPaths {
      OnlyTheValidSlotOpens(box, validSlot, st.nPaths, aad, rnd.decoys, slot);
    }
    ParseOfFrame(payload, rnd.seal.padding);
  }

  /** The real envelope goes out under the drawn nonce; every other slot is a decoy of its own draws,
      under the same associated data. */
  lemma SentSlotsExactly(mac: Mac, st: ChannelState, payload: Bytes, messageId: Bytes, rnd: SendRandom, i: nat)
    requires CanSend(st) && Send(mac, st, payload, messageId, rnd).1.Ok? && i < st.nPaths
    ensures var packet := Send(mac, st, payload, messageId, rnd).1.value;
            && |packet| == st.nPaths
            && if i == SelectSlot(mac, st.currentKey, messageId, st.nPaths).value then
                 packet[i] == Sealed(st.currentKey, payload, Aad(NextSend(st), messageId), rnd.seal).value
                 && packet[i][..12] == Cells(rnd.seal.nonce)
               else
                 packet[i][..12] == Cells(rnd.decoys(i).seal.nonce)
                 && Opened(Key(Random(rnd.decoys(i).keyDraw), 0), packet[i], Aad(NextSend(st), messageId))
                    == Ok(rnd.decoys(i).payload)
  {
    var aad := Aad(NextSend(st), messageId);
    var validSlot := SelectSlot(mac, st.currentKey, messageId, st.nPaths).value;
    var plain := SealedExactly(st.currentKey, payload, aad, rnd.seal);
    SlotsExactly(Sealed(st.currentKey, payload, aad, rnd.seal).value, validSlot, st.nPaths, aad, rnd.decoys, i);
  }

  // ------------------------------------------------------------------ eviction

  lemma {:induction false} SizeOfRange(s: set<u64>, low: int, high: int)
    requires low <= high && forall x :: x in s ==> low <= x < high
    ensures |s| <= high - low
    decreases high - low
  {
    if low < high {
      var rest := set x | x in s && x != high - 1;
      SizeOfRange(rest, low, high - 1);
      if high - 1 in s {
        assert s == rest + {high - 1};
      } else {
        assert s == rest;
      }
    } else {
      assert s == {};
    }
  }

  /** `kept` is what remains of `m` when its oldest keys are dropped down to the limit: each kept
      key has its value, every dropped number lies below every kept one, and at least the limit's
      distance away from a bound on all of them. */
  ghost predicate KeepsNewest(m: map<u64, Key>, kept: map<u64, Key>, bound: nat) {
    && (if |m| <= MAX_SKIPPED_KEYS then kept == m else |kept| == MAX_SKIPPED_KEYS)
    && (forall s :: s in kept ==> s in m && kept[s] == m[s])
    && (forall e, k :: e in m && e !in kept && k in kept ==> e < k)
    && (forall e :: e in m && e !in kept ==> e + MAX_SKIPPED_KEYS + 1 <= bound)
  }

  lemma {:induction false} EvictionKeepsNewest(m: map<u64, Key>, bound: nat)
    requires forall s :: s in m ==> s < bound
    ensures KeepsNewest(m, EvictOldest(m), bound)
    decreases |m|
  {
    if |m| > MAX_SKIPPED_KEYS {
      var least := MinOf(m.Keys);
      EvictionKeepsNewest(PopFirst(m), bound);
      SizeOfRange(m.Keys, least, bound);
      assert |m.Keys| == |m|;
    }
  }

  /** The table is cut to exactly 1,000 keys when it has more. */
  lemma EvictionStopsAtLimit(m: map<u64, Key>)
    ensures |EvictOldest(m)| == if |m| > 1000 then 1000 else |m|
  {
    EvictionKeepsNewest(m, U64_LIMIT);
  }

  /** `m` splits into what is kept and what is dropped. */
  ghost predicate Splits(m: map<u64, Key>, kept: map<u64, Key>, dropped: map<u64, Key>, bound: nat) {
    && |kept.Keys| <= MAX_SKIPPED_KEYS
    && kept.Keys + dropped.Keys == m.Keys
    && kept.Keys !! dropped.Keys
    && (forall e, k :: e in dropped.Keys && k in kept.Keys ==> e < k)
    && (forall e :: e in dropped.Keys ==> e + MAX_SKIPPED_KEYS + 1 <= bound)
    && (forall s :: s in kept ==> s in m && kept[s] == m[s])
    && (forall s :: s in dropped ==> s in m && dropped[s] == m[s])
  }

  lemma SplitsByEviction(m: map<u64, Key>, kept: map<u64, Key>, bound: nat)
    requires KeepsNewest(m, kept, bound)
    ensures Splits(m, kept, Without(m, kept), bound)
  {
    var dropped := Without(m, kept);
    assert kept.Keys + dropped.Keys == m.Keys;
    assert |kept.Keys| == |kept|;
  }
}
