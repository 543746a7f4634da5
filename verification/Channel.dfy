/** The secure channel as the object that applications hold. */
module Channel {
  import opened AntiReplay
  import opened ByteCodec
  import opened ChannelModel
  import opened Decoys
  import opened EndpointTheorems
  import opened Endpoints
  import opened Envelopes
  import opened PathEngine
  import opened Symbols
  import opened Wrappers

  /** What Step 1 of `Receive` computes without touching the channel. */
  datatype Target = Target(key: Key, isForward: bool, localSkipped: map<u64, Key>, nextKey: Key)

  /** The target carries what committing `seqNum` will need. */
  ghost predicate TargetFor(target: Target, st: ChannelState, seqNum: u64) {
    && target.isForward == Forward(st, seqNum)
    && (target.isForward ==>
          target.localSkipped == Gap(st, seqNum) && target.nextKey == Advance(st.currentKey, seqNum - Next(st) + 1))
  }

  class SecureChannel {
    var lastSeq: Option<u64>
    var sendSeq: Option<u64>
    var currentKey: Key
    var skippedKeys: map<u64, Key>
    const antiReplay: AntiReplayStore
    const nPaths: nat
    const mac: Mac

    /** Every call that was made on this channel, in order. */
    ghost var history: seq<Event>
    ghost const material: Bytes

    ghost function View(): ChannelState
      reads `lastSeq, `sendSeq, `currentKey, `skippedKeys, antiReplay
    {
      ChannelState(lastSeq, sendSeq, currentKey, skippedKeys, antiReplay.queue, nPaths)
    }

    ghost predicate StoreReady()
      reads antiReplay
    {
      && antiReplay.Valid()
      && antiReplay.capacity == ANTI_REPLAY_CAPACITY
      && antiReplay.timeWindow == ANTI_REPLAY_TIME_WINDOW
    }

    /** The fields are what the calls made so far lead to, so whatever holds of every run
        holds of this object. */
    ghost predicate Valid()
      reads this, antiReplay
    {
      StoreReady() && View() == Reached(mac, material, nPaths, history).ch
    }

    constructor (material: Bytes, nPaths: nat, mac: Mac)
      ensures Valid() && fresh(antiReplay)
      ensures history == [] && this.material == material
      ensures this.mac == mac && this.nPaths == nPaths
    {
      var store := new AntiReplayStore();
      lastSeq := None;
      sendSeq := None;
      currentKey := NewRatchetKey(material);
      skippedKeys := map[];
      antiReplay := store;
      this.nPaths := nPaths;
      this.mac := mac;
      history := [];
      this.material := material;
    }

    function LastSeq(): Option<u64>
      reads this
    {
      lastSeq
    }

    /** A refused send changes nothing. */
    method Send(payload: Bytes, messageId: Bytes, rnd: SendRandom) returns (r: Result<Packet, ChannelError>)
      requires Valid() && CanSend(View())
      modifies this`currentKey, this`sendSeq, this`history
      ensures Valid()
      ensures history == old(history) + [SendEvent(payload, messageId, rnd)]
      ensures (View(), r) == old(ChannelModel.Send(mac, View(), payload, messageId, rnd))
      ensures r.Err? ==> View() == old(View())
    {
      SendIsAtomic(mac, View(), payload, messageId, rnd);
      SendExtends(mac, material, nPaths, history, payload, messageId, rnd, View());
      r := SealAndAdvance(payload, messageId, rnd);
      history := history + [SendEvent(payload, messageId, rnd)];
    }

    method SealAndAdvance(payload: Bytes, messageId: Bytes, rnd: SendRandom)
      returns (r: Result<Packet, ChannelError>)
      requires CanSend(View())
      modifies this`currentKey, this`sendSeq
      ensures (View(), r) == old(ChannelModel.Send(mac, View(), payload, messageId, rnd))
    {
      if |messageId| > MAX_MESSAGE_ID_LEN {
        return Err(InvalidMessageId);
      }
      var seqNum: u64 := match sendSeq case None => 0 case Some(s) => s + 1;
      var slot := SelectSlot(mac, currentKey, messageId, nPaths);
      if slot.Err? {
        return Err(ChannelError.DecoyFailure);
      }
      var aad := Aad(seqNum, messageId);
      var sealed := Seal(currentKey, payload, aad, rnd.seal);
      if sealed.Err? {
        return Err(AuthenticationFailed);
      }
      currentKey := DeriveNext(currentKey);
      sendSeq := Some(seqNum);
      var slots := GenerateMultiPathSlots(sealed.value, slot.value, nPaths, aad, rnd.decoys);
      match slots
      case Ok(packet) => r := Ok(packet);
      case Err(_) => r := Err(ChannelError.DecoyFailure);
    }

    /** A rejected packet leaves the channel as it was, anti-replay queue and map included.
        `work` counts the ratchet derivations. */
    method Receive(envelopes: seq<Envelope>, seqNum: u64, messageId: Bytes, now: nat)
      returns (r: Result<Bytes, ChannelError>, ghost work: nat)
      requires Valid()
      modifies this`lastSeq, this`currentKey, this`skippedKeys, this`history, antiReplay
      ensures Valid()
      ensures history == old(history) + [ReceiveEvent(envelopes, seqNum, messageId, now)]
      ensures (View(), r) == old(ChannelModel.Receive(mac, View(), envelopes, seqNum, messageId, now))
      ensures r.Err? ==> View() == old(View()) && antiReplay.entries == old(antiReplay.entries)
      ensures work == old(DerivationWork(View(), envelopes, seqNum, messageId))
    {
      ghost var st := View();
      ZeroMutation(mac, material, nPaths, history, envelopes, seqNum, messageId, now);
      r, work := RunPipeline(envelopes, seqNum, messageId, now);
      LogReceive(st, envelopes, seqNum, messageId, now);
      if r.Err? {
        AgreeingMapIsUnique(antiReplay.entries, old(antiReplay.entries), antiReplay.queue);
      }
    }

    ghost method LogReceive(st: ChannelState, envelopes: seq<Envelope>, seqNum: u64, messageId: Bytes, now: nat)
      requires st == Reached(mac, material, nPaths, history).ch
      requires View() == ChannelModel.Receive(mac, st, envelopes, seqNum, messageId, now).0
      modifies this`history
      ensures history == old(history) + [ReceiveEvent(envelopes, seqNum, messageId, now)]
      ensures View() == Reached(mac, material, nPaths, history).ch
    {
      var extended := history + [ReceiveEvent(envelopes, seqNum, messageId, now)];
      ReceiveExtends(mac, material, nPaths, history, envelopes, seqNum, messageId, now, st);
      assert Reached(mac, material, nPaths, extended).ch == View();
      history := extended;
    }

    /** The five steps of the transactional pipeline. */
    method RunPipeline(envelopes: seq<Envelope>, seqNum: u64, messageId: Bytes, now: nat)
      returns (r: Result<Bytes, ChannelError>, ghost work: nat)
      requires StoreReady()
      modifies this`lastSeq, this`currentKey, this`skippedKeys, antiReplay
      ensures StoreReady()
      ensures (View(), r) == old(ChannelModel.Receive(mac, View(), envelopes, seqNum, messageId, now))
      ensures work == old(DerivationWork(View(), envelopes, seqNum, messageId))
    {
      var target;
      r, target, work := Authenticate(envelopes, seqNum, messageId);
      if r.Ok? {
        r := AdmitAuthenticated(target.value, seqNum, messageId, now, r.value);
      }
    }

    /** The size checks and Steps 1 to 3. */
    method Authenticate(envelopes: seq<Envelope>, seqNum: u64, messageId: Bytes)
      returns (r: Result<Bytes, ChannelError>, target: Option<Target>, ghost work: nat)
      requires StoreReady()
      ensures r == Authenticated(mac, View(), envelopes, seqNum, messageId)
      ensures r.Ok? ==> target.Some? && TargetFor(target.value, View(), seqNum)
      ensures work == DerivationWork(View(), envelopes, seqNum, messageId)
    {
      target := None;
      if |messageId| > MAX_MESSAGE_ID_LEN {
        return Err(InvalidMessageId), None, 0;
      }
      if |envelopes| < nPaths {
        return Err(ChannelError.DecoyFailure), None, 0;
      }
      var computed;
      computed, work := ComputeTarget(seqNum, messageId);
      match computed
      case Err(e) =>
        r := Err(e);
      case Ok(t) =>
        target := Some(t);
        r := OpenDesignated(t.key, envelopes, seqNum, messageId);
    }

    /** Steps 4 and 5. */
    method AdmitAuthenticated(target: Target, seqNum: u64, messageId: Bytes, now: nat, payload: Bytes)
      returns (r: Result<Bytes, ChannelError>)
      requires StoreReady() && TargetFor(target, View(), seqNum)
      modifies this`lastSeq, this`currentKey, this`skippedKeys, antiReplay
      ensures StoreReady()
      ensures (View(), r) == old(Admit(View(), seqNum, messageId, now, payload))
    {
      ghost var st := View();
      var isNew := antiReplay.CheckAndInsert(seqNum, messageId, now);
      assert View() == st.(store := antiReplay.queue);
      if isNew {
        CommitAccepted(target, seqNum);
        r := Ok(payload);
      } else {
        r := Err(ReplayedSequence);
      }
    }

    /** Step 5. */
    method CommitAccepted(target: Target, seqNum: u64)
      requires TargetFor(target, View(), seqNum)
      modifies this`lastSeq, this`currentKey, this`skippedKeys
      ensures View() == Commit(old(View()), seqNum, antiReplay.queue)
    {
      if target.isForward {
        CommitForward(target.localSkipped, seqNum, target.nextKey);
      } else {
        skippedKeys := skippedKeys - {seqNum};
      }
    }

    /** Step 1: read-only, also for late arrivals. */
    method ComputeTarget(seqNum: u64, messageId: Bytes) returns (r: Result<Target, ChannelError>, ghost work: nat)
      requires StoreReady()
      ensures match r
              case Err(e) => TargetKey(View(), seqNum, messageId) == Err(e)
              case Ok(t) => TargetKey(View(), seqNum, messageId) == Ok(t.key) && TargetFor(t, View(), seqNum)
      ensures work == if r.Ok? && Forward(View(), seqNum) then seqNum - Next(View()) + 1 else 0
    {
      work := 0;
      match lastSeq
      case None =>
        if seqNum == 0 {
          var targetKey := DuplicateForTargetUse(currentKey);
          r := Ok(Target(targetKey, true, map[], DeriveNext(currentKey)));
          work := 1;
        } else {
          if seqNum > MAX_SKIP_WINDOW {
            return Err(InvalidSequence), 0;
          }
          var localSkipped, runner;
          localSkipped, runner, work := PassOver(0, seqNum);
          r := Ok(Target(DuplicateForTargetUse(runner), true, localSkipped, DeriveNext(runner)));
          work := work + 1;
        }
      case Some(last) =>
        if seqNum > last {
          var skipCount := seqNum - last;
          if skipCount > MAX_SKIP_WINDOW {
            return Err(InvalidSequence), 0;
          }
          var localSkipped, runner;
          localSkipped, runner, work := PassOver(last + 1, seqNum);
          r := Ok(Target(DuplicateForTargetUse(runner), true, localSkipped, DeriveNext(runner)));
          work := work + 1;
        } else if seqNum in skippedKeys {
          var targetKey := DuplicateForTargetUse(skippedKeys[seqNum]);
          r := Ok(Target(targetKey, false, map[], targetKey));
        } else if antiReplay.Contains(seqNum, messageId) {
          r := Err(ReplayedSequence);
        } else {
          r := Err(SkippedKeyExpired);
        }
    }

    /** The ratchet loop from the current key, which belongs to `first`, up to `seqNum`. */
    method PassOver(first: u64, seqNum: u64) returns (localSkipped: map<u64, Key>, runner: Key, ghost work: nat)
      requires first <= seqNum && first == Next(View())
      ensures localSkipped == Gap(View(), seqNum)
      ensures runner == Advance(currentKey, seqNum - first)
      ensures work == seqNum - first
    {
      localSkipped := map[];
      runner := DuplicateForTargetUse(currentKey);
      work := 0;
      for s := first to seqNum
        invariant forall k: u64 :: k in localSkipped <==> first <= k < s
        invariant forall k :: k in localSkipped ==>
                    localSkipped[k] == Key(currentKey.seed, currentKey.pos + (k - first))
        invariant runner == Key(currentKey.seed, currentKey.pos + (s - first))
        invariant work == s - first
      {
        localSkipped := localSkipped[s := DuplicateForTargetUse(runner)];
        runner := DeriveNext(runner);
        work := work + 1;
      }
      assert localSkipped == Gap(View(), seqNum);
    }

    /** Steps 2 and 3. */
    method OpenDesignated(key: Key, envelopes: seq<Envelope>, seqNum: u64, messageId: Bytes)
      returns (r: Result<Bytes, ChannelError>)
      ensures r == OpenSlot(mac, key, envelopes, seqNum, messageId, nPaths)
    {
      var slot := SelectSlot(mac, key, messageId, nPaths);
      if slot.Err? {
        return Err(ChannelError.DecoyFailure);
      }
      var slotIdx := slot.value;
      if slotIdx >= |envelopes| {
        return Err(ChannelError.DecoyFailure);
      }
      var aad := Aad(seqNum, messageId);
      var outcome := Open(key, envelopes[slotIdx], aad);
      match outcome
      case Ok(payload) => r := Ok(payload);
      case Err(_) => r := Err(AuthenticationFailed);
    }

    /** The table, the last number and the key after an arrival ahead of the last one. */
    method CommitForward(localSkipped: map<u64, Key>, seqNum: u64, nextKey: Key)
      modifies this`skippedKeys, this`lastSeq, this`currentKey
      ensures skippedKeys == EvictOldest(old(skippedKeys) + localSkipped)
      ensures lastSeq == Some(seqNum) && currentKey == nextKey
    {
      InsertAll(localSkipped);
      EvictOldestSkippedKeys();
      lastSeq := Some(seqNum);
      currentKey := nextKey;
    }

    method InsertAll(localSkipped: map<u64, Key>)
      modifies this`skippedKeys
      ensures skippedKeys == old(skippedKeys) + localSkipped
    {
      var rest := localSkipped;
      ghost var merged := skippedKeys + localSkipped;
      while rest != map[]
        invariant skippedKeys + rest == merged
        decreases rest.Keys
      {
        var s := MinOf(rest.Keys);
        MoveEntry(skippedKeys, rest, s);
        skippedKeys := skippedKeys[s := rest[s]];
        rest := rest - {s};
      }
    }

    method EvictOldestSkippedKeys()
      modifies this`skippedKeys
      ensures skippedKeys == EvictOldest(old(skippedKeys))
    {
      while |skippedKeys| > MAX_SKIPPED_KEYS
        invariant EvictOldest(skippedKeys) == EvictOldest(old(skippedKeys))
        decreases |skippedKeys|
      {
        skippedKeys := PopFirst(skippedKeys);
      }
    }
  }

  /** Moving an entry of one table into another leaves their union as it was. */
  lemma MoveEntry(m: map<u64, Key>, rest: map<u64, Key>, s: u64)
    requires s in rest
    ensures m[s := rest[s]] + (rest - {s}) == m + rest
  {
  }
}
