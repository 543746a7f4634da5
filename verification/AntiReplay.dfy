/**
 The anti-replay store: a map for membership and a queue for age, kept in step.

 The value of a store is its queue.  Time is a number of nanoseconds, passed by the
 caller where the code reads the monotonic clock.
 */
module AntiReplay {
  import opened ByteCodec

  const ANTI_REPLAY_CAPACITY: nat := 10_000
  const ANTI_REPLAY_TIME_WINDOW: nat := 300 * 1_000_000_000

  datatype EntryKey = EntryKey(seqNum: u64, messageId: Bytes)

  datatype Entry = Entry(key: EntryKey, at: nat)

  // ------------------------------------------------------------------ specification

  /** `duration_since`, which saturates at zero. */
  function Age(now: nat, at: nat): nat {
    if now >= at then now - at else 0
  }

  /** Head-only pruning: drops entries from the front until one is young enough. */
  function DropExpired(queue: seq<Entry>, now: nat, window: nat): (q: seq<Entry>)
    ensures |q| <= |queue| && q == queue[|queue| - |q|..]
  {
    if queue != [] && Age(now, queue[0].at) > window then DropExpired(queue[1..], now, window) else queue
  }

  predicate HasKey(queue: seq<Entry>, key: EntryKey) {
    exists e :: e in queue && e.key == key
  }

  /** Makes room for one more entry. */
  function Trim(queue: seq<Entry>, capacity: nat): seq<Entry> {
    if |queue| >= capacity && queue != [] then queue[1..] else queue
  }

  /** The queue after offering `key` at time `now`, and whether the key was new. */
  function CheckInsert(queue: seq<Entry>, key: EntryKey, now: nat, capacity: nat, window: nat): (seq<Entry>, bool) {
    var live := DropExpired(queue, now, window);
    if HasKey(live, key) then (live, false)
    else (Trim(live, capacity) + [Entry(key, now)], true)
  }

  ghost predicate Distinct(queue: seq<Entry>) {
    forall i, j :: 0 <= i < j < |queue| ==> queue[i].key != queue[j].key
  }

  ghost predicate Sorted(queue: seq<Entry>) {
    forall i, j :: 0 <= i < j < |queue| ==> queue[i].at <= queue[j].at
  }

  /** The map and the queue hold the same keys with the same times. */
  ghost predicate Agrees(entries: map<EntryKey, nat>, queue: seq<Entry>) {
    && Distinct(queue)
    && (forall key :: key in entries <==> HasKey(queue, key))
    && (forall e :: e in queue ==> e.key in entries && entries[e.key] == e.at)
  }

  // ------------------------------------------------------------------ the store

  class AntiReplayStore {
    var entries: map<EntryKey, nat>
    var queue: seq<Entry>
    const capacity: nat
    const timeWindow: nat

    ghost predicate Valid()
      reads this
    {
      Agrees(entries, queue)
    }

    constructor ()
      ensures Valid() && queue == [] && entries == map[]
      ensures capacity == ANTI_REPLAY_CAPACITY && timeWindow == ANTI_REPLAY_TIME_WINDOW
    {
      entries := map[];
      queue := [];
      capacity := ANTI_REPLAY_CAPACITY;
      timeWindow := ANTI_REPLAY_TIME_WINDOW;
    }

    constructor WithCapacityAndWindow(capacity: nat, windowSecs: nat)
      ensures Valid() && queue == [] && entries == map[]
      ensures this.capacity == capacity && timeWindow == windowSecs * 1_000_000_000
    {
      entries := map[];
      queue := [];
      this.capacity := capacity;
      timeWindow := windowSecs * 1_000_000_000;
    }

    predicate Contains(seqNum: u64, messageId: Bytes)
      requires Valid()
      reads this
      ensures Contains(seqNum, messageId) <==> HasKey(queue, EntryKey(seqNum, messageId))
    {
      EntryKey(seqNum, messageId) in entries
    }

    /** Returns whether the key was new, in which case it is now recorded. */
    method CheckAndInsert(seqNum: u64, messageId: Bytes, now: nat) returns (isNew: bool)
      requires Valid()
      modifies this
      ensures Valid()
      ensures (queue, isNew) == CheckInsert(old(queue), EntryKey(seqNum, messageId), now, capacity, timeWindow)
    {
      Prune(now);
      ghost var live := queue;
      var key := EntryKey(seqNum, messageId);
      if key in entries {
        return false;
      }
      assert !HasKey(live, key);
      SizesAgree(entries, queue);
      if |entries| >= capacity {
        EvictOldest();
      }
      assert queue == Trim(live, capacity);
      TrimAddsNoKey(live, capacity, key);
      Record(key, now);
      isNew := true;
    }

    method Record(key: EntryKey, now: nat)
      requires Valid() && !HasKey(queue, key)
      modifies this
      ensures Valid()
      ensures queue == old(queue) + [Entry(key, now)]
    {
      AgreesAfterPush(entries, queue, key, now);
      entries := entries[key := now];
      queue := queue + [Entry(key, now)];
    }

    method Prune(now: nat)
      requires Valid()
      modifies this
      ensures Valid()
      ensures queue == DropExpired(old(queue), now, timeWindow)
    {
      while queue != []
        invariant Valid()
        invariant DropExpired(queue, now, timeWindow) == DropExpired(old(queue), now, timeWindow)
        decreases |queue|
      {
        var front := queue[0];
        if Age(now, front.at) > timeWindow {
          AgreesAfterPop(entries, queue);
          queue := queue[1..];
          entries := entries - {front.key};
        } else {
          break;
        }
      }
    }

    /** Drops exactly the oldest entry, if there is one: the loop never goes round twice. */
    method EvictOldest()
      requires Valid()
      modifies this
      ensures Valid()
      ensures queue == if old(queue) == [] then [] else old(queue)[1..]
    {
      var removed := false;
      while queue != [] && !removed
        invariant !removed ==> queue == old(queue) && entries == old(entries)
        invariant removed ==> Valid() && old(queue) != [] && queue == old(queue)[1..]
        decreases |queue|
      {
        AgreesAfterPop(entries, queue);
        var oldest := queue[0];
        queue := queue[1..];
        if oldest.key in entries {
          entries := entries - {oldest.key};
          removed := true;
        }
      }
    }

    method Len() returns (n: nat)
      requires Valid()
      ensures n == |queue|
    {
      SizesAgree(entries, queue);
      n := |entries|;
    }

    method IsEmpty() returns (empty: bool)
      requires Valid()
      ensures empty <==> queue == []
    {
      SizesAgree(entries, queue);
      empty := |entries| == 0;
    }
  }

  // ------------------------------------------------------------------ the map and the queue

  lemma AgreesAfterPop(entries: map<EntryKey, nat>, queue: seq<Entry>)
    requires Agrees(entries, queue) && queue != []
    ensures Agrees(entries - {queue[0].key}, queue[1..])
  {
    var rest := queue[1..];
    var entries' := entries - {queue[0].key};
    forall key
      ensures key in entries' <==> HasKey(rest, key)
    {
      if key in entries' {
        var e :| e in queue && e.key == key;
        assert e in rest;
      }
      if HasKey(rest, key) {
        var e :| e in rest && e.key == key;
        assert e in queue;
      }
    }
  }

  lemma AgreesAfterPush(entries: map<EntryKey, nat>, queue: seq<Entry>, key: EntryKey, now: nat)
    requires Agrees(entries, queue) && !HasKey(queue, key)
    ensures Agrees(entries[key := now], queue + [Entry(key, now)])
  {
    var queue' := queue + [Entry(key, now)];
    forall k
      ensures k in entries[key := now] <==> HasKey(queue', k)
    {
      if k == key {
        assert Entry(key, now) in queue';
      } else if k in entries {
        var e :| e in queue && e.key == k;
        assert e in queue';
      }
    }
  }

  /** A queue determines the map that agrees with it. */
  lemma AgreeingMapIsUnique(a: map<EntryKey, nat>, b: map<EntryKey, nat>, queue: seq<Entry>)
    requires Agrees(a, queue) && Agrees(b, queue)
    ensures a == b
  {
    forall key
      ensures key in a <==> key in b
      ensures key in a ==> a[key] == b[key]
    {
      if HasKey(queue, key) {
        var e :| e in queue && e.key == key;
      }
    }
  }

  lemma TrimAddsNoKey(queue: seq<Entry>, capacity: nat, key: EntryKey)
    requires !HasKey(queue, key)
    ensures !HasKey(Trim(queue, capacity), key)
  {
    forall e | e in Trim(queue, capacity) ensures e in queue {
    }
  }

  lemma {:induction false} SizesAgree(entries: map<EntryKey, nat>, queue: seq<Entry>)
    requires Agrees(entries, queue)
    ensures |entries| == |queue|
    decreases |queue|
  {
    if queue == [] {
      assert entries == map[] by {
        forall key ensures key !in entries { assert !HasKey(queue, key); }
      }
    } else {
      AgreesAfterPop(entries, queue);
      SizesAgree(entries - {queue[0].key}, queue[1..]);
      assert (entries - {queue[0].key}).Keys == entries.Keys - {queue[0].key};
      assert |entries.Keys - {queue[0].key}| == |entries.Keys| - 1;
      assert |(entries - {queue[0].key}).Keys| == |entries - {queue[0].key}|;
      assert |entries.Keys| == |entries|;
    }
  }

  // ------------------------------------------------------------------ pruning is filtering

  function FilterLive(queue: seq<Entry>, now: nat, window: nat): seq<Entry> {
    if queue == [] then []
    else (if Age(now, queue[0].at) > window then [] else [queue[0]]) + FilterLive(queue[1..], now, window)
  }

  predicate AllLive(queue: seq<Entry>, now: nat, window: nat) {
    forall i :: 0 <= i < |queue| ==> Age(now, queue[i].at) <= window
  }

  lemma YoungHeadMeansAllLive(queue: seq<Entry>, now: nat, window: nat)
    requires Sorted(queue) && queue != [] && Age(now, queue[0].at) <= window
    ensures AllLive(queue, now, window)
  {
  }

  lemma TailIsSorted(queue: seq<Entry>)
    requires Sorted(queue) && queue != []
    ensures Sorted(queue[1..])
  {
  }

  lemma {:induction false} PrunedIsLive(queue: seq<Entry>, now: nat, window: nat)
    requires Sorted(queue)
    ensures AllLive(DropExpired(queue, now, window), now, window)
  {
    if queue != [] {
      if Age(now, queue[0].at) > window {
        TailIsSorted(queue);
        PrunedIsLive(queue[1..], now, window);
      } else {
        YoungHeadMeansAllLive(queue, now, window);
      }
    }
  }

  lemma {:induction false} PruningIsFiltering(queue: seq<Entry>, now: nat, window: nat)
    requires Sorted(queue)
    ensures DropExpired(queue, now, window) == FilterLive(queue, now, window)
  {
    if queue != [] {
      if Age(now, queue[0].at) > window {
        TailIsSorted(queue);
        PruningIsFiltering(queue[1..], now, window);
      } else {
        YoungHeadMeansAllLive(queue, now, window);
        FilterKeepsLive(queue, now, window);
      }
    }
  }

  /** On a queue in time order, looking only at the head drops all and only the expired entries. */
  lemma HeadPruningIsFiltering(queue: seq<Entry>, now: nat, window: nat)
    requires Sorted(queue)
    ensures DropExpired(queue, now, window) == FilterLive(queue, now, window)
    ensures AllLive(DropExpired(queue, now, window), now, window)
  {
    PruningIsFiltering(queue, now, window);
    PrunedIsLive(queue, now, window);
  }

  lemma PruningDropsHead(queue: seq<Entry>, now: nat, window: nat)
    requires queue != []
    ensures if queue[0].at + window < now then DropExpired(queue, now, window) == DropExpired(queue[1..], now, window)
            else DropExpired(queue, now, window) == queue
  {
  }

  lemma {:induction false} PrunedIsOld(queue: seq<Entry>, now: nat, window: nat, j: nat)
    requires j < |queue| - |DropExpired(queue, now, window)|
    ensures queue[j].at + window < now
  {
    PruningDropsHead(queue, now, window);
    if j > 0 {
      var rest := queue[1..];
      PrunedIsOld(rest, now, window, j - 1);
      assert rest[j - 1] == queue[j];
    }
  }

  lemma {:induction false} HeadIsYoung(queue: seq<Entry>, now: nat, window: nat)
    requires DropExpired(queue, now, window) != []
    ensures now <= DropExpired(queue, now, window)[0].at + window
  {
    if Age(now, queue[0].at) > window {
      HeadIsYoung(queue[1..], now, window);
    }
  }

  /** Where pruning stops: after the entries that are more than the window old, at the first that is
      not.  An entry stamped later than now is not old. */
  lemma PrunesUpToFirstYoung(queue: seq<Entry>, now: nat, window: nat) returns (k: nat)
    ensures k <= |queue| && DropExpired(queue, now, window) == queue[k..]
    ensures forall j :: 0 <= j < k ==> queue[j].at + window < now
    ensures k < |queue| ==> now <= queue[k].at + window
  {
    k := |queue| - |DropExpired(queue, now, window)|;
    forall j | 0 <= j < k ensures queue[j].at + window < now {
      PrunedIsOld(queue, now, window, j);
    }
    if k < |queue| {
      HeadIsYoung(queue, now, window);
    }
  }

  /** `check_and_insert` in full: after the `k` expired entries, a key that is still there is refused;
      a new one goes to the end, in place of the oldest entry if the store is full. */
  lemma CheckInsertExactly(queue: seq<Entry>, key: EntryKey, now: nat, capacity: nat, window: nat) returns (k: nat)
    ensures k <= |queue|
    ensures forall j :: 0 <= j < k ==> queue[j].at + window < now
    ensures k < |queue| ==> now <= queue[k].at + window
    ensures CheckInsert(queue, key, now, capacity, window)
         == if exists j :: k <= j < |queue| && queue[j].key == key then (queue[k..], false)
            else if |queue| - k >= capacity && k < |queue| then (queue[k + 1..] + [Entry(key, now)], true)
            else (queue[k..] + [Entry(key, now)], true)
  {
    k := PrunesUpToFirstYoung(queue, now, window);
    var live := queue[k..];
    HasKeyByIndex(queue, k, key);
    if k < |queue| {
      assert live[1..] == queue[k + 1..];
    }
  }

  lemma HasKeyByIndex(queue: seq<Entry>, k: nat, key: EntryKey)
    requires k <= |queue|
    ensures HasKey(queue[k..], key) <==> exists j :: k <= j < |queue| && queue[j].key == key
  {
    if HasKey(queue[k..], key) {
      var e :| e in queue[k..] && e.key == key;
      var j :| 0 <= j < |queue[k..]| && queue[k..][j] == e;
      assert queue[k + j].key == key;
    }
    forall j | k <= j < |queue| && queue[j].key == key ensures HasKey(queue[k..], key) {
      assert queue[k..][j - k] in queue[k..];
    }
  }

  lemma {:induction false} FilterKeepsLive(queue: seq<Entry>, now: nat, window: nat)
    requires AllLive(queue, now, window)
    ensures FilterLive(queue, now, window) == queue
  {
    if queue != [] {
      FilterKeepsLive(queue[1..], now, window);
    }
  }

  // ------------------------------------------------------------------ the queue over all histories

  predicate Fits(entries: seq<Entry>, now: nat, capacity: nat, window: nat) {
    |entries| <= capacity && AllLive(entries, now, window)
  }

  /** The longest suffix of `history` with at most `capacity` entries, all within the window at `now`. */
  function LiveSuffix(history: seq<Entry>, now: nat, capacity: nat, window: nat): (s: seq<Entry>)
    ensures |s| <= |history|
  {
    if Fits(history, now, capacity, window) then history
    else LiveSuffix(history[1..], now, capacity, window)
  }

  lemma {:induction false} LiveSuffixIsSuffix(history: seq<Entry>, now: nat, capacity: nat, window: nat)
    ensures var s := LiveSuffix(history, now, capacity, window);
            s == history[|history| - |s|..] && Fits(s, now, capacity, window)
  {
    if !Fits(history, now, capacity, window) {
      LiveSuffixIsSuffix(history[1..], now, capacity, window);
    }
  }

  /** No suffix that fits is longer than the live one, which is itself a suffix that fits. */
  lemma {:induction false} LiveSuffixIsLongest(history: seq<Entry>, now: nat, capacity: nat, window: nat, from: nat)
    requires from <= |history|
    requires Fits(history[from..], now, capacity, window)
    ensures |history| - from <= |LiveSuffix(history, now, capacity, window)|
  {
    if !Fits(history, now, capacity, window) {
      assert history[0..] == history;
      assert history[1..][from - 1..] == history[from..];
      LiveSuffixIsLongest(history[1..], now, capacity, window, from - 1);
    }
  }

  /** Which entries of a history in time order the suffix retains. */
  lemma RetainedExactly(history: seq<Entry>, now: nat, capacity: nat, window: nat, i: nat)
    requires Sorted(history) && i < |history| && history[|history| - 1].at <= now
    ensures i >= |history| - |LiveSuffix(history, now, capacity, window)|
       <==> |history| - i <= capacity && now - history[i].at <= window
  {
    if |history| - i <= capacity && now - history[i].at <= window {
      SuffixFits(history, now, capacity, window, i);
      LiveSuffixIsLongest(history, now, capacity, window, i);
    } else if i >= |history| - |LiveSuffix(history, now, capacity, window)| {
      RetainedIsLive(history, now, capacity, window, i);
    }
  }

  lemma SuffixFits(history: seq<Entry>, now: nat, capacity: nat, window: nat, i: nat)
    requires Sorted(history) && i < |history|
    requires |history| - i <= capacity && Age(now, history[i].at) <= window
    ensures Fits(history[i..], now, capacity, window)
  {
  }

  lemma RetainedIsLive(history: seq<Entry>, now: nat, capacity: nat, window: nat, i: nat)
    requires |history| - |LiveSuffix(history, now, capacity, window)| <= i < |history|
    ensures |history| - i <= capacity && Age(now, history[i].at) <= window
  {
    var kept := LiveSuffix(history, now, capacity, window);
    LiveSuffixIsSuffix(history, now, capacity, window);
    assert kept[i - (|history| - |kept|)] == history[i];
  }

  lemma FitsEarlier(entries: seq<Entry>, before: nat, now: nat, capacity: nat, window: nat)
    requires before <= now
    ensures Fits(entries, now, capacity, window) ==> Fits(entries, before, capacity, window)
  {
    if AllLive(entries, now, window) {
      forall i | 0 <= i < |entries| ensures Age(before, entries[i].at) <= window {
        assert Age(now, entries[i].at) <= window;
      }
    }
  }

  lemma {:induction false} LaterSuffix(history: seq<Entry>, before: nat, now: nat, capacity: nat, window: nat)
    requires before <= now
    ensures LiveSuffix(LiveSuffix(history, before, capacity, window), now, capacity, window)
         == LiveSuffix(history, now, capacity, window)
  {
    if !Fits(history, before, capacity, window) {
      FitsEarlier(history, before, now, capacity, window);
      LaterSuffix(history[1..], before, now, capacity, window);
    }
  }

  lemma {:induction false} PruningIsLiveSuffix(queue: seq<Entry>, now: nat, capacity: nat, window: nat)
    requires Sorted(queue) && |queue| <= capacity
    ensures DropExpired(queue, now, window) == LiveSuffix(queue, now, capacity, window)
  {
    if queue != [] {
      if Age(now, queue[0].at) > window {
        PruningIsLiveSuffix(queue[1..], now, capacity, window);
      } else {
        assert AllLive(queue, now, window);
      }
    }
  }

  lemma {:induction false} PushIsLiveSuffix(history: seq<Entry>, key: EntryKey, now: nat, capacity: nat, window: nat)
    requires capacity >= 1
    ensures LiveSuffix(history + [Entry(key, now)], now, capacity, window)
         == Trim(LiveSuffix(history, now, capacity, window), capacity) + [Entry(key, now)]
  {
    var e := Entry(key, now);
    var h := history + [e];
    if Fits(history, now, capacity, window) {
      if |history| == capacity {
        assert h[1..] == history[1..] + [e];
        assert Fits(h[1..], now, capacity, window);
      } else {
        assert Fits(h, now, capacity, window);
      }
    } else {
      assert h[1..] == history[1..] + [e];
      assert forall i :: 0 <= i < |history| ==> h[i] == history[i];
      assert !Fits(h, now, capacity, window);
      PushIsLiveSuffix(history[1..], key, now, capacity, window);
    }
  }

  /** One call keeps the queue equal to the live suffix of what was ever inserted, and answers by it. */
  lemma CheckInsertKeepsLiveSuffix(history: seq<Entry>, before: nat, key: EntryKey, now: nat,
                                   capacity: nat, window: nat)
    requires Sorted(history) && before <= now && capacity >= 1
    ensures var queue := LiveSuffix(history, before, capacity, window);
            var (queue', isNew) := CheckInsert(queue, key, now, capacity, window);
            && (isNew <==> !HasKey(LiveSuffix(history, now, capacity, window), key))
            && queue' == LiveSuffix(if isNew then history + [Entry(key, now)] else history, now, capacity, window)
  {
    var queue := LiveSuffix(history, before, capacity, window);
    LiveSuffixIsSuffix(history, before, capacity, window);
    PruningIsLiveSuffix(queue, now, capacity, window);
    LaterSuffix(history, before, now, capacity, window);
    PushIsLiveSuffix(history, key, now, capacity, window);
  }

  datatype Call = Call(key: EntryKey, now: nat)

  /** The store after some calls, with every entry it ever recorded. */
  datatype StoreTrace = StoreTrace(queue: seq<Entry>, history: seq<Entry>)

  function RunCalls(calls: seq<Call>, capacity: nat, window: nat): StoreTrace {
    if calls == [] then StoreTrace([], [])
    else AfterCall(RunCalls(calls[..|calls| - 1], capacity, window), calls[|calls| - 1], capacity, window)
  }

  ghost predicate ClockNeverGoesBack(calls: seq<Call>) {
    forall i, j :: 0 <= i < j < |calls| ==> calls[i].now <= calls[j].now
  }

  /** A store of capacity zero still holds one entry. */
  function EffectiveCapacity(capacity: nat): nat {
    if capacity == 0 then 1 else capacity
  }

  lemma CapacityZeroActsAsOne(queue: seq<Entry>, key: EntryKey, now: nat, capacity: nat, window: nat)
    ensures CheckInsert(queue, key, now, capacity, window)
         == CheckInsert(queue, key, now, EffectiveCapacity(capacity), window)
  {
  }

  function LastTime(calls: seq<Call>): nat {
    if calls == [] then 0 else calls[|calls| - 1].now
  }

  ghost predicate TraceOk(t: StoreTrace, at: nat, capacity: nat, window: nat) {
    && Sorted(t.history)
    && (t.history != [] ==> t.history[|t.history| - 1].at <= at)
    && t.queue == LiveSuffix(t.history, at, capacity, window)
  }

  function AfterCall(t: StoreTrace, call: Call, capacity: nat, window: nat): StoreTrace {
    var (queue', isNew) := CheckInsert(t.queue, call.key, call.now, capacity, window);
    StoreTrace(queue', if isNew then t.history + [Entry(call.key, call.now)] else t.history)
  }

  lemma SortedAfterPush(history: seq<Entry>, e: Entry)
    requires Sorted(history) && (history != [] ==> history[|history| - 1].at <= e.at)
    ensures Sorted(history + [e])
  {
  }

  lemma TraceAfterOffer(t: StoreTrace, at: nat, e: Entry, queue: seq<Entry>, isNew: bool, capacity: nat, window: nat)
    requires TraceOk(t, at, capacity, window) && at <= e.at
    requires queue == LiveSuffix(if isNew then t.history + [e] else t.history, e.at, capacity, window)
    ensures TraceOk(StoreTrace(queue, if isNew then t.history + [e] else t.history), e.at, capacity, window)
  {
    SortedAfterPush(t.history, e);
  }

  lemma CallKeepsTrace(t: StoreTrace, at: nat, call: Call, capacity: nat, window: nat)
    requires capacity >= 1 && TraceOk(t, at, capacity, window) && at <= call.now
    ensures CheckInsert(t.queue, call.key, call.now, capacity, window).1
       <==> !HasKey(LiveSuffix(t.history, call.now, capacity, window), call.key)
    ensures TraceOk(AfterCall(t, call, capacity, window), call.now, capacity, window)
  {
    CheckInsertKeepsLiveSuffix(t.history, at, call.key, call.now, capacity, window);
    var (queue', isNew) := CheckInsert(t.queue, call.key, call.now, capacity, window);
    TraceAfterOffer(t, at, Entry(call.key, call.now), queue', isNew, capacity, window);
  }

  /** Over any history of calls, the queue is the longest suffix of the insertions that fits the
      capacity and the time window at the latest call. */
  lemma {:induction false} QueueIsTheLiveSuffix(calls: seq<Call>, capacity: nat, window: nat)
    requires ClockNeverGoesBack(calls)
    ensures TraceOk(RunCalls(calls, capacity, window), LastTime(calls), EffectiveCapacity(capacity), window)
  {
    if calls != [] {
      var init := calls[..|calls| - 1];
      var call := calls[|calls| - 1];
      QueueIsTheLiveSuffix(init, capacity, window);
      var before := RunCalls(init, capacity, window);
      CallKeepsTrace(before, LastTime(init), call, EffectiveCapacity(capacity), window);
      CapacityZeroActsAsOne(before.queue, call.key, call.now, capacity, window);
    }
  }

  /** A key offered next is refused exactly when that suffix, taken at the time of the offer,
      already holds it. */
  lemma AnswerIsExact(calls: seq<Call>, next: Call, capacity: nat, window: nat)
    requires ClockNeverGoesBack(calls + [next])
    ensures var t := RunCalls(calls, capacity, window);
            CheckInsert(t.queue, next.key, next.now, capacity, window).1
            <==> !HasKey(LiveSuffix(t.history, next.now, EffectiveCapacity(capacity), window), next.key)
  {
    assert forall i :: 0 <= i < |calls| ==> (calls + [next])[i] == calls[i];
    assert (calls + [next])[|calls|] == next;
    var t := RunCalls(calls, capacity, window);
    QueueIsTheLiveSuffix(calls, capacity, window);
    CallKeepsTrace(t, LastTime(calls), next, EffectiveCapacity(capacity), window);
    CapacityZeroActsAsOne(t.queue, next.key, next.now, capacity, window);
  }
}
