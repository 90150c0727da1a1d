/** What the forwarder keeps over every run: flow balance and PIT conservation. */
module ForwarderRuns {
  import opened Basics
  import opened PitEntries
  import opened Pipelines

  // ---------------------------------------------------------------- events and runs

  /** `StrategyActs` is anything a strategy does to a live entry at another time, on a new next hop
      or from a timer; `NoncesEvicted` is the Dead Nonce List dropping old entries. */
  datatype Event =
    | InterestIn(interest: Interest, ingress: Face, room: bool, answer: bool, hit: Option<Data>, actions: seq<Action>, now: int)
    | DataIn(data: Data, ingress: Face, keys: seq<Key>, actions: seq<Action>, now: int)
    | NackIn(key: Key, nonce: Nonce, ingress: Face, actions: seq<Action>, now: int)
    | StrategyActs(key: Key, actions: seq<Action>, now: int)
    | TimerFires(key: Key, now: int)
    | FaceRemoved(face: Face)
    | NoncesEvicted(nonces: set<(Name, Nonce)>)

  ghost predicate Step(c: Config, f: Fw, e: Event, r: Fw) {
    match e
    case InterestIn(i, ingress, room, answer, hit, actions, now) => IncomingInterest(c, f, i, ingress, room, answer, hit, actions, now, r)
    case DataIn(data, ingress, keys, actions, now) =>
      IsMatchResult(f, data, keys) && r == IncomingData(c, f, data, ingress, keys, actions, now)
    case NackIn(k, nonce, ingress, actions, now) => r == IncomingNack(f, k, nonce, ingress, actions, now)
    case StrategyActs(k, actions, now) => k in f.pit && r == ActAll(f, k, actions, now)
    case TimerFires(k, now) => k in f.pit && f.pit[k].timer.Some? && f.pit[k].timer.value <= now && r == Finalize(c, f, k)
    case FaceRemoved(face) => r == RemoveFace(f, face)
    case NoncesEvicted(nonces) => r == f.(deadNonces := f.deadNonces - nonces)
  }

  ghost predicate IsRun(c: Config, states: seq<Fw>, events: seq<Event>) {
    && |states| == |events| + 1
    && states[0] == START
    && forall i :: 0 <= i < |events| ==> Step(c, states[i], events[i], states[i + 1])
  }

  // ---------------------------------------------------------------- flow balance

  /** The entries that owe this face an answer. */
  ghost function Pending(pit: map<Key, Entry>, g: Face): set<Key> {
    set k | k in pit && g in pit[k].inRecords
  }

  /** Packets sent to the face plus answers still owed to it. */
  ghost function Spent(f: Fw, g: Face): int {
    f.sentData[g] + f.sentNacks[g] + |Pending(f.pit, g)|
  }

  lemma PendingSet(pit: map<Key, Entry>, k: Key, e: Entry, g: Face)
    ensures Pending(pit[k := e], g) == (Pending(pit, g) - {k}) + if g in e.inRecords then {k} else {}
  {
  }

  lemma CardWithout<T>(s: set<T>, x: T)
    ensures |s| == |s - {x}| + if x in s then 1 else 0
  {
    if x in s {
      assert s == (s - {x}) + {x};
    } else {
      assert s == s - {x};
    }
  }

  /** Changing one entry changes what is owed to a face by at most that entry. */
  lemma PendingWith(pit: map<Key, Entry>, k: Key, e: Entry, g: Face)
    ensures |Pending(pit[k := e], g)| == |Pending(pit, g) - {k}| + if g in e.inRecords then 1 else 0
    ensures |Pending(pit, g)| == |Pending(pit, g) - {k}| + if k in pit && g in pit[k].inRecords then 1 else 0
  {
    var was := Pending(pit, g);
    PendingSet(pit, k, e, g);
    CardWithout(was, k);
    assert k in was <==> k in pit && g in pit[k].inRecords;
    hide Pending;
    CardWithout((was - {k}) + {k}, k);
    assert (was - {k}) + {k} - {k} == was - {k};
  }

  lemma PendingWithout(pit: map<Key, Entry>, k: Key, g: Face)
    ensures |Pending(pit - {k}, g)| <= |Pending(pit, g)|
  {
    Fewer(Pending(pit - {k}, g), Pending(pit, g));
  }

  lemma {:induction false} Fewer<T>(a: set<T>, b: set<T>)
    requires a <= b
    ensures |a| <= |b|
  {
    assert b == a + (b - a);
  }

  lemma ActSpends(f: Fw, k: Key, a: Action, now: int, g: Face)
    requires k in f.pit
    ensures Spent(Act(f, k, a, now), g) <= Spent(f, g)
    ensures Act(f, k, a, now).received == f.received
  {
    var r := Act(f, k, a, now);
    if r != f {
      PendingWith(f.pit, k, r.pit[k], g);
    }
  }

  lemma {:induction false} ActAllSpends(f: Fw, k: Key, actions: seq<Action>, now: int, g: Face)
    requires k in f.pit
    ensures Spent(ActAll(f, k, actions, now), g) <= Spent(f, g)
    ensures ActAll(f, k, actions, now).received == f.received
    decreases |actions|
  {
    hide Spent, Act;
    if actions != [] {
      ActSpends(f, k, actions[0], now, g);
      ActAllSpends(Act(f, k, actions[0], now), k, actions[1..], now, g);
    }
  }

  /** A received Interest allows one more packet or one more pending entry. */
  lemma InterestSpends(c: Config, f: Fw, i: Interest, ingress: Face, room: bool, answer: bool, hit: Option<Data>,
                       actions: seq<Action>, now: int, r: Fw, g: Face)
    requires IncomingInterest(c, f, i, ingress, room, answer, hit, actions, now, r)
    ensures Spent(r, g) <= Spent(f, g) + if g == ingress then 1 else 0
    ensures r.received == f.received + multiset{ingress}
  {
    hide Spent;
    var n := CountReceived(f, ingress);
    assert Spent(n, g) == Spent(f, g) by { SameSpent(f, n, g); }
    if Refused(i, ingress) {
    } else if Loops(f, i, ingress) {
      LoopSpends(n, ingress, answer, g);
    } else if i.key !in f.pit && !room {
    } else {
      var h := Insert(n, i.key);
      InsertSpends(n, i.key, g);
      if hit.Some? && h.pit[i.key].inRecords == map[] {
        HitSpends(h, i.key, ingress, hit.value, now, g);
      } else {
        MissSpends(c, h, DecrementHopLimit(i), ingress, actions, now, r, g);
      }
    }
  }

  lemma SameSpent(f: Fw, n: Fw, g: Face)
    requires n.pit == f.pit && n.sentData == f.sentData && n.sentNacks == f.sentNacks
    ensures Spent(n, g) == Spent(f, g)
  {
  }

  lemma LoopSpends(f: Fw, ingress: Face, answer: bool, g: Face)
    ensures Spent(InterestLoop(f, ingress, answer), g) <= Spent(f, g) + if g == ingress then 1 else 0
  {
  }

  lemma InsertSpends(f: Fw, k: Key, g: Face)
    ensures Spent(Insert(f, k), g) == Spent(f, g)
  {
    if k !in f.pit {
      PendingWith(f.pit, k, NewEntry(f.nCreated), g);
    }
  }

  lemma HitSpends(f: Fw, k: Key, ingress: Face, data: Data, now: int, g: Face)
    requires k in f.pit && f.pit[k].inRecords == map[]
    ensures Spent(ContentStoreHit(f, k, ingress, data, now), g) <= Spent(f, g) + if g == ingress then 1 else 0
  {
    var r := ContentStoreHit(f, k, ingress, data, now);
    assert r.pit == f.pit[k := r.pit[k]];
    PendingWith(f.pit, k, r.pit[k], g);
  }

  lemma MissSpends(c: Config, f: Fw, i: Interest, ingress: Face, actions: seq<Action>, now: int, r: Fw, g: Face)
    requires i.key in f.pit && ContentStoreMiss(c, f, i, ingress, actions, now, r)
    ensures Spent(r, g) <= Spent(f, g) + if g == ingress then 1 else 0
    ensures r.received == f.received
  {
    var last :|
      && IsLastExpiry(UpdateInRecord(f.pit[i.key], ingress, i.nonce, i.lifetime, now).inRecords, last)
      && r == Dispatch(c, Pend(f, i, ingress, last, now), i, actions, now);
    var p := Pend(f, i, ingress, last, now);
    PendingWith(f.pit, i.key, p.pit[i.key], g);
    DispatchSpends(c, p, i, actions, now, g);
  }

  lemma DispatchSpends(c: Config, f: Fw, i: Interest, actions: seq<Action>, now: int, g: Face)
    requires i.key in f.pit
    ensures Spent(Dispatch(c, f, i, actions, now), g) <= Spent(f, g)
    ensures Dispatch(c, f, i, actions, now).received == f.received
  {
    match i.nextHop
    case NoTag => ActAllSpends(f, i.key, actions, now, g);
    case NoSuchFace =>
    case Via(face) =>
      ActSpends(f, i.key, SendInterest(face, i.nonce, i.lifetime, DefaultHopLimit(c, i.hopLimit)), now, g);
  }

  /** Data for one entry: whatever the strategy sends is paid for with in-records. */
  lemma SingleMatchSpends(c: Config, f: Fw, k: Key, ingress: Face, data: Data, actions: seq<Action>, now: int, g: Face)
    requires k in f.pit
    ensures Spent(SingleMatch(c, f, k, ingress, data, actions, now), g) <= Spent(f, g)
    ensures SingleMatch(c, f, k, ingress, data, actions, now).received == f.received
  {
    hide ActAll;
    var timed := WithEntry(f, k, SetTimer(f.pit[k], now, 0));
    PendingWith(f.pit, k, timed.pit[k], g);
    ActAllSpends(timed, k, actions, now, g);
    var acted := ActAll(timed, k, actions, now);
    var r := SatisfyFrom(c, acted, k, ingress, data.freshness);
    PendingWith(acted.pit, k, r.pit[k], g);
  }

  lemma ClearEntryOwes(c: Config, f: Fw, k: Key, ingress: Face, freshness: nat, now: int, g: Face)
    requires k in f.pit
    ensures var r := ClearEntry(c, f, k, ingress, freshness, now);
      && r.sentData == f.sentData && r.sentNacks == f.sentNacks && r.received == f.received
      && Pending(r.pit, g) == Pending(f.pit, g) - {k}
      && (forall k' :: k' in f.pit && k' != k ==> r.pit[k'] == f.pit[k'])
  {
  }

  /** A face that was waiting in a cleared entry is owed less afterwards. */
  lemma {:induction false} ClearEntriesOwe(c: Config, f: Fw, keys: seq<Key>, ingress: Face, freshness: nat, now: int, g: Face)
    requires NoDup(keys) && forall k :: k in keys ==> k in f.pit
    ensures var r := ClearEntries(c, f, keys, ingress, freshness, now);
      && r.sentData == f.sentData && r.sentNacks == f.sentNacks && r.received == f.received
      && Pending(r.pit, g) == Pending(f.pit, g) - Elems(keys)
    decreases |keys|
  {
    hide ClearEntry;
    if keys != [] {
      var f' := ClearEntry(c, f, keys[0], ingress, freshness, now);
      ClearEntryOwes(c, f, keys[0], ingress, freshness, now, g);
      ClearEntriesOwe(c, f', keys[1..], ingress, freshness, now, g);
      assert Elems(keys) == {keys[0]} + Elems(keys[1..]);
    }
  }

  lemma {:induction false} WaitingIsPending(f: Fw, keys: seq<Key>, now: int, g: Face)
    requires (forall k :: k in keys ==> k in f.pit) && g in AllWaiting(f, keys, now)
    ensures exists k :: k in keys && k in Pending(f.pit, g)
  {
    if g in Waiting(f.pit[keys[0]], now) {
      assert keys[0] in keys && keys[0] in Pending(f.pit, g);
    } else {
      WaitingIsPending(f, keys[1..], now, g);
      var k :| k in keys[1..] && k in Pending(f.pit, g);
      assert k in keys;
    }
  }

  lemma MultiMatchSpends(c: Config, f: Fw, keys: seq<Key>, ingress: Face, data: Data, now: int, g: Face)
    requires NoDup(keys) && forall k :: k in keys ==> k in f.pit
    ensures Spent(MultiMatch(c, f, keys, ingress, data, now), g) <= Spent(f, g)
    ensures MultiMatch(c, f, keys, ingress, data, now).received == f.received
  {
    hide ClearEntries, AllWaiting;
    ClearEntriesOwe(c, f, keys, ingress, data.freshness, now, g);
    var before, after := Pending(f.pit, g), Pending(f.pit, g) - Elems(keys);
    Fewer(after, before);
    var faces := Reachable(ReturnTo(AllWaiting(f, keys, now), ingress), data.name);
    if g in faces {
      WaitingIsPending(f, keys, now, g);
      var k :| k in keys && k in before;
      Fewer(after, before - {k});
    }
  }

  lemma RemoveFaceOwes(f: Fw, face: Face, g: Face)
    ensures |Pending(RemoveFace(f, face).pit, g)| <= |Pending(f.pit, g)|
  {
    Fewer(Pending(RemoveFace(f, face).pit, g), Pending(f.pit, g));
  }

  lemma NackSpends(f: Fw, k: Key, nonce: Nonce, ingress: Face, actions: seq<Action>, now: int, g: Face)
    ensures Spent(IncomingNack(f, k, nonce, ingress, actions, now), g) <= Spent(f, g)
    ensures IncomingNack(f, k, nonce, ingress, actions, now).received == f.received
  {
    if AcceptsNack(f, k, nonce, ingress) {
      var e := RecordNack(f.pit[k], ingress);
      var e' := if HasPendingOut(e, now) then e else SetTimer(e, now, 0);
      PendingWith(f.pit, k, e', g);
      ActAllSpends(WithEntry(f, k, e'), k, actions, now, g);
    }
  }

  lemma StepSpends(c: Config, f: Fw, e: Event, r: Fw, g: Face)
    requires Step(c, f, e, r)
    ensures Spent(r, g) + f.received[g] <= Spent(f, g) + r.received[g]
  {
    hide Spent, IncomingInterest, IncomingNack, SingleMatch, MultiMatch, Finalize, RemoveFace, ActAll;
    match e
    case InterestIn(i, ingress, room, answer, hit, actions, now) =>
      InterestSpends(c, f, i, ingress, room, answer, hit, actions, now, r, g);
    case DataIn(data, ingress, keys, actions, now) =>
      if (!ingress.local && IsLocalhost(data.name)) || keys == [] {
      } else if |keys| == 1 {
        assert keys[0] in keys;
        SingleMatchSpends(c, f, keys[0], ingress, data, actions, now, g);
      } else {
        MultiMatchSpends(c, f, keys, ingress, data, now, g);
      }
    case NackIn(k, nonce, ingress, actions, now) => NackSpends(f, k, nonce, ingress, actions, now, g);
    case StrategyActs(k, actions, now) => ActAllSpends(f, k, actions, now, g);
    case TimerFires(k, now) => FinalizeSpends(c, f, k, g);
    case FaceRemoved(face) => RemoveFaceSpends(f, face, g);
    case NoncesEvicted(nonces) => SameSpent(f, r, g);
  }

  lemma FinalizeSpends(c: Config, f: Fw, k: Key, g: Face)
    requires k in f.pit
    ensures Spent(Finalize(c, f, k), g) <= Spent(f, g)
    ensures Finalize(c, f, k).received == f.received
  {
    PendingWithout(f.pit, k, g);
  }

  lemma RemoveFaceSpends(f: Fw, face: Face, g: Face)
    ensures Spent(RemoveFace(f, face), g) <= Spent(f, g)
    ensures RemoveFace(f, face).received == f.received
  {
    RemoveFaceOwes(f, face, g);
  }

  /** In every reachable state, Data sent, Nacks sent and live in-records of a face never
      exceed the Interests received on it, whatever the strategy does. */
  lemma {:induction false} FlowBalanceInEveryRun(c: Config, states: seq<Fw>, events: seq<Event>, n: nat, g: Face)
    requires IsRun(c, states, events) && n < |states|
    ensures states[n].sentData[g] + states[n].sentNacks[g] + |Pending(states[n].pit, g)| <= states[n].received[g]
  {
    hide Step;
    if n == 0 {
      assert Pending(START.pit, g) == {};
    } else {
      FlowBalanceInEveryRun(c, states, events, n - 1, g);
      assert Step(c, states[n - 1], events[n - 1], states[n - 1 + 1]);
      StepSpends(c, states[n - 1], events[n - 1], states[n], g);
    }
  }

  // ---------------------------------------------------------------- PIT conservation

  /** Every entry has an id of its own, below the count of entries created and not yet
      finalized; `untimed` may still lack its timer. */
  ghost predicate EntriesCounted(f: Fw, untimed: set<Key>) {
    && |f.finalized| == f.nSatisfied + f.nUnsatisfied
    && |f.finalized| + |f.pit| == f.nCreated
    && (forall x :: x in f.finalized ==> x < f.nCreated)
    && (forall k :: k in f.pit ==> f.pit[k].id < f.nCreated && f.pit[k].id !in f.finalized)
    && (forall k :: k in f.pit && k !in untimed ==> f.pit[k].timer.Some?)
    && (forall j, k :: j in f.pit && k in f.pit && f.pit[j].id == f.pit[k].id ==> j == k)
  }

  /** The same entries, with no timer lost. */
  ghost predicate SameEntries(f: Fw, r: Fw) {
    && r.pit.Keys == f.pit.Keys
    && (forall k :: k in f.pit ==> r.pit[k].id == f.pit[k].id && (f.pit[k].timer.Some? ==> r.pit[k].timer.Some?))
    && r.nCreated == f.nCreated && r.nSatisfied == f.nSatisfied && r.nUnsatisfied == f.nUnsatisfied
    && r.finalized == f.finalized
  }

  lemma SameKeepsCounted(f: Fw, r: Fw, untimed: set<Key>)
    requires EntriesCounted(f, untimed) && SameEntries(f, r)
    ensures EntriesCounted(r, untimed)
  {
    assert |r.pit| == |r.pit.Keys| && |f.pit| == |f.pit.Keys|;
  }

  lemma SameTrans(f: Fw, g: Fw, h: Fw)
    requires SameEntries(f, g) && SameEntries(g, h)
    ensures SameEntries(f, h)
  {
  }

  lemma ActSame(f: Fw, k: Key, a: Action, now: int)
    requires k in f.pit
    ensures SameEntries(f, Act(f, k, a, now))
  {
    hide SameEntries;
    var r := Act(f, k, a, now);
    SameByEntry(f, k, r.pit[k], r);
  }

  lemma SameByEntry(f: Fw, k: Key, e: Entry, r: Fw)
    requires k in f.pit && r.pit == f.pit[k := e] && e.id == f.pit[k].id && (f.pit[k].timer.Some? ==> e.timer.Some?)
    requires r.nCreated == f.nCreated && r.nSatisfied == f.nSatisfied && r.nUnsatisfied == f.nUnsatisfied
    requires r.finalized == f.finalized
    ensures SameEntries(f, r)
  {
  }

  lemma {:induction false} ActAllSame(f: Fw, k: Key, actions: seq<Action>, now: int)
    requires k in f.pit
    ensures SameEntries(f, ActAll(f, k, actions, now))
    decreases |actions|
  {
    if actions == [] {
    } else {
      var g := Act(f, k, actions[0], now);
      ActSame(f, k, actions[0], now);
      hide Act;
      ActAllSame(g, k, actions[1..], now);
      SameTrans(f, g, ActAll(g, k, actions[1..], now));
    }
  }

  lemma {:induction false} ClearEntriesSame(c: Config, f: Fw, keys: seq<Key>, ingress: Face, freshness: nat, now: int)
    requires forall k :: k in keys ==> k in f.pit
    ensures SameEntries(f, ClearEntries(c, f, keys, ingress, freshness, now))
    decreases |keys|
  {
    if keys == [] {
    } else {
      var g := ClearEntry(c, f, keys[0], ingress, freshness, now);
      assert SameEntries(f, g);
      hide ClearEntry;
      ClearEntriesSame(c, g, keys[1..], ingress, freshness, now);
      SameTrans(f, g, ClearEntries(c, g, keys[1..], ingress, freshness, now));
    }
  }

  lemma InsertCounts(f: Fw, k: Key)
    requires EntriesCounted(f, {})
    ensures EntriesCounted(Insert(f, k), {k})
  {
    if k !in f.pit {
      var r := Insert(f, k);
      assert r.pit.Keys == f.pit.Keys + {k};
      assert |r.pit| == |r.pit.Keys| && |f.pit| == |f.pit.Keys|;
    }
  }

  lemma TimedCounts(f: Fw, k: Key)
    requires EntriesCounted(f, {k}) && k in f.pit && f.pit[k].timer.Some?
    ensures EntriesCounted(f, {})
  {
  }

  lemma MissCounts(c: Config, f: Fw, i: Interest, ingress: Face, actions: seq<Action>, now: int, r: Fw)
    requires EntriesCounted(f, {i.key}) && i.key in f.pit && ContentStoreMiss(c, f, i, ingress, actions, now, r)
    ensures EntriesCounted(r, {})
  {
    hide EntriesCounted, SameEntries, Dispatch;
    var last :|
      && IsLastExpiry(UpdateInRecord(f.pit[i.key], ingress, i.nonce, i.lifetime, now).inRecords, last)
      && r == Dispatch(c, Pend(f, i, ingress, last, now), i, actions, now);
    var p := Pend(f, i, ingress, last, now);
    SameByEntry(f, i.key, p.pit[i.key], p);
    SameKeepsCounted(f, p, {i.key});
    TimedCounts(p, i.key);
    DispatchSame(c, p, i, actions, now);
    SameKeepsCounted(p, r, {});
  }

  lemma DispatchSame(c: Config, f: Fw, i: Interest, actions: seq<Action>, now: int)
    requires i.key in f.pit
    ensures SameEntries(f, Dispatch(c, f, i, actions, now))
  {
    hide ActAll;
    match i.nextHop
    case NoTag => ActAllSame(f, i.key, actions, now);
    case NoSuchFace =>
    case Via(face) =>
      ActSame(f, i.key, SendInterest(face, i.nonce, i.lifetime, DefaultHopLimit(c, i.hopLimit)), now);
  }

  lemma HitCounts(f: Fw, k: Key, ingress: Face, data: Data, now: int)
    requires EntriesCounted(f, {k}) && k in f.pit
    ensures EntriesCounted(ContentStoreHit(f, k, ingress, data, now), {})
  {
    hide EntriesCounted, SameEntries;
    var r := ContentStoreHit(f, k, ingress, data, now);
    SameByEntry(f, k, r.pit[k], r);
    SameKeepsCounted(f, r, {k});
    TimedCounts(r, k);
  }

  lemma InterestCounts(c: Config, f: Fw, i: Interest, ingress: Face, room: bool, answer: bool, hit: Option<Data>,
                       actions: seq<Action>, now: int, r: Fw)
    requires EntriesCounted(f, {}) && IncomingInterest(c, f, i, ingress, room, answer, hit, actions, now, r)
    ensures EntriesCounted(r, {})
  {
    hide EntriesCounted, ContentStoreHit, ContentStoreMiss;
    var n := CountReceived(f, ingress);
    SameKeepsCounted(f, n, {});
    if Refused(i, ingress) {
    } else if Loops(f, i, ingress) {
      SameKeepsCounted(n, r, {});
    } else if i.key !in f.pit && !room {
    } else {
      var h := Insert(n, i.key);
      InsertCounts(n, i.key);
      if hit.Some? && h.pit[i.key].inRecords == map[] {
        HitCounts(h, i.key, ingress, hit.value, now);
      } else {
        MissCounts(c, h, DecrementHopLimit(i), ingress, actions, now, r);
      }
    }
  }

  lemma CountsAfterErase(f: Fw, k: Key)
    requires EntriesCounted(f, {}) && k in f.pit
    ensures |f.pit - {k}| + 1 == |f.pit| && |f.finalized + {f.pit[k].id}| == |f.finalized| + 1
  {
    CardWithout(f.pit.Keys, k);
    assert (f.pit - {k}).Keys == f.pit.Keys - {k};
    assert |f.pit - {k}| == |(f.pit - {k}).Keys| && |f.pit| == |f.pit.Keys|;
  }

  lemma FinalizeCounts(c: Config, f: Fw, k: Key)
    requires EntriesCounted(f, {}) && k in f.pit
    ensures EntriesCounted(Finalize(c, f, k), {})
  {
    hide NeedsDeadNonces, OutNonces;
    CountsAfterErase(f, k);
    var r := Finalize(c, f, k);
    ghost var pit, gone := r.pit, f.pit[k].id;
    assert forall j :: j in pit ==> j in f.pit && j != k && pit[j] == f.pit[j];
    assert forall j :: j in pit ==> pit[j].id != gone;
    assert forall x :: x in r.finalized ==> x in f.finalized || x == gone;
  }

  lemma SingleMatchSame(c: Config, f: Fw, k: Key, ingress: Face, data: Data, actions: seq<Action>, now: int)
    requires k in f.pit
    ensures SameEntries(f, SingleMatch(c, f, k, ingress, data, actions, now))
  {
    hide ActAll, SameEntries;
    var timed := WithEntry(f, k, SetTimer(f.pit[k], now, 0));
    SameByEntry(f, k, timed.pit[k], timed);
    ActAllSame(timed, k, actions, now);
    var acted := ActAll(timed, k, actions, now);
    SameTrans(f, timed, acted);
    var r := SatisfyFrom(c, acted, k, ingress, data.freshness);
    SameByEntry(acted, k, r.pit[k], r);
    SameTrans(f, acted, r);
  }

  lemma DataCounts(c: Config, f: Fw, data: Data, ingress: Face, keys: seq<Key>, actions: seq<Action>, now: int)
    requires EntriesCounted(f, {}) && IsMatchResult(f, data, keys)
    ensures EntriesCounted(IncomingData(c, f, data, ingress, keys, actions, now), {})
  {
    hide EntriesCounted, ClearEntries, AllWaiting, SingleMatch;
    var r := IncomingData(c, f, data, ingress, keys, actions, now);
    if (!ingress.local && IsLocalhost(data.name)) || keys == [] {
    } else if |keys| == 1 {
      assert keys[0] in keys;
      SingleMatchSame(c, f, keys[0], ingress, data, actions, now);
      SameKeepsCounted(f, r, {});
    } else {
      ClearEntriesSame(c, f, keys, ingress, data.freshness, now);
      SameKeepsCounted(f, r, {});
    }
  }

  lemma NackCounts(f: Fw, k: Key, nonce: Nonce, ingress: Face, actions: seq<Action>, now: int)
    requires EntriesCounted(f, {})
    ensures EntriesCounted(IncomingNack(f, k, nonce, ingress, actions, now), {})
  {
    hide EntriesCounted, ActAll, HasPendingOut;
    if AcceptsNack(f, k, nonce, ingress) {
      var e := RecordNack(f.pit[k], ingress);
      var g := WithEntry(f, k, if HasPendingOut(e, now) then e else SetTimer(e, now, 0));
      assert SameEntries(f, g);
      ActAllSame(g, k, actions, now);
      SameTrans(f, g, ActAll(g, k, actions, now));
      SameKeepsCounted(f, ActAll(g, k, actions, now), {});
    }
  }

  lemma StepCounts(c: Config, f: Fw, e: Event, r: Fw)
    requires EntriesCounted(f, {}) && Step(c, f, e, r)
    ensures EntriesCounted(r, {})
  {
    hide EntriesCounted, IncomingInterest, IncomingNack, IncomingData, Finalize, ActAll;
    match e
    case InterestIn(i, ingress, room, answer, hit, actions, now) =>
      InterestCounts(c, f, i, ingress, room, answer, hit, actions, now, r);
    case DataIn(data, ingress, keys, actions, now) => DataCounts(c, f, data, ingress, keys, actions, now);
    case NackIn(k, nonce, ingress, actions, now) => NackCounts(f, k, nonce, ingress, actions, now);
    case StrategyActs(k, actions, now) =>
      ActAllSame(f, k, actions, now);
      SameKeepsCounted(f, r, {});
    case TimerFires(k, now) => FinalizeCounts(c, f, k);
    case FaceRemoved(face) => SameKeepsCounted(f, r, {});
    case NoncesEvicted(nonces) => SameKeepsCounted(f, r, {});
  }

  // ---------------------------------------------------------------- the keys of the PIT

  /** The key that an arriving Interest may add. */
  ghost function Added(f: Fw, e: Event): set<Key> {
    if e.InterestIn? && !Refused(e.interest, e.ingress) && !Loops(f, e.interest, e.ingress) && e.room then {e.interest.key} else {}
  }

  ghost function Ended(e: Event): set<Key> {
    if e.TimerFires? then {e.key} else {}
  }

  lemma InterestKeys(c: Config, f: Fw, i: Interest, ingress: Face, room: bool, answer: bool, hit: Option<Data>,
                     actions: seq<Action>, now: int, r: Fw)
    requires IncomingInterest(c, f, i, ingress, room, answer, hit, actions, now, r)
    ensures r.pit.Keys == f.pit.Keys + Added(f, InterestIn(i, ingress, room, answer, hit, actions, now))
  {
    hide Loops, ContentStoreMiss, ContentStoreHit;
    var n := CountReceived(f, ingress);
    if !Refused(i, ingress) && !Loops(f, i, ingress) && (i.key in f.pit || room) {
      var h := Insert(n, i.key);
      assert h.pit.Keys == f.pit.Keys + {i.key};
      if hit.Some? && h.pit[i.key].inRecords == map[] {
        HitKeys(h, i.key, ingress, hit.value, now);
      } else {
        MissKeys(c, h, DecrementHopLimit(i), ingress, actions, now, r);
      }
    }
  }

  lemma HitKeys(f: Fw, k: Key, ingress: Face, data: Data, now: int)
    requires k in f.pit
    ensures ContentStoreHit(f, k, ingress, data, now).pit.Keys == f.pit.Keys
  {
  }

  lemma MissKeys(c: Config, f: Fw, i: Interest, ingress: Face, actions: seq<Action>, now: int, r: Fw)
    requires i.key in f.pit && ContentStoreMiss(c, f, i, ingress, actions, now, r)
    ensures r.pit.Keys == f.pit.Keys
  {
    hide Dispatch, IsLastExpiry;
    var last :|
      && IsLastExpiry(UpdateInRecord(f.pit[i.key], ingress, i.nonce, i.lifetime, now).inRecords, last)
      && r == Dispatch(c, Pend(f, i, ingress, last, now), i, actions, now);
    var p := Pend(f, i, ingress, last, now);
    assert p.pit.Keys == f.pit.Keys;
    DispatchSame(c, p, i, actions, now);
  }

  lemma DataKeys(c: Config, f: Fw, data: Data, ingress: Face, keys: seq<Key>, actions: seq<Action>, now: int)
    requires IsMatchResult(f, data, keys)
    ensures IncomingData(c, f, data, ingress, keys, actions, now).pit.Keys == f.pit.Keys
  {
    hide ClearEntries, AllWaiting, SingleMatch;
    if !((!ingress.local && IsLocalhost(data.name)) || keys == []) && |keys| == 1 {
      assert keys[0] in keys;
      SingleMatchSame(c, f, keys[0], ingress, data, actions, now);
    }
  }

  lemma NackKeys(f: Fw, k: Key, nonce: Nonce, ingress: Face, actions: seq<Action>, now: int)
    ensures IncomingNack(f, k, nonce, ingress, actions, now).pit.Keys == f.pit.Keys
  {
    hide ActAll, HasPendingOut;
    if AcceptsNack(f, k, nonce, ingress) {
      var e := RecordNack(f.pit[k], ingress);
      var g := WithEntry(f, k, if HasPendingOut(e, now) then e else SetTimer(e, now, 0));
      assert g.pit.Keys == f.pit.Keys;
      ActAllSame(g, k, actions, now);
    }
  }

  /** Entries come only by insertion and go only by their timer. */
  lemma StepKeys(c: Config, f: Fw, e: Event, r: Fw)
    requires Step(c, f, e, r)
    ensures r.pit.Keys == f.pit.Keys + Added(f, e) - Ended(e)
  {
    hide IncomingInterest, IncomingNack, IncomingData, ActAll;
    match e
    case InterestIn(i, ingress, room, answer, hit, actions, now) =>
      InterestKeys(c, f, i, ingress, room, answer, hit, actions, now, r);
    case DataIn(data, ingress, keys, actions, now) => DataKeys(c, f, data, ingress, keys, actions, now);
    case NackIn(k, nonce, ingress, actions, now) => NackKeys(f, k, nonce, ingress, actions, now);
    case StrategyActs(k, actions, now) => ActAllSame(f, k, actions, now);
    case TimerFires(k, now) => assert r.pit.Keys == f.pit.Keys - {k};
    case FaceRemoved(face) =>
    case NoncesEvicted(nonces) =>
  }

  lemma StartCounted()
    ensures EntriesCounted(START, {})
  {
    assert START.pit == map[];
  }

  lemma CountedAddsUp(f: Fw)
    requires EntriesCounted(f, {})
    ensures f.nCreated == f.nSatisfied + f.nUnsatisfied + |f.pit|
  {
  }

  /** In every reachable state every entry has a pending timer, the entries created are the
      satisfied, the unsatisfied and the live ones, and no entry has been finalized twice. */
  lemma {:induction false} PitConservedInEveryRun(c: Config, states: seq<Fw>, events: seq<Event>, n: nat)
    requires IsRun(c, states, events) && n < |states|
    ensures EntriesCounted(states[n], {})
    ensures states[n].nCreated == states[n].nSatisfied + states[n].nUnsatisfied + |states[n].pit|
  {
    hide Step, EntriesCounted;
    if n == 0 {
      StartCounted();
    } else {
      PitConservedInEveryRun(c, states, events, n - 1);
      assert Step(c, states[n - 1], events[n - 1], states[n - 1 + 1]);
      StepCounts(c, states[n - 1], events[n - 1], states[n]);
    }
    CountedAddsUp(states[n]);
  }
}
