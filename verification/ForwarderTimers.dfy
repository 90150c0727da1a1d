/** How long an Interest stays pending: until its lifetime is over, unless one of the stated events
    ends the wait. */
module ForwarderTimers {
  import opened Basics
  import opened PitEntries
  import opened Pipelines
  import opened ForwarderRuns
  import opened ForwarderRules

  /** The entry waits on behalf of downstream `g`, at least until its in-record expires. */
  ghost predicate Waits(f: Fw, k: Key, g: Face, rec: InRecord) {
    && k in f.pit && g in f.pit[k].inRecords && f.pit[k].inRecords[g] == rec
    && f.pit[k].timer.Some? && rec.expiry <= f.pit[k].timer.value
  }

  /** The strategy sets the timer, or answers `g`. */
  predicate EndsWait(actions: seq<Action>, g: Face) {
    exists i :: 0 <= i < |actions|
      && (actions[i].SetExpiryTimer? || actions[i].ReturnData? || (actions[i].SendNack? && actions[i].face == g))
  }

  /** The ways in which a wait ends before its time: the strategy, matching Data, the last Nack, the
      removal of the face, or another Interest of the same downstream. */
  ghost predicate Ends(f: Fw, e: Event, k: Key, g: Face) {
    match e
    case InterestIn(i, ingress, room, answer, hit, actions, now) =>
      Joins(f, e, k, ingress) && (ingress == g || (i.nextHop == NoTag && EndsWait(actions, g)))
    case DataIn(data, ingress, keys, actions, now) => IsAnswer(k, data) && (UnderLocalhost(data.name) ==> ingress.local)
    case NackIn(key, nonce, ingress, actions, now) =>
      key == k && Answers(f, k, nonce, ingress) && (EndsWait(actions, g) || LastNack(f, k, nonce, ingress, now))
    case StrategyActs(key, actions, now) => key == k && EndsWait(actions, g)
    case TimerFires(key, now) => key == k
    case FaceRemoved(face) => face == g
    case NoncesEvicted(nonces) => false
  }

  /** With this Nack no upstream is left that could still answer. */
  ghost predicate LastNack(f: Fw, k: Key, nonce: Nonce, ingress: Face, now: int) {
    && Answers(f, k, nonce, ingress)
    && forall g :: g in f.pit[k].outRecords ==>
         g == ingress || f.pit[k].outRecords[g].nacked || f.pit[k].outRecords[g].expiry < now
  }

  // ---------------------------------------------------------------- one event

  lemma ActKeepsWaiting(f: Fw, j: Key, a: Action, now: int, k: Key, g: Face, rec: InRecord)
    requires Waits(f, k, g, rec) && j in f.pit && (j == k ==> !EndsWait([a], g))
    ensures Waits(Act(f, j, a, now), k, g, rec)
  {
    assert j == k ==> !([a][0].SetExpiryTimer? || [a][0].ReturnData? || ([a][0].SendNack? && [a][0].face == g));
  }

  lemma {:induction false} ActAllKeepsWaiting(f: Fw, j: Key, actions: seq<Action>, now: int, k: Key, g: Face, rec: InRecord)
    requires Waits(f, k, g, rec) && j in f.pit && (j == k ==> !EndsWait(actions, g))
    ensures Waits(ActAll(f, j, actions, now), k, g, rec)
    decreases |actions|
  {
    if actions != [] {
      if j == k {
        EndsWaitSplits(actions, g);
      }
      hide Waits, Act, EndsWait;
      ActKeepsWaiting(f, j, actions[0], now, k, g, rec);
      ActAllKeepsWaiting(Act(f, j, actions[0], now), j, actions[1..], now, k, g, rec);
    }
  }

  lemma EndsWaitSplits(actions: seq<Action>, g: Face)
    requires actions != [] && !EndsWait(actions, g)
    ensures !EndsWait([actions[0]], g) && !EndsWait(actions[1..], g)
  {
    forall i | 0 <= i < |actions[1..]|
      ensures actions[1..][i] == actions[i + 1]
    {
    }
  }

  lemma EntryKeepsWaiting(f: Fw, r: Fw, j: Key, e: Entry, k: Key, g: Face, rec: InRecord)
    requires Waits(f, k, g, rec) && r.pit == f.pit[j := e]
    requires j == k ==> g in e.inRecords && e.inRecords[g] == f.pit[k].inRecords[g] && e.timer.Some? && rec.expiry <= e.timer.value
    ensures Waits(r, k, g, rec)
  {
  }

  lemma MissKeepsWaiting(c: Config, f: Fw, i: Interest, ingress: Face, actions: seq<Action>, now: int, r: Fw, k: Key, g: Face, rec: InRecord)
    requires i.key in f.pit && ContentStoreMiss(c, f, i, ingress, actions, now, r)
    requires Waits(f, k, g, rec) && (i.key == k ==> ingress != g && (i.nextHop == NoTag ==> !EndsWait(actions, g)))
    ensures Waits(r, k, g, rec)
  {
    var last :|
      && IsLastExpiry(UpdateInRecord(f.pit[i.key], ingress, i.nonce, i.lifetime, now).inRecords, last)
      && r == Dispatch(c, Pend(f, i, ingress, last, now), i, actions, now);
    var p := Pend(f, i, ingress, last, now);
    EntryKeepsWaiting(f, p, i.key, p.pit[i.key], k, g, rec);
    DispatchKeepsWaiting(c, p, i, actions, now, k, g, rec);
  }

  lemma DispatchKeepsWaiting(c: Config, f: Fw, i: Interest, actions: seq<Action>, now: int, k: Key, g: Face, rec: InRecord)
    requires i.key in f.pit && Waits(f, k, g, rec) && (i.key == k && i.nextHop == NoTag ==> !EndsWait(actions, g))
    ensures Waits(Dispatch(c, f, i, actions, now), k, g, rec)
  {
    hide Waits, ActAll, EndsWait;
    match i.nextHop
    case NoTag => ActAllKeepsWaiting(f, i.key, actions, now, k, g, rec);
    case NoSuchFace =>
    case Via(face) =>
      var a := SendInterest(face, i.nonce, i.lifetime, DefaultHopLimit(c, i.hopLimit));
      assert !EndsWait([a], g) by { SendingEndsNothing(a, g); }
      ActKeepsWaiting(f, i.key, a, now, k, g, rec);
  }

  lemma SendingEndsNothing(a: Action, g: Face)
    requires a.SendInterest?
    ensures !EndsWait([a], g)
  {
  }

  lemma InterestKeepsWaiting(c: Config, f: Fw, i: Interest, ingress: Face, room: bool, answer: bool, hit: Option<Data>,
                             actions: seq<Action>, now: int, r: Fw, k: Key, g: Face, rec: InRecord)
    requires IncomingInterest(c, f, i, ingress, room, answer, hit, actions, now, r) && Waits(f, k, g, rec)
    requires Joins(f, InterestIn(i, ingress, room, answer, hit, actions, now), k, ingress) ==>
      ingress != g && (i.nextHop == NoTag ==> !EndsWait(actions, g))
    ensures Waits(r, k, g, rec)
  {
    hide Loops, ContentStoreMiss, ContentStoreHit, EndsWait;
    var n := CountReceived(f, ingress);
    if !Refused(i, ingress) && !Loops(f, i, ingress) && (i.key in f.pit || room) {
      var h := Insert(n, i.key);
      assert Waits(h, k, g, rec);
      if hit.Some? && h.pit[i.key].inRecords == map[] {
        HitKeepsWaiting(h, i.key, ingress, hit.value, now, k, g, rec);
      } else {
        hide Insert, Waits;
        MissKeepsWaiting(c, h, DecrementHopLimit(i), ingress, actions, now, r, k, g, rec);
      }
    }
  }

  lemma HitKeepsWaiting(f: Fw, j: Key, ingress: Face, data: Data, now: int, k: Key, g: Face, rec: InRecord)
    requires Waits(f, k, g, rec) && j in f.pit && j != k
    ensures Waits(ContentStoreHit(f, j, ingress, data, now), k, g, rec)
  {
  }

  lemma {:induction false} ClearEntriesLeave(c: Config, f: Fw, keys: seq<Key>, ingress: Face, freshness: nat, now: int, k: Key)
    requires (forall j :: j in keys ==> j in f.pit) && k in f.pit && k !in keys
    ensures ClearEntries(c, f, keys, ingress, freshness, now).pit[k] == f.pit[k]
    decreases |keys|
  {
    hide SatisfyFrom;
    if keys != [] {
      assert ClearEntry(c, f, keys[0], ingress, freshness, now).pit[k] == f.pit[k] by { ClearEntryLeaves(c, f, keys[0], ingress, freshness, now, k); }
      ClearEntriesLeave(c, ClearEntry(c, f, keys[0], ingress, freshness, now), keys[1..], ingress, freshness, now, k);
    }
  }

  lemma ClearEntryLeaves(c: Config, f: Fw, j: Key, ingress: Face, freshness: nat, now: int, k: Key)
    requires j in f.pit && k in f.pit && j != k
    ensures ClearEntry(c, f, j, ingress, freshness, now).pit[k] == f.pit[k]
  {
  }

  lemma DataKeepsWaiting(c: Config, f: Fw, data: Data, ingress: Face, keys: seq<Key>, actions: seq<Action>, now: int, k: Key, g: Face, rec: InRecord)
    requires IsMatchResult(f, data, keys) && Waits(f, k, g, rec)
    requires !(Matches(k, data) && (ingress.local || !IsLocalhost(data.name)))
    ensures Waits(IncomingData(c, f, data, ingress, keys, actions, now), k, g, rec)
  {
    hide ClearEntries, AllWaiting;
    if (!ingress.local && IsLocalhost(data.name)) || keys == [] {
    } else if |keys| == 1 {
      assert keys[0] in keys;
      var j := keys[0];
      var timed := WithEntry(f, j, SetTimer(f.pit[j], now, 0));
      EntryKeepsWaiting(f, timed, j, timed.pit[j], k, g, rec);
      ActAllKeepsWaiting(timed, j, actions, now, k, g, rec);
    } else {
      ClearEntriesLeave(c, f, keys, ingress, data.freshness, now, k);
    }
  }

  lemma NackKeepsWaiting(f: Fw, j: Key, nonce: Nonce, ingress: Face, actions: seq<Action>, now: int, k: Key, g: Face, rec: InRecord)
    requires Waits(f, k, g, rec)
    requires j == k && Answers(f, k, nonce, ingress) ==> !EndsWait(actions, g) && !LastNack(f, k, nonce, ingress, now)
    ensures Waits(IncomingNack(f, j, nonce, ingress, actions, now), k, g, rec)
  {
    if AcceptsNack(f, j, nonce, ingress) {
      var e := RecordNack(f.pit[j], ingress);
      if j == k {
        var h :| h in f.pit[k].outRecords && h != ingress && !f.pit[k].outRecords[h].nacked && f.pit[k].outRecords[h].expiry >= now;
        assert h in e.outRecords && e.outRecords[h] == f.pit[k].outRecords[h];
        assert HasPendingOut(e, now);
      }
      var e' := if HasPendingOut(e, now) then e else SetTimer(e, now, 0);
      hide EndsWait, LastNack, HasPendingOut;
      EntryKeepsWaiting(f, WithEntry(f, j, e'), j, e', k, g, rec);
      ActAllKeepsWaiting(WithEntry(f, j, e'), j, actions, now, k, g, rec);
    }
  }

  /** An entry goes on waiting for a downstream through every event but the stated ones. */
  lemma StepKeepsWaiting(c: Config, f: Fw, e: Event, r: Fw, k: Key, g: Face, rec: InRecord)
    requires Step(c, f, e, r) && Waits(f, k, g, rec) && !Ends(f, e, k, g)
    ensures Waits(r, k, g, rec)
  {
    hide IncomingInterest, IncomingNack, IncomingData, ActAll, EndsWait, LastNack;
    match e
    case InterestIn(i, ingress, room, answer, hit, actions, now) =>
      InterestKeepsWaiting(c, f, i, ingress, room, answer, hit, actions, now, r, k, g, rec);
    case DataIn(data, ingress, keys, actions, now) =>
      MatchesIffAnswer(k, data);
      DataKeepsWaiting(c, f, data, ingress, keys, actions, now, k, g, rec);
    case NackIn(j, nonce, ingress, actions, now) => NackKeepsWaiting(f, j, nonce, ingress, actions, now, k, g, rec);
    case StrategyActs(j, actions, now) => ActAllKeepsWaiting(f, j, actions, now, k, g, rec);
    case TimerFires(j, now) =>
    case FaceRemoved(face) =>
    case NoncesEvicted(nonces) =>
  }

  /** An Interest that joins an entry is waited for until it is due. */
  lemma JoiningWaits(c: Config, f: Fw, e: Event, r: Fw, k: Key, g: Face)
    requires Step(c, f, e, r) && Joins(f, e, k, g) && !(e.interest.nextHop == NoTag && EndsWait(e.actions, g))
    ensures Waits(r, k, g, InRecord(e.interest.nonce, Due(e.now, e.interest.lifetime)))
  {
    hide Loops, ContentStoreMiss, EndsWait;
    var h := Insert(CountReceived(f, g), k);
    MissStartsWaiting(c, h, DecrementHopLimit(e.interest), g, e.actions, e.now, r);
  }

  lemma MissStartsWaiting(c: Config, f: Fw, i: Interest, ingress: Face, actions: seq<Action>, now: int, r: Fw)
    requires i.key in f.pit && ContentStoreMiss(c, f, i, ingress, actions, now, r)
    requires i.nextHop == NoTag ==> !EndsWait(actions, ingress)
    ensures Waits(r, i.key, ingress, InRecord(i.nonce, Due(now, i.lifetime)))
  {
    var last :|
      && IsLastExpiry(UpdateInRecord(f.pit[i.key], ingress, i.nonce, i.lifetime, now).inRecords, last)
      && r == Dispatch(c, Pend(f, i, ingress, last, now), i, actions, now);
    var p := Pend(f, i, ingress, last, now);
    var rec := InRecord(i.nonce, Due(now, i.lifetime));
    assert Waits(p, i.key, ingress, rec);
    DispatchKeepsWaiting(c, p, i, actions, now, i.key, ingress, rec);
  }

  // ---------------------------------------------------------------- runs

  lemma {:induction false} WaitingPersists(c: Config, states: seq<Fw>, events: seq<Event>, m: nat, n: nat, k: Key, g: Face, rec: InRecord)
    requires IsRun(c, states, events) && m <= n < |states| && Waits(states[m], k, g, rec)
    requires forall j :: m <= j < n ==> !Ends(states[j], events[j], k, g)
    ensures Waits(states[n], k, g, rec)
  {
    hide Step, Waits, Ends;
    if m < n {
      WaitingPersists(c, states, events, m, n - 1, k, g, rec);
      assert Step(c, states[n - 1], events[n - 1], states[n - 1 + 1]);
      StepKeepsWaiting(c, states[n - 1], events[n - 1], states[n], k, g, rec);
    }
  }

  /** The event is an Interest of downstream `g` that joins entry `k`, with this in-record. */
  ghost predicate JoinsAs(f: Fw, e: Event, k: Key, g: Face, rec: InRecord) {
    && Joins(f, e, k, g) && !(e.interest.nextHop == NoTag && EndsWait(e.actions, g))
    && rec == InRecord(e.interest.nonce, Due(e.now, e.interest.lifetime))
  }

  /** Over every run: an Interest that has joined an entry stays in it with the same due time, and
      the entry is not finalized before, as long as none of the stated events ends the wait.  All
      the while a copy of it is a loop, unless a point-to-point face repeats its own Nonce. */
  lemma PendingUntilDueInEveryRun(c: Config, states: seq<Fw>, events: seq<Event>, m: nat, n: nat, k: Key, g: Face, rec: InRecord)
    requires IsRun(c, states, events) && m < n < |states| && JoinsAs(states[m], events[m], k, g, rec)
    requires forall j :: m < j < n ==> !Ends(states[j], events[j], k, g)
    ensures Waits(states[n], k, g, rec)
    ensures n < |events| && events[n].TimerFires? && events[n].key == k ==> rec.expiry <= events[n].now
    ensures var f := states[n];
      forall i: Interest, ingress :: i.key == k && i.nonce == rec.nonce ==>
        (Loops(f, i, ingress) <==>
          (k.name, i.nonce) in f.deadNonces || !(ingress.link == PointToPoint && InCarries(f.pit[k], ingress, i.nonce)))
  {
    hide Step, Waits, Ends, JoinsAs;
    assert Step(c, states[m], events[m], states[m + 1]);
    JoinedWaits(c, states[m], events[m], states[m + 1], k, g, rec);
    WaitingPersists(c, states, events, m + 1, n, k, g, rec);
    if n < |events| && events[n].TimerFires? && events[n].key == k {
      assert Step(c, states[n], events[n], states[n + 1]);
      FiresWhenDue(c, states[n], events[n], states[n + 1], k, g, rec);
    }
    CopiesLoop(states[n], k, g, rec);
  }

  lemma CopiesLoop(f: Fw, k: Key, g: Face, rec: InRecord)
    requires Waits(f, k, g, rec)
    ensures k in f.pit
    ensures forall i: Interest, ingress :: i.key == k && i.nonce == rec.nonce ==>
      (Loops(f, i, ingress) <==>
        (k.name, i.nonce) in f.deadNonces || !(ingress.link == PointToPoint && InCarries(f.pit[k], ingress, i.nonce)))
  {
    assert InCarries(f.pit[k], g, rec.nonce);
  }

  lemma JoinedWaits(c: Config, f: Fw, e: Event, r: Fw, k: Key, g: Face, rec: InRecord)
    requires Step(c, f, e, r) && JoinsAs(f, e, k, g, rec)
    ensures Waits(r, k, g, rec)
  {
    hide Step, Waits, EndsWait;
    JoiningWaits(c, f, e, r, k, g);
  }

  lemma FiresWhenDue(c: Config, f: Fw, e: Event, r: Fw, k: Key, g: Face, rec: InRecord)
    requires Step(c, f, e, r) && Waits(f, k, g, rec) && e.TimerFires? && e.key == k
    ensures rec.expiry <= e.now
  {
  }

  /** And not for ever: after an Interest has joined, the timer is due when one of the Interests
      pending in the entry is, unless that has passed. */
  lemma TimerIsDueWithAnInterest(c: Config, f: Fw, e: Event, r: Fw, k: Key, g: Face)
    requires Step(c, f, e, r) && Joins(f, e, k, g)
    requires e.interest.nextHop == NoTag ==> forall i :: 0 <= i < |e.actions| ==> !e.actions[i].SetExpiryTimer?
    ensures k in r.pit && r.pit[k].timer.Some?
    ensures var t := r.pit[k].timer.value;
      || t == Due(e.now, e.interest.lifetime)
      || (k in f.pit && exists h :: h in f.pit[k].inRecords && h != g && f.pit[k].inRecords[h].expiry == t)
  {
    hide Loops, ContentStoreMiss;
    var h := Insert(CountReceived(f, g), k);
    MissSetsTimer(c, h, DecrementHopLimit(e.interest), g, e.actions, e.now, r);
  }

  lemma MissSetsTimer(c: Config, f: Fw, i: Interest, ingress: Face, actions: seq<Action>, now: int, r: Fw)
    requires i.key in f.pit && ContentStoreMiss(c, f, i, ingress, actions, now, r)
    requires i.nextHop == NoTag ==> forall j :: 0 <= j < |actions| ==> !actions[j].SetExpiryTimer?
    ensures i.key in r.pit && r.pit[i.key].timer.Some?
    ensures var t := r.pit[i.key].timer.value;
      || t == Due(now, i.lifetime)
      || exists h :: h in f.pit[i.key].inRecords && h != ingress && f.pit[i.key].inRecords[h].expiry == t
  {
    var e := UpdateInRecord(f.pit[i.key], ingress, i.nonce, i.lifetime, now);
    var last :| IsLastExpiry(e.inRecords, last) && r == Dispatch(c, Pend(f, i, ingress, last, now), i, actions, now);
    var p := Pend(f, i, ingress, last, now);
    PendSetsTimer(f, i, ingress, last, now);
    hide Dispatch, Pend;
    DispatchKeepsTimer(c, p, i, actions, now);
    var h :| h in e.inRecords && e.inRecords[h].expiry == last;
    assert h == ingress || (h in f.pit[i.key].inRecords && f.pit[i.key].inRecords[h].expiry == last);
  }

  lemma PendSetsTimer(f: Fw, i: Interest, ingress: Face, last: int, now: int)
    requires i.key in f.pit && IsLastExpiry(UpdateInRecord(f.pit[i.key], ingress, i.nonce, i.lifetime, now).inRecords, last)
    ensures UpdateInRecord(f.pit[i.key], ingress, i.nonce, i.lifetime, now).inRecords[ingress].expiry == Due(now, i.lifetime)
    ensures Pend(f, i, ingress, last, now).pit[i.key].timer == Some(last)
  {
    var e := UpdateInRecord(f.pit[i.key], ingress, i.nonce, i.lifetime, now);
    assert ingress in e.inRecords && now <= e.inRecords[ingress].expiry <= last;
  }

  lemma DispatchKeepsTimer(c: Config, f: Fw, i: Interest, actions: seq<Action>, now: int)
    requires i.key in f.pit && (i.nextHop == NoTag ==> forall j :: 0 <= j < |actions| ==> !actions[j].SetExpiryTimer?)
    ensures var r := Dispatch(c, f, i, actions, now);
      i.key in r.pit && r.pit[i.key].timer == f.pit[i.key].timer
  {
    if i.nextHop == NoTag {
      ActAllKeepsTimer(f, i.key, actions, now);
    }
  }

  lemma {:induction false} ActAllKeepsTimer(f: Fw, k: Key, actions: seq<Action>, now: int)
    requires k in f.pit && forall j :: 0 <= j < |actions| ==> !actions[j].SetExpiryTimer?
    ensures ActAll(f, k, actions, now).pit[k].timer == f.pit[k].timer
    decreases |actions|
  {
    if actions != [] {
      assert forall j :: 0 <= j < |actions[1..]| ==> actions[1..][j] == actions[j + 1];
      ActAllKeepsTimer(Act(f, k, actions[0], now), k, actions[1..], now);
    }
  }

  /** The last Nack and a Content Store match end the wait at once. */
  lemma LastNackEndsNow(f: Fw, k: Key, nonce: Nonce, ingress: Face, actions: seq<Action>, now: int)
    requires LastNack(f, k, nonce, ingress, now) && forall j :: 0 <= j < |actions| ==> !actions[j].SetExpiryTimer?
    ensures var r := IncomingNack(f, k, nonce, ingress, actions, now);
      k in r.pit && r.pit[k].timer == Some(now)
  {
    var e := RecordNack(f.pit[k], ingress);
    assert !HasPendingOut(e, now);
    ActAllKeepsTimer(WithEntry(f, k, SetTimer(e, now, 0)), k, actions, now);
  }

  lemma HitEndsNow(c: Config, f: Fw, i: Interest, ingress: Face, room: bool, answer: bool, data: Data, actions: seq<Action>, now: int, r: Fw)
    requires IncomingInterest(c, f, i, ingress, room, answer, Some(data), actions, now, r)
    requires Acceptable(i, ingress) && !Loops(f, i, ingress)
    requires if i.key in f.pit then f.pit[i.key].inRecords == map[] else room
    ensures i.key in r.pit && r.pit[i.key].timer == Some(now) && r.pit[i.key].satisfied && r.pit[i.key].inRecords == map[]
    ensures r.sentData == f.sentData + if MayCarry(data.name, ingress) then multiset{ingress} else multiset{}
  {
  }
}
