/** Loop safety: an Interest that has left on an out-record is recognised when it comes back,
    first by its PIT entry and then by the Dead Nonce List. */
module ForwarderLoops {
  import opened Basics
  import opened PitEntries
  import opened Pipelines
  import opened ForwarderRuns

  /** The out-record to `g` holds the Nonce and finalization would bury it, or it is buried. */
  ghost predicate Guarded(c: Config, f: Fw, k: Key, g: Face, n: Nonce) {
    || (k.name, n) in f.deadNonces
    || (k in f.pit && OutCarries(f.pit[k], g, n) && NeedsDeadNonces(c, k, f.pit[k]))
  }

  /** No action replaces the Nonce on the out-record to `g`. */
  predicate Spares(actions: seq<Action>, g: Face, n: Nonce) {
    forall i :: 0 <= i < |actions| ==> actions[i].SendInterest? && actions[i].face == g ==> actions[i].nonce == n
  }

  /** Satisfying the entry with Data of this freshness would still bury its Nonces. */
  predicate ShortLived(c: Config, k: Key, freshness: nat) {
    k.mustBeFresh && freshness < c.deadNonceLifetime
  }

  /** The Content Store is asked only if the entry has no in-record. */
  ghost predicate AsksContentStore(f: Fw, k: Key) {
    k in f.pit ==> f.pit[k].inRecords == map[]
  }

  /** In this state the event does not replace the Nonce, remove the upstream, satisfy the entry
      with long-lived Data, or evict the Nonce from the Dead Nonce List. */
  ghost predicate KeepsGuard(c: Config, f: Fw, e: Event, k: Key, g: Face, n: Nonce) {
    match e
    case InterestIn(i, ingress, room, answer, hit, actions, now) =>
      i.key == k ==>
        && (i.nextHop == NoTag ==> Spares(actions, g, n))
        && (i.nextHop == Via(g) ==> i.nonce == n)
        && (hit.Some? && AsksContentStore(f, k) ==> ShortLived(c, k, hit.value.freshness))
    case DataIn(data, ingress, keys, actions, now) =>
      k in f.pit && Matches(k, data) ==> ShortLived(c, k, data.freshness) && Spares(actions, g, n)
    case NackIn(key, nonce, ingress, actions, now) => key == k ==> Spares(actions, g, n)
    case StrategyActs(key, actions, now) => key == k ==> Spares(actions, g, n)
    case TimerFires(key, now) => true
    case FaceRemoved(face) => face != g
    case NoncesEvicted(nonces) => (k.name, n) !in nonces
  }

  // ---------------------------------------------------------------- one event

  lemma ActKeepsGuard(c: Config, f: Fw, j: Key, a: Action, now: int, k: Key, g: Face, n: Nonce)
    requires Guarded(c, f, k, g, n) && j in f.pit
    requires j == k && a.SendInterest? && a.face == g ==> a.nonce == n
    ensures Guarded(c, Act(f, j, a, now), k, g, n)
  {
  }

  lemma {:induction false} ActAllKeepsGuard(c: Config, f: Fw, j: Key, actions: seq<Action>, now: int, k: Key, g: Face, n: Nonce)
    requires Guarded(c, f, k, g, n) && j in f.pit && (j == k ==> Spares(actions, g, n))
    ensures Guarded(c, ActAll(f, j, actions, now), k, g, n)
    decreases |actions|
  {
    hide Guarded, Act;
    if actions != [] {
      ActKeepsGuard(c, f, j, actions[0], now, k, g, n);
      ActAllKeepsGuard(c, Act(f, j, actions[0], now), j, actions[1..], now, k, g, n);
    }
  }

  lemma EntryKeepsGuard(c: Config, f: Fw, r: Fw, j: Key, e: Entry, k: Key, g: Face, n: Nonce)
    requires Guarded(c, f, k, g, n)
    requires r.pit == f.pit[j := e] && r.deadNonces == f.deadNonces
    requires j == k && k in f.pit && OutCarries(f.pit[k], g, n) && NeedsDeadNonces(c, k, f.pit[k]) ==>
      OutCarries(e, g, n) && NeedsDeadNonces(c, k, e)
    ensures Guarded(c, r, k, g, n)
  {
  }

  lemma InterestKeepsGuard(c: Config, f: Fw, i: Interest, ingress: Face, room: bool, answer: bool, hit: Option<Data>,
                           actions: seq<Action>, now: int, r: Fw, k: Key, g: Face, n: Nonce)
    requires Guarded(c, f, k, g, n) && IncomingInterest(c, f, i, ingress, room, answer, hit, actions, now, r)
    requires KeepsGuard(c, f, InterestIn(i, ingress, room, answer, hit, actions, now), k, g, n)
    ensures Guarded(c, r, k, g, n)
  {
    hide Guarded, Dispatch, OutCarries, NeedsDeadNonces, IsLastExpiry, Carries, Spares;
    var m := CountReceived(f, ingress);
    assert Guarded(c, m, k, g, n) by { SameTables(c, f, m, k, g, n); }
    if Refused(i, ingress) {
    } else if Loops(f, i, ingress) {
      SameTables(c, m, r, k, g, n);
    } else if i.key !in f.pit && !room {
    } else {
      var h := Insert(m, i.key);
      if i.key in f.pit {
      } else {
        EntryKeepsGuard(c, m, h, i.key, NewEntry(m.nCreated), k, g, n);
      }
      if hit.Some? && h.pit[i.key].inRecords == map[] {
        HitKeepsGuard(c, h, i.key, ingress, hit.value, now, k, g, n);
      } else {
        MissKeepsGuard(c, h, DecrementHopLimit(i), ingress, actions, now, r, k, g, n);
      }
    }
  }

  lemma SameTables(c: Config, f: Fw, r: Fw, k: Key, g: Face, n: Nonce)
    requires Guarded(c, f, k, g, n) && r.pit == f.pit && r.deadNonces == f.deadNonces
    ensures Guarded(c, r, k, g, n)
  {
  }

  lemma HitKeepsGuard(c: Config, f: Fw, j: Key, ingress: Face, data: Data, now: int, k: Key, g: Face, n: Nonce)
    requires Guarded(c, f, k, g, n) && j in f.pit && (j == k ==> ShortLived(c, k, data.freshness))
    ensures Guarded(c, ContentStoreHit(f, j, ingress, data, now), k, g, n)
  {
    var r := ContentStoreHit(f, j, ingress, data, now);
    assert r.pit == f.pit[j := r.pit[j]];
    EntryKeepsGuard(c, f, r, j, r.pit[j], k, g, n);
  }

  lemma MissKeepsGuard(c: Config, f: Fw, i: Interest, ingress: Face, actions: seq<Action>, now: int, r: Fw,
                       k: Key, g: Face, n: Nonce)
    requires Guarded(c, f, k, g, n) && i.key in f.pit && ContentStoreMiss(c, f, i, ingress, actions, now, r)
    requires i.key == k ==> (i.nextHop == NoTag ==> Spares(actions, g, n)) && (i.nextHop == Via(g) ==> i.nonce == n)
    ensures Guarded(c, r, k, g, n)
  {
    var last :|
      && IsLastExpiry(UpdateInRecord(f.pit[i.key], ingress, i.nonce, i.lifetime, now).inRecords, last)
      && r == Dispatch(c, Pend(f, i, ingress, last, now), i, actions, now);
    var p := Pend(f, i, ingress, last, now);
    EntryKeepsGuard(c, f, p, i.key, p.pit[i.key], k, g, n);
    hide Guarded, ActAll, Pend;
    match i.nextHop
    case NoTag => ActAllKeepsGuard(c, p, i.key, actions, now, k, g, n);
    case NoSuchFace =>
    case Via(face) =>
      ActKeepsGuard(c, p, i.key, SendInterest(face, i.nonce, i.lifetime, DefaultHopLimit(c, i.hopLimit)), now, k, g, n);
  }

  /** When the upstream itself answers, its Nonce moves from the out-record to the list. */
  lemma SatisfyKeepsGuard(c: Config, f: Fw, j: Key, ingress: Face, freshness: nat, k: Key, g: Face, n: Nonce)
    requires Guarded(c, f, k, g, n) && j in f.pit && (j == k ==> ShortLived(c, k, freshness))
    ensures Guarded(c, SatisfyFrom(c, f, j, ingress, freshness), k, g, n)
  {
    var r := SatisfyFrom(c, f, j, ingress, freshness);
    if j == k && (k.name, n) !in f.deadNonces && ingress == g {
      assert (k.name, n) in OutNonceOf(k, f.pit[k], g);
    }
  }

  lemma SingleMatchKeepsGuard(c: Config, f: Fw, j: Key, ingress: Face, data: Data, actions: seq<Action>, now: int,
                              k: Key, g: Face, n: Nonce)
    requires Guarded(c, f, k, g, n) && j in f.pit
    requires j == k ==> ShortLived(c, k, data.freshness) && Spares(actions, g, n)
    ensures Guarded(c, SingleMatch(c, f, j, ingress, data, actions, now), k, g, n)
  {
    var timed := WithEntry(f, j, SetTimer(f.pit[j], now, 0));
    EntryKeepsGuard(c, f, timed, j, timed.pit[j], k, g, n);
    hide Guarded, SatisfyFrom, ActAll, Spares;
    ActAllKeepsGuard(c, timed, j, actions, now, k, g, n);
    SatisfyKeepsGuard(c, ActAll(timed, j, actions, now), j, ingress, data.freshness, k, g, n);
  }

  lemma ClearKeepsGuard(c: Config, f: Fw, j: Key, ingress: Face, freshness: nat, now: int, k: Key, g: Face, n: Nonce)
    requires Guarded(c, f, k, g, n) && j in f.pit && (j == k ==> ShortLived(c, k, freshness))
    ensures Guarded(c, ClearEntry(c, f, j, ingress, freshness, now), k, g, n)
  {
    hide Guarded;
    var timed := WithEntry(f, j, SetTimer(f.pit[j], now, 0));
    EntryKeepsGuard(c, f, timed, j, timed.pit[j], k, g, n);
    SatisfyKeepsGuard(c, timed, j, ingress, freshness, k, g, n);
    var done := SatisfyFrom(c, timed, j, ingress, freshness);
    var r := ClearEntry(c, f, j, ingress, freshness, now);
    EntryKeepsGuard(c, done, r, j, r.pit[j], k, g, n);
  }

  lemma {:induction false} ClearAllKeepsGuard(c: Config, f: Fw, keys: seq<Key>, ingress: Face, freshness: nat, now: int,
                                              k: Key, g: Face, n: Nonce)
    requires Guarded(c, f, k, g, n) && (forall j :: j in keys ==> j in f.pit)
    requires k in keys ==> ShortLived(c, k, freshness)
    ensures Guarded(c, ClearEntries(c, f, keys, ingress, freshness, now), k, g, n)
    decreases |keys|
  {
    hide Guarded, ClearEntry;
    if keys != [] {
      ClearKeepsGuard(c, f, keys[0], ingress, freshness, now, k, g, n);
      ClearAllKeepsGuard(c, ClearEntry(c, f, keys[0], ingress, freshness, now), keys[1..], ingress, freshness, now, k, g, n);
    }
  }

  lemma DataKeepsGuard(c: Config, f: Fw, data: Data, ingress: Face, keys: seq<Key>, actions: seq<Action>, now: int,
                       k: Key, g: Face, n: Nonce)
    requires Guarded(c, f, k, g, n) && IsMatchResult(f, data, keys)
    requires k in f.pit && Matches(k, data) ==> ShortLived(c, k, data.freshness) && Spares(actions, g, n)
    ensures Guarded(c, IncomingData(c, f, data, ingress, keys, actions, now), k, g, n)
  {
    hide Guarded, ClearEntries, SingleMatch, AllWaiting, Spares;
    if (!ingress.local && IsLocalhost(data.name)) || keys == [] {
    } else if |keys| == 1 {
      assert keys[0] in keys;
      SingleMatchKeepsGuard(c, f, keys[0], ingress, data, actions, now, k, g, n);
    } else {
      ClearAllKeepsGuard(c, f, keys, ingress, data.freshness, now, k, g, n);
      SameTables(c, ClearEntries(c, f, keys, ingress, data.freshness, now), MultiMatch(c, f, keys, ingress, data, now), k, g, n);
    }
  }

  lemma NackKeepsGuard(c: Config, f: Fw, j: Key, nonce: Nonce, ingress: Face, actions: seq<Action>, now: int,
                       k: Key, g: Face, n: Nonce)
    requires Guarded(c, f, k, g, n) && (j == k ==> Spares(actions, g, n))
    ensures Guarded(c, IncomingNack(f, j, nonce, ingress, actions, now), k, g, n)
  {
    hide ActAll, HasPendingOut, Spares;
    if AcceptsNack(f, j, nonce, ingress) {
      var e := RecordNack(f.pit[j], ingress);
      var e' := if HasPendingOut(e, now) then e else SetTimer(e, now, 0);
      EntryKeepsGuard(c, f, WithEntry(f, j, e'), j, e', k, g, n);
      ActAllKeepsGuard(c, WithEntry(f, j, e'), j, actions, now, k, g, n);
    }
  }

  /** Finalization buries exactly the Nonces of the out-records, and only if they are needed. */
  lemma FinalizeBuriesIff(c: Config, f: Fw, k: Key, n: Nonce)
    requires k in f.pit
    ensures (k.name, n) in Finalize(c, f, k).deadNonces <==>
      || (k.name, n) in f.deadNonces
      || (NeedsDeadNonces(c, k, f.pit[k]) && exists g :: OutCarries(f.pit[k], g, n))
  {
    var e := f.pit[k];
    if g :| OutCarries(e, g, n) {
      assert (k.name, e.outRecords[g].nonce) in OutNonces(k, e);
    }
    if (k.name, n) in OutNonces(k, e) {
      var g :| g in e.outRecords && (k.name, e.outRecords[g].nonce) == (k.name, n);
      assert OutCarries(e, g, n);
    }
  }

  lemma FinalizeKeepsGuard(c: Config, f: Fw, j: Key, k: Key, g: Face, n: Nonce)
    requires Guarded(c, f, k, g, n) && j in f.pit
    ensures Guarded(c, Finalize(c, f, j), k, g, n)
  {
    hide OutNonces;
    if j == k {
      FinalizeBuriesIff(c, f, k, n);
    }
  }

  lemma RemoveFaceKeepsGuard(c: Config, f: Fw, face: Face, k: Key, g: Face, n: Nonce)
    requires Guarded(c, f, k, g, n) && face != g
    ensures Guarded(c, RemoveFace(f, face), k, g, n)
  {
  }

  lemma StepKeepsGuard(c: Config, f: Fw, e: Event, r: Fw, k: Key, g: Face, n: Nonce)
    requires Step(c, f, e, r) && Guarded(c, f, k, g, n) && KeepsGuard(c, f, e, k, g, n)
    ensures Guarded(c, r, k, g, n)
  {
    hide IncomingInterest, IncomingNack, IncomingData, Finalize, RemoveFace, ActAll, Spares, OutCarries;
    match e
    case InterestIn(i, ingress, room, answer, hit, actions, now) =>
      InterestKeepsGuard(c, f, i, ingress, room, answer, hit, actions, now, r, k, g, n);
    case DataIn(data, ingress, keys, actions, now) => DataKeepsGuard(c, f, data, ingress, keys, actions, now, k, g, n);
    case NackIn(j, nonce, ingress, actions, now) => NackKeepsGuard(c, f, j, nonce, ingress, actions, now, k, g, n);
    case StrategyActs(j, actions, now) => ActAllKeepsGuard(c, f, j, actions, now, k, g, n);
    case TimerFires(j, now) => FinalizeKeepsGuard(c, f, j, k, g, n);
    case FaceRemoved(face) => RemoveFaceKeepsGuard(c, f, face, k, g, n);
    case NoncesEvicted(nonces) =>
  }

  // ---------------------------------------------------------------- sending

  /** The Nonce of the last Interest that the actions send to `g`, if any. */
  function LastSentTo(actions: seq<Action>, g: Face): (r: Option<Nonce>) {
    if actions == [] then None
    else
      var later := LastSentTo(actions[1..], g);
      if later.Some? then later
      else if actions[0].SendInterest? && actions[0].face == g && CanSendInterest(g, actions[0].hopLimit)
      then Some(actions[0].nonce)
      else None
  }

  lemma {:induction false} NothingLaterSpares(c: Config, f: Fw, k: Key, actions: seq<Action>, now: int, g: Face, n: Nonce)
    requires Guarded(c, f, k, g, n) && k in f.pit && LastSentTo(actions, g).None?
    ensures Guarded(c, ActAll(f, k, actions, now), k, g, n)
    decreases |actions|
  {
    if actions != [] {
      NothingLaterSpares(c, Act(f, k, actions[0], now), k, actions[1..], now, g, n);
    }
  }

  lemma ActKeepsNeed(c: Config, f: Fw, k: Key, a: Action, now: int)
    requires k in f.pit && NeedsDeadNonces(c, k, f.pit[k])
    ensures NeedsDeadNonces(c, k, Act(f, k, a, now).pit[k])
  {
  }

  lemma SendGuards(c: Config, f: Fw, k: Key, a: Action, now: int)
    requires k in f.pit && NeedsDeadNonces(c, k, f.pit[k]) && a.SendInterest? && CanSendInterest(a.face, a.hopLimit)
    ensures Guarded(c, Act(f, k, a, now), k, a.face, a.nonce)
  {
  }

  /** A sent Interest is guarded at once, if its entry is not satisfied by long-lived Data. */
  lemma {:induction false} SendingGuards(c: Config, f: Fw, k: Key, actions: seq<Action>, now: int, g: Face, n: Nonce)
    requires k in f.pit && NeedsDeadNonces(c, k, f.pit[k]) && LastSentTo(actions, g) == Some(n)
    ensures Guarded(c, ActAll(f, k, actions, now), k, g, n)
    decreases |actions|
  {
    hide Guarded, NeedsDeadNonces, Act;
    var next := Act(f, k, actions[0], now);
    ActKeepsNeed(c, f, k, actions[0], now);
    if LastSentTo(actions[1..], g).Some? {
      SendingGuards(c, next, k, actions[1..], now, g, n);
    } else {
      SendGuards(c, f, k, actions[0], now);
      NothingLaterSpares(c, next, k, actions[1..], now, g, n);
    }
  }

  /** In this state the event sends an Interest of entry `k` to `g`, the last one with Nonce `n`. */
  ghost predicate Sends(c: Config, f: Fw, e: Event, k: Key, g: Face, n: Nonce) {
    match e
    case InterestIn(i, ingress, room, answer, hit, actions, now) =>
      && i.key == k && !Refused(i, ingress) && !Loops(f, i, ingress) && (k in f.pit || room)
      && !(hit.Some? && AsksContentStore(f, k))
      && (match i.nextHop
          case NoTag => LastSentTo(actions, g) == Some(n)
          case NoSuchFace => false
          case Via(face) =>
            face == g && i.nonce == n && CanSendInterest(g, DefaultHopLimit(c, DecrementHopLimit(i).hopLimit)))
    case NackIn(key, nonce, ingress, actions, now) =>
      key == k && AcceptsNack(f, k, nonce, ingress) && LastSentTo(actions, g) == Some(n)
    case StrategyActs(key, actions, now) => key == k && LastSentTo(actions, g) == Some(n)
    case DataIn(data, ingress, keys, actions, now) =>
      keys == [k] && (ingress.local || !IsLocalhost(data.name)) && LastSentTo(actions, g) == Some(n)
    case _ => false
  }

  /** The entry, old or new, is not satisfied by long-lived Data, before or by this event. */
  ghost predicate NeedsNonces(c: Config, f: Fw, e: Event, k: Key) {
    && (k in f.pit ==> NeedsDeadNonces(c, k, f.pit[k]))
    && (e.DataIn? ==> ShortLived(c, k, e.data.freshness))
  }

  lemma SingleMatchGuards(c: Config, f: Fw, k: Key, ingress: Face, data: Data, actions: seq<Action>, now: int, g: Face, n: Nonce)
    requires k in f.pit && NeedsDeadNonces(c, k, f.pit[k]) && ShortLived(c, k, data.freshness)
    requires LastSentTo(actions, g) == Some(n)
    ensures Guarded(c, SingleMatch(c, f, k, ingress, data, actions, now), k, g, n)
  {
    var timed := WithEntry(f, k, SetTimer(f.pit[k], now, 0));
    assert NeedsDeadNonces(c, k, timed.pit[k]);
    hide Guarded, SatisfyFrom, ActAll, LastSentTo, NeedsDeadNonces;
    SendingGuards(c, timed, k, actions, now, g, n);
    SatisfyKeepsGuard(c, ActAll(timed, k, actions, now), k, ingress, data.freshness, k, g, n);
  }

  lemma MissGuards(c: Config, f: Fw, i: Interest, ingress: Face, actions: seq<Action>, now: int, r: Fw, g: Face, n: Nonce)
    requires i.key in f.pit && NeedsDeadNonces(c, i.key, f.pit[i.key])
    requires ContentStoreMiss(c, f, i, ingress, actions, now, r)
    requires match i.nextHop
      case NoTag => LastSentTo(actions, g) == Some(n)
      case NoSuchFace => false
      case Via(face) => face == g && i.nonce == n && CanSendInterest(g, DefaultHopLimit(c, i.hopLimit))
    ensures Guarded(c, r, i.key, g, n)
  {
    var last :|
      && IsLastExpiry(UpdateInRecord(f.pit[i.key], ingress, i.nonce, i.lifetime, now).inRecords, last)
      && r == Dispatch(c, Pend(f, i, ingress, last, now), i, actions, now);
    var p := Pend(f, i, ingress, last, now);
    assert NeedsDeadNonces(c, i.key, p.pit[i.key]);
    hide Pend, ActAll, Guarded, NeedsDeadNonces, LastSentTo;
    if i.nextHop.NoTag? {
      SendingGuards(c, p, i.key, actions, now, g, n);
    } else {
      SendGuards(c, p, i.key, SendInterest(g, n, i.lifetime, DefaultHopLimit(c, i.hopLimit)), now);
    }
  }

  /** Whatever event sends an Interest to `g` leaves it guarded, unless its entry is satisfied
      by long-lived Data. */
  lemma SendingStepGuards(c: Config, f: Fw, e: Event, r: Fw, k: Key, g: Face, n: Nonce)
    requires Step(c, f, e, r) && Sends(c, f, e, k, g, n) && NeedsNonces(c, f, e, k)
    ensures Guarded(c, r, k, g, n)
  {
    hide Guarded, ActAll, HasPendingOut, LastSentTo, Loops, ContentStoreMiss;
    match e
    case InterestIn(i, ingress, room, answer, hit, actions, now) =>
      var h := Insert(CountReceived(f, ingress), k);
      assert NeedsDeadNonces(c, k, h.pit[k]);
      MissGuards(c, h, DecrementHopLimit(i), ingress, actions, now, r, g, n);
    case NackIn(key, nonce, ingress, actions, now) =>
      var entry := RecordNack(f.pit[k], ingress);
      var entry' := if HasPendingOut(entry, now) then entry else SetTimer(entry, now, 0);
      SendingGuards(c, WithEntry(f, k, entry'), k, actions, now, g, n);
    case StrategyActs(key, actions, now) => SendingGuards(c, f, k, actions, now, g, n);
    case DataIn(data, ingress, keys, actions, now) =>
      assert k in keys;
      SingleMatchGuards(c, f, k, ingress, data, actions, now, g, n);
  }

  // ---------------------------------------------------------------- whole runs

  /** From `m` to `n` the guard is kept by every event. */
  lemma {:induction false} GuardPersists(c: Config, states: seq<Fw>, events: seq<Event>, m: nat, n: nat, k: Key, g: Face, nonce: Nonce)
    requires IsRun(c, states, events) && m <= n < |states| && Guarded(c, states[m], k, g, nonce)
    requires forall j :: m <= j < n ==> KeepsGuard(c, states[j], events[j], k, g, nonce)
    ensures Guarded(c, states[n], k, g, nonce)
  {
    hide Step, Guarded, KeepsGuard;
    if m < n {
      GuardPersists(c, states, events, m, n - 1, k, g, nonce);
      assert Step(c, states[n - 1], events[n - 1], states[n - 1 + 1]);
      StepKeepsGuard(c, states[n - 1], events[n - 1], states[n], k, g, nonce);
    }
  }

  /** Once an Interest has left on the out-record to `g`, the same name and Nonce coming back is
      a loop: exactly unless it arrives on a point-to-point face whose own in-record carries
      that Nonce while the Nonce is still only in the PIT.  A loop adds no PIT record and sends
      nothing but a Nack to a point-to-point face, if the strategy answers loops. */
  lemma LoopsAreCaughtInEveryRun(c: Config, states: seq<Fw>, events: seq<Event>, m: nat, n: nat, k: Key, g: Face,
                                 nonce: Nonce, i: Interest, ingress: Face)
    requires IsRun(c, states, events) && m <= n < |states| && Guarded(c, states[m], k, g, nonce)
    requires forall j :: m <= j < n ==> KeepsGuard(c, states[j], events[j], k, g, nonce)
    requires i.key == k && i.nonce == nonce && !Refused(i, ingress)
    ensures var f := states[n];
      Loops(f, i, ingress) <==>
        || (k.name, nonce) in f.deadNonces
        || !(ingress.link == PointToPoint && k in f.pit && InCarries(f.pit[k], ingress, nonce))
    ensures Loops(states[n], i, ingress) ==> forall room, answer, hit, actions, now, r ::
      IncomingInterest(c, states[n], i, ingress, room, answer, hit, actions, now, r) ==>
        && r.pit == states[n].pit
        && r.sentInterests == states[n].sentInterests
        && r.sentData == states[n].sentData
        && r.sentNacks == states[n].sentNacks + if ingress.link == PointToPoint && answer then multiset{ingress} else multiset{}
  {
    GuardPersists(c, states, events, m, n, k, g, nonce);
  }

  /** Loop safety.  Event `m` sends an Interest to `g` for an entry that is not satisfied by
      long-lived Data.  As long as no event replaces the Nonce, removes the upstream, satisfies
      the entry with long-lived Data or evicts the Nonce, that Interest coming back is a loop,
      with the one exception of LoopsAreCaughtInEveryRun. */
  lemma SentInterestsAreCaughtInEveryRun(c: Config, states: seq<Fw>, events: seq<Event>, m: nat, n: nat, k: Key, g: Face,
                                         nonce: Nonce, i: Interest, ingress: Face)
    requires IsRun(c, states, events) && m < n < |states| && Sends(c, states[m], events[m], k, g, nonce)
    requires NeedsNonces(c, states[m], events[m], k)
    requires forall j :: m < j < n ==> KeepsGuard(c, states[j], events[j], k, g, nonce)
    requires i.key == k && i.nonce == nonce && !Refused(i, ingress)
    ensures var f := states[n];
      Loops(f, i, ingress) <==>
        || (k.name, nonce) in f.deadNonces
        || !(ingress.link == PointToPoint && k in f.pit && InCarries(f.pit[k], ingress, nonce))
  {
    hide Step, Sends, KeepsGuard, NeedsNonces, Loops, Refused;
    assert Step(c, states[m], events[m], states[m + 1]);
    SendingStepGuards(c, states[m], events[m], states[m + 1], k, g, nonce);
    LoopsAreCaughtInEveryRun(c, states, events, m + 1, n, k, g, nonce, i, ingress);
  }

  /** An entry satisfied by long-lived Data forgets: its Nonces are not buried. */
  lemma LongLivedDataForgets(c: Config, f: Fw, i: Interest, ingress: Face)
    requires i.key in f.pit && f.pit[i.key].satisfied && !ShortLived(c, i.key, f.pit[i.key].freshness)
    requires (i.key.name, i.nonce) !in f.deadNonces
    ensures !Loops(Finalize(c, f, i.key), i, ingress)
  {
    FinalizeBuriesIff(c, f, i.key, i.nonce);
  }
}
