/** What may enter and what may leave the forwarder, whatever the strategy does: HopLimits, the
    /localhost scope, and who may be sent a Nack or a Data. */
module ForwarderRules {
  import opened Basics
  import opened PitEntries
  import opened Pipelines
  import opened ForwarderRuns

  predicate UnderLocalhost(name: Name) {
    ["localhost"] <= name
  }

  /** The Data has the name of the Interest, or a longer one if the Interest allows it. */
  predicate IsAnswer(k: Key, data: Data) {
    && |k.name| <= |data.name| && data.name[..|k.name|] == k.name
    && (|k.name| < |data.name| ==> k.canBePrefix)
  }

  lemma MatchesIffAnswer(k: Key, data: Data)
    ensures Matches(k, data) <==> IsAnswer(k, data)
  {
  }

  // ---------------------------------------------------------------- HopLimits

  /** An Interest with hops left, and from an application if it is about this host. */
  predicate Acceptable(i: Interest, ingress: Face) {
    && (i.hopLimit.Some? ==> 1 <= i.hopLimit.value)
    && (UnderLocalhost(i.key.name) ==> ingress.local)
  }

  /** Any other Interest is counted and forgotten. */
  lemma UnacceptableIsDropped(c: Config, f: Fw, e: Event, r: Fw)
    requires Step(c, f, e, r) && e.InterestIn? && !Acceptable(e.interest, e.ingress)
    ensures r == f.(received := f.received + multiset{e.ingress})
  {
  }

  /** One hop less than on arrival, or the configured default. */
  function HopLimitOut(c: Config, i: Interest): (r: Option<nat>)
    requires i.hopLimit.Some? ==> 1 <= i.hopLimit.value
  {
    match i.hopLimit
    case Some(h) => Some(h - 1)
    case None => if c.defaultHopLimit == 0 then None else Some(c.defaultHopLimit)
  }

  /** The end of the lifetime of an Interest that comes or goes now; at most ten days are waited. */
  function Due(now: int, lifetime: nat): (t: int) {
    if lifetime <= 10 * 24 * 60 * 60 * 1000 then now + lifetime else now + 10 * 24 * 60 * 60 * 1000
  }

  /** The event is an Interest that joins or opens entry `k` for downstream `g`. */
  ghost predicate Joins(f: Fw, e: Event, k: Key, g: Face) {
    && e.InterestIn? && e.interest.key == k && e.ingress == g
    && Acceptable(e.interest, g) && !Loops(f, e.interest, g)
    && (k in f.pit || e.room)
    && (e.hit.Some? ==> k in f.pit && f.pit[k].inRecords != map[])
  }

  /** An Interest sent to a chosen next hop leaves there once, with a hop less; with no hop left
      it reaches applications only. */
  lemma TaggedInterestLeaves(c: Config, f: Fw, e: Event, r: Fw, k: Key, g: Face, face: Face)
    requires Step(c, f, e, r) && Joins(f, e, k, g) && e.interest.nextHop == Via(face)
    ensures var h := HopLimitOut(c, e.interest);
      r.sentInterests == f.sentInterests
        + if h == Some(0) && !face.local then multiset{} else multiset{Sent(face, k.name, e.interest.nonce, h)}
  {
    hide Loops, ContentStoreMiss;
    TaggedMiss(c, Insert(CountReceived(f, g), k), DecrementHopLimit(e.interest), g, e.actions, e.now, r, face);
  }

  lemma TaggedMiss(c: Config, f: Fw, i: Interest, ingress: Face, actions: seq<Action>, now: int, r: Fw, face: Face)
    requires i.key in f.pit && ContentStoreMiss(c, f, i, ingress, actions, now, r) && i.nextHop == Via(face)
    ensures var h := DefaultHopLimit(c, i.hopLimit);
      r.sentInterests == f.sentInterests
        + if CanSendInterest(face, h) then multiset{Sent(face, i.key.name, i.nonce, h)} else multiset{}
  {
    hide IsLastExpiry;
  }

  // ---------------------------------------------------------------- one action

  /** An Interest leaves exactly if it has hops left or stays on the host; its out-record then has
      the Nonce, the time and the end of its lifetime, and no other record changes. */
  lemma InterestLeavesIff(f: Fw, k: Key, face: Face, nonce: Nonce, lifetime: nat, hopLimit: Option<nat>, now: int)
    requires k in f.pit
    ensures var r := Act(f, k, SendInterest(face, nonce, lifetime, hopLimit), now);
      if hopLimit == Some(0) && !face.local then r == f
      else
        && r.sentInterests == f.sentInterests + multiset{Sent(face, k.name, nonce, hopLimit)}
        && face in r.pit[k].outRecords
        && var rec := r.pit[k].outRecords[face];
           && rec.nonce == nonce && rec.renewed == now && rec.expiry == Due(now, lifetime)
           && r == f.(sentInterests := r.sentInterests,
                      pit := f.pit[k := f.pit[k].(outRecords := f.pit[k].outRecords[face := rec])])
  {
  }

  /** A timer is set to a time that has not passed, and nothing else changes. */
  lemma TimerIsSet(f: Fw, k: Key, duration: int, now: int)
    requires k in f.pit
    ensures var r := Act(f, k, SetExpiryTimer(duration), now);
      && r.pit[k].timer.Some? && r.pit[k].timer.value >= now
      && (duration >= 0 ==> r.pit[k].timer.value == now + duration)
      && (duration < 0 ==> r.pit[k].timer.value == now)
      && r == f.(pit := f.pit[k := f.pit[k].(timer := r.pit[k].timer)])
  {
  }

  /** A Nack leaves exactly on a valid point-to-point face with an in-record, which it uses up. */
  lemma NackLeavesIff(f: Fw, k: Key, face: Face, now: int)
    requires k in f.pit
    ensures var r := Act(f, k, SendNack(face), now);
      if face.link == PointToPoint && face.id > 0 && face in f.pit[k].inRecords
      then r.sentNacks[face] == f.sentNacks[face] + 1 && face !in r.pit[k].inRecords
      else r == f
  {
  }

  /** The downstream waits in the entry and is not the one that answers. */
  ghost predicate AwaitsFrom(e: Entry, ingress: Face, now: int, g: Face) {
    && g in e.inRecords && now < e.inRecords[g].expiry
    && (g.id == ingress.id ==> g.link == AdHoc)
  }

  /** The face exists, and Data about this host stays on it. */
  predicate MayCarry(name: Name, g: Face) {
    g.id > 0 && (UnderLocalhost(name) ==> g.local)
  }

  /** A Data returned to all goes once to each waiting downstream that may carry it, and none of
      them is owed anything afterwards. */
  lemma DataIsReturnedIff(f: Fw, k: Key, name: Name, ingress: Face, now: int, g: Face)
    requires k in f.pit
    ensures var r := Act(f, k, ReturnData(name, ingress), now);
      && r.sentData[g] == f.sentData[g] + (if AwaitsFrom(f.pit[k], ingress, now, g) && MayCarry(name, g) then 1 else 0)
      && (g in r.pit[k].inRecords <==> g in f.pit[k].inRecords && !AwaitsFrom(f.pit[k], ingress, now, g))
      && (g in r.pit[k].inRecords ==> r.pit[k].inRecords[g] == f.pit[k].inRecords[g])
  {
  }

  function NackEach(faces: seq<Face>): (r: seq<Action>)
    ensures |r| == |faces|
  {
    if faces == [] then [] else [SendNack(faces[0])] + NackEach(faces[1..])
  }

  /** Sending Nacks to all downstreams but some is sending each of them one, in any order. */
  lemma SendNacksIsEachNack(f: Fw, k: Key, except: set<Face>, faces: seq<Face>, now: int)
    requires k in f.pit && NoDup(faces) && (forall g :: g in faces <==> g in f.pit[k].inRecords && g !in except)
    ensures ActAll(f, k, NackEach(faces), now) == SendNacks(f, k, except)
  {
    assert Elems(faces) == f.pit[k].inRecords.Keys - except;
    EachNack(f, k, faces, now);
  }

  lemma {:induction false} EachNack(f: Fw, k: Key, faces: seq<Face>, now: int)
    requires k in f.pit && NoDup(faces) && forall g :: g in faces ==> g in f.pit[k].inRecords
    ensures var nacked := Nackable(Elems(faces));
      ActAll(f, k, NackEach(faces), now) == f.(pit := Stripped(f.pit, k, nacked), sentNacks := f.sentNacks + multiset(nacked))
    decreases |faces|
  {
    if faces == [] {
      StrippedNone(f.pit, k);
      assert Nackable(Elems(faces)) == {};
    } else {
      var g, rest := faces[0], faces[1..];
      var f' := Act(f, k, SendNack(g), now);
      assert g !in rest;
      EachNack(f', k, rest, now);
      assert Elems(faces) == {g} + Elems(rest);
      assert NackEach(faces)[1..] == NackEach(rest);
      NackOneMore(f, k, g, Elems(rest), now);
    }
  }

  lemma NackOneMore(f: Fw, k: Key, g: Face, rest: set<Face>, now: int)
    requires k in f.pit && g in f.pit[k].inRecords && g !in rest
    ensures var f', all := Act(f, k, SendNack(g), now), Nackable({g} + rest);
      && Stripped(f'.pit, k, Nackable(rest)) == Stripped(f.pit, k, all)
      && f'.sentNacks + multiset(Nackable(rest)) == f.sentNacks + multiset(all)
  {
    var f', all := Act(f, k, SendNack(g), now), Nackable({g} + rest);
    if TakesNack(g) {
      assert all == {g} + Nackable(rest);
      assert multiset(all) == multiset{g} + multiset(Nackable(rest));
      assert (f.pit[k].inRecords - {g}) - Nackable(rest) == f.pit[k].inRecords - all;
    } else {
      assert all == Nackable(rest);
    }
  }

  // ---------------------------------------------------------------- incoming Nack

  /** A Nack counts only from a point-to-point upstream, for the Nonce last sent there. */
  ghost predicate Answers(f: Fw, k: Key, nonce: Nonce, ingress: Face) {
    && ingress.link == PointToPoint
    && k in f.pit && OutCarries(f.pit[k], ingress, nonce)
  }

  lemma {:induction false} StaysNacked(f: Fw, k: Key, actions: seq<Action>, now: int, g: Face)
    requires k in f.pit && g in f.pit[k].outRecords && f.pit[k].outRecords[g].nacked
    ensures var r := ActAll(f, k, actions, now);
      g in r.pit[k].outRecords && r.pit[k].outRecords[g].nacked
    decreases |actions|
  {
    if actions != [] {
      StaysNacked(Act(f, k, actions[0], now), k, actions[1..], now, g);
    }
  }

  /** It is recorded, whatever the strategy then does; any other Nack changes nothing. */
  lemma NackCountsIff(f: Fw, k: Key, nonce: Nonce, ingress: Face, actions: seq<Action>, now: int)
    ensures var r := IncomingNack(f, k, nonce, ingress, actions, now);
      if Answers(f, k, nonce, ingress)
      then k in r.pit && ingress in r.pit[k].outRecords && r.pit[k].outRecords[ingress].nacked
      else r == f
  {
    if Answers(f, k, nonce, ingress) {
      var e := RecordNack(f.pit[k], ingress);
      StaysNacked(WithEntry(f, k, if HasPendingOut(e, now) then e else SetTimer(e, now, 0)), k, actions, now, ingress);
    }
  }

  // ---------------------------------------------------------------- ends

  /** A removed face is in no record any more; all other records stay, and nothing else changes. */
  lemma RemovalForgetsFace(f: Fw, face: Face, k: Key, g: Face)
    requires k in f.pit
    ensures var r := RemoveFace(f, face);
      && r == f.(pit := r.pit) && r.pit.Keys == f.pit.Keys
      && var was, now := f.pit[k], r.pit[k];
         && now == was.(inRecords := now.inRecords, outRecords := now.outRecords)
         && (g in now.inRecords <==> g in was.inRecords && g != face)
         && (g in now.inRecords ==> now.inRecords[g] == was.inRecords[g])
         && (g in now.outRecords <==> g in was.outRecords && g != face)
         && (g in now.outRecords ==> now.outRecords[g] == was.outRecords[g])
  {
  }

  /** The events up to `n` that finalized an entry, by whether it was satisfied. */
  ghost function Finalized(states: seq<Fw>, events: seq<Event>, n: nat, satisfied: bool): (r: nat)
    requires n <= |events| < |states|
  {
    if n == 0 then 0
    else
      var f, e := states[n - 1], events[n - 1];
      Finalized(states, events, n - 1, satisfied)
        + if e.TimerFires? && e.key in f.pit && f.pit[e.key].satisfied == satisfied then 1 else 0
  }

  lemma StepCounters(c: Config, f: Fw, e: Event, r: Fw)
    requires Step(c, f, e, r)
    ensures !e.TimerFires? ==> r.nSatisfied == f.nSatisfied && r.nUnsatisfied == f.nUnsatisfied
    ensures e.TimerFires? ==> e.key in f.pit
    ensures e.TimerFires? ==> r.nSatisfied == f.nSatisfied + (if f.pit[e.key].satisfied then 1 else 0)
    ensures e.TimerFires? ==> r.nUnsatisfied == f.nUnsatisfied + (if f.pit[e.key].satisfied then 0 else 1)
  {
    hide IncomingInterest, IncomingNack, IncomingData, ActAll;
    match e
    case InterestIn(i, ingress, room, answer, hit, actions, now) => InterestCounters(c, f, i, ingress, room, answer, hit, actions, now, r);
    case DataIn(data, ingress, keys, actions, now) => DataCounters(c, f, data, ingress, keys, actions, now);
    case NackIn(k, nonce, ingress, actions, now) => NackCounters(f, k, nonce, ingress, actions, now);
    case StrategyActs(k, actions, now) => ActAllSame(f, k, actions, now);
    case TimerFires(k, now) =>
    case FaceRemoved(face) =>
    case NoncesEvicted(nonces) =>
  }

  lemma InterestCounters(c: Config, f: Fw, i: Interest, ingress: Face, room: bool, answer: bool, hit: Option<Data>,
                         actions: seq<Action>, now: int, r: Fw)
    requires IncomingInterest(c, f, i, ingress, room, answer, hit, actions, now, r)
    ensures r.nSatisfied == f.nSatisfied && r.nUnsatisfied == f.nUnsatisfied
  {
    hide Loops, ContentStoreMiss;
    var h := Insert(CountReceived(f, ingress), i.key);
    if !Refused(i, ingress) && !Loops(f, i, ingress) && (i.key in f.pit || room) && !(hit.Some? && h.pit[i.key].inRecords == map[]) {
      MissCounters(c, h, DecrementHopLimit(i), ingress, actions, now, r);
    }
  }

  lemma MissCounters(c: Config, f: Fw, i: Interest, ingress: Face, actions: seq<Action>, now: int, r: Fw)
    requires i.key in f.pit && ContentStoreMiss(c, f, i, ingress, actions, now, r)
    ensures r.nSatisfied == f.nSatisfied && r.nUnsatisfied == f.nUnsatisfied
  {
    hide Dispatch, IsLastExpiry;
    var last :|
      && IsLastExpiry(UpdateInRecord(f.pit[i.key], ingress, i.nonce, i.lifetime, now).inRecords, last)
      && r == Dispatch(c, Pend(f, i, ingress, last, now), i, actions, now);
    DispatchSame(c, Pend(f, i, ingress, last, now), i, actions, now);
  }

  lemma DataCounters(c: Config, f: Fw, data: Data, ingress: Face, keys: seq<Key>, actions: seq<Action>, now: int)
    requires IsMatchResult(f, data, keys)
    ensures var r := IncomingData(c, f, data, ingress, keys, actions, now);
      r.nSatisfied == f.nSatisfied && r.nUnsatisfied == f.nUnsatisfied
  {
    hide ClearEntries, AllWaiting, SingleMatch;
    if (!ingress.local && IsLocalhost(data.name)) || keys == [] {
    } else if |keys| == 1 {
      assert keys[0] in keys;
      SingleMatchSame(c, f, keys[0], ingress, data, actions, now);
    } else {
      ClearEntriesSame(c, f, keys, ingress, data.freshness, now);
    }
  }

  lemma NackCounters(f: Fw, k: Key, nonce: Nonce, ingress: Face, actions: seq<Action>, now: int)
    ensures var r := IncomingNack(f, k, nonce, ingress, actions, now);
      r.nSatisfied == f.nSatisfied && r.nUnsatisfied == f.nUnsatisfied
  {
    hide ActAll, HasPendingOut;
    if AcceptsNack(f, k, nonce, ingress) {
      var e := RecordNack(f.pit[k], ingress);
      ActAllSame(WithEntry(f, k, if HasPendingOut(e, now) then e else SetTimer(e, now, 0)), k, actions, now);
    }
  }

  /** In every reachable state the two counters are the entries finalized satisfied and not. */
  lemma {:induction false} CountersInEveryRun(c: Config, states: seq<Fw>, events: seq<Event>, n: nat)
    requires IsRun(c, states, events) && n < |states|
    ensures states[n].nSatisfied == Finalized(states, events, n, true)
    ensures states[n].nUnsatisfied == Finalized(states, events, n, false)
  {
    hide Step;
    if n > 0 {
      CountersInEveryRun(c, states, events, n - 1);
      assert Step(c, states[n - 1], events[n - 1], states[n - 1 + 1]);
      StepCounters(c, states[n - 1], events[n - 1], states[n]);
    }
  }

  // ---------------------------------------------------------------- every run

  /** Between two states, no Interest out of hops leaves the host, no Nack goes to a shared medium,
      no Data to an invalid face, and no Data to a remote face unless `public`. */
  ghost predicate LeavesLawfully(f: Fw, r: Fw, public: bool) {
    && (forall s :: r.sentInterests[s] > f.sentInterests[s] && s.hopLimit == Some(0) ==> s.face.local)
    && (forall g :: r.sentNacks[g] > f.sentNacks[g] ==> g.link == PointToPoint)
    && (forall g :: r.sentData[g] > f.sentData[g] ==> g.id > 0 && (g.local || public))
  }

  predicate Returns(actions: seq<Action>, name: Name) {
    exists i :: 0 <= i < |actions| && actions[i].ReturnData? && actions[i].name == name
  }

  /** The event sends Data of this name, if it sends any. */
  ghost predicate MaySend(e: Event, name: Name) {
    match e
    case InterestIn(i, ingress, room, answer, hit, actions, now) => (hit.Some? && hit.value.name == name) || Returns(actions, name)
    case DataIn(data, ingress, keys, actions, now) => data.name == name || Returns(actions, name)
    case NackIn(k, nonce, ingress, actions, now) => Returns(actions, name)
    case StrategyActs(k, actions, now) => Returns(actions, name)
    case _ => false
  }

  /** Some Data of the event is not about this host. */
  ghost predicate IsPublic(e: Event) {
    exists name :: MaySend(e, name) && !UnderLocalhost(name)
  }

  lemma LawfulTrans(f: Fw, m: Fw, r: Fw, public: bool)
    requires LeavesLawfully(f, m, public) && LeavesLawfully(m, r, public)
    ensures LeavesLawfully(f, r, public)
  {
  }

  lemma ActIsLawful(f: Fw, k: Key, a: Action, now: int, public: bool)
    requires k in f.pit && (a.ReturnData? && !UnderLocalhost(a.name) ==> public)
    ensures LeavesLawfully(f, Act(f, k, a, now), public)
  {
  }

  lemma {:induction false} ActAllIsLawful(f: Fw, k: Key, actions: seq<Action>, now: int, public: bool)
    requires k in f.pit && forall name :: Returns(actions, name) && !UnderLocalhost(name) ==> public
    ensures LeavesLawfully(f, ActAll(f, k, actions, now), public)
    decreases |actions|
  {
    if actions != [] {
      var a, rest, next := actions[0], actions[1..], Act(f, k, actions[0], now);
      assert a.ReturnData? ==> Returns(actions, a.name);
      forall name | Returns(rest, name)
        ensures Returns(actions, name)
      {
        var i :| 0 <= i < |rest| && rest[i].ReturnData? && rest[i].name == name;
        assert actions[i + 1] == rest[i];
      }
      hide LeavesLawfully, Act, Returns, UnderLocalhost;
      ActIsLawful(f, k, a, now, public);
      ActAllIsLawful(next, k, rest, now, public);
      LawfulTrans(f, next, ActAll(next, k, rest, now), public);
    }
  }

  lemma QuietIsLawful(f: Fw, r: Fw, public: bool)
    requires r.sentInterests == f.sentInterests && r.sentNacks == f.sentNacks && r.sentData == f.sentData
    ensures LeavesLawfully(f, r, public)
  {
  }

  lemma MissIsLawful(c: Config, f: Fw, i: Interest, ingress: Face, actions: seq<Action>, now: int, r: Fw, public: bool)
    requires i.key in f.pit && ContentStoreMiss(c, f, i, ingress, actions, now, r)
    requires forall name :: Returns(actions, name) && !UnderLocalhost(name) ==> public
    ensures LeavesLawfully(f, r, public)
  {
    hide LeavesLawfully, Returns, IsLastExpiry, UnderLocalhost, ActAll;
    var last :|
      && IsLastExpiry(UpdateInRecord(f.pit[i.key], ingress, i.nonce, i.lifetime, now).inRecords, last)
      && r == Dispatch(c, Pend(f, i, ingress, last, now), i, actions, now);
    var p := Pend(f, i, ingress, last, now);
    QuietIsLawful(f, p, public);
    match i.nextHop {
      case NoTag => ActAllIsLawful(p, i.key, actions, now, public);
      case NoSuchFace =>
      case Via(face) =>
        ActIsLawful(p, i.key, SendInterest(face, i.nonce, i.lifetime, DefaultHopLimit(c, i.hopLimit)), now, public);
    }
    if i.nextHop != NoSuchFace {
      LawfulTrans(f, p, r, public);
    }
  }

  lemma HitIsLawful(f: Fw, k: Key, ingress: Face, data: Data, now: int, public: bool)
    requires k in f.pit && (!UnderLocalhost(data.name) ==> public)
    ensures LeavesLawfully(f, ContentStoreHit(f, k, ingress, data, now), public)
  {
  }

  lemma InterestIsLawful(c: Config, f: Fw, i: Interest, ingress: Face, room: bool, answer: bool, hit: Option<Data>,
                         actions: seq<Action>, now: int, r: Fw, public: bool)
    requires IncomingInterest(c, f, i, ingress, room, answer, hit, actions, now, r)
    requires hit.Some? && !UnderLocalhost(hit.value.name) ==> public
    requires forall name :: Returns(actions, name) && !UnderLocalhost(name) ==> public
    ensures LeavesLawfully(f, r, public)
  {
    hide Loops, ContentStoreMiss, ContentStoreHit, Returns, UnderLocalhost;
    var n := CountReceived(f, ingress);
    if !Refused(i, ingress) && !Loops(f, i, ingress) && (i.key in f.pit || room) {
      var h := Insert(n, i.key);
      hide LeavesLawfully;
      QuietIsLawful(f, h, public);
      if hit.Some? && h.pit[i.key].inRecords == map[] {
        HitIsLawful(h, i.key, ingress, hit.value, now, public);
      } else {
        MissIsLawful(c, h, DecrementHopLimit(i), ingress, actions, now, r, public);
      }
      LawfulTrans(f, h, r, public);
    }
  }

  lemma {:induction false} ClearingIsQuiet(c: Config, f: Fw, keys: seq<Key>, ingress: Face, freshness: nat, now: int)
    requires forall k :: k in keys ==> k in f.pit
    ensures var r := ClearEntries(c, f, keys, ingress, freshness, now);
      r.sentInterests == f.sentInterests && r.sentNacks == f.sentNacks && r.sentData == f.sentData
    decreases |keys|
  {
    if keys != [] {
      ClearingIsQuiet(c, ClearEntry(c, f, keys[0], ingress, freshness, now), keys[1..], ingress, freshness, now);
    }
  }

  lemma SingleMatchIsLawful(c: Config, f: Fw, k: Key, ingress: Face, data: Data, actions: seq<Action>, now: int, public: bool)
    requires k in f.pit && forall name :: Returns(actions, name) && !UnderLocalhost(name) ==> public
    ensures LeavesLawfully(f, SingleMatch(c, f, k, ingress, data, actions, now), public)
  {
    hide LeavesLawfully, Returns, UnderLocalhost, ActAll;
    var timed := WithEntry(f, k, SetTimer(f.pit[k], now, 0));
    QuietIsLawful(f, timed, public);
    ActAllIsLawful(timed, k, actions, now, public);
    var acted := ActAll(timed, k, actions, now);
    LawfulTrans(f, timed, acted, public);
    var r := SatisfyFrom(c, acted, k, ingress, data.freshness);
    QuietIsLawful(acted, r, public);
    LawfulTrans(f, acted, r, public);
  }

  lemma MultiMatchIsLawful(c: Config, f: Fw, keys: seq<Key>, ingress: Face, data: Data, now: int, public: bool)
    requires (forall k :: k in keys ==> k in f.pit) && (!UnderLocalhost(data.name) ==> public)
    ensures LeavesLawfully(f, MultiMatch(c, f, keys, ingress, data, now), public)
  {
    hide ClearEntries, AllWaiting;
    ClearingIsQuiet(c, f, keys, ingress, data.freshness, now);
  }

  lemma NackIsLawful(f: Fw, k: Key, nonce: Nonce, ingress: Face, actions: seq<Action>, now: int, public: bool)
    requires forall name :: Returns(actions, name) && !UnderLocalhost(name) ==> public
    ensures LeavesLawfully(f, IncomingNack(f, k, nonce, ingress, actions, now), public)
  {
    hide LeavesLawfully, Returns, UnderLocalhost, ActAll, HasPendingOut;
    if AcceptsNack(f, k, nonce, ingress) {
      var e := RecordNack(f.pit[k], ingress);
      var g := WithEntry(f, k, if HasPendingOut(e, now) then e else SetTimer(e, now, 0));
      QuietIsLawful(f, g, public);
      ActAllIsLawful(g, k, actions, now, public);
      LawfulTrans(f, g, ActAll(g, k, actions, now), public);
    } else {
      QuietIsLawful(f, f, public);
    }
  }

  /** Whatever a strategy does, every event keeps to the rules. */
  lemma StepIsLawful(c: Config, f: Fw, e: Event, r: Fw)
    requires Step(c, f, e, r)
    ensures LeavesLawfully(f, r, IsPublic(e))
  {
    hide LeavesLawfully, Returns, UnderLocalhost, IncomingInterest, IncomingNack, SingleMatch, MultiMatch, ActAll;
    var public := IsPublic(e);
    assert forall name :: MaySend(e, name) && !UnderLocalhost(name) ==> public;
    match e
    case InterestIn(i, ingress, room, answer, hit, actions, now) =>
      assert forall name :: Returns(actions, name) ==> MaySend(e, name);
      assert hit.Some? ==> MaySend(e, hit.value.name);
      InterestIsLawful(c, f, i, ingress, room, answer, hit, actions, now, r, public);
    case DataIn(data, ingress, keys, actions, now) =>
      assert forall name :: Returns(actions, name) ==> MaySend(e, name);
      assert MaySend(e, data.name);
      if (!ingress.local && IsLocalhost(data.name)) || keys == [] {
        QuietIsLawful(f, r, public);
      } else if |keys| == 1 {
        assert keys[0] in keys;
        SingleMatchIsLawful(c, f, keys[0], ingress, data, actions, now, public);
      } else {
        MultiMatchIsLawful(c, f, keys, ingress, data, now, public);
      }
    case NackIn(k, nonce, ingress, actions, now) =>
      assert forall name :: Returns(actions, name) ==> MaySend(e, name);
      NackIsLawful(f, k, nonce, ingress, actions, now, public);
    case StrategyActs(k, actions, now) =>
      assert forall name :: Returns(actions, name) ==> MaySend(e, name);
      ActAllIsLawful(f, k, actions, now, public);
    case TimerFires(k, now) => QuietIsLawful(f, r, public);
    case FaceRemoved(face) => QuietIsLawful(f, r, public);
    case NoncesEvicted(nonces) => QuietIsLawful(f, r, public);
  }

  /** In every reachable state, everything sent so far was sent by the rules. */
  lemma {:induction false} SentLawfullyInEveryRun(c: Config, states: seq<Fw>, events: seq<Event>, n: nat)
    requires IsRun(c, states, events) && n < |states|
    ensures forall s :: s in states[n].sentInterests && s.hopLimit == Some(0) ==> s.face.local
    ensures forall g :: g in states[n].sentNacks ==> g.link == PointToPoint
    ensures forall g :: g in states[n].sentData ==> g.id > 0
    ensures forall g :: g in states[n].sentData && !g.local ==> exists m :: 0 <= m < n && IsPublic(events[m])
  {
    hide Step, IsPublic;
    if n > 0 {
      SentLawfullyInEveryRun(c, states, events, n - 1);
      assert Step(c, states[n - 1], events[n - 1], states[n - 1 + 1]);
      StepIsLawful(c, states[n - 1], events[n - 1], states[n]);
      var f, r := states[n - 1], states[n];
      assert forall g :: g in r.sentData ==> g in f.sentData || r.sentData[g] > f.sentData[g];
      assert forall g :: g in r.sentNacks ==> g in f.sentNacks || r.sentNacks[g] > f.sentNacks[g];
      assert forall s :: s in r.sentInterests ==> s in f.sentInterests || r.sentInterests[s] > f.sentInterests[s];
    }
  }
}
