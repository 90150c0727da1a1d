/** Best-route with exponential suppression: the choice of upstream for one Interest, and the
    rotation it produces over the retransmissions of one PIT entry. */
module BestRoutes {
  import opened Basics
  import opened PitEntries
  import opened Pipelines
  import opened RetxSuppressions
  import opened Division

  // ---------------------------------------------------------------- next hops

  predicate WouldViolateScope(ingress: Face, name: Name, out: Face) {
    && !out.local
    && (IsLocalhost(name) || (|name| > 0 && name[0] == "localhop" && !ingress.local))
  }

  predicate IsEligible(ingress: Face, name: Name, out: Face) {
    (out.id != ingress.id || out.link == AdHoc) && !WouldViolateScope(ingress, name, out)
  }

  predicate IsUnused(e: Entry, out: Face, now: int) {
    out !in e.outRecords || e.outRecords[out].expiry <= now
  }

  /** The eligible next hops, in FIB order. */
  function Eligible(ingress: Face, name: Name, hops: seq<Face>): (r: seq<Face>)
    ensures forall f :: f in r <==> f in hops && IsEligible(ingress, name, f)
  {
    if hops == [] then []
    else (if IsEligible(ingress, name, hops[0]) then [hops[0]] else []) + Eligible(ingress, name, hops[1..])
  }

  lemma {:induction false} EligibleNoDup(ingress: Face, name: Name, hops: seq<Face>)
    requires NoDup(hops)
    ensures NoDup(Eligible(ingress, name, hops))
  {
    if hops != [] {
      EligibleNoDup(ingress, name, hops[1..]);
      var rest := Eligible(ingress, name, hops[1..]);
      assert hops[0] !in rest;
    }
  }

  lemma {:induction false} EligibleNone(ingress: Face, name: Name, hops: seq<Face>)
    ensures Eligible(ingress, name, hops) == [] <==> forall j :: 0 <= j < |hops| ==> !IsEligible(ingress, name, hops[j])
  {
    if hops != [] {
      EligibleNone(ingress, name, hops[1..]);
      assert forall j :: 0 < j < |hops| ==> hops[j] == hops[1..][j - 1];
    }
  }

  function FirstUnused(e: Entry, hops: seq<Face>, now: int): (r: Option<Face>) {
    if hops == [] then None
    else if IsUnused(e, hops[0], now) then Some(hops[0])
    else FirstUnused(e, hops[1..], now)
  }

  /** Used longest ago. */
  ghost predicate IsEarliest(e: Entry, hops: seq<Face>, f: Face) {
    && f in hops && f in e.outRecords
    && (forall g :: g in hops ==> g in e.outRecords && e.outRecords[f].renewed <= e.outRecords[g].renewed)
  }

  method FindEligible(ingress: Face, name: Name, hops: seq<Face>) returns (r: Option<Face>)
    ensures r == var el := Eligible(ingress, name, hops); if el == [] then None else Some(el[0])
  {
    for i := 0 to |hops|
      invariant Eligible(ingress, name, hops) == Eligible(ingress, name, hops[i..])
    {
      assert hops[i..][1..] == hops[i + 1..];
      if IsEligible(ingress, name, hops[i]) {
        return Some(hops[i]);
      }
    }
    return None;
  }

  lemma FirstUnusedSkips(e: Entry, ingress: Face, name: Name, hops: seq<Face>, i: nat, now: int)
    requires i < |hops|
    ensures FirstUnused(e, Eligible(ingress, name, hops[i..]), now)
         == if IsEligible(ingress, name, hops[i]) && IsUnused(e, hops[i], now) then Some(hops[i])
            else FirstUnused(e, Eligible(ingress, name, hops[i + 1..]), now)
  {
    assert hops[i..][1..] == hops[i + 1..];
    var rest := Eligible(ingress, name, hops[i + 1..]);
    if IsEligible(ingress, name, hops[i]) {
      assert ([hops[i]] + rest)[1..] == rest;
    } else {
      assert [] + rest == rest;
    }
  }

  method FindUnused(e: Entry, ingress: Face, name: Name, hops: seq<Face>, now: int) returns (r: Option<Face>)
    ensures r == FirstUnused(e, Eligible(ingress, name, hops), now)
  {
    hide IsEligible, IsUnused;
    assert hops[0..] == hops;
    for i := 0 to |hops|
      invariant FirstUnused(e, Eligible(ingress, name, hops), now) == FirstUnused(e, Eligible(ingress, name, hops[i..]), now)
    {
      FirstUnusedSkips(e, ingress, name, hops, i, now);
      if IsEligible(ingress, name, hops[i]) && IsUnused(e, hops[i], now) {
        return Some(hops[i]);
      }
    }
    return None;
  }

  lemma {:induction false} AllUsed(e: Entry, hops: seq<Face>, now: int, f: Face)
    requires FirstUnused(e, hops, now).None? && f in hops
    ensures f in e.outRecords && e.outRecords[f].expiry > now
  {
    if f != hops[0] {
      AllUsed(e, hops[1..], now, f);
    }
  }

  /** The search asserts that every eligible next hop has an out-record.  It is reached only
      after no unused next hop was found, so the assertion holds. */
  method FindEarliest(e: Entry, ingress: Face, name: Name, hops: seq<Face>, now: int) returns (found: Option<Face>)
    requires FirstUnused(e, Eligible(ingress, name, hops), now).None?
    ensures found.None? <==> Eligible(ingress, name, hops) == []
    ensures found.Some? ==> IsEarliest(e, Eligible(ingress, name, hops), found.value)
  {
    ghost var el := Eligible(ingress, name, hops);
    found := None;
    for i := 0 to |hops|
      invariant found.None? ==> forall j :: 0 <= j < i ==> !IsEligible(ingress, name, hops[j])
      invariant found.Some? ==> found.value in el && found.value in e.outRecords
      invariant found.Some? ==> forall j :: 0 <= j < i && IsEligible(ingress, name, hops[j]) ==>
        hops[j] in e.outRecords && e.outRecords[found.value].renewed <= e.outRecords[hops[j]].renewed
    {
      if IsEligible(ingress, name, hops[i]) {
        assert hops[i] in el;
        AllUsed(e, el, now, hops[i]);
        assert hops[i] in e.outRecords;
        if found.None? || e.outRecords[hops[i]].renewed < e.outRecords[found.value].renewed {
          found := Some(hops[i]);
        }
      }
    }
    EligibleNone(ingress, name, hops);
  }

  // ---------------------------------------------------------------- the strategy

  /** What afterReceiveInterest settles on: an upstream, a refusal with a Nack, or nothing. */
  datatype Choice = Upstream(face: Face) | NoRoute | Nothing

  ghost predicate Chooses(d: Decision, e: Entry, el: seq<Face>, now: int, choice: Choice) {
    match d
    case Suppress => choice == Nothing
    case New => choice == if el == [] then NoRoute else Upstream(el[0])
    case Forward =>
      var unused := FirstUnused(e, el, now);
      if unused.Some? then choice == Upstream(unused.value)
      else if el == [] then choice == Nothing
      else choice.Upstream? && IsEarliest(e, el, choice.face)
  }

  ghost predicate Reacts(s: Suppression, e: Entry, was: Option<int>, el: seq<Face>, now: int, choice: Choice, r: Option<int>) {
    exists d :: Decides(s, e, was, now, d, r) && Chooses(d, e, el, now, choice)
  }

  function ActionsFor(choice: Choice, i: Interest, ingress: Face): (r: seq<Action>) {
    match choice
    case Upstream(face) => [SendInterest(face, i.nonce, i.lifetime, i.hopLimit)]
    case NoRoute => [SendNack(ingress), SetExpiryTimer(0)]
    case Nothing => []
  }

  // ---------------------------------------------------------------- what the choice means

  /** A next hop that the Interest must not take: back where it came from, unless that is an ad hoc
      link; out of the host for a /localhost name; or to a second hop for a /localhop name. */
  predicate RuledOut(ingress: Face, name: Name, g: Face) {
    || (g.id == ingress.id && g.link != AdHoc)
    || (!g.local && |name| > 0 && name[0] == "localhost")
    || (!g.local && !ingress.local && |name| > 0 && name[0] == "localhop")
  }

  /** The first of the next hops that is not ruled out and for which `ok` holds. */
  ghost predicate IsFirst(ingress: Face, name: Name, hops: seq<Face>, ok: Face -> bool, g: Face) {
    exists i :: 0 <= i < |hops| && hops[i] == g && !RuledOut(ingress, name, g) && ok(g)
      && forall j :: 0 <= j < i ==> RuledOut(ingress, name, hops[j]) || !ok(hops[j])
  }

  /** An Interest is waiting for an answer from this upstream. */
  predicate Asked(e: Entry, g: Face, now: int) {
    g in e.outRecords && now < e.outRecords[g].expiry
  }

  /** An upstream may still answer and has not sent a Nack. */
  ghost predicate Awaits(e: Entry, now: int) {
    exists g :: g in e.outRecords && now <= e.outRecords[g].expiry && !e.outRecords[g].nacked
  }

  /** Some upstream was asked less than `interval` ago. */
  ghost predicate AskedWithin(e: Entry, now: int, interval: int) {
    exists g :: g in e.outRecords && now - e.outRecords[g].renewed < interval
  }

  /** Usable, asked, and not after any other usable next hop; all of them are asked. */
  ghost predicate IsLongestAgo(e: Entry, ingress: Face, name: Name, hops: seq<Face>, now: int, g: Face) {
    && g in hops && !RuledOut(ingress, name, g)
    && forall h :: h in hops && !RuledOut(ingress, name, h) ==>
         Asked(e, h, now) && Asked(e, g, now) && e.outRecords[g].renewed <= e.outRecords[h].renewed
  }

  lemma FirstOfRest(ingress: Face, name: Name, hops: seq<Face>, ok: Face -> bool, g: Face)
    requires hops != [] && (RuledOut(ingress, name, hops[0]) || !ok(hops[0])) && IsFirst(ingress, name, hops[1..], ok, g)
    ensures IsFirst(ingress, name, hops, ok, g)
  {
    hide RuledOut;
    var i :| 0 <= i < |hops[1..]| && hops[1..][i] == g && !RuledOut(ingress, name, g) && ok(g)
      && forall j :: 0 <= j < i ==> RuledOut(ingress, name, hops[1..][j]) || !ok(hops[1..][j]);
    assert hops[i + 1] == g;
    assert forall j :: 0 < j < i + 1 ==> hops[j] == hops[1..][j - 1];
  }

  lemma FirstIsHead(ingress: Face, name: Name, hops: seq<Face>, ok: Face -> bool)
    requires hops != [] && !RuledOut(ingress, name, hops[0]) && ok(hops[0])
    ensures IsFirst(ingress, name, hops, ok, hops[0])
  {
  }

  lemma EligibleIsNotRuledOut(ingress: Face, name: Name, g: Face)
    ensures IsEligible(ingress, name, g) <==> !RuledOut(ingress, name, g)
  {
  }

  lemma {:induction false} EligibleFirst(ingress: Face, name: Name, hops: seq<Face>)
    ensures var el := Eligible(ingress, name, hops);
      if el == [] then forall g :: g in hops ==> RuledOut(ingress, name, g)
      else IsFirst(ingress, name, hops, _ => true, el[0])
  {
    if hops != [] {
      EligibleFirst(ingress, name, hops[1..]);
      EligibleIsNotRuledOut(ingress, name, hops[0]);
      hide IsFirst, RuledOut, IsEligible;
      if !RuledOut(ingress, name, hops[0]) {
        FirstIsHead(ingress, name, hops, _ => true);
      } else if Eligible(ingress, name, hops) != [] {
        FirstOfRest(ingress, name, hops, _ => true, Eligible(ingress, name, hops)[0]);
      }
    }
  }

  lemma {:induction false} UnusedFirst(e: Entry, ingress: Face, name: Name, hops: seq<Face>, now: int)
    ensures var unused := FirstUnused(e, Eligible(ingress, name, hops), now);
      if unused.None? then forall g :: g in hops ==> RuledOut(ingress, name, g) || Asked(e, g, now)
      else IsFirst(ingress, name, hops, g => !Asked(e, g, now), unused.value)
  {
    if hops != [] {
      UnusedFirst(e, ingress, name, hops[1..], now);
      EligibleIsNotRuledOut(ingress, name, hops[0]);
      assert hops[0..] == hops;
      FirstUnusedSkips(e, ingress, name, hops, 0, now);
      assert IsUnused(e, hops[0], now) <==> !Asked(e, hops[0], now);
      hide IsFirst, RuledOut, IsEligible, Asked, FirstUnused, IsUnused, Eligible;
      var unused := FirstUnused(e, Eligible(ingress, name, hops), now);
      if !RuledOut(ingress, name, hops[0]) && !Asked(e, hops[0], now) {
        FirstIsHead(ingress, name, hops, g => !Asked(e, g, now));
      } else if unused.Some? {
        FirstOfRest(ingress, name, hops, g => !Asked(e, g, now), unused.value);
      }
    }
  }

  /** What best-route does with an Interest.  A new one goes to the first next hop that is not ruled
      out, and is refused exactly if all are.  One that is already waited for is held back within the
      interval since the last send; after that it goes to the first usable next hop that is not
      asked, or else to the one asked longest ago, and nowhere exactly if all are ruled out. */
  ghost predicate ActsRightly(s: Suppression, e: Entry, was: Option<int>, ingress: Face, name: Name, hops: seq<Face>, now: int, choice: Choice) {
    var interval := if was.Some? then was.value else s.initial;
    if !Awaits(e, now) then
      match choice
      case Upstream(g) => IsFirst(ingress, name, hops, _ => true, g)
      case NoRoute => forall g :: g in hops ==> RuledOut(ingress, name, g)
      case Nothing => false
    else if AskedWithin(e, now, interval) then choice == Nothing
    else
      match choice
      case Upstream(g) =>
        IsFirst(ingress, name, hops, h => !Asked(e, h, now), g) || IsLongestAgo(e, ingress, name, hops, now, g)
      case NoRoute => false
      case Nothing => forall g :: g in hops ==> RuledOut(ingress, name, g)
  }

  lemma DecisionMeans(s: Suppression, e: Entry, was: Option<int>, now: int, d: Decision, r: Option<int>)
    requires Decides(s, e, was, now, d, r)
    ensures var interval := if was.Some? then was.value else s.initial;
      d == if !Awaits(e, now) then New else if AskedWithin(e, now, interval) then Suppress else Forward
  {
    assert HasPendingOut(e, now) <==> Awaits(e, now);
    if HasPendingOut(e, now) {
      var last :| IsLastOutgoing(e, last) && DecidesSince(s, was, now - last, d, r);
    }
  }

  lemma EarliestMeans(e: Entry, ingress: Face, name: Name, hops: seq<Face>, now: int, g: Face)
    requires FirstUnused(e, Eligible(ingress, name, hops), now).None? && IsEarliest(e, Eligible(ingress, name, hops), g)
    ensures IsLongestAgo(e, ingress, name, hops, now, g)
  {
    UnusedFirst(e, ingress, name, hops, now);
    hide FirstUnused, IsFirst;
    forall h | h in hops && !RuledOut(ingress, name, h)
      ensures Asked(e, h, now) && e.outRecords[g].renewed <= e.outRecords[h].renewed
    {
      assert h in Eligible(ingress, name, hops);
    }
  }

  lemma ReactionIsRight(s: Suppression, e: Entry, was: Option<int>, ingress: Face, name: Name, hops: seq<Face>, now: int,
                        choice: Choice, r: Option<int>)
    requires Reacts(s, e, was, Eligible(ingress, name, hops), now, choice, r)
    ensures ActsRightly(s, e, was, ingress, name, hops, now, choice)
    ensures choice.Upstream? ==> choice.face in hops && !RuledOut(ingress, name, choice.face)
  {
    var el := Eligible(ingress, name, hops);
    var d :| Decides(s, e, was, now, d, r) && Chooses(d, e, el, now, choice);
    DecisionMeans(s, e, was, now, d, r);
    hide Decides, Awaits, AskedWithin;
    match d
    case Suppress =>
    case New => EligibleFirst(ingress, name, hops);
    case Forward =>
      EligibleFirst(ingress, name, hops);
      UnusedFirst(e, ingress, name, hops, now);
      if FirstUnused(e, el, now).None? && el != [] {
        EarliestMeans(e, ingress, name, hops, now, choice.face);
      }
  }

  class BestRouteStrategy {
    const suppression: Suppression
    /** The suppression interval kept on each PIT entry that has one, by the id of the entry. */
    var intervals: map<nat, int>

    constructor (suppression: Suppression)
      requires Accepted(suppression)
      ensures this.suppression == suppression && intervals == map[]
    {
      this.suppression := suppression;
      intervals := map[];
    }

    function Interval(id: nat): (r: Option<int>)
      reads this`intervals
    {
      if id in intervals then Some(intervals[id]) else None
    }

    /** Only entries created so far have an interval. */
    ghost predicate Covers(nCreated: nat)
      reads this`intervals
    {
      forall id :: id in intervals ==> id < nCreated
    }

    /** An entry starts at the initial interval, whatever an earlier entry of its key had. */
    lemma NewEntryStartsAfresh(f: Fw, k: Key)
      requires Covers(f.nCreated) && k !in f.pit
      ensures Interval(Insert(f, k).pit[k].id) == None
    {
    }

    method AfterReceiveInterest(i: Interest, ingress: Face, e: Entry, hops: seq<Face>, now: int)
      returns (actions: seq<Action>, ghost choice: Choice)
      modifies this`intervals
      ensures Reacts(suppression, e, old(Interval(e.id)), Eligible(ingress, i.key.name, hops), now, choice, Interval(e.id))
      ensures actions == ActionsFor(choice, i, ingress)
      ensures ActsRightly(suppression, e, old(Interval(e.id)), ingress, i.key.name, hops, now, choice)
      ensures forall a :: a in actions && a.SendInterest? ==> a.face in hops && !RuledOut(ingress, i.key.name, a.face)
      ensures forall id :: id != e.id ==> Interval(id) == old(Interval(id))
      ensures forall n :: e.id < n && old(Covers(n)) ==> Covers(n)
    {
      hide Reacts, ActsRightly, RuledOut;
      actions, choice := Settle(i, ingress, e, hops, now);
      ReactionIsRight(suppression, e, old(Interval(e.id)), ingress, i.key.name, hops, now, choice, Interval(e.id));
    }

    /** The three searches. */
    method Settle(i: Interest, ingress: Face, e: Entry, hops: seq<Face>, now: int)
      returns (actions: seq<Action>, ghost choice: Choice)
      modifies this`intervals
      ensures Reacts(suppression, e, old(Interval(e.id)), Eligible(ingress, i.key.name, hops), now, choice, Interval(e.id))
      ensures actions == ActionsFor(choice, i, ingress)
      ensures forall id :: id != e.id ==> Interval(id) == old(Interval(id))
      ensures forall n :: e.id < n && old(Covers(n)) ==> Covers(n)
    {
      hide Decides, FirstUnused, IsEarliest, Eligible;
      ghost var el := Eligible(ingress, i.key.name, hops);
      var d, interval := DecidePerPitEntry(suppression, e, Interval(e.id), now);
      Remember(e.id, interval);
      match d {
        case Suppress =>
          return [], Nothing;
        case New =>
          var first := FindEligible(ingress, i.key.name, hops);
          if first.None? {
            return [SendNack(ingress), SetExpiryTimer(0)], NoRoute;
          }
          return [SendInterest(first.value, i.nonce, i.lifetime, i.hopLimit)], Upstream(first.value);
        case Forward =>
          var unused := FindUnused(e, ingress, i.key.name, hops, now);
          if unused.Some? {
            return [SendInterest(unused.value, i.nonce, i.lifetime, i.hopLimit)], Upstream(unused.value);
          }
          var earliest := FindEarliest(e, ingress, i.key.name, hops, now);
          if earliest.None? {
            return [], Nothing;
          }
          return [SendInterest(earliest.value, i.nonce, i.lifetime, i.hopLimit)], Upstream(earliest.value);
      }
    }

    method Remember(id: nat, interval: Option<int>)
      modifies this`intervals
      ensures Interval(id) == if interval.Some? then interval else old(Interval(id))
      ensures forall j :: j != id ==> Interval(j) == old(Interval(j))
      ensures intervals.Keys <= old(intervals.Keys) + {id}
    {
      if interval.Some? {
        intervals := intervals[id := interval.value];
      }
    }
  }

  // ---------------------------------------------------------------- rotation

  /** One arrival of the pending Interest. */
  datatype Arrival = Arrival(now: int, nonce: Nonce, lifetime: nat)

  /** The entry, its suppression interval, and the upstreams chosen so far with their times. */
  datatype Pending = Pending(entry: Entry, interval: Option<int>, sent: seq<Face>, times: seq<int>)

  ghost predicate Unexpired(e: Entry, now: int) {
    forall g :: g in e.outRecords ==> e.outRecords[g].expiry > now
  }

  /** The next state, when no out-record has expired and every chosen Interest is sent. */
  ghost predicate Arrives(s: Suppression, p: Pending, el: seq<Face>, a: Arrival, q: Pending) {
    && Unexpired(p.entry, a.now)
    && exists choice ::
      && Reacts(s, p.entry, p.interval, el, a.now, choice, q.interval)
      && match choice
         case Upstream(face) =>
           && q.entry == UpdateOutRecord(p.entry, face, a.nonce, a.lifetime, a.now)
           && q.sent == p.sent + [face] && q.times == p.times + [a.now]
         case NoRoute => q.entry == p.entry && q.sent == p.sent && q.times == p.times
         case Nothing => q.entry == p.entry && q.sent == p.sent && q.times == p.times
  }

  /** `i` mod `n`. */
  function Slot(i: nat, n: nat): (r: nat)
    requires n > 0
    ensures r < n
  {
    i % n
  }

  /** The chosen upstream, passed to the forwarder as an action, renews just its out-record. */
  lemma ChoiceIsSent(f: Fw, i: Interest, ingress: Face, face: Face, now: int)
    requires i.key in f.pit && (i.hopLimit == Some(0) ==> face.local)
    ensures var r := ActAll(f, i.key, ActionsFor(Upstream(face), i, ingress), now);
      && r.pit == f.pit[i.key := UpdateOutRecord(f.pit[i.key], face, i.nonce, i.lifetime, now)]
      && r.sentInterests == f.sentInterests + multiset{Sent(face, i.key.name, i.nonce, i.hopLimit)}
  {
    var actions := ActionsFor(Upstream(face), i, ingress);
    assert actions[1..] == [];
  }

  /** Without a route the wait is over: the entry is finalized now, and a point-to-point downstream
      gets a Nack for its in-record. */
  lemma NoRouteEndsWait(f: Fw, i: Interest, ingress: Face, now: int)
    requires i.key in f.pit && ingress in f.pit[i.key].inRecords
    ensures var r := ActAll(f, i.key, ActionsFor(NoRoute, i, ingress), now);
      && r.pit[i.key].timer == Some(now)
      && (if ingress.link == PointToPoint && ingress.id > 0
          then r.sentNacks == f.sentNacks + multiset{ingress} && ingress !in r.pit[i.key].inRecords
          else r.sentNacks == f.sentNacks && r.pit[i.key].inRecords == f.pit[i.key].inRecords)
  {
    var actions := ActionsFor(NoRoute, i, ingress);
    assert actions[1..] == [SetExpiryTimer(0)] && actions[1..][1..] == [];
    var nacked := Act(f, i.key, actions[0], now);
    assert ActAll(f, i.key, actions, now) == ActAll(nacked, i.key, actions[1..], now);
    assert ActAll(nacked, i.key, actions[1..], now) == Act(nacked, i.key, SetExpiryTimer(0), now);
  }

  /** The out-records are those of the last round of sends, in the order of the rotation. */
  ghost predicate Rotating(s: Suppression, p: Pending, el: seq<Face>) {
    var k, n := |p.sent|, |el|;
    && n > 0 && |p.times| == k
    && (forall i, j :: 0 <= i < j < k ==> p.times[i] < p.times[j])
    && (forall i :: 0 <= i < k ==> p.sent[i] == el[Slot(i, n)])
    && (forall g :: g in p.entry.outRecords ==> g in el && !p.entry.outRecords[g].nacked)
    && (forall j :: 0 <= j < n ==> (el[j] in p.entry.outRecords <==> j < k))
    && (forall i :: 0 <= i < k && k - n <= i ==>
          el[Slot(i, n)] in p.entry.outRecords && p.entry.outRecords[el[Slot(i, n)]].renewed == p.times[i])
    && (p.interval.Some? ==> 0 < p.interval.value <= s.max)
  }

  /** Among the last `n` sends there is one to each eligible next hop. */
  lemma SlotOf(k: nat, n: nat, j: nat) returns (i: nat)
    requires j < n <= k
    ensures k - n <= i < k && i % n == j
  {
    var m := k - n;
    var d := if j >= m % n then j - m % n else j + n - m % n;
    ModWindow(m, d, n);
    i := m + d;
  }

  /** The last send is the latest renewal. */
  lemma LastIsLatest(s: Suppression, p: Pending, el: seq<Face>, last: int)
    requires Rotating(s, p, el) && NoDup(el) && p.sent != [] && IsLastOutgoing(p.entry, last)
    ensures last == p.times[|p.times| - 1]
  {
    var k, n := |p.sent|, |el|;
    var latest := el[(k - 1) % n];
    assert latest == el[Slot(k - 1, n)];
    assert p.entry.outRecords[latest].renewed == p.times[k - 1];
    var g :| g in p.entry.outRecords && p.entry.outRecords[g].renewed == last;
    var i := SlotOfRecord(s, p, el, g);
  }

  /** Every out-record is that of one of the last sends. */
  lemma SlotOfRecord(s: Suppression, p: Pending, el: seq<Face>, g: Face) returns (i: nat)
    requires Rotating(s, p, el) && NoDup(el) && g in p.entry.outRecords
    ensures i < |p.sent| && |p.sent| - |el| <= i && el[i % |el|] == g
    ensures p.entry.outRecords[g].renewed == p.times[i]
  {
    var k, n := |p.sent|, |el|;
    var j :| 0 <= j < n && el[j] == g;
    assert forall m: nat :: Slot(m, n) == m % n;
    if k >= n {
      i := SlotOf(k, n, j);
    } else {
      i := j;
      DivModUnique(j, n, 0, j);
    }
  }

  lemma {:induction false} FirstUnusedIs(e: Entry, hops: seq<Face>, now: int, k: nat)
    requires k < |hops| && IsUnused(e, hops[k], now) && forall j :: 0 <= j < k ==> !IsUnused(e, hops[j], now)
    ensures FirstUnused(e, hops, now) == Some(hops[k])
  {
    if k > 0 {
      FirstUnusedIs(e, hops[1..], now, k - 1);
    }
  }

  lemma {:induction false} NoneUnused(e: Entry, hops: seq<Face>, now: int)
    requires forall j :: 0 <= j < |hops| ==> !IsUnused(e, hops[j], now)
    ensures FirstUnused(e, hops, now).None?
  {
    if hops != [] {
      NoneUnused(e, hops[1..], now);
    }
  }

  /** With all next hops used, the earliest one is that of the send a full round ago. */
  lemma EarliestIsNext(s: Suppression, p: Pending, el: seq<Face>, f: Face)
    requires Rotating(s, p, el) && NoDup(el) && |p.sent| >= |el| && IsEarliest(p.entry, el, f)
    ensures f == el[|p.sent| % |el|]
  {
    var k, n := |p.sent|, |el|;
    var i := SlotOfRecord(s, p, el, f);
    DivStep(k, n);
    var g := el[Slot(k - n, n)];
    assert g in el;
    assert p.entry.outRecords[g].renewed == p.times[k - n];
    assert p.times[i] <= p.times[k - n];
    assert i == k - n;
  }

  /** Which upstream a retransmission goes to. */
  lemma ForwardGoesToNext(s: Suppression, p: Pending, el: seq<Face>, now: int, choice: Choice)
    requires Rotating(s, p, el) && NoDup(el) && Unexpired(p.entry, now) && Chooses(Forward, p.entry, el, now, choice)
    ensures choice == Upstream(el[Slot(|p.sent|, |el|)])
  {
    var k, n := |p.sent|, |el|;
    if k < n {
      FirstUnusedIs(p.entry, el, now, k);
      DivModUnique(k, n, 0, k);
    } else {
      NoneUnused(p.entry, el, now);
      EarliestIsNext(s, p, el, choice.face);
    }
  }

  lemma SlotSmall(k: nat, n: nat)
    requires k < n
    ensures Slot(k, n) == k
  {
    DivModUnique(k, n, 0, k);
  }

  lemma SlotsDiffer(i: nat, k: nat, n: nat)
    requires i < k < i + n
    ensures Slot(i, n) != Slot(k, n)
  {
    ModWindow(i, k - i, n);
  }

  lemma KeyAfterSend(out: map<Face, OutRecord>, el: seq<Face>, k: nat, record: OutRecord, j: nat)
    requires NoDup(el) && j < |el| && (el[j] in out <==> j < k)
    ensures el[j] in out[el[Slot(k, |el|)] := record] <==> j < k + 1
  {
    if k < |el| {
      SlotSmall(k, |el|);
    }
  }

  lemma SlotAfterSend(out: map<Face, OutRecord>, el: seq<Face>, k: nat, record: OutRecord, i: nat)
    requires NoDup(el) && i < k < i + |el| && el[Slot(i, |el|)] in out
    ensures var out' := out[el[Slot(k, |el|)] := record];
      el[Slot(i, |el|)] in out' && out'[el[Slot(i, |el|)]] == out[el[Slot(i, |el|)]]
  {
    SlotsDiffer(i, k, |el|);
  }

  lemma SendKeepsRotation(s: Suppression, p: Pending, el: seq<Face>, a: Arrival, q: Pending)
    requires Rotating(s, p, el) && NoDup(el)
    requires p.times != [] ==> p.times[|p.times| - 1] < a.now
    requires var face := el[Slot(|p.sent|, |el|)];
      && q.entry == UpdateOutRecord(p.entry, face, a.nonce, a.lifetime, a.now)
      && q.sent == p.sent + [face] && q.times == p.times + [a.now]
    requires q.interval.Some? ==> 0 < q.interval.value <= s.max
    ensures Rotating(s, q, el)
  {
    hide Slot, Expiry, NoDup;
    var k, n := |p.sent|, |el|;
    var face := el[Slot(k, n)];
    var out, out' := p.entry.outRecords, q.entry.outRecords;
    forall j | 0 <= j < n
      ensures el[j] in out' <==> j < k + 1
    {
      KeyAfterSend(out, el, k, out'[face], j);
    }
    forall i | 0 <= i < k + 1 && k + 1 - n <= i
      ensures el[Slot(i, n)] in out' && out'[el[Slot(i, n)]].renewed == q.times[i]
    {
      if i < k {
        SlotAfterSend(out, el, k, out'[face], i);
      }
    }
  }

  lemma FirstGoesToFirst(s: Suppression, p: Pending, el: seq<Face>, now: int)
    requires Rotating(s, p, el)
    ensures HasPendingOut(p.entry, now) ==> p.sent != []
    ensures Unexpired(p.entry, now) && p.sent != [] ==> HasPendingOut(p.entry, now)
  {
    var k, n := |p.sent|, |el|;
    if p.sent != [] {
      assert el[Slot(k - 1, n)] in p.entry.outRecords;
    }
  }

  lemma ArrivalKeepsRotation(s: Suppression, p: Pending, el: seq<Face>, a: Arrival, q: Pending)
    requires Accepted(s) && NoDup(el) && Rotating(s, p, el) && Arrives(s, p, el, a, q)
    ensures Rotating(s, q, el)
  {
    hide HasPendingOut, FirstUnused, IsEarliest, IsLastOutgoing;
    var choice :| Reacts(s, p.entry, p.interval, el, a.now, choice, q.interval)
      && match choice
         case Upstream(face) =>
           && q.entry == UpdateOutRecord(p.entry, face, a.nonce, a.lifetime, a.now)
           && q.sent == p.sent + [face] && q.times == p.times + [a.now]
         case NoRoute => q.entry == p.entry && q.sent == p.sent && q.times == p.times
         case Nothing => q.entry == p.entry && q.sent == p.sent && q.times == p.times;
    var d :| Decides(s, p.entry, p.interval, a.now, d, q.interval) && Chooses(d, p.entry, el, a.now, choice);
    FirstGoesToFirst(s, p, el, a.now);
    if HasPendingOut(p.entry, a.now) {
      var last :| IsLastOutgoing(p.entry, last) && DecidesSince(s, p.interval, a.now - last, d, q.interval);
      LastIsLatest(s, p, el, last);
      var interval := if p.interval.Some? then p.interval.value else s.initial;
      GrowStaysInBounds(s, interval);
      if d == Forward {
        ForwardGoesToNext(s, p, el, a.now, choice);
        SendKeepsRotation(s, p, el, a, q);
      }
    } else {
      SlotSmall(0, |el|);
      SendKeepsRotation(s, p, el, a, q);
    }
  }

  /** For one downstream, with no Nack, no expired out-record and no drop: over any run of
      arrivals the k-th forwarded Interest goes to eligible next hop k mod n, in FIB order, and
      forwarding times strictly increase. */
  lemma {:induction false} RotationInEveryRun(s: Suppression, ingress: Face, name: Name, hops: seq<Face>,
                                              states: seq<Pending>, arrivals: seq<Arrival>, m: nat)
    requires Accepted(s) && NoDup(hops) && Eligible(ingress, name, hops) != []
    requires |states| == |arrivals| + 1 && m < |states|
    requires states[0].entry.outRecords == map[] && states[0].interval.None? && states[0].sent == [] && states[0].times == []
    requires forall i :: 0 <= i < |arrivals| ==>
      Arrives(s, states[i], Eligible(ingress, name, hops), arrivals[i], states[i + 1])
    ensures var el := Eligible(ingress, name, hops);
      && Rotating(s, states[m], el)
      && forall k :: 0 <= k < |states[m].sent| ==> states[m].sent[k] == el[k % |el|]
  {
    hide Arrives, Eligible;
    var el := Eligible(ingress, name, hops);
    assert forall k: nat :: Slot(k, |el|) == k % |el|;
    if m > 0 {
      RotationInEveryRun(s, ingress, name, hops, states, arrivals, m - 1);
      EligibleNoDup(ingress, name, hops);
      assert Arrives(s, states[m - 1], el, arrivals[m - 1], states[m - 1 + 1]);
      ArrivalKeepsRotation(s, states[m - 1], el, arrivals[m - 1], states[m]);
    }
  }
}
